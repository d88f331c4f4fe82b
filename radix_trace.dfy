/**
 * What EachPrefix promises its callback, stated on the reference trace of
 * `RadixPrefixes.Trace`: every node is handed over with its own full key and
 * values; a callback that never stops sees every node but the root, in the
 * order of `RadixCollect.Preorder`; one that never skips sees a prefix of that
 * order, cut at the node where it halts; halting ends the traversal at once; a
 * callback that skips every branch sees only the root's children.
 */
module RadixTrace {
  import opened RadixTree
  import opened RadixCollect
  import opened RadixPrefixes

  /** The Prefixes of the nodes at `ps`, in order. */
  function Infos<V>(root: Node<V>, ps: seq<Path>): (r: seq<Prefix<V>>)
    requires AllValid(root, ps)
    ensures |r| == |ps| && forall j :: 0 <= j < |ps| ==> r[j] == Info(root, ps[j])
  {
    seq(|ps|, j requires 0 <= j < |ps| => Info(root, ps[j]))
  }

  lemma InfosConcat<V>(root: Node<V>, a: seq<Path>, b: seq<Path>)
    requires AllValid(root, a) && AllValid(root, b)
    ensures AllValid(root, a + b) && Infos(root, a + b) == Infos(root, a) + Infos(root, b)
  {
    assert AllValid(root, a + b) by {
      forall j | 0 <= j < |a + b| ensures ValidPath(root, (a + b)[j]) {
        if j >= |a| {
          assert (a + b)[j] == b[j - |a|];
        }
      }
    }
  }

  /** A callback that never asks to skip or to halt. */
  ghost predicate Continues<V(!new)>(cb: Prefix<V> -> Verdict) {
    forall x :: cb(x) == Verdict(false, false)
  }

  /** A callback that never asks to skip. */
  ghost predicate NeverSkips<V(!new)>(cb: Prefix<V> -> Verdict) {
    forall x :: !cb(x).skipBranch
  }

  /** Every node handed to the callback is a node other than the root, with its
      own full key and values. */
  ghost predicate Genuine<V>(root: Node<V>, r: seq<Prefix<V>>) {
    forall j :: 0 <= j < |r| ==> r[j].node != [] && ValidPath(root, r[j].node) && r[j] == Info(root, r[j].node)
  }

  /** Halting ends the traversal: the callback asks to halt at most once, at
      the last node it is handed, exactly when the traversal reports a halt. */
  ghost predicate HaltsLast<V>(r: (seq<Prefix<V>>, bool), cb: Prefix<V> -> Verdict) {
    && (r.1 ==> |r.0| > 0)
    && forall j :: 0 <= j < |r.0| ==> (cb(r.0[j]).halt <==> r.1 && j == |r.0| - 1)
  }

  lemma ThenGenuine<V>(root: Node<V>, a: (seq<Prefix<V>>, bool), b: (seq<Prefix<V>>, bool))
    requires Genuine(root, a.0) && Genuine(root, b.0)
    ensures Genuine(root, Then(a, b).0)
  {
    if !a.1 {
      forall j | 0 <= j < |a.0 + b.0| ensures (a.0 + b.0)[j] == (if j < |a.0| then a.0[j] else b.0[j - |a.0|]) {
      }
    }
  }

  lemma ThenHaltsLast<V>(a: (seq<Prefix<V>>, bool), b: (seq<Prefix<V>>, bool), cb: Prefix<V> -> Verdict)
    requires HaltsLast(a, cb) && HaltsLast(b, cb)
    ensures HaltsLast(Then(a, b), cb)
  {
    if !a.1 {
      var r := Then(a, b);
      forall j | 0 <= j < |r.0| ensures cb(r.0[j]).halt <==> r.1 && j == |r.0| - 1 {
        if j < |a.0| {
          assert r.0[j] == a.0[j];
        } else {
          assert r.0[j] == b.0[j - |a.0|];
        }
      }
    }
  }

  /** Whatever the callback says, it is handed genuine Prefixes and halting ends
      the traversal. */
  lemma {:induction false} VisitNodeSound<V>(root: Node<V>, p: Path, cb: Prefix<V> -> Verdict)
    requires ValidPath(root, p) && p != []
    ensures Genuine(root, VisitNode(root, p, cb).0) && HaltsLast(VisitNode(root, p, cb), cb)
    decreases At(root, p), 1
  {
    var info := Info(root, p);
    var v := cb(info);
    if !v.halt && !v.skipBranch {
      VisitKidsSound(root, p, |At(root, p).children|, cb);
      ThenGenuine(root, ([info], false), VisitKids(root, p, |At(root, p).children|, cb));
      ThenHaltsLast(([info], false), VisitKids(root, p, |At(root, p).children|, cb), cb);
    }
  }

  lemma {:induction false} VisitKidsSound<V>(root: Node<V>, p: Path, k: nat, cb: Prefix<V> -> Verdict)
    requires ValidPath(root, p) && k <= |At(root, p).children|
    ensures Genuine(root, VisitKids(root, p, k, cb).0) && HaltsLast(VisitKids(root, p, k, cb), cb)
    decreases At(root, p), 0, k
  {
    if k > 0 {
      ChildPath(root, p, k - 1);
      assert At(root, p).children[k - 1] in At(root, p).children;
      VisitNodeSound(root, p + [k - 1], cb);
      VisitKidsSound(root, p, k - 1, cb);
      ThenGenuine(root, VisitNode(root, p + [k - 1], cb), VisitKids(root, p, k - 1, cb));
      ThenHaltsLast(VisitNode(root, p + [k - 1], cb), VisitKids(root, p, k - 1, cb), cb);
    }
  }

  /** EachPrefix hands the callback only nodes other than the root, each with
      its full key and values, and stops right after the callback asks to halt. */
  lemma TraceSound<V>(root: Node<V>, cb: Prefix<V> -> Verdict)
    ensures var r := Trace(root, cb);
      && Genuine(root, r)
      && forall j :: 0 <= j < |r| - 1 ==> !cb(r[j]).halt
  {
    VisitKidsSound(root, [], |root.children|, cb);
  }

  /** A callback that never stops sees the subtree at `p` in depth-first order. */
  lemma {:induction false} VisitNodeAll<V(!new)>(root: Node<V>, p: Path, cb: Prefix<V> -> Verdict)
    requires ValidPath(root, p) && Continues(cb)
    ensures VisitNode(root, p, cb) == (Infos(root, Preorder(root, p)), false)
    decreases At(root, p), 1
  {
    var k := |At(root, p).children|;
    VisitKidsAll(root, p, k, cb);
    InfosConcat(root, [p], PreorderKids(root, p, k));
    assert Infos(root, [p]) == [Info(root, p)];
    assert cb(Info(root, p)) == Verdict(false, false);
  }

  lemma {:induction false} VisitKidsAll<V(!new)>(root: Node<V>, p: Path, k: nat, cb: Prefix<V> -> Verdict)
    requires ValidPath(root, p) && k <= |At(root, p).children| && Continues(cb)
    ensures VisitKids(root, p, k, cb) == (Infos(root, PreorderKids(root, p, k)), false)
    decreases At(root, p), 0, k
  {
    if k > 0 {
      ChildPath(root, p, k - 1);
      assert At(root, p).children[k - 1] in At(root, p).children;
      VisitNodeAll(root, p + [k - 1], cb);
      VisitKidsAll(root, p, k - 1, cb);
      InfosConcat(root, Preorder(root, p + [k - 1]), PreorderKids(root, p, k - 1));
    }
  }

  /** A callback that never asks to skip or halt is handed every node but the
      root, in the order of the stack-driven depth-first traversal. */
  lemma TraceAll<V(!new)>(root: Node<V>, cb: Prefix<V> -> Verdict)
    requires Continues(cb)
    ensures Trace(root, cb) == Infos(root, PreorderKids(root, [], |root.children|))
  {
    VisitKidsAll(root, [], |root.children|, cb);
  }

  /** A callback that never skips sees a prefix of that order, and all of it
      unless it halts. */
  lemma {:induction false} VisitNodeCut<V(!new)>(root: Node<V>, p: Path, cb: Prefix<V> -> Verdict)
    requires ValidPath(root, p) && NeverSkips(cb)
    ensures VisitNode(root, p, cb).0 <= Infos(root, Preorder(root, p))
    ensures !VisitNode(root, p, cb).1 ==> VisitNode(root, p, cb).0 == Infos(root, Preorder(root, p))
    decreases At(root, p), 1
  {
    var k := |At(root, p).children|;
    var info := Info(root, p);
    var r := VisitKids(root, p, k, cb);
    var all := Infos(root, PreorderKids(root, p, k));
    assert Infos(root, Preorder(root, p)) == [info] + all by {
      InfosConcat(root, [p], PreorderKids(root, p, k));
      assert Infos(root, [p]) == [info];
    }
    assert r.0 <= all && (!r.1 ==> r.0 == all) by {
      VisitKidsCut(root, p, k, cb);
    }
    if !cb(info).halt {
      assert VisitNode(root, p, cb) == ([info] + r.0, r.1);
      assert ([info] + r.0) == ([info] + all)[..|r.0| + 1];
    }
  }

  lemma {:induction false} VisitKidsCut<V(!new)>(root: Node<V>, p: Path, k: nat, cb: Prefix<V> -> Verdict)
    requires ValidPath(root, p) && k <= |At(root, p).children| && NeverSkips(cb)
    ensures VisitKids(root, p, k, cb).0 <= Infos(root, PreorderKids(root, p, k))
    ensures !VisitKids(root, p, k, cb).1 ==> VisitKids(root, p, k, cb).0 == Infos(root, PreorderKids(root, p, k))
    decreases At(root, p), 0, k
  {
    if k > 0 {
      ChildPath(root, p, k - 1);
      assert At(root, p).children[k - 1] in At(root, p).children;
      VisitNodeCut(root, p + [k - 1], cb);
      VisitKidsCut(root, p, k - 1, cb);
      InfosConcat(root, Preorder(root, p + [k - 1]), PreorderKids(root, p, k - 1));
    }
  }

  /** EachPrefix with a callback that never skips: the nodes handed over are the
      first ones of the full depth-first order, all of them unless the callback
      halts. */
  lemma TraceCut<V(!new)>(root: Node<V>, cb: Prefix<V> -> Verdict)
    requires NeverSkips(cb)
    ensures Trace(root, cb) <= Infos(root, PreorderKids(root, [], |root.children|))
    ensures (forall j :: 0 <= j < |Trace(root, cb)| ==> !cb(Trace(root, cb)[j]).halt) ==>
              Trace(root, cb) == Infos(root, PreorderKids(root, [], |root.children|))
  {
    var r := VisitKids(root, [], |root.children|, cb);
    VisitKidsCut(root, [], |root.children|, cb);
    VisitKidsSound(root, [], |root.children|, cb);
    if r.1 {
      assert cb(r.0[|r.0| - 1]).halt;
    }
  }

  /** A callback that halts at once is handed one node: the last child of the
      root, which is pushed last and so popped first. */
  lemma TraceHaltAtOnce<V>(root: Node<V>, cb: Prefix<V> -> Verdict)
    requires forall x :: cb(x).halt
    ensures |root.children| == 0 ==> Trace(root, cb) == []
    ensures |root.children| > 0 ==> Trace(root, cb) == [Info(root, [|root.children| - 1])]
  {
    var k := |root.children|;
    if k > 0 {
      ChildPath(root, [], k - 1);
      assert [] + [k - 1] == [k - 1];
      assert cb(Info(root, [k - 1])).halt;
      assert VisitNode(root, [k - 1], cb) == ([Info(root, [k - 1])], true);
    }
  }

  /** The root's children, last first: what a callback that skips every branch
      is handed. */
  function TopLevel<V>(root: Node<V>, k: nat): (r: seq<Prefix<V>>)
    requires k <= |root.children|
    ensures |r| == k
  {
    if k == 0 then []
    else
      ChildPath(root, [], k - 1);
      assert [] + [k - 1] == [k - 1];
      [Info(root, [k - 1])] + TopLevel(root, k - 1)
  }

  /** Entry `j` of TopLevel is child `k - 1 - j` of the root. */
  lemma {:induction false} TopLevelAt<V>(root: Node<V>, k: nat, j: nat)
    requires j < k <= |root.children|
    ensures ValidPath(root, [k - 1 - j]) && TopLevel(root, k)[j] == Info(root, [k - 1 - j])
  {
    if j == 0 {
      ChildPath(root, [], k - 1);
      assert [] + [k - 1] == [k - 1];
    } else {
      TopLevelAt(root, k - 1, j - 1);
    }
  }

  lemma {:induction false} VisitKidsSkip<V>(root: Node<V>, k: nat, cb: Prefix<V> -> Verdict)
    requires k <= |root.children|
    requires forall x :: !cb(x).halt && cb(x).skipBranch
    ensures VisitKids(root, [], k, cb) == (TopLevel(root, k), false)
  {
    if k > 0 {
      ChildPath(root, [], k - 1);
      assert [] + [k - 1] == [k - 1];
      assert !cb(Info(root, [k - 1])).halt && cb(Info(root, [k - 1])).skipBranch;
      VisitKidsSkip(root, k - 1, cb);
    }
  }

  /** Skipping every branch: the callback is handed the root's children only,
      last first, and nothing below them. */
  lemma TraceSkipAll<V>(root: Node<V>, cb: Prefix<V> -> Verdict)
    requires forall x :: !cb(x).halt && cb(x).skipBranch
    ensures Trace(root, cb) == TopLevel(root, |root.children|)
  {
    VisitKidsSkip(root, |root.children|, cb);
  }
}
