/**
 * What EachPrefix of search/similarity.go hands its callback, as a reference
 * trace: the nodes in the depth-first order of `RadixCollect.Preorder`, each
 * with its full key and its values, cut short below a node the callback asks to
 * skip and ended at the first node it asks to halt at. The root is never
 * handed over.
 *
 * The source's callback returns its verdict and has no other effect the map
 * can see, so the trace of its arguments is what the traversal does.
 */
module RadixPrefixes {
  import opened RadixTree
  import opened RadixCollect

  /** What the callback is given: the node (its path), its full key and values. */
  datatype Prefix<V> = Prefix(node: Path, key: string, values: seq<V>)

  /** What the callback returns. */
  datatype Verdict = Verdict(skipBranch: bool, halt: bool)

  /** The Prefix of the node at `p`. */
  function Info<V>(root: Node<V>, p: Path): (r: Prefix<V>)
    requires ValidPath(root, p)
    ensures r.node == p && r.values == At(root, p).data
  {
    Prefix(p, FullKey(root, p), At(root, p).data)
  }

  /** Running `a` and then, unless it halted, `b`. */
  function Then<V>(a: (seq<Prefix<V>>, bool), b: (seq<Prefix<V>>, bool)): (seq<Prefix<V>>, bool) {
    if a.1 then a else (a.0 + b.0, b.1)
  }

  /** The callbacks of the subtree at `p` (not the root), and whether one halted. */
  function VisitNode<V>(root: Node<V>, p: Path, cb: Prefix<V> -> Verdict): (r: (seq<Prefix<V>>, bool))
    requires ValidPath(root, p)
    decreases At(root, p), 1
  {
    var info := Info(root, p);
    var v := cb(info);
    if v.halt then ([info], true)
    else if v.skipBranch then ([info], false)
    else Then(([info], false), VisitKids(root, p, |At(root, p).children|, cb))
  }

  /** The callbacks of the subtrees of the first `k` children of `p`, child
      `k-1` first. */
  function VisitKids<V>(root: Node<V>, p: Path, k: nat, cb: Prefix<V> -> Verdict): (r: (seq<Prefix<V>>, bool))
    requires ValidPath(root, p) && k <= |At(root, p).children|
    decreases At(root, p), 0, k
  {
    if k == 0 then ([], false)
    else
      ChildPath(root, p, k - 1);
      assert At(root, p).children[k - 1] in At(root, p).children;
      Then(VisitNode(root, p + [k - 1], cb), VisitKids(root, p, k - 1, cb))
  }

  /** The callbacks still to come, given the stack `s` (bottom first); the root,
      when popped, only has its children pushed. */
  function VisitPending<V>(root: Node<V>, s: seq<Path>, cb: Prefix<V> -> Verdict): (seq<Prefix<V>>, bool)
    requires AllValid(root, s)
    decreases |s|
  {
    if s == [] then ([], false)
    else
      var top := s[|s| - 1];
      var first := if top == [] then VisitKids(root, [], |root.children|, cb) else VisitNode(root, top, cb);
      Then(first, VisitPending(root, s[..|s| - 1], cb))
  }

  /** EachPrefix: the callbacks over the whole map. */
  function Trace<V>(root: Node<V>, cb: Prefix<V> -> Verdict): seq<Prefix<V>> {
    VisitKids(root, [], |root.children|, cb).0
  }

  /** Then is associative and has a unit. */
  lemma ThenAssoc<V>(a: (seq<Prefix<V>>, bool), b: (seq<Prefix<V>>, bool), c: (seq<Prefix<V>>, bool))
    ensures Then(Then(a, b), c) == Then(a, Then(b, c))
    ensures Then(a, ([], false)) == a
  {
    if !a.1 && !b.1 {
      assert (a.0 + b.0) + c.0 == a.0 + (b.0 + c.0);
    }
    if !a.1 {
      assert a.0 + [] == a.0;
    }
  }

  /** The stack `a + b` runs `b` (the upper part) before `a`. */
  lemma {:induction false} VisitPendingConcat<V>(root: Node<V>, a: seq<Path>, b: seq<Path>, cb: Prefix<V> -> Verdict)
    requires AllValid(root, a) && AllValid(root, b)
    ensures AllValid(root, a + b)
    ensures VisitPending(root, a + b, cb) == Then(VisitPending(root, b, cb), VisitPending(root, a, cb))
    decreases |b|
  {
    if b == [] {
      assert a + b == a;
      assert [] + VisitPending(root, a, cb).0 == VisitPending(root, a, cb).0;
    } else {
      var top := b[|b| - 1];
      assert (a + b)[..|a + b| - 1] == a + b[..|b| - 1];
      assert (a + b)[|a + b| - 1] == top;
      VisitPendingConcat(root, a, b[..|b| - 1], cb);
      var first := if top == [] then VisitKids(root, [], |root.children|, cb) else VisitNode(root, top, cb);
      ThenAssoc(first, VisitPending(root, b[..|b| - 1], cb), VisitPending(root, a, cb));
    }
  }

  /** Pushing the first `k` children of `p` in order runs them last child first. */
  lemma {:induction false} VisitPendingChildren<V>(root: Node<V>, p: Path, k: nat, cb: Prefix<V> -> Verdict)
    requires ValidPath(root, p) && k <= |At(root, p).children|
    ensures AllValid(root, ChildPaths(p, k))
    ensures VisitPending(root, ChildPaths(p, k), cb) == VisitKids(root, p, k, cb)
  {
    PendingChildren(root, p, k);
    if k > 0 {
      assert ChildPaths(p, k)[..k - 1] == ChildPaths(p, k - 1);
      VisitPendingChildren(root, p, k - 1, cb);
    }
  }

  /** A visit followed by the rest is the rest with the visit appended first. */
  lemma ThenVisit<V>(visits: seq<Prefix<V>>, info: Prefix<V>, x: (seq<Prefix<V>>, bool))
    ensures Then((visits, false), Then(([info], false), x)) == Then((visits + [info], false), x)
  {
    assert visits + ([info] + x.0) == (visits + [info]) + x.0;
  }

  /** One round of EachPrefix's loop: the callbacks still to come once the top of
      the stack is popped and, unless the callback says otherwise, its children
      are pushed. */
  lemma VisitPop<V>(root: Node<V>, s: seq<Path>, cb: Prefix<V> -> Verdict)
    requires AllValid(root, s) && s != []
    ensures var p := s[|s| - 1];
      var rest := s[..|s| - 1];
      var kids := rest + ChildPaths(p, |At(root, p).children|);
      AllValid(root, rest) && AllValid(root, kids) &&
      (p == [] ==> VisitPending(root, s, cb) == VisitPending(root, kids, cb)) &&
      (p != [] && cb(Info(root, p)).halt ==> VisitPending(root, s, cb) == ([Info(root, p)], true)) &&
      (p != [] && !cb(Info(root, p)).halt && cb(Info(root, p)).skipBranch ==>
        VisitPending(root, s, cb) == Then(([Info(root, p)], false), VisitPending(root, rest, cb))) &&
      (p != [] && !cb(Info(root, p)).halt && !cb(Info(root, p)).skipBranch ==>
        VisitPending(root, s, cb) == Then(([Info(root, p)], false), VisitPending(root, kids, cb)))
  {
    var p := s[|s| - 1];
    var rest := s[..|s| - 1];
    var k := |At(root, p).children|;
    VisitPendingChildren(root, p, k, cb);
    VisitPendingConcat(root, rest, ChildPaths(p, k), cb);
    if p != [] {
      ThenAssoc(([Info(root, p)], false), VisitKids(root, p, k, cb), VisitPending(root, rest, cb));
    }
  }

  /** The stack holding only the root runs the whole trace. */
  lemma VisitPendingRoot<V>(root: Node<V>, cb: Prefix<V> -> Verdict)
    ensures AllValid(root, [[]])
    ensures VisitPending(root, [[]], cb) == VisitKids(root, [], |root.children|, cb)
  {
    var s: seq<Path> := [[]];
    assert s[..0] == [];
    ThenAssoc(VisitKids(root, [], |root.children|, cb), ([], false), ([], false));
  }

  /** The sum of a sequence of lengths. */
  function Sum(s: seq<nat>): nat {
    if s == [] then 0 else Sum(s[..|s| - 1]) + s[|s| - 1]
  }

  lemma {:induction false} SumConcat(a: seq<nat>, b: seq<nat>)
    ensures Sum(a + b) == Sum(a) + Sum(b)
    decreases |b|
  {
    if b == [] {
      assert a + b == a;
    } else {
      assert (a + b)[..|a + b| - 1] == a + b[..|b| - 1];
      SumConcat(a, b[..|b| - 1]);
    }
  }

  /** The lengths of the key fragments from the first node below `n` down to the
      node at `p`: what EachPrefix keeps on its second stack. */
  function Lengths<V>(n: Node<V>, p: Path): (r: seq<nat>)
    requires ValidPath(n, p)
    ensures |r| == |p|
    decreases p
  {
    if p == [] then [] else [|n.children[p[0]].key|] + Lengths(n.children[p[0]], p[1..])
  }

  /** The fragment lengths add up to the length of the full key. */
  lemma {:induction false} LengthsSum<V>(n: Node<V>, p: Path)
    requires ValidPath(n, p)
    ensures Sum(Lengths(n, p)) == |FullKey(n, p)|
    decreases p
  {
    if p != [] {
      LengthsSum(n.children[p[0]], p[1..]);
      SumConcat([|n.children[p[0]].key|], Lengths(n.children[p[0]], p[1..]));
      assert Sum([|n.children[p[0]].key|]) == |n.children[p[0]].key| by {
        assert [|n.children[p[0]].key|][..0] == [];
      }
    }
  }

  /** The ancestor at depth `j`: its lengths are the first `j` and its full key is
      the part of the full key they add up to. */
  lemma {:induction false} LengthsPrefix<V>(n: Node<V>, p: Path, j: nat)
    requires ValidPath(n, p) && j <= |p|
    ensures ValidPath(n, p[..j])
    ensures Lengths(n, p[..j]) == Lengths(n, p)[..j]
    ensures Sum(Lengths(n, p)[..j]) <= |FullKey(n, p)|
    ensures FullKey(n, p[..j]) == FullKey(n, p)[..Sum(Lengths(n, p)[..j])]
    decreases p
  {
    var L := Lengths(n, p);
    assert Sum(L[..j]) <= |FullKey(n, p)| by {
      LengthsSum(n, p);
      SumConcat(L[..j], L[j..]);
      assert L[..j] + L[j..] == L;
    }
    if j > 0 {
      var c, q := n.children[p[0]], p[1..];
      assert p[..j][0] == p[0] && p[..j][1..] == q[..j - 1];
      LengthsPrefix(c, q, j - 1);
      var M := Lengths(c, q);
      var s := Sum(M[..j - 1]);
      assert L[..j] == [|c.key|] + M[..j - 1];
      assert Sum(L[..j]) == |c.key| + s by {
        SumConcat([|c.key|], M[..j - 1]);
        assert [|c.key|][..0] == [];
      }
      assert FullKey(n, p[..j]) == c.key + FullKey(c, q)[..s];
      assert (c.key + FullKey(c, q))[..|c.key| + s] == c.key + FullKey(c, q)[..s];
    }
  }

  /** A child adds its fragment's length. */
  lemma {:induction false} LengthsChild<V>(n: Node<V>, p: Path, j: nat)
    requires ValidPath(n, p) && j < |At(n, p).children|
    ensures ValidPath(n, p + [j])
    ensures Lengths(n, p + [j]) == Lengths(n, p) + [|At(n, p).children[j].key|]
    decreases p
  {
    ChildPath(n, p, j);
    if p != [] {
      assert (p + [j])[0] == p[0] && (p + [j])[1..] == p[1..] + [j];
      LengthsChild(n.children[p[0]], p[1..], j);
    }
  }
}
