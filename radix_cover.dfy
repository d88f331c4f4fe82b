/**
 * Which nodes the traversals of search/similarity.go reach. The depth-first
 * order of `RadixCollect.Preorder` lists every node of a subtree exactly once,
 * so GetByPrefix collects each node's values once and EachPrefix, with a
 * callback that never skips or halts, hands over every node but the root once.
 * A callback that skips at one node cuts exactly that node's descendants.
 */
module RadixCover {
  import opened RadixTree
  import opened RadixCollect
  import opened RadixPrefixes
  import opened RadixTrace

  /** No path occurs twice. */
  ghost predicate Distinct(ps: seq<Path>) {
    forall i, j :: 0 <= i < j < |ps| ==> ps[i] != ps[j]
  }

  /** The nodes a sequence of callback arguments stands for. */
  function Nodes<V>(r: seq<Prefix<V>>): seq<Path> {
    seq(|r|, j requires 0 <= j < |r| => r[j].node)
  }

  /** Every prefix of a node's path names a node, and the next index names one
      of its children. */
  lemma {:induction false} PrefixValid<V>(n: Node<V>, q: Path, i: nat)
    requires ValidPath(n, q) && i < |q|
    ensures ValidPath(n, q[..i]) && q[i] < |At(n, q[..i]).children|
    decreases |q| - i
  {
    if i == |q| - 1 {
      ParentPath(n, q);
    } else {
      PrefixValid(n, q, i + 1);
      ParentPath(n, q[..i + 1]);
      assert q[..i + 1][..i] == q[..i];
    }
  }

  /** A child's path is a prefix of `q` exactly when the parent's is and `q`
      goes on through that child. */
  lemma ChildPrefix(p: Path, j: nat, q: Path)
    ensures p + [j] <= q <==> p <= q && |p| < |q| && q[|p|] == j
  {
    if p <= q && |p| < |q| && q[|p|] == j {
      assert q[..|p| + 1] == q[..|p|] + [q[|p|]];
    }
    if p + [j] <= q {
      assert q[..|p|] == (p + [j])[..|p|];
    }
  }

  /** The subtree at `p` lists exactly the nodes at or below `p`. */
  lemma {:induction false} PreorderHas<V>(root: Node<V>, p: Path, q: Path)
    requires ValidPath(root, p)
    ensures q in Preorder(root, p) <==> p <= q && ValidPath(root, q)
    decreases At(root, p), 1
  {
    var k := |At(root, p).children|;
    PreorderKidsHas(root, p, k, q);
    assert Preorder(root, p) == [p] + PreorderKids(root, p, k);
    if p <= q && ValidPath(root, q) && q != p {
      PrefixValid(root, q, |p|);
      assert q[..|p|] == p;
    }
  }

  /** The subtrees of the first `k` children of `p` list exactly the nodes below
      those children. */
  lemma {:induction false} PreorderKidsHas<V>(root: Node<V>, p: Path, k: nat, q: Path)
    requires ValidPath(root, p) && k <= |At(root, p).children|
    ensures q in PreorderKids(root, p, k) <==> ValidPath(root, q) && p <= q && |p| < |q| && q[|p|] < k
    decreases At(root, p), 0, k
  {
    if k > 0 {
      ChildPath(root, p, k - 1);
      assert At(root, p).children[k - 1] in At(root, p).children;
      PreorderHas(root, p + [k - 1], q);
      PreorderKidsHas(root, p, k - 1, q);
      ChildPrefix(p, k - 1, q);
      assert PreorderKids(root, p, k) == Preorder(root, p + [k - 1]) + PreorderKids(root, p, k - 1);
    }
  }

  /** Two duplicate-free sequences with nothing in common concatenate to a
      duplicate-free one. */
  lemma DistinctConcat(a: seq<Path>, b: seq<Path>)
    requires Distinct(a) && Distinct(b)
    requires forall i, j :: 0 <= i < |a| && 0 <= j < |b| ==> a[i] != b[j]
    ensures Distinct(a + b)
  {
    forall i, j | 0 <= i < j < |a + b| ensures (a + b)[i] != (a + b)[j] {
      if j < |a| {
        assert (a + b)[i] == a[i] && (a + b)[j] == a[j];
      } else if i < |a| {
        assert (a + b)[i] == a[i] && (a + b)[j] == b[j - |a|];
      } else {
        assert (a + b)[i] == b[i - |a|] && (a + b)[j] == b[j - |a|];
      }
    }
  }

  /** The subtree at `p` lists no node twice. */
  lemma {:induction false} PreorderDistinct<V>(root: Node<V>, p: Path)
    requires ValidPath(root, p)
    ensures Distinct(Preorder(root, p))
    decreases At(root, p), 1
  {
    var k := |At(root, p).children|;
    var kids := PreorderKids(root, p, k);
    PreorderKidsDistinct(root, p, k);
    forall j | 0 <= j < |kids| ensures p != kids[j] {
      assert |p| < |kids[j]|;
    }
    DistinctConcat([p], kids);
  }

  /** The subtrees of the first `k` children of `p` list no node twice. */
  lemma {:induction false} PreorderKidsDistinct<V>(root: Node<V>, p: Path, k: nat)
    requires ValidPath(root, p) && k <= |At(root, p).children|
    ensures Distinct(PreorderKids(root, p, k))
    decreases At(root, p), 0, k
  {
    if k > 0 {
      ChildPath(root, p, k - 1);
      assert At(root, p).children[k - 1] in At(root, p).children;
      var first := Preorder(root, p + [k - 1]);
      var rest := PreorderKids(root, p, k - 1);
      PreorderDistinct(root, p + [k - 1]);
      PreorderKidsDistinct(root, p, k - 1);
      forall i, j | 0 <= i < |first| && 0 <= j < |rest| ensures first[i] != rest[j] {
        ChildPrefix(p, k - 1, first[i]);
        assert first[i][|p|] == k - 1 && rest[j][|p|] < k - 1;
      }
      DistinctConcat(first, rest);
    }
  }

  /** The children's subtrees of the root list every node but the root, once. */
  lemma RootKidsCover<V>(root: Node<V>)
    ensures var ps := PreorderKids(root, [], |root.children|);
      && Distinct(ps)
      && forall q :: q in ps <==> q != [] && ValidPath(root, q)
  {
    var ps := PreorderKids(root, [], |root.children|);
    PreorderKidsDistinct(root, [], |root.children|);
    forall q ensures q in ps <==> q != [] && ValidPath(root, q) {
      PreorderKidsHas(root, [], |root.children|, q);
      if q != [] && ValidPath(root, q) {
        PrefixValid(root, q, 0);
        assert q[..0] == [];
      }
    }
  }

  /** EachPrefix with a callback that neither skips nor halts hands over every
      node except the root exactly once, each with its own full key and values. */
  lemma TraceCovers<V(!new)>(root: Node<V>, cb: Prefix<V> -> Verdict)
    requires Continues(cb)
    ensures var ns := Nodes(Trace(root, cb));
      && Distinct(ns)
      && (forall q :: q in ns <==> q != [] && ValidPath(root, q))
      && forall j :: 0 <= j < |ns| ==> Trace(root, cb)[j] == Info(root, ns[j])
  {
    TraceAll(root, cb);
    RootKidsCover(root);
    assert Nodes(Trace(root, cb)) == PreorderKids(root, [], |root.children|);
  }

  /** A callback that never halts and asks to skip exactly at node `p`. */
  ghost predicate SkipsOnlyAt<V(!new)>(cb: Prefix<V> -> Verdict, p: Path) {
    forall x :: !cb(x).halt && (cb(x).skipBranch <==> x.node == p)
  }

  /** The subtree at `q` in depth-first order, with the nodes strictly below `p`
      cut away. */
  function Pruned<V>(root: Node<V>, q: Path, p: Path): (r: seq<Path>)
    requires ValidPath(root, q)
    ensures AllValid(root, r)
    decreases At(root, q), 1
  {
    if q == p then [q] else [q] + PrunedKids(root, q, |At(root, q).children|, p)
  }

  /** The same for the subtrees of the first `k` children of `q`, child `k-1`
      first. */
  function PrunedKids<V>(root: Node<V>, q: Path, k: nat, p: Path): (r: seq<Path>)
    requires ValidPath(root, q) && k <= |At(root, q).children|
    ensures AllValid(root, r)
    decreases At(root, q), 0, k
  {
    if k == 0 then []
    else
      ChildPath(root, q, k - 1);
      assert At(root, q).children[k - 1] in At(root, q).children;
      Pruned(root, q + [k - 1], p) + PrunedKids(root, q, k - 1, p)
  }

  /** A callback that skips only at `p` is handed the pruned subtree. */
  lemma {:induction false} VisitNodePruned<V(!new)>(root: Node<V>, q: Path, cb: Prefix<V> -> Verdict, p: Path)
    requires ValidPath(root, q) && SkipsOnlyAt(cb, p)
    ensures VisitNode(root, q, cb) == (Infos(root, Pruned(root, q, p)), false)
    decreases At(root, q), 1
  {
    var k := |At(root, q).children|;
    assert Infos(root, [q]) == [Info(root, q)];
    assert !cb(Info(root, q)).halt;
    if q != p {
      VisitKidsPruned(root, q, k, cb, p);
      InfosConcat(root, [q], PrunedKids(root, q, k, p));
    }
  }

  lemma {:induction false} VisitKidsPruned<V(!new)>(root: Node<V>, q: Path, k: nat, cb: Prefix<V> -> Verdict, p: Path)
    requires ValidPath(root, q) && k <= |At(root, q).children| && SkipsOnlyAt(cb, p)
    ensures VisitKids(root, q, k, cb) == (Infos(root, PrunedKids(root, q, k, p)), false)
    decreases At(root, q), 0, k
  {
    if k > 0 {
      ChildPath(root, q, k - 1);
      assert At(root, q).children[k - 1] in At(root, q).children;
      VisitNodePruned(root, q + [k - 1], cb, p);
      VisitKidsPruned(root, q, k - 1, cb, p);
      InfosConcat(root, Pruned(root, q + [k - 1], p), PrunedKids(root, q, k - 1, p));
    }
  }

  /** Below a node `q` that is not a strict descendant of `p`, the pruned subtree
      holds a node exactly when it is at or below `q` and not strictly below `p`. */
  lemma {:induction false} PrunedHas<V>(root: Node<V>, q: Path, p: Path, x: Path)
    requires ValidPath(root, q) && !(p < q)
    ensures x in Pruned(root, q, p) <==> q <= x && ValidPath(root, x) && !(p < x)
    decreases At(root, q), 1
  {
    var k := |At(root, q).children|;
    if q == p {
      if q <= x && !(p < x) {
        assert x == q;
      }
    } else {
      PrunedKidsHas(root, q, k, p, x);
      if q <= x && ValidPath(root, x) && x != q {
        PrefixValid(root, x, |q|);
        assert x[..|q|] == q;
      }
    }
  }

  /** The same for the first `k` children of a node `q` that is neither `p`
      nor below it. */
  lemma {:induction false} PrunedKidsHas<V>(root: Node<V>, q: Path, k: nat, p: Path, x: Path)
    requires ValidPath(root, q) && k <= |At(root, q).children| && !(p <= q)
    ensures x in PrunedKids(root, q, k, p) <==>
      ValidPath(root, x) && q <= x && |q| < |x| && x[|q|] < k && !(p < x)
    decreases At(root, q), 0, k
  {
    if k > 0 {
      var c := q + [k - 1];
      ChildPath(root, q, k - 1);
      assert At(root, q).children[k - 1] in At(root, q).children;
      assert !(p < c) by {
        ChildPrefix(q, k - 1, p);
      }
      PrunedHas(root, c, p, x);
      PrunedKidsHas(root, q, k - 1, p, x);
      ChildPrefix(q, k - 1, x);
      assert PrunedKids(root, q, k, p) == Pruned(root, c, p) + PrunedKids(root, q, k - 1, p);
    }
  }

  /** EachPrefix with a callback that never halts and skips only at a node `p`
      other than the root: no strict descendant of `p` is handed over, and every
      other node except the root is. */
  lemma TraceSkipOne<V(!new)>(root: Node<V>, cb: Prefix<V> -> Verdict, p: Path)
    requires SkipsOnlyAt(cb, p) && p != []
    ensures forall x :: x in Nodes(Trace(root, cb)) <==> x != [] && ValidPath(root, x) && !(p < x)
  {
    var ps := PrunedKids(root, [], |root.children|, p);
    VisitKidsPruned(root, [], |root.children|, cb, p);
    assert Nodes(Trace(root, cb)) == ps;
    forall x ensures x in ps <==> x != [] && ValidPath(root, x) && !(p < x) {
      PrunedKidsHas(root, [], |root.children|, p, x);
      if x != [] && ValidPath(root, x) {
        PrefixValid(root, x, 0);
        assert x[..0] == [];
      }
    }
  }
}
