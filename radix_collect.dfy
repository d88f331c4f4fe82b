/**
 * The depth-first order in which GetByPrefix and EachPrefix of
 * search/similarity.go meet the nodes of a subtree, and the values GetByPrefix
 * gathers along it.
 *
 * Both traversals pop a node from a stack and push its children first to last,
 * so the last child is met first: `Preorder(root, p)` is the node at `p`
 * followed by the subtrees of its children from the last to the first.
 */
module RadixCollect {
  import opened RadixTree

  /** Every path of `ps` names a node. */
  ghost predicate AllValid<V>(root: Node<V>, ps: seq<Path>) {
    forall j :: 0 <= j < |ps| ==> ValidPath(root, ps[j])
  }

  /** The paths of the subtree at `p`, in the order a stack-driven depth-first
      traversal pops them: `p` first, every path extends `p`. */
  function Preorder<V>(root: Node<V>, p: Path): (r: seq<Path>)
    requires ValidPath(root, p)
    ensures |r| > 0 && r[0] == p && AllValid(root, r)
    ensures forall j :: 0 <= j < |r| ==> p <= r[j]
    decreases At(root, p), 1
  {
    [p] + PreorderKids(root, p, |At(root, p).children|)
  }

  /** The subtrees of the first `k` children of the node at `p`, child `k-1` first. */
  function PreorderKids<V>(root: Node<V>, p: Path, k: nat): (r: seq<Path>)
    requires ValidPath(root, p) && k <= |At(root, p).children|
    ensures AllValid(root, r)
    ensures forall j :: 0 <= j < |r| ==> p <= r[j] && |p| < |r[j]| && r[j][|p|] < k
    decreases At(root, p), 0, k
  {
    if k == 0 then []
    else
      ChildPath(root, p, k - 1);
      assert At(root, p).children[k - 1] in At(root, p).children;
      var first := Preorder(root, p + [k - 1]);
      var rest := PreorderKids(root, p, k - 1);
      assert forall j :: 0 <= j < |first| ==> first[j][|p|] == (p + [k - 1])[|p|] == k - 1 by {
        forall j | 0 <= j < |first| ensures first[j][|p|] == k - 1 {
          assert (p + [k - 1]) <= first[j];
        }
      }
      first + rest
  }

  /** The paths of the children of `p` below `k`, first child first: what the
      traversals push after popping the node at `p`. */
  function ChildPaths(p: Path, k: nat): (r: seq<Path>)
    ensures |r| == k && forall j :: 0 <= j < k ==> r[j] == p + [j]
  {
    seq(k, j => p + [j])
  }

  /** The paths still to be popped, given the stack `s` (bottom first): the
      subtree of the top first, then the rest of the stack. */
  function Pending<V>(root: Node<V>, s: seq<Path>): (r: seq<Path>)
    requires AllValid(root, s)
    ensures AllValid(root, r)
    decreases |s|
  {
    if s == [] then [] else Preorder(root, s[|s| - 1]) + Pending(root, s[..|s| - 1])
  }

  /** The values of the nodes at `ps`, in order. */
  function Values<V>(root: Node<V>, ps: seq<Path>): seq<V>
    requires AllValid(root, ps)
  {
    if ps == [] then [] else At(root, ps[0]).data + Values(root, ps[1..])
  }

  /** The values stored in a subtree, as a multiset. */
  function Stored<V>(n: Node<V>): multiset<V>
    decreases n, 1
  {
    multiset(n.data) + StoredKids(n, |n.children|)
  }

  /** The values stored below the first `k` children of `n`. */
  function StoredKids<V>(n: Node<V>, k: nat): multiset<V>
    requires k <= |n.children|
    decreases n, 0, k
  {
    if k == 0 then multiset{}
    else
      assert n.children[k - 1] in n.children;
      Stored(n.children[k - 1]) + StoredKids(n, k - 1)
  }

  /** Values distributes over concatenation. */
  lemma {:induction false} ValuesConcat<V>(root: Node<V>, a: seq<Path>, b: seq<Path>)
    requires AllValid(root, a) && AllValid(root, b)
    ensures AllValid(root, a + b)
    ensures Values(root, a + b) == Values(root, a) + Values(root, b)
  {
    if a == [] {
      assert a + b == b;
    } else {
      assert (a + b)[1..] == a[1..] + b;
      ValuesConcat(root, a[1..], b);
    }
  }

  /** The stack `a + b` pops all of `b` (the upper part) before `a`. */
  lemma {:induction false} PendingConcat<V>(root: Node<V>, a: seq<Path>, b: seq<Path>)
    requires AllValid(root, a) && AllValid(root, b)
    ensures AllValid(root, a + b)
    ensures Pending(root, a + b) == Pending(root, b) + Pending(root, a)
    decreases |b|
  {
    if b == [] {
      assert a + b == a;
    } else {
      assert (a + b)[..|a + b| - 1] == a + b[..|b| - 1];
      PendingConcat(root, a, b[..|b| - 1]);
    }
  }

  /** Pushing the first `k` children of `p` in order leaves their subtrees to be
      popped last child first. */
  lemma {:induction false} PendingChildren<V>(root: Node<V>, p: Path, k: nat)
    requires ValidPath(root, p) && k <= |At(root, p).children|
    ensures AllValid(root, ChildPaths(p, k))
    ensures Pending(root, ChildPaths(p, k)) == PreorderKids(root, p, k)
  {
    forall j | 0 <= j < k ensures ValidPath(root, ChildPaths(p, k)[j]) {
      ChildPath(root, p, j);
    }
    if k > 0 {
      assert ChildPaths(p, k)[..k - 1] == ChildPaths(p, k - 1);
      PendingChildren(root, p, k - 1);
    }
  }

  /** One round of the traversals: popping the top `p` and pushing its children
      leaves the rest of `p`'s subtree, then the rest of the stack. */
  lemma PendingPop<V>(root: Node<V>, s: seq<Path>)
    requires AllValid(root, s) && s != []
    ensures var p := s[|s| - 1];
      var next := s[..|s| - 1] + ChildPaths(p, |At(root, p).children|);
      AllValid(root, next) &&
      Pending(root, s) == [p] + Pending(root, next)
  {
    var p := s[|s| - 1];
    var k := |At(root, p).children|;
    PendingChildren(root, p, k);
    PendingConcat(root, s[..|s| - 1], ChildPaths(p, k));
  }

  /** GetByPrefix gathers every value of the subtree exactly once. */
  lemma {:induction false} PreorderStored<V>(root: Node<V>, p: Path)
    requires ValidPath(root, p)
    ensures multiset(Values(root, Preorder(root, p))) == Stored(At(root, p))
    decreases At(root, p), 1
  {
    var n := At(root, p);
    var kids := PreorderKids(root, p, |n.children|);
    assert Preorder(root, p)[1..] == kids;
    PreorderKidsStored(root, p, |n.children|);
  }

  /** The subtrees of the first `k` children hold what StoredKids counts. */
  lemma {:induction false} PreorderKidsStored<V>(root: Node<V>, p: Path, k: nat)
    requires ValidPath(root, p) && k <= |At(root, p).children|
    ensures multiset(Values(root, PreorderKids(root, p, k))) == StoredKids(At(root, p), k)
    decreases At(root, p), 0, k
  {
    if k > 0 {
      var n := At(root, p);
      ChildPath(root, p, k - 1);
      assert n.children[k - 1] in n.children;
      PreorderStored(root, p + [k - 1]);
      PreorderKidsStored(root, p, k - 1);
      ValuesConcat(root, Preorder(root, p + [k - 1]), PreorderKids(root, p, k - 1));
    }
  }
}
