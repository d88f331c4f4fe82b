/**
 * The radix tree behind PrefixMap in search/similarity.go, as a value.
 *
 * A `Node` holds its key fragment, its values and its children in insertion
 * order. The root has the empty key and is never visited by the traversals.
 * A node is named by its `Path`, the child indices leading to it from the root;
 * the parent of a node is the node at its path without the last index, which is
 * what the source's `Parent` fields record.
 */
module RadixTree {
  import opened Wrappers

  type Path = seq<nat>

  datatype Node<V> = Node(key: string, data: seq<V>, children: seq<Node<V>>, isLeaf: bool)

  /** New: the root of an empty map. */
  function NewRoot<V>(): (r: Node<V>)
    ensures r.key == [] && r.data == [] && r.children == [] && !r.isLeaf
  {
    Node([], [], [], false)
  }

  /** The scan of lcpIndex: the first position from `i` on below both lengths
      where `min` and `max` differ, or `|min|` if there is none. */
  function FirstMismatch(min: string, max: string, i: nat): (r: nat)
    requires i <= |min| <= |max|
    ensures i <= r <= |min|
    decreases |min| - i
  {
    if i < |min| && i < |max| then
      if min[i] != max[i] then i else FirstMismatch(min, max, i + 1)
    else |min|
  }

  /** Started after a common prefix, the scan stops at the end of the longest
      common prefix. */
  lemma {:induction false} FirstMismatchCommon(min: string, max: string, i: nat)
    requires i <= |min| <= |max| && min[..i] == max[..i]
    ensures var r := FirstMismatch(min, max, i);
      min[..r] == max[..r] && (r < |min| ==> min[r] != max[r])
    decreases |min| - i
  {
    if i < |min| && min[i] == max[i] {
      assert min[..i + 1] == min[..i] + [min[i]] && max[..i + 1] == max[..i] + [max[i]];
      FirstMismatchCommon(min, max, i + 1);
    }
  }

  /** lcpIndex: the index of the last byte of the longest common prefix of `a`
      and `b`, -1 when they share none. The shorter string plays `min`, the other
      `max`, as in the source's selection by length. */
  function LcpIndex(a: string, b: string): (r: int)
    ensures -1 <= r && r < |a| && r < |b|
  {
    var min, max := if |b| < |a| then b else a, if |b| < |a| then a else b;
    FirstMismatch(min, max, 0) - 1
  }

  /** lcpIndex is the index of the last byte of the longest common prefix. */
  lemma LcpIndexCommon(a: string, b: string)
    ensures var r := LcpIndex(a, b);
      && a[..r + 1] == b[..r + 1]
      && (r + 1 < |a| && r + 1 < |b| ==> a[r + 1] != b[r + 1])
  {
    var min, max := if |b| < |a| then b else a, if |b| < |a| then a else b;
    FirstMismatchCommon(min, max, 0);
  }

  /** lcpIndex is determined by its contract: any `l` with a common prefix of
      length `l` that cannot be extended is `LcpIndex + 1`. */
  lemma LcpIndexUnique(a: string, b: string, l: int)
    requires 0 <= l <= |a| && l <= |b| && a[..l] == b[..l]
    requires l == |a| || l == |b| || a[l] != b[l]
    ensures LcpIndex(a, b) == l - 1
  {
    LcpIndexCommon(a, b);
    var r := LcpIndex(a, b) + 1;
    forall k | 0 <= k < l
      ensures a[k] == b[k]
    {
      assert a[k] == a[..l][k] && b[k] == b[..l][k];
    }
    forall k | 0 <= k < r
      ensures a[k] == b[k]
    {
      assert a[k] == a[..r][k] && b[k] == b[..r][k];
    }
  }

  /** lcpIndex does not depend on the order of its arguments. */
  lemma LcpIndexSymmetric(a: string, b: string)
    ensures LcpIndex(a, b) == LcpIndex(b, a)
  {
    var r := LcpIndex(a, b);
    LcpIndexCommon(a, b);
    LcpIndexUnique(b, a, r + 1);
  }

  /** lcpIndex is -1 exactly when one string is empty or the first bytes differ. */
  lemma LcpIndexNone(a: string, b: string)
    ensures LcpIndex(a, b) == -1 <==> (|a| == 0 || |b| == 0 || a[0] != b[0])
  {
    LcpIndexCommon(a, b);
    if |a| > 0 && |b| > 0 && a[0] == b[0] {
      assert a[..1] == [a[0]] && b[..1] == [b[0]];
    }
  }

  /** lcpIndex reaches the end of `b` exactly when `b` is a prefix of `a`. */
  lemma LcpIndexPrefix(a: string, b: string)
    ensures LcpIndex(a, b) == |b| - 1 <==> (|b| <= |a| && a[..|b|] == b)
  {
    LcpIndexCommon(a, b);
    if |b| <= |a| && a[..|b|] == b {
      LcpIndexUnique(a, b, |b|);
    }
  }

  /** A string agrees with itself on its whole length. */
  lemma LcpIndexSelf(a: string)
    ensures LcpIndex(a, a) == |a| - 1
  {
    LcpIndexUnique(a, a, |a|);
  }

  /** `p` names a node below `n`. */
  predicate ValidPath<V>(n: Node<V>, p: Path)
    decreases p
  {
    p == [] || (p[0] < |n.children| && ValidPath(n.children[p[0]], p[1..]))
  }

  /** The node at path `p` below `n`. */
  function At<V>(n: Node<V>, p: Path): Node<V>
    requires ValidPath(n, p)
    decreases p
  {
    if p == [] then n else At(n.children[p[0]], p[1..])
  }

  /** Key: the concatenation of the key fragments from the first node below `n`
      down to the node at `p`; the root's own key is not part of it. */
  function FullKey<V>(n: Node<V>, p: Path): string
    requires ValidPath(n, p)
    decreases p
  {
    if p == [] then [] else n.children[p[0]].key + FullKey(n.children[p[0]], p[1..])
  }

  /** `n` with the node at `p` replaced by `m`. */
  function ReplaceAt<V>(n: Node<V>, p: Path, m: Node<V>): (r: Node<V>)
    requires ValidPath(n, p)
    ensures ValidPath(r, p) && At(r, p) == m
    decreases p
  {
    if p == [] then m
    else n.(children := n.children[p[0] := ReplaceAt(n.children[p[0]], p[1..], m)])
  }

  /** Paths extend one child at a time. */
  lemma {:induction false} ChildPath<V>(n: Node<V>, p: Path, j: nat)
    requires ValidPath(n, p) && j < |At(n, p).children|
    ensures ValidPath(n, p + [j]) && At(n, p + [j]) == At(n, p).children[j]
    ensures FullKey(n, p + [j]) == FullKey(n, p) + At(n, p).children[j].key
    decreases p
  {
    if p != [] {
      assert (p + [j])[1..] == p[1..] + [j];
      ChildPath(n.children[p[0]], p[1..], j);
    }
  }

  /** The parent of a node is a node. */
  lemma {:induction false} ParentPath<V>(n: Node<V>, p: Path)
    requires ValidPath(n, p) && p != []
    ensures ValidPath(n, p[..|p| - 1]) && p[|p| - 1] < |At(n, p[..|p| - 1]).children|
    ensures At(n, p) == At(n, p[..|p| - 1]).children[p[|p| - 1]]
    ensures FullKey(n, p) == FullKey(n, p[..|p| - 1]) + At(n, p).key
    decreases p
  {
    if |p| > 1 {
      assert p[1..][..|p[1..]| - 1] == p[..|p| - 1][1..];
      ParentPath(n.children[p[0]], p[1..]);
    }
  }

  /** Replacing at `p` and then below it is one replacement at `p`. */
  lemma {:induction false} ReplaceTwice<V>(n: Node<V>, p: Path, m: Node<V>, q: Path, x: Node<V>)
    requires ValidPath(n, p) && ValidPath(m, q)
    ensures ValidPath(ReplaceAt(n, p, m), p + q)
    ensures At(ReplaceAt(n, p, m), p + q) == At(m, q)
    ensures ReplaceAt(ReplaceAt(n, p, m), p + q, x) == ReplaceAt(n, p, ReplaceAt(m, q, x))
    decreases p
  {
    if p != [] {
      assert (p + q)[1..] == p[1..] + q;
      ReplaceTwice(n.children[p[0]], p[1..], m, q, x);
    } else {
      assert p + q == q;
    }
  }

  /** split: the node keeps the first `cut` bytes of its key and no values; a
      single new child takes the rest of the key, the values and the children. */
  function Split<V>(n: Node<V>, cut: nat): (r: Node<V>)
    requires 0 < cut < |n.key|
    ensures |r.children| == 1 && r.key + r.children[0].key == n.key && |r.key| == cut
    ensures r.data == [] && !r.isLeaf
    ensures r.children[0].data == n.data && r.children[0].children == n.children && r.children[0].isLeaf
  {
    Node(n.key[..cut], [], [Node(n.key[cut..], n.data, n.children, true)], false)
  }

  /** newNodeWithKey and appendNode: a new leaf with `key` and no values becomes the
      last child. */
  function AppendChild<V>(n: Node<V>, key: string): (r: Node<V>)
    ensures r.key == n.key && r.data == n.data && r.isLeaf == n.isLeaf
    ensures r.children == n.children + [Node(key, [], [], true)]
  {
    n.(children := n.children + [Node(key, [], [], true)])
  }

  /** Shape invariant of a list of siblings: key fragments are non-empty (only
      the root's children may have an empty one, left by inserting the empty key)
      and no two siblings start with the same byte. */
  predicate ValidChildren<V>(cs: seq<Node<V>>, atRoot: bool)
    decreases cs
  {
    && (forall i :: 0 <= i < |cs| ==> cs[i].key != [] || atRoot)
    && (forall i, j :: 0 <= i < j < |cs| && cs[i].key != [] && cs[j].key != [] ==> cs[i].key[0] != cs[j].key[0])
    && (forall i :: 0 <= i < |cs| ==> ValidChildren(cs[i].children, false))
  }

  /** Shape invariant of a whole map: the root has the empty key. */
  predicate Valid<V>(root: Node<V>) {
    root.key == [] && ValidChildren(root.children, true)
  }
}
