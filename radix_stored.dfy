/**
 * The values Insert of search/similarity.go leaves in the map: every value that
 * was stored stays stored, and the inserted values are added once each, however
 * the tree is split or extended on the way to the key.
 */
module RadixStored {
  import opened RadixTree
  import opened RadixInsert
  import opened RadixCollect

  /** Two nodes whose first `k` children agree store the same values below them. */
  lemma {:induction false} StoredKidsAgree<V>(a: Node<V>, b: Node<V>, k: nat)
    requires k <= |a.children| && k <= |b.children|
    requires a.children[..k] == b.children[..k]
    ensures StoredKids(a, k) == StoredKids(b, k)
  {
    if k > 0 {
      assert a.children[k - 1] == a.children[..k][k - 1];
      assert b.children[k - 1] == b.children[..k][k - 1];
      assert a.children[..k - 1] == a.children[..k][..k - 1];
      assert b.children[..k - 1] == b.children[..k][..k - 1];
      StoredKidsAgree(a, b, k - 1);
    }
  }

  /** A node keeps its values when only its key changes. */
  lemma Rekeyed<V>(c: Node<V>, key: string, isLeaf: bool)
    ensures Stored(Node(key, c.data, c.children, isLeaf)) == Stored(c)
  {
    var d := Node(key, c.data, c.children, isLeaf);
    StoredKidsAgree(c, d, |c.children|);
  }

  /** Appending a child adds the values of its subtree. */
  lemma StoredKidsAppend<V>(n: Node<V>, x: Node<V>)
    ensures StoredKids(n.(children := n.children + [x]), |n.children| + 1)
         == StoredKids(n, |n.children|) + Stored(x)
  {
    var m := n.(children := n.children + [x]);
    assert m.children[..|n.children|] == n.children[..|n.children|];
    StoredKidsAgree(n, m, |n.children|);
  }

  /** Replacing child `i` by a node `m` that stores `d` more adds `d` to what
      the first `k` children store. */
  lemma {:induction false} StoredKidsUpdate<V>(n: Node<V>, i: nat, m: Node<V>, d: multiset<V>, k: nat)
    requires i < k <= |n.children| && Stored(m) == Stored(n.children[i]) + d
    ensures StoredKids(n.(children := n.children[i := m]), k) == StoredKids(n, k) + d
  {
    var u := n.(children := n.children[i := m]);
    if k == i + 1 {
      assert u.children[..i] == n.children[..i];
      StoredKidsAgree(n, u, i);
    } else {
      StoredKidsUpdate(n, i, m, d, k - 1);
      assert u.children[k - 1] == n.children[k - 1];
    }
  }

  /** Insert into the children of `n` from child `i` on adds exactly `vs` to
      what the subtree stores. */
  lemma {:induction false} InsertInStored<V>(n: Node<V>, i: nat, key: string, vs: seq<V>)
    requires i <= |n.children|
    ensures Stored(InsertIn(n, i, key, vs, false)) == Stored(n) + multiset(vs)
    decreases |key|, |n.children| - i
  {
    if |key| == 0 || i >= |n.children| {
      StoredKidsAppend(n, Node(key, vs, [], true));
    } else {
      var c := n.children[i];
      var l := LcpIndex(key, c.key) + 1;
      if l == 0 {
        InsertInStored(n, i + 1, key, vs);
      } else {
        if l == |c.key| && l < |key| {
          InsertInStored(c, 0, key[l..], vs);
        }
        MergedStored(n, i, key, vs);
      }
    }
  }

  /** The child Insert rewrites at `i` when the key shares a prefix with it
      stores the child's values plus `vs`, given that the descent does. */
  lemma MergedStored<V>(n: Node<V>, i: nat, key: string, vs: seq<V>)
    requires i < |n.children| && |key| > 0
    requires var c := n.children[i]; var l := LcpIndex(key, c.key) + 1;
      l > 0 && (l == |c.key| && l < |key| ==>
        Stored(InsertIn(c, 0, key[l..], vs, false)) == Stored(c) + multiset(vs))
    ensures Stored(InsertIn(n, i, key, vs, false)) == Stored(n) + multiset(vs)
  {
    var r := InsertIn(n, i, key, vs, false);
    var merged := r.children[i];
    MergedChild(n, i, key, vs);
    StoredKidsUpdate(n, i, merged, multiset(vs), |n.children|);
    assert Stored(r) == multiset(n.data) + StoredKids(r, |n.children|);
  }

  /** The rewritten child of MergedStored and its values, case by case. */
  lemma MergedChild<V>(n: Node<V>, i: nat, key: string, vs: seq<V>)
    requires i < |n.children| && |key| > 0
    requires var c := n.children[i]; var l := LcpIndex(key, c.key) + 1;
      l > 0 && (l == |c.key| && l < |key| ==>
        Stored(InsertIn(c, 0, key[l..], vs, false)) == Stored(c) + multiset(vs))
    ensures var r := InsertIn(n, i, key, vs, false);
      r == n.(children := n.children[i := r.children[i]]) &&
      Stored(r.children[i]) == Stored(n.children[i]) + multiset(vs)
  {
    var r := InsertIn(n, i, key, vs, false);
    var c := n.children[i];
    var l := LcpIndex(key, c.key) + 1;
    var merged := r.children[i];
    if l == |key| && l == |c.key| {
      StoredKidsAgree(c, merged, |c.children|);
    } else if l == |key| {
      Rekeyed(c, c.key[l..], true);
      assert merged == Node(c.key[..l], vs, [Node(c.key[l..], c.data, c.children, true)], false);
      assert StoredKids(merged, 1) == Stored(merged.children[0]) + StoredKids(merged, 0);
    } else if l == |c.key| {
    } else {
      Rekeyed(c, c.key[l..], true);
      assert merged == Node(c.key[..l], [], [Node(c.key[l..], c.data, c.children, true), Node(key[l..], vs, [], true)], false);
      assert StoredKids(merged, 2) == Stored(merged.children[1]) + StoredKids(merged, 1);
      assert StoredKids(merged, 1) == Stored(merged.children[0]) + StoredKids(merged, 0);
      assert Stored(merged.children[1]) == multiset(vs) + StoredKids(merged.children[1], 0);
    }
  }

  /** Insert(key, vs) on a map: the values stored afterwards are those stored
      before plus `vs`; nothing is lost or duplicated by the splits. */
  lemma InsertStored<V>(root: Node<V>, key: string, vs: seq<V>)
    ensures Stored(InsertTree(root, key, vs, false)) == Stored(root) + multiset(vs)
  {
    InsertInStored(root, 0, key, vs);
  }

  /** A subtree stores part of what the whole tree stores. */
  lemma {:induction false} StoredAt<V>(root: Node<V>, p: Path)
    requires ValidPath(root, p)
    ensures Stored(At(root, p)) <= Stored(root)
    decreases |p|
  {
    if p != [] {
      var q := p[..|p| - 1];
      ParentPath(root, p);
      StoredAt(root, q);
      StoredKidsHas(At(root, q), p[|p| - 1], |At(root, q).children|);
    }
  }

  /** Child `j` of `n` stores part of what its first `k` children store. */
  lemma {:induction false} StoredKidsHas<V>(n: Node<V>, j: nat, k: nat)
    requires j < k <= |n.children|
    ensures Stored(n.children[j]) <= StoredKids(n, k)
  {
    if j < k - 1 {
      StoredKidsHas(n, j, k - 1);
    }
  }
}
