/**
 * Insert and Replace of search/similarity.go keep the shape of the radix tree:
 * below the root every fragment is non-empty, and no two siblings start with
 * the same byte.
 */
module RadixValid {
  import opened RadixTree
  import opened RadixInsert
  import opened RadixKeep

  /** Replacing a child by one starting with the same byte keeps the siblings valid. */
  lemma ValidUpdate<V>(cs: seq<Node<V>>, i: nat, m: Node<V>, atRoot: bool)
    requires i < |cs| && ValidChildren(cs, atRoot) && cs[i].key != []
    requires m.key != [] && m.key[0] == cs[i].key[0] && ValidChildren(m.children, false)
    ensures ValidChildren(cs[i := m], atRoot)
  {
    var ds := cs[i := m];
    forall j, k | 0 <= j < k < |ds| && ds[j].key != [] && ds[k].key != []
      ensures ds[j].key[0] != ds[k].key[0]
    {
      assert cs[j].key != [] && cs[k].key != [];
      assert ds[j].key[0] == cs[j].key[0] && ds[k].key[0] == cs[k].key[0];
    }
  }

  /** Appending a leaf whose first byte no sibling has keeps the siblings valid. */
  lemma ValidAppend<V>(cs: seq<Node<V>>, x: Node<V>, atRoot: bool)
    requires ValidChildren(cs, atRoot) && (x.key != [] || atRoot) && x.children == []
    requires forall j :: 0 <= j < |cs| && cs[j].key != [] && x.key != [] ==> cs[j].key[0] != x.key[0]
    ensures ValidChildren(cs + [x], atRoot)
  {
    var ds := cs + [x];
    assert ValidChildren(x.children, false);
    forall j, k | 0 <= j < k < |ds| && ds[j].key != [] && ds[k].key != []
      ensures ds[j].key[0] != ds[k].key[0]
    {
      if k < |cs| {
        assert ds[j] == cs[j] && ds[k] == cs[k];
      }
    }
  }

  /** Insertion of `key` below `n`, scanning from child `i`, keeps the children of
      `n` valid. The children before `i` start with other bytes than `key`. */
  lemma {:induction false} InsertValidIn<V>(n: Node<V>, i: nat, key: string, vs: seq<V>, replace: bool, atRoot: bool)
    requires i <= |n.children| && ValidChildren(n.children, atRoot) && (key != [] || atRoot)
    requires forall j :: 0 <= j < i && n.children[j].key != [] && key != [] ==> n.children[j].key[0] != key[0]
    ensures ValidChildren(InsertIn(n, i, key, vs, replace).children, atRoot)
    decreases |key|, |n.children| - i
  {
    if |key| == 0 || i == |n.children| {
      ValidAppend(n.children, Node(key, vs, [], true), atRoot);
    } else {
      var c := n.children[i];
      var l := LcpIndex(key, c.key) + 1;
      LcpIndexNone(key, c.key);
      if l == 0 {
        InsertValidIn(n, i + 1, key, vs, replace, atRoot);
      } else {
        var m := InsertIn(n, i, key, vs, replace).children[i];
        assert InsertIn(n, i, key, vs, replace).children == n.children[i := m];
        if l == |key| && l == |c.key| {
        } else if l == |key| {
          assert m == SplitWith(c, l, vs);
          SplitValid(c, l, vs);
        } else if l == |c.key| {
          InsertValidIn(c, 0, key[l..], vs, replace, false);
        } else {
          LcpIndexCommon(key, c.key);
          DivergedValid(c, key, l, vs);
        }
        ValidUpdate(n.children, i, m, atRoot);
      }
    }
  }

  /** A split node is valid below. */
  lemma SplitValid<V>(c: Node<V>, cut: nat, d: seq<V>)
    requires 0 < cut < |c.key| && ValidChildren(c.children, false)
    ensures ValidChildren(SplitWith(c, cut, d).children, false)
  {
    var t := SplitWith(c, cut, d).children[0];
    assert t.key != [] && t.children == c.children;
  }

  /** The two children of a node split where the key leaves its fragment start
      with different bytes. */
  lemma DivergedValid<V>(c: Node<V>, key: string, l: nat, vs: seq<V>)
    requires 0 < l < |key| && l < |c.key| && key[l] != c.key[l] && ValidChildren(c.children, false)
    ensures ValidChildren([Node(c.key[l..], c.data, c.children, true), Node(key[l..], vs, [], true)], false)
  {
    var cs := [Node(c.key[l..], c.data, c.children, true), Node(key[l..], vs, [], true)];
    assert cs[0].key[0] == c.key[l] && cs[1].key[0] == key[l];
    assert ValidChildren(cs[1].children, false);
  }

  /** Insert and Replace keep a map valid. */
  lemma InsertKeepsValid<V>(root: Node<V>, key: string, vs: seq<V>, replace: bool)
    requires Valid(root)
    ensures Valid(InsertTree(root, key, vs, replace))
  {
    InsertValidIn(root, 0, key, vs, replace, true);
  }
}
