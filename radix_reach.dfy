/**
 * What GetByPrefix of search/similarity.go reaches. For a non-empty prefix of a
 * key in the map, nodeForKey stops at a node whose subtree holds that key's
 * values, so GetByPrefix returns them. The converse does not hold: the node
 * found may hold keys that do not start with the prefix, and the empty prefix
 * finds no node at all.
 */
module RadixReach {
  import opened Wrappers
  import opened RadixTree
  import opened RadixWalk
  import opened RadixCollect
  import opened RadixStored

  /** The values of a key found among the children of `n` are stored below `n`. */
  lemma {:induction false} LookupStored<V>(n: Node<V>, i: nat, key: string)
    requires LookupFrom(n.children, i, key).Some?
    ensures multiset(LookupFrom(n.children, i, key).value) <= StoredKids(n, |n.children|)
    decreases |key|, |n.children| - i
  {
    var c := n.children[i];
    var l := LcpIndex(key, c.key);
    StoredKidsHas(n, i, |n.children|);
    if l == -1 {
      LookupStored(n, i + 1, key);
    } else if l != |key| - 1 {
      LookupStored(c, 0, key[l + 1..]);
    }
  }

  /** The walk for a non-empty prefix `pre` of a key found among the children
      of `n` from child `i` on ends, exactly or inside a fragment, at a node
      whose subtree stores that key's values. */
  lemma {:induction false} WalkPrefixStored<V>(n: Node<V>, i: nat, pre: string, key: string)
    requires |pre| > 0 && pre <= key && LookupFrom(n.children, i, key).Some?
    ensures var o := WalkIn(n, i, pre, false);
      && (o.Exact? || o.Inside?)
      && multiset(LookupFrom(n.children, i, key).value) <= Stored(At(n, o.path))
    decreases |key|, |n.children| - i, 1
  {
    var c := n.children[i];
    assert pre[0] == key[0];
    LcpIndexNone(key, c.key);
    LcpIndexNone(pre, c.key);
    if LcpIndex(key, c.key) == -1 {
      WalkPrefixStored(n, i + 1, pre, key);
    } else if |pre| <= |c.key| {
      PrefixStops(n, i, pre, key);
    } else {
      PrefixDescends(n, i, pre, key);
    }
  }

  /** WalkPrefixStored where the prefix ends within the fragment of child `i`
      that starts the key: the walk stops at that child. */
  lemma PrefixStops<V>(n: Node<V>, i: nat, pre: string, key: string)
    requires i < |n.children| && |pre| > 0 && pre <= key && LookupFrom(n.children, i, key).Some?
    requires LcpIndex(key, n.children[i].key) != -1 && |pre| <= |n.children[i].key|
    ensures var o := WalkIn(n, i, pre, false);
      && (o == Exact([i]) || o == Inside([i], |pre|))
      && multiset(LookupFrom(n.children, i, key).value) <= Stored(At(n, [i]))
  {
    var c := n.children[i];
    var l := LcpIndex(key, c.key);
    LcpIndexPrefix(key, c.key);
    assert pre == c.key[..|pre|];
    LcpIndexPrefix(c.key, pre);
    LcpIndexSymmetric(c.key, pre);
    assert At(n, [i]) == c;
    assert Stored(c) == multiset(c.data) + StoredKids(c, |c.children|);
    if l != |key| - 1 {
      LookupStored(c, 0, key[l + 1..]);
    }
  }

  /** WalkPrefixStored where the fragment of child `i` is a proper prefix of
      the prefix: the walk descends into that child with the rest. */
  lemma PrefixDescends<V>(n: Node<V>, i: nat, pre: string, key: string)
    requires i < |n.children| && |pre| > 0 && pre <= key && LookupFrom(n.children, i, key).Some?
    requires LcpIndex(key, n.children[i].key) != -1 && |pre| > |n.children[i].key|
    ensures var o := WalkIn(n, i, pre, false);
      && (o.Exact? || o.Inside?)
      && multiset(LookupFrom(n.children, i, key).value) <= Stored(At(n, o.path))
    decreases |key|, |n.children| - i, 0
  {
    var c := n.children[i];
    var l := |c.key| - 1;
    assert LcpIndex(key, c.key) == l && LcpIndex(pre, c.key) == l by {
      LcpIndexPrefix(key, c.key);
      assert c.key == pre[..|c.key|];
      LcpIndexPrefix(pre, c.key);
    }
    var rest := key[l + 1..];
    var o := WalkIn(c, 0, pre[l + 1..], false);
    assert pre[l + 1..] <= rest;
    assert LookupFrom(n.children, i, key) == LookupFrom(c.children, 0, rest);
    WalkPrefixStored(c, 0, pre[l + 1..], rest);
    assert WalkIn(n, i, pre, false) == Under(i, o);
    assert ([i] + o.path)[0] == i && ([i] + o.path)[1..] == o.path;
  }

  /** GetByPrefix of a non-empty prefix of a key in the map finds a node, and the
      values it gathers include every value stored under that key. */
  lemma PrefixGathers<V>(root: Node<V>, pre: string, key: string)
    requires |pre| > 0 && pre <= key && Lookup(root, key).Some?
    ensures var found := Located(Walk(root, pre, false));
      && found.Some?
      && multiset(Lookup(root, key).value) <= multiset(Values(root, Preorder(root, found.value)))
  {
    WalkPrefixStored(root, 0, pre, key);
    PreorderStored(root, Walk(root, pre, false).path);
  }

  /** The empty prefix finds no node, so GetByPrefix("") is empty whatever the
      map holds. */
  lemma EmptyPrefixFindsNothing<V>(root: Node<V>)
    ensures Located(Walk(root, [], false)).None?
  {
  }

  /** A map holding "string" and, below it, "stringmap". */
  function StringMap(): Node<char> {
    Node([], [], [Node("string", ['a'], [Node("map", ['b'], [], true)], false)], false)
  }

  /** The walk for "stringx" descends into "string", finds no child continuing
      with "x" and returns the node it descended into: GetByPrefix("stringx")
      gathers the values of "string" and "stringmap", neither of which starts
      with "stringx", and Get finds nothing. */
  lemma DeadEndDescent()
    ensures Located(Walk(StringMap(), "stringx", false)) == Some([0])
    ensures Values(StringMap(), Preorder(StringMap(), [0])) == ['a', 'b']
    ensures Get(StringMap(), "stringx").None? && Lookup(StringMap(), "stringx").None?
  {
    var t := StringMap();
    var c := t.children[0];
    LcpIndexUnique("stringx", "string", 6);
    LcpIndexNone("x", "map");
    assert "stringx"[6..] == "x";
    assert WalkIn(c, 1, "x", false) == Stopped([], "x");
    assert WalkIn(c, 0, "x", false) == Stopped([], "x");
    assert Walk(t, "stringx", false) == Stopped([0], "x");
    assert Preorder(t, [0, 0]) == [[0, 0]];
    assert [0] + [0] == [0, 0];
    assert PreorderKids(t, [0], 0) == [];
    assert PreorderKids(t, [0], 1) == [[0, 0]];
    assert Preorder(t, [0]) == [[0], [0, 0]];
  }
}
