/**
 * Insert and Replace of search/similarity.go as one top-down function, and what
 * they do to the keys of the map.
 *
 * `InsertIn` is the classic radix-tree insertion: the first child sharing a first
 * byte with the key is merged with it (values added, split inside its fragment,
 * descended into, or split where the two diverge); with no such child a new leaf
 * is appended. The lemma `CreatedIsInsert` shows it is exactly what nodeForKey
 * with createIfMissing followed by the value update does.
 */
module RadixInsert {
  import opened Wrappers
  import opened RadixTree
  import opened RadixWalk

  /** The new values of a node: appended by Insert, replacing by Replace. */
  function Put<V>(prev: seq<V>, vs: seq<V>, replace: bool): seq<V> {
    if replace then vs else prev + vs
  }

  /** The values of an optional entry, none for a missing one. */
  function ValuesOr<V>(o: Option<seq<V>>): seq<V> {
    if o.Some? then o.value else []
  }

  /** Insertion of `key` into the children of `n`, scanning from child `i`. */
  function InsertIn<V>(n: Node<V>, i: nat, key: string, vs: seq<V>, replace: bool): (r: Node<V>)
    requires i <= |n.children|
    ensures r.key == n.key && r.isLeaf == n.isLeaf && r.data == n.data
    ensures |n.children| <= |r.children|
    ensures forall j :: 0 <= j < i ==> r.children[j] == n.children[j]
    decreases |key|, |n.children| - i
  {
    if |key| == 0 || i >= |n.children| then n.(children := n.children + [Node(key, vs, [], true)])
    else
      var c := n.children[i];
      var l := LcpIndex(key, c.key) + 1;
      if l == 0 then InsertIn(n, i + 1, key, vs, replace)
      else
        var merged :=
          if l == |key| && l == |c.key| then c.(data := Put(c.data, vs, replace))
          else if l == |key| then Node(c.key[..l], vs, [Node(c.key[l..], c.data, c.children, true)], false)
          else if l == |c.key| then InsertIn(c, 0, key[l..], vs, replace)
          else Node(c.key[..l], [], [Node(c.key[l..], c.data, c.children, true), Node(key[l..], vs, [], true)], false);
        n.(children := n.children[i := merged])
  }

  /** Insert (replace = false) or Replace (replace = true) on a whole map. */
  function InsertTree<V>(root: Node<V>, key: string, vs: seq<V>, replace: bool): Node<V> {
    InsertIn(root, 0, key, vs, replace)
  }

  /** nodeForKey with createIfMissing followed by the value update of Insert or
      Replace on the node it returns. */
  function CreateAndPut<V>(n: Node<V>, o: Outcome, vs: seq<V>, replace: bool): Node<V>
    requires Names(n, o)
  {
    var (t, p) := Created(n, o);
    ReplaceAt(t, p, At(t, p).(data := Put(At(t, p).data, vs, replace)))
  }

  /** An outcome found below child `i` is applied inside that child. */
  lemma CreateAndPutUnder<V>(n: Node<V>, i: nat, o: Outcome, vs: seq<V>, replace: bool)
    requires i < |n.children| && Names(n.children[i], o)
    ensures Names(n, Under(i, o))
    ensures CreateAndPut(n, Under(i, o), vs, replace)
         == n.(children := n.children[i := CreateAndPut(n.children[i], o, vs, replace)])
  {
    var (t, p) := Created(n.children[i], o);
    CreatedUnder(n, i, o);
    var x := At(t, p).(data := Put(At(t, p).data, vs, replace));
    UnderPath(n.(children := n.children[i := t]), i, p, x);
  }

  /** The node and path Created makes for an outcome below child `i`. */
  lemma CreatedUnder<V>(n: Node<V>, i: nat, o: Outcome)
    requires i < |n.children| && Names(n.children[i], o)
    ensures Names(n, Under(i, o))
    ensures var (t, p) := Created(n.children[i], o);
      Created(n, Under(i, o)) == (n.(children := n.children[i := t]), [i] + p)
  {
    var c := n.children[i];
    match o
    case Exact(q) =>
      UnderPath(n, i, q, c);
      assert n.children[i := c] == n.children;
    case Inside(q, cut) =>
      UnderPath(n, i, q, Split(At(c, q), cut));
    case Diverged(q, cut, rest) =>
      UnderPath(n, i, q, AppendChild(Split(At(c, q), cut), rest));
      assert [i] + (q + [1]) == ([i] + q) + [1];
    case Stopped(q, rest) =>
      UnderPath(n, i, q, AppendChild(At(c, q), rest));
      assert [i] + (q + [|At(c, q).children|]) == ([i] + q) + [|At(c, q).children|];
  }

  /** A path below child `i` of `n`, seen from `n`. */
  lemma UnderPath<V>(n: Node<V>, i: nat, q: Path, m: Node<V>)
    requires i < |n.children| && ValidPath(n.children[i], q)
    ensures ValidPath(n, [i] + q) && At(n, [i] + q) == At(n.children[i], q)
    ensures ReplaceAt(n, [i] + q, m) == n.(children := n.children[i := ReplaceAt(n.children[i], q, m)])
  {
    assert ([i] + q)[0] == i && ([i] + q)[1..] == q;
  }

  /** nodeForKey with createIfMissing and the value update together are InsertIn. */
  lemma {:induction false} CreatedIsInsert<V>(n: Node<V>, i: nat, key: string, vs: seq<V>, replace: bool)
    requires i <= |n.children|
    ensures CreateAndPut(n, WalkIn(n, i, key, true), vs, replace) == InsertIn(n, i, key, vs, replace)
    decreases |key|, |n.children| - i
  {
    if |key| == 0 || i >= |n.children| {
      AppendIsInsert(n, i, key, vs, replace);
    } else {
      var c := n.children[i];
      var l := LcpIndex(key, c.key);
      if l == -1 {
        CreatedIsInsert(n, i + 1, key, vs, replace);
      } else if l == |key| - 1 && l == |c.key| - 1 {
        ExactIsInsert(n, i, key, vs, replace);
      } else if l == |key| - 1 {
        InsideIsInsert(n, i, key, vs, replace);
      } else if l == |c.key| - 1 {
        CreatedIsInsert(c, 0, key[l + 1..], vs, replace);
        DescendIsInsert(n, i, key, vs, replace);
      } else {
        DivergedIsInsert(n, i, key, vs, replace);
      }
    }
  }

  /** The case of CreatedIsInsert where no child continues the key: a new leaf. */
  lemma AppendIsInsert<V>(n: Node<V>, i: nat, key: string, vs: seq<V>, replace: bool)
    requires i <= |n.children| && (|key| == 0 || i == |n.children|)
    ensures CreateAndPut(n, WalkIn(n, i, key, true), vs, replace) == InsertIn(n, i, key, vs, replace)
  {
    assert Put([], vs, replace) == vs;
    var t := AppendChild(n, key);
    UnderPath(t, |n.children|, [], t.children[|n.children|].(data := vs));
    assert [|n.children|] + [] == [|n.children|];
  }

  /** The case of CreatedIsInsert where a child spells the key: its values change. */
  lemma ExactIsInsert<V>(n: Node<V>, i: nat, key: string, vs: seq<V>, replace: bool)
    requires i < |n.children| && |key| > 0
    requires var l := LcpIndex(key, n.children[i].key);
      l == |key| - 1 && l == |n.children[i].key| - 1
    ensures CreateAndPut(n, WalkIn(n, i, key, true), vs, replace) == InsertIn(n, i, key, vs, replace)
  {
    var c := n.children[i];
    UnderPath(n, i, [], c.(data := Put(c.data, vs, replace)));
    assert [i] + [] == [i];
  }

  /** The case of CreatedIsInsert where a child's fragment is a proper prefix of
      the key: the rest is inserted below that child. */
  lemma DescendIsInsert<V>(n: Node<V>, i: nat, key: string, vs: seq<V>, replace: bool)
    requires i < |n.children| && |key| > 0
    requires var l := LcpIndex(key, n.children[i].key);
      l != -1 && l != |key| - 1 && l == |n.children[i].key| - 1
    requires var l := LcpIndex(key, n.children[i].key);
      CreateAndPut(n.children[i], WalkIn(n.children[i], 0, key[l + 1..], true), vs, replace)
      == InsertIn(n.children[i], 0, key[l + 1..], vs, replace)
    ensures CreateAndPut(n, WalkIn(n, i, key, true), vs, replace) == InsertIn(n, i, key, vs, replace)
  {
    InsertDescends(n, i, key, vs, replace);
    CreateDescends(n, i, key, vs, replace);
  }

  /** What DescendIsInsert creates is created below child `i`. */
  lemma CreateDescends<V>(n: Node<V>, i: nat, key: string, vs: seq<V>, replace: bool)
    requires i < |n.children| && |key| > 0
    requires var l := LcpIndex(key, n.children[i].key);
      l != -1 && l != |key| - 1 && l == |n.children[i].key| - 1
    ensures var c := n.children[i]; var l := LcpIndex(key, c.key);
      CreateAndPut(n, WalkIn(n, i, key, true), vs, replace)
      == n.(children := n.children[i := CreateAndPut(c, WalkIn(c, 0, key[l + 1..], true), vs, replace)])
  {
    var c := n.children[i];
    var l := LcpIndex(key, c.key);
    var o := WalkIn(c, 0, key[l + 1..], true);
    assert WalkIn(n, i, key, true) == Under(i, o) by {
      WalkDescends(n, i, key);
    }
    assert CreateAndPut(n, Under(i, o), vs, replace)
        == n.(children := n.children[i := CreateAndPut(c, o, vs, replace)]) by {
      CreateAndPutUnder(n, i, o, vs, replace);
    }
  }

  /** The walk of DescendIsInsert continues below child `i`. */
  lemma WalkDescends<V>(n: Node<V>, i: nat, key: string)
    requires i < |n.children| && |key| > 0
    requires var l := LcpIndex(key, n.children[i].key);
      l != -1 && l != |key| - 1 && l == |n.children[i].key| - 1
    ensures var l := LcpIndex(key, n.children[i].key);
      WalkIn(n, i, key, true) == Under(i, WalkIn(n.children[i], 0, key[l + 1..], true))
  {
  }

  /** The insertion of DescendIsInsert continues below child `i`. */
  lemma InsertDescends<V>(n: Node<V>, i: nat, key: string, vs: seq<V>, replace: bool)
    requires i < |n.children| && |key| > 0
    requires var l := LcpIndex(key, n.children[i].key);
      l != -1 && l != |key| - 1 && l == |n.children[i].key| - 1
    ensures var l := LcpIndex(key, n.children[i].key);
      InsertIn(n, i, key, vs, replace)
      == n.(children := n.children[i := InsertIn(n.children[i], 0, key[l + 1..], vs, replace)])
  {
  }

  /** The case of CreatedIsInsert where the key ends inside a fragment: split,
      and the first half takes the values. */
  lemma InsideIsInsert<V>(n: Node<V>, i: nat, key: string, vs: seq<V>, replace: bool)
    requires i < |n.children| && |key| > 0
    requires var l := LcpIndex(key, n.children[i].key);
      l == |key| - 1 && l != |n.children[i].key| - 1
    ensures CreateAndPut(n, WalkIn(n, i, key, true), vs, replace) == InsertIn(n, i, key, vs, replace)
  {
    var c := n.children[i];
    var l := LcpIndex(key, c.key);
    var m := Split(c, l + 1);
    var x := m.(data := Put([], vs, replace));
    ReplaceTwice(n, [i], m, [], x);
    assert [i] + [] == [i];
    assert Put([], vs, replace) == vs;
    UnderPath(n, i, [], x);
  }

  /** The diverging case of CreatedIsInsert: split, then a new leaf beside the
      split-off rest. */
  lemma DivergedIsInsert<V>(n: Node<V>, i: nat, key: string, vs: seq<V>, replace: bool)
    requires i < |n.children| && |key| > 0
    requires var l := LcpIndex(key, n.children[i].key);
      l != -1 && l != |key| - 1 && l != |n.children[i].key| - 1
    ensures CreateAndPut(n, WalkIn(n, i, key, true), vs, replace) == InsertIn(n, i, key, vs, replace)
  {
    var c := n.children[i];
    var l := LcpIndex(key, c.key);
    assert WalkIn(n, i, key, true) == Diverged([i], l + 1, key[l + 1..]);
    DivergedCreate(n, i, l + 1, key[l + 1..], vs, replace);
  }

  /** Applying a divergence at child `i`: the child is split at `cut`, and the
      values go to a new second child holding `rest`. */
  lemma DivergedCreate<V>(n: Node<V>, i: nat, cut: nat, rest: string, vs: seq<V>, replace: bool)
    requires i < |n.children| && 0 < cut < |n.children[i].key| && rest != []
    ensures Names(n, Diverged([i], cut, rest))
    ensures var c := n.children[i];
      CreateAndPut(n, Diverged([i], cut, rest), vs, replace)
      == n.(children := n.children[i := Node(c.key[..cut], [],
              [Node(c.key[cut..], c.data, c.children, true), Node(rest, vs, [], true)], false)])
  {
    var c := n.children[i];
    var m := AppendChild(Split(c, cut), rest);
    var x := m.children[1].(data := Put([], vs, replace));
    UnderPath(n, i, [], c);
    ReplaceTwice(n, [i], m, [1], x);
    UnderPath(m, 1, [], x);
    assert [1] + [] == [1];
    assert Put([], vs, replace) == vs;
    var merged := Node(c.key[..cut], [], [Node(c.key[cut..], c.data, c.children, true), Node(rest, vs, [], true)], false);
    assert ReplaceAt(m, [1], x) == merged;
    UnderPath(n, i, [], merged);
    assert [i] + [] == [i];
  }

  /** After Insert or Replace the key is in the map, with the new values added to
      (or in place of) the ones it had. */
  lemma {:induction false} InsertFindsKey<V>(n: Node<V>, i: nat, key: string, vs: seq<V>, replace: bool)
    requires |key| > 0 && i <= |n.children|
    ensures LookupFrom(InsertIn(n, i, key, vs, replace).children, i, key)
         == Some(Put(ValuesOr(LookupFrom(n.children, i, key)), vs, replace))
    decreases |key|, |n.children| - i
  {
    if i == |n.children| {
      LcpIndexSelf(key);
      assert Put([], vs, replace) == vs;
    } else {
      var c := n.children[i];
      var l := LcpIndex(key, c.key) + 1;
      if l == 0 {
        InsertFindsKey(n, i + 1, key, vs, replace);
        SkipFindsKey(n, i, key, vs, replace);
      } else if l == |key| && l == |c.key| {
        ExactFindsKey(n, i, key, vs, replace);
      } else if l == |key| {
        InsideFindsKey(n, i, key, vs, replace);
        assert Put([], vs, replace) == vs;
      } else if l == |c.key| {
        InsertFindsKey(c, 0, key[l..], vs, replace);
        DescendFindsKey(n, i, key, vs, replace);
      } else {
        DivergedFindsKey(n, i, key, vs, replace);
        assert Put([], vs, replace) == vs;
      }
    }
  }

  /** InsertFindsKey past a child sharing nothing with the key. */
  lemma SkipFindsKey<V>(n: Node<V>, i: nat, key: string, vs: seq<V>, replace: bool)
    requires i < |n.children| && |key| > 0 && LcpIndex(key, n.children[i].key) == -1
    requires LookupFrom(InsertIn(n, i + 1, key, vs, replace).children, i + 1, key)
          == Some(Put(ValuesOr(LookupFrom(n.children, i + 1, key)), vs, replace))
    ensures LookupFrom(InsertIn(n, i, key, vs, replace).children, i, key)
         == Some(Put(ValuesOr(LookupFrom(n.children, i, key)), vs, replace))
  {
    var r := InsertIn(n, i + 1, key, vs, replace);
    assert InsertIn(n, i, key, vs, replace) == r;
    assert r.children[i] == n.children[i];
  }

  /** InsertFindsKey where the key spells a child's whole fragment. */
  lemma ExactFindsKey<V>(n: Node<V>, i: nat, key: string, vs: seq<V>, replace: bool)
    requires i < |n.children|
    requires var l := LcpIndex(key, n.children[i].key) + 1;
      0 < l == |key| && l == |n.children[i].key|
    ensures LookupFrom(InsertIn(n, i, key, vs, replace).children, i, key)
         == Some(Put(ValuesOr(LookupFrom(n.children, i, key)), vs, replace))
  {
    var c := n.children[i];
    var m := c.(data := Put(c.data, vs, replace));
    assert InsertIn(n, i, key, vs, replace).children[i] == m;
    assert LookupFrom(n.children, i, key) == Some(c.data);
  }

  /** InsertFindsKey where the key ends inside a child's fragment. */
  lemma InsideFindsKey<V>(n: Node<V>, i: nat, key: string, vs: seq<V>, replace: bool)
    requires i < |n.children|
    requires var l := LcpIndex(key, n.children[i].key) + 1;
      0 < l == |key| && l < |n.children[i].key|
    ensures LookupFrom(InsertIn(n, i, key, vs, replace).children, i, key) == Some(vs)
    ensures LookupFrom(n.children, i, key) == None
  {
    var c := n.children[i];
    var l := LcpIndex(key, c.key) + 1;
    LcpIndexCommon(key, c.key);
    LcpIndexUnique(key, c.key[..l], l);
  }

  /** InsertFindsKey where a child's fragment is a proper prefix of the key. */
  lemma DescendFindsKey<V>(n: Node<V>, i: nat, key: string, vs: seq<V>, replace: bool)
    requires i < |n.children|
    requires var l := LcpIndex(key, n.children[i].key) + 1;
      0 < l < |key| && l == |n.children[i].key|
    requires var l := LcpIndex(key, n.children[i].key) + 1;
      LookupFrom(InsertIn(n.children[i], 0, key[l..], vs, replace).children, 0, key[l..])
      == Some(Put(ValuesOr(LookupFrom(n.children[i].children, 0, key[l..])), vs, replace))
    ensures LookupFrom(InsertIn(n, i, key, vs, replace).children, i, key)
         == Some(Put(ValuesOr(LookupFrom(n.children, i, key)), vs, replace))
  {
    var c := n.children[i];
    var l := LcpIndex(key, c.key) + 1;
    var m := InsertIn(c, 0, key[l..], vs, replace);
    var r := InsertIn(n, i, key, vs, replace);
    assert r.children[i] == m && m.key == c.key;
    LookupDescend(n.children, i, key);
    LookupDescend(r.children, i, key);
  }

  /** Lookup goes down into a child whose whole fragment starts the key. */
  lemma LookupDescend<V>(cs: seq<Node<V>>, i: nat, key: string)
    requires i < |cs|
    requires var l := LcpIndex(key, cs[i].key) + 1;
      0 < l < |key| && l == |cs[i].key|
    ensures var l := LcpIndex(key, cs[i].key) + 1;
      LookupFrom(cs, i, key) == LookupFrom(cs[i].children, 0, key[l..])
  {
  }

  /** InsertFindsKey where the key leaves a child's fragment: it is found in the new
      leaf beside the split-off rest. */
  lemma DivergedFindsKey<V>(n: Node<V>, i: nat, key: string, vs: seq<V>, replace: bool)
    requires i < |n.children|
    requires var l := LcpIndex(key, n.children[i].key) + 1;
      0 < l < |key| && l < |n.children[i].key|
    ensures LookupFrom(InsertIn(n, i, key, vs, replace).children, i, key) == Some(vs)
    ensures LookupFrom(n.children, i, key) == None
  {
    var c := n.children[i];
    var l := LcpIndex(key, c.key) + 1;
    var merged := Node(c.key[..l], [], [Node(c.key[l..], c.data, c.children, true), Node(key[l..], vs, [], true)], false);
    var r := InsertIn(n, i, key, vs, replace);
    assert r.children[i] == merged;
    LcpIndexCommon(key, c.key);
    LcpIndexUnique(key, c.key[..l], l);
    LcpIndexNone(key[l..], c.key[l..]);
    LcpIndexSelf(key[l..]);
    assert LookupFrom(merged.children, 1, key[l..]) == Some(vs);
    assert LookupFrom(merged.children, 0, key[l..]) == Some(vs);
  }
}
