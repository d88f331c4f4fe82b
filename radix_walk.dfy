/**
 * nodeForKey of search/similarity.go as a function, and the lookups built on it.
 *
 * `WalkIn` follows the source's loop over the siblings of one level: a sibling
 * sharing no first byte with the key is passed over, a sibling whose fragment
 * is a prefix of the key is descended into with the rest of the key, and a
 * partial match either ends the walk (when nodes are to be created) or, as the
 * source does when they are not, restarts the comparison on the same node with
 * the rest of the key. Outcome paths are relative to the node whose children are
 * walked.
 *
 * `LookupFrom` is the reference lookup the walk is measured against: the first
 * sibling sharing a first byte with the key decides, and the key is found only
 * where the fragments along a path spell it exactly.
 */
module RadixWalk {
  import opened Wrappers
  import opened RadixTree

  /** Where the walk stops.
      Exact(p): the fragments down to `p` spell the key.
      Inside(p, cut): the key ends `cut` bytes into the fragment of `p`.
      Diverged(p, cut, rest): (creating only) the key leaves the fragment of `p`
        after `cut` bytes, `rest` is what is left of it.
      Stopped(p, rest): no sibling below `p` continues the key; `rest` is left. */
  datatype Outcome = Exact(path: Path) | Inside(path: Path, cut: nat) | Diverged(path: Path, cut: nat, rest: string) | Stopped(path: Path, rest: string)

  /** `o` with `i` put in front of its path. */
  function Under(i: nat, o: Outcome): (r: Outcome)
    ensures r.path == [i] + o.path
  {
    match o
    case Exact(p) => Exact([i] + p)
    case Inside(p, cut) => Inside([i] + p, cut)
    case Diverged(p, cut, rest) => Diverged([i] + p, cut, rest)
    case Stopped(p, rest) => Stopped([i] + p, rest)
  }

  /** Every path an outcome names is a node below `n`; a cut lies strictly inside
      the fragment it cuts. */
  predicate Names<V>(n: Node<V>, o: Outcome) {
    && ValidPath(n, o.path)
    && (!o.Stopped? ==> o.path != [])
    && (o.Inside? || o.Diverged? ==> 0 < o.cut < |At(n, o.path).key|)
    && (o.Diverged? ==> o.rest != [])
  }

  /** The loop of nodeForKey over the children of `n` from child `i` on, with what
      is left of the key. */
  function WalkIn<V>(n: Node<V>, i: nat, key: string, create: bool): (r: Outcome)
    ensures Names(n, r)
    ensures r.Diverged? ==> create
    decreases |key|, |n.children| - i
  {
    if |key| == 0 || i >= |n.children| then Stopped([], key)
    else
      var c := n.children[i];
      var l := LcpIndex(key, c.key);
      if l == -1 then WalkIn(n, i + 1, key, create)
      else if l == |key| - 1 && l == |c.key| - 1 then Exact([i])
      else if l == |key| - 1 then Inside([i], l + 1)
      else if l == |c.key| - 1 then Under(i, WalkIn(c, 0, key[l + 1..], create))
      else if create then Diverged([i], l + 1, key[l + 1..])
      else WalkIn(n, i, key[l + 1..], create)
  }

  /** nodeForKey from the root: the root itself is never compared. */
  function Walk<V>(root: Node<V>, key: string, create: bool): (r: Outcome)
    ensures Names(root, r)
  {
    WalkIn(root, 0, key, create)
  }

  /** The reference lookup over the siblings `cs` from sibling `i` on: the first
      sibling sharing a first byte with the key decides; the key is there exactly
      when that sibling's fragment spells it, and below it when the fragment is a
      proper prefix of it. */
  function LookupFrom<V>(cs: seq<Node<V>>, i: nat, key: string): Option<seq<V>>
    decreases |key|, |cs| - i
  {
    if |key| == 0 || i >= |cs| then None
    else
      var c := cs[i];
      var l := LcpIndex(key, c.key);
      if l == -1 then LookupFrom(cs, i + 1, key)
      else if l < |c.key| - 1 then None
      else if l == |key| - 1 then Some(c.data)
      else LookupFrom(c.children, 0, key[l + 1..])
  }

  /** The values stored under `key`, if the key is in the map. */
  function Lookup<V>(root: Node<V>, key: string): Option<seq<V>> {
    LookupFrom(root.children, 0, key)
  }

  /** The node nodeForKey returns when it creates nothing: the node the walk
      stopped at, or the last node descended into; nil (`None`) when the walk
      stopped among the root's children. */
  function Located(o: Outcome): Option<Path> {
    match o
    case Stopped(p, _) => if p == [] then None else Some(p)
    case _ => Some(o.path)
  }

  /** nodeForKey with createIfMissing: the tree after the split and append the
      walk's outcome calls for, and the node returned. */
  function Created<V>(root: Node<V>, o: Outcome): (r: (Node<V>, Path))
    requires Names(root, o)
    ensures ValidPath(r.0, r.1)
  {
    match o
    case Exact(p) => (root, p)
    case Inside(p, cut) => (ReplaceAt(root, p, Split(At(root, p), cut)), p)
    case Diverged(p, cut, rest) =>
      var m := AppendChild(Split(At(root, p), cut), rest);
      ReplaceTwice(root, p, m, [1], m.children[1]);
      (ReplaceAt(root, p, m), p + [1])
    case Stopped(p, rest) =>
      var m := AppendChild(At(root, p), rest);
      ReplaceTwice(root, p, m, [|m.children| - 1], m.children[|m.children| - 1]);
      (ReplaceAt(root, p, m), p + [|m.children| - 1])
  }

  /** Get: the values of the node nodeForKey reports as an exact match. */
  function Get<V>(root: Node<V>, key: string): Option<seq<V>> {
    var o := Walk(root, key, false);
    if o.Exact? then Some(At(root, o.path).data) else None
  }

  /** Contains: nodeForKey reports an exact match. */
  predicate Contains<V>(root: Node<V>, key: string) {
    Walk(root, key, false).Exact?
  }

  /** ContainsPrefix: nodeForKey returns a node. */
  predicate ContainsPrefix<V>(root: Node<V>, key: string) {
    Located(Walk(root, key, false)).Some?
  }

  /** Contains(k) holds exactly when Get(k) returns values. */
  lemma ContainsIffGet<V>(root: Node<V>, key: string)
    ensures Contains(root, key) <==> Get(root, key).Some?
    ensures Contains(root, key) ==> ContainsPrefix(root, key)
  {
  }

  /** Every key in the map is found by the walk, at a node holding its values. */
  lemma {:induction false} WalkFindsLookup<V>(n: Node<V>, i: nat, key: string)
    requires LookupFrom(n.children, i, key).Some?
    ensures WalkIn(n, i, key, false).Exact?
    ensures At(n, WalkIn(n, i, key, false).path).data == LookupFrom(n.children, i, key).value
    decreases |key|, |n.children| - i
  {
    var c := n.children[i];
    var l := LcpIndex(key, c.key);
    if l == -1 {
      WalkFindsLookup(n, i + 1, key);
    } else if l != |key| - 1 {
      WalkFindsLookup(c, 0, key[l + 1..]);
      DescendFinds(n, i, key);
    } else {
      assert WalkIn(n, i, key, false) == Exact([i]);
      assert At(n, [i]) == At(c, []);
    }
  }

  /** WalkFindsLookup where the child's fragment is a proper prefix of the key:
      the node found below the child is found from its parent. */
  lemma DescendFinds<V>(n: Node<V>, i: nat, key: string)
    requires i < |n.children| && |key| > 0
    requires var l := LcpIndex(key, n.children[i].key);
      l != -1 && l != |key| - 1 && LookupFrom(n.children, i, key).Some?
    requires var c := n.children[i]; var l := LcpIndex(key, c.key);
      var o := WalkIn(c, 0, key[l + 1..], false);
      o.Exact? && At(c, o.path).data == LookupFrom(c.children, 0, key[l + 1..]).value
    ensures WalkIn(n, i, key, false).Exact?
    ensures At(n, WalkIn(n, i, key, false).path).data == LookupFrom(n.children, i, key).value
  {
    var c := n.children[i];
    var l := LcpIndex(key, c.key);
    var o := WalkIn(c, 0, key[l + 1..], false);
    assert WalkIn(n, i, key, false) == Under(i, o);
    assert ([i] + o.path)[0] == i && ([i] + o.path)[1..] == o.path;
  }

  /** Get returns the stored values of every key in the map; a key Get does not
      find is not in the map. */
  lemma GetFindsLookup<V>(root: Node<V>, key: string)
    ensures Lookup(root, key).Some? ==> Get(root, key) == Lookup(root, key)
    ensures Get(root, key).None? ==> Lookup(root, key).None?
  {
    if Lookup(root, key).Some? {
      WalkFindsLookup(root, 0, key);
    }
  }

  /** A map holding "stringmap" and "ong" as the root's children. */
  function StringmapOng(): Node<char> {
    Node([], [], [Node("stringmap", ['x'], [], true), Node("ong", ['y'], [], true)], false)
  }

  /** Get does more than find stored keys: asked for "strong", which is not in the
      map, the walk matches "str" against "stringmap", falls through with "ong" on
      the same node, moves on to the sibling "ong" and returns its values. */
  lemma GetFallThrough()
    ensures Lookup(StringmapOng(), "strong") == None
    ensures Get(StringmapOng(), "strong") == Some(['y'])
  {
    LcpIndexUnique("strong", "stringmap", 3);
    LcpIndexUnique("ong", "stringmap", 0);
    LcpIndexUnique("ong", "ong", 3);
  }
}
