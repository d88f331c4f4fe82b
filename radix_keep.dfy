/**
 * What Insert and Replace of search/similarity.go leave alone: every other key
 * keeps its values, and the only keys that appear besides the inserted one are
 * the split points on the way to it, with no values.
 */
module RadixKeep {
  import opened Wrappers
  import opened RadixTree
  import opened RadixWalk
  import opened RadixInsert

  /** A common prefix of length `l` can be dropped from both strings. */
  lemma LcpIndexShift(a: string, b: string, l: nat)
    requires l <= |a| && l <= |b| && a[..l] == b[..l]
    ensures LcpIndex(a, b) + 1 >= l
    ensures LcpIndex(a[l..], b[l..]) == LcpIndex(a, b) - l
  {
    var r := LcpIndex(a, b) + 1;
    LcpIndexCommon(a, b);
    forall k | 0 <= k < l
      ensures a[k] == b[k]
    {
      assert a[k] == a[..l][k] && b[k] == b[..l][k];
    }
    assert a[l..][..r - l] == a[l..r] && b[l..][..r - l] == b[l..r];
    assert a[l..r] == a[..r][l..] && b[l..r] == b[..r][l..];
    LcpIndexUnique(a[l..], b[l..], r - l);
  }

  /** What the lookup yields once `c` is the first sibling sharing a first byte
      with the key. */
  function Probe<V>(c: Node<V>, key: string): Option<seq<V>> {
    var l := LcpIndex(key, c.key);
    if l < |c.key| - 1 then None
    else if l == |key| - 1 then Some(c.data)
    else LookupFrom(c.children, 0, key[l + 1..])
  }

  /** The first sibling sharing a first byte with the key decides. */
  lemma LookupProbe<V>(cs: seq<Node<V>>, i: nat, key: string)
    requires |key| > 0 && i < |cs| && LcpIndex(key, cs[i].key) != -1
    ensures LookupFrom(cs, i, key) == Probe(cs[i], key)
  {
  }

  /** A sibling sharing no first byte with the key is passed over. */
  lemma LookupSkip<V>(cs: seq<Node<V>>, i: nat, key: string)
    requires i < |cs| && LcpIndex(key, cs[i].key) == -1
    ensures LookupFrom(cs, i, key) == LookupFrom(cs, i + 1, key)
  {
  }

  /** The lookup from sibling `i` on sees only the siblings from `i` on. */
  lemma {:induction false} LookupShift<V>(cs: seq<Node<V>>, i: nat, key: string)
    requires i <= |cs|
    ensures LookupFrom(cs, i, key) == LookupFrom(cs[i..], 0, key)
    decreases |cs| - i
  {
    if |key| > 0 && i < |cs| && LcpIndex(key, cs[i].key) == -1 {
      LookupShift(cs, i + 1, key);
      LookupShift(cs[i..], 1, key);
      assert cs[i..][1..] == cs[i + 1..];
    }
  }

  /** Appending a sibling changes a lookup only where it found nothing, and then
      only to what the new sibling alone gives. */
  lemma {:induction false} LookupAppend<V>(cs: seq<Node<V>>, x: Node<V>, i: nat, key: string)
    requires i <= |cs|
    ensures LookupFrom(cs, i, key).Some? ==> LookupFrom(cs + [x], i, key) == LookupFrom(cs, i, key)
    ensures LookupFrom(cs, i, key).None? ==>
      LookupFrom(cs + [x], i, key).None? || LookupFrom(cs + [x], i, key) == LookupFrom([x], 0, key)
    decreases |cs| - i
  {
    if |key| > 0 {
      if i == |cs| {
        assert (cs + [x])[i..] == [x];
        LookupShift(cs + [x], i, key);
      } else {
        assert (cs + [x])[i] == cs[i];
        LookupAppend(cs, x, i + 1, key);
      }
    }
  }

  /** The node `c` split at `cut`, the part before the cut holding `d`. */
  function SplitWith<V>(c: Node<V>, cut: nat, d: seq<V>): (r: Node<V>)
    requires 0 < cut < |c.key|
    ensures |r.children| == 1 && r.key + r.children[0].key == c.key && |r.key| == cut
  {
    Node(c.key[..cut], d, [Node(c.key[cut..], c.data, c.children, true)], false)
  }

  /** Splitting a node at `cut` changes the lookup of no key through it but the
      split point itself. */
  lemma ProbeSplit<V>(c: Node<V>, cut: nat, d: seq<V>, k2: string)
    requires 0 < cut < |c.key| && |k2| > 0 && k2[0] == c.key[0] && k2 != c.key[..cut]
    ensures Probe(SplitWith(c, cut, d), k2) == Probe(c, k2)
  {
    var s := SplitWith(c, cut, d);
    LcpIndexNone(k2, s.key);
    if LcpIndex(k2, s.key) + 1 < cut {
      ProbeSplitBefore(c, cut, d, k2);
    } else {
      ProbeSplitAt(c, cut, d, k2);
    }
  }

  /** ProbeSplit for a key leaving the fragment before the cut. */
  lemma ProbeSplitBefore<V>(c: Node<V>, cut: nat, d: seq<V>, k2: string)
    requires 0 < cut < |c.key| && LcpIndex(k2, SplitWith(c, cut, d).key) + 1 < cut
    ensures Probe(SplitWith(c, cut, d), k2) == Probe(c, k2)
  {
    var s := SplitWith(c, cut, d);
    var m := LcpIndex(k2, s.key) + 1;
    LcpIndexCommon(k2, s.key);
    assert s.key[..m] == c.key[..m];
    LcpIndexUnique(k2, c.key, m);
  }

  /** ProbeSplit for a key running up to the cut. */
  lemma ProbeSplitAt<V>(c: Node<V>, cut: nat, d: seq<V>, k2: string)
    requires 0 < cut < |c.key| && k2 != c.key[..cut]
    requires LcpIndex(k2, SplitWith(c, cut, d).key) + 1 == cut
    ensures Probe(SplitWith(c, cut, d), k2) == Probe(c, k2)
  {
    LcpIndexCommon(k2, SplitWith(c, cut, d).key);
    assert k2[..cut] == c.key[..cut];
    LcpIndexShift(k2, c.key, cut);
    if LcpIndex(k2, c.key) + 1 == cut {
      var s := SplitWith(c, cut, d);
      assert |k2| > cut;
      assert Probe(s, k2) == LookupFrom(s.children, 0, k2[cut..]);
      LookupSkip(s.children, 0, k2[cut..]);
    } else {
      ProbeSplitThrough(c, cut, d, k2);
    }
  }

  /** ProbeSplit for a key agreeing with the fragment past the cut. */
  lemma ProbeSplitThrough<V>(c: Node<V>, cut: nat, d: seq<V>, k2: string)
    requires 0 < cut < |c.key| && cut < |k2| && k2[..cut] == c.key[..cut]
    requires LcpIndex(k2, SplitWith(c, cut, d).key) + 1 == cut
    requires LcpIndex(k2, c.key) + 1 > cut
    requires LcpIndex(k2[cut..], c.key[cut..]) == LcpIndex(k2, c.key) - cut
    ensures Probe(SplitWith(c, cut, d), k2) == Probe(c, k2)
  {
    var s := SplitWith(c, cut, d);
    var tail := s.children[0];
    var big := LcpIndex(k2, c.key) + 1;
    assert tail.key == c.key[cut..] && tail.data == c.data && tail.children == c.children;
    assert Probe(s, k2) == LookupFrom(s.children, 0, k2[cut..]);
    LookupProbe(s.children, 0, k2[cut..]);
    assert k2[cut..][big - cut..] == k2[big..];
    assert Probe(tail, k2[cut..]) == Probe(c, k2);
  }

  /** A lone leaf is found only under its own key. */
  lemma LeafOnly<V>(key: string, vs: seq<V>, k2: string)
    requires k2 != key
    ensures LookupFrom([Node(key, vs, [], true)], 0, k2) == None
  {
    LcpIndexCommon(k2, key);
  }

  /** New values on a node change the lookup of no other key through it. */
  lemma ProbeData<V>(c: Node<V>, d: seq<V>, k2: string)
    requires k2 != c.key
    ensures Probe(c.(data := d), k2) == Probe(c, k2)
  {
    LcpIndexCommon(k2, c.key);
  }

  /** A new leaf `lk` below `s` changes the lookup of no key but `s.key + lk`. */
  lemma ProbeAppendLeaf<V>(s: Node<V>, lk: string, vs: seq<V>, k2: string)
    requires k2 != s.key + lk
    ensures Probe(s.(children := s.children + [Node(lk, vs, [], true)]), k2) == Probe(s, k2)
  {
    var leaf := Node(lk, vs, [], true);
    var l := LcpIndex(k2, s.key);
    LcpIndexCommon(k2, s.key);
    if l == |s.key| - 1 && l < |k2| - 1 {
      assert k2 == k2[..l + 1] + k2[l + 1..] && k2[..l + 1] == s.key;
      LookupAppend(s.children, leaf, 0, k2[l + 1..]);
      LeafOnly(lk, vs, k2[l + 1..]);
    }
  }

  /** How one Insert or Replace of `key` may change the entry of another key
      `k2`: not at all, or from missing to present with no values when `k2` is a
      proper prefix of `key` (a split point). */
  ghost predicate Unaffected<V>(before: Option<seq<V>>, after: Option<seq<V>>, key: string, k2: string) {
    after == before || (before.None? && after == Some([]) && |k2| < |key| && key[..|k2|] == k2)
  }

  /** Insert and Replace keep the entries of all other keys, apart from the split
      points they create on the way to the key. */
  lemma {:induction false} InsertKeepsOthers<V>(n: Node<V>, i: nat, key: string, k2: string, vs: seq<V>, replace: bool)
    requires i <= |n.children| && k2 != key
    ensures Unaffected(LookupFrom(n.children, i, k2),
                       LookupFrom(InsertIn(n, i, key, vs, replace).children, i, k2), key, k2)
    decreases |key|, |n.children| - i
  {
    if |key| == 0 || i == |n.children| {
      AppendKeeps(n, i, key, k2, vs, replace);
    } else {
      var c := n.children[i];
      var l := LcpIndex(key, c.key) + 1;
      if l == 0 {
        InsertKeepsOthers(n, i + 1, key, k2, vs, replace);
        SkipKeeps(n, i, key, k2, vs, replace);
      } else if LcpIndex(k2, c.key) == -1 {
        OtherBranchKeeps(n, i, key, k2, vs, replace);
      } else if l == |key| && l == |c.key| {
        ExactKeeps(n, i, key, k2, vs, replace);
      } else if l == |key| {
        InsideKeeps(n, i, key, k2, vs, replace);
      } else if l == |c.key| {
        if LcpIndex(k2, c.key) + 1 == l && |k2| > l {
          LcpIndexCommon(key, c.key);
          LcpIndexCommon(k2, c.key);
          assert k2 == k2[..l] + k2[l..] && key == key[..l] + key[l..];
          InsertKeepsOthers(c, 0, key[l..], k2[l..], vs, replace);
        }
        DescendKeeps(n, i, key, k2, vs, replace);
      } else {
        DivergedKeeps(n, i, key, k2, vs, replace);
      }
    }
  }

  /** InsertKeepsOthers where the key becomes a new last child. */
  lemma AppendKeeps<V>(n: Node<V>, i: nat, key: string, k2: string, vs: seq<V>, replace: bool)
    requires i <= |n.children| && (|key| == 0 || i == |n.children|) && k2 != key
    ensures Unaffected(LookupFrom(n.children, i, k2),
                       LookupFrom(InsertIn(n, i, key, vs, replace).children, i, k2), key, k2)
  {
    var leaf := Node(key, vs, [], true);
    assert InsertIn(n, i, key, vs, replace).children == n.children + [leaf];
    LookupAppend(n.children, leaf, i, k2);
    LeafOnly(key, vs, k2);
  }

  /** InsertKeepsOthers past a child sharing nothing with the key. */
  lemma SkipKeeps<V>(n: Node<V>, i: nat, key: string, k2: string, vs: seq<V>, replace: bool)
    requires i < |n.children| && |key| > 0 && LcpIndex(key, n.children[i].key) == -1
    requires Unaffected(LookupFrom(n.children, i + 1, k2),
                        LookupFrom(InsertIn(n, i + 1, key, vs, replace).children, i + 1, k2), key, k2)
    ensures Unaffected(LookupFrom(n.children, i, k2),
                       LookupFrom(InsertIn(n, i, key, vs, replace).children, i, k2), key, k2)
  {
    var c := n.children[i];
    var r := InsertIn(n, i + 1, key, vs, replace);
    assert InsertIn(n, i, key, vs, replace) == r;
    assert r.children[i] == c;
    if |k2| > 0 {
      if LcpIndex(k2, c.key) == -1 {
        LookupSkip(n.children, i, k2);
        LookupSkip(r.children, i, k2);
      } else {
        LookupProbe(n.children, i, k2);
        LookupProbe(r.children, i, k2);
      }
    }
  }

  /** InsertKeepsOthers for a key `k2` passing over the child the key goes into. */
  lemma OtherBranchKeeps<V>(n: Node<V>, i: nat, key: string, k2: string, vs: seq<V>, replace: bool)
    requires i < |n.children| && |key| > 0
    requires LcpIndex(key, n.children[i].key) != -1 && LcpIndex(k2, n.children[i].key) == -1
    ensures LookupFrom(InsertIn(n, i, key, vs, replace).children, i, k2) == LookupFrom(n.children, i, k2)
  {
    var c := n.children[i];
    var l := LcpIndex(key, c.key) + 1;
    var r := InsertIn(n, i, key, vs, replace);
    var m := r.children[i];
    assert r.children == n.children[i := m];
    assert m.key == c.key[..l] || m.key == c.key;
    LcpIndexNone(key, c.key);
    LcpIndexNone(k2, c.key);
    LcpIndexNone(k2, m.key);
    LookupSkip(n.children, i, k2);
    LookupSkip(r.children, i, k2);
    LookupShift(n.children, i + 1, k2);
    LookupShift(r.children, i + 1, k2);
    assert r.children[i + 1..] == n.children[i + 1..];
  }

  /** InsertKeepsOthers where the key is the whole fragment of a child. */
  lemma ExactKeeps<V>(n: Node<V>, i: nat, key: string, k2: string, vs: seq<V>, replace: bool)
    requires i < |n.children| && k2 != key && LcpIndex(k2, n.children[i].key) != -1
    requires LcpIndex(key, n.children[i].key) + 1 == |key| == |n.children[i].key| > 0
    ensures LookupFrom(InsertIn(n, i, key, vs, replace).children, i, k2) == LookupFrom(n.children, i, k2)
  {
    var c := n.children[i];
    var r := InsertIn(n, i, key, vs, replace);
    LcpIndexCommon(key, c.key);
    assert key == c.key;
    assert r.children[i] == c.(data := Put(c.data, vs, replace));
    LookupProbe(n.children, i, k2);
    LookupProbe(r.children, i, k2);
    ProbeData(c, Put(c.data, vs, replace), k2);
  }

  /** InsertKeepsOthers where the key ends inside the fragment of a child. */
  lemma InsideKeeps<V>(n: Node<V>, i: nat, key: string, k2: string, vs: seq<V>, replace: bool)
    requires i < |n.children| && k2 != key && LcpIndex(k2, n.children[i].key) != -1
    requires 0 < LcpIndex(key, n.children[i].key) + 1 == |key| < |n.children[i].key|
    ensures LookupFrom(InsertIn(n, i, key, vs, replace).children, i, k2) == LookupFrom(n.children, i, k2)
  {
    var c := n.children[i];
    var l := |key|;
    var r := InsertIn(n, i, key, vs, replace);
    var m := SplitWith(c, l, vs);
    LcpIndexCommon(key, c.key);
    assert key == c.key[..l];
    assert r.children[i] == m;
    LcpIndexNone(k2, c.key);
    LcpIndexNone(k2, m.key);
    LookupProbe(n.children, i, k2);
    LookupProbe(r.children, i, k2);
    ProbeSplit(c, l, vs, k2);
  }

  /** InsertKeepsOthers where the key goes on below a child, given the same for
      the rest of the key there. */
  lemma DescendKeeps<V>(n: Node<V>, i: nat, key: string, k2: string, vs: seq<V>, replace: bool)
    requires i < |n.children| && k2 != key && LcpIndex(k2, n.children[i].key) != -1
    requires 0 < LcpIndex(key, n.children[i].key) + 1 == |n.children[i].key| < |key|
    requires var l := |n.children[i].key|;
      LcpIndex(k2, n.children[i].key) + 1 == l && |k2| > l ==>
      Unaffected(LookupFrom(n.children[i].children, 0, k2[l..]),
                 LookupFrom(InsertIn(n.children[i], 0, key[l..], vs, replace).children, 0, k2[l..]),
                 key[l..], k2[l..])
    ensures Unaffected(LookupFrom(n.children, i, k2),
                       LookupFrom(InsertIn(n, i, key, vs, replace).children, i, k2), key, k2)
  {
    var c := n.children[i];
    var l := |c.key|;
    var m := InsertIn(c, 0, key[l..], vs, replace);
    var r := InsertIn(n, i, key, vs, replace);
    assert r.children[i] == m;
    LcpIndexNone(k2, c.key);
    LookupProbe(n.children, i, k2);
    LookupProbe(r.children, i, k2);
    if LcpIndex(k2, c.key) + 1 == l && |k2| > l {
      assert key[..l] == c.key == k2[..l] by {
        LcpIndexCommon(key, c.key);
        LcpIndexCommon(k2, c.key);
      }
      assert |k2| < |key| ==> key[..|k2|] == key[..l] + key[l..][..|k2| - l];
      assert k2 == k2[..l] + k2[l..];
    }
  }

  /** InsertKeepsOthers where the key leaves the fragment of a child: the only new
      entry is the split point, with no values. */
  lemma DivergedKeeps<V>(n: Node<V>, i: nat, key: string, k2: string, vs: seq<V>, replace: bool)
    requires i < |n.children| && k2 != key && LcpIndex(k2, n.children[i].key) != -1
    requires var l := LcpIndex(key, n.children[i].key) + 1;
      0 < l < |key| && l < |n.children[i].key|
    ensures Unaffected(LookupFrom(n.children, i, k2),
                       LookupFrom(InsertIn(n, i, key, vs, replace).children, i, k2), key, k2)
  {
    var c := n.children[i];
    var l := LcpIndex(key, c.key) + 1;
    var sp := SplitWith(c, l, []);
    var m := sp.(children := sp.children + [Node(key[l..], vs, [], true)]);
    var r := InsertIn(n, i, key, vs, replace);
    assert r.children[i] == m;
    LcpIndexCommon(key, c.key);
    assert key == sp.key + key[l..];
    LcpIndexNone(k2, c.key);
    LcpIndexNone(k2, m.key);
    LookupProbe(n.children, i, k2);
    LookupProbe(r.children, i, k2);
    if k2 == c.key[..l] {
      LcpIndexPrefix(c.key, k2);
      LcpIndexSelf(k2);
    } else {
      ProbeAppendLeaf(sp, key[l..], vs, k2);
      ProbeSplit(c, l, [], k2);
    }
  }

  /** Insert(k, vs) or Replace(k, vs) on a map: Get(k) then returns the old values
      with vs appended (Insert) or vs alone (Replace); every key that was in the
      map and is not k keeps what Get returned for it. */
  lemma InsertThenGet<V>(root: Node<V>, key: string, k2: string, vs: seq<V>, replace: bool)
    requires |key| > 0
    ensures Get(InsertTree(root, key, vs, replace), key) == Some(Put(ValuesOr(Lookup(root, key)), vs, replace))
    ensures k2 != key && Lookup(root, k2).Some? ==>
      Get(InsertTree(root, key, vs, replace), k2) == Get(root, k2)
  {
    var after := InsertTree(root, key, vs, replace);
    InsertFindsKey(root, 0, key, vs, replace);
    GetFindsLookup(after, key);
    if k2 != key && Lookup(root, k2).Some? {
      InsertKeepsOthers(root, 0, key, k2, vs, replace);
      GetFindsLookup(root, k2);
      GetFindsLookup(after, k2);
    }
  }

  /** Insert("") appends a child with the empty key to the root, which Get("")
      never reaches. */
  lemma InsertEmptyKey<V>(root: Node<V>, vs: seq<V>, replace: bool)
    ensures InsertTree(root, [], vs, replace).children == root.children + [Node([], vs, [], true)]
    ensures Get(InsertTree(root, [], vs, replace), []) == None
  {
  }

  /** The map of the fall-through example is what Insert("stringmap", x) and then
      Insert("ong", y) build. */
  lemma StringmapOngInserted()
    ensures InsertTree(InsertTree(NewRoot(), "stringmap", ['x'], false), "ong", ['y'], false) == StringmapOng()
  {
    LcpIndexUnique("ong", "stringmap", 0);
  }
}
