/**
 * Exec of search/similarity.go: files every dictionary entry in a PrefixMap
 * under each of its lower-cased, space-separated words, gathers the entries
 * filed under the lower-cased input (GetByPrefix), and keeps those whose
 * similarity to the input reaches the threshold, in the order gathered.
 *
 * `Candidates` and `Matches` are the reference for the two phases; the method
 * `Exec` runs the source's loops on a PrefixMap object and is proved to return
 * `Matches(Candidates(..))`. The lemmas then say which entries that is: only
 * dictionary entries, each entry filed once per word, every entry having the
 * input as one of its words among the candidates, and exactly the candidates
 * scoring at least the threshold among the results.
 *
 * strings.ToLower is a parameter `toLower` applied rune by rune, as the Go
 * library does.
 */
module Search {
  import opened Wrappers
  import opened RadixTree
  import opened RadixWalk
  import opened RadixCollect
  import opened RadixInsert
  import opened RadixKeep
  import opened RadixStored
  import opened RadixReach
  import opened Levenshtein
  import Radix

  /** Match: a dictionary entry and its similarity to the input. */
  datatype Match = Match(value: string, similarity: real)

  /** strings.ToLower, with the rune mapping as a parameter. */
  function Lower(s: string, toLower: char -> char): (r: string)
    ensures |r| == |s|
    ensures forall j :: 0 <= j < |s| ==> r[j] == toLower(s[j])
  {
    seq(|s|, j requires 0 <= j < |s| => toLower(s[j]))
  }

  /** strings.Split(s, " "): the pieces between the spaces of `s`, empty pieces
      included. */
  function Split(s: string): (r: seq<string>)
    ensures |r| > 0
    decreases |s|
  {
    if s == [] then [[]]
    else
      var rest := Split(s[1..]);
      if s[0] == ' ' then [[]] + rest
      else [[s[0]] + rest[0]] + rest[1..]
  }

  /** Split gives one piece more than there are spaces, and no piece holds a
      space. */
  lemma {:induction false} SplitPieces(s: string)
    ensures |Split(s)| == multiset(s)[' '] + 1
    ensures forall j :: 0 <= j < |Split(s)| ==> ' ' !in Split(s)[j]
    decreases |s|
  {
    if s != [] {
      SplitPieces(s[1..]);
      var rest := Split(s[1..]);
      assert s == [s[0]] + s[1..];
      if s[0] != ' ' {
        forall j | 1 <= j < |rest| ensures rest[1..][j - 1] == rest[j] {}
      }
    }
  }

  /** strings.Join(parts, " "), the inverse of Split. */
  function Join(parts: seq<string>): string
    requires |parts| > 0
  {
    if |parts| == 1 then parts[0] else parts[0] + [' '] + Join(parts[1..])
  }

  /** Joining the pieces of Split with spaces gives back the string. */
  lemma {:induction false} SplitJoin(s: string)
    ensures Join(Split(s)) == s
    decreases |s|
  {
    if s != [] {
      SplitJoin(s[1..]);
      var rest := Split(s[1..]);
      if s[0] == ' ' {
        assert ([[]] + rest)[1..] == rest;
      } else if |rest| > 1 {
        assert ([[s[0]] + rest[0]] + rest[1..])[1..] == rest[1..];
      }
    }
  }

  /** Splitting pieces without spaces that were joined with spaces gives back
      the pieces. */
  lemma {:induction false} JoinSplit(parts: seq<string>)
    requires |parts| > 0 && forall j :: 0 <= j < |parts| ==> ' ' !in parts[j]
    ensures Split(Join(parts)) == parts
    decreases |parts|
  {
    if |parts| == 1 {
      SplitWord(parts[0], []);
    } else {
      JoinSplit(parts[1..]);
      SplitWord(parts[0], Join(parts[1..]));
      assert [parts[0]] + parts[1..] == parts;
    }
  }

  /** A word without spaces followed by a space and `t` splits into the word
      and the pieces of `t`; a word alone splits into itself. */
  lemma {:induction false} SplitWord(w: string, t: string)
    requires ' ' !in w
    ensures Split(w + [' '] + t) == [w] + Split(t)
    ensures Split(w) == [w]
    decreases |w|
  {
    if w != [] {
      SplitWord(w[1..], t);
      assert (w + [' '] + t)[1..] == w[1..] + [' '] + t;
      assert [w[0]] + w[1..] == w;
    } else {
      assert w + [' '] + t == [' '] + t;
      assert ([' '] + t)[1..] == t;
    }
  }

  /** The words Exec files an entry under. */
  function Parts(words: string, toLower: char -> char): seq<string> {
    Split(Lower(words, toLower))
  }

  /** The map after `Insert(part, words)` for each of `parts` in turn. */
  function FileUnder(root: Node<string>, parts: seq<string>, words: string): Node<string>
    decreases |parts|
  {
    if parts == [] then root
    else InsertTree(FileUnder(root, parts[..|parts| - 1], words), parts[|parts| - 1], [words], false)
  }

  /** The map the first loop of Exec builds from `dictionary`. */
  function Populate(dictionary: seq<string>, toLower: char -> char): Node<string>
    decreases |dictionary|
  {
    if dictionary == [] then NewRoot()
    else
      var words := dictionary[|dictionary| - 1];
      FileUnder(Populate(dictionary[..|dictionary| - 1], toLower), Parts(words, toLower), words)
  }

  /** The entries GetByPrefix returns for the lower-cased input. */
  function Candidates(dictionary: seq<string>, input: string, toLower: char -> char): seq<string> {
    var root := Populate(dictionary, toLower);
    var found := Located(Walk(root, Lower(input, toLower), false));
    if found.None? then [] else Values(root, Preorder(root, found.value))
  }

  /** The similarity Exec computes for a candidate: none where ComputeSimilarity
      divides zero by zero (both strings empty), a NaN that no threshold
      comparison accepts. */
  function Score(value: string, input: string, toLower: char -> char): (r: Option<real>)
    ensures r.None? <==> |value| == 0 && |input| == 0
    ensures r.Some? ==> 0.0 <= r.value <= 1.0
    ensures r.Some? ==> (r.value == 1.0 <==> Distance(Lower(value, toLower), Lower(input, toLower)) == 0)
  {
    if |value| == 0 && |input| == 0 then None
    else Some(ComputeSimilarity(|value|, |input|, Distance(Lower(value, toLower), Lower(input, toLower))))
  }

  /** The matches the second loop of Exec collects from `values`, in order. */
  function Matches(values: seq<string>, input: string, threshold: real, toLower: char -> char): seq<Match>
    decreases |values|
  {
    if values == [] then []
    else
      var before := Matches(values[..|values| - 1], input, threshold, toLower);
      var value := values[|values| - 1];
      var s := Score(value, input, toLower);
      if s.Some? && s.value >= threshold then before + [Match(value, s.value)] else before
  }

  /** A match is collected exactly for a value whose score reaches the
      threshold, with that score. */
  lemma {:induction false} MatchesExactly(values: seq<string>, input: string, threshold: real, toLower: char -> char, m: Match)
    ensures m in Matches(values, input, threshold, toLower) <==>
      m.value in values && Score(m.value, input, toLower) == Some(m.similarity) && m.similarity >= threshold
    decreases |values|
  {
    if values != [] {
      var init := values[..|values| - 1];
      MatchesExactly(init, input, threshold, toLower, m);
      assert values == init + [values[|values| - 1]];
      assert m.value in values <==> m.value in init || m.value == values[|values| - 1];
    }
  }

  /** Matches keeps the order of the values: collecting from `a + b` collects
      from `a`, then from `b`. */
  lemma {:induction false} MatchesConcat(a: seq<string>, b: seq<string>, input: string, threshold: real, toLower: char -> char)
    ensures Matches(a + b, input, threshold, toLower)
         == Matches(a, input, threshold, toLower) + Matches(b, input, threshold, toLower)
    decreases |b|
  {
    if b == [] {
      assert a + b == a;
    } else {
      var init := b[..|b| - 1];
      MatchesConcat(a, init, input, threshold, toLower);
      assert (a + b)[..|a + b| - 1] == a + init;
      assert (a + b)[|a + b| - 1] == b[|b| - 1];
    }
  }

  /** Exec: builds the map, gathers the candidates for the lower-cased input
      and returns the ones that reach `threshold` with their similarity. The
      package variables `datasource` and `similarity` are locals here. */
  method Exec(dictionary: seq<string>, input: string, threshold: real, toLower: char -> char)
    returns (results: seq<Match>)
    ensures results == Matches(Candidates(dictionary, input, toLower), input, threshold, toLower)
  {
    var datasource := Build(dictionary, toLower);
    var values := datasource.GetByPrefix(Lower(input, toLower));
    results := Collect(values, input, threshold, toLower);
  }

  /** The first loop of Exec: a new map with every entry filed under its
      words, entry by entry. */
  method Build(dictionary: seq<string>, toLower: char -> char) returns (datasource: Radix.PrefixMap<string>)
    ensures datasource.root == Populate(dictionary, toLower)
  {
    datasource := new Radix.PrefixMap<string>();
    for i := 0 to |dictionary|
      invariant datasource.root == Populate(dictionary[..i], toLower)
    {
      var words := dictionary[i];
      assert dictionary[..i + 1][..i] == dictionary[..i];
      FileEntry(datasource, words, Split(Lower(words, toLower)));
    }
    assert dictionary[..|dictionary|] == dictionary;
  }

  /** The inner loop of the first: `Insert(part, words)` for each part. */
  method FileEntry(datasource: Radix.PrefixMap<string>, words: string, parts: seq<string>)
    modifies datasource
    ensures datasource.root == FileUnder(old(datasource.root), parts, words)
  {
    for j := 0 to |parts|
      invariant datasource.root == FileUnder(old(datasource.root), parts[..j], words)
    {
      assert parts[..j + 1][..j] == parts[..j];
      datasource.Insert(parts[j], [words]);
    }
    assert parts[..|parts|] == parts;
  }

  /** The second loop of Exec: the score of each value against the input, and
      a match for each one reaching `threshold`. */
  method Collect(values: seq<string>, input: string, threshold: real, toLower: char -> char)
    returns (results: seq<Match>)
    ensures results == Matches(values, input, threshold, toLower)
  {
    var lowered := Lower(input, toLower);
    results := [];
    for k := 0 to |values|
      invariant results == Matches(values[..k], input, threshold, toLower)
    {
      var value := values[k];
      var ld := LevenshteinDistance(Lower(value, toLower), lowered);
      if |value| != 0 || |input| != 0 {
        var s := ComputeSimilarity(|value|, |input|, ld);
        if s >= threshold {
          results := results + [Match(value, s)];
        }
      }
      assert values[..k + 1][..k] == values[..k];
    }
    assert values[..|values|] == values;
  }

  /** Filing an entry under its words stores it once per word and leaves the
      rest of the map's values as they were. */
  lemma {:induction false} FileUnderStored(root: Node<string>, parts: seq<string>, words: string)
    ensures Stored(FileUnder(root, parts, words)) == Stored(root)[words := Stored(root)[words] + |parts|]
    decreases |parts|
  {
    if parts != [] {
      var init := parts[..|parts| - 1];
      FileUnderStored(root, init, words);
      InsertStored(FileUnder(root, init, words), parts[|parts| - 1], [words]);
    }
  }

  /** The map holds nothing but dictionary entries. */
  lemma {:induction false} PopulateStored(dictionary: seq<string>, toLower: char -> char, v: string)
    requires v in Stored(Populate(dictionary, toLower))
    ensures v in dictionary
    decreases |dictionary|
  {
    if dictionary != [] {
      var init := dictionary[..|dictionary| - 1];
      var words := dictionary[|dictionary| - 1];
      FileUnderStored(Populate(init, toLower), Parts(words, toLower), words);
      if v != words {
        assert v in Stored(Populate(init, toLower));
        PopulateStored(init, toLower, v);
        var k :| 0 <= k < |init| && init[k] == v;
        assert dictionary[k] == v;
      }
    }
  }

  /** Exec only ever returns dictionary entries. */
  lemma CandidatesFromDictionary(dictionary: seq<string>, input: string, toLower: char -> char, v: string)
    requires v in Candidates(dictionary, input, toLower)
    ensures v in dictionary
  {
    var root := Populate(dictionary, toLower);
    var found := Located(Walk(root, Lower(input, toLower), false));
    var p := found.value;
    PreorderStored(root, p);
    StoredAt(root, p);
    assert v in multiset(Values(root, Preorder(root, p)));
    PopulateStored(dictionary, toLower, v);
  }

  /** `x` is among the values stored under `key`. */
  ghost predicate Holds(root: Node<string>, key: string, x: string) {
    Lookup(root, key).Some? && x in Lookup(root, key).value
  }

  /** Insert keeps every value of every non-empty key. */
  lemma InsertHolds(root: Node<string>, key: string, vs: seq<string>, k: string, x: string)
    requires |k| > 0 && Holds(root, k, x)
    ensures Holds(InsertTree(root, key, vs, false), k, x)
  {
    if key == k {
      InsertFindsKey(root, 0, key, vs, false);
    } else {
      InsertKeepsOthers(root, 0, key, k, vs, false);
    }
  }

  /** Filing more entries keeps every value of every non-empty key. */
  lemma {:induction false} FileUnderHolds(root: Node<string>, parts: seq<string>, words: string, k: string, x: string)
    requires |k| > 0 && Holds(root, k, x)
    ensures Holds(FileUnder(root, parts, words), k, x)
    decreases |parts|
  {
    if parts != [] {
      FileUnderHolds(root, parts[..|parts| - 1], words, k, x);
      InsertHolds(FileUnder(root, parts[..|parts| - 1], words), parts[|parts| - 1], [words], k, x);
    }
  }

  /** After filing, an entry is stored under each of its non-empty words. */
  lemma {:induction false} FileUnderFiles(root: Node<string>, parts: seq<string>, words: string, j: nat)
    requires j < |parts| && |parts[j]| > 0
    ensures Holds(FileUnder(root, parts, words), parts[j], words)
    decreases |parts|
  {
    var init := parts[..|parts| - 1];
    var before := FileUnder(root, init, words);
    if j == |parts| - 1 {
      InsertFindsKey(before, 0, parts[j], [words], false);
    } else {
      assert init[j] == parts[j];
      FileUnderFiles(root, init, words, j);
      InsertHolds(before, parts[|parts| - 1], [words], parts[j], words);
    }
  }

  /** Every dictionary entry is stored under each of its non-empty words. */
  lemma {:induction false} PopulateFiles(dictionary: seq<string>, toLower: char -> char, i: nat, j: nat)
    requires i < |dictionary| && j < |Parts(dictionary[i], toLower)|
    requires |Parts(dictionary[i], toLower)[j]| > 0
    ensures Holds(Populate(dictionary, toLower), Parts(dictionary[i], toLower)[j], dictionary[i])
    decreases |dictionary|
  {
    var init := dictionary[..|dictionary| - 1];
    var words := dictionary[|dictionary| - 1];
    var part := Parts(dictionary[i], toLower)[j];
    if i == |dictionary| - 1 {
      FileUnderFiles(Populate(init, toLower), Parts(words, toLower), words, j);
    } else {
      assert init[i] == dictionary[i];
      PopulateFiles(init, toLower, i, j);
      FileUnderHolds(Populate(init, toLower), Parts(words, toLower), words, part, dictionary[i]);
    }
  }

  /** GetByPrefix of a key that is in the map returns at least its values. */
  lemma HoldsGathered(root: Node<string>, key: string, x: string)
    requires Holds(root, key, x)
    ensures var found := Located(Walk(root, key, false));
      found.Some? && x in Values(root, Preorder(root, found.value))
  {
    GetFindsLookup(root, key);
    var o := Walk(root, key, false);
    var p := o.path;
    assert Values(root, Preorder(root, p)) == At(root, p).data + Values(root, Preorder(root, p)[1..]);
  }

  /** An entry one of whose words is the lower-cased, non-empty input is among
      the candidates. */
  lemma ExecFindsWord(dictionary: seq<string>, input: string, toLower: char -> char, i: nat, j: nat)
    requires i < |dictionary| && j < |Parts(dictionary[i], toLower)|
    requires Parts(dictionary[i], toLower)[j] == Lower(input, toLower) && |input| > 0
    ensures dictionary[i] in Candidates(dictionary, input, toLower)
  {
    PopulateFiles(dictionary, toLower, i, j);
    HoldsGathered(Populate(dictionary, toLower), Lower(input, toLower), dictionary[i]);
  }

  /** An entry that is a single word equal to the input up to case is returned
      with similarity 1, whatever threshold up to 1 is asked for. */
  lemma ExecFindsExactWord(dictionary: seq<string>, input: string, threshold: real, toLower: char -> char, i: nat)
    requires i < |dictionary| && |input| > 0 && threshold <= 1.0
    requires Lower(dictionary[i], toLower) == Lower(input, toLower) && ' ' !in Lower(input, toLower)
    ensures Match(dictionary[i], 1.0) in Matches(Candidates(dictionary, input, toLower), input, threshold, toLower)
  {
    var w := Lower(input, toLower);
    SplitWord(w, []);
    ExecFindsWord(dictionary, input, toLower, i, 0);
    DistanceToSelfAndEmpty(w);
    MatchesExactly(Candidates(dictionary, input, toLower), input, threshold, toLower, Match(dictionary[i], 1.0));
  }

  /** An entry one of whose words starts with the lower-cased, non-empty input
      is among the candidates. */
  lemma ExecFindsPrefix(dictionary: seq<string>, input: string, toLower: char -> char, i: nat, j: nat)
    requires i < |dictionary| && j < |Parts(dictionary[i], toLower)| && |input| > 0
    requires Lower(input, toLower) <= Parts(dictionary[i], toLower)[j]
    ensures dictionary[i] in Candidates(dictionary, input, toLower)
  {
    var root := Populate(dictionary, toLower);
    var part := Parts(dictionary[i], toLower)[j];
    PopulateFiles(dictionary, toLower, i, j);
    PrefixGathers(root, Lower(input, toLower), part);
    assert dictionary[i] in multiset(Lookup(root, part).value);
  }

  /** An empty input gathers no candidates and so matches nothing, and an empty
      dictionary gathers none for any input. */
  lemma ExecEmpty(dictionary: seq<string>, input: string, threshold: real, toLower: char -> char)
    ensures Candidates(dictionary, [], toLower) == []
    ensures Matches(Candidates(dictionary, [], toLower), [], threshold, toLower) == []
    ensures Candidates([], input, toLower) == []
  {
    EmptyPrefixFindsNothing(Populate(dictionary, toLower));
    assert Lower([], toLower) == [];
  }
}
