/**
 * Edit distance and similarity score of search/similarity.go.
 *
 * `EditDistance` is the textbook recurrence (deletion, insertion, substitution)
 * and serves as the reference; the method `LevenshteinDistance` is the
 * two-row dynamic programme of the source, proved against it. Strings are
 * sequences of runes (`seq<char>`).
 */
module Levenshtein {

  /** minimum: `value0` and `values` scanned left to right, keeping the
      smaller. */
  function Minimum(value0: int, values: seq<int>): int
    decreases |values|
  {
    if |values| == 0 then value0
    else Minimum(if values[0] < value0 then values[0] else value0, values[1..])
  }

  /** minimum returns a value no larger than any argument and equal to one of
      them. */
  lemma {:induction false} MinimumBounds(value0: int, values: seq<int>)
    ensures var r := Minimum(value0, values);
      r <= value0 && (forall i :: 0 <= i < |values| ==> r <= values[i]) && (r == value0 || r in values)
    decreases |values|
  {
    if |values| > 0 {
      MinimumBounds(if values[0] < value0 then values[0] else value0, values[1..]);
      assert forall i :: 1 <= i < |values| ==> values[i] == values[1..][i - 1];
      assert Minimum(value0, values) in values[1..] ==> Minimum(value0, values) in values;
    }
  }

  /** minimum as the source writes it: a loop over `values` keeping the smaller. */
  method ComputeMinimum(value0: int, values: seq<int>) returns (min: int)
    ensures min == Minimum(value0, values)
  {
    min := value0;
    for k := 0 to |values|
      invariant Minimum(min, values[k..]) == Minimum(value0, values)
    {
      assert values[k..][1..] == values[k + 1..];
      if values[k] < min {
        min := values[k];
      }
    }
  }

  /** The least of three values does not depend on the order of the first two. */
  lemma MinimumSwap(x: int, y: int, z: int)
    ensures Minimum(x, [y, z]) == Minimum(y, [x, z])
  {
    assert [y, z][1..] == [z] && [x, z][1..] == [z];
  }

  /** Substitution cost of two runes. */
  function Cost(x: char, y: char): int {
    if x == y then 0 else 1
  }

  /** The edit distance of the first `i` runes of `a` and the first `j` runes of
      `b`: the fewest single-rune deletions, insertions and substitutions turning
      one into the other. */
  function EditDistance(a: seq<char>, b: seq<char>, i: nat, j: nat): int
    requires i <= |a| && j <= |b|
    decreases i + j
  {
    if i == 0 then j
    else if j == 0 then i
    else
      Minimum(EditDistance(a, b, i - 1, j) + 1,
              [EditDistance(a, b, i, j - 1) + 1,
               EditDistance(a, b, i - 1, j - 1) + Cost(a[i - 1], b[j - 1])])
  }

  /** What LevenshteinDistance returns: the edit distance, except that an empty
      `source` gives 0 because the second row is then never written. */
  function Distance(source: seq<char>, destination: seq<char>): (r: int)
    ensures 0 <= r
    ensures r <= |source| || r <= |destination|
  {
    if |source| == 0 then 0
    else
      EditDistanceBounds(source, destination, |source|, |destination|);
      EditDistance(source, destination, |source|, |destination|)
  }

  /** The edit distance lies between the length difference and the longer
      length. */
  lemma {:induction false} EditDistanceBounds(a: seq<char>, b: seq<char>, i: nat, j: nat)
    requires i <= |a| && j <= |b|
    ensures var r := EditDistance(a, b, i, j);
      r >= i - j && r >= j - i && r <= (if i < j then j else i)
    decreases i + j
  {
    if i > 0 && j > 0 {
      EditDistanceBounds(a, b, i - 1, j);
      EditDistanceBounds(a, b, i, j - 1);
      EditDistanceBounds(a, b, i - 1, j - 1);
      EditDistanceUnfold(a, b, i, j);
      MinimumBounds(EditDistance(a, b, i - 1, j) + 1, [EditDistance(a, b, i, j - 1) + 1,
                    EditDistance(a, b, i - 1, j - 1) + Cost(a[i - 1], b[j - 1])]);
    }
  }

  /** One step of the recurrence, for a cell off the borders. */
  lemma EditDistanceUnfold(a: seq<char>, b: seq<char>, i: nat, j: nat)
    requires 0 < i <= |a| && 0 < j <= |b|
    ensures EditDistance(a, b, i, j)
         == Minimum(EditDistance(a, b, i - 1, j) + 1, [EditDistance(a, b, i, j - 1) + 1,
                    EditDistance(a, b, i - 1, j - 1) + Cost(a[i - 1], b[j - 1])])
  {
  }

  /** A string is at distance 0 from itself. */
  lemma {:induction false} EditDistanceDiagonal(s: seq<char>, i: nat)
    requires i <= |s|
    ensures EditDistance(s, s, i, i) == 0
  {
    if i > 0 {
      EditDistanceDiagonal(s, i - 1);
      EditDistanceBounds(s, s, i - 1, i);
      EditDistanceBounds(s, s, i, i - 1);
      EditDistanceUnfold(s, s, i, i);
      MinimumBounds(EditDistance(s, s, i - 1, i) + 1, [EditDistance(s, s, i, i - 1) + 1,
                    EditDistance(s, s, i - 1, i - 1) + Cost(s[i - 1], s[i - 1])]);
    }
  }

  /** Exchanging the two strings does not change the edit distance. */
  lemma {:induction false} EditDistanceSymmetric(a: seq<char>, b: seq<char>, i: nat, j: nat)
    requires i <= |a| && j <= |b|
    ensures EditDistance(a, b, i, j) == EditDistance(b, a, j, i)
    decreases i + j
  {
    if i > 0 && j > 0 {
      var up, left := EditDistance(a, b, i - 1, j) + 1, EditDistance(a, b, i, j - 1) + 1;
      var diagonal := EditDistance(a, b, i - 1, j - 1) + Cost(a[i - 1], b[j - 1]);
      assert EditDistance(a, b, i, j) == Minimum(up, [left, diagonal]) by {
        EditDistanceUnfold(a, b, i, j);
      }
      assert EditDistance(b, a, j, i) == Minimum(left, [up, diagonal]) by {
        EditDistanceSymmetric(a, b, i - 1, j);
        EditDistanceSymmetric(a, b, i, j - 1);
        EditDistanceSymmetric(a, b, i - 1, j - 1);
        EditDistanceUnfold(b, a, j, i);
        assert Cost(b[j - 1], a[i - 1]) == Cost(a[i - 1], b[j - 1]);
      }
      MinimumSwap(up, left, diagonal);
    }
  }

  /** One step of the recurrence off the borders: the cell is at most each of
      its three candidates and equal to one of them. */
  lemma EditDistanceStep(a: seq<char>, b: seq<char>, i: nat, j: nat)
    requires 0 < i <= |a| && 0 < j <= |b|
    ensures var d := EditDistance(a, b, i, j);
      var up, left := EditDistance(a, b, i - 1, j) + 1, EditDistance(a, b, i, j - 1) + 1;
      var diagonal := EditDistance(a, b, i - 1, j - 1) + Cost(a[i - 1], b[j - 1]);
      d <= up && d <= left && d <= diagonal && (d == up || d == left || d == diagonal)
  {
    var up, left := EditDistance(a, b, i - 1, j) + 1, EditDistance(a, b, i, j - 1) + 1;
    var diagonal := EditDistance(a, b, i - 1, j - 1) + Cost(a[i - 1], b[j - 1]);
    EditDistanceUnfold(a, b, i, j);
    MinimumBounds(up, [left, diagonal]);
  }

  /** Dropping the last rune of either prefix lowers the edit distance by at
      most one. */
  lemma EditDistanceNeighbours(a: seq<char>, b: seq<char>, i: nat, j: nat)
    requires i <= |a| && j <= |b|
    ensures 0 < i ==> EditDistance(a, b, i, j) <= EditDistance(a, b, i - 1, j) + 1
    ensures 0 < j ==> EditDistance(a, b, i, j) <= EditDistance(a, b, i, j - 1) + 1
  {
    if 0 < i && 0 < j {
      EditDistanceStep(a, b, i, j);
    }
  }

  /** The edit distance obeys the triangle inequality. */
  lemma {:induction false} EditDistanceTriangle(a: seq<char>, b: seq<char>, c: seq<char>, i: nat, j: nat, k: nat)
    requires i <= |a| && j <= |b| && k <= |c|
    ensures EditDistance(a, c, i, k) <= EditDistance(a, b, i, j) + EditDistance(b, c, j, k)
    decreases i + j + k, 1
  {
    if i == 0 {
      EditDistanceBounds(b, c, j, k);
      assert EditDistance(a, c, i, k) == k && EditDistance(a, b, i, j) == j;
    } else if k == 0 {
      EditDistanceBounds(a, b, i, j);
      assert EditDistance(a, c, i, k) == i && EditDistance(b, c, j, k) == j;
    } else if j == 0 {
      EditDistanceBounds(a, c, i, k);
      assert EditDistance(a, b, i, j) == i && EditDistance(b, c, j, k) == k;
    } else {
      var d1, d2 := EditDistance(a, b, i, j), EditDistance(b, c, j, k);
      assert d1 == EditDistance(a, b, i - 1, j) + 1 || d1 == EditDistance(a, b, i, j - 1) + 1
          || d1 == EditDistance(a, b, i - 1, j - 1) + Cost(a[i - 1], b[j - 1]) by {
        EditDistanceStep(a, b, i, j);
      }
      assert d2 == EditDistance(b, c, j - 1, k) + 1 || d2 == EditDistance(b, c, j, k - 1) + 1
          || d2 == EditDistance(b, c, j - 1, k - 1) + Cost(b[j - 1], c[k - 1]) by {
        EditDistanceStep(b, c, j, k);
      }
      EditDistanceNeighbours(a, c, i, k);
      if d1 == EditDistance(a, b, i - 1, j) + 1 {
        EditDistanceTriangle(a, b, c, i - 1, j, k);
      } else if d2 == EditDistance(b, c, j, k - 1) + 1 {
        EditDistanceTriangle(a, b, c, i, j, k - 1);
      } else {
        TriangleThroughMiddle(a, b, c, i, j, k);
      }
    }
  }

  /** EditDistanceTriangle off the borders, where the first distance ends
      with an insertion or a substitution and the second with a deletion or a
      substitution. */
  lemma {:induction false} TriangleThroughMiddle(a: seq<char>, b: seq<char>, c: seq<char>, i: nat, j: nat, k: nat)
    requires 0 < i <= |a| && 0 < j <= |b| && 0 < k <= |c|
    requires var d1 := EditDistance(a, b, i, j);
      d1 == EditDistance(a, b, i, j - 1) + 1 || d1 == EditDistance(a, b, i - 1, j - 1) + Cost(a[i - 1], b[j - 1])
    requires var d2 := EditDistance(b, c, j, k);
      d2 == EditDistance(b, c, j - 1, k) + 1 || d2 == EditDistance(b, c, j - 1, k - 1) + Cost(b[j - 1], c[k - 1])
    ensures EditDistance(a, c, i, k) <= EditDistance(a, b, i, j) + EditDistance(b, c, j, k)
    decreases i + j + k, 0
  {
    var d1, d2 := EditDistance(a, b, i, j), EditDistance(b, c, j, k);
    var x, y, z := a[i - 1], b[j - 1], c[k - 1];
    if d1 == EditDistance(a, b, i, j - 1) + 1 {
      EditDistanceTriangle(a, b, c, i, j - 1, k);
      assert EditDistance(b, c, j - 1, k) <= d2 + 1 by {
        EditDistanceNeighbours(b, c, j - 1, k);
      }
    } else if d2 == EditDistance(b, c, j - 1, k) + 1 {
      EditDistanceTriangle(a, b, c, i, j - 1, k);
      assert EditDistance(a, b, i, j - 1) <= d1 + 1 by {
        EditDistanceNeighbours(a, b, i, j - 1);
      }
    } else {
      assert d1 == EditDistance(a, b, i - 1, j - 1) + Cost(x, y);
      assert d2 == EditDistance(b, c, j - 1, k - 1) + Cost(y, z);
      assert EditDistance(a, c, i, k) <= EditDistance(a, c, i - 1, k - 1) + Cost(x, z) by {
        EditDistanceStep(a, c, i, k);
      }
      EditDistanceTriangle(a, b, c, i - 1, j - 1, k - 1);
      assert Cost(x, z) <= Cost(x, y) + Cost(y, z);
    }
  }

  /** LevenshteinDistance obeys the triangle inequality when the middle string
      is not empty. */
  lemma DistanceTriangle(x: seq<char>, y: seq<char>, z: seq<char>)
    requires |y| > 0
    ensures Distance(x, z) <= Distance(x, y) + Distance(y, z)
  {
    if |x| > 0 {
      EditDistanceTriangle(x, y, z, |x|, |y|, |z|);
    }
  }

  /** Through an empty middle string it does not, because an empty source gives
      0: LD("x", "abc") = 3 but LD("x", "") + LD("", "abc") = 1 + 0. */
  lemma DistanceTriangleEmptyMiddle()
    ensures Distance("x", "abc") == 3
    ensures Distance("x", []) == 1 && Distance([], "abc") == 0
  {
    var a, b := "x", "abc";
    EditDistanceStep(a, b, 1, 1);
    EditDistanceStep(a, b, 1, 2);
    EditDistanceStep(a, b, 1, 3);
  }

  /** LD(s,s) = 0 and LD(s,"") = |s|. */
  lemma DistanceToSelfAndEmpty(s: seq<char>)
    ensures Distance(s, s) == 0
    ensures Distance(s, []) == |s|
  {
    EditDistanceDiagonal(s, |s|);
  }

  /** With both strings non-empty the result does not depend on their order. */
  lemma DistanceSymmetric(source: seq<char>, destination: seq<char>)
    requires |source| > 0 && |destination| > 0
    ensures Distance(source, destination) == Distance(destination, source)
  {
    EditDistanceSymmetric(source, destination, |source|, |destination|);
  }

  /** An empty source gives 0 whatever the destination, so symmetry fails there:
      LD("", "ab") = 0 but LD("ab", "") = 2. */
  lemma DistanceEmptySourceAsymmetric()
    ensures Distance([], ['a', 'b']) == 0
    ensures Distance(['a', 'b'], []) == 2
  {
  }

  /** ComputeSimilarity: 1 - ld/max(w1Len, w2Len), in exact arithmetic. */
  function ComputeSimilarity(w1Len: int, w2Len: int, ld: int): (r: real)
    requires (if w1Len < w2Len then w2Len else w1Len) > 0
    ensures 0 <= ld <= (if w1Len < w2Len then w2Len else w1Len) ==> 0.0 <= r <= 1.0
    ensures r == 1.0 <==> ld == 0
  {
    var maxLen := if w1Len < w2Len then w2Len else w1Len;
    var ratio := (ld as real) / (maxLen as real);
    assert ratio * (maxLen as real) == ld as real;
    1.0 - ratio
  }

  /** A larger distance never gives a higher similarity. */
  lemma SimilarityAntitone(w1Len: int, w2Len: int, ld1: int, ld2: int)
    requires (if w1Len < w2Len then w2Len else w1Len) > 0
    requires ld1 <= ld2
    ensures ComputeSimilarity(w1Len, w2Len, ld1) >= ComputeSimilarity(w1Len, w2Len, ld2)
  {
    var m := (if w1Len < w2Len then w2Len else w1Len) as real;
    assert (ld2 as real) / m - (ld1 as real) / m == ((ld2 - ld1) as real) / m;
  }

  /** The score Exec computes for two strings lies in [0, 1], and is 1 for equal
      non-empty strings. */
  lemma SimilarityOfDistance(value: seq<char>, input: seq<char>)
    requires |value| > 0 || |input| > 0
    ensures 0.0 <= ComputeSimilarity(|value|, |input|, Distance(value, input)) <= 1.0
    ensures value == input ==> ComputeSimilarity(|value|, |input|, Distance(value, input)) == 1.0
  {
    if value == input {
      DistanceToSelfAndEmpty(value);
    }
  }

  /** `row` holds the distances from the first `i` runes of `source` to every
      prefix of `destination`. */
  ghost predicate Row(row: array<int>, source: seq<char>, destination: seq<char>, i: nat)
    reads row
  {
    && i <= |source| && row.Length == |destination| + 1
    && forall k :: 0 <= k <= |destination| ==> row[k] == EditDistance(source, destination, i, k)
  }

  /** LevenshteinDistance: two rolling rows over `destination`; after round `i`
      the first row holds the distances from the first `i` runes of `source` to
      every prefix of `destination`. */
  method LevenshteinDistance(source: seq<char>, destination: seq<char>) returns (r: int)
    ensures r == Distance(source, destination)
  {
    var vec1 := new int[|destination| + 1](_ => 0);
    var vec2 := new int[|destination| + 1](_ => 0);
    FirstRow(vec1);
    assert Row(vec1, source, destination, 0);
    for i := 0 to |source|
      invariant Row(vec1, source, destination, i)
      invariant i == 0 ==> vec2[|destination|] == 0
      invariant i > 0 ==> vec2[|destination|] == vec1[|destination|]
    {
      NextRow(source, destination, i, vec1, vec2);
      CopyRow(vec2, vec1);
    }
    r := vec2[|destination|];
  }

  /** The initialising loop: `vec1[i] = i`, the distances from the empty
      prefix of the source. */
  method FirstRow(vec1: array<int>)
    modifies vec1
    ensures forall j :: 0 <= j < vec1.Length ==> vec1[j] == j
  {
    for i := 0 to vec1.Length
      invariant forall j :: 0 <= j < i ==> vec1[j] == j
    {
      vec1[i] := i;
    }
  }

  /** One round of the outer loop: `vec2` becomes row `i+1` from row `i` in `vec1`. */
  method NextRow(source: seq<char>, destination: seq<char>, i: int, vec1: array<int>, vec2: array<int>)
    requires 0 <= i < |source| && vec1 != vec2 && vec2.Length == |destination| + 1
    requires Row(vec1, source, destination, i)
    modifies vec2
    ensures Row(vec2, source, destination, i + 1)
  {
    vec2[0] := i + 1;
    for j := 0 to |destination|
      invariant forall k :: 0 <= k <= j ==> vec2[k] == EditDistance(source, destination, i + 1, k)
    {
      var cost := 1;
      if source[i] == destination[j] {
        cost := 0;
      }
      assert cost == Cost(source[i], destination[j]);
      assert vec1[j] == EditDistance(source, destination, i, j);
      assert vec1[j + 1] == EditDistance(source, destination, i, j + 1);
      assert vec2[j] == EditDistance(source, destination, i + 1, j);
      var min := ComputeMinimum(vec2[j] + 1, [vec1[j + 1] + 1, vec1[j] + cost]);
      EditDistanceUnfold(source, destination, i + 1, j + 1);
      assert min == EditDistance(source, destination, i + 1, j + 1);
      vec2[j + 1] := min;
    }
  }

  /** The copy loop at the end of each round: `vec1` takes the values of `vec2`. */
  method CopyRow(from: array<int>, to: array<int>)
    requires from != to && from.Length == to.Length
    modifies to
    ensures forall k :: 0 <= k < to.Length ==> to[k] == from[k]
  {
    for j := 0 to to.Length
      invariant forall k :: 0 <= k < j ==> to[k] == from[k]
    {
      to[j] := from[j];
    }
  }
}
