/**
 Edit distance and the fuzzy comparison of the detective game
 (`levenshteinDistance` and `fuzzyMatch` in scripts/detective.js).
 Distances are defined on prefixes, peeling off the last characters, which is
 the order in which the game's table is filled.
 */
module Levenshtein {

  function Min3(x: nat, y: nat, z: nat): nat {
    if x <= y && x <= z then x else if y <= z then y else z
  }

  function Max(x: nat, y: nat): nat {
    if x >= y then x else y
  }

  function Init(s: string): string
    requires |s| > 0
  {
    s[..|s| - 1]
  }

  function Last(s: string): char
    requires |s| > 0
  {
    s[|s| - 1]
  }

  /** The classic edit distance with unit-cost insertion, deletion and substitution. */
  function Distance(a: string, b: string): nat
    decreases |a| + |b|
  {
    if |a| == 0 then |b|
    else if |b| == 0 then |a|
    else Min3(Distance(Init(a), Init(b)) + (if Last(a) == Last(b) then 0 else 1),
              Distance(Init(a), b) + 1,
              Distance(a, Init(b)) + 1)
  }

  /** The recurrence the game's table follows: a cell whose characters agree copies its
      diagonal neighbour without comparing it to the other two. */
  function TableDistance(a: string, b: string): nat
    decreases |a| + |b|
  {
    if |a| == 0 then |b|
    else if |b| == 0 then |a|
    else if Last(a) == Last(b) then TableDistance(Init(a), Init(b))
    else Min3(TableDistance(Init(a), Init(b)) + 1,
              TableDistance(a, Init(b)) + 1,
              TableDistance(Init(a), b) + 1)
  }

  /** The distance is at least the difference of the lengths. */
  lemma {:induction false} DistanceLowerBound(a: string, b: string)
    ensures Distance(a, b) >= |a| - |b| && Distance(a, b) >= |b| - |a|
    decreases |a| + |b|
  {
    if |a| > 0 && |b| > 0 {
      DistanceLowerBound(Init(a), Init(b));
      DistanceLowerBound(Init(a), b);
      DistanceLowerBound(a, Init(b));
    }
  }

  /** The distance never exceeds the length of the longer string. */
  lemma {:induction false} DistanceUpperBound(a: string, b: string)
    ensures Distance(a, b) <= Max(|a|, |b|)
    decreases |a| + |b|
  {
    if |a| > 0 && |b| > 0 {
      DistanceUpperBound(Init(a), Init(b));
    }
  }

  /** A string is at distance 0 from itself. */
  lemma {:induction false} DistanceSelf(a: string)
    ensures Distance(a, a) == 0
    decreases |a|
  {
    if |a| > 0 {
      DistanceSelf(Init(a));
    }
  }

  /** The distance is symmetric. */
  lemma {:induction false} DistanceSymmetric(a: string, b: string)
    ensures Distance(a, b) == Distance(b, a)
    decreases |a| + |b|
  {
    if |a| > 0 && |b| > 0 {
      DistanceSymmetric(Init(a), Init(b));
      DistanceSymmetric(Init(a), b);
      DistanceSymmetric(a, Init(b));
    }
  }

  /** Dropping the last character of the second string changes the distance by at most one. */
  lemma {:induction false} DropLastOfSecond(a: string, b: string)
    requires |b| > 0
    ensures Distance(a, Init(b)) <= Distance(a, b) + 1
    decreases |a| + |b|
  {
    if |a| == 0 {
    } else if |b| == 1 {
      DistanceLowerBound(a, b);
    } else {
      var b' := Init(b);
      assert Init(b') == b[..|b| - 2];
      // Distance(a, b') is at most one more than Distance(Init(a), b'), which is handled by induction.
      DropLastOfSecond(Init(a), b);
    }
  }

  /** Dropping the last character of the first string changes the distance by at most one. */
  lemma DropLastOfFirst(a: string, b: string)
    requires |a| > 0
    ensures Distance(Init(a), b) <= Distance(a, b) + 1
  {
    DropLastOfSecond(b, a);
    DistanceSymmetric(a, b);
    DistanceSymmetric(Init(a), b);
  }

  /** When the last characters agree, the diagonal alone gives the distance. */
  lemma EqualLastUsesDiagonal(a: string, b: string)
    requires |a| > 0 && |b| > 0 && Last(a) == Last(b)
    ensures Distance(a, b) == Distance(Init(a), Init(b))
  {
    DropLastOfSecond(Init(a), b);
    DropLastOfFirst(a, Init(b));
  }

  /** The game's table recurrence computes the classic edit distance. */
  lemma {:induction false} TableIsDistance(a: string, b: string)
    ensures TableDistance(a, b) == Distance(a, b)
    decreases |a| + |b|
  {
    if |a| > 0 && |b| > 0 {
      TableIsDistance(Init(a), Init(b));
      TableIsDistance(a, Init(b));
      TableIsDistance(Init(a), b);
      if Last(a) == Last(b) {
        EqualLastUsesDiagonal(a, b);
      }
    }
  }

  /** One cell of the table, stated on prefixes of two fixed strings. */
  lemma TableCell(a: string, b: string, i: nat, j: nat)
    requires 1 <= i <= |a| && 1 <= j <= |b|
    ensures TableDistance(a[..i], b[..j]) ==
      if a[i - 1] == b[j - 1] then TableDistance(a[..i - 1], b[..j - 1])
      else Min3(TableDistance(a[..i - 1], b[..j - 1]) + 1,
                TableDistance(a[..i], b[..j - 1]) + 1,
                TableDistance(a[..i - 1], b[..j]) + 1)
  {
    var x, y := a[..i], b[..j];
    assert Last(x) == a[i - 1] && Last(y) == b[j - 1];
    assert Init(x) == a[..i - 1];
    assert Init(y) == b[..j - 1];
  }

  /** Fills row `i` of the table from row `i - 1`, left to right. */
  method NextRow(str1: string, str2: string, i: nat, prev: seq<nat>) returns (row: seq<nat>)
    requires 1 <= i <= |str2|
    requires |prev| == |str1| + 1
    requires forall j :: 0 <= j <= |str1| ==> prev[j] == TableDistance(str2[..i - 1], str1[..j])
    ensures |row| == |str1| + 1
    ensures forall j :: 0 <= j <= |str1| ==> row[j] == TableDistance(str2[..i], str1[..j])
  {
    row := [i];
    assert |str2[..i]| == i && str1[..0] == [];
    var j := 1;
    while j <= |str1|
      invariant 1 <= j <= |str1| + 1
      invariant |row| == j
      invariant forall k :: 0 <= k < j ==> row[k] == TableDistance(str2[..i], str1[..k])
    {
      TableCell(str2, str1, i, j);
      var cell: nat;
      if str2[i - 1] == str1[j - 1] {
        cell := prev[j - 1];
      } else {
        cell := Min3(prev[j - 1] + 1, row[j - 1] + 1, prev[j] + 1);
      }
      assert cell == TableDistance(str2[..i], str1[..j]);
      row := row + [cell];
      j := j + 1;
    }
  }

  /** `levenshteinDistance(str1, str2)`: row `i` of the table holds the distances from
      the first `i` characters of `str2` to every prefix of `str1`; only the previous
      row is read while a row is filled. */
  method LevenshteinDistance(str1: string, str2: string) returns (d: nat)
    ensures d == Distance(str2, str1)
    ensures d == Distance(str1, str2)
  {
    var prev: seq<nat> := seq(|str1| + 1, j => j);
    var i := 1;
    while i <= |str2|
      invariant 1 <= i <= |str2| + 1
      invariant |prev| == |str1| + 1
      invariant forall j :: 0 <= j <= |str1| ==> prev[j] == TableDistance(str2[..i - 1], str1[..j])
    {
      prev := NextRow(str1, str2, i, prev);
      i := i + 1;
    }
    d := prev[|str1|];
    assert str2[..|str2|] == str2 && str1[..|str1|] == str1;
    TableIsDistance(str2, str1);
    DistanceSymmetric(str1, str2);
  }

  /** `fuzzyMatch` with its default threshold 0.8: the similarity
      `(longer - distance) / longer` reaches 4/5, stated without division; two empty strings match. */
  predicate FuzzyMatch(input: string, target: string) {
    var longer := Max(|input|, |target|);
    longer == 0 || 5 * (longer - Distance(input, target)) >= 4 * longer
  }

  /** Every string fuzzily matches itself, the empty string included. */
  lemma FuzzyMatchSelf(s: string)
    ensures FuzzyMatch(s, s)
  {
    DistanceSelf(s);
  }

  /** Strings whose lengths differ too much never fuzzily match: the length gap bounds the similarity. */
  lemma FuzzyMatchNeedsCloseLengths(input: string, target: string)
    requires 5 * |input| < 4 * |target| || 5 * |target| < 4 * |input|
    ensures !FuzzyMatch(input, target)
  {
    DistanceLowerBound(input, target);
  }

  /** Inserting one character anywhere costs at most one edit. */
  lemma {:induction false} InsertOne(p: string, c: char, s: string)
    ensures Distance(p + s, p + [c] + s) <= 1
    decreases |s|
  {
    if |s| == 0 {
      assert p + s == p && p + [c] + s == p + [c];
      DistanceSelf(p);
      assert Init(p + [c]) == p;
    } else {
      InsertOne(p, c, Init(s));
      assert Init(p + s) == p + Init(s);
      assert Init(p + [c] + s) == p + [c] + Init(s);
    }
  }
}
