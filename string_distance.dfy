/** Edit distance and normalised similarity between two names
    (`StringDistanceCalculator` of `data/calculate_performance_metrics.py`). */
module StringDistance {

  import opened Ratios

  function Min3(a: nat, b: nat, c: nat): (m: nat)
    ensures m <= a && m <= b && m <= c
    ensures m == a || m == b || m == c
  {
    if a <= b && a <= c then a else if b <= c then b else c
  }

  function Max(a: nat, b: nat): nat { if a >= b then a else b }

  /** The Levenshtein distance between the first `i` characters of `a` and
      the first `j` characters of `b`: the cheapest way to turn one into the
      other by single-character insertions, deletions and substitutions,
      each costing one. */
  function PrefixDistance(a: string, b: string, i: nat, j: nat): (d: nat)
    requires i <= |a| && j <= |b|
    decreases i + j
  {
    if i == 0 then j
    else if j == 0 then i
    else Min3(PrefixDistance(a, b, i - 1, j) + 1,
              PrefixDistance(a, b, i, j - 1) + 1,
              PrefixDistance(a, b, i - 1, j - 1) + (if a[i - 1] != b[j - 1] then 1 else 0))
  }

  /** The Levenshtein distance between two whole strings. */
  function EditDistance(a: string, b: string): (d: nat)
  {
    PrefixDistance(a, b, |a|, |b|)
  }

  lemma {:induction false} PrefixDistanceBounds(a: string, b: string, i: nat, j: nat)
    requires i <= |a| && j <= |b|
    ensures PrefixDistance(a, b, i, j) <= Max(i, j)
    ensures i <= j + PrefixDistance(a, b, i, j) && j <= i + PrefixDistance(a, b, i, j)
    decreases i + j
  {
    if i > 0 && j > 0 {
      PrefixDistanceBounds(a, b, i - 1, j);
      PrefixDistanceBounds(a, b, i, j - 1);
      PrefixDistanceBounds(a, b, i - 1, j - 1);
    }
  }

  /** The distance is at most the longer length and at least the difference of the lengths. */
  lemma EditDistanceBounds(a: string, b: string)
    ensures EditDistance(a, b) <= Max(|a|, |b|)
    ensures |a| <= |b| + EditDistance(a, b) && |b| <= |a| + EditDistance(a, b)
  {
    PrefixDistanceBounds(a, b, |a|, |b|);
  }

  lemma {:induction false} PrefixDistanceSymmetric(a: string, b: string, i: nat, j: nat)
    requires i <= |a| && j <= |b|
    ensures PrefixDistance(a, b, i, j) == PrefixDistance(b, a, j, i)
    decreases i + j
  {
    if i > 0 && j > 0 {
      PrefixDistanceSymmetric(a, b, i - 1, j);
      PrefixDistanceSymmetric(a, b, i, j - 1);
      PrefixDistanceSymmetric(a, b, i - 1, j - 1);
    }
  }

  /** Distance does not depend on the order of its arguments. */
  lemma EditDistanceSymmetric(a: string, b: string)
    ensures EditDistance(a, b) == EditDistance(b, a)
  {
    PrefixDistanceSymmetric(a, b, |a|, |b|);
  }

  lemma {:induction false} PrefixDistanceZeroIff(a: string, b: string, i: nat, j: nat)
    requires i <= |a| && j <= |b|
    ensures PrefixDistance(a, b, i, j) == 0 <==> a[..i] == b[..j]
    decreases i + j
  {
    if i > 0 && j > 0 {
      PrefixDistanceZeroIff(a, b, i - 1, j - 1);
      assert a[..i] == a[..i - 1] + [a[i - 1]];
      assert b[..j] == b[..j - 1] + [b[j - 1]];
      if a[..i] == b[..j] {
        assert a[..i][..i - 1] == a[..i - 1];
      }
    }
  }

  /** Distance is zero exactly between equal strings. */
  lemma EditDistanceZeroIff(a: string, b: string)
    ensures EditDistance(a, b) == 0 <==> a == b
  {
    PrefixDistanceZeroIff(a, b, |a|, |b|);
    assert a[..|a|] == a && b[..|b|] == b;
  }

  /** `row` holds the distances from the first `i` characters of `s1` to every prefix of `s2`. */
  predicate IsRow(s1: string, s2: string, i: nat, row: seq<nat>)
    requires i <= |s1|
  {
    |row| == |s2| + 1 && forall j :: 0 <= j <= |s2| ==> row[j] == PrefixDistance(s1, s2, i, j)
  }

  /** One pass of the outer loop of `calculate_levenshtein_distance`: row
      `i + 1` computed from row `i`. */
  method NextRow(s1: string, s2: string, i: nat, previousRow: seq<nat>) returns (currentRow: seq<nat>)
    requires i < |s1|
    requires IsRow(s1, s2, i, previousRow)
    ensures IsRow(s1, s2, i + 1, currentRow)
  {
    var c1 := s1[i];
    currentRow := [i + 1];
    var j := 0;
    while j < |s2|
      invariant 0 <= j <= |s2|
      invariant |currentRow| == j + 1
      invariant forall k :: 0 <= k <= j ==> currentRow[k] == PrefixDistance(s1, s2, i + 1, k)
    {
      var c2 := s2[j];
      var insertions := previousRow[j + 1] + 1;
      var deletions := currentRow[j] + 1;
      var substitutions := previousRow[j] + (if c1 != c2 then 1 else 0);
      currentRow := currentRow + [Min3(insertions, deletions, substitutions)];
      j := j + 1;
    }
  }

  /** `calculate_levenshtein_distance`: the shorter string is moved to the
      second position, then the classic two-row dynamic programme runs, row
      `i` holding the distances from the first `i` characters of `s1` to
      every prefix of `s2`. */
  method LevenshteinDistance(s1: string, s2: string) returns (d: nat)
    ensures d == EditDistance(s1, s2)
    ensures |s2| == 0 ==> d == |s1|
    ensures |s1| == 0 ==> d == |s2|
    decreases if |s1| < |s2| then 1 else 0
  {
    if |s1| < |s2| {
      d := LevenshteinDistance(s2, s1);
      EditDistanceSymmetric(s2, s1);
      return;
    }
    if |s2| == 0 {
      return |s1|;
    }
    var previousRow: seq<nat> := seq(|s2| + 1, j requires 0 <= j <= |s2| => j);
    var i := 0;
    while i < |s1|
      invariant 0 <= i <= |s1|
      invariant IsRow(s1, s2, i, previousRow)
    {
      previousRow := NextRow(s1, s2, i, previousRow);
      i := i + 1;
    }
    d := previousRow[|s2|];
  }

  /** `calculate_similarity`: one for equal strings (including two empty ones),
      otherwise one minus the distance over the longer length. */
  function Similarity(s1: string, s2: string): (r: real)
    ensures 0.0 <= r <= 1.0
    ensures r == 1.0 <==> s1 == s2
  {
    if s1 == s2 then 1.0
    else
      var maxLength := Max(|s1|, |s2|);
      if maxLength == 0 then 1.0
      else
        var distance := EditDistance(s1, s2);
        EditDistanceZeroIff(s1, s2);
        EditDistanceBounds(s1, s2);
        SimilarityRatio(distance, maxLength);
        1.0 - (distance as real / maxLength as real)
  }

  lemma SimilarityRatio(distance: nat, maxLength: nat)
    requires 0 < distance <= maxLength
    ensures 0.0 <= 1.0 - (distance as real / maxLength as real) < 1.0
  {
    RatioBounds(distance as real, maxLength as real);
  }

  /** Similarity does not depend on the order of its arguments. */
  lemma SimilaritySymmetric(s1: string, s2: string)
    ensures Similarity(s1, s2) == Similarity(s2, s1)
  {
    EditDistanceSymmetric(s1, s2);
  }
}
