/** Scoring a whole batch of predictions (`BatchResultProcessor` of
    `data/calculate_performance_metrics.py`): every item's first suggestion
    is scored strictly (top-1), the best of the valid suggestions among its
    first five is chosen as an oracle would (top-5), and both are summed and averaged
    over the batch. */
module BatchResults {

  import opened Options
  import opened Collections
  import opened PredictionMetrics
  import opened Ratios

  /** What a suggestion holds under the key "name". */
  datatype NameField = NoNameKey | NullName | Name(text: string)

  /** One element of an item's "suggestions" value: an object, or anything else. */
  datatype Suggestion = SuggestionObject(name: NameField) | NonObject

  /** An item's "suggestions" value: an array, or anything else
      (an absent key reads as the empty array). */
  datatype SuggestionsField = SuggestionArray(entries: seq<Suggestion>) | NonArray

  /** One entry of the "results" array: its "new_name" (the ground truth) and its suggestions. */
  datatype ResultItem = ResultItem(newName: Option<string>, suggestions: SuggestionsField)

  /** How many suggestions the oracle selection looks at. */
  const CandidateLimit: nat := 5

  /** `_is_valid_suggestion`: an object whose "name" is present and not null. */
  predicate IsValidSuggestion(s: Suggestion) {
    s.SuggestionObject? && s.name.Name?
  }

  /** The names of the valid suggestions, in order. */
  function ValidNames(entries: seq<Suggestion>): (names: seq<string>)
    ensures |names| <= |entries|
    ensures forall n :: n in names <==>
              exists i :: 0 <= i < |entries| && IsValidSuggestion(entries[i]) && entries[i].name.text == n
    ensures |names| == |entries| <==> forall i :: 0 <= i < |entries| ==> IsValidSuggestion(entries[i])
  {
    if entries == [] then []
    else
      var last := entries[|entries| - 1];
      var front := ValidNames(entries[..|entries| - 1]);
      assert forall i :: 0 <= i < |entries| - 1 ==> entries[..|entries| - 1][i] == entries[i];
      if IsValidSuggestion(last) then front + [last.name.text] else front
  }

  /** Order is preserved: the names of a concatenation are the names of its parts, concatenated. */
  lemma {:induction false} ValidNamesAppend(a: seq<Suggestion>, b: seq<Suggestion>)
    ensures ValidNames(a + b) == ValidNames(a) + ValidNames(b)
    decreases |b|
  {
    if b == [] {
      assert a + b == a;
    } else {
      var b' := b[..|b| - 1];
      assert (a + b)[..|a + b| - 1] == a + b';
      ValidNamesAppend(a, b');
    }
  }

  /** `suggestions[:limit]`: the first `limit` suggestions, or all of them when there are fewer. */
  function Take(s: seq<Suggestion>, limit: nat): (r: seq<Suggestion>)
    ensures |r| == if limit <= |s| then limit else |s|
    ensures r == s[..|r|]
  {
    if limit <= |s| then s[..limit] else s
  }

  /** `_extract_valid_candidates`: the names of the valid suggestions among
      the first `limit`, in order; nothing when the value is not an array. */
  method ExtractValidCandidates(suggestions: SuggestionsField, limit: nat) returns (names: seq<string>)
    ensures suggestions.NonArray? ==> names == []
    ensures suggestions.SuggestionArray? ==> names == ValidNames(Take(suggestions.entries, limit))
    ensures |names| <= limit
  {
    names := [];
    if suggestions.NonArray? {
      return;
    }
    var window := Take(suggestions.entries, limit);
    var i := 0;
    while i < |window|
      invariant 0 <= i <= |window|
      invariant names == ValidNames(window[..i])
    {
      var suggestion := window[i];
      assert window[..i + 1][..i] == window[..i];
      if IsValidSuggestion(suggestion) {
        names := names + [suggestion.name.text];
      }
      i := i + 1;
    }
    assert window[..i] == window;
  }

  // ---------------------------------------------------------------------
  // Oracle selection
  // ---------------------------------------------------------------------

  /** `a` has a larger key `(token_f1, exact_match, edit_similarity, token_precision)`
      than `b`, tuples being compared lexicographically. */
  predicate Beats(a: MetricResult, b: MetricResult)
    ensures Beats(a, b) ==> a != b && a.tokenF1 >= b.tokenF1
  {
    || a.tokenF1 > b.tokenF1
    || (a.tokenF1 == b.tokenF1 && a.exactMatch > b.exactMatch)
    || (a.tokenF1 == b.tokenF1 && a.exactMatch == b.exactMatch && a.editSimilarity > b.editSimilarity)
    || (a.tokenF1 == b.tokenF1 && a.exactMatch == b.exactMatch && a.editSimilarity == b.editSimilarity
        && a.tokenPrecision > b.tokenPrecision)
  }

  /** The key order is total: whatever `b` beats, or ties with, is beaten by what beats `b`. */
  lemma BeatsPastUnbeaten(a: MetricResult, b: MetricResult, c: MetricResult)
    requires Beats(a, b) && !Beats(c, b)
    ensures Beats(a, c) && !Beats(c, a)
  {
  }

  /** `max(results, key=...)` continued from position `i` with the current
      maximum `best`: a later element replaces it only with a strictly larger key. */
  function MaxFrom(results: seq<MetricResult>, i: nat, best: MetricResult): (m: MetricResult)
    requires i <= |results|
    ensures m == best || exists j :: i <= j < |results| && m == results[j]
    ensures !Beats(best, m)
    ensures forall j :: i <= j < |results| ==> !Beats(results[j], m)
    decreases |results| - i
  {
    if i == |results| then best
    else MaxFrom(results, i + 1, if Beats(results[i], best) then results[i] else best)
  }

  /** The state of the scan after position `i`: `best` sits at index `k`,
      no element so far beats it, and every element before `k` is beaten by it. */
  predicate EarliestMaximum(results: seq<MetricResult>, i: nat, k: nat, best: MetricResult)
    requires i <= |results|
  {
    && k < i && results[k] == best
    && (forall j :: 0 <= j < i ==> !Beats(results[j], best))
    && (forall j :: 0 <= j < k ==> Beats(best, results[j]))
  }

  lemma {:induction false} MaxFromIsEarliestMaximum(results: seq<MetricResult>, i: nat, k: nat, best: MetricResult)
    requires i <= |results|
    requires EarliestMaximum(results, i, k, best)
    ensures exists k' :: EarliestMaximum(results, |results|, k', MaxFrom(results, i, best))
    decreases |results| - i
  {
    if i == |results| {
      assert MaxFrom(results, i, best) == best;
      assert EarliestMaximum(results, |results|, k, best);
    } else if Beats(results[i], best) {
      forall j | 0 <= j < i
        ensures Beats(results[i], results[j]) && !Beats(results[j], results[i])
      {
        BeatsPastUnbeaten(results[i], best, results[j]);
      }
      assert EarliestMaximum(results, i + 1, i, results[i]);
      MaxFromIsEarliestMaximum(results, i + 1, i, results[i]);
      assert MaxFrom(results, i, best) == MaxFrom(results, i + 1, results[i]);
    } else {
      assert EarliestMaximum(results, i + 1, k, best);
      MaxFromIsEarliestMaximum(results, i + 1, k, best);
      assert MaxFrom(results, i, best) == MaxFrom(results, i + 1, best);
    }
  }

  /** `_determine_best_candidate`: the all-zero metric for no candidates,
      otherwise a candidate that no candidate beats, and the earliest such. */
  function BestCandidate(results: seq<MetricResult>): (best: MetricResult)
    ensures results == [] ==> best == EmptyMetric()
    ensures results != [] ==> best in results
    ensures forall x :: x in results ==> !Beats(x, best)
    ensures results != [] ==>
              exists k :: (0 <= k < |results| && results[k] == best
                           && forall j :: 0 <= j < k ==> Beats(best, results[j]))
  {
    if results == [] then EmptyMetric()
    else
      assert EarliestMaximum(results, 1, 0, results[0]);
      MaxFromIsEarliestMaximum(results, 1, 0, results[0]);
      MaxFrom(results, 1, results[0])
  }

  // ---------------------------------------------------------------------
  // One item
  // ---------------------------------------------------------------------

  /** The ground truth of an item: its "new_name", or the empty string when that is null. */
  function GroundTruthOf(item: ResultItem): string {
    match item.newName
    case Some(name) => name
    case None => ""
  }

  /** The strict top-1 metric: the first suggestion scored when it is valid,
      otherwise the all-zero metric. */
  function ItemTopOne(item: ResultItem): (m: MetricResult)
    ensures Bounded(m)
  {
    match item.suggestions
    case SuggestionArray(entries) =>
      if |entries| > 0 && IsValidSuggestion(entries[0]) then Evaluate(GroundTruthOf(item), entries[0].name.text)
      else EmptyMetric()
    case NonArray => EmptyMetric()
  }

  /** Each candidate name scored against the ground truth, in order. */
  function Evaluations(groundTruth: string, names: seq<string>): (ms: seq<MetricResult>)
    ensures |ms| == |names|
    ensures forall k :: 0 <= k < |names| ==> ms[k] == Evaluate(groundTruth, names[k])
  {
    seq(|names|, k requires 0 <= k < |names| => Evaluate(groundTruth, names[k]))
  }

  lemma EvaluationsAppend(groundTruth: string, names: seq<string>, name: string)
    ensures Evaluations(groundTruth, names + [name]) == Evaluations(groundTruth, names) + [Evaluate(groundTruth, name)]
  {
    assert (names + [name])[..|names|] == names;
  }

  /** The names the oracle chooses among: the valid names among the first five suggestions. */
  function ItemCandidates(item: ResultItem): (names: seq<string>)
    ensures |names| <= CandidateLimit
    ensures item.suggestions.NonArray? ==> names == []
  {
    match item.suggestions
    case SuggestionArray(entries) => ValidNames(Take(entries, CandidateLimit))
    case NonArray => []
  }

  /** The top-5 oracle metric of an item. */
  function ItemTopFive(item: ResultItem): (m: MetricResult)
    ensures Bounded(m)
  {
    BestCandidate(Evaluations(GroundTruthOf(item), ItemCandidates(item)))
  }

  /** A window whose first suggestion is valid offers that name first. */
  lemma FirstCandidate(entries: seq<Suggestion>)
    requires |entries| > 0 && IsValidSuggestion(entries[0])
    ensures var names := ValidNames(Take(entries, CandidateLimit));
      |names| > 0 && names[0] == entries[0].name.text
  {
    var window := Take(entries, CandidateLimit);
    assert window == [entries[0]] + window[1..];
    ValidNamesAppend([entries[0]], window[1..]);
    assert [entries[0]][..0] == [];
  }

  /** The oracle never does worse than the strict top-1 choice: its F1 score
      and its exact match are at least those of the first suggestion. */
  lemma OracleDominatesTopOne(item: ResultItem)
    ensures ItemTopOne(item).tokenF1 <= ItemTopFive(item).tokenF1
    ensures ItemTopOne(item).exactMatch <= ItemTopFive(item).exactMatch
  {
    var top := ItemTopOne(item);
    var best := ItemTopFive(item);
    if item.suggestions.SuggestionArray? {
      var entries := item.suggestions.entries;
      if |entries| > 0 && IsValidSuggestion(entries[0]) {
        FirstCandidate(entries);
        var scored := Evaluations(GroundTruthOf(item), ItemCandidates(item));
        assert scored[0] == top;
        assert !Beats(top, best);
        if top.exactMatch == 1 {
          EvaluateIdentical(GroundTruthOf(item));
        }
      }
    }
  }

  // ---------------------------------------------------------------------
  // Accumulation and averages
  // ---------------------------------------------------------------------

  /** Which of the two accumulators: "top_1" or "top_5". */
  datatype Ranking = TopOne | TopFive

  /** `_update_accumulator`'s field-by-field `+=`. */
  function Add(acc: MetricResult, m: MetricResult): MetricResult {
    MetricResult(
      acc.exactMatch + m.exactMatch,
      acc.editSimilarity + m.editSimilarity,
      acc.tokenPrecision + m.tokenPrecision,
      acc.tokenRecall + m.tokenRecall,
      acc.tokenF1 + m.tokenF1)
  }

  /** The metric an item contributes to the named accumulator. */
  function ItemMetric(item: ResultItem, rank: Ranking): (m: MetricResult)
    ensures Bounded(m)
  {
    match rank
    case TopOne => ItemTopOne(item)
    case TopFive => ItemTopFive(item)
  }

  /** The sum of the named metric over a batch, accumulated from the front. */
  function Total(items: seq<ResultItem>, rank: Ranking): MetricResult {
    if items == [] then EmptyMetric()
    else Add(Total(items[..|items| - 1], rank), ItemMetric(items[|items| - 1], rank))
  }

  /** Extending a prefix of the batch by one item adds that item's metric to the sum. */
  lemma TotalStep(items: seq<ResultItem>, index: nat, rank: Ranking)
    requires index < |items|
    ensures Total(items[..index + 1], rank) == Add(Total(items[..index], rank), ItemMetric(items[index], rank))
  {
    assert items[..index + 1][..index] == items[..index];
  }

  /** The pair of metrics written into an item. */
  function ItemScores(item: ResultItem): (MetricResult, MetricResult) {
    (ItemTopOne(item), ItemTopFive(item))
  }

  lemma AddEmpty(m: MetricResult)
    ensures Add(EmptyMetric(), m) == m
  {
  }

  lemma AddAssociative(a: MetricResult, b: MetricResult, c: MetricResult)
    ensures Add(Add(a, b), c) == Add(a, Add(b, c))
  {
  }

  /** The averaged metrics; every field, exact match included, is a real number. */
  datatype AverageMetrics = AverageMetrics(
    exactMatch: real,
    editSimilarity: real,
    tokenPrecision: real,
    tokenRecall: real,
    tokenF1: real)

  /** `_calculate_final_averages` for one accumulator: each sum over the
      number of items, and all zeros for an empty batch. */
  function Average(total: MetricResult, n: nat): (a: AverageMetrics)
    ensures n == 0 ==> a == AverageMetrics(0.0, 0.0, 0.0, 0.0, 0.0)
    ensures n > 0 ==> var d := n as real;
      && a.exactMatch * d == total.exactMatch as real
      && a.editSimilarity * d == total.editSimilarity
      && a.tokenPrecision * d == total.tokenPrecision
      && a.tokenRecall * d == total.tokenRecall
      && a.tokenF1 * d == total.tokenF1
  {
    if n == 0 then AverageMetrics(0.0, 0.0, 0.0, 0.0, 0.0)
    else
      var d := n as real;
      AverageMetrics(
        total.exactMatch as real / d,
        total.editSimilarity / d,
        total.tokenPrecision / d,
        total.tokenRecall / d,
        total.tokenF1 / d)
  }

  predicate AverageBounded(a: AverageMetrics) {
    && 0.0 <= a.exactMatch <= 1.0
    && 0.0 <= a.editSimilarity <= 1.0
    && 0.0 <= a.tokenPrecision <= 1.0
    && 0.0 <= a.tokenRecall <= 1.0
    && 0.0 <= a.tokenF1 <= 1.0
  }

  /** A batch of `n` items sums, field by field, to a value in [0, n]. */
  lemma {:induction false} TotalBounded(items: seq<ResultItem>, rank: Ranking)
    ensures var t := Total(items, rank);
      && 0 <= t.exactMatch <= |items|
      && 0.0 <= t.editSimilarity <= |items| as real
      && 0.0 <= t.tokenPrecision <= |items| as real
      && 0.0 <= t.tokenRecall <= |items| as real
      && 0.0 <= t.tokenF1 <= |items| as real
  {
    if items != [] {
      TotalBounded(items[..|items| - 1], rank);
    }
  }

  /** Both aggregate metric sets of a batch lie in [0, 1]. */
  lemma BatchAveragesBounded(items: seq<ResultItem>, rank: Ranking)
    ensures AverageBounded(Average(Total(items, rank), |items|))
  {
    if |items| > 0 {
      var t := Total(items, rank);
      var d := |items| as real;
      TotalBounded(items, rank);
      RatioBounds(t.exactMatch as real, d);
      RatioBounds(t.editSimilarity, d);
      RatioBounds(t.tokenPrecision, d);
      RatioBounds(t.tokenRecall, d);
      RatioBounds(t.tokenF1, d);
    }
  }

  lemma {:induction false} TotalDominated(items: seq<ResultItem>)
    ensures Total(items, TopOne).tokenF1 <= Total(items, TopFive).tokenF1
    ensures Total(items, TopOne).exactMatch <= Total(items, TopFive).exactMatch
  {
    if items != [] {
      TotalDominated(items[..|items| - 1]);
      OracleDominatesTopOne(items[|items| - 1]);
    }
  }

  lemma DivisionMonotone(x: real, y: real, d: real)
    requires x <= y && 0.0 < d
    ensures x / d <= y / d
  {
    assert (x / d) * d == x && (y / d) * d == y;
  }

  /** Over a whole batch the oracle's average F1 and exact-match rate are
      at least those of the strict top-1 choice. */
  lemma BatchOracleDominatesTopOne(items: seq<ResultItem>)
    ensures Average(Total(items, TopOne), |items|).tokenF1 <= Average(Total(items, TopFive), |items|).tokenF1
    ensures Average(Total(items, TopOne), |items|).exactMatch <= Average(Total(items, TopFive), |items|).exactMatch
  {
    TotalDominated(items);
    if |items| > 0 {
      var t1, t5 := Total(items, TopOne), Total(items, TopFive);
      DivisionMonotone(t1.tokenF1, t5.tokenF1, |items| as real);
      DivisionMonotone(t1.exactMatch as real, t5.exactMatch as real, |items| as real);
    }
  }

  /** The loop of `process` that scores every top-5 candidate, in order. */
  method ScoreCandidates(groundTruth: string, candidates: seq<string>) returns (scored: seq<MetricResult>)
    ensures scored == Evaluations(groundTruth, candidates)
  {
    scored := [];
    var c := 0;
    while c < |candidates|
      invariant 0 <= c <= |candidates|
      invariant scored == Evaluations(groundTruth, candidates[..c])
    {
      assert candidates[..c + 1] == candidates[..c] + [candidates[c]];
      EvaluationsAppend(groundTruth, candidates[..c], candidates[c]);
      scored := scored + [Evaluate(groundTruth, candidates[c])];
      c := c + 1;
    }
    assert candidates[..c] == candidates;
  }

  /** The body of `process` for one item: the strict top-1 metric and the
      best of the scored top-5 candidates. */
  method ScoreItem(item: ResultItem) returns (topOneMetric: MetricResult, topFiveMetric: MetricResult)
    ensures topOneMetric == ItemTopOne(item)
    ensures topFiveMetric == ItemTopFive(item)
  {
    var groundTruth := GroundTruthOf(item);

    // Top-1: the first suggestion when it is valid
    topOneMetric := EmptyMetric();
    if item.suggestions.SuggestionArray? && |item.suggestions.entries| > 0 {
      var first := item.suggestions.entries[0];
      if IsValidSuggestion(first) {
        topOneMetric := Evaluate(groundTruth, first.name.text);
      }
    }

    // Top-5: the best of the valid suggestions among the first five
    var candidates := ExtractValidCandidates(item.suggestions, CandidateLimit);
    var topFiveResults := ScoreCandidates(groundTruth, candidates);
    topFiveMetric := BestCandidate(topFiveResults);
  }

  /** `BatchResultProcessor`: the items of one results file and the two
      running accumulators "top_1" and "top_5". */
  class BatchResultProcessor {
    const results: seq<ResultItem>
    const totalItems: nat
    var accumulators: map<Ranking, MetricResult>

    ghost predicate Valid()
      reads this
    {
      totalItems == |results| && accumulators.Keys == {TopOne, TopFive}
    }

    /** `__init__`: both accumulators start at zero. */
    constructor (results: seq<ResultItem>)
      ensures Valid()
      ensures this.results == results
      ensures accumulators == map[TopOne := EmptyMetric(), TopFive := EmptyMetric()]
    {
      this.results := results;
      this.totalItems := |results|;
      this.accumulators := map[TopOne := EmptyMetric(), TopFive := EmptyMetric()];
    }

    /** `_update_accumulator`: adds one metric into the named accumulator. */
    method UpdateAccumulator(key: Ranking, metric: MetricResult)
      requires Valid()
      modifies this
      ensures Valid()
      ensures accumulators == old(accumulators)[key := Add(old(accumulators)[key], metric)]
    {
      var acc := accumulators[key];
      accumulators := accumulators[key := Add(acc, metric)];
    }

    /** `_calculate_final_averages`: the average of each accumulator over the
        number of items (all zeros for an empty batch). */
    method CalculateFinalAverages() returns (topOne: AverageMetrics, topFive: AverageMetrics)
      requires Valid()
      ensures topOne == Average(accumulators[TopOne], totalItems)
      ensures topFive == Average(accumulators[TopFive], totalItems)
      ensures totalItems == 0 ==> topOne == topFive == AverageMetrics(0.0, 0.0, 0.0, 0.0, 0.0)
    {
      topOne := Average(accumulators[TopOne], totalItems);
      topFive := Average(accumulators[TopFive], totalItems);
    }

    /** One pass of the loop of `process`: scores the item at `index` and adds
        both of its metrics into the accumulators. */
    method ProcessItem(index: nat) returns (metrics: (MetricResult, MetricResult))
      requires Valid()
      requires index < |results|
      modifies this
      ensures Valid()
      ensures metrics == ItemScores(results[index])
      ensures accumulators == old(accumulators)[TopOne := Add(old(accumulators)[TopOne], metrics.0)]
                                               [TopFive := Add(old(accumulators)[TopFive], metrics.1)]
    {
      var topOneMetric, topFiveMetric := ScoreItem(results[index]);
      metrics := (topOneMetric, topFiveMetric);
      UpdateAccumulator(TopOne, topOneMetric);
      UpdateAccumulator(TopFive, topFiveMetric);
    }

    /** `process`: scores every item (the per-item pair replaces the
        "performance_metrics" written into each item), accumulates both
        metrics and returns the two averages. */
    method Process() returns (perItem: seq<(MetricResult, MetricResult)>, topOne: AverageMetrics, topFive: AverageMetrics)
      requires Valid()
      modifies this
      ensures Valid()
      ensures perItem == MapSeq(ItemScores, results)
      ensures accumulators[TopOne] == Add(old(accumulators)[TopOne], Total(results, TopOne))
      ensures accumulators[TopFive] == Add(old(accumulators)[TopFive], Total(results, TopFive))
      ensures topOne == Average(accumulators[TopOne], totalItems)
      ensures topFive == Average(accumulators[TopFive], totalItems)
    {
      perItem := [];
      var index := 0;
      while index < |results|
        invariant Valid()
        invariant 0 <= index <= |results|
        invariant perItem == MapSeq(ItemScores, results[..index])
        invariant accumulators[TopOne] == Add(old(accumulators)[TopOne], Total(results[..index], TopOne))
        invariant accumulators[TopFive] == Add(old(accumulators)[TopFive], Total(results[..index], TopFive))
      {
        var metrics := ProcessItem(index);
        perItem := perItem + [metrics];
        MapSeqStep(ItemScores, results, index);
        TotalStep(results, index, TopOne);
        TotalStep(results, index, TopFive);
        AddAssociative(old(accumulators)[TopOne], Total(results[..index], TopOne), metrics.0);
        AddAssociative(old(accumulators)[TopFive], Total(results[..index], TopFive), metrics.1);
        index := index + 1;
      }
      assert results[..index] == results;
      topOne, topFive := CalculateFinalAverages();
    }
  }


  /** What `main` obtains from a freshly constructed processor: every item
      scored, both averages in [0, 1], and the oracle's averages at least
      those of the strict top-1 choice. */
  method ProcessBatch(results: seq<ResultItem>) returns (perItem: seq<(MetricResult, MetricResult)>, topOne: AverageMetrics, topFive: AverageMetrics)
    ensures perItem == MapSeq(ItemScores, results)
    ensures topOne == Average(Total(results, TopOne), |results|)
    ensures topFive == Average(Total(results, TopFive), |results|)
    ensures AverageBounded(topOne) && AverageBounded(topFive)
    ensures topOne.tokenF1 <= topFive.tokenF1 && topOne.exactMatch <= topFive.exactMatch
  {
    var processor := new BatchResultProcessor(results);
    perItem, topOne, topFive := processor.Process();
    AddEmpty(Total(results, TopOne));
    AddEmpty(Total(results, TopFive));
    BatchAveragesBounded(results, TopOne);
    BatchAveragesBounded(results, TopFive);
    BatchOracleDominatesTopOne(results);
  }
}
