/** Scoring one predicted name against the ground-truth name
    (`MetricResult` and `RenamePredictionEvaluator` of
    `data/calculate_performance_metrics.py`). Ratios are real numbers;
    floating-point rounding is not modelled. */
module PredictionMetrics {

  import opened IdentifierTokenizer
  import opened StringDistance
  import opened Ratios

  /** The five metrics of one prediction. */
  datatype MetricResult = MetricResult(
    exactMatch: int,
    editSimilarity: real,
    tokenPrecision: real,
    tokenRecall: real,
    tokenF1: real)

  /** `MetricResult.empty()`: the result recorded for a missing or invalid prediction,
      the lowest score on every metric. */
  function EmptyMetric(): (m: MetricResult)
    ensures Bounded(m)
    ensures forall o :: Bounded(o) ==>
      && m.exactMatch <= o.exactMatch && m.editSimilarity <= o.editSimilarity
      && m.tokenPrecision <= o.tokenPrecision && m.tokenRecall <= o.tokenRecall && m.tokenF1 <= o.tokenF1
  {
    MetricResult(0, 0.0, 0.0, 0.0, 0.0)
  }

  /** Every metric lies in [0, 1]. */
  predicate Bounded(m: MetricResult) {
    && 0 <= m.exactMatch <= 1
    && 0.0 <= m.editSimilarity <= 1.0
    && 0.0 <= m.tokenPrecision <= 1.0
    && 0.0 <= m.tokenRecall <= 1.0
    && 0.0 <= m.tokenF1 <= 1.0
  }

  // ---------------------------------------------------------------------
  // Token counts (`Counter` of the token lists and their `&`)
  // ---------------------------------------------------------------------

  /** `Counter(tokenize(name))`. */
  function TokenCounts(name: string): (counts: multiset<string>)
    ensures |counts| == |Tokenize(name)|
    ensures forall t :: t in counts ==> IsToken(t)
    ensures name == [] ==> counts == multiset{}
  {
    multiset(Tokenize(name))
  }

  lemma SubMultisetSize<T>(x: multiset<T>, y: multiset<T>)
    requires x <= y
    ensures |x| <= |y|
    ensures |x| == |y| ==> x == y
  {
    assert y == x + (y - x);
  }

  /** The shared tokens never outnumber either side's tokens. */
  lemma IntersectionBounded<T>(g: multiset<T>, p: multiset<T>)
    ensures |g * p| <= |g| && |g * p| <= |p|
  {
    SubMultisetSize(g * p, g);
    SubMultisetSize(g * p, p);
  }

  /** The intersection covers one side exactly when that side's tokens are all shared. */
  lemma IntersectionFull<T>(g: multiset<T>, p: multiset<T>)
    ensures |g * p| == |p| <==> p <= g
  {
    SubMultisetSize(g * p, p);
    if p <= g {
      assert g * p == p;
    }
  }

  lemma RatioOne(x: real, y: real)
    requires 0.0 < y
    ensures x / y == 1.0 <==> x == y
  {
    assert (x / y) * y == x;
  }

  lemma RatioPositive(x: real, y: real)
    requires 0.0 < x && 0.0 < y
    ensures 0.0 < x / y
  {
    assert (x / y) * y == x;
  }

  // ---------------------------------------------------------------------
  // The metrics. As in the evaluator, ground truth and prediction are first
  // turned into token counts `g` and `p`; the token metrics use only those.
  // ---------------------------------------------------------------------

  /** `_calculate_exact_match` */
  function ExactMatch(groundTruth: string, prediction: string): (r: int)
    ensures r == 1 <==> groundTruth == prediction
    ensures r == 0 <==> groundTruth != prediction
  {
    if groundTruth == prediction then 1 else 0
  }

  /** `_calculate_token_precision`: the share of predicted tokens that are
      also ground-truth tokens (counted with multiplicity), zero when the
      prediction has no tokens. */
  function TokenPrecision(g: multiset<string>, p: multiset<string>): (precision: real)
    ensures 0.0 <= precision <= 1.0
    ensures |p| == 0 ==> precision == 0.0
    ensures precision == 1.0 <==> |p| > 0 && p <= g
    ensures precision == 0.0 <==> |g * p| == 0
  {
    if |p| == 0 then 0.0
    else
      IntersectionBounded(g, p);
      IntersectionFull(g, p);
      RatioBounds(|g * p| as real, |p| as real);
      RatioOne(|g * p| as real, |p| as real);
      |g * p| as real / |p| as real
  }

  /** `_calculate_token_recall`: the share of ground-truth tokens that are
      also predicted, zero when the ground truth has no tokens. */
  function TokenRecall(g: multiset<string>, p: multiset<string>): (recall: real)
    ensures 0.0 <= recall <= 1.0
    ensures |g| == 0 ==> recall == 0.0
    ensures recall == 1.0 <==> |g| > 0 && g <= p
    ensures recall == 0.0 <==> |g * p| == 0
  {
    if |g| == 0 then 0.0
    else
      IntersectionBounded(g, p);
      assert g * p == p * g;
      IntersectionFull(p, g);
      RatioBounds(|g * p| as real, |g| as real);
      RatioOne(|g * p| as real, |g| as real);
      |g * p| as real / |g| as real
  }

  /** `_calculate_token_f1`: one when neither side has a token, otherwise the
      harmonic mean of precision and recall, zero when both are zero. */
  function TokenF1(g: multiset<string>, p: multiset<string>): (f: real)
    ensures 0.0 <= f <= 1.0
    ensures |g| == 0 && |p| == 0 ==> f == 1.0
    ensures (|g| > 0 || |p| > 0) ==> (f == 0.0 <==> |g * p| == 0)
    ensures g == p ==> f == 1.0
  {
    if |g| == 0 && |p| == 0 then 1.0
    else
      var precision := TokenPrecision(g, p);
      var recall := TokenRecall(g, p);
      if precision + recall == 0.0 then 0.0
      else
        HarmonicMeanBounds(precision, recall);
        HarmonicMeanPositive(precision, recall);
        2.0 * (precision * recall) / (precision + recall)
  }

  lemma HarmonicMeanPositive(p: real, r: real)
    requires 0.0 < p && 0.0 < r
    ensures 0.0 < 2.0 * (p * r) / (p + r)
  {
    var pr := p * r;
    assert 0.0 < pr;
    RatioPositive(2.0 * pr, p + r);
  }

  /** Swapping prediction and ground truth swaps precision and recall and
      leaves the F1 score unchanged. */
  lemma TokenF1Symmetric(g: multiset<string>, p: multiset<string>)
    ensures TokenPrecision(g, p) == TokenRecall(p, g)
    ensures TokenF1(g, p) == TokenF1(p, g)
  {
    assert g * p == p * g;
  }

  /** `RenamePredictionEvaluator.evaluate` */
  function Evaluate(groundTruth: string, prediction: string): (m: MetricResult)
    ensures Bounded(m)
    ensures m.exactMatch == 1 <==> groundTruth == prediction
    ensures m.editSimilarity == 1.0 <==> groundTruth == prediction
  {
    var g := TokenCounts(groundTruth);
    var p := TokenCounts(prediction);
    MetricResult(
      ExactMatch(groundTruth, prediction),
      Similarity(groundTruth, prediction),
      TokenPrecision(g, p),
      TokenRecall(g, p),
      TokenF1(g, p))
  }

  /** A prediction equal to the ground truth scores full marks on exact match,
      similarity and F1; precision and recall are one unless the name has no
      token at all, in which case both are zero. */
  lemma EvaluateIdentical(name: string)
    ensures var q := if |TokenCounts(name)| == 0 then 0.0 else 1.0;
            Evaluate(name, name) == MetricResult(1, 1.0, q, q, 1.0)
  {
  }
}
