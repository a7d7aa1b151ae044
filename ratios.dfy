/** Facts about the real-valued ratios the metrics are built from
    (similarity, precision, recall, F1 and averages). */
module Ratios {

  /** A part over a positive whole lies in [0, 1], and is positive when the part is. */
  lemma RatioBounds(x: real, y: real)
    requires 0.0 <= x <= y && 0.0 < y
    ensures 0.0 <= x / y <= 1.0
    ensures 0.0 < x ==> 0.0 < x / y
  {
    assert (x / y) * y == x;
  }

  lemma ProductBounds(p: real, r: real)
    requires 0.0 <= p <= 1.0 && 0.0 <= r <= 1.0
    ensures 0.0 <= p * r <= r && p * r <= p
  {
    assert p * (1.0 - r) >= 0.0;
    assert r * (1.0 - p) >= 0.0;
  }

  lemma MeanBounds(p: real, r: real, pr: real)
    requires 0.0 <= pr
    requires pr <= p
    requires pr <= r
    requires p + r > 0.0
    ensures 0.0 <= 2.0 * pr / (p + r) <= 1.0
  {
    RatioBounds(2.0 * pr, p + r);
  }

  /** The harmonic mean of two numbers in [0, 1] lies in [0, 1]. */
  lemma HarmonicMeanBounds(p: real, r: real)
    requires 0.0 <= p <= 1.0 && 0.0 <= r <= 1.0 && p + r > 0.0
    ensures 0.0 <= 2.0 * (p * r) / (p + r) <= 1.0
  {
    ProductBounds(p, r);
    var pr := p * r;
    assert pr <= r;
    MeanBounds(p, r, pr);
  }
}
