/**
 * Risk fusion and decision: the behaviour probability, optionally averaged
 * with the text probability, and the three-tier verdict on the result.
 */
module Fusion {
  import opened Wrappers

  /** The verdict: safe, early warning, high risk. */
  datatype Tier = Low | Elevated | High

  const ElevatedThreshold := 0.3
  const HighThreshold := 0.6

  /** Either `a <= v <= b` or `b <= v <= a`. */
  predicate Between(v: real, a: real, b: real)
  {
    (a <= v <= b) || (b <= v <= a)
  }

  /**
   * The fused probability: the behaviour probability alone without a text
   * probability, otherwise the weighted average `w * pb + (1 - w) * pt`,
   * which for a weight in [0, 1] lies between the two and is the common
   * value when they agree.
   */
  function Fuse(pb: real, pt: Option<real>, w: real): (f: real)
    ensures pt.None? ==> f == pb
    ensures pt.Some? && 0.0 <= w <= 1.0 ==> Between(f, pb, pt.value)
    ensures pt == Some(pb) ==> f == pb
  {
    match pt
    case None => pb
    case Some(t) =>
      WeightedAverageBetween(pb, t, w);
      w * pb + (1.0 - w) * t
  }

  /** A weighted average with weights in [0, 1] lies between the two values. */
  lemma WeightedAverageBetween(a: real, b: real, w: real)
    ensures 0.0 <= w <= 1.0 ==> Between(w * a + (1.0 - w) * b, a, b)
    ensures w * a + (1.0 - w) * a == a
  {
    var f := w * a + (1.0 - w) * b;
    assert f - b == w * (a - b);
    assert f - a == (1.0 - w) * (b - a);
    if 0.0 <= w <= 1.0 {
      ProductSign(w, a - b);
      ProductSign(1.0 - w, b - a);
    }
  }

  /** A non-negative factor keeps the sign of the other. */
  lemma ProductSign(c: real, d: real)
    requires c >= 0.0
    ensures d >= 0.0 ==> c * d >= 0.0
    ensures d <= 0.0 ==> c * d <= 0.0
  {
  }

  /** Fusing two probabilities with a weight in [0, 1] gives a probability. */
  lemma FuseIsProbability(pb: real, pt: Option<real>, w: real)
    requires 0.0 <= pb <= 1.0 && 0.0 <= w <= 1.0
    requires pt.Some? ==> 0.0 <= pt.value <= 1.0
    ensures 0.0 <= Fuse(pb, pt, w) <= 1.0
  {
  }

  /** The verdict on the fused probability (lines 434-439), thresholds inclusive from below. */
  function TierOf(f: real): (t: Tier)
    ensures t == High <==> f >= HighThreshold
    ensures t == Elevated <==> ElevatedThreshold <= f < HighThreshold
    ensures t == Low <==> f < ElevatedThreshold
  {
    if f >= HighThreshold then High
    else if f >= ElevatedThreshold then Elevated
    else Low
  }

  /** The tiers' order: Low, then Elevated, then High. */
  function Severity(t: Tier): nat
  {
    match t
    case Low => 0
    case Elevated => 1
    case High => 2
  }

  /** A higher fused probability never gets a milder verdict. */
  lemma TierMonotone(f1: real, f2: real)
    requires f1 <= f2
    ensures Severity(TierOf(f1)) <= Severity(TierOf(f2))
  {
  }

  /** The thresholds belong to the tier above them. */
  lemma TierBoundaries()
    ensures TierOf(0.6) == High && TierOf(0.59999) == Elevated
    ensures TierOf(0.3) == Elevated && TierOf(0.29999) == Low
  {
  }

  /** Behaviour 0.8 and text 0.2 at weight 0.7 fuse to 0.62, a high risk. */
  lemma FusionExample()
    ensures Fuse(0.8, Some(0.2), 0.7) == 0.62
    ensures TierOf(Fuse(0.8, Some(0.2), 0.7)) == High
  {
  }
}
