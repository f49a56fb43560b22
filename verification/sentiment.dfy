/** Sentiment normalisation (`analyze_sentiment`): the scorer's polarity in
    [-1, 1] is mapped linearly to [0, 100] and rounded to two decimals; a
    scorer failure yields the neutral 50.0. Scores are exact reals. */
module Sentiment {
  import opened Seqs

  /** Python's `round(x, 2)` on the exact value of `x`: the nearest multiple
      of 0.01, ties going to the even hundredth. */
  function Round2(x: real): real
  {
    var y := x * 100.0;
    var f := y.Floor;
    var frac := y - f as real;
    var n := if frac < 0.5 then f
             else if frac > 0.5 then f + 1
             else if f % 2 == 0 then f else f + 1;
    n as real / 100.0
  }

  /** Rounding moves a value by at most half a hundredth. */
  lemma Round2Close(x: real)
    ensures x - 0.005 <= Round2(x) <= x + 0.005
  {
  }

  /** A whole number of hundredths is left unchanged by rounding. */
  lemma Round2Exact(k: int)
    ensures Round2(k as real / 100.0) == k as real / 100.0
  {
    var y := (k as real / 100.0) * 100.0;
    assert y == k as real;
    assert y.Floor == k;
  }

  /** Rounding is monotone. */
  lemma Round2Monotone(x: real, x': real)
    requires x <= x'
    ensures Round2(x) <= Round2(x')
  {
    var y, y' := x * 100.0, x' * 100.0;
    assert y <= y';
    assert y.Floor <= y'.Floor;
  }

  /** The neutral score reported when the scorer fails. */
  const NeutralScore: real := 50.0

  /** `analyze_sentiment` given the scorer's outcome: `Some(p)` is a polarity,
      `None` stands for an exception raised by the scorer. */
  function AnalyzeSentiment(polarity: Option<real>): real
  {
    match polarity
    case None => NeutralScore
    case Some(p) => Round2((p + 1.0) * 50.0)
  }

  /** A polarity in [-1, 1] lands in [0, 100]; polarity 0 and a scorer
      failure both give exactly 50. */
  lemma AnalyzeSentimentRange(polarity: Option<real>)
    requires polarity.Some? ==> -1.0 <= polarity.value <= 1.0
    ensures 0.0 <= AnalyzeSentiment(polarity) <= 100.0
    ensures polarity == Some(0.0) ==> AnalyzeSentiment(polarity) == 50.0
    ensures polarity == None ==> AnalyzeSentiment(polarity) == 50.0
  {
    if polarity.Some? {
      var p := polarity.value;
      Round2Exact(0);
      Round2Exact(5000);
      Round2Exact(10000);
      Round2Monotone(0.0, (p + 1.0) * 50.0);
      Round2Monotone((p + 1.0) * 50.0, 100.0);
    }
  }

  /** The normalisation preserves the order of polarities. */
  lemma AnalyzeSentimentMonotone(p: real, p': real)
    requires p <= p'
    ensures AnalyzeSentiment(Some(p)) <= AnalyzeSentiment(Some(p'))
  {
    Round2Monotone((p + 1.0) * 50.0, (p' + 1.0) * 50.0);
  }
}
