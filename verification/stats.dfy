/** The statistics a report entry carries: the arithmetic mean of the
    articles' sentiment scores and the three-way trend label derived from it. */
module Stats {
  import opened Articles

  /** `sentiment_trend`. */
  datatype Trend = Positive | Negative | Neutral {
    /** The label stored in the report. */
    function Label(): string
    {
      match this
      case Positive => "positive"
      case Negative => "negative"
      case Neutral => "neutral"
    }

    /** Position on the negative < neutral < positive scale. */
    function Rank(): int
    {
      match this
      case Negative => 0
      case Neutral => 1
      case Positive => 2
    }
  }

  /** Above 60 is positive, below 40 negative, and the closed band [40, 60]
      neutral; the thresholds are strict on both sides. */
  function TrendOf(average: real): (t: Trend)
    ensures t == Neutral <==> 40.0 <= average <= 60.0
  {
    if average > 60.0 then Positive
    else if average < 40.0 then Negative
    else Neutral
  }

  /** A higher average never gets a lower trend. */
  lemma TrendMonotone(x: real, y: real)
    requires x <= y
    ensures TrendOf(x).Rank() <= TrendOf(y).Rank()
  {
  }

  /** The three labels are distinct, so the label determines the trend. */
  lemma LabelInjective(t: Trend, t': Trend)
    ensures t.Label() == t'.Label() <==> t == t'
  {
    assert "positive"[0] != "negative"[0] && "positive"[0] != "neutral"[0];
    assert "negative"[2] != "neutral"[2];
  }

  /** Sum of the scores. */
  function Sum(s: seq<NewsArticle>): real
    decreases |s|
  {
    if s == [] then 0.0 else s[0].sentimentScore + Sum(s[1..])
  }

  /** `sum(scores) / len(articles)`, exact. */
  function Mean(s: seq<NewsArticle>): real
    requires |s| > 0
  {
    Sum(s) / (|s| as real)
  }

  /** The lowest score, and where it is attained. */
  function MinScore(s: seq<NewsArticle>): (r: real)
    requires |s| > 0
    ensures forall i :: 0 <= i < |s| ==> r <= s[i].sentimentScore
    ensures exists i :: 0 <= i < |s| && s[i].sentimentScore == r
    decreases |s|
  {
    if |s| == 1 then s[0].sentimentScore
    else
      var m := MinScore(s[1..]);
      assert forall i :: 1 <= i < |s| ==> s[i] == s[1..][i - 1];
      if s[0].sentimentScore <= m then s[0].sentimentScore else m
  }

  /** The highest score, and where it is attained. */
  function MaxScore(s: seq<NewsArticle>): (r: real)
    requires |s| > 0
    ensures forall i :: 0 <= i < |s| ==> s[i].sentimentScore <= r
    ensures exists i :: 0 <= i < |s| && s[i].sentimentScore == r
    decreases |s|
  {
    if |s| == 1 then s[0].sentimentScore
    else
      var m := MaxScore(s[1..]);
      assert forall i :: 1 <= i < |s| ==> s[i] == s[1..][i - 1];
      if s[0].sentimentScore >= m then s[0].sentimentScore else m
  }

  /** Scores bounded by `lo` and `hi` bound the sum by `n * lo` and `n * hi`. */
  lemma {:induction false} SumBounds(s: seq<NewsArticle>, lo: real, hi: real)
    requires forall i :: 0 <= i < |s| ==> lo <= s[i].sentimentScore <= hi
    ensures (|s| as real) * lo <= Sum(s) <= (|s| as real) * hi
    decreases |s|
  {
    if s != [] {
      assert forall i :: 0 <= i < |s| - 1 ==> s[1..][i] == s[i + 1];
      SumBounds(s[1..], lo, hi);
    }
  }

  /** The mean of scores bounded by `lo` and `hi` is bounded by them too. */
  lemma MeanBetween(s: seq<NewsArticle>, lo: real, hi: real)
    requires |s| > 0
    requires forall i :: 0 <= i < |s| ==> lo <= s[i].sentimentScore <= hi
    ensures lo <= Mean(s) <= hi
  {
    SumBounds(s, lo, hi);
    var n := |s| as real;
    assert Mean(s) * n == Sum(s);
  }

  /** The mean lies between the lowest and the highest score of its subset. */
  lemma MeanWithinScores(s: seq<NewsArticle>)
    requires |s| > 0
    ensures MinScore(s) <= Mean(s) <= MaxScore(s)
  {
    MeanBetween(s, MinScore(s), MaxScore(s));
  }
}
