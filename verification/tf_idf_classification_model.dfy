/** The score-to-class mapping of the TF-IDF classification script, whose
    neutral band is 5..7. */
module TfIdfClassificationModel {
  import opened Wrappers
  import opened Numbers
  import opened Labels
  import TfIdfModel

  /** map_sentiment: at most 4 Negative, 5 to 7 Neutral, anything else
      Positive, including the scores strictly between 4 and 5 and NaN. */
  function MapSentiment(score: Num): (s: Sentiment)
    ensures s == Negative <==> Le(score, 4.0)
    ensures s == Neutral <==> score.Some? && 5.0 <= score.value <= 7.0
    ensures s == Positive <==> score.None? || score.value > 7.0 || 4.0 < score.value < 5.0
  {
    if Le(score, 4.0) then Negative
    else if score.Some? && 5.0 <= score.value && score.value <= 7.0 then Neutral
    else Positive
  }

  lemma MapSentimentMonotoneOnScale(a: int, b: int)
    requires 1 <= a <= b <= 10
    ensures MapSentiment(Some(a as real)).Rank() <= MapSentiment(Some(b as real)).Rank()
  {
  }

  /** On the 1..10 scale the two scripts agree except on 6 and 7, which this
      one calls Neutral and the other Positive: its neutral set {5, 6, 7}
      strictly contains the other's {5}. */
  lemma AgreesWithTfIdfModel(n: int)
    requires 1 <= n <= 10
    ensures MapSentiment(Some(n as real)) == TfIdfModel.MapSentiment(Some(n as real)) <==> n != 6 && n != 7
    ensures TfIdfModel.MapSentiment(Some(n as real)) == Neutral ==> MapSentiment(Some(n as real)) == Neutral
    ensures MapSentiment(Some(n as real)) == Neutral <==> 5 <= n <= 7
  {
  }
}
