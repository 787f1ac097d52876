/** The lowercase sentiment_class column added to the labeled feedback. */
module ClassLabeling {
  import opened Wrappers
  import opened Numbers
  import opened Labels
  import opened Seqs
  import Text
  import TfIdfModel

  /** The labelling lambda: 'negative' for at most 4, 'neutral' for 5,
      'positive' otherwise (NaN included). */
  function SentimentClass(x: Num): (c: string)
    ensures c in ["negative", "neutral", "positive"]
    ensures Text.IsLower(c)
  {
    if Le(x, 4.0) then "negative" else if Eq(x, 5.0) then "neutral" else "positive"
  }

  /** It is the TF-IDF model's map_sentiment in lower case, for every score. */
  lemma IsLoweredMapSentiment(x: Num)
    ensures SentimentClass(x) == Text.Lower(TfIdfModel.MapSentiment(x).Name())
  {
    var s := TfIdfModel.MapSentiment(x);
    var n := s.Name();
    var l := Text.Lower(n);
    assert l[0] == Text.LowerChar(n[0]);
  }

  /** The comment's table: 0-4 negative, 5 neutral, 6-10 positive. */
  lemma MatchesComment(n: int)
    requires 0 <= n <= 10
    ensures SentimentClass(Some(n as real)) == if n <= 4 then "negative" else if n == 5 then "neutral" else "positive"
  {
  }

  /** `df['sentiment_class'] = df['p_sentiment'].apply(...)`: one label per row. */
  function LabelColumn(scores: seq<Num>): (labels: seq<string>)
    ensures |labels| == |scores|
    ensures forall i :: 0 <= i < |scores| ==> labels[i] == SentimentClass(scores[i])
  {
    Map(scores, SentimentClass)
  }

  /** Every row gets one of the three labels, so their counts add up to the rows. */
  lemma {:induction false} LabelCountsSum(scores: seq<Num>)
    ensures var l := LabelColumn(scores);
      Count(l, (c: string) => c == "negative") + Count(l, (c: string) => c == "neutral")
        + Count(l, (c: string) => c == "positive") == |scores|
    decreases |scores|
  {
    if scores != [] {
      LabelCountsSum(scores[1..]);
      assert LabelColumn(scores)[1..] == LabelColumn(scores[1..]);
    }
  }
}
