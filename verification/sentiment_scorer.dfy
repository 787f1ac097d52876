/**
 * The scoring script: a 0-10 text score from the classifier's three class
 * probabilities, its blend with the star rating, the class of a score, and
 * the sample of rows whose two classes disagree.
 */
module SentimentScorer {
  import opened Wrappers
  import opened Numbers
  import opened Labels
  import opened Seqs
  import TfIdfModel

  /** get_text_sentiment: the probabilities of Negative, Neutral and Positive
      weighted by 0, 5 and 10. */
  function TextSentiment(pNegative: real, pNeutral: real, pPositive: real): real {
    pNegative * 0.0 + pNeutral * 5.0 + pPositive * 10.0
  }

  predicate IsDistribution(p0: real, p1: real, p2: real) {
    0.0 <= p0 && 0.0 <= p1 && 0.0 <= p2 && p0 + p1 + p2 == 1.0
  }

  /** For a probability distribution the text score lies in [0, 10]: it is
      5 moved by 5 times the margin of Positive over Negative. */
  lemma TextSentimentRange(p0: real, p1: real, p2: real)
    requires IsDistribution(p0, p1, p2)
    ensures 0.0 <= TextSentiment(p0, p1, p2) <= 10.0
    ensures TextSentiment(p0, p1, p2) == 5.0 + 5.0 * (p2 - p0)
  {
  }

  /** The rating on the 0-10 scale: (rating / 5) * 10. */
  function NormalizedRating(rating: real): (r: real)
    ensures r == 2.0 * rating
  {
    (rating / 5.0) * 10.0
  }

  lemma NormalizedRatingEnds()
    ensures NormalizedRating(5.0) == 10.0 && NormalizedRating(0.0) == 0.0
    ensures forall r: real :: 0.0 <= r <= 5.0 ==> 0.0 <= NormalizedRating(r) <= 10.0
  {
  }

  const DefaultTextWeight: real := 0.7

  /** combine_scores; a NaN rating makes the combined score NaN. */
  function CombineScores(textScore: real, rating: Num, weightText: real): (c: Num)
    ensures c.Some? <==> rating.Some?
  {
    match rating
    case None => None
    case Some(r) => Some(textScore * weightText + NormalizedRating(r) * (1.0 - weightText))
  }

  function Min(a: real, b: real): real { if a <= b then a else b }
  function Max(a: real, b: real): real { if a <= b then b else a }

  /** A weight in [0, 1] puts the combined score between the text score and
      the normalized rating; weight 1 is the text score, weight 0 the rating. */
  lemma CombineScoresBetween(textScore: real, rating: real, w: real)
    requires 0.0 <= w <= 1.0
    ensures var c := CombineScores(textScore, Some(rating), w).value;
      && Min(textScore, NormalizedRating(rating)) <= c <= Max(textScore, NormalizedRating(rating))
      && (w == 1.0 ==> c == textScore)
      && (w == 0.0 ==> c == NormalizedRating(rating))
  {
    var n := NormalizedRating(rating);
    var c := textScore * w + n * (1.0 - w);
    assert c - n == w * (textScore - n);
    assert textScore - c == (1.0 - w) * (textScore - n);
    if textScore >= n {
      ProductNonnegative(w, textScore - n);
      ProductNonnegative(1.0 - w, textScore - n);
    } else {
      ProductNonnegative(w, n - textScore);
      ProductNonnegative(1.0 - w, n - textScore);
    }
  }

  lemma ProductNonnegative(a: real, b: real)
    requires 0.0 <= a && 0.0 <= b
    ensures 0.0 <= a * b
  {
  }

  /** With the default weight: 0.7 of the text score and 0.3 of the rating,
      so a text score in [0, 10] and a rating in [0, 5] give a score in [0, 10]. */
  lemma DefaultCombination(textScore: real, rating: real)
    requires 0.0 <= textScore <= 10.0 && 0.0 <= rating <= 5.0
    ensures var c := CombineScores(textScore, Some(rating), DefaultTextWeight).value;
      c == 0.7 * textScore + 0.6 * rating && 0.0 <= c <= 10.0
  {
  }

  /** score_to_sentiment: below 4.5 Negative, below 6 Neutral, otherwise
      Positive; NaN fails both comparisons and is Positive. */
  function ScoreToSentiment(score: Num): (s: Sentiment)
    ensures s == Negative <==> Lt(score, 4.5)
    ensures s == Neutral <==> score.Some? && 4.5 <= score.value < 6.0
    ensures s == Positive <==> score.None? || score.value >= 6.0
  {
    if Lt(score, 4.5) then Negative
    else if Lt(score, 6.0) then Neutral
    else Positive
  }

  /** A higher score never gets a lower class. */
  lemma ScoreToSentimentMonotone(a: real, b: real)
    requires a <= b
    ensures ScoreToSentiment(Some(a)).Rank() <= ScoreToSentiment(Some(b)).Rank()
  {
  }

  /** The docstring's claim holds on whole scores (and on NaN): the mapping is
      the TF-IDF model's map_sentiment there. */
  lemma AgreesWithMapSentimentOnWholeScores(n: int)
    ensures ScoreToSentiment(Some(n as real)) == TfIdfModel.MapSentiment(Some(n as real))
    ensures ScoreToSentiment(None) == TfIdfModel.MapSentiment(None)
  {
  }

  /** Between whole scores the two differ: 4.5 and 5.5 are Neutral here and
      Positive in map_sentiment. */
  lemma DiffersBetweenWholeScores()
    ensures ScoreToSentiment(Some(4.5)) == Neutral && TfIdfModel.MapSentiment(Some(4.5)) == Positive
    ensures ScoreToSentiment(Some(5.5)) == Neutral && TfIdfModel.MapSentiment(Some(5.5)) == Positive
  {
  }

  // ---------------------------------------------------------------------
  // main

  /** A row of the feedback file: its text (NaN is absent) and its rating. */
  datatype FeedbackRow = FeedbackRow(feedback: Option<string>, rating: Num)

  /** The row with the four columns main adds. */
  datatype ScoredRow = ScoredRow(
    feedback: string, rating: Num,
    textSentiment: real, combinedSentiment: Num,
    textClass: Sentiment, combinedClass: Sentiment)

  /**
   * The columns main computes for one row: NaN feedback becomes '', the
   * text score comes from `proba`, the classifier's three class
   * probabilities (Negative, Neutral, Positive), and the combined score uses
   * the default weight.
   */
  function ScoreRow(row: FeedbackRow, proba: string -> (real, real, real)): (r: ScoredRow)
    ensures r.feedback == row.feedback.GetOr("") && r.rating == row.rating
    ensures r.textClass == ScoreToSentiment(Some(r.textSentiment))
    ensures r.combinedClass == ScoreToSentiment(r.combinedSentiment)
    ensures r.combinedSentiment == CombineScores(r.textSentiment, row.rating, DefaultTextWeight)
  {
    var text := row.feedback.GetOr("");
    var p := proba(text);
    var t := TextSentiment(p.0, p.1, p.2);
    var c := CombineScores(t, row.rating, DefaultTextWeight);
    ScoredRow(text, row.rating, t, c, ScoreToSentiment(Some(t)), ScoreToSentiment(c))
  }

  function ScoreFeedback(rows: seq<FeedbackRow>, proba: string -> (real, real, real)): (r: seq<ScoredRow>)
    ensures |r| == |rows|
    ensures forall i :: 0 <= i < |rows| ==> r[i] == ScoreRow(rows[i], proba)
  {
    Map(rows, (row: FeedbackRow) => ScoreRow(row, proba))
  }

  /** A row whose rating is missing is combined-Positive, whatever its text. */
  lemma MissingRatingIsPositive(row: FeedbackRow, proba: string -> (real, real, real))
    requires row.rating.None?
    ensures ScoreRow(row, proba).combinedClass == Positive
  {
  }

  predicate Differs(r: ScoredRow) { r.textClass != r.combinedClass }

  /** The rows of `different_sentiments` sampled min(10, n) at a time, with
      `shuffled` the random order the sample draws in. */
  function DifferenceExamples(shuffled: seq<ScoredRow>): seq<ScoredRow> {
    Take(Filter(shuffled, Differs), 10)
  }

  /** The examples are exactly min(10, n) of the n disagreeing rows, and each
      of them disagrees. */
  lemma DifferenceExamplesProperties(scored: seq<ScoredRow>, shuffled: seq<ScoredRow>)
    requires multiset(shuffled) == multiset(scored)
    ensures var e := DifferenceExamples(shuffled);
      && |e| == (if Count(scored, Differs) < 10 then Count(scored, Differs) else 10)
      && forall x :: x in e ==> x in scored && Differs(x)
  {
    var e := DifferenceExamples(shuffled);
    FilterPermutation(shuffled, scored, Differs);
    forall x | x in e ensures x in scored && Differs(x) {
      FilterMembership(shuffled, Differs, x);
      assert x in multiset(shuffled);
    }
  }
}
