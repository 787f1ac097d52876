/**
 * The rule-based parts of the TF-IDF training script: the mapping from a
 * 1-10 sentiment score to a class, the guard of `predict_new_data`, and the
 * per-class sample of example predictions it saves.
 */
module TfIdfModel {
  import opened Wrappers
  import opened Numbers
  import opened Labels
  import opened Seqs
  import opened Grouping
  import Text

  /** map_sentiment: at most 4 is Negative, exactly 5 Neutral, anything else
      Positive; a NaN score compares false everywhere and lands in Positive. */
  function MapSentiment(score: Num): (s: Sentiment)
    ensures s == Negative <==> Le(score, 4.0)
    ensures s == Neutral <==> Eq(score, 5.0)
    ensures s == Positive <==> !Le(score, 4.0) && !Eq(score, 5.0)
  {
    if Le(score, 4.0) then Negative
    else if Eq(score, 5.0) then Neutral
    else Positive
  }

  /** On the scores 1..10 the classes never go down as the score goes up ... */
  lemma MapSentimentMonotoneOnScale(a: int, b: int)
    requires 1 <= a <= b <= 10
    ensures MapSentiment(Some(a as real)).Rank() <= MapSentiment(Some(b as real)).Rank()
  {
  }

  /** ... but between 4 and 5 they do: 4.5 is Positive while 5 is Neutral. */
  lemma MapSentimentGap()
    ensures MapSentiment(Some(4.5)) == Positive && MapSentiment(Some(5.0)) == Neutral
    ensures forall x: real :: 4.0 < x < 5.0 ==> MapSentiment(Some(x)) == Positive
  {
  }

  // ---------------------------------------------------------------------
  // predict_new_data

  /** A CSV file as read: its header and its rows (a missing cell is absent from the map). */
  datatype Frame = Frame(columns: seq<string>, rows: seq<map<string, string>>)

  /** The ValueError raised for a missing text column, with the columns that
      exist; or the ValueError `vectorizer.transform` raises on a NaN document,
      with the position of the first row whose text cell is empty. */
  datatype PredictError = MissingColumn(column: string, available: seq<string>) | NanText(row: nat)

  /** A row of the returned frame: the original cells, the predicted class
      and one probability per class. */
  datatype Prediction = Prediction(row: map<string, string>, predicted: string, probabilities: seq<real>)

  /** The predictions for rows whose text cells are all present; otherwise the
      position of the first row without one. */
  function PredictRows(rows: seq<map<string, string>>, textColumn: string,
                       predict: string -> string, proba: string -> seq<real>)
    : (r: Result<seq<Prediction>, nat>)
    ensures r.Success? <==> forall i :: 0 <= i < |rows| ==> textColumn in rows[i]
    ensures r.Success? ==> |r.value| == |rows| && forall i :: 0 <= i < |rows| ==>
      r.value[i] == Prediction(rows[i], predict(rows[i][textColumn]), proba(rows[i][textColumn]))
    ensures r.Failure? ==>
      && r.error < |rows| && textColumn !in rows[r.error]
      && forall i :: 0 <= i < r.error ==> textColumn in rows[i]
    decreases |rows|
  {
    if rows == [] then Success([])
    else if textColumn !in rows[0] then Failure(0)
    else
      var text := rows[0][textColumn];
      match PredictRows(rows[1..], textColumn, predict, proba)
      case Failure(k) => Failure(k + 1)
      case Success(rest) => Success([Prediction(rows[0], predict(text), proba(text))] + rest)
  }

  /**
   * predict_new_data: a missing text column is an error raised before the
   * vectorizer or the model is used; a NaN text cell makes the vectorizer
   * raise; otherwise every row is returned with the prediction and
   * probabilities of its text. `predict` and `proba` stand for the fitted
   * vectorizer composed with the classifier and the label decoder.
   */
  function PredictNewData(data: Frame, textColumn: string,
                          predict: string -> string, proba: string -> seq<real>)
    : (r: Result<seq<Prediction>, PredictError>)
    ensures r.Failure? <==>
      textColumn !in data.columns || exists i :: 0 <= i < |data.rows| && textColumn !in data.rows[i]
    ensures textColumn !in data.columns ==> r == Failure(MissingColumn(textColumn, data.columns))
    ensures r.Failure? && r.error.NanText? ==>
      && r.error.row < |data.rows| && textColumn !in data.rows[r.error.row]
      && forall i :: 0 <= i < r.error.row ==> textColumn in data.rows[i]
    ensures r.Success? ==> |r.value| == |data.rows|
    ensures r.Success? ==> forall i :: 0 <= i < |data.rows| ==>
      r.value[i] == Prediction(data.rows[i], predict(data.rows[i][textColumn]), proba(data.rows[i][textColumn]))
  {
    if textColumn !in data.columns then Failure(MissingColumn(textColumn, data.columns))
    else
      match PredictRows(data.rows, textColumn, predict, proba)
      case Failure(k) => Failure(NanText(k))
      case Success(ps) => Success(ps)
  }

  /** The missing-column error does not depend on the model: it comes before
      any transformation, even when some text cell is NaN as well. */
  lemma MissingColumnIgnoresModel(data: Frame, textColumn: string,
                                  predict1: string -> string, proba1: string -> seq<real>,
                                  predict2: string -> string, proba2: string -> seq<real>)
    requires textColumn !in data.columns
    ensures PredictNewData(data, textColumn, predict1, proba1) == PredictNewData(data, textColumn, predict2, proba2)
    ensures PredictNewData(data, textColumn, predict1, proba1).error.MissingColumn?
  {
  }

  /** An empty text cell stops the script: no prediction is returned. */
  lemma NanTextFails(data: Frame, textColumn: string, predict: string -> string,
                     proba: string -> seq<real>, i: nat)
    requires textColumn in data.columns && i < |data.rows| && textColumn !in data.rows[i]
    ensures PredictNewData(data, textColumn, predict, proba).Failure?
    ensures PredictNewData(data, textColumn, predict, proba).error.NanText?
    ensures PredictNewData(data, textColumn, predict, proba).error.row <= i
  {
  }

  // ---------------------------------------------------------------------
  // The saved example predictions

  datatype Review = Review(text: string, actual: string, predicted: string)

  function PredictedOf(r: Review): string { r.predicted }

  /** The predicted classes, in the order groupby lists them. */
  function PredictedClasses(reviews: seq<Review>): (cs: seq<string>)
    ensures forall i, j :: 0 <= i < j < |cs| ==> cs[i] != cs[j]
    ensures forall c :: c in cs <==> exists i :: 0 <= i < |reviews| && reviews[i].predicted == c
  {
    StringOrder();
    var cs := GroupKeys(reviews, PredictedOf, Text.Less);
    StrictlySortedDistinct(cs, Text.Less);
    cs
  }

  /** groupby('Predicted_Sentiment').apply(lambda x: x.sample(min(len(x), 5))),
      with `shuffled` the random order the sampling draws in. */
  function SampleByPredicted(reviews: seq<Review>, shuffled: seq<Review>): seq<Review> {
    CappedSample(shuffled, PredictedOf, PredictedClasses(reviews), 5)
  }

  /** The examples are saved only when the test labels and the predictions
      have the same length. */
  function SavedExamples(testCount: nat, predictionCount: nat, reviews: seq<Review>, shuffled: seq<Review>)
    : (r: Option<seq<Review>>)
    ensures r.Some? <==> testCount == predictionCount
  {
    if testCount == predictionCount then Some(SampleByPredicted(reviews, shuffled)) else None
  }

  /** Each predicted class keeps min(its size, 5) reviews; no other class appears. */
  lemma SampleByPredictedSizes(reviews: seq<Review>, shuffled: seq<Review>, c: string)
    requires multiset(shuffled) == multiset(reviews)
    ensures ClassSize(SampleByPredicted(reviews, shuffled), PredictedOf, c)
         == Min(5, ClassSize(reviews, PredictedOf, c))
  {
    var cs := PredictedClasses(reviews);
    CappedSampleClassSize(shuffled, PredictedOf, cs, 5, c);
    ClassSizePermutation(shuffled, reviews, PredictedOf, c);
    if c !in cs {
      OfClassEmpty(reviews, PredictedOf, c);
    }
  }

  /** Every saved example is one of the reviews. */
  lemma SampleByPredictedMembers(reviews: seq<Review>, shuffled: seq<Review>)
    requires multiset(shuffled) == multiset(reviews)
    ensures forall x :: x in SampleByPredicted(reviews, shuffled) ==> x in reviews
  {
    CappedSampleMembers(shuffled, PredictedOf, PredictedClasses(reviews), 5);
    forall x | x in SampleByPredicted(reviews, shuffled) ensures x in reviews {
      assert x in multiset(shuffled);
    }
  }
}
