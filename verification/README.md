# Customer sentiment analysis: a Dafny model of its rules

This project models the rule-based core of a customer-sentiment analysis
repository. It has two parts:

- a Node/SQLite web server that fills a `feedback` table at start-up and
  answers five aggregation queries;
- a set of Python scripts that clean, label, score, bucket and sample
  feedback records.

Machine learning, plotting, file and network I/O are outside the model.
Everything the rules do with the data is inside it: thresholds, defaults,
filters, de-duplication, per-class caps, orderings, counts and error
conditions.

Layout:

- One module per source file: `FeedbackStore` and `FeedbackQueries` for the
  server, and `SentimentScorer`, `TfIdfModel`, `TfIdfClassificationModel`,
  `ClassLabeling`, `VaderSentiment` / `ArchiveVaderSentiment`, `LabelInput` /
  `Pseudolabeling`, `DataCleaning`, `FeedbackCleaning`,
  `ReducedFeedbackCleaning`, `SampleReviews`, `PseudoSampling` and
  `CleanReviews` for the scripts.
- Shared library modules:
  - `Wrappers` holds `Option` and `Result`.
  - `Numbers` holds `Num`, a score that may be NaN or NULL, written `None`.
    Every comparison with `None` is false, as in IEEE and in SQL's
    three-valued logic.
  - `Seqs` holds filtering, de-duplication that keeps the first row,
    counting and subsequences.
  - `Text` holds Python's `lower`, `strip`, `split`, `" ".join` and `int()`,
    and code-point string order.
  - `Grouping` holds GROUP BY keys, capped per-class sampling and a stable
    sort by key.
  - `CleaningText` holds what the three cleaning scripts share.

State the source changes in place is modelled imperatively:

- The server's table is a class `FeedbackTable`. Its rows are a `seq`, and it
  keeps SQLite's AUTOINCREMENT counter.
- The labeling script's column is an `array<Num>` that `RunLabeling` updates
  cell by cell. That method is proved equal to the recursive specification
  `Session`.
- The per-class sampling loop of `sample_reviews.py` is the method
  `DrawPerClass`, proved equal to `CappedSample`.

External parts become parameters:

- `strftime`, `parseFloat`, the clock;
- the classifier's probabilities, VADER's compound score;
- NLTK's word list, stopword list, tokenizer and lemmatizer;
- every random draw. The draw is the rows in a random order (`shuffled`,
  with the same multiset as the rows) or a permutation of row positions
  (`order`).

Three behaviours of the code worth knowing, each stated by a member:

- **Comparison on an empty table.** SQLite's `x / 0` is NULL, so the
  comparison query returns one row of six NULLs. `ComparisonProperties`
  states this.
- **Effective score of an example.** The examples query classifies a row by
  `COALESCE(combined_score, sentiment_score)` alone, so a row with both NULL
  is `'neutral'` whatever its `text_sentiment`.
- **`score_to_sentiment` and `map_sentiment`.** The docstring at
  `sentiment_scorer.py:39` says `score_to_sentiment` uses "the same mapping"
  as `TF_IDF_model.py`. The two agree on whole scores and on NaN, but not
  between whole scores: 4.5 and 5.5 differ.

## Model

| member | source | states |
|---|---|---|
| FeedbackStore.CellOr | web-app/server/server.js:82-86 | `row.k \|\| fallback`: the cell when it is present and non-empty, the fallback otherwise |
| FeedbackStore.ScoreOr0 | web-app/server/server.js:85 | the parsed sentiment score when the cell exists and parses, 0 when it is missing or NaN |
| FeedbackStore.Imported | web-app/server/server.js:73-87 | an imported row has date, company, text, score and category filled, each from its own cell (`row.k || default`): a missing or empty cell gives 'Unknown' for company, '' for text, 'Uncategorized' for category and now for date, and the score is the parsed number or 0 when the cell is missing or does not parse; rating, text_sentiment and combined_score stay NULL |
| FeedbackStore.Keyed | web-app/server/server.js:26 | AUTOINCREMENT keys: the i-th inserted row gets key first + i, nothing else changes |
| FeedbackStore.KeyedKeepsKeys | web-app/server/server.js:26 | appending freshly keyed rows keeps all keys unique, ascending and below the counter |
| FeedbackStore.FeedbackTable.Open | web-app/server/server.js:25-35 | CREATE TABLE IF NOT EXISTS keeps the rows found and a valid key counter |
| FeedbackStore.FeedbackTable.Insert | web-app/server/server.js:73-80 | one INSERT appends the row under the next key and advances the counter, keeping keys valid |
| FeedbackStore.FeedbackTable.InsertAll | web-app/server/server.js:121-127 | the rows are inserted in order with consecutive keys |
| FeedbackStore.FeedbackTable.InitializeDatabase | web-app/server/server.js:44-104 | if the count query succeeds with 0 and the CSV exists, the table becomes the CSV rows with their defaults, in file order, under consecutive keys from the counter, and COUNT(*) becomes the number of CSV rows; in every other case rows and counter are unchanged |
| FeedbackStore.FeedbackTable.AddSampleData | web-app/server/server.js:110-130 | the four fixed records are inserted under consecutive keys exactly when the count query succeeds with 0, so the counter advances by 4 and COUNT(*), the debug endpoint's `recordCount`, becomes 4; otherwise rows and counter are unchanged |
| FeedbackStore.FeedbackTable.Bootstrap | web-app/server/server.js:132-134 | on a non-empty table start-up changes nothing and keeps COUNT(*); an empty table gets the CSV rows if there are any (counter advanced by their number), else the four seed records when the second count query succeeds (counter advanced by 4, COUNT(*) 4), else stays empty with its counter |
| FeedbackQueries.MaxMagnitude | web-app/server/server.js:142-143 | the largest absolute score of a group: an upper bound attained by some row |
| FeedbackQueries.Months | web-app/server/server.js:141-146 | GROUP BY month ORDER BY month: strictly ascending months, each row's month listed, each listed month with a row |
| FeedbackQueries.PartsOfMagnitude | web-app/server/server.js:142-143 | both CASE parts of a score are non-negative and add up to its magnitude |
| FeedbackQueries.MeanPartsBounded | web-app/server/server.js:142-143 | in a group the positive and negative averages are non-negative and their sum is the mean magnitude, at most the largest magnitude |
| FeedbackQueries.MeanBounded | web-app/server/server.js:142-143 | AVG of values in [0, hi] over a non-empty group lies in [0, hi] |
| FeedbackQueries.TrendsMonths | web-app/server/server.js:140-146 | the trend rows are exactly the distinct months of the table, strictly ascending, and each carries the averages of its own month's rows |
| FeedbackQueries.TrendsBounded | web-app/server/server.js:140-158 | every trend value is non-negative, and on a non-empty table each month has rows and its two values sum to its mean magnitude, at most its largest magnitude |
| FeedbackQueries.Categories | web-app/server/server.js:171 | GROUP BY category: each row's category listed once, each listed category with a row |
| FeedbackQueries.SignCounts | web-app/server/server.js:168-169 | positive, negative and other rows partition a group |
| FeedbackQueries.PercentagesBounded | web-app/server/server.js:168-169 | each share is in [0, 100] and the two shares sum to at most 100 |
| FeedbackQueries.CategoriesDistinct | web-app/server/server.js:171 | no category is listed twice |
| FeedbackQueries.ByCategoryProperties | web-app/server/server.js:166-181 | one row per distinct category of the table, each with shares in [0, 100] summing to at most 100, computed over that category's rows |
| FeedbackQueries.ColumnCounts | web-app/server/server.js:192-197 | rows above, below and at zero, plus NULL rows, account for every row of a column |
| FeedbackQueries.NoNulls | web-app/server/server.js:192-197 | the NULL count is 0 iff the column has no NULL |
| FeedbackQueries.ColumnSharesSum | web-app/server/server.js:192-197 | for a non-empty table a column's three shares sum to at most 100, and to exactly 100 iff it has no NULL |
| FeedbackQueries.ComparisonProperties | web-app/server/server.js:191-206 | exactly one row: all NULL on an empty table; otherwise for text and for combined the shares sum to at most 100, and to exactly 100 iff that column has no NULL |
| FeedbackQueries.Classify | web-app/server/server.js:219-223 | 'positive' iff the coalesced score is > 0, 'negative' iff < 0, 'neutral' iff it is NULL or 0 |
| FeedbackQueries.Ranked | web-app/server/server.js:224-232 | ROW_NUMBER(): the i-th row of a class gets rank i + 1, text_sentiment defaulted to 0 and the coalesced combined score |
| FeedbackQueries.Candidates | web-app/server/server.js:234 | only rows with non-NULL feedback_text are candidates |
| FeedbackQueries.ClassBlock | web-app/server/server.js:224-238 | every row of a class block has text and that class |
| FeedbackQueries.ClassNamesAscend | web-app/server/server.js:239 | 'negative' < 'neutral' < 'positive' in SQLite's string order |
| FeedbackQueries.RankedOrdered | web-app/server/server.js:239 | a ranked block is ordered by rank |
| FeedbackQueries.ConcatOrdered | web-app/server/server.js:239 | blocks of ascending classes, each ordered, concatenate to an ordered list |
| FeedbackQueries.ExamplesSorted | web-app/server/server.js:236-239 | the examples are ordered by classification, then by rank |
| FeedbackQueries.ExamplesOfClass | web-app/server/server.js:213-239 | the examples of a class are its ranked block; classes outside the three have none |
| FeedbackQueries.BlockFilter | web-app/server/server.js:238-239 | a class's block holds no example of another class |
| FeedbackQueries.ExamplesPerClassCount | web-app/server/server.js:224-238 | each class yields exactly min(3, its rows with text) examples, whatever the random order |
| FeedbackQueries.BlockRowFromRows | web-app/server/server.js:233-238 | every row of a class block is a row of the table |
| FeedbackQueries.BlockFromRows | web-app/server/server.js:214-238 | every example of a block is a table row with text, rendered with its rank |
| FeedbackQueries.ExamplesFromRows | web-app/server/server.js:214-234 | every example comes from a table row with text, with text_sentiment defaulted to 0 and the coalesced score |
| FeedbackQueries.EmptyTableAnswers | web-app/server/server.js:155-247 | on an empty table: one current-month zero row, one 'No Data' zero row, an all-NULL comparison, no examples |
| FeedbackQueries.ImportedIsCandidate | web-app/server/server.js:81-87 | an imported row always has text and is classed by the sign of its parsed score |
| SentimentScorer.TextSentimentRange | sentiment_scorer.py:24-27 | for a probability distribution the text score is 5 + 5(p2 - p0), within [0, 10] |
| SentimentScorer.NormalizedRating | sentiment_scorer.py:32 | the normalized rating is twice the rating |
| SentimentScorer.NormalizedRatingEnds | sentiment_scorer.py:31-32 | rating 5 maps to 10, rating 0 to 0, [0, 5] into [0, 10] |
| SentimentScorer.CombineScores | sentiment_scorer.py:29-36 | the combined score is defined exactly when the rating is not NaN |
| SentimentScorer.CombineScoresBetween | sentiment_scorer.py:29-35 | a weight in [0, 1] puts the combined score between the text score and the normalized rating; weight 1 gives the text score, weight 0 the rating |
| SentimentScorer.DefaultCombination | sentiment_scorer.py:29-35 | with the default weight the combined score is 0.7 text + 0.6 rating and lies in [0, 10] |
| SentimentScorer.ScoreToSentiment | sentiment_scorer.py:38-45 | Negative iff score < 4.5, Neutral iff 4.5 <= score < 6, Positive iff score >= 6 or NaN |
| SentimentScorer.ScoreToSentimentMonotone | sentiment_scorer.py:38-45 | a higher score never gets a lower class |
| SentimentScorer.AgreesWithMapSentimentOnWholeScores | sentiment_scorer.py:39 | on every whole score and on NaN it equals TF_IDF_model's map_sentiment |
| SentimentScorer.DiffersBetweenWholeScores | sentiment_scorer.py:39-45 | between whole scores it differs: 4.5 and 5.5 are Neutral here, Positive in map_sentiment |
| SentimentScorer.ScoreRow | sentiment_scorer.py:58-75 | NaN feedback becomes '', the combined score uses the default weight, and each class is the class of its score |
| SentimentScorer.ScoreFeedback | sentiment_scorer.py:58-75 | one scored row per input row, in order |
| SentimentScorer.MissingRatingIsPositive | sentiment_scorer.py:68-75 | a NaN rating makes the combined class Positive whatever the text |
| SentimentScorer.DifferenceExamplesProperties | sentiment_scorer.py:85-87 | the examples are min(10, n) of the n rows whose two classes differ, each one such a row |
| TfIdfModel.MapSentiment | TF_IDF_model.py:26-32 | Negative iff score <= 4, Neutral iff score == 5, Positive otherwise (NaN and 4 < score < 5 included) |
| TfIdfModel.MapSentimentMonotoneOnScale | TF_IDF_model.py:26-32 | on 1..10 the class never goes down as the score goes up |
| TfIdfModel.MapSentimentGap | TF_IDF_model.py:26-32 | every score strictly between 4 and 5 is Positive while 5 is Neutral |
| TfIdfModel.PredictNewData | TF_IDF_model.py:137-156 | it fails iff the text column is missing or some row's text cell is NaN; a missing column is reported first, with the available columns, otherwise the first NaN row is reported; on success every row gets its text's prediction and probabilities |
| TfIdfModel.NanTextFails | TF_IDF_model.py:144 | a NaN text cell in a frame that has the column makes the transformation fail, at that row or an earlier one |
| TfIdfModel.MissingColumnIgnoresModel | TF_IDF_model.py:139-140 | the missing-column error is the same for every model and is the one reported: it comes before any transformation |
| TfIdfModel.PredictedClasses | TF_IDF_model.py:325 | the groups are the distinct predicted classes of the reviews |
| TfIdfModel.SavedExamples | TF_IDF_model.py:311-328 | examples are saved iff the label and prediction arrays have the same length |
| TfIdfModel.SampleByPredictedSizes | TF_IDF_model.py:325-326 | each predicted class keeps exactly min(its size, 5) reviews |
| TfIdfModel.SampleByPredictedMembers | TF_IDF_model.py:325-326 | every kept example is one of the reviews |
| TfIdfClassificationModel.MapSentiment | TF_IDF_classification_model.py:27-33 | Negative iff score <= 4, Neutral iff 5 <= score <= 7, Positive iff score > 7, 4 < score < 5 or NaN |
| TfIdfClassificationModel.MapSentimentMonotoneOnScale | TF_IDF_classification_model.py:27-33 | on 1..10 the class never goes down as the score goes up |
| TfIdfClassificationModel.AgreesWithTfIdfModel | TF_IDF_classification_model.py:27-33 | on 1..10 it agrees with TF_IDF_model except on 6 and 7; its neutral set {5, 6, 7} contains the other's {5} |
| ClassLabeling.SentimentClass | misc_scripts/class_labeling.py:12-13 | the label is one of the three lowercase labels |
| ClassLabeling.IsLoweredMapSentiment | misc_scripts/class_labeling.py:12-13 | for every score it is TF_IDF_model's map_sentiment lowercased |
| ClassLabeling.MatchesComment | misc_scripts/class_labeling.py:7-13 | on 0..10 it follows the comment: 0-4 negative, 5 neutral, 6-10 positive |
| ClassLabeling.LabelColumn | misc_scripts/class_labeling.py:12-13 | one label per row, the row count unchanged |
| ClassLabeling.LabelCountsSum | misc_scripts/class_labeling.py:12-16 | the three label counts add up to the number of rows |
| VaderSentiment.SentimentLabel | vader_sentiment_analysis.py:21-22 | positive iff score > 0.05, negative iff score < -0.05, neutral iff in between (0 included) |
| VaderSentiment.NegationSymmetry | vader_sentiment_analysis.py:21-22 | negating the score swaps positive and negative and keeps neutral |
| VaderSentiment.AnalyzeSentiment | vader_sentiment_analysis.py:17-22 | succeeds iff every feedback_prepped cell is text, and then each row gets the compound score of its text and that score's label; otherwise it fails at the first cell that is not text (a NaN, on which polarity_scores raises) |
| ArchiveVaderSentiment.SentimentScore | archive/vader_sentiment_analysis.py:12-17 | a non-string cell scores 0 without the analyzer; a string scores its compound value |
| ArchiveVaderSentiment.SentimentLabel | archive/vader_sentiment_analysis.py:25-26 | the archived thresholds equal the current script's |
| ArchiveVaderSentiment.NonTextIsNeutral | archive/vader_sentiment_analysis.py:12-17 | a non-string cell is always labelled neutral |
| ArchiveVaderSentiment.AnalyzeSentiment | archive/vader_sentiment_analysis.py:20-30 | one score and label per row, in order |
| ArchiveVaderSentiment.AgreesWithCurrent | archive/vader_sentiment_analysis.py:12-30 | where the current script succeeds the archived one gives the same scores and labels; where the current one fails, the archived one labels the failing row neutral |
| ArchiveVaderSentiment.LabelCountsSum | archive/vader_sentiment_analysis.py:36 | the value counts of the three labels add up to the number of rows |
| LabelInput.Interpret | pseudolabeling.py:35-61 | a score answer always lies in 1..10 |
| LabelInput.InterpretMeaning | pseudolabeling.py:38-61 | exit iff the stripped lowercased text is 'exit' or 'quit'; skip iff it is 'skip'; a score iff it is neither and int() of the stripped text gives 1..10, and then that number |
| LabelInput.StrippedWord | pseudolabeling.py:36 | a text without whitespace at its ends strips to itself |
| LabelInput.KeywordOfNumber | pseudolabeling.py:38-44 | a text starting with a digit is never exit, quit or skip |
| LabelInput.InterpretStripped | pseudolabeling.py:35-38 | an answer means what its stripped text means |
| LabelInputExamples.InterpretOneDigit | pseudolabeling.py:48-51 | a digit 1-9 is that label |
| LabelInputExamples.InterpretTwoDigits | pseudolabeling.py:48-51 | two digits are a label iff their value is in 1..10 ("07" and "10" are, "00" and "11" are not) |
| LabelInput.FractionIsInvalid | pseudolabeling.py:48-50 | int() raises on a text with a '.', so that answer is invalid |
| LabelInputExamples.InterpretNoFractions | pseudolabeling.py:48-61 | an answer with a '.' is never a label |
| LabelInputExamples.InterpretQuitUpper | pseudolabeling.py:38 | 'QUIT' ends the session |
| Pseudolabeling.NextAnswer | pseudolabeling.py:34-61 | the first answer that is not invalid, every answer skipped before it invalid; none when all remaining answers are invalid |
| Pseudolabeling.Session | pseudolabeling.py:28-64 | the session keeps the column's length and reads answers only forward |
| Pseudolabeling.InitialColumn | pseudolabeling.py:14-16 | the column read from the file, or all nulls on the first run |
| Pseudolabeling.Unlabeled | pseudolabeling.py:22 | only positions of null cells are visited |
| Pseudolabeling.Answers | pseudolabeling.py:35-36 | each raw answer is read through the prompt's interpretation |
| Pseudolabeling.LabeledPlusUnlabeled | pseudolabeling.py:22-26 | the counter starts at the number of labeled rows: the column's length minus the number of null rows |
| Pseudolabeling.LabeledCountFill | pseudolabeling.py:51-53 | filling a null cell adds exactly one to the labeled count |
| Pseudolabeling.SessionEffect | pseudolabeling.py:28-56 | cells outside the visited positions keep their value, every changed cell was null and now holds a score 1..10, and the counter grows by the labels stored |
| Pseudolabeling.UnlabeledDistinct | pseudolabeling.py:22-28 | the null positions are visited in ascending order, each once |
| Pseudolabeling.UnlabeledMembership | pseudolabeling.py:22 | a position is visited iff its cell is null |
| Pseudolabeling.LabelingProperties | pseudolabeling.py:22-64 | existing labels are kept, every change fills a null cell with a score 1..10, and the counter ends at the number of labeled cells |
| Pseudolabeling.StoredIsWhole | pseudolabeling.py:48-51 | a stored label is a whole number in 1..10 |
| Pseudolabeling.ExitFirst | pseudolabeling.py:38-43 | 'exit' on the first review stops with the column unchanged |
| Pseudolabeling.InvalidAsksAgain | pseudolabeling.py:57-61 | an invalid answer only re-prompts: the session is the same as without it |
| Pseudolabeling.NothingToLabel | pseudolabeling.py:22-28 | a column without null cells completes at once and reads no answer |
| Pseudolabeling.ReadAnswer | pseudolabeling.py:34-61 | the inner loop returns the first valid answer after the position it started at, or reports that the answers ran out |
| Pseudolabeling.RunLabeling | pseudolabeling.py:28-64 | the loops over the column in place end in the state the specification `Labeling` gives: same column, counter, stop reason and answers read |
| Pseudolabeling.SessionStep | pseudolabeling.py:34-56 | one review: out of input stops, exit stops, skip moves on, a score is stored and the counter advances |
| DataCleaning.CleanFeedback | data-cleaning/feedback_cleaning.py:18-105 | initial count is the input size; removed is initial minus final; no rows are added |
| DataCleaning.MissingRemovedMembership | data-cleaning/feedback_cleaning.py:32-35 | a row survives the removals iff its Feedback is present, not 'nan' in any case, and its Rating is present |
| DataCleaning.StagesAreSubsequences | data-cleaning/feedback_cleaning.py:32-66 | each stage only deletes rows and keeps the order of the rest |
| DataCleaning.CleanFeedbackOrder | data-cleaning/feedback_cleaning.py:42-102 | the written rows keep the input order, and no two share a Feedback |
| DataCleaning.CleanFeedbackRecord | data-cleaning/feedback_cleaning.py:32-102 | a written record comes from an input row with a valid Feedback and Rating, has an English word in its stripped text, has no NaN cell, a lemma column that is not 'nan', and its columns are the stripped text and its lemmas |
| DataCleaning.RunCleaning | data-cleaning/feedback_cleaning.py:104-109 | an input without rows stops at the retained percentage (division by zero) before anything is written; otherwise the report is written and its retained percentage lies between 0 and 100 |
| DataCleaning.CleanFeedbackCounts | data-cleaning/feedback_cleaning.py:38-105 | the duplicate count is what de-duplication dropped, the non-English count what the English filter dropped, and removed is the sum of all stages' drops |
| DataCleaning.EmptyLemIsKept | data-cleaning/feedback_cleaning.py:92-102 | an empty lem_feedback is counted but its row is kept |
| DataCleaning.FinalPassBound | data-cleaning/feedback_cleaning.py:91-102 | the final pass drops at most as many rows as there are NaN cells and 'nan' lemmas |
| DataCleaning.StrippingAfterDedup | data-cleaning/feedback_cleaning.py:42-48 | "good" and "good " both survive de-duplication and are equal once stripped |
| FeedbackCleaning.CleanFeedback | feedback_cleaning.py:21-58 | one record per row kept by both filters, in order |
| FeedbackCleaning.EnglishRowsMembership | feedback_cleaning.py:21-42 | a row is kept iff it has a Feedback and a Rating and its text has an English word |
| FeedbackCleaning.CleanFeedbackProperties | feedback_cleaning.py:21-58 | the output keeps the input order; each record has Feedback and Rating, an English word, and lem_feedback equal to its text's lowercased lemmas joined by spaces |
| FeedbackCleaning.DuplicatesSurvive | feedback_cleaning.py:21-42 | a passing row given twice is written twice: nothing is de-duplicated |
| ReducedFeedbackCleaning.CleanFeedback | dimensionality-reduction/feedback_cleaning.py:25-65 | one record per English row, in order |
| ReducedFeedbackCleaning.CleanFeedbackProperties | dimensionality-reduction/feedback_cleaning.py:25-65 | the output rows are exactly the input rows with an English word, in order; each carries its lemmas and those of its lemma tokens that are not stopwords |
| ReducedFeedbackCleaning.NanFeedbackKept | dimensionality-reduction/feedback_cleaning.py:25-37 | a NaN Feedback becomes "nan" and is kept iff "nan" is in the word list |
| ReducedFeedbackCleaning.NonEnglishCount | dimensionality-reduction/feedback_cleaning.py:37 | kept and dropped rows add up to the input |
| CleaningText.AsText | feedback_cleaning.py:26 | astype(str) keeps a text and turns NaN into "nan" |
| CleaningText.ContainsEnglishWordSplit | data-cleaning/feedback_cleaning.py:56-58 | a text is English iff some word of its lowercased split is in the lexicon |
| CleaningText.EmptyIsNotEnglish | data-cleaning/feedback_cleaning.py:56-58 | an empty text is never English |
| CleaningText.Lemmas | feedback_cleaning.py:52-55 | one lowercased lemma per token, in order |
| CleaningText.LemmatizeTextProperties | feedback_cleaning.py:52-55 | the lemma text is lower case, and when each lemma is a word, splitting it gives back the lemmas in order |
| CleaningText.KeptTokens | dimensionality-reduction/feedback_cleaning.py:60-63 | the kept tokens are exactly those whose lowercase form is not a stopword, in their order |
| CleaningText.KeptTokensIdempotent | dimensionality-reduction/feedback_cleaning.py:60-63 | filtering the kept tokens again keeps them all |
| CleaningText.RemoveStopwordsIdempotent | dimensionality-reduction/feedback_cleaning.py:60-63 | with a tokenizer that splits the joined text back, removing stopwords twice is removing them once |
| CleaningText.SplitRetokenizes | dimensionality-reduction/feedback_cleaning.py:60-63 | the whitespace split is such a tokenizer |
| SampleReviews.Project | sample_reviews.py:54-63 | the six kept columns keep the row's class |
| SampleReviews.SortedSample | sample_reviews.py:48-51 | the sorted sample is a permutation of the per-class draws, sorted by class |
| SampleReviews.DrawPerClass | sample_reviews.py:30-42 | the loop's frames concatenate to min(5, n) rows of each class in class order; the list is empty iff no class has rows |
| SampleReviews.SampleByClass | sample_reviews.py:30-63 | the script's result is the specification `Sampling`: the error when nothing was sampled, else the sorted, projected draws |
| SampleReviews.ClassesDistinct | sample_reviews.py:31 | the three classes are distinct |
| SampleReviews.ClassOrder | sample_reviews.py:51 | in string order Negative < Neutral < Positive |
| SampleReviews.SamplingFails | sample_reviews.py:44-45 | the error is raised iff no row has one of the three classes, whatever the draw |
| SampleReviews.SamplingClassCounts | sample_reviews.py:31-48 | each of the three classes appears exactly min(5, its rows) times in the output; no other class appears |
| SampleReviews.SamplingMembers | sample_reviews.py:32-63 | every written row is the projection of an input row of one of the three classes |
| SampleReviews.SamplingSize | sample_reviews.py:31-48 | a written sample has between 1 and 15 rows |
| SampleReviews.SamplingOrder | sample_reviews.py:51 | Negative rows come first and Positive rows last |
| PseudoSampling.At | misc_scripts/pseudo_sampling.py:18 | the rows at the given labels, in label order |
| PseudoSampling.SplitSizes | misc_scripts/pseudo_sampling.py:15-25 | sampling fails iff there are fewer than 1000 rows; otherwise the sample has 1000 rows and the rest n - 1000, so the sizes sum to n |
| PseudoSampling.SplitPartition | misc_scripts/pseudo_sampling.py:15-18 | every row is in the sample or in the rest, never both |
| PseudoSampling.SplitRows | misc_scripts/pseudo_sampling.py:15-18 | the sample's labels are distinct rows; the rest keeps input order; each output row is the input row at its label |
| CleanReviews.DuplicatesRemoved | misc_scripts/clean-reviews.py:13 | the reported count is the number of rows whose Review was already seen |
| CleanReviews.DropDuplicatesProperties | misc_scripts/clean-reviews.py:9 | the output keeps input order, has every Review once and every input Review at least once, and keeps each first occurrence |
| CleanReviews.DropDuplicatesIdempotent | misc_scripts/clean-reviews.py:9 | de-duplicating again changes nothing and removes 0 |
| CleanReviews.DistinctReviewsKept | misc_scripts/clean-reviews.py:9 | a file with distinct Reviews loses nothing |
| Grouping.CappedSampleClassSize | sample_reviews.py:31-42 | over distinct classes, each listed class contributes min(cap, its size) rows and other classes none |
| Grouping.CappedSampleMembers | sample_reviews.py:32-41 | every sampled row is an input row of a listed class |
| Grouping.CappedSampleSize | sample_reviews.py:34 | the sample holds at most cap rows for each listed class: at most cap times the number of classes |
| Grouping.CappedSampleNonEmpty | sample_reviews.py:36-45 | a listed class with rows makes the sample non-empty |
| Grouping.GroupKeys | web-app/server/server.js:145 | the keys are strictly ascending, each row's key is listed, each listed key has rows |
| Grouping.SortBy | sample_reviews.py:51 | sort_values: a permutation sorted by key |
| Grouping.OfClass | sample_reviews.py:32 | the boolean mask keeps only rows of that class |
| Text.Lower | feedback_cleaning.py:37 | str.lower maps each character to its lower case |
| Text.Strip | pseudolabeling.py:36 | str.strip cuts a whitespace prefix and a whitespace suffix off the text and leaves no whitespace at either end |
| Text.StripUnique | pseudolabeling.py:36 | only one cut of whitespace ends leaves no whitespace at either end |
| Text.StripMeaning | pseudolabeling.py:36 | strip(s) == r iff r is s with its whitespace ends cut off and none left |
| Text.Split | feedback_cleaning.py:37 | str.split yields non-empty words without whitespace |
| Text.SplitOfLaidOut | feedback_cleaning.py:37 | whitespace, then words separated by non-empty whitespace runs, splits into exactly those words |
| Text.SplitLaysOut | feedback_cleaning.py:37 | every text is whitespace, then its split words separated by non-empty whitespace runs |
| Text.SplitMeaning | feedback_cleaning.py:37 | split(s) == ws iff ws are the maximal non-whitespace runs of s, in order |
| Text.SplitEmpty | feedback_cleaning.py:37 | split(s) is empty iff s is all whitespace |
| Text.SplitJoinSpaced | feedback_cleaning.py:55 | splitting a space-joined list of words gives the words back |
| Text.ParseInt | pseudolabeling.py:49 | int() succeeds iff the text is an optional sign and then digits with single underscores between digits; its value is the positional value of the digits, negated after '-' |
| Text.DigitStringMeaning | pseudolabeling.py:49 | the recursive digit-string grammar is the character-by-character rule: digits at both ends, digits and underscores, no two underscores in a row |
| Text.DigitsValueIsDecimal | pseudolabeling.py:49 | reading digits from the right, skipping underscores, gives their positional value |
| Text.IntLiteralChars | pseudolabeling.py:49 | a text int() accepts holds only digits, underscores and a leading sign |
| Text.ParseOneDigit | pseudolabeling.py:49 | int() of a digit is its value |
| Text.ParseTwoDigits | pseudolabeling.py:49 | int() of two digits is their value, leading zero allowed |
| Text.LessTransitive | sample_reviews.py:51 | string order is transitive |
| Text.LessTotal | sample_reviews.py:51 | string order is total |
| Seqs.DedupKeepsFirst | misc_scripts/clean-reviews.py:9 | drop_duplicates keeps the first row of each key |
| Seqs.DedupIdempotent | misc_scripts/clean-reviews.py:9 | drop_duplicates is idempotent |
| Seqs.DedupCount | data-cleaning/feedback_cleaning.py:38-42 | duplicated().sum() is the number of rows drop_duplicates removes |

## Left out

- HTTP plumbing is out of the model because it carries no rule about the data: Express routing, CORS, JSON responses, the 500 error paths, the port fallback and the SIGTERM shutdown (web-app/server/server.js:267-308).
- The `setTimeout` race between import and seeding is a timing matter. `Bootstrap` runs import, then seeding, each with the outcome of its own count query.
- Per-row insert failures and the CREATE TABLE failure are only logged by the source. Every insert succeeds in the model.
- The SQLite engine, the csv-parser stream and the debug endpoint's path and timestamp are not modelled. Parsed CSV rows are an input sequence of string maps; `strftime`, `parseFloat` and `new Date()` are parameters. `InitializeDatabase` and `Imported` take one `now` for the whole import, where the source evaluates `new Date()` once per row without a date, so rows imported at different instants share one default date.
- GROUP BY category has no ORDER BY. The model lists the groups in ascending order, which is the order SQLite's sorter produces.
- ROUND(..., 2) and `toFixed` are display rounding. Every value is an exact real, and NaN and NULL are `None`. IEEE floating point is not modelled.
- Machine learning is a foreign library and float numerics. TF-IDF, the random forest, grid search, SMOTE, the metrics, BERT, BERTopic and joblib loading are left out. `predict_proba` is a parameter assumed to return the three classes in the order Negative, Neutral, Positive, as the source's comment says.
- VADER's `polarity_scores` and NLTK's tokenizer, lemmatizer, word list and stopword list are parameters.
- Randomness (`df.sample`, `ORDER BY RANDOM()`) is a parameter: a reordering of the rows, or a permutation of row positions. The fixed `random_state=42` draw is not singled out.
- File reading and writing, prints and plots are left out. The labeling script saves the column after every review; the model keeps only the final column. A missing input file is an `Option` where the script branches on it (server CSV, labeling column).
- `input()` is a sequence of strings. When it runs out, `input()` raises EOFError; the model ends the session with `OutOfInput`.
- The React front end only renders fixed arrays, so it is out of the model.
- Strings are ASCII for `lower`, `strip`, `split` and `int()`. Unicode case mapping and whitespace are not modelled.
- Text.ParseInt: only the ASCII digits 0-9 are digits; Python's `int()` also accepts other Unicode decimal digits (fullwidth '７', Arabic-Indic '٧'), which the model rejects.
- pandas' `sort_values` uses an unstable quicksort. The model uses a stable insertion sort and claims only that the result is sorted and a permutation.
- `sort_values` puts NaN last; the model's order puts `None` first. Every sampled row has one of the three classes, so no written sample is affected.
- DataCleaning.CleanFeedback: the reported NaN and empty-string counts may count the same row twice. The model reports them as the script does and does not relate them to the rows removed. On an input without rows the script stops with a ZeroDivisionError at line 107 before writing; `CleanFeedback` returns the empty report and `RunCleaning` is the step that fails there. When no row reaches the English filter at line 65, pandas may raise a KeyError at line 80 on the empty frame; that failure is not modelled.
