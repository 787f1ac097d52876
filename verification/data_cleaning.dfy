/**
 * The full cleaning pipeline of the feedback file: missing and 'nan'
 * feedback and missing ratings removed, duplicate feedback dropped (first
 * kept), the text stripped, rows without an English word dropped, the
 * lemma columns added, and a final pass over NaN cells and 'nan' lemmas,
 * with the counts the script reports.
 */
module DataCleaning {
  import opened Wrappers
  import opened Numbers
  import opened Seqs
  import opened Text
  import opened CleaningText

  /** `Feedback.str.lower() == 'nan'`, false on a NaN cell. */
  predicate IsNanText(cell: Option<string>) {
    cell.Some? && Lower(cell.value) == "nan"
  }

  predicate HasFeedback(r: Review) { r.feedback.Some? }
  predicate NotNanText(r: Review) { !IsNanText(r.feedback) }
  predicate HasRating(r: Review) { r.rating.Some? }

  /** The three removals, in the script's order. */
  function MissingRemoved(rows: seq<Review>): seq<Review> {
    Filter(Filter(Filter(rows, HasFeedback), NotNanText), HasRating)
  }

  function FeedbackKey(r: Review): Option<string> { r.feedback }

  /** drop_duplicates(subset=['Feedback']), first occurrence kept. */
  function Deduplicated(rows: seq<Review>): seq<Review> {
    Dedup(MissingRemoved(rows), FeedbackKey)
  }

  /** `astype(str).str.strip()` of the Feedback cell. */
  function StrippedText(r: Review): string {
    Strip(AsText(r.feedback))
  }

  function IsEnglish(lexicon: set<string>): Review -> bool {
    (r: Review) => ContainsEnglishWord(StrippedText(r), lexicon)
  }

  /** `filtered_data`: the de-duplicated rows whose stripped text has an English word. */
  function EnglishRows(rows: seq<Review>, lexicon: set<string>): seq<Review> {
    Filter(Deduplicated(rows), IsEnglish(lexicon))
  }

  /** The row's lem_feedback. */
  function LemOf(r: Review, tokenize: string -> seq<string>, lemmatize: string -> string): string {
    LemmatizeText(StrippedText(r), tokenize, lemmatize)
  }

  /** The number of NaN cells of a row; Feedback and Rating have none by
      now and the two lemma columns are texts. */
  function NanCells(r: Review): nat {
    Count(r.others, (c: Option<string>) => c.None?)
  }

  function TotalNanCells(rows: seq<Review>): nat
    decreases |rows|
  {
    if rows == [] then 0 else NanCells(rows[0]) + TotalNanCells(rows[1..])
  }

  /** Kept by the final pass: no NaN cell (dropna) and a lem_feedback that
      is not 'nan' once lowercased. */
  function FinalKeep(tokenize: string -> seq<string>, lemmatize: string -> string): Review -> bool {
    (r: Review) => NanCells(r) == 0 && Lower(LemOf(r, tokenize, lemmatize)) != "nan"
  }

  function IsEmptyLem(tokenize: string -> seq<string>, lemmatize: string -> string): Review -> bool {
    (r: Review) => Strip(LemOf(r, tokenize, lemmatize)) == ""
  }

  /** The rows the final pass keeps. */
  function FinalRows(rows: seq<Review>, lexicon: set<string>,
                     tokenize: string -> seq<string>, lemmatize: string -> string): seq<Review> {
    Filter(EnglishRows(rows, lexicon), FinalKeep(tokenize, lemmatize))
  }

  /** A cleaned record: the row it comes from and its three text columns. */
  datatype CleanRecord = CleanRecord(source: Review, feedback: string, lemFeedback: string, feedbackPrepped: string)

  function Record(r: Review, tokenize: string -> seq<string>, lemmatize: string -> string): CleanRecord {
    var lem := LemOf(r, tokenize, lemmatize);
    CleanRecord(r, StrippedText(r), lem, lem)
  }

  function SourceOf(c: CleanRecord): Review { c.source }

  /** What the script reports, and the file it writes. */
  datatype CleaningReport = CleaningReport(
    initialCount: nat,
    missingFeedback: nat, stringNan: nat, missingRatings: nat,
    duplicateCount: nat, nonEnglishCount: nat,
    finalNanCount: nat, finalEmptyStrings: nat,
    records: seq<CleanRecord>, removed: int)

  function CleanFeedback(rows: seq<Review>, lexicon: set<string>,
                         tokenize: string -> seq<string>, lemmatize: string -> string): (rep: CleaningReport)
    ensures rep.initialCount == |rows|
    ensures rep.removed == |rows| - |rep.records|
    ensures |rep.records| <= |rows|
  {
    var english := EnglishRows(rows, lexicon);
    var final := FinalRows(rows, lexicon, tokenize, lemmatize);
    DedupCount(MissingRemoved(rows), FeedbackKey, {});
    CleaningReport(
      |rows|,
      Count(rows, (r: Review) => !HasFeedback(r)),
      Count(rows, (r: Review) => IsNanText(r.feedback)),
      Count(rows, (r: Review) => !HasRating(r)),
      DuplicatedFrom(MissingRemoved(rows), FeedbackKey, {}),
      |Deduplicated(rows)| - |english|,
      TotalNanCells(english),
      Count(english, IsEmptyLem(tokenize, lemmatize)),
      Map(final, (r: Review) => Record(r, tokenize, lemmatize)),
      |rows| - |final|)
  }

  /** "Percentage of data retained": the written records as a share of the
      input rows. */
  function Retained(rep: CleaningReport): real
    requires rep.initialCount > 0
  {
    (|rep.records| as real / rep.initialCount as real) * 100.0
  }

  /**
   * The script run to its end: on an input without rows the retained
   * percentage divides by zero, the script raises ZeroDivisionError and writes
   * nothing (`None`); otherwise it writes the records of its report, having
   * kept a percentage between 0 and 100.
   */
  function RunCleaning(rows: seq<Review>, lexicon: set<string>,
                       tokenize: string -> seq<string>, lemmatize: string -> string): (r: Option<CleaningReport>)
    ensures r.None? <==> rows == []
    ensures r.Some? ==> r.value == CleanFeedback(rows, lexicon, tokenize, lemmatize)
    ensures r.Some? ==> r.value.initialCount > 0 && 0.0 <= Retained(r.value) <= 100.0
  {
    if rows == [] then None
    else
      var rep := CleanFeedback(rows, lexicon, tokenize, lemmatize);
      RetainedBound(|rep.records|, rep.initialCount);
      Some(rep)
  }

  lemma RetainedBound(kept: nat, initial: nat)
    requires 0 < initial && kept <= initial
    ensures 0.0 <= (kept as real / initial as real) * 100.0 <= 100.0
  {
    assert kept as real / initial as real <= 1.0;
  }

  /** The rows left after the removals are exactly the input rows with a
      Feedback that is neither NaN nor 'nan' and a Rating. */
  lemma MissingRemovedMembership(rows: seq<Review>, r: Review)
    ensures r in MissingRemoved(rows) <==>
      r in rows && r.feedback.Some? && Lower(r.feedback.value) != "nan" && r.rating.Some?
  {
    FilterMembership(rows, HasFeedback, r);
    FilterMembership(Filter(rows, HasFeedback), NotNanText, r);
    FilterMembership(Filter(Filter(rows, HasFeedback), NotNanText), HasRating, r);
  }

  /** Each stage deletes rows and keeps the order of the rest. */
  lemma StagesAreSubsequences(rows: seq<Review>, lexicon: set<string>)
    ensures IsSubseq(MissingRemoved(rows), rows)
    ensures IsSubseq(Deduplicated(rows), rows)
    ensures IsSubseq(EnglishRows(rows, lexicon), rows)
  {
    var a := Filter(rows, HasFeedback);
    var b := Filter(a, NotNanText);
    FilterIsSubseq(rows, HasFeedback);
    FilterIsSubseq(a, NotNanText);
    FilterIsSubseq(b, HasRating);
    IsSubseqTransitive(b, a, rows);
    IsSubseqTransitive(MissingRemoved(rows), b, rows);
    DedupIsSubseq(MissingRemoved(rows), FeedbackKey, {});
    IsSubseqTransitive(Deduplicated(rows), MissingRemoved(rows), rows);
    FilterIsSubseq(Deduplicated(rows), IsEnglish(lexicon));
    IsSubseqTransitive(EnglishRows(rows, lexicon), Deduplicated(rows), rows);
  }

  lemma {:induction false} RecordSources(rs: seq<Review>, tokenize: string -> seq<string>, lemmatize: string -> string)
    ensures Map(Map(rs, (r: Review) => Record(r, tokenize, lemmatize)), SourceOf) == rs
  {
  }

  /** The written records keep the input order, and no two come from rows
      with the same Feedback. */
  lemma CleanFeedbackOrder(rows: seq<Review>, lexicon: set<string>,
                           tokenize: string -> seq<string>, lemmatize: string -> string)
    ensures var rep := CleanFeedback(rows, lexicon, tokenize, lemmatize);
      && IsSubseq(Map(rep.records, SourceOf), rows)
      && (forall i, j :: 0 <= i < j < |rep.records| ==>
            rep.records[i].source.feedback != rep.records[j].source.feedback)
  {
    var english := EnglishRows(rows, lexicon);
    var final := FinalRows(rows, lexicon, tokenize, lemmatize);
    RecordSources(final, tokenize, lemmatize);
    StagesAreSubsequences(rows, lexicon);
    FilterIsSubseq(english, FinalKeep(tokenize, lemmatize));
    IsSubseqTransitive(final, english, rows);
    DedupKeys(MissingRemoved(rows), FeedbackKey, {});
    FilterDistinctKeys(Deduplicated(rows), IsEnglish(lexicon), FeedbackKey);
    FilterDistinctKeys(english, FinalKeep(tokenize, lemmatize), FeedbackKey);
    var recs := CleanFeedback(rows, lexicon, tokenize, lemmatize).records;
    forall i, j | 0 <= i < j < |recs| ensures recs[i].source.feedback != recs[j].source.feedback {
      assert recs[i].source == final[i] && recs[j].source == final[j];
    }
  }

  /**
   * Each written record comes from an input row with a present, non-'nan'
   * Feedback and a Rating; its stripped text has an English word; it has
   * no NaN cell and no 'nan' lemma column; and its columns are the stripped
   * text and its lemmas (twice).
   */
  lemma CleanFeedbackRecord(rows: seq<Review>, lexicon: set<string>,
                            tokenize: string -> seq<string>, lemmatize: string -> string, c: CleanRecord)
    requires c in CleanFeedback(rows, lexicon, tokenize, lemmatize).records
    ensures c.source in rows
    ensures c.source.feedback.Some? && Lower(c.source.feedback.value) != "nan" && c.source.rating.Some?
    ensures c.feedback == Strip(c.source.feedback.value)
    ensures ContainsEnglishWord(c.feedback, lexicon)
    ensures NanCells(c.source) == 0
    ensures c.lemFeedback == LemmatizeText(c.feedback, tokenize, lemmatize)
    ensures Lower(c.lemFeedback) != "nan" && c.feedbackPrepped == c.lemFeedback
  {
    var english := EnglishRows(rows, lexicon);
    var final := FinalRows(rows, lexicon, tokenize, lemmatize);
    var recs := CleanFeedback(rows, lexicon, tokenize, lemmatize).records;
    var k :| 0 <= k < |recs| && recs[k] == c;
    var r := final[k];
    assert c == Record(r, tokenize, lemmatize);
    assert r in final;
    FilterMembership(english, FinalKeep(tokenize, lemmatize), r);
    FilterMembership(Deduplicated(rows), IsEnglish(lexicon), r);
    DedupMembers(MissingRemoved(rows), r);
    MissingRemovedMembership(rows, r);
  }

  lemma DedupMembers(rows: seq<Review>, r: Review)
    requires r in Dedup(rows, FeedbackKey)
    ensures r in rows
  {
    DedupIsSubseq(rows, FeedbackKey, {});
    SubseqMember(Dedup(rows, FeedbackKey), rows, r);
  }

  /**
   * The counts add up: the duplicate count is the number of rows
   * de-duplication dropped, the non-English count the number the English
   * filter dropped, and the total removed is what the missing-value
   * removal, de-duplication, the English filter and the final pass dropped
   * together.
   */
  lemma CleanFeedbackCounts(rows: seq<Review>, lexicon: set<string>,
                            tokenize: string -> seq<string>, lemmatize: string -> string)
    ensures var rep := CleanFeedback(rows, lexicon, tokenize, lemmatize);
      && rep.duplicateCount == |MissingRemoved(rows)| - |Deduplicated(rows)|
      && rep.nonEnglishCount == Count(Deduplicated(rows), (r: Review) => !IsEnglish(lexicon)(r))
      && rep.removed == (|rows| - |MissingRemoved(rows)|) + rep.duplicateCount + rep.nonEnglishCount
           + (|EnglishRows(rows, lexicon)| - |Filter(EnglishRows(rows, lexicon), FinalKeep(tokenize, lemmatize))|)
      && 0 <= rep.removed
  {
    DedupCount(MissingRemoved(rows), FeedbackKey, {});
    FilterComplement(Deduplicated(rows), IsEnglish(lexicon), (r: Review) => !IsEnglish(lexicon)(r));
  }

  /** An empty lem_feedback is counted but not removed. */
  lemma EmptyLemIsKept(rows: seq<Review>, lexicon: set<string>,
                       tokenize: string -> seq<string>, lemmatize: string -> string, r: Review)
    requires r in EnglishRows(rows, lexicon) && NanCells(r) == 0 && LemOf(r, tokenize, lemmatize) == ""
    ensures Record(r, tokenize, lemmatize) in CleanFeedback(rows, lexicon, tokenize, lemmatize).records
  {
    var english := EnglishRows(rows, lexicon);
    var final := FinalRows(rows, lexicon, tokenize, lemmatize);
    assert Lower("") == "";
    FilterMembership(english, FinalKeep(tokenize, lemmatize), r);
    var k :| 0 <= k < |final| && final[k] == r;
  }

  /** The final pass drops no more rows than there are NaN cells and 'nan' lemmas. */
  lemma {:induction false} FinalPassBound(rows: seq<Review>, tokenize: string -> seq<string>, lemmatize: string -> string)
    ensures |rows| - |Filter(rows, FinalKeep(tokenize, lemmatize))|
      <= TotalNanCells(rows) + Count(rows, (r: Review) => Lower(LemOf(r, tokenize, lemmatize)) == "nan")
    decreases |rows|
  {
    if rows != [] {
      FinalPassBound(rows[1..], tokenize, lemmatize);
    }
  }

  /**
   * De-duplication compares the unstripped text: "good" and "good " both
   * survive it, and stripping then makes their Feedback equal.
   */
  lemma StrippingAfterDedup()
    ensures var rows := [Review(Some("good"), Some(5.0), []), Review(Some("good "), Some(4.0), [])];
      && Deduplicated(rows) == rows
      && StrippedText(rows[0]) == StrippedText(rows[1]) == "good"
  {
    var rows := [Review(Some("good"), Some(5.0), []), Review(Some("good "), Some(4.0), [])];
    assert |Lower("good")| == 4 && |Lower("good ")| == 5;
    FilterAll(rows, HasFeedback);
    FilterAll(rows, NotNanText);
    FilterAll(rows, HasRating);
    DedupDistinct(rows, FeedbackKey, {});
    assert TrimStart("good") == "good" && TrimEnd("good") == "good";
    assert TrimStart("good ") == "good ";
    assert "good "[..4] == "good";
    assert TrimEnd("good ") == "good";
  }
}
