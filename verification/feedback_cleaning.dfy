/**
 * The short cleaning script: rows with a missing Feedback or Rating
 * dropped, rows whose text has no English word dropped, and the lemma
 * column added. Nothing is de-duplicated.
 */
module FeedbackCleaning {
  import opened Wrappers
  import opened Numbers
  import opened Seqs
  import opened Text
  import opened CleaningText

  /** dropna(subset=['Feedback', 'Rating']) keeps these. */
  predicate HasFeedbackAndRating(r: Review) { r.feedback.Some? && r.rating.Some? }

  function IsEnglish(lexicon: set<string>): Review -> bool {
    (r: Review) => ContainsEnglishWord(AsText(r.feedback), lexicon)
  }

  function EnglishRows(rows: seq<Review>, lexicon: set<string>): seq<Review> {
    Filter(Filter(rows, HasFeedbackAndRating), IsEnglish(lexicon))
  }

  datatype LemRecord = LemRecord(source: Review, feedback: string, lemFeedback: string)

  function Record(r: Review, tokenize: string -> seq<string>, lemmatize: string -> string): LemRecord {
    var text := AsText(r.feedback);
    LemRecord(r, text, LemmatizeText(text, tokenize, lemmatize))
  }

  function SourceOf(c: LemRecord): Review { c.source }

  /** The frame the script writes. */
  function CleanFeedback(rows: seq<Review>, lexicon: set<string>,
                         tokenize: string -> seq<string>, lemmatize: string -> string): (out: seq<LemRecord>)
    ensures |out| == |EnglishRows(rows, lexicon)|
    ensures forall i :: 0 <= i < |out| ==> out[i].source == EnglishRows(rows, lexicon)[i]
  {
    Map(EnglishRows(rows, lexicon), (r: Review) => Record(r, tokenize, lemmatize))
  }

  /** An input row is written exactly when it has a Feedback, a Rating and
      an English word. */
  lemma EnglishRowsMembership(rows: seq<Review>, lexicon: set<string>, r: Review)
    ensures r in EnglishRows(rows, lexicon) <==>
      r in rows && r.feedback.Some? && r.rating.Some? && ContainsEnglishWord(r.feedback.value, lexicon)
  {
    FilterMembership(rows, HasFeedbackAndRating, r);
    FilterMembership(Filter(rows, HasFeedbackAndRating), IsEnglish(lexicon), r);
  }

  /**
   * Every written record comes from a row with a Feedback and a Rating
   * whose text has an English word, its lem_feedback is that text's
   * lemmas, and the records keep the input order.
   */
  lemma CleanFeedbackProperties(rows: seq<Review>, lexicon: set<string>,
                                tokenize: string -> seq<string>, lemmatize: string -> string)
    ensures var out := CleanFeedback(rows, lexicon, tokenize, lemmatize);
      && IsSubseq(Map(out, SourceOf), rows)
      && forall c :: c in out ==>
           && c.source in rows && c.source.feedback.Some? && c.source.rating.Some?
           && c.feedback == c.source.feedback.value
           && ContainsEnglishWord(c.feedback, lexicon)
           && c.lemFeedback == LemmatizeText(c.feedback, tokenize, lemmatize)
  {
    var kept := EnglishRows(rows, lexicon);
    var out := CleanFeedback(rows, lexicon, tokenize, lemmatize);
    assert Map(out, SourceOf) == kept;
    FilterIsSubseq(rows, HasFeedbackAndRating);
    FilterIsSubseq(Filter(rows, HasFeedbackAndRating), IsEnglish(lexicon));
    IsSubseqTransitive(kept, Filter(rows, HasFeedbackAndRating), rows);
    forall c | c in out
      ensures c.source in rows && c.source.feedback.Some? && c.source.rating.Some?
      ensures c.feedback == c.source.feedback.value
      ensures ContainsEnglishWord(c.feedback, lexicon)
      ensures c.lemFeedback == LemmatizeText(c.feedback, tokenize, lemmatize)
    {
      var k :| 0 <= k < |out| && out[k] == c;
      assert c == Record(kept[k], tokenize, lemmatize) && kept[k] in kept;
      EnglishRowsMembership(rows, lexicon, kept[k]);
    }
  }

  /** Duplicates survive: a row that passes, given twice, is written twice. */
  lemma DuplicatesSurvive(r: Review, lexicon: set<string>,
                          tokenize: string -> seq<string>, lemmatize: string -> string)
    requires r.feedback.Some? && r.rating.Some? && ContainsEnglishWord(r.feedback.value, lexicon)
    ensures CleanFeedback([r, r], lexicon, tokenize, lemmatize)
      == [Record(r, tokenize, lemmatize), Record(r, tokenize, lemmatize)]
  {
    FilterAll([r, r], HasFeedbackAndRating);
    FilterAll([r, r], IsEnglish(lexicon));
    var out := CleanFeedback([r, r], lexicon, tokenize, lemmatize);
    assert EnglishRows([r, r], lexicon) == [r, r];
    assert out == Map([r, r], (x: Review) => Record(x, tokenize, lemmatize));
  }
}
