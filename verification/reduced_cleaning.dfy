/**
 * The cleaning script of the dimensionality-reduction experiment: no row
 * is dropped for missing values (a NaN Feedback becomes the text "nan"),
 * rows without an English word are dropped, and the lemma column and the
 * stopword-free column are added.
 */
module ReducedFeedbackCleaning {
  import opened Wrappers
  import opened Seqs
  import opened Text
  import opened CleaningText

  function IsEnglish(lexicon: set<string>): Review -> bool {
    (r: Review) => ContainsEnglishWord(AsText(r.feedback), lexicon)
  }

  function EnglishRows(rows: seq<Review>, lexicon: set<string>): seq<Review> {
    Filter(rows, IsEnglish(lexicon))
  }

  datatype PreppedRecord = PreppedRecord(source: Review, feedback: string, lemFeedback: string, feedbackPrepped: string)

  function Record(r: Review, tokenize: string -> seq<string>, lemmatize: string -> string,
                  stopwords: set<string>): PreppedRecord {
    var text := AsText(r.feedback);
    var lem := LemmatizeText(text, tokenize, lemmatize);
    PreppedRecord(r, text, lem, RemoveStopwords(lem, tokenize, stopwords))
  }

  function SourceOf(c: PreppedRecord): Review { c.source }

  /** The frame the script writes. */
  function CleanFeedback(rows: seq<Review>, lexicon: set<string>, tokenize: string -> seq<string>,
                         lemmatize: string -> string, stopwords: set<string>): (out: seq<PreppedRecord>)
    ensures |out| == |EnglishRows(rows, lexicon)|
    ensures forall i :: 0 <= i < |out| ==> out[i].source == EnglishRows(rows, lexicon)[i]
  {
    Map(EnglishRows(rows, lexicon), (r: Review) => Record(r, tokenize, lemmatize, stopwords))
  }

  /**
   * The written records keep the input order and are exactly the rows
   * whose text (NaN read as "nan") has an English word; each carries that
   * text's lemmas, and the lemmas' tokens that are not stopwords, in order.
   */
  lemma CleanFeedbackProperties(rows: seq<Review>, lexicon: set<string>, tokenize: string -> seq<string>,
                                lemmatize: string -> string, stopwords: set<string>)
    ensures var out := CleanFeedback(rows, lexicon, tokenize, lemmatize, stopwords);
      && IsSubseq(Map(out, SourceOf), rows)
      && (forall r :: r in Map(out, SourceOf) <==> r in rows && ContainsEnglishWord(AsText(r.feedback), lexicon))
      && forall c :: c in out ==>
           && c.feedback == AsText(c.source.feedback)
           && c.lemFeedback == LemmatizeText(c.feedback, tokenize, lemmatize)
           && c.feedbackPrepped == JoinSpaced(KeptTokens(tokenize(c.lemFeedback), stopwords))
  {
    var kept := EnglishRows(rows, lexicon);
    var out := CleanFeedback(rows, lexicon, tokenize, lemmatize, stopwords);
    assert Map(out, SourceOf) == kept;
    FilterIsSubseq(rows, IsEnglish(lexicon));
    forall r ensures r in kept <==> r in rows && ContainsEnglishWord(AsText(r.feedback), lexicon) {
      FilterMembership(rows, IsEnglish(lexicon), r);
    }
  }

  /** A NaN Feedback is kept exactly when "nan" itself is in the word list. */
  lemma NanFeedbackKept(r: Review, lexicon: set<string>)
    requires r.feedback.None?
    ensures IsEnglish(lexicon)(r) <==> "nan" in lexicon
  {
    assert AsText(r.feedback) == "nan";
    assert Lower("nan") == "nan";
    assert IsWord("nan");
    SplitWord("nan", "");
    assert "nan" + "" == "nan";
    var ws := Split(Lower("nan"));
    assert ws == ["nan"];
    if "nan" in lexicon {
      assert ws[0] in lexicon;
    }
  }

  /** The rows the English filter drops and the rows it keeps make up the input. */
  lemma NonEnglishCount(rows: seq<Review>, lexicon: set<string>)
    ensures |EnglishRows(rows, lexicon)| + Count(rows, (r: Review) => !IsEnglish(lexicon)(r)) == |rows|
  {
    FilterComplement(rows, IsEnglish(lexicon), (r: Review) => !IsEnglish(lexicon)(r));
  }
}
