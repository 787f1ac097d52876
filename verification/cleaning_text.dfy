/**
 * What the three feedback-cleaning scripts share: the feedback row, pandas'
 * `astype(str)` of a text cell, `contains_english_word`, `lemmatize_text`
 * and `remove_stopwords`. NLTK's word list, stopword list, tokenizer and
 * lemmatizer are parameters.
 */
module CleaningText {
  import opened Wrappers
  import opened Numbers
  import opened Seqs
  import opened Text

  /** A row of the tab-separated feedback file: the Feedback text, the
      Rating, and the file's other columns; a `None` cell is NaN. */
  datatype Review = Review(feedback: Option<string>, rating: Num, others: seq<Option<string>>)

  /** `astype(str)` of a Feedback cell: NaN becomes the text "nan". */
  function AsText(cell: Option<string>): (s: string)
    ensures cell.Some? ==> s == cell.value
    ensures cell.None? ==> s == "nan"
  {
    cell.GetOr("nan")
  }

  /** contains_english_word: some word of the lowercased whitespace split is
      in the lexicon (a non-empty set intersection). */
  predicate ContainsEnglishWord(text: string, lexicon: set<string>) {
    exists i :: 0 <= i < |Split(Lower(text))| && Split(Lower(text))[i] in lexicon
  }

  /** A text none of whose words is in the lexicon is rejected; one word of
      the lexicon, wherever it stands, is enough. */
  lemma ContainsEnglishWordSplit(text: string, lexicon: set<string>)
    ensures ContainsEnglishWord(text, lexicon) <==>
      exists w :: w in Split(Lower(text)) && w in lexicon
  {
  }

  /** An empty text has no words, so it is never English. */
  lemma EmptyIsNotEnglish(lexicon: set<string>)
    ensures !ContainsEnglishWord("", lexicon)
  {
    assert Lower("") == "";
  }

  /** lemmatize_text: each token's lemma, lowercased, joined by single spaces. */
  function LemmatizeText(text: string, tokenize: string -> seq<string>, lemmatize: string -> string): string {
    JoinSpaced(Lemmas(tokenize(text), lemmatize))
  }

  function Lemmas(tokens: seq<string>, lemmatize: string -> string): (r: seq<string>)
    ensures |r| == |tokens|
    ensures forall i :: 0 <= i < |tokens| ==> r[i] == Lower(lemmatize(tokens[i]))
  {
    Map(tokens, (t: string) => Lower(lemmatize(t)))
  }

  lemma LowerWord(w: string)
    requires IsWord(w)
    ensures IsWord(Lower(w))
  {
  }

  lemma {:induction false} JoinSpacedLower(ws: seq<string>)
    requires forall i :: 0 <= i < |ws| ==> IsLower(ws[i])
    ensures IsLower(JoinSpaced(ws))
    decreases |ws|
  {
    if |ws| > 1 {
      JoinSpacedLower(ws[1..]);
      var t := JoinSpaced(ws[1..]);
      var j := ws[0] + " " + t;
      forall i | 0 <= i < |j| ensures !('A' <= j[i] <= 'Z') {
        if i < |ws[0]| {
          assert j[i] == ws[0][i];
        } else if i > |ws[0]| {
          assert j[i] == t[i - |ws[0]| - 1];
        }
      }
    }
  }

  /**
   * The lemma column is lower case, and when every lemma is a single word
   * splitting the column on whitespace gives back exactly the lowercased
   * lemmas, in token order.
   */
  lemma LemmatizeTextProperties(text: string, tokenize: string -> seq<string>, lemmatize: string -> string)
    ensures IsLower(LemmatizeText(text, tokenize, lemmatize))
    ensures (forall t :: t in tokenize(text) ==> IsWord(lemmatize(t))) ==>
      Split(LemmatizeText(text, tokenize, lemmatize)) == Lemmas(tokenize(text), lemmatize)
  {
    var ls := Lemmas(tokenize(text), lemmatize);
    forall i | 0 <= i < |ls| ensures IsLower(ls[i]) {
      LowerIsLower(lemmatize(tokenize(text)[i]));
    }
    JoinSpacedLower(ls);
    if forall t :: t in tokenize(text) ==> IsWord(lemmatize(t)) {
      forall i | 0 <= i < |ls| ensures IsWord(ls[i]) {
        assert tokenize(text)[i] in tokenize(text);
        LowerWord(lemmatize(tokenize(text)[i]));
      }
      SplitJoinSpaced(ls);
    }
  }

  /** The stopword test: the token lowercased is not in the list. */
  function NotStopword(stopwords: set<string>): string -> bool {
    (w: string) => Lower(w) !in stopwords
  }

  /** The tokens remove_stopwords keeps, in their order. */
  function KeptTokens(tokens: seq<string>, stopwords: set<string>): (r: seq<string>)
    ensures IsSubseq(r, tokens)
    ensures forall w :: w in r <==> w in tokens && Lower(w) !in stopwords
  {
    StopwordFilter(tokens, stopwords);
    Filter(tokens, NotStopword(stopwords))
  }

  lemma StopwordFilter(tokens: seq<string>, stopwords: set<string>)
    ensures IsSubseq(Filter(tokens, NotStopword(stopwords)), tokens)
    ensures forall w :: w in Filter(tokens, NotStopword(stopwords)) <==> w in tokens && Lower(w) !in stopwords
  {
    forall w ensures w in Filter(tokens, NotStopword(stopwords)) <==> w in tokens && Lower(w) !in stopwords {
      FilterMembership(tokens, NotStopword(stopwords), w);
    }
    FilterIsSubseq(tokens, NotStopword(stopwords));
  }

  /** remove_stopwords */
  function RemoveStopwords(text: string, tokenize: string -> seq<string>, stopwords: set<string>): string {
    JoinSpaced(KeptTokens(tokenize(text), stopwords))
  }

  /** Filtering the tokens a second time removes nothing more. */
  lemma KeptTokensIdempotent(tokens: seq<string>, stopwords: set<string>)
    ensures KeptTokens(KeptTokens(tokens, stopwords), stopwords) == KeptTokens(tokens, stopwords)
  {
    FilterIdempotent(tokens, NotStopword(stopwords));
  }

  /**
   * With a tokenizer that splits a space-joined text back into its tokens,
   * removing stopwords twice is removing them once; the whitespace split is
   * such a tokenizer for texts made of words.
   */
  lemma RemoveStopwordsIdempotent(text: string, tokenize: string -> seq<string>, stopwords: set<string>)
    requires tokenize(RemoveStopwords(text, tokenize, stopwords)) == KeptTokens(tokenize(text), stopwords)
    ensures RemoveStopwords(RemoveStopwords(text, tokenize, stopwords), tokenize, stopwords)
      == RemoveStopwords(text, tokenize, stopwords)
  {
    KeptTokensIdempotent(tokenize(text), stopwords);
  }

  /** The whitespace split meets that requirement. */
  lemma SplitRetokenizes(text: string, stopwords: set<string>)
    ensures Split(RemoveStopwords(text, Split, stopwords)) == KeptTokens(Split(text), stopwords)
  {
    var kept := KeptTokens(Split(text), stopwords);
    forall i | 0 <= i < |kept| ensures IsWord(kept[i]) {
      assert kept[i] in kept;
      var j :| 0 <= j < |Split(text)| && Split(text)[j] == kept[i];
    }
    SplitJoinSpaced(kept);
  }
}
