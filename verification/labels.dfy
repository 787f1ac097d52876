/** The three sentiment classes the scripts name, and their order. */
module Labels {

  datatype Sentiment = Negative | Neutral | Positive {
    /** The class as the scripts spell it: 'Negative', 'Neutral', 'Positive'. */
    function Name(): string {
      match this
      case Negative => "Negative"
      case Neutral => "Neutral"
      case Positive => "Positive"
    }

    /** Negative < Neutral < Positive. */
    function Rank(): nat {
      match this
      case Negative => 0
      case Neutral => 1
      case Positive => 2
    }
  }

  /** Distinct classes have distinct names. */
  lemma NamesDistinct(a: Sentiment, b: Sentiment)
    ensures a.Name() == b.Name() <==> a == b
  {
  }

  /** A real number is a whole number. */
  predicate IsWhole(x: real) {
    x == x.Floor as real
  }
}
