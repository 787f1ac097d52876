/**
 * VADER labelling, in the current script and in the archived one: the
 * compound score (VADER's `polarity_scores`, a parameter here) is labelled
 * positive above 0.05, negative below -0.05, neutral in between.
 */
module VaderSentiment {
  import opened Wrappers

  /** A cell of feedback_prepped as read_csv delivers it: text, or something
      else (NaN for an empty or missing cell). */
  datatype Cell = Text(s: string) | NotText

  const Threshold: real := 0.05

  /** The `sentiment_label` lambda. */
  function SentimentLabel(x: real): (l: string)
    ensures l == "positive" <==> x > Threshold
    ensures l == "negative" <==> x < -Threshold
    ensures l == "neutral" <==> -Threshold <= x <= Threshold
  {
    if x > Threshold then "positive" else if x < -Threshold then "negative" else "neutral"
  }

  /** Negating the score swaps positive and negative and keeps neutral. */
  lemma NegationSymmetry(x: real)
    ensures SentimentLabel(-x) == match SentimentLabel(x)
      case "positive" => "negative"
      case "negative" => "positive"
      case other => other
  {
  }

  /**
   * analyze_sentiment: score each prepared cell with `compound`, then label
   * it. `polarity_scores` raises on a cell that is not text (the NaN that an
   * empty `feedback_prepped` reads back as), so the script then fails; the
   * failure carries the position of the first such cell.
   */
  function AnalyzeSentiment(cells: seq<Cell>, compound: string -> real): (r: Result<seq<(real, string)>, nat>)
    ensures r.Success? <==> forall i :: 0 <= i < |cells| ==> cells[i].Text?
    ensures r.Success? ==> |r.value| == |cells| && forall i :: 0 <= i < |cells| ==>
      r.value[i].0 == compound(cells[i].s) && r.value[i].1 == SentimentLabel(r.value[i].0)
    ensures r.Failure? ==>
      && r.error < |cells| && cells[r.error].NotText?
      && forall i :: 0 <= i < r.error ==> cells[i].Text?
    decreases |cells|
  {
    if cells == [] then Success([])
    else match cells[0]
      case NotText => Failure(0)
      case Text(t) =>
        match AnalyzeSentiment(cells[1..], compound)
        case Failure(k) => Failure(k + 1)
        case Success(rest) => Success([(compound(t), SentimentLabel(compound(t)))] + rest)
  }
}

module ArchiveVaderSentiment {
  import opened Wrappers
  import opened Seqs
  import VaderSentiment

  type Cell = VaderSentiment.Cell

  /** get_sentiment_score: the compound score of a string; 0 for anything else,
      without consulting the analyzer. */
  function SentimentScore(cell: Cell, compound: string -> real): (x: real)
    ensures cell.NotText? ==> x == 0.0
    ensures cell.Text? ==> x == compound(cell.s)
  {
    if cell.Text? then compound(cell.s) else 0.0
  }

  /** The archived lambda uses the same thresholds as the current one. */
  function SentimentLabel(x: real): (l: string)
    ensures l == VaderSentiment.SentimentLabel(x)
  {
    if x > 0.05 then "positive" else if x < -0.05 then "negative" else "neutral"
  }

  /** So a cell that is not text is always neutral. */
  lemma NonTextIsNeutral(compound: string -> real)
    ensures SentimentLabel(SentimentScore(VaderSentiment.NotText, compound)) == "neutral"
  {
  }

  datatype Scored = Scored(score: real, tag: string)

  /** analyze_sentiment: the two columns it adds and returns. */
  function AnalyzeSentiment(cells: seq<Cell>, compound: string -> real): (r: seq<Scored>)
    ensures |r| == |cells|
    ensures forall i :: 0 <= i < |cells| ==>
      r[i] == Scored(SentimentScore(cells[i], compound), SentimentLabel(SentimentScore(cells[i], compound)))
  {
    Map(cells, (c: Cell) => Scored(SentimentScore(c, compound), SentimentLabel(SentimentScore(c, compound))))
  }

  /** The value_counts of visualize_sentiment cover every row exactly once. */
  lemma {:induction false} LabelCountsSum(cells: seq<Cell>, compound: string -> real)
    ensures var r := AnalyzeSentiment(cells, compound);
      Count(r, (s: Scored) => s.tag == "positive") + Count(r, (s: Scored) => s.tag == "negative")
        + Count(r, (s: Scored) => s.tag == "neutral") == |cells|
    decreases |cells|
  {
    if cells != [] {
      LabelCountsSum(cells[1..], compound);
      assert AnalyzeSentiment(cells, compound)[1..] == AnalyzeSentiment(cells[1..], compound);
    }
  }

  /** Where the current script succeeds, that is on text-only cells, its two
      columns are the archived script's; where it fails the archived one still
      labels every row. */
  lemma {:induction false} AgreesWithCurrent(cells: seq<Cell>, compound: string -> real)
    ensures var cur, arch := VaderSentiment.AnalyzeSentiment(cells, compound), AnalyzeSentiment(cells, compound);
      && |arch| == |cells|
      && (cur.Success? ==> forall i :: 0 <= i < |cells| ==>
            cur.value[i].0 == arch[i].score && cur.value[i].1 == arch[i].tag)
      && (cur.Failure? ==> arch[cur.error].tag == "neutral")
  {
    var cur := VaderSentiment.AnalyzeSentiment(cells, compound);
    if cur.Failure? {
      NonTextIsNeutral(compound);
      assert cells[cur.error] == VaderSentiment.NotText;
    }
  }
}
