/**
 * The labeller's answers to the labeling script's prompt and what each one
 * means.
 */
module LabelInput {
  import opened Wrappers
  import Text

  /** What one answer means once stripped. */
  datatype Command = Exit | Skip | Score(n: int) | Invalid

  /**
   * The answer's meaning: its stripped, lower-cased text 'exit' or 'quit'
   * ends the session and 'skip' moves on; otherwise int() of the stripped
   * text, when it parses and lies in range(1, 11), is the label; anything
   * else (a ValueError or a number out of range) is invalid.
   */
  function Interpret(raw: string): (c: Command)
    ensures c.Score? ==> 1 <= c.n <= 10
  {
    var answer := Text.Strip(raw);
    match Keyword(Text.Lower(answer))
      case Some(c) => c
      case None => ScoreOf(answer)
  }

  /** The words the script recognises, lower-cased. */
  function Keyword(word: string): Option<Command> {
    if word in ["exit", "quit"] then Some(Exit)
    else if word == "skip" then Some(Skip)
    else None
  }

  /** int() of the answer, kept when it lies in range(1, 11). */
  function ScoreOf(answer: string): Command {
    match Text.ParseInt(answer)
      case Some(n) => if 1 <= n <= 10 then Score(n) else Invalid
      case None => Invalid
  }

  /** The three readings of an answer, each in both directions. */
  lemma InterpretMeaning(raw: string)
    ensures var c := Interpret(raw);
      && (c == Exit <==> Text.Lower(Text.Strip(raw)) in ["exit", "quit"])
      && (c == Skip <==> Text.Lower(Text.Strip(raw)) == "skip")
      && (c.Score? <==>
            && Text.Lower(Text.Strip(raw)) !in ["exit", "quit", "skip"]
            && Text.ParseInt(Text.Strip(raw)).Some?
            && 1 <= Text.ParseInt(Text.Strip(raw)).value <= 10)
      && (c.Score? ==> c.n == Text.ParseInt(Text.Strip(raw)).value && 1 <= c.n <= 10)
  {
  }

  /** A text without whitespace at its ends is its own stripped text. */
  lemma StrippedWord(s: string)
    requires s != [] ==> !Text.IsSpace(s[0]) && !Text.IsSpace(s[|s| - 1])
    ensures Text.Strip(s) == s
  {
  }

  /** No text made of digits is one of the words. */
  lemma KeywordOfNumber(s: string)
    requires s != [] && Text.IsDigit(s[0])
    ensures Keyword(Text.Lower(s)) == None
  {
    assert Text.Lower(s)[0] == s[0];
  }

  /** int() refuses a text with a '.', so such an answer is never a score. */
  lemma FractionIsInvalid(answer: string)
    requires '.' in answer
    ensures ScoreOf(answer) == Invalid
  {
    Text.IntLiteralChars(answer);
  }

  /** An answer means what its stripped text means. */
  lemma InterpretStripped(raw: string, answer: string)
    requires Text.Strip(raw) == answer
    ensures Interpret(raw) == (match Keyword(Text.Lower(answer)) case Some(c) => c case None => ScoreOf(answer))
    ensures ScoreOf(answer) == Invalid ==> !Interpret(raw).Score?
  {
  }

}

/** Particular answers to the labeling prompt and how the script reads them. */
module LabelInputExamples {
  import opened Wrappers
  import Text
  import opened LabelInput

  /** A single digit 1-9 is that label. */
  lemma InterpretOneDigit(d: char)
    requires '1' <= d <= '9'
    ensures Interpret([d]) == Score(Text.DigitValue(d))
  {
    StrippedWord([d]);
    KeywordOfNumber([d]);
    Text.ParseOneDigit(d);
  }

  /** Two digits are a label when their value is 10 or less and not 0:
      "07" and "10" are, "00" and "11" are not. */
  lemma InterpretTwoDigits(a: char, b: char)
    requires Text.IsDigit(a) && Text.IsDigit(b)
    ensures var v := 10 * Text.DigitValue(a) + Text.DigitValue(b);
      Interpret([a, b]) == if 1 <= v <= 10 then Score(v) else Invalid
  {
    StrippedWord([a, b]);
    KeywordOfNumber([a, b]);
    Text.ParseTwoDigits(a, b);
  }

  /** A fraction, or anything else with a '.', is never a label. */
  lemma InterpretNoFractions(raw: string)
    requires '.' in Text.Strip(raw)
    ensures !Interpret(raw).Score?
  {
    FractionIsInvalid(Text.Strip(raw));
    InterpretStripped(raw, Text.Strip(raw));
  }

  /** 'QUIT' in capitals ends the session. */
  lemma InterpretQuitUpper()
    ensures Interpret("QUIT") == Exit
  {
    assert Text.Strip("QUIT") == "QUIT" by {
      StrippedWord("QUIT");
    }
    assert Text.Lower("QUIT") == "quit";
    assert Keyword("quit") == Some(Exit);
    InterpretStripped("QUIT", "QUIT");
  }

}

/**
 * The interactive labeling script: every review whose `p_sentiment` is null
 * is shown in turn, and the labeller answers with a whole score from 1 to
 * 10, 'skip' or 'exit'/'quit'; any other answer is asked again. The
 * answers are a parameter, consumed in order.
 */
module Pseudolabeling {
  import opened Wrappers
  import opened Numbers
  import opened Seqs
  import Text
  import Labels
  import opened LabelInput

  /**
   * The first answer from position `k` on that is not invalid, with the
   * position after it; `None` when the answers run out (input() then raises
   * EOFError and the script stops).
   */
  function NextAnswer(answers: seq<Command>, k: nat): (r: Option<(Command, nat)>)
    requires k <= |answers|
    ensures r.Some? ==> r.value.0 != Invalid && k < r.value.1 <= |answers|
    ensures r.Some? ==> r.value.0 == answers[r.value.1 - 1]
    ensures r.Some? ==> forall j :: k <= j < r.value.1 - 1 ==> answers[j] == Invalid
    ensures r.None? ==> forall j :: k <= j < |answers| ==> answers[j] == Invalid
    decreases |answers| - k
  {
    if k == |answers| then None
    else if answers[k] == Invalid then NextAnswer(answers, k + 1)
    else Some((answers[k], k + 1))
  }

  /** How the session ended. */
  datatype Stop = Completed | Exited | OutOfInput

  /** The state after the session: the column, the progress counter, how it
      ended and how many answers it read. */
  datatype Outcome = Outcome(column: seq<Num>, labeled: nat, stop: Stop, used: nat)

  /** A stored label: the answer's number. */
  function Stored(n: int): Num { Some(n as real) }

  /**
   * The session over the review positions `rows`, answers read from
   * position `k`, with progress counter `labeled`.
   */
  function Session(column: seq<Num>, rows: seq<nat>, answers: seq<Command>, k: nat, labeled: nat): (o: Outcome)
    requires k <= |answers|
    requires forall i :: 0 <= i < |rows| ==> rows[i] < |column|
    ensures |o.column| == |column| && k <= o.used <= |answers|
    decreases |rows|
  {
    if rows == [] then Outcome(column, labeled, Completed, k)
    else match NextAnswer(answers, k)
      case None => Outcome(column, labeled, OutOfInput, |answers|)
      case Some((c, next)) =>
        if c == Exit then Outcome(column, labeled, Exited, next)
        else if c == Skip then Session(column, rows[1..], answers, next, labeled)
        else Session(column[rows[0] := Stored(c.n)], rows[1..], answers, next, labeled + 1)
  }

  /** `p_sentiment` as the script finds it: the column read from the file,
      or a column of nulls created on the first run. */
  function InitialColumn(existing: Option<seq<Num>>, n: nat): (c: seq<Num>)
    requires existing.Some? ==> |existing.value| == n
    ensures |c| == n
    ensures existing.None? ==> forall i :: 0 <= i < n ==> c[i].None?
    ensures existing.Some? ==> c == existing.value
  {
    match existing
    case Some(col) => col
    case None => seq(n, i => None)
  }

  /** The positions of the null cells, in order (`df[df['p_sentiment'].isnull()]`). */
  function Unlabeled(column: seq<Num>): (r: seq<nat>)
    ensures forall i :: 0 <= i < |r| ==> r[i] < |column| && column[r[i]].None?
  {
    Filter(Range(|column|), (i: nat) => i < |column| && column[i].None?)
  }

  /** The number of non-null cells. */
  function LabeledCount(column: seq<Num>): nat
    decreases |column|
  {
    if column == [] then 0
    else (if column[0].Some? then 1 else 0) + LabeledCount(column[1..])
  }

  /** The meaning of every answer, in order. */
  function Answers(inputs: seq<string>): (a: seq<Command>)
    ensures |a| == |inputs| && forall i :: 0 <= i < |inputs| ==> a[i] == Interpret(inputs[i])
  {
    Map(inputs, Interpret)
  }

  /** The whole script run on a column: the counter starts at the number of
      rows already labeled. */
  function Labeling(column: seq<Num>, inputs: seq<string>): Outcome {
    Session(column, Unlabeled(column), Answers(inputs), 0, LabeledCount(column))
  }

  /** Filling a null cell adds one to the count of labeled rows. */
  lemma {:induction false} LabeledCountFill(column: seq<Num>, i: nat, v: Num)
    requires i < |column| && column[i].None? && v.Some?
    ensures LabeledCount(column[i := v]) == LabeledCount(column) + 1
    decreases |column|
  {
    if i == 0 {
      assert column[i := v][1..] == column[1..];
    } else {
      LabeledCountFill(column[1..], i - 1, v);
      assert column[i := v][1..] == column[1..][i - 1 := v];
    }
  }

  /** The counter's start, `total_reviews - len(unlabeled_df)`: the labeled
      rows and the null rows together make up the column. */
  lemma LabeledPlusUnlabeled(column: seq<Num>)
    ensures LabeledCount(column) == |column| - |Unlabeled(column)|
  {
    NullPrefixCount(column, |column|);
    assert column[..|column|] == column;
  }

  lemma {:induction false} NullPrefixCount(column: seq<Num>, k: nat)
    requires k <= |column|
    ensures |Filter(Range(k), (i: nat) => i < |column| && column[i].None?)| + LabeledCount(column[..k]) == k
    decreases k
  {
    var p := (i: nat) => i < |column| && column[i].None?;
    if k == 0 {
      assert Range(0) == [];
      assert column[..0] == [];
    } else {
      NullPrefixCount(column, k - 1);
      var last: seq<nat> := [k - 1];
      assert Range(k) == Range(k - 1) + last;
      FilterAppend(Range(k - 1), last, p);
      assert Filter(last, p) == (if column[k - 1].None? then last else []) by {
        assert last[1..] == [];
      }
      assert column[..k] == column[..k - 1] + [column[k - 1]];
      LabeledCountSnoc(column[..k - 1], column[k - 1]);
    }
  }

  lemma {:induction false} LabeledCountSnoc(a: seq<Num>, x: Num)
    ensures LabeledCount(a + [x]) == LabeledCount(a) + (if x.Some? then 1 else 0)
    decreases |a|
  {
    if a == [] {
      assert a + [x] == [x];
      assert [x][1..] == [];
    } else {
      assert (a + [x])[1..] == a[1..] + [x];
      LabeledCountSnoc(a[1..], x);
    }
  }

  /** Every cell that differs was null and now holds a score from 1 to 10. */
  predicate OnlyFilled(before: seq<Num>, after: seq<Num>)
    requires |before| == |after|
  {
    forall i :: 0 <= i < |before| && after[i] != before[i] ==>
      before[i].None? && exists n :: 1 <= n <= 10 && after[i] == Stored(n)
  }

  /** The cells outside `rows` are unchanged. */
  predicate KeptOutside(before: seq<Num>, after: seq<Num>, rows: seq<nat>)
    requires |before| == |after|
  {
    forall i :: 0 <= i < |before| && i !in rows ==> after[i] == before[i]
  }

  /** Filling, then filling again, only fills. */
  lemma OnlyFilledTransitive(a: seq<Num>, b: seq<Num>, c: seq<Num>)
    requires |a| == |b| == |c|
    requires OnlyFilled(a, b) && OnlyFilled(b, c)
    ensures OnlyFilled(a, c)
  {
    forall i | 0 <= i < |a| && c[i] != a[i]
      ensures a[i].None? && exists n :: 1 <= n <= 10 && c[i] == Stored(n)
    {
      if b[i] == a[i] {
        assert c[i] != b[i];
      } else if c[i] != b[i] {
        assert b[i].None?;
      }
    }
  }

  /** Storing one score in a null cell only fills. */
  lemma FillOne(column: seq<Num>, r: nat, n: int)
    requires r < |column| && column[r].None? && 1 <= n <= 10
    ensures OnlyFilled(column, column[r := Stored(n)])
    ensures KeptOutside(column, column[r := Stored(n)], [r])
  {
  }

  /** The effect of storing `n` at the first position, followed by the rest
      of a session whose effect `o` is known. */
  lemma ScoreStepEffect(column: seq<Num>, rows: seq<nat>, n: int, o: Outcome, labeled: nat)
    requires rows != [] && rows[0] < |column| && column[rows[0]].None? && 1 <= n <= 10
    requires |o.column| == |column|
    requires KeptOutside(column[rows[0] := Stored(n)], o.column, rows[1..])
    requires OnlyFilled(column[rows[0] := Stored(n)], o.column)
    requires o.labeled - (labeled + 1) == LabeledCount(o.column) - LabeledCount(column[rows[0] := Stored(n)])
    requires o.labeled >= labeled + 1
    ensures KeptOutside(column, o.column, rows) && OnlyFilled(column, o.column)
    ensures o.labeled - labeled == LabeledCount(o.column) - LabeledCount(column) && o.labeled >= labeled
  {
    var col' := column[rows[0] := Stored(n)];
    LabeledCountFill(column, rows[0], Stored(n));
    FillOne(column, rows[0], n);
    OnlyFilledTransitive(column, col', o.column);
    forall i | 0 <= i < |column| && i !in rows ensures o.column[i] == column[i] {
      assert i != rows[0] && i !in rows[1..];
    }
  }

  /** A session over distinct null positions: cells outside those positions
      keep their value, each cell it changes was null and now holds a whole
      score in 1..10, and the counter grows with every label stored. */
  lemma {:induction false} SessionEffect(column: seq<Num>, rows: seq<nat>, answers: seq<Command>, k: nat, labeled: nat)
    requires k <= |answers|
    requires forall i :: 0 <= i < |rows| ==> rows[i] < |column| && column[rows[i]].None?
    requires forall i, j :: 0 <= i < j < |rows| ==> rows[i] != rows[j]
    requires forall j :: 0 <= j < |answers| && answers[j].Score? ==> 1 <= answers[j].n <= 10
    ensures var o := Session(column, rows, answers, k, labeled);
      && KeptOutside(column, o.column, rows)
      && OnlyFilled(column, o.column)
      && o.labeled - labeled == LabeledCount(o.column) - LabeledCount(column)
      && o.labeled >= labeled
    decreases |rows|
  {
    if rows != [] {
      match NextAnswer(answers, k)
      case None =>
      case Some((c, next)) =>
        if c == Skip {
          SessionEffect(column, rows[1..], answers, next, labeled);
          var o := Session(column, rows, answers, k, labeled);
          assert KeptOutside(column, o.column, rows) by {
            forall i | 0 <= i < |column| && i !in rows ensures o.column[i] == column[i] {
              assert i !in rows[1..];
            }
          }
        } else if c.Score? {
          assert c == answers[next - 1];
          var col' := column[rows[0] := Stored(c.n)];
          forall i | 0 <= i < |rows[1..]| ensures rows[1..][i] < |col'| && col'[rows[1..][i]].None? {
            assert rows[1..][i] == rows[i + 1] != rows[0];
          }
          SessionEffect(col', rows[1..], answers, next, labeled + 1);
          assert Session(column, rows, answers, k, labeled) == Session(col', rows[1..], answers, next, labeled + 1);
          ScoreStepEffect(column, rows, c.n, Session(col', rows[1..], answers, next, labeled + 1), labeled);
        }
    }
  }

  lemma UnlabeledDistinct(column: seq<Num>)
    ensures forall i, j :: 0 <= i < j < |Unlabeled(column)| ==> Unlabeled(column)[i] < Unlabeled(column)[j]
  {
    FilterAscending(Range(|column|), (i: nat) => i < |column| && column[i].None?);
  }


  lemma UnlabeledMembership(column: seq<Num>, i: nat)
    ensures i in Unlabeled(column) <==> i < |column| && column[i].None?
  {
    FilterMembership(Range(|column|), (i: nat) => i < |column| && column[i].None?, i);
    if i < |column| {
      assert Range(|column|)[i] == i;
    }
  }

  /**
   * What the script promises about the column it saves: labels that were
   * already there are kept, every change fills a null cell with a whole
   * score from 1 to 10, and the progress counter ends at the number of
   * labeled rows.
   */
  lemma LabelingProperties(column: seq<Num>, inputs: seq<string>)
    ensures var o := Labeling(column, inputs);
      && |o.column| == |column|
      && (forall i :: 0 <= i < |column| && column[i].Some? ==> o.column[i] == column[i])
      && OnlyFilled(column, o.column)
      && o.labeled == LabeledCount(o.column)
  {
    var rows := Unlabeled(column);
    UnlabeledDistinct(column);
    SessionEffect(column, rows, Answers(inputs), 0, LabeledCount(column));
    forall i | 0 <= i < |column| && column[i].Some? ensures i !in rows {
      UnlabeledMembership(column, i);
    }
  }

  /** A stored label is a whole number in 1..10. */
  lemma StoredIsWhole(n: int)
    requires 1 <= n <= 10
    ensures Labels.IsWhole(Stored(n).value) && 1.0 <= Stored(n).value <= 10.0
  {
  }

  /** 'exit' on the first review ends the session with nothing changed. */
  lemma ExitFirst(column: seq<Num>, inputs: seq<string>)
    requires Unlabeled(column) != [] && inputs != [] && Interpret(inputs[0]) == Exit
    ensures Labeling(column, inputs) == Outcome(column, LabeledCount(column), Exited, 1)
  {
    var a := Answers(inputs);
    assert a[0] == Exit;
    assert NextAnswer(a, 0) == Some((Exit, 1));
  }

  /** An invalid answer is asked again: dropping it changes nothing but the
      answer count. */
  lemma InvalidAsksAgain(column: seq<Num>, rows: seq<nat>, answers: seq<Command>, k: nat, labeled: nat)
    requires k < |answers| && answers[k] == Invalid
    requires forall i :: 0 <= i < |rows| ==> rows[i] < |column|
    requires rows != []
    ensures Session(column, rows, answers, k, labeled) == Session(column, rows, answers, k + 1, labeled)
  {
  }

  /** A column with no null cell needs no answer: the session completes at once. */
  lemma NothingToLabel(column: seq<Num>, inputs: seq<string>)
    requires forall i :: 0 <= i < |column| ==> column[i].Some?
    ensures Labeling(column, inputs) == Outcome(column, LabeledCount(column), Completed, 0)
  {
    FilterNone(Range(|column|), (i: nat) => i < |column| && column[i].None?);
  }

  /** The inner loop: answers are read until one is not invalid, or until
      they run out (then `Invalid` is returned). */
  method ReadAnswer(inputs: seq<string>, k0: nat) returns (answer: Command, k: nat)
    requires k0 <= |inputs|
    ensures k <= |inputs|
    ensures answer == Invalid ==> NextAnswer(Answers(inputs), k0) == None && k == |inputs|
    ensures answer != Invalid ==> NextAnswer(Answers(inputs), k0) == Some((answer, k))
  {
    ghost var answers := Answers(inputs);
    k := k0;
    answer := Invalid;
    while answer == Invalid && k < |inputs|
      invariant k0 <= k <= |inputs|
      invariant answer == Invalid ==> NextAnswer(answers, k0) == NextAnswer(answers, k)
      invariant answer != Invalid ==> NextAnswer(answers, k0) == Some((answer, k))
      decreases |inputs| - k
    {
      answer := Interpret(inputs[k]);
      assert answer == answers[k];
      k := k + 1;
    }
  }

  /**
   * One pass of the outer loop: answers are read for the review at
   * `rows[j]` and, on a score, its cell is filled. `stop` says whether the
   * session ended here (out of input or exit); otherwise the rest of the
   * session goes on from the next review.
   */
  method LabelReview(p: array<Num>, rows: seq<nat>, j: nat, inputs: seq<string>, k0: nat, labeled0: nat,
                     ghost goal: Outcome)
    returns (stop: Option<Stop>, k: nat, labeled: nat)
    requires j < |rows| && k0 <= |inputs|
    requires forall i :: 0 <= i < |rows| ==> rows[i] < p.Length
    requires goal == Session(p[..], rows[j..], Answers(inputs), k0, labeled0)
    modifies p
    ensures k <= |inputs|
    ensures stop.Some? ==> goal == Outcome(p[..], labeled, stop.value, k)
    ensures stop.None? ==> goal == Session(p[..], rows[j + 1..], Answers(inputs), k, labeled)
  {
    var answer;
    answer, k := ReadAnswer(inputs, k0);
    assert rows[j..][0] == rows[j] && rows[j..][1..] == rows[j + 1..];
    SessionStep(p[..], rows[j..], Answers(inputs), k0, labeled0, answer, k);
    labeled := labeled0;
    if answer == Invalid {
      stop := Some(OutOfInput);
    } else if answer == Exit {
      stop := Some(Exited);
    } else {
      stop := None;
      if answer.Score? {
        ghost var before := p[..];
        p[rows[j]] := Stored(answer.n);
        assert p[..] == before[rows[j] := Stored(answer.n)];
        labeled := labeled + 1;
      }
    }
  }

  /**
   * The script's loops over the column in place: the outer loop over the
   * null positions, the inner one re-reading answers until one is valid.
   */
  method RunLabeling(p: array<Num>, inputs: seq<string>) returns (labeled: nat, stop: Stop, used: nat)
    modifies p
    ensures Outcome(p[..], labeled, stop, used) == Labeling(old(p[..]), inputs)
  {
    var rows := Unlabeled(p[..]);
    labeled := LabeledCount(p[..]);
    ghost var goal := Labeling(p[..], inputs);
    assert rows[0..] == rows;
    var k: nat := 0;
    var j := 0;
    while j < |rows|
      invariant 0 <= j <= |rows| && k <= |inputs|
      invariant forall i :: 0 <= i < |rows| ==> rows[i] < p.Length
      invariant goal == Session(p[..], rows[j..], Answers(inputs), k, labeled)
      decreases |rows| - j
    {
      var ended;
      ended, k, labeled := LabelReview(p, rows, j, inputs, k, labeled, goal);
      if ended.Some? {
        stop, used := ended.value, k;
        return;
      }
      j := j + 1;
    }
    stop, used := Completed, k;
  }

  /** One review of the session, as the loop body takes it: `answer` and
      `k` are what reading answers from `k0` gives. */
  lemma SessionStep(column: seq<Num>, rows: seq<nat>, answers: seq<Command>, k0: nat, labeled: nat,
                    answer: Command, k: nat)
    requires k0 <= |answers| && k <= |answers| && rows != []
    requires forall i :: 0 <= i < |rows| ==> rows[i] < |column|
    requires answer == Invalid ==> NextAnswer(answers, k0) == None && k == |answers|
    requires answer != Invalid ==> NextAnswer(answers, k0) == Some((answer, k))
    ensures answer == Invalid ==> Session(column, rows, answers, k0, labeled) == Outcome(column, labeled, OutOfInput, |answers|)
    ensures answer == Exit ==> Session(column, rows, answers, k0, labeled) == Outcome(column, labeled, Exited, k)
    ensures answer == Skip ==> Session(column, rows, answers, k0, labeled) == Session(column, rows[1..], answers, k, labeled)
    ensures answer.Score? ==>
      Session(column, rows, answers, k0, labeled)
        == Session(column[rows[0] := Stored(answer.n)], rows[1..], answers, k, labeled + 1)
  {
  }
}
