/**
 * The review-sampling script: up to five scored reviews of each text
 * sentiment class, drawn at random, put together, sorted by class and
 * cut down to six columns. Reading and writing the CSV files is left out;
 * the random draw is a parameter, `shuffled`, the rows in a random order.
 */
module SampleReviews {
  import opened Wrappers
  import opened Numbers
  import opened Seqs
  import opened Grouping

  /** A row of the scored feedback file; `others` holds the columns the
      sample does not keep. A NaN class cell is `None`. */
  datatype ScoredReview = ScoredReview(
    feedback: Option<string>,
    rating: Num,
    textSentiment: Num,
    combinedSentiment: Num,
    textClass: Option<string>,
    combinedClass: Option<string>,
    others: seq<Option<string>>)

  /** A row of the sample file: the six kept columns. */
  datatype SampleRow = SampleRow(
    feedback: Option<string>,
    rating: Num,
    textSentiment: Num,
    combinedSentiment: Num,
    textClass: Option<string>,
    combinedClass: Option<string>)

  /** The classes sampled, in the order the script visits them. */
  const Classes: seq<Option<string>> := [Some("Positive"), Some("Neutral"), Some("Negative")]

  /** The number of rows drawn from each class at most. */
  const PerClass: nat := 5

  const NothingSampled: string := "No reviews were sampled for any sentiment class"

  function ClassOf(r: ScoredReview): Option<string> { r.textClass }

  function SampleClassOf(r: SampleRow): Option<string> { r.textClass }

  /** The projection onto the six kept columns. */
  function Project(r: ScoredReview): (p: SampleRow)
    ensures SampleClassOf(p) == ClassOf(r)
  {
    SampleRow(r.feedback, r.rating, r.textSentiment, r.combinedSentiment, r.textClass, r.combinedClass)
  }

  /** No listed class has a row. */
  predicate NoneAvailable(rows: seq<ScoredReview>) {
    forall c :: c in Classes ==> ClassSize(rows, ClassOf, c) == 0
  }

  /**
   * What the script writes: the error when no class has a row, otherwise
   * the per-class draws in class order, sorted by class and projected.
   */
  function Sampling(shuffled: seq<ScoredReview>): Result<seq<SampleRow>, string> {
    if NoneAvailable(shuffled) then Failure(NothingSampled)
    else Success(Map(SortedSample(shuffled), Project))
  }

  /** The per-class draws in class order, then sorted by class. */
  function SortedSample(shuffled: seq<ScoredReview>): (r: seq<ScoredReview>)
    ensures multiset(r) == multiset(CappedSample(shuffled, ClassOf, Classes, PerClass))
    ensures SortedBy(r, ClassOf, NullsFirstLess)
  {
    NullsFirstOrder();
    SortBy(CappedSample(shuffled, ClassOf, Classes, PerClass), ClassOf, NullsFirstLess)
  }

  lemma NoneAvailableByIndex(rows: seq<ScoredReview>)
    requires NoRowsBefore(rows, Classes, |Classes|)
    ensures NoneAvailable(rows)
  {
    forall c | c in Classes ensures ClassSize(rows, ClassOf, c) == 0 {
      var j :| 0 <= j < |Classes| && Classes[j] == c;
    }
  }

  /** pd.concat of a list of frames. */
  function Concat(frames: seq<seq<ScoredReview>>): seq<ScoredReview>
    decreases |frames|
  {
    if frames == [] then [] else Concat(frames[..|frames| - 1]) + frames[|frames| - 1]
  }

  /** None of the first `i` classes has a row. */
  predicate NoRowsBefore(rows: seq<ScoredReview>, classes: seq<Option<string>>, i: nat)
    requires i <= |classes|
  {
    forall j :: 0 <= j < i ==> ClassSize(rows, ClassOf, classes[j]) == 0
  }

  /** One turn of the loop: the next class's block, or nothing for an empty class. */
  lemma DrawStep(shuffled: seq<ScoredReview>, classes: seq<Option<string>>, i: nat)
    requires i < |classes|
    ensures var block := OfClass(shuffled, ClassOf, classes[i]);
      CappedSample(shuffled, ClassOf, classes[..i + 1], PerClass)
        == CappedSample(shuffled, ClassOf, classes[..i], PerClass) + block[..Min(PerClass, |block|)]
    ensures OfClass(shuffled, ClassOf, classes[i]) == [] ==>
      CappedSample(shuffled, ClassOf, classes[..i + 1], PerClass) == CappedSample(shuffled, ClassOf, classes[..i], PerClass)
    ensures NoRowsBefore(shuffled, classes, i + 1)
        <==> NoRowsBefore(shuffled, classes, i) && ClassSize(shuffled, ClassOf, classes[i]) == 0
  {
    assert classes[..i + 1] == classes[..i] + [classes[i]];
    CappedSampleSnoc(shuffled, ClassOf, classes[..i], classes[i], PerClass);
    var block := OfClass(shuffled, ClassOf, classes[i]);
    assert Take(block, PerClass) == block[..Min(PerClass, |block|)];
    if block == [] {
      assert CappedSample(shuffled, ClassOf, classes[..i], PerClass) + [] == CappedSample(shuffled, ClassOf, classes[..i], PerClass);
    }
  }

  lemma ConcatSnoc(frames: seq<seq<ScoredReview>>, frame: seq<ScoredReview>)
    ensures Concat(frames + [frame]) == Concat(frames) + frame
  {
    assert (frames + [frame])[..|frames|] == frames;
  }

  /** The script's loop: for each class in turn, a draw of up to five of
      its rows, skipping a class without rows. */
  method DrawPerClass(shuffled: seq<ScoredReview>, classes: seq<Option<string>>)
    returns (sampled: seq<seq<ScoredReview>>)
    ensures Concat(sampled) == CappedSample(shuffled, ClassOf, classes, PerClass)
    ensures sampled == [] <==> NoRowsBefore(shuffled, classes, |classes|)
  {
    sampled := [];
    for i := 0 to |classes|
      invariant Concat(sampled) == CappedSample(shuffled, ClassOf, classes[..i], PerClass)
      invariant sampled == [] <==> NoRowsBefore(shuffled, classes, i)
    {
      var sentimentRows := OfClass(shuffled, ClassOf, classes[i]);
      var nAvailable := |sentimentRows|;
      var nSample := Min(PerClass, nAvailable);
      DrawStep(shuffled, classes, i);
      if nAvailable == 0 {
        continue;
      }
      ConcatSnoc(sampled, sentimentRows[..nSample]);
      sampled := sampled + [sentimentRows[..nSample]];
    }
    assert classes[..|classes|] == classes;
  }

  /** The whole script: the draws, the error when there are none, then
      concat, the sort by class and the projection. */
  method SampleByClass(shuffled: seq<ScoredReview>) returns (r: Result<seq<SampleRow>, string>)
    ensures r == Sampling(shuffled)
  {
    NullsFirstOrder();
    var sampled := DrawPerClass(shuffled, Classes);
    if sampled == [] {
      NoneAvailableByIndex(shuffled);
      return Failure(NothingSampled);
    }
    var finalSample := Concat(sampled);
    finalSample := SortBy(finalSample, ClassOf, NullsFirstLess);
    r := Success(Map(finalSample, Project));
  }

  /** The three classes are distinct. */
  lemma ClassesDistinct()
    ensures forall i, j :: 0 <= i < j < |Classes| ==> Classes[i] != Classes[j]
  {
    assert "Positive"[0] != "Neutral"[0] && "Positive"[0] != "Negative"[0];
    assert "Neutral"[2] != "Negative"[2];
  }

  /** In code-point order the classes sort Negative, Neutral, Positive. */
  lemma ClassOrder()
    ensures NullsFirstLess(Some("Negative"), Some("Neutral"))
    ensures NullsFirstLess(Some("Neutral"), Some("Positive"))
    ensures NullsFirstLess(Some("Negative"), Some("Positive"))
  {
    assert "Negative"[..] == ['N', 'e', 'g', 'a', 't', 'i', 'v', 'e'];
    assert "Neutral"[..] == ['N', 'e', 'u', 't', 'r', 'a', 'l'];
    assert "Negative"[1..][1..] == "gative";
    assert "Neutral"[1..][1..] == "utral";
  }

  /** A class has no rows exactly when no row carries it. */
  lemma ClassSizeZero(rows: seq<ScoredReview>, c: Option<string>)
    ensures ClassSize(rows, ClassOf, c) == 0 <==> forall i :: 0 <= i < |rows| ==> rows[i].textClass != c
  {
    if ClassSize(rows, ClassOf, c) == 0 {
      forall i | 0 <= i < |rows| ensures rows[i].textClass != c {
        OfClassMembership(rows, ClassOf, c, rows[i]);
      }
    } else {
      var x := OfClass(rows, ClassOf, c)[0];
      OfClassMembership(rows, ClassOf, c, x);
    }
  }

  /**
   * The script fails exactly when no row's text class is Positive, Neutral
   * or Negative; the draw order does not matter.
   */
  lemma SamplingFails(rows: seq<ScoredReview>, shuffled: seq<ScoredReview>)
    requires multiset(shuffled) == multiset(rows)
    ensures Sampling(shuffled).Failure? <==> forall i :: 0 <= i < |rows| ==> rows[i].textClass !in Classes
    ensures Sampling(shuffled).Failure? ==> Sampling(shuffled).error == NothingSampled
  {
    forall c | c in Classes
      ensures ClassSize(shuffled, ClassOf, c) == 0 <==> forall i :: 0 <= i < |rows| ==> rows[i].textClass != c
    {
      ClassSizePermutation(shuffled, rows, ClassOf, c);
      ClassSizeZero(rows, c);
    }
  }

  /** The rows the script writes, when it writes any. */
  function Written(shuffled: seq<ScoredReview>): seq<SampleRow> {
    match Sampling(shuffled)
    case Success(out) => out
    case Failure(_) => []
  }

  /**
   * Each class of the three appears min(5, its number of rows) times in the
   * written sample; no other class appears.
   */
  lemma SamplingClassCounts(rows: seq<ScoredReview>, shuffled: seq<ScoredReview>, c: Option<string>)
    requires multiset(shuffled) == multiset(rows)
    requires Sampling(shuffled).Success?
    ensures ClassSize(Written(shuffled), SampleClassOf, c)
         == if c in Classes then Min(PerClass, ClassSize(rows, ClassOf, c)) else 0
  {
    ClassesDistinct();
    var sample := CappedSample(shuffled, ClassOf, Classes, PerClass);
    var sorted := SortedSample(shuffled);
    OfClassMap(sorted, Project, ClassOf, SampleClassOf, c);
    ClassSizePermutation(sorted, sample, ClassOf, c);
    CappedSampleClassSize(shuffled, ClassOf, Classes, PerClass, c);
    ClassSizePermutation(shuffled, rows, ClassOf, c);
  }

  lemma SortedSampleMember(rows: seq<ScoredReview>, shuffled: seq<ScoredReview>, x: ScoredReview)
    requires multiset(shuffled) == multiset(rows)
    requires x in SortedSample(shuffled)
    ensures x in rows && x.textClass in Classes
  {
    var sample := CappedSample(shuffled, ClassOf, Classes, PerClass);
    MultisetMember(SortedSample(shuffled), sample, x);
    CappedSampleMembers(shuffled, ClassOf, Classes, PerClass);
    MultisetMember(shuffled, rows, x);
  }

  /** Every written row is the projection of an input row of one of the three classes. */
  lemma SamplingMembers(rows: seq<ScoredReview>, shuffled: seq<ScoredReview>)
    requires multiset(shuffled) == multiset(rows)
    ensures forall p :: p in Written(shuffled) ==> exists x :: x in rows && x.textClass in Classes && Project(x) == p
  {
    if Sampling(shuffled).Success? {
      var sorted := SortedSample(shuffled);
      assert Written(shuffled) == Map(sorted, Project);
      forall p | p in Map(sorted, Project) ensures exists x :: x in rows && x.textClass in Classes && Project(x) == p {
        var i :| 0 <= i < |sorted| && Map(sorted, Project)[i] == p;
        SortedSampleMember(rows, shuffled, sorted[i]);
      }
    }
  }

  /** A written sample holds between one and fifteen rows. */
  lemma SamplingSize(shuffled: seq<ScoredReview>)
    requires Sampling(shuffled).Success?
    ensures 1 <= |Written(shuffled)| <= PerClass * |Classes|
  {
    var sample := CappedSample(shuffled, ClassOf, Classes, PerClass);
    var sorted := SortedSample(shuffled);
    assert |Written(shuffled)| == |sample| by {
      assert Written(shuffled) == Map(sorted, Project);
      assert |multiset(sorted)| == |multiset(sample)|;
    }
    CappedSampleSize(shuffled, ClassOf, Classes, PerClass);
    var c :| c in Classes && ClassSize(shuffled, ClassOf, c) != 0;
    CappedSampleNonEmpty(shuffled, ClassOf, Classes, PerClass, c);
  }

  /** Two classes of the three in sorted order: Negative before the rest, Positive after. */
  lemma ClassPairOrder(a: Option<string>, b: Option<string>)
    requires a in Classes && b in Classes && !NullsFirstLess(b, a)
    ensures b == Some("Negative") ==> a == Some("Negative")
    ensures a == Some("Positive") ==> b == Some("Positive")
  {
    ClassOrder();
  }

  /** The written sample lists the Negative rows first and the Positive rows last. */
  lemma SamplingOrder(rows: seq<ScoredReview>, shuffled: seq<ScoredReview>)
    requires multiset(shuffled) == multiset(rows)
    ensures var out := Written(shuffled);
      forall i, j :: 0 <= i < j < |out| ==>
        (out[j].textClass == Some("Negative") ==> out[i].textClass == Some("Negative")) &&
        (out[i].textClass == Some("Positive") ==> out[j].textClass == Some("Positive"))
  {
    if Sampling(shuffled).Success? {
      var sorted := SortedSample(shuffled);
      var out := Map(sorted, Project);
      assert Written(shuffled) == out;
      forall i, j | 0 <= i < j < |out|
        ensures (out[j].textClass == Some("Negative") ==> out[i].textClass == Some("Negative")) &&
                (out[i].textClass == Some("Positive") ==> out[j].textClass == Some("Positive"))
      {
        SortedSampleMember(rows, shuffled, sorted[i]);
        SortedSampleMember(rows, shuffled, sorted[j]);
        assert !NullsFirstLess(ClassOf(sorted[j]), ClassOf(sorted[i]));
        ClassPairOrder(sorted[i].textClass, sorted[j].textClass);
      }
    }
  }
}
