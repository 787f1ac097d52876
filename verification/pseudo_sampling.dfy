/**
 * The pseudo-sampling script: a random sample of 1000 rows of the cleaned
 * feedback file for hand labelling, and the rows left over, kept in their
 * order. The random draw is a parameter, `order`, the positions of the
 * rows in a random order; file reading and writing are left out.
 */
module PseudoSampling {
  import opened Wrappers
  import opened Seqs

  /** The number of rows drawn. */
  const SampleSize: nat := 1000

  /** pandas' error for a sample larger than the frame. */
  const TooSmall: string := "Cannot take a larger sample than population when 'replace=False'"

  /** `order` lists each position 0 .. n - 1 exactly once. */
  predicate IsShuffle(order: seq<nat>, n: nat) {
    && |order| == n
    && (forall i :: 0 <= i < n ==> order[i] < n)
    && (forall i, j :: 0 <= i < j < n ==> order[i] != order[j])
  }

  /** Both output frames, each with the index labels of its rows. */
  datatype Split<T> = Split(sampleIndex: seq<nat>, sample: seq<T>, unlabeledIndex: seq<nat>, unlabeled: seq<T>)

  /** The rows of `df` at the given labels, in the order of the labels. */
  function At<T>(df: seq<T>, index: seq<nat>): (r: seq<T>)
    requires forall k :: 0 <= k < |index| ==> index[k] < |df|
    ensures |r| == |index|
    ensures forall k :: 0 <= k < |index| ==> r[k] == df[index[k]]
  {
    seq(|index|, k requires 0 <= k < |index| => df[index[k]])
  }

  /** `~df.index.isin(sampled)` as a mask on labels. */
  function NotIn(sampled: seq<nat>): nat -> bool {
    (i: nat) => i !in sampled
  }

  lemma FilterRangeBelow(n: nat, p: nat -> bool)
    ensures forall k :: 0 <= k < |Filter<nat>(Range(n), p)| ==> Filter<nat>(Range(n), p)[k] < n
  {
    forall k | 0 <= k < |Filter<nat>(Range(n), p)| ensures Filter<nat>(Range(n), p)[k] < n {
      FilterMembership<nat>(Range(n), p, Filter<nat>(Range(n), p)[k]);
    }
  }

  /**
   * `df.sample(n=1000)` then `df[~df.index.isin(sample_df.index)]`: the
   * first 1000 positions of the draw, and the other rows in their original
   * order; the error when the frame has fewer than 1000 rows.
   */
  function SampleSplit<T>(df: seq<T>, order: seq<nat>): Result<Split<T>, string>
    requires IsShuffle(order, |df|)
  {
    if |df| < SampleSize then Failure(TooSmall)
    else
      var sampleIndex := order[..SampleSize];
      var unlabeledIndex := Filter<nat>(Range(|df|), NotIn(sampleIndex));
      FilterRangeBelow(|df|, NotIn(sampleIndex));
      Success(Split(sampleIndex, At(df, sampleIndex), unlabeledIndex, At(df, unlabeledIndex)))
  }

  /** The distinct labels a sequence holds. */
  function Elems(s: seq<nat>): set<nat> {
    set x | x in s
  }

  /** A sequence without repeats has as many elements as its set. */
  lemma {:induction false} DistinctCard(s: seq<nat>)
    requires forall i, j :: 0 <= i < j < |s| ==> s[i] != s[j]
    ensures |Elems(s)| == |s|
    decreases |s|
  {
    if s != [] {
      var t := s[1..];
      forall i, j | 0 <= i < j < |t| ensures t[i] != t[j] {
        assert t[i] == s[i + 1] && t[j] == s[j + 1];
      }
      DistinctCard(t);
      assert Elems(s) == {s[0]} + Elems(t) by {
        assert s == [s[0]] + t;
      }
      assert s[0] !in Elems(t);
    }
  }

  /**
   * The frame fails to sample exactly when it has fewer than 1000 rows;
   * otherwise the sample has 1000 rows and the rest has all the others.
   */
  lemma SplitSizes<T>(df: seq<T>, order: seq<nat>)
    requires IsShuffle(order, |df|)
    ensures SampleSplit(df, order).Failure? <==> |df| < SampleSize
    ensures SampleSplit(df, order).Success? ==>
      |SampleSplit(df, order).value.sample| == SampleSize &&
      |SampleSplit(df, order).value.unlabeled| == |df| - SampleSize
  {
    if |df| >= SampleSize {
      var n := |df|;
      var head := order[..SampleSize];
      var rest := Filter<nat>(Range(n), NotIn(head));
      DistinctCard(head);
      FilterAscending(Range(n), NotIn(head));
      DistinctCard(rest);
      DistinctCard(Range(n));
      assert Elems(Range(n)) == Elems(head) + Elems(rest) by {
        forall x | x in Elems(Range(n)) ensures x in Elems(head) + Elems(rest) {
          FilterMembership<nat>(Range(n), NotIn(head), x);
        }
        forall x | x in Elems(head) + Elems(rest) ensures x in Elems(Range(n)) {
          FilterMembership<nat>(Range(n), NotIn(head), x);
          if x in head {
            var k :| 0 <= k < |head| && head[k] == x;
            assert Range(n)[x] == x;
          }
        }
      }
      assert Elems(head) * Elems(rest) == {} by {
        forall x | x in Elems(rest) ensures x !in Elems(head) {
          FilterMembership<nat>(Range(n), NotIn(head), x);
        }
      }
    }
  }

  /**
   * Every row of the frame lands in exactly one of the two outputs: its
   * label is in the sample or in the rest, never in both.
   */
  lemma SplitPartition<T>(df: seq<T>, order: seq<nat>, i: nat)
    requires IsShuffle(order, |df|)
    requires SampleSplit(df, order).Success? && i < |df|
    ensures var s := SampleSplit(df, order).value;
      i in s.sampleIndex <==> i !in s.unlabeledIndex
  {
    var s := SampleSplit(df, order).value;
    FilterMembership<nat>(Range(|df|), NotIn(s.sampleIndex), i);
    assert Range(|df|)[i] == i;
  }

  /**
   * The sample's labels are distinct positions of the frame; the rest keeps
   * the frame's order; each output row is the frame's row at its label.
   */
  lemma SplitRows<T>(df: seq<T>, order: seq<nat>)
    requires IsShuffle(order, |df|)
    requires SampleSplit(df, order).Success?
    ensures var s := SampleSplit(df, order).value;
      && (forall i, j :: 0 <= i < j < |s.sampleIndex| ==> s.sampleIndex[i] != s.sampleIndex[j])
      && Ascending(s.unlabeledIndex)
      && (forall k :: 0 <= k < |s.sample| ==> s.sampleIndex[k] < |df| && s.sample[k] == df[s.sampleIndex[k]])
      && (forall k :: 0 <= k < |s.unlabeled| ==> s.unlabeledIndex[k] < |df| && s.unlabeled[k] == df[s.unlabeledIndex[k]])
  {
    var s := SampleSplit(df, order).value;
    FilterAscending(Range(|df|), NotIn(s.sampleIndex));
    FilterRangeBelow(|df|, NotIn(s.sampleIndex));
    assert s.unlabeled == At(df, s.unlabeledIndex);
  }
}
