/**
 * The review clean-up script: `drop_duplicates(subset=['Review'])` on the
 * external reviews file, and the number of rows it removed. pandas counts
 * two missing reviews as equal, so `None` is a key like any other.
 */
module CleanReviews {
  import opened Wrappers
  import opened Seqs

  /** A row of the reviews file; `others` holds the remaining columns. */
  datatype ReviewRow = ReviewRow(review: Option<string>, others: seq<Option<string>>)

  function ReviewOf(r: ReviewRow): Option<string> { r.review }

  /** The rows without the later repeats of a review text. */
  function DropDuplicates(rows: seq<ReviewRow>): seq<ReviewRow> {
    Dedup(rows, ReviewOf)
  }

  /** `len(reviews_df) - len(reviews_clean)`, as the script reports it. */
  function DuplicatesRemoved(rows: seq<ReviewRow>): (n: nat)
    ensures n == DuplicatedFrom(rows, ReviewOf, {})
  {
    DedupCount(rows, ReviewOf, {});
    |rows| - |DropDuplicates(rows)|
  }

  /** No earlier row has the same review text as row `i`. */
  predicate FirstOfItsText(rows: seq<ReviewRow>, i: nat)
    requires i < |rows|
  {
    forall j :: 0 <= j < i ==> rows[j].review != rows[i].review
  }

  /**
   * The clean rows keep the input's order, hold every review text once and
   * every review text of the input at least once, and keep each text's
   * first row.
   */
  lemma DropDuplicatesProperties(rows: seq<ReviewRow>)
    ensures IsSubseq(DropDuplicates(rows), rows)
    ensures var out := DropDuplicates(rows);
      forall i, j :: 0 <= i < j < |out| ==> out[i].review != out[j].review
    ensures Keys(DropDuplicates(rows), ReviewOf) == Keys(rows, ReviewOf)
    ensures forall i :: 0 <= i < |rows| && FirstOfItsText(rows, i) ==> rows[i] in DropDuplicates(rows)
  {
    DedupIsSubseq(rows, ReviewOf, {});
    DedupKeys(rows, ReviewOf, {});
    forall i | 0 <= i < |rows| && FirstOfItsText(rows, i)
      ensures rows[i] in DropDuplicates(rows)
    {
      DedupKeepsFirst(rows, ReviewOf, {}, i);
    }
  }

  /** Cleaning a clean file removes nothing more. */
  lemma DropDuplicatesIdempotent(rows: seq<ReviewRow>)
    ensures DropDuplicates(DropDuplicates(rows)) == DropDuplicates(rows)
    ensures DuplicatesRemoved(DropDuplicates(rows)) == 0
  {
    DedupIdempotent(rows, ReviewOf);
  }

  /** A file whose review texts are all different loses nothing. */
  lemma DistinctReviewsKept(rows: seq<ReviewRow>)
    requires forall i, j :: 0 <= i < j < |rows| ==> rows[i].review != rows[j].review
    ensures DropDuplicates(rows) == rows && DuplicatesRemoved(rows) == 0
  {
    DedupDistinct(rows, ReviewOf, {});
  }
}
