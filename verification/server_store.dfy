/**
 * The `feedback` table of the web application's server and the two steps
 * that fill it at start-up: importing the cleaned CSV file into an empty
 * table, and seeding four fixed records into a table that is still empty.
 */
module FeedbackStore {
  import opened Wrappers
  import opened Numbers
  import opened Seqs

  /** One row of `feedback`; every column but the key may be NULL. */
  datatype Feedback = Feedback(
    id: nat,
    date: Option<string>,
    company: Option<string>,
    text: Option<string>,
    rating: Option<int>,
    textSentiment: Num,
    combined: Num,
    sentiment: Num,
    category: Option<string>)

  /** A row as the CSV reader delivers it: column name to cell text. */
  type CsvRow = map<string, string>

  /** JavaScript's `row.k || fallback` on a CSV cell: a missing or empty cell
      is falsy and gives the fallback. */
  function CellOr(row: CsvRow, k: string, fallback: string): (v: string)
    ensures k in row && row[k] != "" ==> v == row[k]
    ensures !(k in row && row[k] != "") ==> v == fallback
  {
    if k in row && row[k] != "" then row[k] else fallback
  }

  /**
   * `parseFloat(row.sentiment_score) || 0`: the parsed number, or 0 when the
   * cell is missing or does not parse (NaN is falsy). `parseFloat` itself
   * is a parameter, `None` standing for NaN.
   */
  function ScoreOr0(row: CsvRow, parseFloat: string -> Option<real>): (v: real)
    ensures "sentiment_score" in row && parseFloat(row["sentiment_score"]).Some?
      ==> v == parseFloat(row["sentiment_score"]).value
    ensures ("sentiment_score" !in row || parseFloat(row["sentiment_score"]).None?) ==> v == 0.0
  {
    if "sentiment_score" in row then parseFloat(row["sentiment_score"]).GetOr(0.0) else 0.0
  }

  /**
   * The record one CSV row becomes (its key is assigned on insertion):
   * five columns filled from their cells, a missing or empty cell giving the
   * default, and the other three left NULL.
   */
  function Imported(row: CsvRow, now: string, parseFloat: string -> Option<real>): (r: Feedback)
    ensures r.rating.None? && r.textSentiment.None? && r.combined.None?
    ensures r.date.Some? && r.company.Some? && r.text.Some? && r.sentiment.Some? && r.category.Some?
    ensures r.company.value != "" && r.category.value != ""
    ensures ("company_name" !in row || row["company_name"] == "") ==> r.company == Some("Unknown")
    ensures ("feedback_text" !in row || row["feedback_text"] == "") ==> r.text == Some("")
    ensures ("category" !in row || row["category"] == "") ==> r.category == Some("Uncategorized")
    ensures "sentiment_score" !in row ==> r.sentiment == Some(0.0)
    ensures ("date" !in row || row["date"] == "") ==> r.date == Some(now)
    ensures r.date == Some(CellOr(row, "date", now))
    ensures r.company == Some(CellOr(row, "company_name", "Unknown"))
    ensures r.text == Some(CellOr(row, "feedback_text", ""))
    ensures r.category == Some(CellOr(row, "category", "Uncategorized"))
    ensures r.sentiment == Some(ScoreOr0(row, parseFloat))
  {
    Feedback(0,
      Some(CellOr(row, "date", now)),
      Some(CellOr(row, "company_name", "Unknown")),
      Some(CellOr(row, "feedback_text", "")),
      None, None, None,
      Some(ScoreOr0(row, parseFloat)),
      Some(CellOr(row, "category", "Uncategorized")))
  }

  /** The four records `addSampleData` inserts. */
  const SeedRecords: seq<Feedback> := [
    Feedback(0, Some("2023-01-01"), Some("Company A"), Some("Great service"), None, None, None, Some(0.8), Some("Service")),
    Feedback(0, Some("2023-01-02"), Some("Company B"), Some("Poor quality"), None, None, None, Some(-0.6), Some("Quality")),
    Feedback(0, Some("2023-02-01"), Some("Company C"), Some("Excellent product"), None, None, None, Some(0.9), Some("Product")),
    Feedback(0, Some("2023-02-15"), Some("Company D"), Some("Needs improvement"), None, None, None, Some(-0.3), Some("Product"))
  ]

  /** `rs` with the keys first, first + 1, ... in order, as AUTOINCREMENT gives them. */
  function Keyed(rs: seq<Feedback>, first: nat): (r: seq<Feedback>)
    ensures |r| == |rs|
    ensures forall i :: 0 <= i < |rs| ==> r[i] == rs[i].(id := first + i)
  {
    seq(|rs|, i requires 0 <= i < |rs| => rs[i].(id := first + i))
  }

  /** Keys ascend strictly and all lie below `next`. */
  predicate KeysBelow(rows: seq<Feedback>, next: nat) {
    && (forall i, j :: 0 <= i < j < |rows| ==> rows[i].id < rows[j].id)
    && (forall i :: 0 <= i < |rows| ==> 0 < rows[i].id < next)
  }

  /** Appending freshly keyed rows keeps the keys ascending and unique. */
  lemma {:induction false} KeyedKeepsKeys(rows: seq<Feedback>, next: nat, rs: seq<Feedback>)
    requires KeysBelow(rows, next) && next > 0
    ensures KeysBelow(rows + Keyed(rs, next), next + |rs|)
  {
    var all := rows + Keyed(rs, next);
    forall i, j | 0 <= i < j < |all| ensures all[i].id < all[j].id {
      if j >= |rows| {
        assert all[j].id == next + (j - |rows|);
        if i >= |rows| {
          assert all[i].id == next + (i - |rows|);
        } else {
          assert all[i].id < next;
        }
      }
    }
    forall i | 0 <= i < |all| ensures 0 < all[i].id < next + |rs| {
      if i >= |rows| {
        assert all[i].id == next + (i - |rows|);
      }
    }
  }

  /** The table, with SQLite's AUTOINCREMENT counter. */
  class FeedbackTable {
    var rows: seq<Feedback>
    var nextId: nat

    ghost predicate Valid()
      reads this
    {
      nextId > 0 && KeysBelow(rows, nextId)
    }

    /** `SELECT COUNT(*) FROM feedback`, the `recordCount` of `/api/debug/data`. */
    function Count(): nat
      reads this
    {
      |rows|
    }

    /** A table as found on disk: `CREATE TABLE IF NOT EXISTS` keeps its rows. */
    constructor Open(existing: seq<Feedback>, next: nat)
      requires next > 0 && KeysBelow(existing, next)
      ensures Valid() && rows == existing && nextId == next
    {
      rows := existing;
      nextId := next;
    }

    /** One INSERT: the row is appended under the next key. */
    method Insert(r: Feedback)
      requires Valid()
      modifies this
      ensures Valid()
      ensures rows == old(rows) + [r.(id := old(nextId))] && nextId == old(nextId) + 1
    {
      KeyedKeepsKeys(rows, nextId, [r]);
      rows := rows + [r.(id := nextId)];
      nextId := nextId + 1;
    }

    /** Inserts `rs` one by one, in order. */
    method InsertAll(rs: seq<Feedback>)
      requires Valid()
      modifies this
      ensures Valid()
      ensures rows == old(rows) + Keyed(rs, old(nextId)) && nextId == old(nextId) + |rs|
    {
      var i := 0;
      while i < |rs|
        invariant 0 <= i <= |rs|
        invariant Valid()
        invariant nextId == old(nextId) + i
        invariant rows == old(rows) + Keyed(rs[..i], old(nextId))
      {
        Insert(rs[i]);
        assert Keyed(rs[..i + 1], old(nextId)) == Keyed(rs[..i], old(nextId)) + [rs[i].(id := old(nextId) + i)];
        i := i + 1;
      }
      assert rs[..i] == rs;
    }

    /**
     * `initializeDatabase`: when the count query succeeds with 0 and the CSV
     * file exists, every CSV row is inserted with its defaults; otherwise
     * nothing is inserted. `csv` is `None` when the file does not exist.
     */
    method InitializeDatabase(countOk: bool, csv: Option<seq<CsvRow>>, now: string,
                              parseFloat: string -> Option<real>)
      requires Valid()
      modifies this
      ensures Valid()
      ensures countOk && old(Count()) == 0 && csv.Some? ==>
        && rows == Keyed(Map(csv.value, row => Imported(row, now, parseFloat)), old(nextId))
        && nextId == old(nextId) + |csv.value|
        && Count() == |csv.value|
      ensures !(countOk && old(Count()) == 0 && csv.Some?) ==> rows == old(rows) && nextId == old(nextId)
    {
      if !countOk {
        return;
      }
      if |rows| == 0 {
        if csv.None? {
          return;
        }
        var data := csv.value;
        var i := 0;
        while i < |data|
          invariant 0 <= i <= |data|
          invariant Valid()
          invariant nextId == old(nextId) + i
          invariant rows == Keyed(Map(data[..i], row => Imported(row, now, parseFloat)), old(nextId))
        {
          ghost var before := Map(data[..i], row => Imported(row, now, parseFloat));
          Insert(Imported(data[i], now, parseFloat));
          assert Map(data[..i + 1], row => Imported(row, now, parseFloat)) == before + [Imported(data[i], now, parseFloat)];
          assert Keyed(before + [Imported(data[i], now, parseFloat)], old(nextId))
              == Keyed(before, old(nextId)) + [Imported(data[i], now, parseFloat).(id := old(nextId) + i)];
          i := i + 1;
        }
        assert data[..i] == data;
      }
    }

    /**
     * `addSampleData`: the four seed records, inserted only when the count
     * query succeeds with 0.
     */
    method AddSampleData(countOk: bool)
      requires Valid()
      modifies this
      ensures Valid()
      ensures countOk && old(Count()) == 0 ==>
        && rows == Keyed(SeedRecords, old(nextId))
        && nextId == old(nextId) + |SeedRecords|
        && Count() == 4
      ensures !(countOk && old(Count()) == 0) ==> rows == old(rows) && nextId == old(nextId)
    {
      if !countOk || |rows| > 0 {
        return;
      }
      InsertAll(SeedRecords);
    }

    /**
     * The start-up sequence, import then seed, each step with the outcome of
     * its own count query. A table that already holds rows is left as it is,
     * so running the start-up again on a filled table changes nothing.
     */
    method Bootstrap(importCountOk: bool, csv: Option<seq<CsvRow>>, now: string,
                     parseFloat: string -> Option<real>, seedCountOk: bool)
      requires Valid()
      modifies this
      ensures Valid()
      ensures old(Count()) > 0 ==> rows == old(rows) && nextId == old(nextId) && Count() == old(Count())
      ensures old(Count()) == 0 && importCountOk && csv.Some? && csv.value != [] ==>
        && rows == Keyed(Map(csv.value, row => Imported(row, now, parseFloat)), old(nextId))
        && nextId == old(nextId) + |csv.value|
        && Count() == |csv.value|
      ensures old(Count()) == 0 && !(importCountOk && csv.Some? && csv.value != []) && seedCountOk ==>
        && rows == Keyed(SeedRecords, old(nextId))
        && nextId == old(nextId) + |SeedRecords|
        && Count() == 4
      ensures old(Count()) == 0 && !(importCountOk && csv.Some? && csv.value != []) && !seedCountOk ==>
        rows == old(rows) && nextId == old(nextId)
    {
      InitializeDatabase(importCountOk, csv, now, parseFloat);
      AddSampleData(seedCountOk);
    }
  }
}
