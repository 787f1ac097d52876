/**
 * The read-only endpoints of the server, each a SELECT over the `feedback`
 * table: monthly trends, per-category shares, the text/combined comparison,
 * random examples per sentiment class, and the record count. Values are
 * exact reals; ROUND(..., 2) is not applied.
 */
module FeedbackQueries {
  import opened Wrappers
  import opened Numbers
  import opened Seqs
  import opened Grouping
  import opened FeedbackStore
  import Text

  // ---------------------------------------------------------------------
  // /api/sentiment/trends

  /** CASE WHEN sentiment_score > 0 THEN sentiment_score ELSE 0 END */
  function PosPart(r: Feedback): real {
    if Gt(r.sentiment, 0.0) then r.sentiment.value else 0.0
  }

  /** CASE WHEN sentiment_score < 0 THEN ABS(sentiment_score) ELSE 0 END */
  function NegPart(r: Feedback): real {
    if Lt(r.sentiment, 0.0) then -r.sentiment.value else 0.0
  }

  /** |sentiment_score|, with NULL counting as 0. */
  function Magnitude(r: Feedback): real {
    if r.sentiment.None? then 0.0
    else if r.sentiment.value < 0.0 then -r.sentiment.value
    else r.sentiment.value
  }

  /** The largest magnitude in a group (0 for none). */
  function MaxMagnitude(s: seq<Feedback>): (m: real)
    ensures m >= 0.0
    ensures forall i :: 0 <= i < |s| ==> Magnitude(s[i]) <= m
    ensures s != [] ==> exists i :: 0 <= i < |s| && Magnitude(s[i]) == m
    decreases |s|
  {
    if s == [] then 0.0
    else
      var rest := MaxMagnitude(s[1..]);
      assert forall i :: 1 <= i < |s| ==> s[i] == s[1..][i - 1];
      if Magnitude(s[0]) >= rest then Magnitude(s[0]) else rest
  }

  /** AVG(...) over a group. */
  function Mean(s: seq<Feedback>, f: Feedback -> real): real {
    if s == [] then 0.0 else Sum(s, f) / |s| as real
  }

  datatype TrendRow = TrendRow(month: Option<string>, positive: real, negative: real)

  /** strftime('%Y-%m', date) of a row. */
  function MonthKey(monthOf: Option<string> -> Option<string>): Feedback -> Option<string> {
    (r: Feedback) => monthOf(r.date)
  }

  /** The rows of month `m`. */
  function MonthGroup(rows: seq<Feedback>, monthOf: Option<string> -> Option<string>, m: Option<string>): seq<Feedback> {
    OfClass(rows, MonthKey(monthOf), m)
  }

  /** GROUP BY month ORDER BY month: the distinct months, NULL first. */
  function Months(rows: seq<Feedback>, monthOf: Option<string> -> Option<string>): (ms: seq<Option<string>>)
    ensures StrictlySorted(ms, NullsFirstLess)
    ensures forall i :: 0 <= i < |rows| ==> monthOf(rows[i].date) in ms
    ensures forall m :: m in ms ==> exists i :: 0 <= i < |rows| && monthOf(rows[i].date) == m
    ensures forall m :: m in ms ==> MonthGroup(rows, monthOf, m) != []
  {
    NullsFirstOrder();
    var ms := GroupKeys(rows, MonthKey(monthOf), NullsFirstLess);
    assert forall i :: 0 <= i < |rows| ==> MonthKey(monthOf)(rows[i]) == monthOf(rows[i].date);
    ms
  }

  function TrendOf(rows: seq<Feedback>, monthOf: Option<string> -> Option<string>, m: Option<string>): TrendRow {
    var g := MonthGroup(rows, monthOf, m);
    TrendRow(m, Mean(g, PosPart), Mean(g, NegPart))
  }

  /**
   * The trends endpoint: one row per month in ascending order, or, for an
   * empty table, one row for the current month with zeros. `monthOf` is
   * SQLite's strftime('%Y-%m', ...); `currentMonth` is the first seven
   * characters of the server clock's ISO date.
   */
  function Trends(rows: seq<Feedback>, monthOf: Option<string> -> Option<string>, currentMonth: string): seq<TrendRow> {
    if rows == [] then [TrendRow(Some(currentMonth), 0.0, 0.0)]
    else Map(Months(rows, monthOf), m => TrendOf(rows, monthOf, m))
  }

  lemma PartsOfMagnitude(r: Feedback)
    ensures 0.0 <= PosPart(r) && 0.0 <= NegPart(r)
    ensures PosPart(r) + NegPart(r) == Magnitude(r)
  {
  }

  /** In a non-empty group both averages are non-negative and together at most
      the largest magnitude: their sum is the mean magnitude. */
  lemma MeanPartsBounded(g: seq<Feedback>)
    requires g != []
    ensures 0.0 <= Mean(g, PosPart) && 0.0 <= Mean(g, NegPart)
    ensures Mean(g, PosPart) + Mean(g, NegPart) == Mean(g, Magnitude)
    ensures Mean(g, Magnitude) <= MaxMagnitude(g)
  {
    var hi := MaxMagnitude(g);
    forall i | 0 <= i < |g| ensures 0.0 <= PosPart(g[i]) <= hi && 0.0 <= NegPart(g[i]) <= hi {
      PartsOfMagnitude(g[i]);
    }
    MeanBounded(g, PosPart, hi);
    MeanBounded(g, NegPart, hi);
    MeanBounded(g, Magnitude, hi);
    forall x ensures Magnitude(x) == PosPart(x) + NegPart(x) {
      PartsOfMagnitude(x);
    }
    SumPlus(g, PosPart, NegPart, Magnitude);
    DivAdd(Sum(g, PosPart), Sum(g, NegPart), |g| as real);
  }

  lemma MeanBounded(g: seq<Feedback>, f: Feedback -> real, hi: real)
    requires forall i :: 0 <= i < |g| ==> 0.0 <= f(g[i]) <= hi
    ensures g != [] ==> 0.0 <= Mean(g, f) <= hi
  {
    SumBounds(g, f, hi);
    if g != [] {
      DivBound(Sum(g, f), |g| as real, hi);
    }
  }

  /** Some row of the table falls in month `m`. */
  predicate SomeRowInMonth(rows: seq<Feedback>, monthOf: Option<string> -> Option<string>, m: Option<string>) {
    exists k :: 0 <= k < |rows| && monthOf(rows[k].date) == m
  }

  /** Some trend row is for month `m`. */
  predicate HasTrendRow(t: seq<TrendRow>, m: Option<string>) {
    exists i :: 0 <= i < |t| && t[i].month == m
  }

  /** Trend rows in strictly ascending month order, each for a month of the
      table, and a row for every month of the table. */
  predicate ListsMonths(t: seq<TrendRow>, rows: seq<Feedback>, monthOf: Option<string> -> Option<string>) {
    && (forall i, j :: 0 <= i < j < |t| ==> NullsFirstLess(t[i].month, t[j].month))
    && (forall i :: 0 <= i < |t| ==> SomeRowInMonth(rows, monthOf, t[i].month))
    && (forall k :: 0 <= k < |rows| ==> HasTrendRow(t, monthOf(rows[k].date)))
  }

  /** The trend rows of a non-empty table are its distinct months, in
      ascending order, each with the averages of its own month's rows. */
  lemma TrendsMonths(rows: seq<Feedback>, monthOf: Option<string> -> Option<string>, currentMonth: string)
    requires rows != []
    ensures ListsMonths(Trends(rows, monthOf, currentMonth), rows, monthOf)
    ensures var t := Trends(rows, monthOf, currentMonth);
      forall i :: 0 <= i < |t| ==> t[i] == TrendOf(rows, monthOf, t[i].month)
  {
    TrendMonthsAt(rows, monthOf, currentMonth);
    MonthsListed(Trends(rows, monthOf, currentMonth), Months(rows, monthOf), rows, monthOf);
  }

  /** Rows labelled in turn with the months of the table list those months. */
  lemma MonthsListed(t: seq<TrendRow>, ms: seq<Option<string>>, rows: seq<Feedback>,
                     monthOf: Option<string> -> Option<string>)
    requires |t| == |ms| && forall i :: 0 <= i < |ms| ==> t[i].month == ms[i]
    requires StrictlySorted(ms, NullsFirstLess)
    requires forall i :: 0 <= i < |rows| ==> monthOf(rows[i].date) in ms
    requires forall m :: m in ms ==> exists i :: 0 <= i < |rows| && monthOf(rows[i].date) == m
    ensures ListsMonths(t, rows, monthOf)
  {
    forall i, j | 0 <= i < j < |t| ensures NullsFirstLess(t[i].month, t[j].month) {
      assert t[i].month == ms[i] && t[j].month == ms[j];
    }
    forall i | 0 <= i < |t| ensures SomeRowInMonth(rows, monthOf, t[i].month) {
      assert ms[i] in ms;
      var k :| 0 <= k < |rows| && monthOf(rows[k].date) == ms[i];
      assert t[i].month == ms[i];
    }
    forall k | 0 <= k < |rows| ensures HasTrendRow(t, monthOf(rows[k].date)) {
      var i :| 0 <= i < |ms| && ms[i] == monthOf(rows[k].date);
      assert t[i].month == ms[i];
    }
  }

  /** The i-th trend row is that of the i-th month. */
  lemma TrendMonthsAt(rows: seq<Feedback>, monthOf: Option<string> -> Option<string>, currentMonth: string)
    requires rows != []
    ensures |Trends(rows, monthOf, currentMonth)| == |Months(rows, monthOf)|
    ensures forall i :: 0 <= i < |Months(rows, monthOf)| ==>
      && Trends(rows, monthOf, currentMonth)[i] == TrendOf(rows, monthOf, Months(rows, monthOf)[i])
      && Trends(rows, monthOf, currentMonth)[i].month == Months(rows, monthOf)[i]
  {
    assert Trends(rows, monthOf, currentMonth) == Map(Months(rows, monthOf), m => TrendOf(rows, monthOf, m));
  }

  /** Each month's two averages are non-negative, and their sum, the mean
      magnitude of that month's scores, is at most the largest magnitude. */
  lemma TrendsBounded(rows: seq<Feedback>, monthOf: Option<string> -> Option<string>, currentMonth: string)
    ensures var t := Trends(rows, monthOf, currentMonth);
      forall i :: 0 <= i < |t| ==>
        var g := MonthGroup(rows, monthOf, t[i].month);
        && 0.0 <= t[i].positive && 0.0 <= t[i].negative
        && (rows != [] ==> g != [] && t[i].positive + t[i].negative == Mean(g, Magnitude) <= MaxMagnitude(g))
  {
    if rows != [] {
      var ms := Months(rows, monthOf);
      var t := Trends(rows, monthOf, currentMonth);
      forall i | 0 <= i < |t|
        ensures var g := MonthGroup(rows, monthOf, t[i].month);
          && g != []
          && 0.0 <= t[i].positive && 0.0 <= t[i].negative
          && t[i].positive + t[i].negative == Mean(g, Magnitude) <= MaxMagnitude(g)
      {
        assert ms[i] in ms;
        MeanPartsBounded(MonthGroup(rows, monthOf, ms[i]));
      }
    }
  }

  // ---------------------------------------------------------------------
  // /api/sentiment/by-category

  datatype CategoryRow = CategoryRow(category: Option<string>, positive: real, negative: real)

  function CategoryKey(r: Feedback): Option<string> { r.category }

  function CategoryGroup(rows: seq<Feedback>, c: Option<string>): seq<Feedback> {
    OfClass(rows, CategoryKey, c)
  }

  /** GROUP BY category: the distinct categories, listed in SQLite's group order. */
  function Categories(rows: seq<Feedback>): (cs: seq<Option<string>>)
    ensures StrictlySorted(cs, NullsFirstLess)
    ensures forall i :: 0 <= i < |rows| ==> rows[i].category in cs
    ensures forall c :: c in cs ==> exists i :: 0 <= i < |rows| && rows[i].category == c
    ensures forall c :: c in cs ==> CategoryGroup(rows, c) != []
  {
    NullsFirstOrder();
    GroupKeys(rows, CategoryKey, NullsFirstLess)
  }

  /** COUNT(CASE WHEN p THEN 1 END) * 100.0 / COUNT(*) over a group. */
  function PercentOf(g: seq<Feedback>, p: Feedback -> bool): real {
    if g == [] then 0.0 else 100.0 * Count(g, p) as real / |g| as real
  }

  predicate IsPositive(r: Feedback) { Gt(r.sentiment, 0.0) }
  predicate IsNegative(r: Feedback) { Lt(r.sentiment, 0.0) }

  function CategoryOf(rows: seq<Feedback>, c: Option<string>): CategoryRow {
    var g := CategoryGroup(rows, c);
    CategoryRow(c, PercentOf(g, IsPositive), PercentOf(g, IsNegative))
  }

  /** The by-category endpoint, with its `No Data` row for an empty table. */
  function ByCategory(rows: seq<Feedback>): seq<CategoryRow> {
    if rows == [] then [CategoryRow(Some("No Data"), 0.0, 0.0)]
    else Map(Categories(rows), c => CategoryOf(rows, c))
  }

  /** The rows with a positive score and those with a negative one are
      disjoint: together they are at most the group. */
  lemma {:induction false} SignCounts(g: seq<Feedback>)
    ensures Count(g, IsPositive) + Count(g, IsNegative) + Count(g, (r: Feedback) => !IsPositive(r) && !IsNegative(r)) == |g|
    decreases |g|
  {
    if g != [] {
      SignCounts(g[1..]);
    }
  }

  /** Each share is a percentage and the two shares add up to at most 100. */
  lemma PercentagesBounded(g: seq<Feedback>)
    ensures 0.0 <= PercentOf(g, IsPositive) <= 100.0
    ensures 0.0 <= PercentOf(g, IsNegative) <= 100.0
    ensures PercentOf(g, IsPositive) + PercentOf(g, IsNegative) <= 100.0
  {
    if g != [] {
      SignCounts(g);
      PercentArith(Count(g, IsPositive) as real, Count(g, IsNegative) as real, |g| as real);
    }
  }

  lemma CategoriesDistinct(rows: seq<Feedback>)
    ensures forall i, j :: 0 <= i < j < |Categories(rows)| ==> Categories(rows)[i] != Categories(rows)[j]
  {
    NullsFirstOrder();
    StrictlySortedDistinct(Categories(rows), NullsFirstLess);
  }

  /** Some row of the table has category `c`. */
  predicate SomeRowInCategory(rows: seq<Feedback>, c: Option<string>) {
    exists k :: 0 <= k < |rows| && rows[k].category == c
  }

  /** Some by-category row is for category `c`. */
  predicate HasCategoryRow(t: seq<CategoryRow>, c: Option<string>) {
    exists i :: 0 <= i < |t| && t[i].category == c
  }

  /** One row per category of the table, no category twice, each for a
      non-empty group with shares in [0, 100] summing to at most 100. */
  predicate ListsCategories(t: seq<CategoryRow>, rows: seq<Feedback>) {
    && (forall i, j :: 0 <= i < j < |t| ==> t[i].category != t[j].category)
    && (forall i :: 0 <= i < |t| ==> SomeRowInCategory(rows, t[i].category))
    && (forall k :: 0 <= k < |rows| ==> HasCategoryRow(t, rows[k].category))
    && forall i :: 0 <= i < |t| ==>
         && CategoryGroup(rows, t[i].category) != []
         && 0.0 <= t[i].positive <= 100.0 && 0.0 <= t[i].negative <= 100.0
         && t[i].positive + t[i].negative <= 100.0
  }

  /** One row per distinct category, each with shares in [0, 100] whose sum is at most 100. */
  lemma ByCategoryProperties(rows: seq<Feedback>)
    requires rows != []
    ensures ListsCategories(ByCategory(rows), rows)
    ensures var t := ByCategory(rows);
      forall i :: 0 <= i < |t| ==> t[i] == CategoryOf(rows, t[i].category)
  {
    assert ByCategory(rows) == Map(Categories(rows), c => CategoryOf(rows, c));
    CategoriesDistinct(rows);
    CategoriesListed(ByCategory(rows), Categories(rows), rows);
  }

  /** The rows computed for the distinct categories of the table list them. */
  lemma CategoriesListed(t: seq<CategoryRow>, cs: seq<Option<string>>, rows: seq<Feedback>)
    requires |t| == |cs| && forall i :: 0 <= i < |cs| ==> t[i] == CategoryOf(rows, cs[i])
    requires forall i, j :: 0 <= i < j < |cs| ==> cs[i] != cs[j]
    requires forall i :: 0 <= i < |rows| ==> rows[i].category in cs
    requires forall c :: c in cs ==> exists i :: 0 <= i < |rows| && rows[i].category == c
    requires forall c :: c in cs ==> CategoryGroup(rows, c) != []
    ensures ListsCategories(t, rows)
  {
    forall i, j | 0 <= i < j < |t| ensures t[i].category != t[j].category {
      assert t[i].category == cs[i] && t[j].category == cs[j];
    }
    forall i | 0 <= i < |t| ensures SomeRowInCategory(rows, t[i].category) {
      assert cs[i] in cs;
      var k :| 0 <= k < |rows| && rows[k].category == cs[i];
      assert t[i].category == cs[i];
    }
    forall k | 0 <= k < |rows| ensures HasCategoryRow(t, rows[k].category) {
      var i :| 0 <= i < |cs| && cs[i] == rows[k].category;
      assert t[i].category == cs[i];
    }
    forall i | 0 <= i < |t|
      ensures && CategoryGroup(rows, t[i].category) != []
              && 0.0 <= t[i].positive <= 100.0 && 0.0 <= t[i].negative <= 100.0
              && t[i].positive + t[i].negative <= 100.0
    {
      assert t[i] == CategoryOf(rows, cs[i]) && cs[i] in cs;
      PercentagesBounded(CategoryGroup(rows, cs[i]));
    }
  }

  // ---------------------------------------------------------------------
  // /api/sentiment/comparison

  /** The single row of the comparison query; a column is NULL when the
      table is empty, since x / 0 is NULL in SQLite. */
  datatype ComparisonRow = ComparisonRow(
    textPositive: Num, textNegative: Num, textNeutral: Num,
    combinedPositive: Num, combinedNegative: Num, combinedNeutral: Num)

  /** The three CASE conditions of the comparison query. */
  datatype Sign = Above | Below | AtZero

  predicate HasSign(x: Num, sign: Sign) {
    match sign
    case Above => Gt(x, 0.0)
    case Below => Lt(x, 0.0)
    case AtZero => Eq(x, 0.0)
  }

  /** COUNT(CASE WHEN col <sign> 0 THEN 1 END) */
  function SignCount(rows: seq<Feedback>, col: Feedback -> Num, sign: Sign): nat {
    Count(rows, (r: Feedback) => HasSign(col(r), sign))
  }

  /** The rows where the column is NULL. */
  function NullCount(rows: seq<Feedback>, col: Feedback -> Num): nat {
    Count(rows, (r: Feedback) => col(r).None?)
  }

  /** SignCount * 100.0 / COUNT(*), NULL on an empty table (x / 0 is NULL in SQLite). */
  function Share(rows: seq<Feedback>, col: Feedback -> Num, sign: Sign): Num {
    if rows == [] then None else Some(100.0 * SignCount(rows, col, sign) as real / |rows| as real)
  }

  function TextScore(r: Feedback): Num { r.textSentiment }
  function CombinedScore(r: Feedback): Num { r.combined }

  /** The comparison endpoint's single row. */
  function Comparison(rows: seq<Feedback>): ComparisonRow {
    ComparisonRow(
      Share(rows, TextScore, Above), Share(rows, TextScore, Below), Share(rows, TextScore, AtZero),
      Share(rows, CombinedScore, Above), Share(rows, CombinedScore, Below), Share(rows, CombinedScore, AtZero))
  }

  /** Rows above, below and at zero in one column, and the NULLs, account for every row. */
  lemma {:induction false} ColumnCounts(rows: seq<Feedback>, col: Feedback -> Num)
    ensures SignCount(rows, col, Above) + SignCount(rows, col, Below) + SignCount(rows, col, AtZero)
         + NullCount(rows, col) == |rows|
    decreases |rows|
  {
    if rows != [] {
      ColumnCounts(rows[1..], col);
    }
  }

  /** A column has no NULL exactly when its NULL count is 0. */
  lemma NoNulls(rows: seq<Feedback>, col: Feedback -> Num)
    ensures NullCount(rows, col) == 0 <==> forall i :: 0 <= i < |rows| ==> col(rows[i]).Some?
  {
    if forall i :: 0 <= i < |rows| ==> col(rows[i]).Some? {
      FilterNone(rows, (r: Feedback) => col(r).None?);
    } else {
      var i :| 0 <= i < |rows| && col(rows[i]).None?;
      FilterMembership(rows, (r: Feedback) => col(r).None?, rows[i]);
    }
  }

  /** For one column, the three shares sum to at most 100, and to exactly 100
      precisely when the column has no NULL. */
  lemma ColumnSharesSum(rows: seq<Feedback>, col: Feedback -> Num)
    requires rows != []
    ensures var p, q, z := Share(rows, col, Above), Share(rows, col, Below), Share(rows, col, AtZero);
      && p.Some? && q.Some? && z.Some?
      && p.value + q.value + z.value <= 100.0
      && ((p.value + q.value + z.value == 100.0) <==> forall i :: 0 <= i < |rows| ==> col(rows[i]).Some?)
  {
    ColumnCounts(rows, col);
    NoNulls(rows, col);
    ShareArith(SignCount(rows, col, Above) as real, SignCount(rows, col, Below) as real,
      SignCount(rows, col, AtZero) as real, NullCount(rows, col) as real, |rows| as real);
  }

  /** Exactly one row, all NULL on an empty table; otherwise, for text and for
      combined scores, three shares whose sum is at most 100 and exactly 100
      when the column has no NULL. */
  lemma ComparisonProperties(rows: seq<Feedback>)
    ensures var c := Comparison(rows);
      && (rows == [] ==> c == ComparisonRow(None, None, None, None, None, None))
      && (rows != [] ==>
           && c.textPositive.Some? && c.textNegative.Some? && c.textNeutral.Some?
           && c.combinedPositive.Some? && c.combinedNegative.Some? && c.combinedNeutral.Some?
           && c.textPositive.value + c.textNegative.value + c.textNeutral.value <= 100.0
           && ((c.textPositive.value + c.textNegative.value + c.textNeutral.value == 100.0)
                 <==> forall i :: 0 <= i < |rows| ==> rows[i].textSentiment.Some?)
           && c.combinedPositive.value + c.combinedNegative.value + c.combinedNeutral.value <= 100.0
           && ((c.combinedPositive.value + c.combinedNegative.value + c.combinedNeutral.value == 100.0)
                 <==> forall i :: 0 <= i < |rows| ==> rows[i].combined.Some?))
  {
    if rows != [] {
      ColumnSharesSum(rows, TextScore);
      ColumnSharesSum(rows, CombinedScore);
    }
  }

  // ---------------------------------------------------------------------
  // /api/sentiment/examples

  /** COALESCE(combined_score, sentiment_score) */
  function Effective(r: Feedback): Num {
    if r.combined.Some? then r.combined else r.sentiment
  }

  /** The CASE that names the class: the sign of the effective score, with
      NULL and zero falling to 'neutral'. */
  function Classify(r: Feedback): (c: string)
    ensures c == "positive" <==> Gt(Effective(r), 0.0)
    ensures c == "negative" <==> Lt(Effective(r), 0.0)
    ensures c == "neutral" <==> Effective(r).None? || Effective(r) == Some(0.0)
  {
    if Gt(Effective(r), 0.0) then "positive"
    else if Lt(Effective(r), 0.0) then "negative"
    else "neutral"
  }

  /** WHERE feedback_text IS NOT NULL */
  predicate HasText(r: Feedback) { r.text.Some? }

  datatype Example = Example(
    text: string, rating: Option<int>, textSentiment: real, combined: Num,
    classification: string, rn: nat)

  /** The classes in ORDER BY classification order. */
  const ExampleClasses: seq<string> := ["negative", "neutral", "positive"]
  const ExamplesPerClass: nat := 3

  function ToExample(r: Feedback, rn: nat): Example
    requires HasText(r)
  {
    Example(r.text.value, r.rating, r.textSentiment.GetOr(0.0), Effective(r), Classify(r), rn)
  }

  /** A class's rows numbered 1, 2, ... as ROW_NUMBER() does. */
  function Ranked(b: seq<Feedback>): (e: seq<Example>)
    requires forall i :: 0 <= i < |b| ==> HasText(b[i])
    ensures |e| == |b|
    ensures forall i :: 0 <= i < |b| ==> e[i] == ToExample(b[i], i + 1)
  {
    seq(|b|, i requires 0 <= i < |b| => ToExample(b[i], i + 1))
  }

  /** The rows with text, in the random order `shuffled` fixes. */
  function Candidates(shuffled: seq<Feedback>): (c: seq<Feedback>)
    ensures forall i :: 0 <= i < |c| ==> HasText(c[i])
  {
    Filter(shuffled, HasText)
  }

  /** The rows of class `cls` whose rank is at most 3. */
  function ClassBlock(shuffled: seq<Feedback>, cls: string): (b: seq<Feedback>)
    ensures forall i :: 0 <= i < |b| ==> HasText(b[i]) && Classify(b[i]) == cls
  {
    var cands := Candidates(shuffled);
    var all := OfClass(cands, Classify, cls);
    var r := Take(all, ExamplesPerClass);
    forall i | 0 <= i < |r| ensures HasText(r[i]) {
      assert r[i] == all[i];
      OfClassMembership(cands, Classify, cls, r[i]);
      FilterMembership(shuffled, HasText, r[i]);
    }
    r
  }

  /**
   * The examples endpoint: `shuffled` is the table in the order ORDER BY
   * RANDOM() draws; the result lists, class by class in the order negative,
   * neutral, positive, the first three rows of that class with their rank.
   */
  function Examples(shuffled: seq<Feedback>): seq<Example> {
    Ranked(ClassBlock(shuffled, "negative")) + Ranked(ClassBlock(shuffled, "neutral")) + Ranked(ClassBlock(shuffled, "positive"))
  }

  /** The class names sort as ORDER BY classification sorts them. */
  lemma ClassNamesAscend()
    ensures Text.Less(ExampleClasses[0], ExampleClasses[1]) && Text.Less(ExampleClasses[1], ExampleClasses[2])
  {
    assert ExampleClasses[0][..2] == ExampleClasses[1][..2] == "ne";
    assert Text.Less(ExampleClasses[0][2..], ExampleClasses[1][2..]);
  }

  function ClassRank(c: string): nat {
    if c == "negative" then 0 else if c == "neutral" then 1 else 2
  }

  /** ORDER BY classification, rn */
  predicate ExampleBefore(a: Example, b: Example) {
    ClassRank(a.classification) < ClassRank(b.classification)
    || (a.classification == b.classification && a.rn < b.rn)
  }

  predicate ExamplesOrdered(e: seq<Example>) {
    forall i, j :: 0 <= i < j < |e| ==> ExampleBefore(e[i], e[j])
  }

  lemma RankedOrdered(shuffled: seq<Feedback>, cls: string)
    ensures ExamplesOrdered(Ranked(ClassBlock(shuffled, cls)))
  {
  }

  lemma ConcatOrdered(a: seq<Example>, b: seq<Example>)
    requires ExamplesOrdered(a) && ExamplesOrdered(b)
    requires forall i, j :: 0 <= i < |a| && 0 <= j < |b| ==> ClassRank(a[i].classification) < ClassRank(b[j].classification)
    ensures ExamplesOrdered(a + b)
  {
    var e := a + b;
    forall i, j | 0 <= i < j < |e| ensures ExampleBefore(e[i], e[j]) {
      if j < |a| {
        assert e[i] == a[i] && e[j] == a[j];
      } else if i >= |a| {
        assert e[i] == b[i - |a|] && e[j] == b[j - |a|];
      } else {
        assert e[i] == a[i] && e[j] == b[j - |a|];
      }
    }
  }

  /** The examples come ordered by class, then by rank. */
  lemma ExamplesSorted(shuffled: seq<Feedback>)
    ensures ExamplesOrdered(Examples(shuffled))
  {
    var n := Ranked(ClassBlock(shuffled, "negative"));
    var u := Ranked(ClassBlock(shuffled, "neutral"));
    var p := Ranked(ClassBlock(shuffled, "positive"));
    RankedOrdered(shuffled, "negative");
    RankedOrdered(shuffled, "neutral");
    RankedOrdered(shuffled, "positive");
    ConcatOrdered(n, u);
    ConcatOrdered(n + u, p);
  }

  /** `classification = c` as a filter on examples. */
  function ClassifiedAs(c: string): Example -> bool {
    (e: Example) => e.classification == c
  }

  /** The examples of one class are that class's block. */
  lemma ExamplesOfClass(shuffled: seq<Feedback>, c: string)
    ensures Filter(Examples(shuffled), ClassifiedAs(c))
         == if c in ExampleClasses then Ranked(ClassBlock(shuffled, c)) else []
  {
    BlockFilter(shuffled, "negative", c);
    BlockFilter(shuffled, "neutral", c);
    BlockFilter(shuffled, "positive", c);
    FilterOfBlocks(Ranked(ClassBlock(shuffled, "negative")), Ranked(ClassBlock(shuffled, "neutral")),
                   Ranked(ClassBlock(shuffled, "positive")), c);
    ExampleClassesDistinct(c);
  }

  /** Three blocks, each holding only its own class, filtered by one class. */
  lemma FilterOfBlocks(n: seq<Example>, u: seq<Example>, q: seq<Example>, c: string)
    requires Filter(n, ClassifiedAs(c)) == if c == "negative" then n else []
    requires Filter(u, ClassifiedAs(c)) == if c == "neutral" then u else []
    requires Filter(q, ClassifiedAs(c)) == if c == "positive" then q else []
    ensures Filter(n + u + q, ClassifiedAs(c))
         == if c == "negative" then n else if c == "neutral" then u else if c == "positive" then q else []
  {
    FilterAppend(n + u, q, ClassifiedAs(c));
    FilterAppend(n, u, ClassifiedAs(c));
    ExampleClassesDistinct(c);
  }

  /** A class name equals at most one of the three. */
  lemma ExampleClassesDistinct(c: string)
    ensures c in ExampleClasses <==> c == "negative" || c == "neutral" || c == "positive"
    ensures c == "negative" ==> c != "neutral" && c != "positive"
    ensures c == "neutral" ==> c != "positive"
  {
    assert "negative"[0] != "positive"[0];
    assert |"negative"| != |"neutral"| && |"neutral"| != |"positive"|;
  }

  lemma BlockFilter(shuffled: seq<Feedback>, d: string, c: string)
    ensures Filter(Ranked(ClassBlock(shuffled, d)), ClassifiedAs(c))
         == if c == d then Ranked(ClassBlock(shuffled, d)) else []
  {
    var r := Ranked(ClassBlock(shuffled, d));
    if c == d {
      FilterAll(r, ClassifiedAs(c));
    } else {
      FilterNone(r, ClassifiedAs(c));
    }
  }

  /**
   * Each class yields exactly min(3, the number of rows of that class with
   * text) examples, whatever random order was drawn; no other class appears.
   */
  lemma ExamplesPerClassCount(rows: seq<Feedback>, shuffled: seq<Feedback>, c: string)
    requires multiset(shuffled) == multiset(rows)
    ensures Count(Examples(shuffled), ClassifiedAs(c))
         == if c in ExampleClasses then Min(ExamplesPerClass, ClassSize(Filter(rows, HasText), Classify, c)) else 0
  {
    ExamplesOfClass(shuffled, c);
    FilterPermutation(shuffled, rows, HasText);
    ClassSizePermutation(Filter(shuffled, HasText), Filter(rows, HasText), Classify, c);
  }

  /** A row of a class block is a row of the table with text. */
  lemma BlockRowFromRows(rows: seq<Feedback>, shuffled: seq<Feedback>, cls: string, k: nat)
    requires multiset(shuffled) == multiset(rows)
    requires k < |ClassBlock(shuffled, cls)|
    ensures ClassBlock(shuffled, cls)[k] in rows
  {
    var x := ClassBlock(shuffled, cls)[k];
    var cands := Candidates(shuffled);
    assert x == OfClass(cands, Classify, cls)[k];
    OfClassMembership(cands, Classify, cls, x);
    FilterMembership(shuffled, HasText, x);
    assert x in multiset(shuffled);
  }

  /** The examples of one class block come from rows of the table with text. */
  lemma BlockFromRows(rows: seq<Feedback>, shuffled: seq<Feedback>, cls: string)
    requires multiset(shuffled) == multiset(rows)
    ensures forall e :: e in Ranked(ClassBlock(shuffled, cls)) ==>
      exists r :: r in rows && HasText(r) && e == ToExample(r, e.rn)
  {
    var b := ClassBlock(shuffled, cls);
    forall e | e in Ranked(b) ensures exists r :: r in rows && HasText(r) && e == ToExample(r, e.rn) {
      var k :| 0 <= k < |b| && Ranked(b)[k] == e;
      BlockRowFromRows(rows, shuffled, cls, k);
      assert e == ToExample(b[k], k + 1);
    }
  }

  /** Every example is drawn from a row with text, with COALESCE(text_sentiment, 0)
      and the effective score as its values. */
  lemma ExamplesFromRows(rows: seq<Feedback>, shuffled: seq<Feedback>)
    requires multiset(shuffled) == multiset(rows)
    ensures forall e :: e in Examples(shuffled) ==>
      exists r :: r in rows && HasText(r) && e == ToExample(r, e.rn)
  {
    BlockFromRows(rows, shuffled, "negative");
    BlockFromRows(rows, shuffled, "neutral");
    BlockFromRows(rows, shuffled, "positive");
  }

  // ---------------------------------------------------------------------
  // Empty table

  /** On an empty table each endpoint gives its fall-back answer. */
  lemma EmptyTableAnswers(rows: seq<Feedback>, monthOf: Option<string> -> Option<string>, currentMonth: string)
    requires rows == []
    ensures Trends(rows, monthOf, currentMonth) == [TrendRow(Some(currentMonth), 0.0, 0.0)]
    ensures ByCategory(rows) == [CategoryRow(Some("No Data"), 0.0, 0.0)]
    ensures Comparison(rows) == ComparisonRow(None, None, None, None, None, None)
    ensures Examples(rows) == []
  {
    assert Candidates(rows) == [];
  }

  /** An imported CSV row always has text, so it is a candidate example, and
      (having no combined score) it is classed by the sign of its score. */
  lemma ImportedIsCandidate(row: CsvRow, now: string, parseFloat: string -> Option<real>)
    ensures HasText(Imported(row, now, parseFloat))
    ensures Classify(Imported(row, now, parseFloat)) ==
      var s := Imported(row, now, parseFloat).sentiment.value;
      if s > 0.0 then "positive" else if s < 0.0 then "negative" else "neutral"
  {
  }
}
