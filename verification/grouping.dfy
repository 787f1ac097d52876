/**
 * Grouping, sorting and per-class sampling, shared by the SQL queries
 * (GROUP BY, ORDER BY, ROW_NUMBER() ... PARTITION BY) and the pandas
 * scripts (groupby, sort_values, sample).
 */
module Grouping {
  import opened Wrappers
  import opened Seqs
  import Text

  /** `lt` is a strict total order. */
  ghost predicate StrictOrder<K(!new)>(lt: (K, K) -> bool) {
    && (forall a :: !lt(a, a))
    && (forall a, b, c :: lt(a, b) && lt(b, c) ==> lt(a, c))
    && (forall a, b :: a == b || lt(a, b) || lt(b, a))
  }

  /** SQLite's ORDER BY on a nullable text column: NULL first, then by code point. */
  predicate NullsFirstLess(a: Option<string>, b: Option<string>) {
    match (a, b)
    case (None, Some(_)) => true
    case (Some(x), Some(y)) => Text.Less(x, y)
    case _ => false
  }

  lemma StringOrder()
    ensures StrictOrder(Text.Less)
  {
    forall a: string ensures !Text.Less(a, a) {
      Text.LessIrreflexive(a);
    }
    forall a: string, b: string, c: string | Text.Less(a, b) && Text.Less(b, c)
      ensures Text.Less(a, c)
    {
      Text.LessTransitive(a, b, c);
    }
    forall a: string, b: string ensures a == b || Text.Less(a, b) || Text.Less(b, a) {
      Text.LessTotal(a, b);
    }
  }

  lemma NullsFirstOrder()
    ensures StrictOrder(NullsFirstLess)
  {
    StringOrder();
    forall a: Option<string> ensures !NullsFirstLess(a, a) {
    }
    forall a: Option<string>, b: Option<string>, c: Option<string> | NullsFirstLess(a, b) && NullsFirstLess(b, c)
      ensures NullsFirstLess(a, c)
    {
      if a.Some? {
        Text.LessTransitive(a.value, b.value, c.value);
      }
    }
    forall a: Option<string>, b: Option<string> ensures a == b || NullsFirstLess(a, b) || NullsFirstLess(b, a) {
      if a.Some? && b.Some? {
        Text.LessTotal(a.value, b.value);
      }
    }
  }

  predicate StrictlySorted<K>(s: seq<K>, lt: (K, K) -> bool) {
    forall i, j :: 0 <= i < j < |s| ==> lt(s[i], s[j])
  }

  /** A strictly sorted list has no repeated element. */
  lemma StrictlySortedDistinct<K(!new)>(ks: seq<K>, lt: (K, K) -> bool)
    requires StrictOrder(lt) && StrictlySorted(ks, lt)
    ensures forall i, j :: 0 <= i < j < |ks| ==> ks[i] != ks[j]
  {
    forall i, j | 0 <= i < j < |ks| ensures ks[i] != ks[j] {
      assert lt(ks[i], ks[j]);
    }
  }

  /** Adds `x` to a strictly sorted list of distinct keys. */
  function InsertDistinct<K(==,!new)>(r: seq<K>, x: K, lt: (K, K) -> bool): (r': seq<K>)
    requires StrictOrder(lt) && StrictlySorted(r, lt)
    ensures StrictlySorted(r', lt)
    ensures forall y :: y in r' <==> y in r || y == x
    decreases |r|
  {
    if r == [] then [x]
    else if x == r[0] then r
    else if lt(x, r[0]) then
      assert forall y :: y in r ==> y == r[0] || lt(r[0], y);
      SortedCons(x, r, lt);
      [x] + r
    else
      var t := InsertDistinct(r[1..], x, lt);
      assert lt(r[0], x);
      assert forall y :: y in r[1..] ==> lt(r[0], y);
      SortedCons(r[0], t, lt);
      [r[0]] + t
  }

  lemma SortedCons<K>(h: K, t: seq<K>, lt: (K, K) -> bool)
    requires StrictlySorted(t, lt)
    requires forall y :: y in t ==> lt(h, y)
    ensures StrictlySorted([h] + t, lt)
  {
    var s := [h] + t;
    forall i, j | 0 <= i < j < |s| ensures lt(s[i], s[j]) {
      assert s[j] == t[j - 1];
      if i > 0 {
        assert s[i] == t[i - 1];
      }
    }
  }

  /** The rows of one class, in their order. */
  function OfClass<T, K(==)>(s: seq<T>, key: T -> K, c: K): (r: seq<T>)
    ensures forall i :: 0 <= i < |r| ==> key(r[i]) == c
  {
    Filter(s, x => key(x) == c)
  }

  lemma OfClassMembership<T, K>(s: seq<T>, key: T -> K, c: K, x: T)
    ensures x in OfClass(s, key, c) <==> x in s && key(x) == c
  {
    FilterMembership(s, y => key(y) == c, x);
  }

  lemma OfClassEmpty<T, K>(s: seq<T>, key: T -> K, c: K)
    requires forall i :: 0 <= i < |s| ==> key(s[i]) != c
    ensures OfClass(s, key, c) == []
  {
    FilterNone(s, x => key(x) == c);
  }

  /** The number of rows of class `c`. */
  function ClassSize<T, K(==)>(s: seq<T>, key: T -> K, c: K): nat {
    |OfClass(s, key, c)|
  }

  lemma OfClassAppend<T, K>(a: seq<T>, b: seq<T>, key: T -> K, c: K)
    ensures OfClass(a + b, key, c) == OfClass(a, key, c) + OfClass(b, key, c)
  {
    FilterAppend(a, b, x => key(x) == c);
  }

  /** Reordering the rows does not change the size of any class. */
  lemma ClassSizePermutation<T, K>(a: seq<T>, b: seq<T>, key: T -> K, c: K)
    requires multiset(a) == multiset(b)
    ensures ClassSize(a, key, c) == ClassSize(b, key, c)
    ensures multiset(OfClass(a, key, c)) == multiset(OfClass(b, key, c))
  {
    FilterPermutation(a, b, x => key(x) == c);
  }

  /**
   * The distinct keys of `xs` in ascending order: the groups a GROUP BY
   * forms, in the order ORDER BY (or pandas' groupby) lists them.
   */
  function SortedDistinct<K(==,!new)>(xs: seq<K>, lt: (K, K) -> bool): (r: seq<K>)
    requires StrictOrder(lt)
    ensures StrictlySorted(r, lt)
    ensures forall y :: y in r <==> y in xs
    decreases |xs|
  {
    if xs == [] then [] else InsertDistinct(SortedDistinct(xs[1..], lt), xs[0], lt)
  }

  /**
   * The groups GROUP BY forms on `key`, in ascending key order: every row's
   * key is listed, and every listed key has at least one row.
   */
  function GroupKeys<T, K(==,!new)>(rows: seq<T>, key: T -> K, lt: (K, K) -> bool): (ks: seq<K>)
    requires StrictOrder(lt)
    ensures StrictlySorted(ks, lt)
    ensures forall i :: 0 <= i < |rows| ==> key(rows[i]) in ks
    ensures forall k :: k in ks ==> exists i :: 0 <= i < |rows| && key(rows[i]) == k
    ensures forall k :: k in ks ==> OfClass(rows, key, k) != []
  {
    var keys := Map(rows, key);
    var ks := SortedDistinct(keys, lt);
    assert forall i :: 0 <= i < |rows| ==> keys[i] in ks;
    forall k | k in ks ensures (exists i :: 0 <= i < |rows| && key(rows[i]) == k) && OfClass(rows, key, k) != [] {
      var i :| 0 <= i < |keys| && keys[i] == k;
      OfClassMembership(rows, key, k, rows[i]);
    }
    ks
  }

  /** The rows of class `c` within a block whose rows all have class `d`. */
  lemma OfClassOfBlock<T, K>(block: seq<T>, key: T -> K, c: K, d: K)
    requires forall i :: 0 <= i < |block| ==> key(block[i]) == d
    ensures OfClass(block, key, c) == if c == d then block else []
  {
    if c == d {
      FilterAll(block, x => key(x) == c);
    } else {
      FilterNone(block, x => key(x) == c);
    }
  }

  /**
   * For each class in turn, the first `cap` rows of that class: with
   * `shuffled` a random order of the rows, this is drawing up to `cap`
   * rows of each class at random (pandas' sample, ROW_NUMBER() OVER
   * (PARTITION BY ... ORDER BY RANDOM()) <= cap).
   */
  function CappedSample<T, K(==)>(shuffled: seq<T>, key: T -> K, classes: seq<K>, cap: nat): seq<T>
    decreases |classes|
  {
    if classes == [] then []
    else
      var n := |classes| - 1;
      CappedSample(shuffled, key, classes[..n], cap) + Take(OfClass(shuffled, key, classes[n]), cap)
  }

  /** Membership in a non-empty sequence splits into its prefix and its last element. */
  lemma InitLast<K>(s: seq<K>, c: K)
    requires s != []
    requires forall i, j :: 0 <= i < j < |s| ==> s[i] != s[j]
    ensures c in s <==> c in s[..|s| - 1] || c == s[|s| - 1]
    ensures c == s[|s| - 1] ==> c !in s[..|s| - 1]
  {
    assert s == s[..|s| - 1] + [s[|s| - 1]];
  }

  /** The last class listed adds its block to the sample drawn for the others. */
  lemma CappedSampleLastClass<T, K>(shuffled: seq<T>, key: T -> K, classes: seq<K>, cap: nat, c: K)
    requires classes != []
    ensures var n := |classes| - 1;
      ClassSize(CappedSample(shuffled, key, classes, cap), key, c)
      == ClassSize(CappedSample(shuffled, key, classes[..n], cap), key, c)
         + (if c == classes[n] then Min(cap, ClassSize(shuffled, key, c)) else 0)
  {
    var n := |classes| - 1;
    var rest := CappedSample(shuffled, key, classes[..n], cap);
    var block := Take(OfClass(shuffled, key, classes[n]), cap);
    OfClassAppend(rest, block, key, c);
    OfClassOfBlock(block, key, c, classes[n]);
  }

  /** Each listed class contributes min(cap, its size) rows; unlisted classes none. */
  lemma {:induction false} CappedSampleClassSize<T, K>(shuffled: seq<T>, key: T -> K, classes: seq<K>, cap: nat, c: K)
    requires forall i, j :: 0 <= i < j < |classes| ==> classes[i] != classes[j]
    ensures ClassSize(CappedSample(shuffled, key, classes, cap), key, c)
         == if c in classes then Min(cap, ClassSize(shuffled, key, c)) else 0
    decreases |classes|
  {
    if classes != [] {
      var init := classes[..|classes| - 1];
      forall i, j | 0 <= i < j < |init| ensures init[i] != init[j] {
        assert init[i] == classes[i] && init[j] == classes[j];
      }
      CappedSampleClassSize(shuffled, key, init, cap, c);
      CappedSampleLastClass(shuffled, key, classes, cap, c);
      InitLast(classes, c);
    }
  }

  /** Sampling one more class appends that class's block. */
  lemma CappedSampleSnoc<T, K>(shuffled: seq<T>, key: T -> K, classes: seq<K>, c: K, cap: nat)
    ensures CappedSample(shuffled, key, classes + [c], cap)
         == CappedSample(shuffled, key, classes, cap) + Take(OfClass(shuffled, key, c), cap)
  {
    assert (classes + [c])[..|classes|] == classes;
  }

  /** Mapping the rows by a function that keeps the key commutes with taking a class. */
  lemma {:induction false} OfClassMap<T, U, K>(s: seq<T>, f: T -> U, key: T -> K, key': U -> K, c: K)
    requires forall x :: key'(f(x)) == key(x)
    ensures OfClass(Map(s, f), key', c) == Map(OfClass(s, key, c), f)
    decreases |s|
  {
    if s != [] {
      assert Map(s, f) == [f(s[0])] + Map(s[1..], f);
      OfClassMap(s[1..], f, key, key', c);
      if key(s[0]) == c {
        assert Map([s[0]] + OfClass(s[1..], key, c), f) == [f(s[0])] + Map(OfClass(s[1..], key, c), f);
      }
    }
  }

  /** A listed class with rows puts at least one row in the sample. */
  lemma {:induction false} CappedSampleNonEmpty<T, K>(shuffled: seq<T>, key: T -> K, classes: seq<K>, cap: nat, c: K)
    requires c in classes && cap > 0 && ClassSize(shuffled, key, c) > 0
    ensures CappedSample(shuffled, key, classes, cap) != []
    decreases |classes|
  {
    var n := |classes| - 1;
    if classes[n] != c {
      assert classes == classes[..n] + [classes[n]];
      CappedSampleNonEmpty(shuffled, key, classes[..n], cap, c);
    } else {
      assert |Take(OfClass(shuffled, key, c), cap)| > 0;
    }
  }

  /** Every sampled row is a row of the input, of a listed class. */
  lemma {:induction false} CappedSampleMembers<T, K>(shuffled: seq<T>, key: T -> K, classes: seq<K>, cap: nat)
    ensures var r := CappedSample(shuffled, key, classes, cap);
      forall x :: x in r ==> x in shuffled && key(x) in classes
    decreases |classes|
  {
    if classes != [] {
      var n := |classes| - 1;
      var init, last := classes[..n], classes[n];
      var rest := CappedSample(shuffled, key, init, cap);
      var block := Take(OfClass(shuffled, key, last), cap);
      CappedSampleMembers(shuffled, key, init, cap);
      forall x | x in block ensures x in shuffled && key(x) == last {
        FilterMembership(shuffled, x => key(x) == last, x);
      }
      forall x | x in rest ensures key(x) in classes {
        assert key(x) in init;
      }
    }
  }

  /** At most `cap` rows per listed class. */
  lemma {:induction false} CappedSampleSize<T, K>(shuffled: seq<T>, key: T -> K, classes: seq<K>, cap: nat)
    ensures |CappedSample(shuffled, key, classes, cap)| <= cap * |classes|
    decreases |classes|
  {
    if classes != [] {
      var n := |classes| - 1;
      CappedSampleSize(shuffled, key, classes[..n], cap);
      MulSucc(cap, n);
    }
  }

  lemma MulSucc(a: nat, n: nat)
    ensures a * (n + 1) == a * n + a
  {
  }

  function Min(a: int, b: int): int { if a <= b then a else b }

  /** Sorted by key, ascending (ties in any order). */
  predicate SortedBy<T, K>(s: seq<T>, key: T -> K, lt: (K, K) -> bool) {
    forall i, j :: 0 <= i < j < |s| ==> !lt(key(s[j]), key(s[i]))
  }

  function InsertBy<T, K(!new)>(x: T, s: seq<T>, key: T -> K, lt: (K, K) -> bool): (r: seq<T>)
    requires StrictOrder(lt) && SortedBy(s, key, lt)
    ensures SortedBy(r, key, lt)
    ensures multiset(r) == multiset(s) + multiset{x}
    decreases |s|
  {
    if s == [] || !lt(key(s[0]), key(x)) then
      assert forall y :: y in s ==> y == s[0] || !lt(key(y), key(s[0]));
      SortedByCons(x, s, key, lt);
      [x] + s
    else
      var t := InsertBy(x, s[1..], key, lt);
      assert s == [s[0]] + s[1..];
      forall y | y in t ensures !lt(key(y), key(s[0])) {
        assert y in multiset(t);
      }
      SortedByCons(s[0], t, key, lt);
      [s[0]] + t
  }

  lemma SortedByCons<T, K>(h: T, t: seq<T>, key: T -> K, lt: (K, K) -> bool)
    requires SortedBy(t, key, lt)
    requires forall y :: y in t ==> !lt(key(y), key(h))
    ensures SortedBy([h] + t, key, lt)
  {
    var s := [h] + t;
    forall i, j | 0 <= i < j < |s| ensures !lt(key(s[j]), key(s[i])) {
      assert s[j] == t[j - 1];
      if i > 0 {
        assert s[i] == t[i - 1];
      }
    }
  }

  /** A sort by key, as pandas' sort_values does it (ties in some order). */
  function SortBy<T, K(!new)>(s: seq<T>, key: T -> K, lt: (K, K) -> bool): (r: seq<T>)
    requires StrictOrder(lt)
    ensures SortedBy(r, key, lt)
    ensures multiset(r) == multiset(s)
    decreases |s|
  {
    if s == [] then []
    else
      assert s == [s[0]] + s[1..];
      InsertBy(s[0], SortBy(s[1..], key, lt), key, lt)
  }
}
