/**
 * Sequence operations shared by the data-frame and SQL models: row filters,
 * first-occurrence de-duplication, sums and the subsequence relation.
 */
module Seqs {

  /** The elements of `s` that satisfy `p`, in their order (a boolean mask). */
  function Filter<T>(s: seq<T>, p: T -> bool): (r: seq<T>)
    ensures |r| <= |s|
    ensures forall i :: 0 <= i < |r| ==> p(r[i])
    decreases |s|
  {
    if s == [] then []
    else if p(s[0]) then [s[0]] + Filter(s[1..], p)
    else Filter(s[1..], p)
  }

  /** `x` is kept by the filter exactly when it occurs in `s` and satisfies `p`. */
  lemma {:induction false} FilterMembership<T>(s: seq<T>, p: T -> bool, x: T)
    ensures x in Filter(s, p) <==> x in s && p(x)
    decreases |s|
  {
    if s != [] {
      FilterMembership(s[1..], p, x);
      assert s == [s[0]] + s[1..];
    }
  }

  lemma {:induction false} FilterAppend<T>(a: seq<T>, b: seq<T>, p: T -> bool)
    ensures Filter(a + b, p) == Filter(a, p) + Filter(b, p)
    decreases |a|
  {
    if a == [] {
      assert a + b == b;
    } else {
      assert (a + b)[1..] == a[1..] + b;
      FilterAppend(a[1..], b, p);
    }
  }

  /** A filter keeps everything when every element passes ... */
  lemma {:induction false} FilterAll<T>(s: seq<T>, p: T -> bool)
    requires forall i :: 0 <= i < |s| ==> p(s[i])
    ensures Filter(s, p) == s
    decreases |s|
  {
    if s != [] {
      FilterAll(s[1..], p);
    }
  }

  /** ... and nothing when no element passes. */
  lemma {:induction false} FilterNone<T>(s: seq<T>, p: T -> bool)
    requires forall i :: 0 <= i < |s| ==> !p(s[i])
    ensures Filter(s, p) == []
    decreases |s|
  {
    if s != [] {
      FilterNone(s[1..], p);
    }
  }

  /** Filtering twice by the same mask is filtering once. */
  lemma FilterIdempotent<T>(s: seq<T>, p: T -> bool)
    ensures Filter(Filter(s, p), p) == Filter(s, p)
  {
    FilterAll(Filter(s, p), p);
  }

  /** A mask and its complement split the rows: their sizes add up. */
  lemma {:induction false} FilterComplement<T>(s: seq<T>, p: T -> bool, q: T -> bool)
    requires forall x :: q(x) == !p(x)
    ensures |Filter(s, p)| + |Filter(s, q)| == |s|
    decreases |s|
  {
    if s != [] {
      FilterComplement(s[1..], p, q);
    }
  }

  /** How often `x` occurs after filtering. */
  lemma {:induction false} FilterMultiplicity<T>(s: seq<T>, p: T -> bool, x: T)
    ensures multiset(Filter(s, p))[x] == if p(x) then multiset(s)[x] else 0
    decreases |s|
  {
    if s != [] {
      FilterMultiplicity(s[1..], p, x);
      assert s == [s[0]] + s[1..];
    }
  }

  /** Filtering commutes with reordering: two permutations of one another
      keep permutations of one another, hence the same number of rows. */
  lemma FilterPermutation<T>(a: seq<T>, b: seq<T>, p: T -> bool)
    requires multiset(a) == multiset(b)
    ensures multiset(Filter(a, p)) == multiset(Filter(b, p))
    ensures |Filter(a, p)| == |Filter(b, p)|
  {
    var fa, fb := multiset(Filter(a, p)), multiset(Filter(b, p));
    forall x
      ensures fa[x] == fb[x]
    {
      FilterMultiplicity(a, p, x);
      FilterMultiplicity(b, p, x);
    }
    MultisetExtensional(fa, fb);
  }

  /** An element of a sequence is in every permutation of it. */
  lemma MultisetMember<T>(a: seq<T>, b: seq<T>, x: T)
    requires multiset(a) == multiset(b) && x in a
    ensures x in b
  {
    assert x in multiset(a);
  }

  lemma MultisetExtensional<T>(m: multiset<T>, n: multiset<T>)
    requires forall x :: m[x] == n[x]
    ensures m == n
  {
  }

  /** The first `n` elements, or all of them when there are fewer. */
  function Take<T>(s: seq<T>, n: nat): (r: seq<T>)
    ensures |r| == if n <= |s| then n else |s|
    ensures r == s[..|r|]
  {
    if n <= |s| then s[..n] else s
  }

  function Map<T, U>(s: seq<T>, f: T -> U): (r: seq<U>)
    ensures |r| == |s|
    ensures forall i :: 0 <= i < |s| ==> r[i] == f(s[i])
  {
    seq(|s|, i requires 0 <= i < |s| => f(s[i]))
  }

  function Sum<T>(s: seq<T>, f: T -> real): real
    decreases |s|
  {
    if s == [] then 0.0 else f(s[0]) + Sum(s[1..], f)
  }

  /** The number of elements that satisfy `p` (SQL's COUNT(CASE WHEN ... THEN 1 END)). */
  function Count<T>(s: seq<T>, p: T -> bool): nat {
    |Filter(s, p)|
  }

  /** A sum of terms in [0, hi] lies in [0, hi * |s|]. */
  lemma {:induction false} SumBounds<T>(s: seq<T>, f: T -> real, hi: real)
    requires forall i :: 0 <= i < |s| ==> 0.0 <= f(s[i]) <= hi
    ensures 0.0 <= Sum(s, f) <= hi * |s| as real
    decreases |s|
  {
    if s != [] {
      SumBounds(s[1..], f, hi);
      assert hi * |s| as real == hi + hi * |s[1..]| as real;
    }
  }

  /** Summing a pointwise sum is adding the sums. */
  lemma {:induction false} SumPlus<T>(s: seq<T>, f: T -> real, g: T -> real, h: T -> real)
    requires forall x :: h(x) == f(x) + g(x)
    ensures Sum(s, h) == Sum(s, f) + Sum(s, g)
    decreases |s|
  {
    if s != [] {
      SumPlus(s[1..], f, g, h);
    }
  }

  /** `a` can be obtained from `b` by deleting elements. */
  predicate IsSubseq<T(==)>(a: seq<T>, b: seq<T>)
    decreases |b|
  {
    a == [] || (b != [] && ((a[0] == b[0] && IsSubseq(a[1..], b[1..])) || IsSubseq(a, b[1..])))
  }

  lemma {:induction false} FilterIsSubseq<T>(s: seq<T>, p: T -> bool)
    ensures IsSubseq(Filter(s, p), s)
    decreases |s|
  {
    if s != [] {
      FilterIsSubseq(s[1..], p);
    }
  }

  /** Deleting elements in two steps is deleting elements. */
  lemma {:induction false} IsSubseqTransitive<T>(a: seq<T>, b: seq<T>, c: seq<T>)
    requires IsSubseq(a, b) && IsSubseq(b, c)
    ensures IsSubseq(a, c)
    decreases |c|
  {
    if a != [] {
      if b[0] == c[0] && IsSubseq(b[1..], c[1..]) {
        if a[0] == b[0] && IsSubseq(a[1..], b[1..]) {
          IsSubseqTransitive(a[1..], b[1..], c[1..]);
        } else {
          IsSubseqTransitive(a, b[1..], c[1..]);
        }
      } else {
        IsSubseqTransitive(a, b, c[1..]);
      }
    }
  }

  /** Keys that are pairwise distinct stay so after filtering. */
  lemma {:induction false} FilterDistinctKeys<T, K>(s: seq<T>, p: T -> bool, key: T -> K)
    requires forall i, j :: 0 <= i < j < |s| ==> key(s[i]) != key(s[j])
    ensures forall i, j :: 0 <= i < j < |Filter(s, p)| ==> key(Filter(s, p)[i]) != key(Filter(s, p)[j])
    decreases |s|
  {
    if s != [] {
      var t := s[1..];
      FilterDistinctKeys(t, p, key);
      if p(s[0]) {
        var f := Filter(t, p);
        var r := [s[0]] + f;
        forall i, j | 0 <= i < j < |r| ensures key(r[i]) != key(r[j]) {
          if i == 0 {
            assert r[j] == f[j - 1] && f[j - 1] in f;
            FilterMembership(t, p, r[j]);
            var k :| 0 <= k < |t| && t[k] == r[j];
            assert t[k] == s[k + 1];
            assert key(s[0]) != key(s[k + 1]);
          } else {
            assert r[i] == f[i - 1] && r[j] == f[j - 1];
            assert key(f[i - 1]) != key(f[j - 1]);
          }
        }
      }
    }
  }

  /** What a subsequence holds, the sequence holds. */
  lemma {:induction false} SubseqMember<T>(a: seq<T>, b: seq<T>, x: T)
    requires IsSubseq(a, b) && x in a
    ensures x in b
    decreases |b|
  {
    if a[0] == b[0] && IsSubseq(a[1..], b[1..]) {
      if x != a[0] {
        SubseqMember(a[1..], b[1..], x);
      }
    } else {
      SubseqMember(a, b[1..], x);
    }
  }

  /** The set of keys occurring in `s`. */
  function Keys<T, K>(s: seq<T>, key: T -> K): set<K>
  {
    set i | 0 <= i < |s| :: key(s[i])
  }

  /**
   * pandas' drop_duplicates(keep='first'): an element is kept exactly when
   * no earlier element (nor anything in `seen`) has the same key.
   */
  function DedupFrom<T, K(==)>(s: seq<T>, key: T -> K, seen: set<K>): (r: seq<T>)
    decreases |s|
  {
    if s == [] then []
    else if key(s[0]) in seen then DedupFrom(s[1..], key, seen)
    else [s[0]] + DedupFrom(s[1..], key, seen + {key(s[0])})
  }

  function Dedup<T, K(==)>(s: seq<T>, key: T -> K): seq<T>
  {
    DedupFrom(s, key, {})
  }

  /** pandas' duplicated(keep='first').sum(): the elements whose key occurred before. */
  function DuplicatedFrom<T, K(==)>(s: seq<T>, key: T -> K, seen: set<K>): nat
    decreases |s|
  {
    if s == [] then 0
    else if key(s[0]) in seen then 1 + DuplicatedFrom(s[1..], key, seen)
    else DuplicatedFrom(s[1..], key, seen + {key(s[0])})
  }

  /** The keys of the de-duplicated rows are pairwise distinct, avoid `seen`,
      and together with `seen` cover every key of the input. */
  lemma {:induction false} DedupKeys<T, K>(s: seq<T>, key: T -> K, seen: set<K>)
    ensures var r := DedupFrom(s, key, seen);
      && (forall i :: 0 <= i < |r| ==> key(r[i]) !in seen)
      && (forall i, j :: 0 <= i < j < |r| ==> key(r[i]) != key(r[j]))
      && Keys(r, key) + seen == Keys(s, key) + seen
    decreases |s|
  {
    if s != [] {
      var k := key(s[0]);
      if k in seen {
        DedupKeys(s[1..], key, seen);
        KeysCons(s, key);
      } else {
        DedupKeys(s[1..], key, seen + {k});
        var rest := DedupFrom(s[1..], key, seen + {k});
        KeysCons(s, key);
        KeysCons([s[0]] + rest, key);
        assert ([s[0]] + rest)[1..] == rest;
      }
    }
  }

  lemma KeysCons<T, K>(s: seq<T>, key: T -> K)
    requires s != []
    ensures Keys(s, key) == {key(s[0])} + Keys(s[1..], key)
  {
    forall k | k in Keys(s, key) ensures k in {key(s[0])} + Keys(s[1..], key) {
      var i :| 0 <= i < |s| && key(s[i]) == k;
      if i > 0 { assert key(s[1..][i - 1]) == k; }
    }
    forall k | k in Keys(s[1..], key) ensures k in Keys(s, key) {
      var i :| 0 <= i < |s[1..]| && key(s[1..][i]) == k;
      assert key(s[i + 1]) == k;
    }
  }

  /** The first occurrence of every key not in `seen` survives de-duplication. */
  lemma {:induction false} DedupKeepsFirst<T, K>(s: seq<T>, key: T -> K, seen: set<K>, i: nat)
    requires i < |s| && key(s[i]) !in seen
    requires forall j :: 0 <= j < i ==> key(s[j]) != key(s[i])
    ensures s[i] in DedupFrom(s, key, seen)
    decreases |s|
  {
    if i > 0 {
      var k := key(s[0]);
      DedupKeepsFirst(s[1..], key, if k in seen then seen else seen + {k}, i - 1);
    }
  }

  lemma {:induction false} DedupIsSubseq<T, K>(s: seq<T>, key: T -> K, seen: set<K>)
    ensures IsSubseq(DedupFrom(s, key, seen), s)
    decreases |s|
  {
    if s != [] {
      var k := key(s[0]);
      DedupIsSubseq(s[1..], key, if k in seen then seen else seen + {k});
    }
  }

  /** Every row is either kept or counted as a duplicate. */
  lemma {:induction false} DedupCount<T, K>(s: seq<T>, key: T -> K, seen: set<K>)
    ensures |DedupFrom(s, key, seen)| + DuplicatedFrom(s, key, seen) == |s|
    decreases |s|
  {
    if s != [] {
      var k := key(s[0]);
      DedupCount(s[1..], key, if k in seen then seen else seen + {k});
    }
  }

  /** Rows whose keys are already distinct and unseen are left alone. */
  lemma {:induction false} DedupDistinct<T, K>(s: seq<T>, key: T -> K, seen: set<K>)
    requires forall i :: 0 <= i < |s| ==> key(s[i]) !in seen
    requires forall i, j :: 0 <= i < j < |s| ==> key(s[i]) != key(s[j])
    ensures DedupFrom(s, key, seen) == s
    decreases |s|
  {
    if s != [] {
      var k := key(s[0]);
      forall i | 0 <= i < |s[1..]| ensures key(s[1..][i]) !in seen + {k} {
        assert s[1..][i] == s[i + 1];
      }
      DedupDistinct(s[1..], key, seen + {k});
    }
  }

  /** De-duplicating twice changes nothing the second time. */
  lemma DedupIdempotent<T, K>(s: seq<T>, key: T -> K)
    ensures Dedup(Dedup(s, key), key) == Dedup(s, key)
  {
    DedupKeys(s, key, {});
    DedupDistinct(Dedup(s, key), key, {});
  }

  /** 0, 1, ..., n - 1: the default index of a frame of n rows. */
  function Range(n: nat): (r: seq<nat>)
    ensures |r| == n && forall i :: 0 <= i < n ==> r[i] == i
  {
    seq(n, i requires 0 <= i < n => i)
  }

  /** Strictly ascending positions. */
  predicate Ascending(s: seq<nat>) {
    forall i, j :: 0 <= i < j < |s| ==> s[i] < s[j]
  }

  lemma {:induction false} FilterAscending(s: seq<nat>, p: nat -> bool)
    requires Ascending(s)
    ensures Ascending(Filter(s, p))
    decreases |s|
  {
    if s != [] {
      var t := s[1..];
      assert Ascending(t) by {
        forall i, j | 0 <= i < j < |t| ensures t[i] < t[j] {
          assert t[i] == s[i + 1] && t[j] == s[j + 1];
        }
      }
      FilterAscending(t, p);
      var r := Filter(t, p);
      forall x | x in r ensures s[0] < x {
        FilterMembership(t, p, x);
        var i :| 0 <= i < |t| && t[i] == x;
        assert x == s[i + 1];
      }
      if p(s[0]) {
        var f := [s[0]] + r;
        forall i, j | 0 <= i < j < |f| ensures f[i] < f[j] {
          assert f[j] == r[j - 1] && f[j] in r;
          if i > 0 {
            assert f[i] == r[i - 1];
          }
        }
      }
    }
  }
}
