/** Option and Result, the two failure-carrying datatypes the model uses. */
module Wrappers {

  datatype Option<+T> = None | Some(value: T) {
    /** The value, or `default` when absent (SQL COALESCE, JavaScript `||`). */
    function GetOr(default: T): T {
      match this
      case Some(v) => v
      case None => default
    }
  }

  datatype Result<+R, +E> = Success(value: R) | Failure(error: E)
}

/**
 * Numbers that may be missing. SQL NULL and the NaN of pandas behave alike
 * under comparison: `x > c`, `x < c` and `x = c` are never true of them.
 * `None` stands for both.
 */
module Numbers {
  import opened Wrappers

  type Num = Option<real>

  predicate Gt(x: Num, c: real) { x.Some? && x.value > c }
  predicate Lt(x: Num, c: real) { x.Some? && x.value < c }
  predicate Le(x: Num, c: real) { x.Some? && x.value <= c }
  predicate Eq(x: Num, c: real) { x.Some? && x.value == c }

  /** On a present number exactly one of the three comparisons with `c` holds;
      on a missing one none does. */
  lemma Trichotomy(x: Num, c: real)
    ensures x.Some? ==> (Gt(x, c) || Lt(x, c) || Eq(x, c))
    ensures x.Some? ==> !(Gt(x, c) && Lt(x, c)) && !(Gt(x, c) && Eq(x, c)) && !(Lt(x, c) && Eq(x, c))
    ensures x.None? ==> !Gt(x, c) && !Lt(x, c) && !Eq(x, c)
  {
  }

  // Percentages: the arithmetic behind `COUNT(...) * 100.0 / COUNT(*)`.

  lemma Scale(p: real, n: real)
    requires n > 0.0
    ensures 100.0 * p / n == 100.0 * (p / n)
  {
  }
  lemma DivAdd(p: real, q: real, n: real)
    requires n > 0.0
    ensures p / n + q / n == (p + q) / n
  {
  }
  lemma PercentArith(p: real, q: real, n: real)
    requires n > 0.0 && 0.0 <= p && 0.0 <= q && p + q <= n
    ensures 0.0 <= 100.0 * p / n <= 100.0 && 0.0 <= 100.0 * q / n <= 100.0
    ensures 100.0 * p / n + 100.0 * q / n <= 100.0
  {
    Scale(p, n); Scale(q, n); DivAdd(p, q, n);
    DivBound(p, n, 1.0); DivBound(q, n, 1.0); DivBound(p + q, n, 1.0);
  }
  lemma ShareArith(a: real, b: real, c: real, k: real, n: real)
    requires n > 0.0 && 0.0 <= a && 0.0 <= b && 0.0 <= c && 0.0 <= k && a + b + c + k == n
    ensures 100.0 * a / n + 100.0 * b / n + 100.0 * c / n <= 100.0
    ensures 100.0 * a / n + 100.0 * b / n + 100.0 * c / n == 100.0 <==> k == 0.0
  {
    Scale(a, n); Scale(b, n); Scale(c, n);
    DivAdd(a, b, n); DivAdd(a + b, c, n);
    assert (a + b + c) / n == (n - k) / n;
    DivAdd(n - k, k, n);
    assert n / n == 1.0;
    assert k > 0.0 ==> k / n > 0.0;
  }
  lemma DivBound(a: real, n: real, hi: real)
    requires n > 0.0 && 0.0 <= a <= hi * n
    ensures 0.0 <= a / n <= hi
  {
  }
}
