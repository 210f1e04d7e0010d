/** Products, multiples and remainders, with products as repeated addition where the solver needs it. */
module Arithmetic {

  /** k * d, by repeated addition. */
  ghost function Times(k: int, d: int): int
    decreases if k < 0 then -k else k
  {
    if k == 0 then 0 else if k > 0 then Times(k - 1, d) + d else Times(k + 1, d) - d
  }

  ghost predicate Multiple(x: int, d: int) {
    exists k :: Times(k, d) == x
  }

  lemma {:induction false} TimesIsProduct(k: int, d: int)
    ensures Times(k, d) == k * d
    decreases if k < 0 then -k else k
  {
    if k > 0 {
      TimesIsProduct(k - 1, d);
      assert (k - 1) * d == k * d - d;
    } else if k < 0 {
      TimesIsProduct(k + 1, d);
      assert (k + 1) * d == k * d + d;
    }
  }

  lemma TimesStep(k: int, d: int)
    ensures Times(0, d) == 0 && Times(k + 1, d) == Times(k, d) + d
    ensures 0 <= d && 0 <= k ==> 0 <= Times(k, d)
    ensures 0 <= d && 1 <= k ==> d <= Times(k, d)
  {
    if 0 <= d && 1 <= k {
      TimesOrder(1, k, d);
    }
    if 0 <= d && 0 <= k {
      TimesNonNegative(k, d);
    }
  }

  lemma TimesSum(a: int, b: int, d: int)
    ensures Times(a + b, d) == Times(a, d) + Times(b, d)
  {
    TimesIsProduct(a, d);
    TimesIsProduct(b, d);
    TimesIsProduct(a + b, d);
    assert (a + b) * d == a * d + b * d;
  }

  lemma TimesOfTimes(k: int, m: int, d: int)
    ensures Times(k, Times(m, d)) == Times(k * m, d)
  {
    hide Times;
    TimesIsProduct(m, d);
    TimesIsProduct(k, Times(m, d));
    TimesIsProduct(k * m, d);
    assert k * (m * d) == (k * m) * d;
  }

  lemma TimesNonNegative(k: int, d: int)
    requires 0 <= k && 0 <= d
    ensures 0 <= Times(k, d) && 0 <= k * d
  {
    TimesIsProduct(k, d);
    if k > 0 && d > 0 {
      MulAtLeast(k, d);
    }
  }

  lemma TimesOrder(a: int, b: int, d: int)
    requires 0 <= d && a <= b
    ensures Times(a, d) <= Times(b, d)
  {
    TimesNonNegative(b - a, d);
    TimesSum(b - a, a, d);
  }

  /** Multiples of d are closed under sums and differences. */
  lemma MultipleSum(x: int, y: int, d: int)
    requires Multiple(x, d) && Multiple(y, d)
    ensures Multiple(x + y, d) && Multiple(x - y, d)
  {
    var j :| Times(j, d) == x;
    var k :| Times(k, d) == y;
    TimesSum(j, k, d);
    TimesSum(j - k, k, d);
  }

  lemma MultipleIsMod(x: int, d: int)
    requires 0 < d
    ensures Multiple(x, d) <==> x % d == 0
  {
    if Multiple(x, d) {
      var k :| Times(k, d) == x;
      TimesIsProduct(k, d);
      MultipleMod(k, d);
    }
    TimesIsProduct(x / d, d);
  }

  lemma {:induction false} MulAtLeast(m: int, d: int)
    requires 0 < d
    ensures 1 <= m ==> d <= m * d
    ensures m <= -1 ==> m * d <= -d
    decreases if m < 0 then -m else m
  {
    if m > 1 {
      MulAtLeast(m - 1, d);
      assert m * d == (m - 1) * d + d;
    } else if m < -1 {
      MulAtLeast(m + 1, d);
      assert m * d == (m + 1) * d - d;
    }
  }

  lemma MulStep(k: int, q: int, d: int)
    requires 0 < d
    ensures k < q ==> k * d <= q * d - d
    ensures q <= k ==> q * d <= k * d
  {
    assert (q - k) * d == q * d - k * d;
    MulAtLeast(q - k, d);
  }

  lemma MultipleMod(q: int, d: int)
    requires 0 < d
    ensures (q * d) % d == 0
  {
    var k := (q * d) / d;
    MulStep(k, q, d);
    MulStep(q, k, d);
  }

  function Power(b: int, e: int): int
    requires 0 <= e
  {
    if e == 0 then 1 else b * Power(b, e - 1)
  }

  lemma {:induction false} PowerSum(b: int, d: int, e: int)
    requires 0 <= d && 0 <= e
    ensures Power(b, 0) == 1 && Power(b, 1) == b && Power(b, d + e) == Power(b, d) * Power(b, e)
    decreases d
  {
    if d > 0 {
      PowerSum(b, d - 1, e);
      assert b * (Power(b, d - 1) * Power(b, e)) == (b * Power(b, d - 1)) * Power(b, e);
    } else {
      assert Power(b, 1) == b * Power(b, 0);
    }
  }

  lemma ModIs(x: int, n: int, q: int, r: int)
    requires x == n * q + r && 0 <= r < n
    ensures x % n == r
  {
    var d := x / n - q;
    assert d * n == r - x % n;
    MulAtLeast(d, n);
  }

  lemma DivIs(x: int, n: int, q: int, r: int)
    requires x == n * q + r && 0 <= r < n
    ensures x / n == q
  {
    ModIs(x, n, q, r);
    var d := x / n - q;
    assert d * n == 0;
    MulAtLeast(d, n);
  }

  lemma DivStep(x: int, n: int)
    requires 1 <= n
    ensures x / n == (x - n) / n + 1
  {
    assert x - n == n * (x / n - 1) + x % n;
    DivIs(x - n, n, x / n - 1, x % n);
  }

  /** Counting modulo n. */
  lemma ModNext(k: int, n: int)
    requires 0 <= k && 1 <= n
    ensures 0 <= k % n < n
    ensures (k + 1) % n == if k % n + 1 >= n then 0 else k % n + 1
  {
    var q, r := k / n, k % n;
    assert k == n * q + r;
    if r + 1 < n {
      ModIs(k + 1, n, q, r + 1);
    } else {
      assert k + 1 == n * (q + 1);
      ModIs(k + 1, n, q + 1, 0);
    }
  }
}
