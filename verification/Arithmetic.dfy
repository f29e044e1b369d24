/** Machine word limits, and facts about quotients and remainders by a variable divisor. */
module Arithmetic {

  const UINT16_LIMIT: nat := 0x1_0000
  const UINT32_LIMIT: nat := 0x1_0000_0000
  const UINT64_LIMIT: nat := 0x1_0000_0000_0000_0000

  lemma DivBounds(a: nat, n: nat)
    requires n > 0
    ensures n * (a / n) <= a < n * (a / n) + n
  {
  }

  lemma TimesMonotone(n: nat, a: nat, b: nat)
    requires a <= b
    ensures n * a <= n * b
  {
  }

  lemma DivBelow(a: nat, n: nat, q: nat)
    requires n > 0 && a < n * q
    ensures a / n < q
  {
    var k := a / n;
    DivBounds(a, n);
    if k >= q {
      TimesMonotone(n, q, k);
      assert false;
    }
  }

  lemma DivMonotone(a: nat, b: nat, n: nat)
    requires n > 0 && a <= b
    ensures a / n <= b / n
  {
    DivBounds(b, n);
    DivBelow(a, n, b / n + 1);
  }

  lemma ExactQuotient(n: nat, q: nat)
    requires n > 0
    ensures n * q / n == q
  {
    DivBelow(n * q, n, q + 1);
    if q > 0 {
      DivAtLeast(n * q, n, q);
    }
  }

  lemma DivAtLeast(a: nat, n: nat, q: nat)
    requires n > 0 && a >= n * q
    ensures a / n >= q
  {
    var k := a / n;
    DivBounds(a, n);
    if k < q {
      TimesMonotone(n, k + 1, q);
      assert false;
    }
  }

  lemma ReachesQuotient(a: nat, n: nat, q: nat)
    requires n > 0
    ensures a / n >= 0 && (a / n >= q <==> a >= n * q)
  {
    DivAtLeast(a, n, 0);
    if a >= n * q {
      DivAtLeast(a, n, q);
    } else {
      DivBelow(a, n, q);
    }
  }

  /** The quotient rounded up. */
  function CeilDiv(a: nat, n: nat): nat
    requires n > 0
  {
    (a + n - 1) / n
  }

  lemma RemainderOnce(x: nat, n: nat)
    requires 0 < n && x < 2 * n
    ensures x % n == if x < n then x else x - n
  {
  }

  /** Splitting a word at a field boundary. */
  lemma QuotientRemainder(low: nat, high: nat, p: nat)
    requires p > 0 && low < p
    ensures (low + high * p) / p == high && (low + high * p) % p == low
  {
    DivBelow(low + high * p, p, high + 1);
    DivAtLeast(low + high * p, p, high);
  }

  // ---- Powers of two ----

  /** The number of values a field holds. */
  type Size = p: nat | p > 0 witness 1

  function Pow2(k: nat): (p: Size)
  {
    if k == 0 then 1 else 2 * Pow2(k - 1)
  }

  lemma {:induction false} Pow2Add(a: nat, b: nat)
    ensures Pow2(a + b) == Pow2(a) * Pow2(b)
  {
    if a > 0 {
      Pow2Add(a - 1, b);
    }
  }

  lemma {:induction false} Pow2Monotone(a: nat, b: nat)
    requires a <= b
    ensures Pow2(a) <= Pow2(b)
    decreases b
  {
    if a < b {
      Pow2Monotone(a, b - 1);
    }
  }
}
