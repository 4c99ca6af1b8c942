/**
 * Multiplication and division with variable operands.  The recursive forms below are equal to
 * `*`, `/` and `%` (see TimesIsProduct and QuotRemAreDivMod); proofs about sectors and clusters
 * use them because they stay out of the way of the nonlinear solver.
 */
module Arith {

  /** n * d */
  function Times(n: nat, d: nat): nat {
    if n == 0 then 0 else Times(n - 1, d) + d
  }

  /** x / d */
  function Quot(x: nat, d: nat): nat
    requires d > 0
  {
    if x < d then 0 else 1 + Quot(x - d, d)
  }

  /** x % d */
  function Rem(x: nat, d: nat): nat
    requires d > 0
  {
    if x < d then x else Rem(x - d, d)
  }

  lemma {:induction false} TimesIsProduct(n: nat, d: nat)
    ensures Times(n, d) == n * d
  {
    if n > 0 {
      TimesIsProduct(n - 1, d);
      assert (n - 1) * d == n * d - d;
    }
  }

  lemma {:induction false} QuotRemAreDivMod(x: nat, d: nat)
    requires d > 0
    ensures Quot(x, d) == x / d && Rem(x, d) == x % d
  {
    if x >= d {
      QuotRemAreDivMod(x - d, d);
      DivModUnique(d, (x - d) / d + 1, (x - d) % d, x);
    }
  }

  /** Division with remainder. */
  lemma {:induction false} QuotRem(x: nat, d: nat)
    requires d > 0
    ensures x == Times(Quot(x, d), d) + Rem(x, d) && Rem(x, d) < d
  {
    if x >= d {
      QuotRem(x - d, d);
    }
  }

  lemma {:induction false} TimesAdd(m: nat, n: nat, d: nat)
    ensures Times(m + n, d) == Times(m, d) + Times(n, d)
  {
    if n > 0 {
      TimesAdd(m, n - 1, d);
    }
  }

  /** Larger counts give products larger by at least one unit. */
  lemma {:induction false} TimesMono(m: nat, n: nat, d: nat)
    ensures m <= n ==> Times(m, d) <= Times(n, d)
    ensures m < n ==> Times(m, d) + d <= Times(n, d)
  {
    if m < n {
      TimesAdd(m, n - m, d);
      TimesAdd(1, n - m - 1, d);
      assert Times(1, d) == Times(0, d) + d;
    }
  }

  /** Uniqueness of quotient and remainder. */
  lemma {:induction false} QuotUnique(d: nat, q: nat, r: nat, x: nat)
    requires r < d && x == Times(q, d) + r
    ensures Quot(x, d) == q && Rem(x, d) == r
  {
    QuotRem(x, d);
    TimesMono(q, Quot(x, d), d);
    TimesMono(Quot(x, d), q, d);
  }

  /** A position is its unit and its place in the unit. */
  lemma {:induction false} QuotRemInjective(d: nat, j: nat, k: nat)
    requires d > 0
    ensures Quot(j, d) == Quot(k, d) && Rem(j, d) == Rem(k, d) ==> j == k
  {
    QuotRem(j, d);
    QuotRem(k, d);
  }

  /** Moving within one unit. */
  lemma {:induction false} SameUnit(d: nat, a: nat, k: nat)
    requires d > 0 && Rem(a, d) + k < d
    ensures Quot(a + k, d) == Quot(a, d) && Rem(a + k, d) == Rem(a, d) + k
  {
    QuotRem(a, d);
    QuotUnique(d, Quot(a, d), Rem(a, d) + k, a + k);
  }

  /** The quotient is below n exactly for the first n units. */
  lemma {:induction false} QuotBelow(d: nat, x: nat, n: nat)
    requires d > 0
    ensures Quot(x, d) < n <==> x < Times(n, d)
  {
    QuotRem(x, d);
    TimesMono(Quot(x, d), n, d);
    TimesMono(n, Quot(x, d), d);
  }

  lemma {:induction false} QuotMono(d: nat, x: nat, y: nat)
    requires d > 0 && x <= y
    ensures Quot(x, d) <= Quot(y, d)
  {
    QuotRem(x, d);
    QuotRem(y, d);
    TimesMono(Quot(y, d), Quot(x, d), d);
  }

  /** Doubling index and unit. */
  lemma {:induction false} DoubledUnit(c: nat, h: nat)
    requires h > 0
    ensures Quot(2 * c, 2 * h) == Quot(c, h) && Rem(2 * c, 2 * h) == 2 * Rem(c, h) <= 2 * h - 2
  {
    QuotRem(c, h);
    TimesDouble(Quot(c, h), h);
    QuotUnique(2 * h, Quot(c, h), 2 * Rem(c, h), 2 * c);
  }

  lemma {:induction false} TimesDouble(n: nat, h: nat)
    ensures Times(n, 2 * h) == 2 * Times(n, h)
  {
    if n > 0 {
      TimesDouble(n - 1, h);
    }
  }

  lemma {:induction false} TimesTimes(n: nat, c: nat, d: nat)
    ensures Times(n, Times(c, d)) == Times(Times(n, c), d)
  {
    if n > 0 {
      TimesTimes(n - 1, c, d);
      TimesAdd(Times(n - 1, c), c, d);
    }
  }

  /** Dividing by d and then by c is dividing by their product. */
  lemma {:induction false} QuotQuot(x: nat, d: nat, c: nat)
    requires c > 0 && d > 0
    ensures Times(c, d) > 0 && Quot(x, Times(c, d)) == Quot(Quot(x, d), c)
    ensures Rem(x, Times(c, d)) == Times(Rem(Quot(x, d), c), d) + Rem(x, d)
  {
    var q := Quot(x, d);
    QuotRem(x, d);
    QuotRem(q, c);
    TimesMono(0, c, d);
    TimesAdd(Times(Quot(q, c), c), Rem(q, c), d);
    TimesTimes(Quot(q, c), c, d);
    TimesMono(Rem(q, c), c, d);
    QuotUnique(Times(c, d), Quot(q, c), Times(Rem(q, c), d) + Rem(x, d), x);
  }

  // With constant divisors ----------------------------------------------------------------------

  lemma {:induction false} ProductSign(k: int, d: int)
    requires d > 0
    ensures k >= 1 ==> k * d >= d
    ensures k <= -1 ==> k * d <= -d
  {
  }

  lemma {:induction false} DivModUnique(d: int, q: int, r: int, x: int)
    requires d > 0 && 0 <= r < d && x == q * d + r
    ensures x / d == q && x % d == r
  {
    assert (q - x / d) * d == x % d - r;
    ProductSign(q - x / d, d);
  }

  /** Quotients compose. */
  lemma {:induction false} DivDiv(x: nat, a: nat, b: nat)
    requires a > 0 && b > 0
    ensures x / a / b == x / (a * b)
    ensures x % (a * b) == x % a + a * (x / a % b)
  {
    var q := x / a;
    assert x == q * a + x % a && q == q / b * b + q % b;
    assert q / b * b * a == q / b * (a * b);
    assert x == q / b * (a * b) + (q % b * a + x % a);
    MulMono(q % b + 1, b, a);
    DivModUnique(a * b, q / b, q % b * a + x % a, x);
  }

  /** The place in a unit of a * b, in steps of a. */
  lemma {:induction false} ModDiv(x: nat, a: nat, b: nat)
    requires a > 0 && b > 0
    ensures a * b > 0 && x % (a * b) / a == x / a % b
  {
    DivDiv(x, a, b);
    MulMono(1, b, a);
    DivModUnique(a, x / a % b, x % a, x % (a * b));
  }

  /** The unit of a * b that x lies in, and the place in it in steps of a. */
  lemma {:induction false} PlainUnits(x: nat, a: nat, b: nat)
    requires a > 0 && b > 0
    ensures a * b > 0 && Quot(x, a) == x / a && Rem(x, a) == x % a
    ensures Quot(Quot(x, a), b) == x / (a * b) && Rem(Quot(x, a), b) == x % (a * b) / a
  {
    QuotRemAreDivMod(x, a);
    QuotRemAreDivMod(x / a, b);
    DivDiv(x, a, b);
    ModDiv(x, a, b);
  }

  lemma {:induction false} MulMono(a: nat, b: nat, d: nat)
    requires a <= b
    ensures a * d <= b * d
  {
  }
}
