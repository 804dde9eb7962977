/** Bytes, powers, and the few facts about products and sequences that the other modules share. */
module Numbers {

  type byte = x: int | 0 <= x < 256

  const TWO32: nat := 0x1_0000_0000
  const TWO64: nat := 0x1_0000_0000_0000_0000

  function Min(a: int, b: int): int { if a < b then a else b }

  function Max(a: int, b: int): int { if a < b then b else a }

  /** Product of a natural base with itself, e times. */
  function Pow(base: nat, e: nat): nat {
    if e == 0 then 1 else base * Pow(base, e - 1)
  }

  function Pow2(e: nat): nat { Pow(2, e) }

  lemma {:induction false} PowPositive(base: nat, e: nat)
    requires base >= 1
    ensures Pow(base, e) >= 1
  {
    if e != 0 {
      PowPositive(base, e - 1);
      MulLe(1, Pow(base, e - 1), base);
    }
  }

  lemma {:induction false} PowAdd(base: nat, e: nat, f: nat)
    ensures Pow(base, e + f) == Pow(base, e) * Pow(base, f)
  {
    if e != 0 {
      PowAdd(base, e - 1, f);
      var p, x, y := base, Pow(base, e - 1), Pow(base, f);
      assert p * (x * y) == (p * x) * y;
    }
  }

  lemma {:induction false} PowMonotone(base: nat, e: nat, f: nat)
    requires base >= 1 && e <= f
    ensures Pow(base, e) <= Pow(base, f)
  {
    if e != f {
      PowMonotone(base, e, f - 1);
      PowPositive(base, f - 1);
      MulLe(1, base, Pow(base, f - 1));
    }
  }

  /** A product of naturals, as a natural. */
  lemma Times(x: nat, y: nat) returns (p: nat)
    ensures p == x * y
  {
    p := x * y;
  }

  lemma MulLe(x: int, y: int, k: int)
    requires x <= y && 0 <= k
    ensures x * k <= y * k && k * x <= k * y
  {}

  /** Quotient and remainder are determined by the division equation. */
  lemma DivModUnique(n: int, d: int, q: int, r: int)
    requires 0 <= r < d && n == q * d + r
    ensures n / d == q && n % d == r
  {
    var e := n / d - q;
    assert e * d == r - n % d by {
      assert n == (n / d) * d + n % d;
      assert (n / d - q) * d == (n / d) * d - q * d;
    }
    if e >= 1 { MulLe(1, e, d); }
    if e <= -1 { MulLe(e, -1, d); }
  }

  /** Adding a multiple of the modulus changes nothing. */
  lemma ModShift(x: int, k: int, m: int)
    requires m > 0
    ensures (x + k * m) % m == x % m
  {
    assert x + k * m == (x / m + k) * m + x % m by {
      assert (x / m + k) * m == (x / m) * m + k * m;
    }
    DivModUnique(x + k * m, m, x / m + k, x % m);
  }

  /** Two numbers below r are the high and the low word of only one two-word number. */
  lemma TwoWordUnique(r: nat, h: int, l: nat, h': int, l': nat)
    requires l < r && l' < r && h * r + l == h' * r + l'
    ensures h == h' && l == l'
  {
    DivModUnique(h * r + l, r, h, l);
    DivModUnique(h * r + l, r, h', l');
  }

  /** Unsigned division, written as repeated subtraction; see QuotientIsDiv. */
  function Quotient(n: nat, d: nat): (q: nat)
    requires d > 0
    ensures q <= n && (d >= 2 && n > 0 ==> q < n)
  {
    if n < d then 0 else 1 + Quotient(n - d, d)
  }

  function Remainder(n: nat, d: nat): (r: nat)
    requires d > 0
    ensures r < d
  {
    if n < d then n else Remainder(n - d, d)
  }

  lemma {:induction false} DivisionEquation(n: nat, d: nat)
    requires d > 0
    ensures n == Quotient(n, d) * d + Remainder(n, d)
  {
    if n >= d {
      DivisionEquation(n - d, d);
      assert (1 + Quotient(n - d, d)) * d == d + Quotient(n - d, d) * d;
    }
  }

  lemma QuotientIsDiv(n: nat, d: nat)
    requires d > 0
    ensures Quotient(n, d) == n / d && Remainder(n, d) == n % d
  {
    DivisionEquation(n, d);
    DivModUnique(n, d, Quotient(n, d), Remainder(n, d));
  }

  lemma QuotientUnique(n: nat, d: nat, q: nat, r: nat)
    requires r < d && n == q * d + r
    ensures Quotient(n, d) == q && Remainder(n, d) == r
  {
    QuotientIsDiv(n, d);
    DivModUnique(n, d, q, r);
  }

  /** The quotient stays below p exactly while the dividend stays below d * p. */
  lemma QuotientBelow(n: nat, d: nat, p: nat)
    requires d > 0
    ensures Quotient(n, d) < p <==> n < d * p
  {
    DivisionEquation(n, d);
    BelowMultiple(d, p, Quotient(n, d), Remainder(n, d));
  }

  lemma BelowMultiple(d: nat, p: nat, q: nat, r: nat)
    requires r < d
    ensures q < p <==> q * d + r < d * p
  {
    if q < p { MulLe(q + 1, p, d); } else { MulLe(p, q, d); }
  }

  lemma Reassociate<T>(a: seq<T>, b: seq<T>, c: seq<T>)
    ensures a + (b + c) == (a + b) + c
  {}
}
