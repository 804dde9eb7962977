/** count_leading_zeros and count_trailing_zeros in plain C, for any whole number of bytes a word. */
module BitCount {
  import opened Numbers

  predicate WordBits(w: nat) { 8 <= w && w % 8 == 0 }

  /** Number of binary digits of n. */
  function BitLength(n: nat): nat {
    if n == 0 then 0 else 1 + BitLength(n / 2)
  }

  /** n >> a */
  function Shr(n: nat, a: nat): nat {
    if a == 0 then n else Shr(n / 2, a - 1)
  }

  /** Bitwise and. */
  function And(x: nat, y: nat): nat {
    if x == 0 || y == 0 then 0 else 2 * And(x / 2, y / 2) + (x % 2) * (y % 2)
  }

  /** __clz_tab, a table of 256 entries that is only declared in the header. */
  function ClzTab(i: nat): nat
    requires i < 256
  {
    BitLength(i)
  }

  lemma {:induction false} BitLengthBelow(n: nat, k: nat)
    ensures n < Pow2(k) <==> BitLength(n) <= k
  {
    if k == 0 {
    } else if n == 0 {
      PowPositive(2, k);
    } else {
      BitLengthBelow(n / 2, k - 1);
    }
  }

  lemma BitLengthBounds(n: nat)
    ensures n < Pow2(BitLength(n))
    ensures n > 0 ==> Pow2(BitLength(n) - 1) <= n
  {
    BitLengthBelow(n, BitLength(n));
    if n > 0 { BitLengthBelow(n, BitLength(n) - 1); }
  }

  lemma {:induction false} BitLengthShr(n: nat, a: nat)
    ensures BitLength(Shr(n, a)) == if BitLength(n) >= a then BitLength(n) - a else 0
  {
    if a > 0 { BitLengthShr(n / 2, a - 1); }
  }

  /** Looking up the shifted word counts all bits, provided the shift kept the leading one. */
  lemma TableCounts(x: nat, a: nat)
    requires a <= BitLength(x) <= a + 8
    ensures Shr(x, a) < 256 && ClzTab(Shr(x, a)) + a == BitLength(x)
  {
    TopByte(x, a);
    BitLengthShr(x, a);
  }

  method CountLeadingZeros(w: nat, x: nat) returns (count: nat)
    requires WordBits(w) && x < Pow2(w)
    ensures x == 0 ==> count == w
    ensures x > 0 ==> count < w && Pow2(w - 1 - count) <= x < Pow2(w - count)
  {
    BitLengthBelow(x, w);
    var a: nat;
    if w <= 32 {
      a := ShiftByTree(w, x);
    } else {
      a := ShiftByLoop(w, x);
    }
    if x > 0 { TableCounts(x, a); }
    count := w - (ClzTab(Shr(x, a)) + a);
    BitLengthBounds(x);
  }

  /** The branch tree on quarters of a word. */
  method ShiftByTree(w: nat, x: nat) returns (a: nat)
    requires WordBits(w) && w <= 32 && BitLength(x) <= w
    ensures if x == 0 then a == 0 else a < BitLength(x) <= a + 8
  {
    var bits4 := w / 4;
    assert 4 * bits4 == w;
    hide Pow2, Pow, BitLength;
    BitLengthBelow(x, bits4);
    BitLengthBelow(x, 2 * bits4);
    BitLengthBelow(x, 3 * bits4);
    a := if x < Pow2(2 * bits4) then (if x < Pow2(bits4) then 0 else bits4)
         else (if x < Pow2(3 * bits4) then 2 * bits4 else 3 * bits4);
  }

  /** The loop over the bytes of a wider word, highest byte first. */
  method ShiftByLoop(w: nat, x: nat) returns (a: nat)
    requires WordBits(w) && BitLength(x) <= w
    ensures if x == 0 then a == 0 else a < BitLength(x) <= a + 8
  {
    a := w - 8;
    while a > 0
      invariant a % 8 == 0 && BitLength(x) <= a + 8
    {
      TopByte(x, a);
      if Shr(x, a) % 256 != 0 {
        break;
      }
      a := a - 8;
    }
  }

  lemma TopByte(x: nat, a: nat)
    requires BitLength(x) <= a + 8
    ensures Shr(x, a) < 256
    ensures Shr(x, a) % 256 != 0 <==> BitLength(x) > a
  {
    BitLengthShr(x, a);
    BitLengthBelow(Shr(x, a), 8);
    assert Pow2(8) == 256;
  }

  lemma {:induction false} AndComplement(w: nat, x: nat)
    requires x < Pow2(w)
    ensures And(x, Pow2(w) - 1 - x) == 0
  {
    if w > 0 {
      var y := Pow2(w) - 1 - x;
      assert y / 2 == Pow2(w - 1) - 1 - x / 2 && (x % 2) * (y % 2) == 0;
      AndComplement(w - 1, x / 2);
    }
  }

  lemma {:induction false} AndAllOnes(x: nat, w: nat)
    requires x < Pow2(w)
    ensures Pow2(w) > 0 && And(x, Pow2(w) - 1) == x
  {
    PowPositive(2, w);
    if w > 0 {
      var y := Pow2(w) - 1;
      assert y / 2 == Pow2(w - 1) - 1 && y % 2 == 1;
      AndAllOnes(x / 2, w - 1);
    }
  }

  /** A number below 2 to the k shares no bit with a multiple of it. */
  lemma {:induction false} AndDisjoint(high: nat, low: nat, k: nat)
    requires low < Pow2(k)
    ensures And(low, high * Pow2(k)) == 0
  {
    if k > 0 {
      Halve(high, k);
      AndDisjoint(high, low / 2, k - 1);
    }
  }

  lemma {:induction false} AndCommutes(x: nat, y: nat)
    ensures And(x, y) == And(y, x)
  {
    if x > 0 && y > 0 { AndCommutes(x / 2, y / 2); }
  }

  /** And with the bits from k on set keeps exactly those bits of x. */
  lemma {:induction false} ClearLowBits(w: nat, k: nat, x: nat, y: nat)
    requires k <= w && x < Pow2(w) && y + Pow2(k) == Pow2(w)
    ensures Pow2(k) > 0 && And(x, y) == x - x % Pow2(k)
  {
    PowPositive(2, k);
    if w > 0 {
      if k > 0 {
        assert Pow2(k) == 2 * Pow2(k - 1);
        ClearLowBits(w - 1, k - 1, x / 2, y / 2);
        HalfRemainder(x, Pow2(k - 1));
      } else {
        assert Pow2(0) == 1;
        ClearLowBits(w - 1, 0, x / 2, y / 2);
      }
      hide Pow;
    }
  }

  lemma HalfRemainder(x: nat, p: nat)
    requires p > 0
    ensures x % (2 * p) == 2 * ((x / 2) % p) + x % 2
  {
    var q, r := (x / 2) / p, (x / 2) % p;
    assert x / 2 == q * p + r && x == 2 * (x / 2) + x % 2;
    assert 2 * (q * p) == q * (2 * p);
    DivModUnique(x, 2 * p, q, 2 * r + x % 2);
  }

  lemma DoubleMultiple(x: nat, odd: nat, j: nat)
    requires x % 2 == 0 && IsOddMultiple(x / 2, odd, j)
    ensures IsOddMultiple(x, odd, j + 1) && Pow2(j + 1) == 2 * Pow2(j)
  {
    Halve(odd, j + 1);
  }

  /** x & -x keeps exactly the lowest set bit: x is that power of two times an odd number. */
  lemma {:induction false} LowestBit(w: nat, x: nat) returns (k: nat)
    requires 0 < x < Pow2(w)
    ensures k < w && And(x, Pow2(w) - x) == Pow2(k)
    ensures exists odd: nat :: IsOddMultiple(x, odd, k)
  {
    var y := Pow2(w) - x;
    if x % 2 == 1 {
      k := 0;
      assert y / 2 == Pow2(w - 1) - 1 - x / 2 && y % 2 == 1;
      AndComplement(w - 1, x / 2);
      assert IsOddMultiple(x, x, 0);
    } else {
      assert y / 2 == Pow2(w - 1) - x / 2 && y % 2 == 0;
      var j := LowestBit(w - 1, x / 2);
      k := j + 1;
      var odd: nat :| IsOddMultiple(x / 2, odd, j);
      DoubleMultiple(x, odd, j);
    }
  }

  /** 2 to the k is the largest power of two dividing x. */
  predicate IsOddMultiple(x: nat, odd: nat, k: nat) { odd % 2 == 1 && x == odd * Pow2(k) }

  /** A number is an odd multiple of only one power of two. */
  lemma {:induction false} OddMultipleUnique(x: nat, a: nat, j: nat, b: nat, k: nat)
    requires IsOddMultiple(x, a, j) && IsOddMultiple(x, b, k)
    ensures j == k
    decreases j
  {
    if j > 0 { Halve(a, j); }
    if k > 0 { Halve(b, k); }
    if j > 0 && k > 0 { OddMultipleUnique(x / 2, a, j - 1, b, k - 1); }
  }

  lemma Halve(a: nat, j: nat)
    requires j > 0
    ensures a * Pow2(j) == 2 * (a * Pow2(j - 1))
  {
    assert a * (2 * Pow2(j - 1)) == 2 * (a * Pow2(j - 1));
  }

  method CountTrailingZeros(w: nat, x: nat) returns (count: nat)
    requires WordBits(w) && 0 < x < Pow2(w)
    ensures count < w && exists odd: nat :: IsOddMultiple(x, odd, count)
  {
    ghost var k := LowestBit(w, x);
    PowMonotone(2, k, w - 1);
    PowPositive(2, w - 1);
    var c := CountLeadingZeros(w, And(x, Pow2(w) - x));
    count := w - 1 - c;
    BitLengthBelow(Pow2(k), count);
    PowOrder(count, k);
  }

  /** A power of two between two neighbouring powers of two is the lower one. */
  lemma PowOrder(c: nat, k: nat)
    requires Pow2(c) <= Pow2(k) < Pow2(c + 1)
    ensures c == k
  {
    if k < c {
      PowMonotone(2, k + 1, c);
      PowPositive(2, k);
    } else if k > c {
      PowMonotone(2, c + 1, k);
    }
  }
}
