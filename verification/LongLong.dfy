/**
 * The plain C two-word arithmetic macros. A word has w = b * b values, b of them to each half, so
 * every result below holds for every word size. Unsigned arithmetic wraps at w; a bitwise or of
 * operands without common bits is a sum.
 */
module LongLong {
  import opened Numbers

  predicate WordSize(b: nat, w: nat) { b > 0 && w == b * b }

  /** The representative of x that fits one word. */
  function Wrap(w: nat, x: int): (y: nat)
    requires w > 0
    ensures y < w
    ensures 0 <= x < w ==> y == x
    ensures w <= x < 2 * w ==> y == x - w
    ensures 0 <= x + w < w ==> y == x + w
    decreases if x < 0 then -x + w else x
  {
    if x < 0 then Wrap(w, x + w) else if x < w then x else Wrap(w, x - w)
  }

  lemma {:induction false} WrapIsMod(w: nat, x: int)
    requires w > 0
    ensures Wrap(w, x) == x % w
    decreases if x < 0 then -x + w else x
  {
    if x < 0 {
      WrapIsMod(w, x + w);
      ModShift(x, 1, w);
    } else if x < w {
      DivModUnique(x, w, 0, x);
    } else {
      WrapIsMod(w, x - w);
      ModShift(x - w, 1, w);
    }
  }

  lemma WrapPeriod(w: nat, x: int, k: int)
    requires w > 0
    ensures Wrap(w, x + k * w) == Wrap(w, x)
  {
    WrapIsMod(w, x + k * w);
    WrapIsMod(w, x);
    ModShift(x, k, w);
  }

  lemma {:induction false} WrapMultiple(w: nat, x: int) returns (k: int)
    requires w > 0
    ensures Wrap(w, x) == x + k * w
    decreases if x < 0 then -x + w else x
  {
    k := 0;
    if x < 0 {
      k := WrapMultiple(w, x + w);
      OneMore(k, w);
      k := k + 1;
    } else if x >= w {
      k := WrapMultiple(w, x - w);
      OneMore(k - 1, w);
      k := k - 1;
    }
  }

  lemma OneMore(k: int, w: int)
    ensures (k + 1) * w == k * w + w
  {}

  lemma Negated(q: int, w: int)
    ensures (0 - q) * w == 0 - q * w
  {}

  /** A carry lost by one wrap is given back by the next one. */
  lemma WrapSub(w: nat, x: int, m: int)
    requires w > 0
    ensures Wrap(w, Wrap(w, x) - m) == Wrap(w, x - m)
  {
    var k := WrapMultiple(w, x);
    WrapPeriod(w, x - m, k);
    assert Wrap(w, x) - m == x - m + k * w;
  }

  /** The number held by a high and a low word. */
  function TwoWord(w: nat, h: int, l: int): int { h * w + l }

  lemma TwoWordBelow(w: nat, h: nat, l: nat)
    requires h < w && l < w
    ensures TwoWord(w, h, l) < w * w
  {
    MulLe(h + 1, w, w);
  }

  // ---------- addition and subtraction ----------

  method AddSsaaaa(w: nat, ah: nat, al: nat, bh: nat, bl: nat) returns (sh: nat, sl: nat)
    requires ah < w && al < w && bh < w && bl < w
    ensures sh < w && sl < w
    ensures var sum := TwoWord(w, ah, al) + TwoWord(w, bh, bl);
            TwoWord(w, sh, sl) == if sum < w * w then sum else sum - w * w
  {
    var x := Wrap(w, al + bl);
    ghost var c := if al + bl < w then 0 else 1;
    sh := Wrap(w, ah + bh + (if x < al then 1 else 0));
    assert (x < al) == (c == 1);   // the comparison finds exactly the carry of the low words
    sl := x;
    ghost var carry := if ah + bh + c < w then 0 else 1;
    hide TwoWord;
    TwoWordSum(w, ah, al, bh, bl, c, carry, sh, sl);
    TwoWordBelow(w, sh, sl);
  }

  /** What a carry (1) or a borrow (-1) out of a range of n numbers stands for. */
  function Carried(n: int, c: int): int {
    if c == 1 then n else if c == -1 then -n else 0
  }

  lemma CarriedIsProduct(n: int, c: int)
    requires -1 <= c <= 1
    ensures Carried(n, c) == c * n
  {}

  lemma TwoWordSum(w: nat, ah: int, al: int, bh: int, bl: int, c: int, carry: int, sh: int, sl: int)
    requires -1 <= c <= 1 && -1 <= carry <= 1
    requires al + bl == Carried(w, c) + sl && ah + bh + c == Carried(w, carry) + sh
    ensures Carried(w * w, carry) + TwoWord(w, sh, sl) == TwoWord(w, ah, al) + TwoWord(w, bh, bl)
  {
    CarriedIsProduct(w, c);
    CarriedIsProduct(w, carry);
    CarriedIsProduct(w * w, carry);
    hide Carried;
    assert (ah + bh + c) * w == (carry * w + sh) * w;
    assert (carry * w + sh) * w == carry * (w * w) + sh * w;
    assert (ah + bh + c) * w == ah * w + bh * w + c * w;
  }

  lemma NegatedWords(w: nat, h: int, l: int)
    ensures TwoWord(w, 0 - h, 0 - l) == 0 - TwoWord(w, h, l)
  {
    Negated(h, w);
  }

  method SubDdmmss(w: nat, ah: nat, al: nat, bh: nat, bl: nat) returns (sh: nat, sl: nat)
    requires ah < w && al < w && bh < w && bl < w
    ensures sh < w && sl < w
    ensures var difference := TwoWord(w, ah, al) - TwoWord(w, bh, bl);
            TwoWord(w, sh, sl) == if difference >= 0 then difference else difference + w * w
  {
    var x := Wrap(w, al - bl);
    ghost var c := if al >= bl then 0 else -1;
    sh := Wrap(w, ah - bh - (if x > al then 1 else 0));
    assert (x > al) == (c == -1);   // the comparison finds exactly the borrow of the low words
    sl := x;
    ghost var borrow := if ah - bh + c >= 0 then 0 else -1;
    hide TwoWord;
    TwoWordSum(w, ah, al, 0 - bh, 0 - bl, c, borrow, sh, sl);
    NegatedWords(w, bh, bl);
    TwoWordBelow(w, sh, sl);
  }

  // ---------- multiplication ----------

  /** __ll_highpart and __ll_lowpart. */
  function High(b: nat, x: nat): nat requires b > 0 { Quotient(x, b) }

  function Low(b: nat, x: nat): (l: nat) requires b > 0 { Remainder(x, b) }

  lemma SplitWord(b: nat, w: nat, x: nat)
    requires WordSize(b, w) && x < w
    ensures High(b, x) < b && Low(b, x) < b && x == High(b, x) * b + Low(b, x)
  {
    DivisionEquation(x, b);
    if High(b, x) >= b { MulLe(b, High(b, x), b); }
  }

  lemma JoinHalves(b: nat, w: nat, h: nat, l: nat)
    requires WordSize(b, w) && h < b && l < b
    ensures h * b + l < w && h * b < w
  {
    MulLe(h + 1, b, b);
  }

  /** A product of two half words leaves room for one more half word above it. */
  lemma HalfProduct(b: nat, w: nat, x: nat, y: nat)
    requires WordSize(b, w) && x < b && y < b
    ensures x * y + b <= w
  {
    MulLe(x, b - 1, y);
    MulLe(y, b - 1, b - 1);
    assert (b - 1) * (b - 1) == b * b - b - b + 1;
  }

  method UmulPpmm(b: nat, w: nat, u: nat, v: nat) returns (w1: nat, w0: nat)
    requires WordSize(b, w) && u < w && v < w
    ensures w1 < w && w0 < w
    ensures TwoWord(w, w1, w0) == u * v
  {
    var x0, x1, x2, x3 := PartialProducts(b, w, u, v);
    w1, w0 := SumPartials(b, w, x0, x1, x2, x3);
  }

  /** The four products of half words; none of them wraps. */
  method PartialProducts(b: nat, w: nat, u: nat, v: nat) returns (x0: nat, x1: nat, x2: nat, x3: nat)
    requires WordSize(b, w) && u < w && v < w
    ensures x0 < w && x1 + b <= w && x2 < w && x3 < w
    ensures u * v == x3 * w + (x1 + x2) * b + x0 < w * w
  {
    var ul, uh := Low(b, u), High(b, u);
    var vl, vh := Low(b, v), High(b, v);
    SplitWord(b, w, u);
    SplitWord(b, w, v);
    x0 := HalfMul(b, w, ul, vl);
    x1 := HalfMul(b, w, ul, vh);
    x2 := HalfMul(b, w, uh, vl);
    x3 := HalfMul(b, w, uh, vh);
    CrossProduct(b, w, u, v, ul, uh, vl, vh);
    ProductBelow(w, u, v);
  }

  method HalfMul(b: nat, w: nat, x: nat, y: nat) returns (p: nat)
    requires WordSize(b, w) && x < b && y < b
    ensures p == x * y && p + b <= w
  {
    HalfProduct(b, w, x, y);
    p := Wrap(w, x * y);
  }

  lemma ProductBelow(w: nat, u: nat, v: nat)
    requires u < w && v < w
    ensures u * v < w * w
  {
    MulLe(u, w - 1, v);
    MulLe(v, w - 1, w - 1);
    assert (w - 1) * (w - 1) == w * w - w - w + 1;
  }

  lemma CrossProduct(b: nat, w: nat, u: nat, v: nat, ul: nat, uh: nat, vl: nat, vh: nat)
    requires WordSize(b, w) && u == uh * b + ul && v == vh * b + vl
    ensures u * v == (uh * vh) * w + (ul * vh + uh * vl) * b + ul * vl
  {
    assert u * v == (uh * b + ul) * (vh * b + vl);
    assert (uh * b + ul) * (vh * b + vl) == (uh * vh) * (b * b) + (ul * vh + uh * vl) * b + ul * vl;
  }

  /** The additions of umul_ppmm: x0 and x3 are the outer, x1 and x2 the middle partial products. */
  method SumPartials(b: nat, w: nat, x0: nat, p1: nat, x2: nat, p3: nat) returns (w1: nat, w0: nat)
    requires WordSize(b, w) && x0 < w && p1 + b <= w && x2 < w && p3 < w
    requires p3 * w + (p1 + x2) * b + x0 < w * w
    ensures w1 < w && w0 < w
    ensures TwoWord(w, w1, w0) == p3 * w + (p1 + x2) * b + x0
  {
    var h0, l0 := High(b, x0), Low(b, x0);
    HighBelow(b, w, x0);
    var x1, x3 := Wrap(w, p1 + h0), p3;
    assert x1 == p1 + h0;                         // the first addition cannot carry
    x1 := Wrap(w, x1 + x2);
    ghost var c := if p1 + h0 + x2 < w then 0 else 1;
    assert (x1 < x2) == (c == 1);                 // the comparison finds exactly the carry
    var h1, l1 := High(b, x1), Low(b, x1);
    ghost var hi, lo := PartialSum(b, w, x0, p1, x2, p3, x1, c);
    if x1 < x2 {
      x3 := Wrap(w, x3 + b);
    }
    w1 := Wrap(w, x3 + h1);
    w0 := Wrap(w, l1 * b + l0);
  }

  lemma HighBelow(b: nat, w: nat, x: nat)
    requires WordSize(b, w) && x < w
    ensures High(b, x) < b
  {
    SplitWord(b, w, x);
  }

  lemma PartialSum(b: nat, w: nat, x0: nat, p1: nat, x2: nat, p3: nat, x1: nat, c: nat) returns (hi: nat, lo: nat)
    requires WordSize(b, w) && x0 < w && x1 < w && c <= 1
    requires p1 + High(b, x0) + x2 == (if c == 1 then w else 0) + x1
    requires p3 * w + (p1 + x2) * b + x0 < w * w
    ensures hi == p3 + (if c == 1 then b else 0) + High(b, x1) && lo == Low(b, x1) * b + Low(b, x0)
    ensures TwoWord(w, hi, lo) == p3 * w + (p1 + x2) * b + x0
    ensures hi < w && lo < w
  {
    SplitWord(b, w, x0);
    SplitWord(b, w, x1);
    hide High, Low, WordSize;
    hi, lo := PartialWords(b, w, p1 + x2, p3, x0, High(b, x0), Low(b, x0), x1, High(b, x1), Low(b, x1), c);
  }

  lemma PartialWords(b: nat, w: nat, s: nat, p3: nat, x0: nat, h0: nat, l0: nat, x1: nat, h1: nat, l1: nat, c: nat)
    returns (hi: nat, lo: nat)
    requires WordSize(b, w) && l0 < b && l1 < b && c <= 1
    requires x0 == h0 * b + l0 && x1 == h1 * b + l1
    requires s + h0 == (if c == 1 then w else 0) + x1
    requires p3 * w + s * b + x0 < w * w
    ensures hi == p3 + (if c == 1 then b else 0) + h1 && lo == l1 * b + l0
    ensures TwoWord(w, hi, lo) == p3 * w + s * b + x0
    ensures hi < w && lo < w
  {
    hide TwoWord;
    var carry, weight := CarryWeight(b, w, c);
    var high := Times(l1, b);
    hi, lo := p3 + carry + h1, high + l0;
    JoinHalves(b, w, l1, l0);
    hide WordSize;
    PartialIdentity(b, w, s, p3, x0, h0, l0, x1, h1, l1, carry, weight, hi, lo);
    HighBound(w, hi, lo);
  }

  /** A carry out of the middle words weighs one half word more than they do. */
  lemma CarryWeight(b: nat, w: nat, c: nat) returns (carry: nat, weight: nat)
    requires WordSize(b, w) && c <= 1
    ensures carry == (if c == 1 then b else 0) && weight == (if c == 1 then w else 0)
    ensures weight == carry * b
  {
    carry, weight := if c == 1 then b else 0, if c == 1 then w else 0;
  }

  lemma HighBound(w: nat, hi: nat, lo: nat)
    requires TwoWord(w, hi, lo) < w * w
    ensures hi < w
  {
    if hi >= w { MulLe(w, hi, w); }
  }

  lemma PartialIdentity(b: nat, w: nat, s: nat, p3: nat, x0: nat, h0: nat, l0: nat, x1: nat, h1: nat, l1: nat,
                        carry: nat, weight: nat, hi: nat, lo: nat)
    requires WordSize(b, w) && weight == carry * b && s + h0 == weight + x1
    requires x0 == h0 * b + l0 && x1 == h1 * b + l1
    requires hi == p3 + carry + h1 && lo == l1 * b + l0
    ensures TwoWord(w, hi, lo) == p3 * w + s * b + x0
  {
    SumTimes(carry, h1, l1, s, h0, b);
    assert hi * w == p3 * w + carry * w + h1 * w;
  }

  lemma SumTimes(x: nat, y: nat, z: nat, s: nat, h: nat, b: nat)
    requires s + h == x * b + (y * b + z)
    ensures s * b + h * b == x * (b * b) + y * (b * b) + z * b
  {
    assert (s + h) * b == (x * b) * b + (y * b) * b + z * b;
    assert (x * b) * b == x * (b * b) && (y * b) * b == y * (b * b);
  }

  lemma HighWordFits(w: nat, u: nat, v: nat, hi: nat, lo: nat)
    requires u < w && v < w && TwoWord(w, hi, lo) == u * v
    ensures hi < w
  {
    MulLe(u, w, v);
    MulLe(v, w - 1, w);
    if hi >= w { MulLe(w, hi, w); }
  }

  /** Value of a word read as a two's complement number. */
  function Signed(w: nat, x: nat): int {
    if 2 * x >= w then x - w else x
  }

  /** The contract of smul_ppmm: the high and the low word of the signed product. */
  function SmulPpmm(w: nat, u: nat, v: nat): (nat, nat)
    requires w > 0
  {
    var p := Signed(w, u) * Signed(w, v);
    (Wrap(w, p / w), Wrap(w, p))
  }

  /** umul_ppmm for machines that only multiply signed words. */
  method UmulFromSmul(w: nat, u: nat, v: nat) returns (w1: nat, w0: nat)
    requires u < w && v < w
    ensures w1 < w && w0 < w
    ensures TwoWord(w, w1, w0) == u * v
  {
    var product := SmulPpmm(w, u, v);
    w0 := product.1;
    w1 := Wrap(w, product.0 + (if 2 * u >= w then v else 0) + (if 2 * v >= w then u else 0));
    ghost var hi, lo := SignedCorrection(w, u, v);
  }

  /** Adding v and u back where the other is negative leaves the words of the unsigned product. */
  lemma SignedCorrection(w: nat, u: nat, v: nat) returns (hi: nat, lo: nat)
    requires u < w && v < w
    ensures hi < w && lo < w && TwoWord(w, hi, lo) == u * v
    ensures SmulPpmm(w, u, v).1 == lo
    ensures Wrap(w, SmulPpmm(w, u, v).0 + (if 2 * u >= w then v else 0) + (if 2 * v >= w then u else 0)) == hi
  {
    var k, p := SignedProduct(w, u, v);
    hi, lo := UnsignedWords(w, u, v, p);
    SmulWords(w, u, v, p, k, hi, lo);
    hide SmulPpmm, Signed, TwoWord, Wrap;
    BackCorrection(w, hi, k, (if 2 * u >= w then v else 0) + (if 2 * v >= w then u else 0));
  }

  lemma SmulWords(w: nat, u: nat, v: nat, p: nat, k: int, hi: nat, lo: nat)
    requires w > 0 && lo < w && p == TwoWord(w, hi, lo) && Signed(w, u) * Signed(w, v) == p + k * w
    ensures SmulPpmm(w, u, v) == (Wrap(w, hi + k), lo)
  {
    hide Signed, Wrap;
    SignedWords(w, p, k, hi, lo, Signed(w, u) * Signed(w, v));
  }

  lemma BackCorrection(w: nat, hi: nat, k: int, back: int)
    requires hi < w && (k + back == 0 || k + back == w)
    ensures Wrap(w, Wrap(w, hi + k) + back) == hi
  {
    WrapSub(w, hi + k, 0 - back);
    assert hi + k + back == hi || hi + k + back == hi + w;
  }

  lemma UnsignedWords(w: nat, u: nat, v: nat, p: nat) returns (hi: nat, lo: nat)
    requires u < w && v < w && p == u * v
    ensures hi < w && lo < w && TwoWord(w, hi, lo) == p
  {
    hi, lo := p / w, p % w;
    HighWordFits(w, u, v, hi, lo);
  }

  /** The signed product differs from the unsigned one by k words. */
  lemma SignedProduct(w: nat, u: nat, v: nat) returns (k: int, p: nat)
    ensures p == u * v && Signed(w, u) * Signed(w, v) == p + k * w
    ensures k == (if 2 * u >= w && 2 * v >= w then w else 0)
                 - (if 2 * u >= w then v else 0) - (if 2 * v >= w then u else 0)
  {
    k, p := (if 2 * u >= w && 2 * v >= w then w else 0)
            - (if 2 * u >= w then v else 0) - (if 2 * v >= w then u else 0), u * v;
    assert (u - w) * (v - w) == u * v + (w - v - u) * w;
    assert (u - w) * v == u * v - v * w;
    assert u * (v - w) == u * v - u * w;
    Negated(v, w);
    Negated(u, w);
  }

  lemma SignedWords(w: nat, p: nat, k: int, hi: nat, lo: nat, signed: int)
    requires w > 0 && lo < w && p == hi * w + lo && signed == p + k * w
    ensures signed / w == hi + k && Wrap(w, signed) == lo
  {
    assert (hi + k) * w == hi * w + k * w;
    DivModUnique(signed, w, hi + k, lo);
    WrapIsMod(w, signed);
  }

  // ---------- division ----------

  /** The top bit of d is set. */
  predicate Normalised(b: nat, w: nat, d: nat) {
    WordSize(b, w) && b % 2 == 0 && d < w <= 2 * d
  }

  /** The division equation, whatever the size of r. */
  ghost predicate Guess(d: nat, q: int, r: int, n: int) { q * d + r == n }

  /**
   * Adding d once to the shifted remainder neither leaves the word nor reaches the product of the
   * guess with the low half of d.
   */
  predicate TwoCorrections(b: nat, w: nat, d: nat, d1: nat, d0: nat, u: nat, half: nat)
    requires d1 > 0
  {
    var r, m := Remainder(u, d1) * b + half, Quotient(u, d1) * d0;
    r + d < w && r + d < m
  }

  /**
   * One quotient digit of __udiv_qrnnd_c: divide u * b + half by d = d1 * b + d0, guessing the
   * digit from d1 alone and correcting the guess by comparing wrapped words.
   */
  method TrialDigit(b: nat, w: nat, d: nat, d1: nat, d0: nat, u: nat, half: nat)
    returns (q: nat, r: nat, ghost undetected: bool)
    requires WordSize(b, w) && d == d1 * b + d0 && 0 < d1 < b <= 2 * d1 && d0 < b
    requires u < d && half < b && w <= 2 * d
    ensures q * d + r == u * b + half
    ensures r < d && q < b
    ensures q <= Quotient(u, d1) <= q + 2
    ensures undetected <==> TwoCorrections(b, w, d, d1, d0, u, half)
    ensures undetected <==> Quotient(u, d1) == q + 2
  {
    ghost var m0, r0, n := GuessBounds(b, w, d, d1, d0, u, half);
    hide Quotient, Remainder, WordSize, Wrap, Guess, TwoCorrections;
    r := Remainder(u, d1);
    q := Quotient(u, d1);
    var m := Wrap(w, q * d0);
    r := Wrap(w, r * b) + half;
    q, r, undetected := CorrectDigit(w, d, q, r, m, n);
    DigitFits(b, u, half, d, q, r, n);
  }

  /**
   * The two-step correction shared by both digits; n is the number being divided. The inner test
   * finds the wrap of the first addition. That of the second one, which no test looks at, happens
   * exactly when there is a second correction.
   */
  method CorrectDigit(w: nat, d: nat, guess: nat, r0: nat, m: nat, ghost n: nat)
    returns (q: nat, r: nat, ghost undetected: bool)
    requires r0 < d < w && m < w <= 2 * d
    requires Guess(d, guess, r0, n + m)
    requires m > r0 ==> guess >= 1
    requires m > r0 + d ==> guess >= 2
    ensures Guess(d, q, r, n) && r < d
    ensures q <= guess <= q + 2
    ensures undetected <==> r0 + d < w && r0 + d < m
    ensures undetected <==> guess == q + 2
  {
    q, r, undetected := guess, r0, false;
    ghost var sum := r0;   // the remainder without wrapping
    if r < m {
      q, r, sum := q - 1, Wrap(w, r + d), sum + d;
      MulSub(guess, 1, d);
      assert (r >= d) == (sum < w);   // "we didn't get carry"
      if r >= d {
        if r < m {
          MulSub(guess, 2, d);
          SecondAdditionWraps(w, d, r0);
          undetected := Wrap(w, r + d) != r + d;
          q, r, sum := q - 1, Wrap(w, r + d), sum + d;
        }
      }
    }
    WrapSub(w, sum, m);
    r := Wrap(w, r - m);
  }

  /** Once the first addition has not wrapped, a second one of a normalised d does, and exactly once. */
  lemma SecondAdditionWraps(w: nat, d: nat, r: nat)
    requires r < d < w <= 2 * d && r + d < w
    ensures Wrap(w, r + d) == r + d
    ensures Wrap(w, r + d + d) == r + d + d - w < r + d + d
  {}

  lemma MulSub(x: int, k: int, y: int)
    ensures (x - k) * y == x * y - k * y
  {}

  /** The guess is at most two too large, and none of its products leaves one word. */
  lemma GuessBounds(b: nat, w: nat, d: nat, d1: nat, d0: nat, u: nat, half: nat) returns (m: nat, r: nat, n: nat)
    requires WordSize(b, w) && d == d1 * b + d0 && 0 < d1 < b <= 2 * d1 && d0 < b
    requires u < d && half < b && w <= 2 * d
    ensures m == Quotient(u, d1) * d0 < w && r == Remainder(u, d1) * b + half < d < w
    ensures n == u * b + half && Guess(d, Quotient(u, d1), r, n + m)
    ensures m > r ==> Quotient(u, d1) >= 1
    ensures m > r + d ==> Quotient(u, d1) >= 2
    ensures TwoCorrections(b, w, d, d1, d0, u, half) <==> r + d < w && r + d < m
  {
    var q, rho := Quotient(u, d1), Remainder(u, d1);
    DivisionEquation(u, d1);
    JoinHalves(b, w, d1, d0);
    hide Quotient, Remainder, WordSize, Guess;
    var above := Times(rho, b);
    var shifted := Times(u, b);
    m := Times(q, d0);
    r, n := above + half, shifted + half;
    GuessFits(b, w, d, d1, d0, u, half, q, rho, m, r);
    GuessIdentity(b, d, d1, d0, u, half, q, rho, m, r, n);
  }

  lemma GuessFits(b: nat, w: nat, d: nat, d1: nat, d0: nat, u: nat, half: nat, q: nat, rho: nat, m: nat, r: nat)
    requires WordSize(b, w) && d == d1 * b + d0 && 0 < d1 < b <= 2 * d1 && d0 < b
    requires u < d && half < b && q * d1 + rho == u && rho < d1
    requires m == q * d0 && r == rho * b + half
    ensures m < w && r < d
    ensures m > r ==> q >= 1
    ensures m > r + d ==> q >= 2
  {
    RemainderFits(b, d1, d0, rho, half);
    GuessAtMost(b, d1, d0, u, q);
    GuessProduct(b, w, q, d0);
  }

  lemma RemainderFits(b: nat, d1: nat, d0: nat, rho: nat, half: nat)
    requires rho < d1 && half < b
    ensures rho * b + half < d1 * b + d0
  {
    MulLe(rho + 1, d1, b);
    assert (rho + 1) * b == rho * b + b;
  }

  lemma GuessProduct(b: nat, w: nat, q: nat, d0: nat)
    requires WordSize(b, w) && q <= b + 1 && d0 < b
    ensures q * d0 < w
    ensures q == 0 ==> q * d0 == 0
    ensures q == 1 ==> q * d0 == d0
  {
    MulLe(q, b + 1, d0);
    MulLe(d0, b - 1, b + 1);
    assert (b + 1) * (b - 1) == b * b - 1;
  }

  lemma GuessAtMost(b: nat, d1: nat, d0: nat, u: nat, q: nat)
    requires b <= 2 * d1 && d0 < b && u < d1 * b + d0 && q * d1 <= u
    ensures q <= b + 1
  {
    assert (b + 2) * d1 == d1 * b + 2 * d1;
    if q >= b + 2 { MulLe(b + 2, q, d1); }
  }

  lemma GuessIdentity(b: nat, d: nat, d1: nat, d0: nat, u: nat, half: nat, q: nat, rho: nat, m: nat, r: nat, n: nat)
    requires d == d1 * b + d0 && u == q * d1 + rho
    requires m == q * d0 && r == rho * b + half && n == u * b + half
    ensures Guess(d, q, r, n + m)
  {
    assert q * d == q * (d1 * b) + q * d0;
    assert q * (d1 * b) == (q * d1) * b;
    assert (q * d1 + rho) * b == (q * d1) * b + rho * b;
  }

  lemma DigitFits(b: nat, u: nat, half: nat, d: nat, q: nat, r: nat, n: nat)
    requires u < d && half < b && Guess(d, q, r, n) && n == u * b + half
    ensures q < b && q * d + r == u * b + half
  {
    MulLe(u + 1, d, b);
    assert (u + 1) * b == u * b + b;
    if q >= b { MulLe(b, q, d); }
  }

  /** __udiv_qrnnd_c: long division of two words by one, one half word of quotient at a time. */
  method UdivQrnndC(b: nat, w: nat, n1: nat, n0: nat, d: nat) returns (q: nat, r: nat)
    requires Normalised(b, w, d) && n1 < d && n0 < w
    ensures q < w && r < d
    ensures q * d + r == TwoWord(w, n1, n0)
  {
    SplitWord(b, w, d);
    SplitWord(b, w, n0);
    q, r := UdivHalves(b, w, n1, High(b, n0), Low(b, n0), d, High(b, d), Low(b, d));
  }

  /** The body of __udiv_qrnnd_c once d and n0 have been split. */
  method UdivHalves(b: nat, w: nat, n1: nat, nh: nat, nl: nat, d: nat, d1: nat, d0: nat) returns (q: nat, r: nat)
    requires Normalised(b, w, d) && n1 < d && nh < b && nl < b
    requires d == d1 * b + d0 && d1 < b && d0 < b
    ensures q < w && r < d
    ensures q * d + r == TwoWord(w, n1, nh * b + nl)
  {
    TopHalf(b, w, d, d1, d0);
    var q1, r1, _ := TrialDigit(b, w, d, d1, d0, n1, nh);
    var q0, r0, _ := TrialDigit(b, w, d, d1, d0, r1, nl);
    hide WordSize, TwoWord;
    JoinHalves(b, w, q1, q0);
    DigitsIdentity(b, w, d, q1, q0, r1, r0, n1, nh, nl);
    q := Wrap(w, q1 * b) + q0;
    r := r0;
  }

  /** Normalising d normalises its high half. */
  lemma TopHalf(b: nat, w: nat, d: nat, d1: nat, d0: nat)
    requires WordSize(b, w) && b % 2 == 0 && w <= 2 * d && d == d1 * b + d0 && d0 < b
    ensures 0 < b <= 2 * d1
  {
    assert (2 * d1 + 2) * b == 2 * (d1 * b) + 2 * b;
    if 2 * d1 < b { MulLe(2 * d1 + 2, b, b); }
  }

  lemma DigitsIdentity(b: nat, w: nat, d: nat, q1: nat, q0: nat, r1: nat, r0: nat, n1: nat, h: nat, l: nat)
    requires WordSize(b, w) && q1 * d + r1 == n1 * b + h && q0 * d + r0 == r1 * b + l
    ensures (q1 * b + q0) * d + r0 == TwoWord(w, n1, h * b + l)
  {
    assert (q1 * d + r1) * b == (n1 * b + h) * b;
  }

  /**
   * An input with an undetected wrap: with half words of two bits, d = 11 and u = 10, the
   * word holding the remainder goes 0, 11 (no carry, still below m = 15), 22 - 16.
   */
  lemma SecondCorrectionWraps()
    ensures Normalised(4, 16, 11) && TwoCorrections(4, 16, 11, High(4, 11), Low(4, 11), 10, 0)
    ensures var r, m := Remainder(10, High(4, 11)) * 4, Quotient(10, High(4, 11)) * Low(4, 11);
      r < m && 11 <= Wrap(16, r + 11) == r + 11 < m && Wrap(16, r + 11 + 11) < r + 11 + 11
  {}

  // ---------- the operations together ----------

  /** Multiplying the quotient back and adding the remainder restores the dividend without a carry. */
  method DivideAndRestore(b: nat, w: nat, n1: nat, n0: nat, d: nat) returns (m1: nat, m0: nat)
    requires Normalised(b, w, d) && n1 < d && n0 < w
    ensures m1 == n1 && m0 == n0
  {
    var q, rem := UdivQrnndC(b, w, n1, n0, d);
    var w1, w0 := UmulPpmm(b, w, q, d);
    m1, m0 := AddSsaaaa(w, w1, w0, 0, rem);
    TwoWordBelow(w, n1, n0);
    assert TwoWord(w, 0, rem) == rem;
    TwoWordUnique(w, m1, m0, n1, n0);
  }

  /** Subtraction takes back what addition put in, whether or not the sum fitted into two words. */
  method AddThenSubtract(w: nat, ah: nat, al: nat, bh: nat, bl: nat) returns (h: nat, l: nat)
    requires ah < w && al < w && bh < w && bl < w
    ensures h == ah && l == al
  {
    var sh, sl := AddSsaaaa(w, ah, al, bh, bl);
    h, l := SubDdmmss(w, sh, sl, bh, bl);
    TwoWordBelow(w, ah, al);
    TwoWordBelow(w, bh, bl);
    TwoWordBelow(w, h, l);
    TwoWordUnique(w, h, l, ah, al);
  }
}
