/**
 * What a format string means: the text that SEGGER_RTT_vprintf is to push into the ring, as a
 * function of the format and its arguments.
 */
module RttFormat {
  import opened Numbers

  // ---------- numbers as text ----------

  /** The character table _aV2C. */
  function DigitChar(d: nat): byte
    requires d < 16
  {
    if d < 10 then '0' as int + d else 'A' as int + (d - 10)
  }

  /** Number of digits of v. */
  function DigitCount(v: nat, base: nat): (n: nat)
    requires base >= 2
    ensures n >= 1
  {
    if v < base then 1 else 1 + DigitCount(Quotient(v, base), base)
  }

  /** The last n digits of v, most significant first. */
  function Digits(v: nat, base: nat, n: nat): (s: seq<byte>)
    requires 2 <= base <= 16
    ensures |s| == n
  {
    if n == 0 then [] else Digits(Quotient(v, base), base, n - 1) + [DigitChar(Remainder(v, base))]
  }

  /** Digits printed for v when at least precision of them are asked for. */
  function Width(v: nat, base: nat, precision: nat): (n: nat)
    requires base >= 2
    ensures n >= 1
  {
    Max(DigitCount(v, base), precision)
  }

  function Fill(n: int, c: byte): (s: seq<byte>)
    ensures |s| == Max(0, n)
    ensures forall i :: 0 <= i < |s| ==> s[i] == c
  {
    seq(Max(0, n), _ => c)
  }

  const SPACE: byte := ' ' as int
  const ZERO: byte := '0' as int

  datatype Flags = Flags(left: bool, zero: bool, plus: bool, alternate: bool)

  predicate PadsWithZeros(flags: Flags, precision: nat) { flags.zero && !flags.left && precision == 0 }

  function Sign(v: int, flags: Flags): seq<byte> {
    if v < 0 then ['-' as int] else if flags.plus then ['+' as int] else []
  }

  function Abs(v: int): nat { if v < 0 then -v else v }

  // The digit loops of _PrintUnsigned, for every precision.

  /** A 32-bit number read as a signed one, which is how _PrintUnsigned takes the precision. */
  function Int32(x: nat): int { if x < 0x8000_0000 then x else x - TWO32 }

  /** How often the precision alone makes the scaling loop multiply. */
  function Forced(precision: nat): nat { Max(0, Int32(precision) - 1) }

  /** The scale factor after k multiplications in 32 bits. */
  function Scale(base: nat, k: nat): (s: nat)
    ensures s < TWO32
  {
    if k == 0 then 1 else (Scale(base, k - 1) * base) % TWO32
  }

  /** A scale factor multiplied on while more than one digit of v lies above it. */
  function Grow(v: nat, base: nat, digit: nat): (g: nat)
    requires base >= 2
    ensures g <= Max(digit, v) && (g == 0 <==> digit == 0)
    decreases if digit <= v then v - digit else 0
  {
    if 0 < digit && digit * base <= v then
      MulLe(2, base, digit);
      Grow(v, base, digit * base)
    else digit
  }

  /** The scale factor the scaling loop arrives at; 0 stands for its division by zero. */
  function ScaleFactor(v: nat, base: nat, precision: nat): nat
    requires base >= 2
  {
    Grow(v, base, Scale(base, Forced(precision)))
  }

  /** The table indices of the output loop, which divides the scale factor down until it is 0. */
  function Leads(v: nat, base: nat, digit: nat): seq<nat>
    requires base >= 2
    decreases digit
  {
    if digit == 0 then [] else [Quotient(v, digit)] + Leads(Remainder(v, digit), base, Quotient(digit, base))
  }

  predicate InTable(indices: seq<nat>) { forall i :: 0 <= i < |indices| ==> indices[i] < 16 }

  /** The characters at the indices, up to the first index outside the table. */
  function Characters(indices: seq<nat>): seq<byte> {
    if indices == [] || indices[0] >= 16 then [] else [DigitChar(indices[0])] + Characters(indices[1..])
  }

  /** What the output loop prints for v. */
  function Numeral(v: nat, base: nat, precision: nat): seq<byte>
    requires base >= 2
  {
    Characters(Leads(v, base, ScaleFactor(v, base, precision)))
  }

  /** The loops neither divide by zero nor read outside the table. */
  predicate Printable(v: nat, base: nat, precision: nat)
    requires base >= 2
  {
    var scale := ScaleFactor(v, base, precision);
    scale > 0 && InTable(Leads(v, base, scale))
  }

  /**
   * A number in its field: filler, sign and digits in the order the flags ask for. The filler
   * allows for content digits, however many are printed.
   */
  function Field(sign: seq<byte>, digits: seq<byte>, content: nat, width: nat, flags: Flags, precision: nat): seq<byte>
  {
    var pad := width - |sign| - content;
    if flags.left then sign + digits + Fill(pad, SPACE)
    else if PadsWithZeros(flags, precision) then sign + Fill(pad, ZERO) + digits
    else Fill(pad, SPACE) + sign + digits
  }

  function UnsignedText(v: nat, base: nat, precision: nat, width: nat, flags: Flags): seq<byte>
    requires base >= 2
  {
    Field([], Numeral(v, base, precision), Width(v, base, precision), width, flags, precision)
  }

  function IntText(v: int, base: nat, precision: nat, width: nat, flags: Flags): seq<byte>
    requires base >= 2
  {
    Field(Sign(v, flags), Numeral(Abs(v), base, precision), Width(Abs(v), base, precision), width, flags, precision)
  }

  // ---------- format strings ----------

  datatype Arg = IntArg(v: int) | StrArg(s: seq<byte>)

  /** Character i of a zero-terminated string. */
  function At(f: seq<byte>, i: nat): byte { if i < |f| then f[i] else 0 }

  predicate IsDigit(c: byte) { '0' as int <= c <= '9' as int }

  function AddFlag(flags: Flags, c: byte): Flags {
    if c == '-' as int then flags.(left := true)
    else if c == '0' as int then flags.(zero := true)
    else if c == '+' as int then flags.(plus := true)
    else flags.(alternate := true)
  }

  predicate IsFlag(c: byte) { c == '-' as int || c == '0' as int || c == '+' as int || c == '#' as int }

  predicate IsModifier(c: byte) { c == 'l' as int || c == 'h' as int }

  /** Flags from position i on, and the position after them. */
  function ScanFlags(f: seq<byte>, i: nat, flags: Flags): (r: (Flags, nat))
    requires i <= |f|
    ensures i <= r.1 <= |f|
    decreases |f| - i
  {
    if IsFlag(At(f, i)) then ScanFlags(f, i + 1, AddFlag(flags, At(f, i))) else (flags, i)
  }

  /** A decimal number from position i on, in 32 bits, and the position after it. */
  function ScanNumber(f: seq<byte>, i: nat, acc: nat): (r: (nat, nat))
    requires i <= |f|
    ensures i <= r.1 <= |f|
    ensures acc < TWO32 ==> r.0 < TWO32
    decreases |f| - i
  {
    if IsDigit(At(f, i)) then ScanNumber(f, i + 1, (acc * 10 + (At(f, i) - '0' as int)) % TWO32) else (acc, i)
  }

  /** The length modifiers: c is the character at hand, i the read position. */
  function SkipModifiers(f: seq<byte>, i: nat, c: byte): (r: (byte, nat))
    requires i <= |f|
    ensures i <= r.1 <= |f| + 1
    decreases |f| - i
  {
    if !IsModifier(c) then (c, i)
    else if i == |f| then (0, |f| + 1)
    else SkipModifiers(f, i + 1, f[i])
  }

  /** One conversion: its parts, and where the format goes on after it. */
  datatype Conversion = Conversion(flags: Flags, width: nat, precision: nat, specifier: byte, next: nat)

  function ScanPrecision(f: seq<byte>, i: nat): (r: (nat, nat))
    requires i <= |f|
    ensures i <= r.1 <= |f| && r.0 < TWO32
  {
    if At(f, i) == '.' as int then ScanNumber(f, i + 1, 0) else (0, i)
  }

  /** The conversion whose '%' stands before position i. */
  function ScanConversion(f: seq<byte>, i: nat): (c: Conversion)
    requires i <= |f|
    ensures c.next > i && c.width < TWO32 && c.precision < TWO32
  {
    var (flags, j) := ScanFlags(f, i, Flags(false, false, false, false));
    var (width, k) := ScanNumber(f, j, 0);
    var (precision, m) := ScanPrecision(f, k);
    var (specifier, n) := SkipModifiers(f, m, At(f, m));
    Conversion(flags, width, precision, specifier, n + 1)
  }

  predicate TakesInt(c: byte) {
    c == 'c' as int || c == 'd' as int || c == 'u' as int || c == 'x' as int || c == 'X' as int || c == 'p' as int
  }

  function Base(c: byte): nat { if c == 'x' as int || c == 'X' as int || c == 'p' as int then 16 else 10 }

  /** No more digits are asked for than the 32-bit scale factor can reach. */
  predicate PrecisionFits(base: nat, precision: nat) { precision == 0 || Pow(base, precision - 1) < TWO32 }

  predicate IsInt32(v: int) { -0x8000_0000 <= v < 0x8000_0000 }

  /** Reading a signed argument as unsigned. */
  function U32(v: int): nat
    requires IsInt32(v)
  {
    if v < 0 then v + TWO32 else v
  }

  /** The first argument suits the conversion, and the conversion ends inside the format. */
  predicate Suits(f: seq<byte>, c: Conversion, args: seq<Arg>) {
    && c.next <= |f|
    && c.specifier != 0
    && (TakesInt(c.specifier) ==>
          && args != [] && args[0].IntArg? && IsInt32(args[0].v)
          && (c.specifier == 'd' as int ==> args[0].v > -0x8000_0000))
    && (c.specifier == 's' as int ==>
          args != [] && args[0].StrArg? && forall i :: 0 <= i < |args[0].s| ==> args[0].s[i] != 0)
  }

  function RestArgs(c: Conversion, args: seq<Arg>): seq<Arg>
    requires TakesInt(c.specifier) || c.specifier == 's' as int ==> args != []
  {
    if TakesInt(c.specifier) || c.specifier == 's' as int then args[1..] else args
  }

  /** The text one conversion stands for; an unknown specifier prints nothing. */
  function ConversionText(f: seq<byte>, c: Conversion, args: seq<Arg>): seq<byte>
    requires Suits(f, c, args)
  {
    if c.specifier == 'c' as int then [args[0].v % 256]
    else if c.specifier == 'd' as int then IntText(args[0].v, 10, c.precision, c.width, c.flags)
    else if c.specifier == 'p' as int then UnsignedText(U32(args[0].v), 16, 8, 8, Flags(false, false, false, false))
    else if TakesInt(c.specifier) then UnsignedText(U32(args[0].v), Base(c.specifier), c.precision, c.width, c.flags)
    else if c.specifier == 's' as int then args[0].s
    else if c.specifier == '%' as int then ['%' as int]
    else []
  }

  /** Printing the conversion neither divides by zero nor reads outside the table of digits. */
  predicate Defined(f: seq<byte>, c: Conversion, args: seq<Arg>)
    requires Suits(f, c, args)
  {
    if c.specifier == 'd' as int then Printable(Abs(args[0].v), 10, c.precision)
    else if TakesInt(c.specifier) && c.specifier != 'c' as int && c.specifier != 'p' as int
      then Printable(U32(args[0].v), Base(c.specifier), c.precision)
    else true
  }

  predicate WellFormed(f: seq<byte>, i: nat, args: seq<Arg>)
    requires i <= |f|
    decreases |f| - i
  {
    if At(f, i) == 0 then true
    else if f[i] != '%' as int then WellFormed(f, i + 1, args)
    else
      var c := ScanConversion(f, i + 1);
      Suits(f, c, args) && WellFormed(f, c.next, RestArgs(c, args))
  }

  /** So does no conversion of the format from position i on. */
  predicate AllDefined(f: seq<byte>, i: nat, args: seq<Arg>)
    requires i <= |f| && WellFormed(f, i, args)
    decreases |f| - i
  {
    if At(f, i) == 0 then true
    else if f[i] != '%' as int then AllDefined(f, i + 1, args)
    else
      var c := ScanConversion(f, i + 1);
      Defined(f, c, args) && AllDefined(f, c.next, RestArgs(c, args))
  }

  /** The text of the format from position i on. */
  function Render(f: seq<byte>, i: nat, args: seq<Arg>): seq<byte>
    requires i <= |f| && WellFormed(f, i, args)
    decreases |f| - i
  {
    if At(f, i) == 0 then []
    else if f[i] != '%' as int then [f[i]] + Render(f, i + 1, args)
    else
      var c := ScanConversion(f, i + 1);
      ConversionText(f, c, args) + Render(f, c.next, RestArgs(c, args))
  }

  // ---------- properties of the text ----------

  /**
   * A signed field is as wide as asked for, or as wide as its sign and digits need, exactly when
   * the precision fits; otherwise it is narrower.
   */
  lemma IntTextLength(v: int, base: nat, precision: nat, width: nat, flags: Flags)
    requires 2 <= base <= 16 && Abs(v) < TWO32
    ensures var promised := Max(width, |Sign(v, flags)| + Max(DigitCount(Abs(v), base), precision));
      && |IntText(v, base, precision, width, flags)| <= promised
      && (|IntText(v, base, precision, width, flags)| == promised <==> PrecisionFits(base, precision))
  {
    PrecisionLimit(Abs(v), base, precision);
    hide Numeral, PrecisionFits;
  }

  /** Value of a digit sequence, by Horner's rule. */
  function Value(s: seq<nat>, base: nat): nat {
    if s == [] then 0 else Value(s[..|s| - 1], base) * base + s[|s| - 1]
  }

  function DigitValue(c: byte): nat {
    if c >= 'A' as int then c - 'A' as int + 10 else if c >= '0' as int then c - '0' as int else 0
  }

  function DigitValues(s: seq<byte>): (r: seq<nat>)
    ensures |r| == |s|
  {
    seq(|s|, i requires 0 <= i < |s| => DigitValue(s[i]))
  }

  /** The printed digits are digits of the base and denote v. */
  lemma {:induction false} DigitsDenote(v: nat, base: nat, n: nat)
    requires 2 <= base <= 16 && v < Pow(base, n)
    ensures Value(DigitValues(Digits(v, base, n)), base) == v
    ensures forall i :: 0 <= i < n ==> DigitValue(Digits(v, base, n)[i]) < base
  {
    if n > 0 {
      QuotientBelow(v, base, Pow(base, n - 1));
      DigitsDenote(Quotient(v, base), base, n - 1);
      DigitsSnoc(Quotient(v, base), base, n - 1, Remainder(v, base));
      DivisionEquation(v, base);
    }
  }

  lemma DigitsSnoc(v: nat, base: nat, n: nat, d: nat)
    requires 2 <= base <= 16 && d < base
    ensures DigitValue(DigitChar(d)) == d
    ensures var s := DigitValues(Digits(v, base, n) + [DigitChar(d)]);
      s[..n] == DigitValues(Digits(v, base, n)) && s[n] == d && |s| == n + 1
  {}

  lemma {:induction false} DigitCountBelow(v: nat, base: nat, k: nat)
    requires base >= 2 && k >= 1
    ensures v < Pow(base, k) <==> DigitCount(v, base) <= k
  {
    PowStep(base, k);
    if k == 1 {
    } else if v < base {
      PowMonotone(base, 1, k);
      PowStep(base, 1);
    } else {
      DigitCountBelow(Quotient(v, base), base, k - 1);
      QuotientBelow(v, base, Pow(base, k - 1));
    }
  }

  lemma PowStep(base: nat, k: nat)
    requires k >= 1
    ensures Pow(base, k) == base * Pow(base, k - 1)
    ensures k == 1 ==> Pow(base, k) == base
  {}

  /** The most significant digit can be split off as well as the least significant one. */
  lemma {:induction false} DigitsFromTop(v: nat, base: nat, k: nat, q: nat, r: nat)
    requires 2 <= base <= 16 && q < base && r < Pow(base, k) && v == q * Pow(base, k) + r
    ensures Digits(v, base, k + 1) == [DigitChar(q)] + Digits(r, base, k)
  {
    hide Pow, Digits, Quotient, Remainder;
    if k == 0 {
      PowZero(base);
      OneDigit(v, base);
      NoDigit(r, base);
    } else {
      var p := Pow(base, k - 1);
      PowStep(base, k);
      QuotientBelow(r, base, p);
      QuotientOfSum(v, base, p, q, r);
      DigitsFromTop(q * p + Quotient(r, base), base, k - 1, q, Quotient(r, base));
      TwoEnds(v, base, k, q, r);
    }
  }

  lemma PowZero(base: nat)
    ensures Pow(base, 0) == 1
  {}

  lemma NoDigit(v: nat, base: nat)
    requires 2 <= base <= 16
    ensures Digits(v, base, 0) == []
  {}

  lemma OneDigit(v: nat, base: nat)
    requires 2 <= base <= 16 && v < base
    ensures Digits(v, base, 1) == [DigitChar(v)]
  {}

  lemma TwoEnds(v: nat, base: nat, k: nat, q: nat, r: nat)
    requires 2 <= base <= 16 && q < base && k >= 1
    requires Remainder(v, base) == Remainder(r, base)
    requires Digits(Quotient(v, base), base, k) == [DigitChar(q)] + Digits(Quotient(r, base), base, k - 1)
    ensures Digits(v, base, k + 1) == [DigitChar(q)] + Digits(r, base, k)
  {}

  lemma QuotientOfSum(v: nat, base: nat, p: nat, q: nat, r: nat)
    requires base > 0 && v == q * (base * p) + r
    ensures Quotient(v, base) == q * p + Quotient(r, base) && Remainder(v, base) == Remainder(r, base)
  {
    DivisionEquation(r, base);
    hide Quotient, Remainder;
    var product := Times(q, p);
    MultipleOfBase(q, base, p, product, Quotient(r, base));
    QuotientUnique(v, base, product + Quotient(r, base), Remainder(r, base));
  }

  lemma MultipleOfBase(q: nat, base: nat, p: nat, product: nat, x: nat)
    requires product == q * p
    ensures (product + x) * base == q * (base * p) + x * base
  {
    assert product * base == q * (base * p);
  }

  /** The width scanner of a format reads a printed number back. */
  lemma {:induction false} ScanReadsBack(pre: seq<byte>, v: nat, n: nat, rest: seq<byte>, acc: nat)
    requires v < Pow(10, n) && acc * Pow(10, n) + v < TWO32
    requires rest == [] || !IsDigit(rest[0])
    ensures ScanNumber(pre + Digits(v, 10, n) + rest, |pre|, acc) == (acc * Pow(10, n) + v, |pre| + n)
    decreases n
  {
    if n > 0 {
      var q, r := SplitTop(v, Pow(10, n - 1), acc);
      PowPositive(10, n - 1);
      DigitsFromTop(v, 10, n - 1, q, r);
      ScanReadsBack(pre + [DigitChar(q)], r, n - 1, rest, acc * 10 + q);
      ScanStep(pre, DigitChar(q), Digits(r, 10, n - 1), rest, acc);
    } else {
      assert pre + [] + rest == pre + rest;
    }
  }

  lemma SplitTop(v: nat, p: nat, acc: nat) returns (q: nat, r: nat)
    requires p >= 1 && v < 10 * p
    ensures q < 10 && r < p && v == q * p + r
    ensures acc * (10 * p) + v == (acc * 10 + q) * p + r
    ensures acc * 10 + q <= acc * (10 * p) + v
  {
    q, r := Quotient(v, p), Remainder(v, p);
    DivisionEquation(v, p);
    assert p * 10 == 10 * p;
    QuotientBelow(v, p, 10);
    assert (acc * 10 + q) * p == acc * (10 * p) + q * p;
    MulLe(1, p, acc * 10 + q);
  }

  lemma ScanStep(pre: seq<byte>, c: byte, s: seq<byte>, rest: seq<byte>, acc: nat)
    requires IsDigit(c) && acc * 10 + (c - '0' as int) < TWO32
    ensures ScanNumber(pre + ([c] + s) + rest, |pre|, acc)
         == ScanNumber(pre + [c] + s + rest, |pre + [c]|, acc * 10 + (c - '0' as int))
  {
    DivModUnique(acc * 10 + (c - '0' as int), TWO32, 0, acc * 10 + (c - '0' as int));
    assert pre + ([c] + s) + rest == pre + [c] + s + rest;
  }

  predicate Passed(f: seq<byte>, i: nat, j: nat, c: byte) { exists k :: i <= k < j && At(f, k) == c }

  /** The flag scan stops at the first character that is no flag; it sets exactly the flags it passed. */
  lemma {:induction false} FlagsScanned(f: seq<byte>, i: nat, flags: Flags)
    requires i <= |f|
    ensures var (r, j) := ScanFlags(f, i, flags);
      && (forall k :: i <= k < j ==> IsFlag(At(f, k))) && !IsFlag(At(f, j))
      && (r.left <==> flags.left || Passed(f, i, j, '-' as int))
      && (r.zero <==> flags.zero || Passed(f, i, j, '0' as int))
      && (r.plus <==> flags.plus || Passed(f, i, j, '+' as int))
      && (r.alternate <==> flags.alternate || Passed(f, i, j, '#' as int))
    decreases |f| - i
  {
    if IsFlag(At(f, i)) {
      FlagsScanned(f, i + 1, AddFlag(flags, At(f, i)));
      var j := ScanFlags(f, i, flags).1;
      PassedStep(f, i, j, '-' as int);
      PassedStep(f, i, j, '0' as int);
      PassedStep(f, i, j, '+' as int);
      PassedStep(f, i, j, '#' as int);
    }
  }

  lemma PassedStep(f: seq<byte>, i: nat, j: nat, c: byte)
    requires i < j
    ensures Passed(f, i, j, c) <==> At(f, i) == c || Passed(f, i + 1, j, c)
  {
    if Passed(f, i + 1, j, c) {
      var k :| i + 1 <= k < j && At(f, k) == c;
      assert i <= k < j;
    }
  }

  /**
   * After length modifiers the read position is already behind the specifier, so the conversion
   * swallows the character that follows; without one it is still on the specifier.
   */
  lemma {:induction false} ModifierSwallows(f: seq<byte>, i: nat, c: byte)
    requires i <= |f| && (IsModifier(c) || c == At(f, i))
    ensures var (specifier, j) := SkipModifiers(f, i, c);
      && !IsModifier(specifier)
      && (if IsModifier(c) then j > i && specifier == At(f, j - 1) else j == i && specifier == At(f, j))
    decreases |f| - i
  {
    if IsModifier(c) && i < |f| && IsModifier(f[i]) {
      ModifierSwallows(f, i + 1, f[i]);
    }
  }

  // ---------- the limit on the precision ----------

  lemma {:induction false} ScaleIsPower(base: nat, k: nat)
    requires base >= 2 && Pow(base, k) < TWO32
    ensures Scale(base, k) == Pow(base, k)
  {
    if k > 0 {
      PowMonotone(base, k - 1, k);
      ScaleIsPower(base, k - 1);
      PowStep(base, k);
      ScaleStep(base, k, Pow(base, k - 1));
    }
  }

  lemma ScaleStep(base: nat, k: nat, p: nat)
    requires k > 0 && Scale(base, k - 1) == p && base * p < TWO32
    ensures Scale(base, k) == base * p
  {
    assert p * base == base * p;
    DivModUnique(p * base, TWO32, 0, p * base);
  }

  /** A power below v grows to the power of the first digit of v. */
  lemma {:induction false} PowerGrows(v: nat, base: nat, k: nat)
    requires base >= 2
    ensures Grow(v, base, Pow(base, k)) == Pow(base, Max(k, DigitCount(v, base) - 1))
    decreases v - Pow(base, k)
  {
    var p := Pow(base, k);
    PowPositive(base, k);
    PowStep(base, k + 1);
    DigitCountBelow(v, base, k + 1);
    assert p * base == base * p;
    if p * base <= v {
      MulLe(2, base, p);
      PowerGrows(v, base, k + 1);
    }
  }

  lemma {:induction false} ScaledDigitCount(v: nat, base: nat, digit: nat)
    requires base >= 2
    ensures |Leads(v, base, digit)| == if digit == 0 then 0 else DigitCount(digit, base)
    decreases digit
  {
    if digit > 0 {
      ScaledDigitCount(Remainder(v, digit), base, Quotient(digit, base));
    }
  }

  lemma {:induction false} CharactersLength(indices: seq<nat>)
    ensures |Characters(indices)| <= |indices|
    ensures |Characters(indices)| == |indices| <==> InTable(indices)
  {
    if indices != [] && indices[0] < 16 {
      CharactersLength(indices[1..]);
      assert InTable(indices) <==> InTable(indices[1..]) by {
        assert indices == [indices[0]] + indices[1..];
      }
    }
  }

  /** Under a power of the base the output loop prints the digits of v. */
  lemma {:induction false} LeadsAreDigits(v: nat, base: nat, e: nat)
    requires 2 <= base <= 16 && v < Pow(base, e + 1)
    ensures InTable(Leads(v, base, Pow(base, e)))
    ensures Characters(Leads(v, base, Pow(base, e))) == Digits(v, base, e + 1)
  {
    var digit, div := Pow(base, e), Quotient(v, Pow(base, e));
    PowPositive(base, e);
    TopDigit(v, base, e, digit, div);
    ScaleDown(base, e, digit);
    LeadsStep(v, base, digit);
    if e > 0 {
      LeadsAreDigits(Remainder(v, digit), base, e - 1);
    } else {
      NoDigit(Remainder(v, digit), base);
    }
    hide Pow, Digits, Leads, Quotient, Remainder;
    FirstIndex(div, Leads(Remainder(v, digit), base, Quotient(digit, base)));
  }

  lemma LeadsStep(v: nat, base: nat, digit: nat)
    requires base >= 2 && digit > 0
    ensures Leads(v, base, digit) == [Quotient(v, digit)] + Leads(Remainder(v, digit), base, Quotient(digit, base))
    ensures Leads(v, base, 0) == []
  {}

  /** The first index decides about itself, the others about themselves. */
  lemma FirstIndex(first: nat, more: seq<nat>)
    ensures InTable([first] + more) <==> first < 16 && InTable(more)
    ensures Characters([first] + more) == if first < 16 then [DigitChar(first)] + Characters(more) else []
  {
    var all := [first] + more;
    assert all[0] == first && all[1..] == more;
    assert forall i :: 0 <= i < |more| ==> more[i] == all[i + 1];
  }

  lemma TopDigit(v: nat, base: nat, e: nat, digit: nat, div: nat)
    requires 2 <= base <= 16 && digit == Pow(base, e) >= 1 && v < Pow(base, e + 1) && div == Quotient(v, digit)
    ensures div < base
    ensures Remainder(v, digit) < digit
    ensures Digits(v, base, e + 1) == [DigitChar(div)] + Digits(Remainder(v, digit), base, e)
  {
    DivisionEquation(v, digit);
    PowStep(base, e + 1);
    assert digit * base == base * digit;
    QuotientBelow(v, digit, base);
    DigitsFromTop(v, base, e, div, Remainder(v, digit));
  }

  lemma ScaleDown(base: nat, e: nat, digit: nat)
    requires base >= 2 && digit == Pow(base, e)
    ensures Quotient(digit, base) == if e == 0 then 0 else Pow(base, e - 1)
  {
    if e > 0 {
      PowStep(base, e);
      assert base * Pow(base, e - 1) == Pow(base, e - 1) * base;
      QuotientUnique(digit, base, Pow(base, e - 1), 0);
    }
  }

  lemma {:induction false} ExponentBelowPower(base: nat, k: nat)
    requires base >= 2
    ensures k < Pow(base, k) && (k >= 3 ==> 2 * k + 2 <= Pow(base, k))
  {
    if k > 0 {
      ExponentBelowPower(base, k - 1);
      PowStep(base, k);
      MulLe(2, base, Pow(base, k - 1));
    }
  }

  /** While the multiplications do not wrap, the digits of v come out, with zeros before them. */
  lemma UnwrappedNumeral(v: nat, base: nat, precision: nat)
    requires 2 <= base <= 16 && v < TWO32 && Pow(base, Forced(precision)) < TWO32
    ensures Printable(v, base, precision)
    ensures Numeral(v, base, precision) == Digits(v, base, Max(DigitCount(v, base), Forced(precision) + 1))
  {
    var forced := Forced(precision);
    var width := Max(DigitCount(v, base), forced + 1);
    ScaleIsPower(base, forced);
    PowerGrows(v, base, forced);
    PowPositive(base, width - 1);
    DigitCountBelow(v, base, width);
    assert ScaleFactor(v, base, precision) == Pow(base, width - 1);
    LeadsAreDigits(v, base, width - 1);
  }

  /** A precision that fits is printed in full: the digits of v, as many as asked for. */
  lemma FittingNumeral(v: nat, base: nat, precision: nat)
    requires 2 <= base <= 16 && v < TWO32 && PrecisionFits(base, precision)
    ensures Printable(v, base, precision)
    ensures Numeral(v, base, precision) == Digits(v, base, Width(v, base, precision))
  {
    if precision > 0 { ExponentBelowPower(base, precision - 1); }
    assert Pow(base, 0) == 1;
    assert Forced(precision) == Max(0, precision - 1);
    UnwrappedNumeral(v, base, precision);
  }

  /**
   * The output loop prints as many digits as the scale factor has, unless it leaves the table. For
   * every number that is the promised count exactly when the power of the base that the precision
   * asks for fits 32 bits; otherwise it is less.
   */
  lemma PrecisionLimit(v: nat, base: nat, precision: nat)
    requires 2 <= base <= 16 && v < TWO32
    ensures |Numeral(v, base, precision)| <= Width(v, base, precision)
    ensures |Numeral(v, base, precision)| == Width(v, base, precision) <==> PrecisionFits(base, precision)
  {
    if PrecisionFits(base, precision) {
      FittingNumeral(v, base, precision);
    } else {
      var scale := ScaleFactor(v, base, precision);
      ScaledDigitCount(v, base, scale);
      CharactersLength(Leads(v, base, scale));
      assert Pow(base, 0) == 1;
      DigitCountBelow(scale, base, precision - 1);
    }
  }

  /** In decimal the loops divide by zero for precisions from 33 on, in hexadecimal from 9 on. */
  lemma DivisionByZero(v: nat, precision: nat)
    requires precision < TWO32
    ensures ScaleFactor(v, 10, precision) == 0 <==> 33 <= precision < 0x8000_0000
    ensures ScaleFactor(v, 16, precision) == 0 <==> 9 <= precision < 0x8000_0000
  {
    DecimalScales();
    HexadecimalScales();
    hide Scale;
    var k := Forced(precision);
    if k <= 31 { ScaleStaysZero(10, k, 31); } else { ScaleStaysZero(10, 32, k); }
    if k <= 7 { ScaleStaysZero(16, k, 7); } else { ScaleStaysZero(16, 8, k); }
  }

  lemma DecimalScales()
    ensures Scale(10, 16) == 1874919424 && Scale(10, 22) == 2990538752
    ensures Scale(10, 31) == 0x8000_0000 && Scale(10, 32) == 0
  {
    hide Scale;
    ScaleOne(10);
    ScaleAt(10, 1, 1, 10, 10, 100);
    ScaleAt(10, 2, 1, 100, 10, 1000);
    ScaleAt(10, 2, 2, 100, 100, 10000);
    ScaleAt(10, 4, 4, 10000, 10000, 100000000);
    ScaleAt(10, 4, 3, 10000, 1000, 10000000);
    ScaleAt(10, 4, 2, 10000, 100, 1000000);
    ScaleAt(10, 8, 7, 100000000, 10000000, 2764472320);
    ScaleAt(10, 8, 8, 100000000, 100000000, 1874919424);
    ScaleAt(10, 16, 6, 1874919424, 1000000, 2990538752);
    ScaleAt(10, 16, 15, 1874919424, 2764472320, 2147483648);
    ScaleAt(10, 16, 16, 1874919424, 1874919424, 0);
  }

  lemma HexadecimalScales()
    ensures Scale(16, 7) == 0x1000_0000 && Scale(16, 8) == 0
  {
    hide Scale;
    ScaleOne(16);
    ScaleAt(16, 1, 1, 16, 16, 256);
    ScaleAt(16, 2, 1, 256, 16, 4096);
    ScaleAt(16, 2, 2, 256, 256, 65536);
    ScaleAt(16, 4, 4, 65536, 65536, 0);
    ScaleAt(16, 4, 3, 65536, 4096, 268435456);
  }

  lemma ScaleAt(base: nat, j: nat, k: nat, p: nat, q: nat, r: nat)
    requires Scale(base, j) == p && Scale(base, k) == q && (p * q) % TWO32 == r
    ensures Scale(base, j + k) == r
  {
    ScaleSum(base, j, k);
  }

  lemma ScaleOne(base: nat)
    requires base <= 16
    ensures Scale(base, 1) == base
  {}

  lemma {:induction false} ScaleSum(base: nat, j: nat, k: nat)
    ensures Scale(base, j + k) == (Scale(base, j) * Scale(base, k)) % TWO32
  {
    if k > 0 {
      ScaleSum(base, j, k - 1);
      var x, y := Scale(base, j), Scale(base, k - 1);
      SumStep(x, y, base);
    } else {
      DivModUnique(Scale(base, j), TWO32, 0, Scale(base, j));
    }
  }

  lemma SumStep(x: nat, y: nat, base: nat)
    ensures (((x * y) % TWO32) * base) % TWO32 == (x * ((y * base) % TWO32)) % TWO32
  {
    ModTimes(x * y, base);
    ModTimes(y * base, x);
    assert (x * y) * base == (y * base) * x;
  }

  lemma ModTimes(x: nat, y: nat)
    ensures ((x % TWO32) * y) % TWO32 == (x * y) % TWO32
  {
    var q, r := x / TWO32, x % TWO32;
    assert x == q * TWO32 + r;
    assert x * y == r * y + (q * y) * TWO32;
    ModShift(r * y, q * y, TWO32);
  }

  lemma {:induction false} ScaleStaysZero(base: nat, k: nat, n: nat)
    requires k <= n
    ensures Scale(base, k) == 0 ==> Scale(base, n) == 0
  {
    if k < n { ScaleStaysZero(base, k, n - 1); }
  }

  /** A hexadecimal number is printed whenever there is no division by zero. */
  lemma HexadecimalPrintable(v: nat, precision: nat)
    requires v < TWO32 && precision < TWO32
    ensures Printable(v, 16, precision) <==> !(9 <= precision < 0x8000_0000)
  {
    DivisionByZero(v, precision);
    if Forced(precision) <= 7 {
      PrecisionFitsUpTo(8);
      PowMonotone(16, Forced(precision), 7);
      UnwrappedNumeral(v, 16, precision);
    }
  }

  /** A format such as %.17d and a number for which the output loop reads outside the table of digits. */
  lemma OutsideTheTable()
    ensures Leads(17, 10, ScaleFactor(17, 10, 17)) == [0, 0, 0, 0, 0, 0, 0, 0, 0, 17]
    ensures !Printable(17, 10, 17)
  {
    DecimalScales();
    hide Quotient, Remainder, Leads, Scale;
    NextLead(17, 10, 1874919424, 0, 17, 187491942, 4);
    NextLead(17, 10, 187491942, 0, 17, 18749194, 2);
    NextLead(17, 10, 18749194, 0, 17, 1874919, 4);
    NextLead(17, 10, 1874919, 0, 17, 187491, 9);
    NextLead(17, 10, 187491, 0, 17, 18749, 1);
    NextLead(17, 10, 18749, 0, 17, 1874, 9);
    NextLead(17, 10, 1874, 0, 17, 187, 4);
    NextLead(17, 10, 187, 0, 17, 18, 7);
    NextLead(17, 10, 18, 0, 17, 1, 8);
    NextLead(17, 10, 1, 17, 0, 0, 1);
    NoLead(0, 10);
    assert Leads(17, 10, 1874919424)[9] == 17;
  }

  /** A number whose decimal rendering ends in a letter: %.23u of 4294967295 prints 143618513C. */
  lemma LetterInDecimal()
    ensures Leads(4294967295, 10, ScaleFactor(4294967295, 10, 23)) == [1, 4, 3, 6, 1, 8, 5, 1, 3, 12]
  {
    DecimalScales();
    hide Quotient, Remainder, Leads, Scale;
    NextLead(4294967295, 10, 2990538752, 1, 1304428543, 299053875, 2);
    NextLead(1304428543, 10, 299053875, 4, 108213043, 29905387, 5);
    NextLead(108213043, 10, 29905387, 3, 18496882, 2990538, 7);
    NextLead(18496882, 10, 2990538, 6, 553654, 299053, 8);
    NextLead(553654, 10, 299053, 1, 254601, 29905, 3);
    NextLead(254601, 10, 29905, 8, 15361, 2990, 5);
    NextLead(15361, 10, 2990, 5, 411, 299, 0);
    NextLead(411, 10, 299, 1, 112, 29, 9);
    NextLead(112, 10, 29, 3, 25, 2, 9);
    NextLead(25, 10, 2, 12, 1, 0, 2);
    NoLead(1, 10);
  }

  lemma NextLead(v: nat, base: nat, digit: nat, q: nat, rest: nat, next: nat, last: nat)
    requires base >= 2 && rest < digit && v == q * digit + rest
    requires last < base && digit == next * base + last
    ensures Leads(v, base, digit) == [q] + Leads(rest, base, next)
  {
    QuotientUnique(v, digit, q, rest);
    QuotientUnique(digit, base, next, last);
  }

  lemma NoLead(v: nat, base: nat)
    requires base >= 2
    ensures Leads(v, base, 0) == []
  {}

  lemma PrecisionFitsUpTo(precision: nat)
    ensures PrecisionFits(10, precision) <==> precision <= 10
    ensures PrecisionFits(16, precision) <==> precision <= 8
  {
    assert Pow(10, 4) == 10000;
    PowAdd(10, 4, 4);
    PowAdd(10, 8, 1);
    PowAdd(10, 8, 2);
    assert Pow(16, 3) == 4096;
    PowAdd(16, 3, 3);
    PowAdd(16, 6, 1);
    PowAdd(16, 6, 2);
    if precision > 10 { PowMonotone(10, 10, precision - 1); }
    if precision > 8 { PowMonotone(16, 8, precision - 1); }
    if 0 < precision <= 10 { PowMonotone(10, precision - 1, 9); }
    if 0 < precision <= 8 { PowMonotone(16, precision - 1, 7); }
  }
}
