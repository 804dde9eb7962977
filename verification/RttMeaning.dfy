/**
 * What the text of a format is, in characters and argument numbers: which argument every conversion
 * takes, what it prints for it, and how its flags, width, precision and specifier are written.
 */
module RttMeaning {
  import opened Numbers
  import opened RttFormat

  // ---------- numbers ----------

  /** The number that digits denote, most significant first: 0 to 9 are 48 to 57, A to F are 65 to 70. */
  function Horner(digits: seq<byte>, base: nat): int {
    if digits == [] then 0
    else
      var last: int := digits[|digits| - 1];
      Horner(digits[..|digits| - 1], base) * base + (if last <= 57 then last - 48 else last - 55)
  }

  /** The digits of v, as many as it has and at least so many. */
  ghost predicate Denotes(digits: seq<byte>, v: nat, base: nat, least: nat) {
    && Horner(digits, base) == v
    && (forall i :: 0 <= i < |digits| ==> 48 <= digits[i] <= 57 || (base == 16 && 65 <= digits[i] <= 70))
    && |digits| >= 1 && |digits| >= least
    && (|digits| > 1 && |digits| > least ==> v >= Pow(base, |digits| - 1))
  }

  /**
   * A number in its field. What is missing to the width is filled with spaces (32) behind the digits
   * if the left flag is set, with zeros (48) between sign and digits if only the zero flag is and no
   * precision, and with spaces before the sign otherwise.
   */
  ghost predicate InField(text: seq<byte>, sign: seq<byte>, digits: seq<byte>,
                          width: nat, precision: nat, flags: Flags)
  {
    var missing := if |sign| + |digits| < width then width - |sign| - |digits| else 0;
    if flags.left then
      text == sign + digits + seq(missing, _ => 32)
    else if flags.zero && precision == 0 then
      text == sign + seq(missing, _ => 48) + digits
    else
      text == seq(missing, _ => 32) + sign + digits
  }

  lemma {:induction false} HornerOfDigits(v: nat, base: nat, n: nat)
    requires 2 <= base <= 16 && v < Pow(base, n)
    ensures Horner(Digits(v, base, n), base) == v
    ensures forall i :: 0 <= i < n ==>
      var c := Digits(v, base, n)[i]; 48 <= c <= 57 || (base > 10 && 65 <= c <= 70)
    decreases n
  {
    if n > 0 {
      QuotientBelow(v, base, Pow(base, n - 1));
      HornerOfDigits(Quotient(v, base), base, n - 1);
      DivisionEquation(v, base);
      var more, last := Digits(Quotient(v, base), base, n - 1), DigitChar(Remainder(v, base));
      assert Digits(v, base, n) == more + [last];
      hide Digits, Quotient, Remainder, Pow;
      assert (more + [last])[..n - 1] == more;
    }
  }

  lemma DigitsOf(v: nat, base: nat, precision: nat) returns (digits: seq<byte>)
    requires (base == 10 || base == 16) && v < TWO32 && PrecisionFits(base, precision)
    ensures digits == Numeral(v, base, precision) && |digits| == Width(v, base, precision)
    ensures Denotes(digits, v, base, precision)
  {
    var n := Width(v, base, precision);
    FittingNumeral(v, base, precision);
    DigitCountBelow(v, base, n);
    if n > 1 { DigitCountBelow(v, base, n - 1); }
    HornerOfDigits(v, base, n);
    digits := Digits(v, base, n);
  }

  lemma FieldIs(sign: seq<byte>, digits: seq<byte>, width: nat, flags: Flags, precision: nat)
    ensures InField(Field(sign, digits, |digits|, width, flags, precision), sign, digits, width, precision, flags)
  {
    var missing := if |sign| + |digits| < width then width - |sign| - |digits| else 0;
    assert Fill(width - |sign| - |digits|, SPACE) == seq(missing, _ => 32);
    assert Fill(width - |sign| - |digits|, ZERO) == seq(missing, _ => 48);
  }

  /** An unsigned number is printed in its field without a sign. */
  lemma UnsignedTextIs(v: nat, base: nat, precision: nat, width: nat, flags: Flags) returns (digits: seq<byte>)
    requires (base == 10 || base == 16) && v < TWO32 && PrecisionFits(base, precision)
    ensures Denotes(digits, v, base, precision)
    ensures InField(UnsignedText(v, base, precision, width, flags), [], digits, width, precision, flags)
  {
    digits := DigitsOf(v, base, precision);
    FieldIs([], digits, width, flags, precision);
  }

  /** A signed one with - (45) exactly if it is negative, with + (43) if it is not and the flag is set. */
  lemma IntTextIs(v: int, precision: nat, width: nat, flags: Flags) returns (digits: seq<byte>)
    requires Abs(v) < TWO32 && PrecisionFits(10, precision)
    ensures Denotes(digits, if v < 0 then -v else v, 10, precision)
    ensures InField(IntText(v, 10, precision, width, flags),
                    if v < 0 then [45] else if flags.plus then [43] else [], digits, width, precision, flags)
  {
    digits := DigitsOf(Abs(v), 10, precision);
    FieldIs(Sign(v, flags), digits, width, flags, precision);
  }

  // ---------- one conversion ----------

  /** c, d, u, x, X, p and s take an argument. */
  predicate TakesArgument(specifier: byte) {
    specifier == 99 || specifier == 100 || specifier == 117 || specifier == 120 || specifier == 88
    || specifier == 112 || specifier == 115
  }

  /** Some digits that denote v stand in the field. */
  ghost predicate PrintsNumber(text: seq<byte>, sign: seq<byte>, v: nat, base: nat,
                               width: nat, precision: nat, flags: Flags)
  {
    exists digits :: Denotes(digits, v, base, precision) && InField(text, sign, digits, width, precision, flags)
  }

  /** What a conversion prints for an integer argument, by the code of its specifier. */
  ghost predicate PrintsInt(text: seq<byte>, c: Conversion, v: int)
    requires -0x8000_0000 <= v < 0x8000_0000
  {
    var unsigned, magnitude := if v < 0 then v + 0x1_0000_0000 else v, if v < 0 then -v else v;
    var sign := if v < 0 then [45] else if c.flags.plus then [43] else [];
    && (c.specifier == 99 ==> text == [v % 256])
    && (c.specifier == 100 && PrecisionFits(10, c.precision) ==>
          PrintsNumber(text, sign, magnitude, 10, c.width, c.precision, c.flags))
    && (c.specifier == 117 && PrecisionFits(10, c.precision) ==>
          PrintsNumber(text, [], unsigned, 10, c.width, c.precision, c.flags))
    && ((c.specifier == 120 || c.specifier == 88) && PrecisionFits(16, c.precision) ==>
          PrintsNumber(text, [], unsigned, 16, c.width, c.precision, c.flags))
    && (c.specifier == 112 ==> PrintsNumber(text, [], unsigned, 16, 8, 8, Flags(false, false, false, false)))
  }

  /** The specifiers %, and unknown ones, print without an argument. */
  ghost predicate PrintsAlone(text: seq<byte>, specifier: byte) {
    text == if specifier == 37 then [37] else []
  }

  lemma PrintsIntArgument(f: seq<byte>, c: Conversion, args: seq<Arg>)
    requires Suits(f, c, args) && TakesArgument(c.specifier) && c.specifier != 115
    ensures args != [] && args[0].IntArg? && -0x8000_0000 <= args[0].v < 0x8000_0000
    ensures PrintsInt(ConversionText(f, c, args), c, args[0].v)
  {
    var v := args[0].v;
    hide Digits, IntText, UnsignedText, Denotes, InField, PrecisionFits;
    PrecisionFits8();
    if c.specifier == 100 && PrecisionFits(10, c.precision) {
      var digits := IntTextIs(v, c.precision, c.width, c.flags);
    }
    if c.specifier == 117 && PrecisionFits(10, c.precision) {
      var digits := UnsignedTextIs(U32(v), 10, c.precision, c.width, c.flags);
    }
    if (c.specifier == 120 || c.specifier == 88) && PrecisionFits(16, c.precision) {
      var digits := UnsignedTextIs(U32(v), 16, c.precision, c.width, c.flags);
    }
    if c.specifier == 112 {
      var digits := UnsignedTextIs(U32(v), 16, 8, 8, Flags(false, false, false, false));
    }
  }

  lemma PrecisionFits8()
    ensures PrecisionFits(16, 8)
  {
    PrecisionFitsUpTo(8);
  }

  // ---------- the whole format ----------

  /** Before an item of the format: where it stands, how many arguments are used up, how much is printed. */
  datatype Mark = Mark(at: nat, used: nat, printed: nat)

  /** One item: a character as it is, or a conversion with the next argument, if it takes one. */
  ghost predicate Item(f: seq<byte>, args: seq<Arg>, text: seq<byte>, here: Mark, there: Mark) {
    && here.at < |f| && f[here.at] != 0
    && here.printed <= there.printed <= |text|
    && var piece := text[here.printed..there.printed];
    if f[here.at] != 37 then
      there.at == here.at + 1 && there.used == here.used && piece == [f[here.at]]
    else
      var c := ScanConversion(f, here.at + 1);
      && there.at == c.next
      && if !TakesArgument(c.specifier) then there.used == here.used && PrintsAlone(piece, c.specifier)
         else
           && there.used == here.used + 1 && here.used < |args|
           && match args[here.used]
              case StrArg(s) => c.specifier == 115 && piece == s
              case IntArg(v) =>
                c.specifier != 115 && -0x8000_0000 <= v < 0x8000_0000 && PrintsInt(piece, c, v)
  }

  /**
   * The text of a well-formed format is that of its items, one after the other up to the end of the
   * string: the k-th conversion that takes an argument takes the k-th one.
   */
  lemma TextIs(f: seq<byte>, args: seq<Arg>) returns (marks: seq<Mark>)
    requires WellFormed(f, 0, args)
    ensures marks != [] && marks[0] == Mark(0, 0, 0)
    ensures forall k :: 0 <= k < |marks| - 1 ==> Item(f, args, Render(f, 0, args), marks[k], marks[k + 1])
    ensures var last := marks[|marks| - 1];
      last.printed == |Render(f, 0, args)| && (last.at == |f| || (last.at < |f| && f[last.at] == 0))
  {
    hide WellFormed, Render, Item;
    var text := Render(f, 0, args);
    var here := Mark(0, 0, 0);
    marks := [here];
    NothingUsed(args, text);
    while At(f, here.at) != 0
      invariant here.at <= |f| && here.used <= |args| && here.printed <= |text|
      invariant WellFormed(f, here.at, args[here.used..])
      invariant text[here.printed..] == Render(f, here.at, args[here.used..])
      invariant marks != [] && marks[0] == Mark(0, 0, 0) && marks[|marks| - 1] == here
      invariant forall k :: 0 <= k < |marks| - 1 ==> Item(f, args, text, marks[k], marks[k + 1])
      decreases |f| - here.at
    {
      var there := NextItem(f, args, text, here);
      marks, here := marks + [there], there;
    }
    NothingLeft(f, here.at, args[here.used..], text, here.printed);
  }

  lemma NothingUsed(args: seq<Arg>, text: seq<byte>)
    ensures args[0..] == args && text[0..] == text
  {}

  lemma NothingLeft(f: seq<byte>, i: nat, args: seq<Arg>, text: seq<byte>, n: nat)
    requires i <= |f| && WellFormed(f, i, args) && At(f, i) == 0 && n <= |text| && text[n..] == Render(f, i, args)
    ensures n == |text|
  {}

  lemma NextItem(f: seq<byte>, args: seq<Arg>, text: seq<byte>, here: Mark) returns (there: Mark)
    requires here.at <= |f| && here.used <= |args| && here.printed <= |text|
    requires WellFormed(f, here.at, args[here.used..]) && At(f, here.at) != 0
    requires text[here.printed..] == Render(f, here.at, args[here.used..])
    ensures here.at < there.at <= |f| && there.used <= |args| && there.printed <= |text|
    ensures WellFormed(f, there.at, args[there.used..])
    ensures text[there.printed..] == Render(f, there.at, args[there.used..])
    ensures Item(f, args, text, here, there)
  {
    hide WellFormed, Render, Item;
    if f[here.at] != 37 {
      there := CharacterItem(f, args, text, here);
    } else {
      there := ConversionItem(f, args, text, here);
    }
  }

  lemma CharacterItem(f: seq<byte>, args: seq<Arg>, text: seq<byte>, here: Mark) returns (there: Mark)
    requires here.at <= |f| && here.used <= |args| && here.printed <= |text|
    requires WellFormed(f, here.at, args[here.used..]) && At(f, here.at) != 0 && f[here.at] != 37
    requires text[here.printed..] == Render(f, here.at, args[here.used..])
    ensures here.at < there.at <= |f| && there.used <= |args| && there.printed <= |text|
    ensures WellFormed(f, there.at, args[there.used..])
    ensures text[there.printed..] == Render(f, there.at, args[there.used..])
    ensures Item(f, args, text, here, there)
  {
    CharacterStep(f, here.at, args[here.used..]);
    hide WellFormed, Render;
    there := Mark(here.at + 1, here.used, here.printed + 1);
    Piece(text, here.printed, [f[here.at]], Render(f, there.at, args[there.used..]));
  }

  lemma CharacterStep(f: seq<byte>, i: nat, args: seq<Arg>)
    requires i <= |f| && WellFormed(f, i, args) && At(f, i) != 0 && f[i] != 37
    ensures i < |f| && WellFormed(f, i + 1, args) && Render(f, i, args) == [f[i]] + Render(f, i + 1, args)
  {}

  lemma ConversionItem(f: seq<byte>, args: seq<Arg>, text: seq<byte>, here: Mark) returns (there: Mark)
    requires here.at <= |f| && here.used <= |args| && here.printed <= |text|
    requires WellFormed(f, here.at, args[here.used..]) && At(f, here.at) != 0 && f[here.at] == 37
    requires text[here.printed..] == Render(f, here.at, args[here.used..])
    ensures here.at < there.at <= |f| && there.used <= |args| && there.printed <= |text|
    ensures WellFormed(f, there.at, args[there.used..])
    ensures text[there.printed..] == Render(f, there.at, args[there.used..])
    ensures Item(f, args, text, here, there)
  {
    hide WellFormed, Render, ScanConversion, ConversionText, RestArgs, Suits, PrintsInt, PrintsAlone;
    var rest := args[here.used..];
    ConversionStep(f, here.at, rest);
    var c := ScanConversion(f, here.at + 1);
    var piece := ConversionText(f, c, rest);
    there := Mark(c.next, here.used + (if TakesArgument(c.specifier) then 1 else 0), here.printed + |piece|);
    ArgumentTaken(f, c, args, here.used);
    Piece(text, here.printed, piece, Render(f, c.next, args[there.used..]));
    if TakesArgument(c.specifier) && c.specifier != 115 {
      PrintsIntArgument(f, c, rest);
    }
  }

  lemma ConversionStep(f: seq<byte>, i: nat, args: seq<Arg>)
    requires i <= |f| && WellFormed(f, i, args) && At(f, i) != 0 && f[i] == 37
    ensures i < |f|
    ensures var c := ScanConversion(f, i + 1);
      && Suits(f, c, args) && i < c.next <= |f| && WellFormed(f, c.next, RestArgs(c, args))
      && Render(f, i, args) == ConversionText(f, c, args) + Render(f, c.next, RestArgs(c, args))
  {}

  lemma ArgumentTaken(f: seq<byte>, c: Conversion, args: seq<Arg>, n: nat)
    requires n <= |args| && Suits(f, c, args[n..])
    ensures TakesArgument(c.specifier) ==> n < |args| && args[n..][0] == args[n]
    ensures RestArgs(c, args[n..]) == args[n + (if TakesArgument(c.specifier) then 1 else 0)..]
    ensures c.specifier == 115 ==> args[n].StrArg? && ConversionText(f, c, args[n..]) == args[n].s
    ensures !TakesArgument(c.specifier) ==> PrintsAlone(ConversionText(f, c, args[n..]), c.specifier)
  {}

  lemma Piece(text: seq<byte>, n: nat, piece: seq<byte>, more: seq<byte>)
    requires n <= |text| && text[n..] == piece + more
    ensures n + |piece| <= |text| && text[n..n + |piece|] == piece && text[n + |piece|..] == more
  {
    assert |text[n..]| == |piece| + |more|;
    assert text[n..][..|piece|] == piece && text[n..][|piece|..] == more;
    assert text[n..n + |piece|] == text[n..][..|piece|];
  }

  /**
   * A conversion suits its arguments if it ends inside the format and the next argument is a 32-bit
   * number, not -2^31 for d, or a string without zeros, as its specifier asks.
   */
  lemma SuitsIs(f: seq<byte>, c: Conversion, args: seq<Arg>)
    ensures Suits(f, c, args) <==>
      && c.next <= |f| && c.specifier != 0
      && (TakesArgument(c.specifier) ==>
            && args != []
            && match args[0]
               case IntArg(v) =>
                 && c.specifier != 115 && -0x8000_0000 <= v < 0x8000_0000
                 && (c.specifier == 100 ==> v != -0x8000_0000)
               case StrArg(s) => c.specifier == 115 && 0 !in s)
  {
    if args != [] && args[0].StrArg? {
      var s := args[0].s;
      assert 0 in s <==> exists i :: 0 <= i < |s| && s[i] == 0;
    }
  }

  /** A format is well formed if every conversion up to its end suits the arguments left over. */
  lemma WellFormedIs(f: seq<byte>, i: nat, args: seq<Arg>)
    requires i <= |f|
    ensures WellFormed(f, i, args) <==>
      || i == |f| || f[i] == 0
      || (f[i] != 37 && WellFormed(f, i + 1, args))
      || (f[i] == 37
          && var c := ScanConversion(f, i + 1);
             Suits(f, c, args) && WellFormed(f, c.next, if TakesArgument(c.specifier) then args[1..] else args))
  {
    if i < |f| && f[i] == 37 && Suits(f, ScanConversion(f, i + 1), args) {
      ArgumentTaken(f, ScanConversion(f, i + 1), args, 0);
    }
  }

  /** %c%c with two arguments prints the one and then the other. */
  lemma TwoCharacters(f: seq<byte>, a: int, b: int)
    requires f == [37, 99, 37, 99] && IsInt32(a) && IsInt32(b)
    ensures WellFormed(f, 0, [IntArg(a), IntArg(b)]) && Render(f, 0, [IntArg(a), IntArg(b)]) == [a % 256, b % 256]
  {
    var none := Flags(false, false, false, false);
    assert ScanConversion(f, 1) == Conversion(none, 0, 0, 99, 2);
    assert ScanConversion(f, 3) == Conversion(none, 0, 0, 99, 4);
    assert [IntArg(a), IntArg(b)][1..] == [IntArg(b)] && [IntArg(b)][1..] == [];
    assert WellFormed(f, 4, []) && Render(f, 4, []) == [];
    assert WellFormed(f, 2, [IntArg(b)]) && Render(f, 2, [IntArg(b)]) == [b % 256];
  }

  // ---------- how a conversion is written ----------

  predicate FlagCharacter(c: byte) { c == 45 || c == 48 || c == 43 || c == 35 }

  /** - (45), 0 (48), + (43) and # (35) set the four flags. */
  ghost predicate FlagsAre(flags: Flags, s: seq<byte>) {
    && (flags.left <==> 45 in s) && (flags.zero <==> 48 in s)
    && (flags.plus <==> 43 in s) && (flags.alternate <==> 35 in s)
  }

  /**
   * Behind the % stand flags, the width as a decimal number, and after a period (46) the precision as
   * one, both modulo 2^32 and 0 if there are no digits. Then comes the specifier, and the format goes
   * on behind it; if there are l (108) or h (104) before it, the character behind it is lost.
   */
  lemma ConversionIs(f: seq<byte>, i: nat) returns (j: nat, k: nat, m: nat, e: nat)
    requires i <= |f|
    ensures i <= j <= k <= m <= e <= |f|
    ensures (forall t :: i <= t < j ==> FlagCharacter(f[t])) && (j < |f| ==> !FlagCharacter(f[j]))
    ensures FlagsAre(ScanConversion(f, i).flags, f[i..j])
    ensures (forall t :: j <= t < k ==> 48 <= f[t] <= 57) && (k < |f| ==> !(48 <= f[k] <= 57))
    ensures ScanConversion(f, i).width == Horner(f[j..k], 10) % 0x1_0000_0000
    ensures if k < |f| && f[k] == 46 then
        && k + 1 <= m && (forall t :: k + 1 <= t < m ==> 48 <= f[t] <= 57) && (m < |f| ==> !(48 <= f[m] <= 57))
        && ScanConversion(f, i).precision == Horner(f[k + 1..m], 10) % 0x1_0000_0000
      else m == k && ScanConversion(f, i).precision == 0
    ensures (forall t :: m <= t < e ==> f[t] == 108 || f[t] == 104) && (e < |f| ==> f[e] != 108 && f[e] != 104)
    ensures ScanConversion(f, i).specifier == if e < |f| then f[e] else 0
    ensures ScanConversion(f, i).next == if e == m then e + 1 else e + 2
  {
    var none := Flags(false, false, false, false);
    j := FlagPart(f, i, none);
    k := NumberPart(f, j, 0);
    m := k;
    if k < |f| && f[k] == 46 {
      m := NumberPart(f, k + 1, 0);
    }
    e := ModifierPart(f, m);
    NoNumber();
  }

  lemma NoNumber()
    ensures Horner([], 10) == 0 && 0 % 0x1_0000_0000 == 0
  {}

  lemma FlagPart(f: seq<byte>, i: nat, none: Flags) returns (j: nat)
    requires i <= |f| && none == Flags(false, false, false, false)
    ensures i <= j <= |f| && j == ScanFlags(f, i, none).1
    ensures (forall t :: i <= t < j ==> FlagCharacter(f[t])) && (j < |f| ==> !FlagCharacter(f[j]))
    ensures FlagsAre(ScanFlags(f, i, none).0, f[i..j])
  {
    FlagsScanned(f, i, none);
    j := ScanFlags(f, i, none).1;
    hide ScanFlags;
    assert forall t :: i <= t < j ==> IsFlag(At(f, t)) && At(f, t) == f[t];
    PassedIs(f, i, j, 45);
    PassedIs(f, i, j, 48);
    PassedIs(f, i, j, 43);
    PassedIs(f, i, j, 35);
  }

  lemma PassedIs(f: seq<byte>, i: nat, j: nat, c: byte)
    requires i <= j <= |f|
    ensures Passed(f, i, j, c) <==> c in f[i..j]
  {
    if Passed(f, i, j, c) {
      var k :| i <= k < j && At(f, k) == c;
      assert f[i..j][k - i] == c;
    }
    if c in f[i..j] {
      var k :| 0 <= k < j - i && f[i..j][k] == c;
      assert At(f, i + k) == c;
    }
  }

  /** The run of digits from position i on, and the number it denotes behind acc. */
  lemma {:induction false} NumberPart(f: seq<byte>, i: nat, acc: nat) returns (k: nat)
    requires i <= |f|
    ensures i <= k <= |f| && k == ScanNumber(f, i, acc).1
    ensures (forall t :: i <= t < k ==> 48 <= f[t] <= 57) && (k < |f| ==> !(48 <= f[k] <= 57))
    ensures acc == 0 ==> ScanNumber(f, i, acc).0 == Horner(f[i..k], 10) % 0x1_0000_0000
    decreases |f| - i
  {
    k := DigitRun(f, i, acc);
    NumberRun(f, i, k, k, acc);
    if acc == 0 { DivModUnique(0, 0x1_0000_0000, 0, 0); }
  }

  lemma {:induction false} DigitRun(f: seq<byte>, i: nat, acc: nat) returns (k: nat)
    requires i <= |f|
    ensures i <= k <= |f| && k == ScanNumber(f, i, acc).1
    ensures (forall t :: i <= t < k ==> 48 <= f[t] <= 57) && (k < |f| ==> !(48 <= f[k] <= 57))
    decreases |f| - i
  {
    k := i;
    if IsDigit(At(f, i)) {
      k := DigitRun(f, i + 1, (acc * 10 + (At(f, i) - 48)) % TWO32);
    }
  }

  /** Scanning up to position j of a run from i to k leaves the number read so far, in 32 bits. */
  lemma {:induction false} NumberRun(f: seq<byte>, i: nat, j: nat, k: nat, acc: nat)
    requires i <= j <= k <= |f|
    requires (forall t :: i <= t < k ==> 48 <= f[t] <= 57) && (k < |f| ==> !(48 <= f[k] <= 57))
    ensures acc == 0 ==> Horner(f[i..j], 10) >= 0
    ensures acc == 0 ==> ScanNumber(f, i, 0) == ScanNumber(f, j, Horner(f[i..j], 10) % TWO32)
    ensures acc == 0 && j == k ==> ScanNumber(f, i, 0) == (Horner(f[i..k], 10) % TWO32, k)
    decreases j
  {
    if acc == 0 {
      if i < j {
        NumberRun(f, i, j - 1, k, 0);
        HornerSnoc(f, i, j);
        var n, d := Horner(f[i..j - 1], 10), f[j - 1] - 48;
        Mod32(n, d);
        assert At(f, j - 1) == f[j - 1];
      } else {
        assert f[i..j] == [];
        NoNumber();
      }
    }
  }

  lemma HornerSnoc(f: seq<byte>, i: nat, j: nat)
    requires i < j <= |f| && 48 <= f[j - 1] <= 57
    ensures Horner(f[i..j], 10) == Horner(f[i..j - 1], 10) * 10 + (f[j - 1] - 48)
  {
    assert f[i..j][..j - 1 - i] == f[i..j - 1];
  }

  lemma Mod32(n: nat, d: nat)
    ensures ((n % TWO32) * 10 + d) % TWO32 == (n * 10 + d) % TWO32
  {
    var q, r := n / TWO32, n % TWO32;
    assert n * 10 + d == (r * 10 + d) + (q * 10) * TWO32;
    ModShift(r * 10 + d, q * 10, TWO32);
  }

  lemma ModifierPart(f: seq<byte>, m: nat) returns (e: nat)
    requires m <= |f|
    ensures m <= e <= |f|
    ensures (forall t :: m <= t < e ==> f[t] == 108 || f[t] == 104) && (e < |f| ==> f[e] != 108 && f[e] != 104)
    ensures SkipModifiers(f, m, At(f, m)) == (if e < |f| then f[e] else 0, if e == m then e else e + 1)
  {
    if m < |f| && IsModifier(f[m]) {
      e := ModifierRun(f, m, f[m]);
    } else {
      e := m;
    }
  }

  lemma {:induction false} ModifierRun(f: seq<byte>, i: nat, c: byte) returns (e: nat)
    requires i <= |f| && IsModifier(c)
    ensures i <= e <= |f|
    ensures (forall t :: i <= t < e ==> f[t] == 108 || f[t] == 104) && (e < |f| ==> f[e] != 108 && f[e] != 104)
    ensures SkipModifiers(f, i, c) == (if e < |f| then f[e] else 0, e + 1)
    decreases |f| - i
  {
    e := i;
    if i < |f| && IsModifier(f[i]) {
      e := ModifierRun(f, i + 1, f[i]);
    }
  }
}
