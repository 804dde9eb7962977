/**
 * What the digit loops of SEGGER_RTT_vprintf do in decimal when the scale factor has wrapped: which
 * precisions let them leave the table of digits, and which let them print a letter.
 */
module RttDecimal {
  import opened Numbers
  import opened RttFormat

  /** The first digits of d: all of them below 20. */
  function Top(d: nat): nat { if d < 20 then d else Top(d / 10) }

  /** What is left of v when the output loop has divided its scale factor down to below 20. */
  function Tail(v: nat, d: nat): nat
    requires d > 0
  {
    if d < 20 then Remainder(v, d) else Tail(Remainder(v, d), d / 10)
  }

  /** One digit and zeros behind it. */
  predicate Round(d: nat) { d < 10 || (d % 10 == 0 && Round(d / 10)) }

  predicate AllDecimal(indices: seq<nat>) { forall i :: 0 <= i < |indices| ==> indices[i] < 10 }

  // ---------- one scale factor ----------

  lemma NextIndices(v: nat, d: nat)
    requires d > 0
    ensures var (first, more) := (Quotient(v, d), Leads(Remainder(v, d), 10, d / 10));
      && Leads(v, 10, d) == [first] + more
      && (InTable(Leads(v, 10, d)) <==> first < 16 && InTable(more))
      && (AllDecimal(Leads(v, 10, d)) <==> first < 10 && AllDecimal(more))
  {
    QuotientIsDiv(d, 10);
    LeadsStep(v, 10, d);
    hide Leads, Quotient, Remainder;
    FirstIndex(Quotient(v, d), Leads(Remainder(v, d), 10, d / 10));
    FirstDecimal(Quotient(v, d), Leads(Remainder(v, d), 10, d / 10));
  }

  lemma FirstDecimal(first: nat, more: seq<nat>)
    ensures AllDecimal([first] + more) <==> first < 10 && AllDecimal(more)
  {
    var all := [first] + more;
    assert all[0] == first && forall i :: 0 <= i < |more| ==> more[i] == all[i + 1];
  }

  /** The loop can leave the table only at its last digit, and only below a scale factor of 17, 18 or 19. */
  lemma {:induction false} TableLeft(v: nat, d: nat)
    requires d > 0 && v < 16 * d
    ensures InTable(Leads(v, 10, d)) <==> !(Top(d) >= 17 && Tail(v, d) >= 16)
    decreases d
  {
    NextIndices(v, d);
    QuotientBelow(v, d, 16);
    assert d * 16 == 16 * d;
    if d < 10 {
      assert Leads(Remainder(v, d), 10, 0) == [];
    } else if d < 20 {
      NextIndices(Remainder(v, d), 1);
      QuotientUnique(Remainder(v, d), 1, Remainder(v, d), 0);
      assert Leads(0, 10, 0) == [];
    } else {
      TableLeft(Remainder(v, d), d / 10);
    }
  }

  lemma {:induction false} RoundIsDecimal(v: nat, d: nat)
    requires d > 0 && v < 10 * d && Round(d)
    ensures AllDecimal(Leads(v, 10, d))
    decreases d
  {
    NextIndices(v, d);
    QuotientBelow(v, d, 10);
    assert d * 10 == 10 * d;
    if d >= 10 {
      RoundIsDecimal(Remainder(v, d), d / 10);
    } else {
      assert Leads(Remainder(v, d), 10, 0) == [];
    }
  }

  /** Below any other scale factor some number is printed with a letter, or worse. */
  lemma {:induction false} RaggedWitness(d: nat) returns (v: nat)
    requires d > 0 && !Round(d)
    ensures v < d && !AllDecimal(Leads(v, 10, d))
    decreases d
  {
    if d % 10 == 0 {
      v := RaggedWitness(d / 10);
      QuotientUnique(v, d, 0, v);
    } else {
      v := d - 1;
      QuotientUnique(v, d, 0, v);
      NextIndices(v, d / 10);
      QuotientBelow(v, d / 10, 10);
    }
    NextIndices(v, d);
  }

  // ---------- the scale factors of the precisions ----------

  /** Growing appends zeros. */
  lemma {:induction false} GrowAppendsZeros(v: nat, d: nat)
    requires d > 0
    ensures var g := Grow(v, 10, d);
      && v < 10 * g && (Top(g) >= 17 <==> Top(d) >= 17) && (Round(g) <==> Round(d))
    decreases if d <= v then v - d else 0
  {
    if d * 10 <= v { GrowAppendsZeros(v, d * 10); }
  }

  lemma {:induction false} PowerIsRound(k: nat)
    ensures Pow(10, k) > 0 && Top(Pow(10, k)) < 17 && Round(Pow(10, k))
  {
    if k > 0 { PowerIsRound(k - 1); }
  }

  /** Before the multiplications wrap. */
  lemma SmallScale(k: nat)
    requires k <= 9
    ensures Scale(10, k) > 0 && Top(Scale(10, k)) < 17 && Round(Scale(10, k))
  {
    PrecisionFitsUpTo(10);
    PowMonotone(10, k, 9);
    ScaleIsPower(10, k);
    PowerIsRound(k);
  }

  lemma WrappedScales()
    ensures Scale(10, 10) == 1410065408
    ensures Scale(10, 11) == 1215752192
    ensures Scale(10, 12) == 3567587328
    ensures Scale(10, 13) == 1316134912
    ensures Scale(10, 14) == 276447232
    ensures Scale(10, 15) == 2764472320
    ensures Scale(10, 16) == 1874919424
    ensures Scale(10, 17) == 1569325056
    ensures Scale(10, 18) == 2808348672
    ensures Scale(10, 19) == 2313682944
    ensures Scale(10, 20) == 1661992960
    ensures Scale(10, 21) == 3735027712
    ensures Scale(10, 22) == 2990538752
    ensures Scale(10, 23) == 4135583744
    ensures Scale(10, 24) == 2701131776
    ensures Scale(10, 25) == 1241513984
    ensures Scale(10, 26) == 3825205248
    ensures Scale(10, 27) == 3892314112
    ensures Scale(10, 28) == 268435456
    ensures Scale(10, 29) == 2684354560
    ensures Scale(10, 30) == 1073741824
    ensures Scale(10, 31) == 2147483648
  {
    hide Scale;
    ScaleOne(10);
    ScaleAt(10, 1, 1, 10, 10, 100);
    ScaleAt(10, 2, 1, 100, 10, 1000);
    ScaleAt(10, 3, 1, 1000, 10, 10000);
    ScaleAt(10, 4, 1, 10000, 10, 100000);
    ScaleAt(10, 5, 1, 100000, 10, 1000000);
    ScaleAt(10, 6, 1, 1000000, 10, 10000000);
    ScaleAt(10, 7, 1, 10000000, 10, 100000000);
    ScaleAt(10, 8, 1, 100000000, 10, 1000000000);
    ScaleAt(10, 9, 1, 1000000000, 10, 1410065408);
    ScaleAt(10, 10, 1, 1410065408, 10, 1215752192);
    ScaleAt(10, 11, 1, 1215752192, 10, 3567587328);
    ScaleAt(10, 12, 1, 3567587328, 10, 1316134912);
    ScaleAt(10, 13, 1, 1316134912, 10, 276447232);
    ScaleAt(10, 14, 1, 276447232, 10, 2764472320);
    ScaleAt(10, 15, 1, 2764472320, 10, 1874919424);
    ScaleAt(10, 16, 1, 1874919424, 10, 1569325056);
    ScaleAt(10, 17, 1, 1569325056, 10, 2808348672);
    ScaleAt(10, 18, 1, 2808348672, 10, 2313682944);
    ScaleAt(10, 19, 1, 2313682944, 10, 1661992960);
    ScaleAt(10, 20, 1, 1661992960, 10, 3735027712);
    ScaleAt(10, 21, 1, 3735027712, 10, 2990538752);
    ScaleAt(10, 22, 1, 2990538752, 10, 4135583744);
    ScaleAt(10, 23, 1, 4135583744, 10, 2701131776);
    ScaleAt(10, 24, 1, 2701131776, 10, 1241513984);
    ScaleAt(10, 25, 1, 1241513984, 10, 3825205248);
    ScaleAt(10, 26, 1, 3825205248, 10, 3892314112);
    ScaleAt(10, 27, 1, 3892314112, 10, 268435456);
    ScaleAt(10, 28, 1, 268435456, 10, 2684354560);
    ScaleAt(10, 29, 1, 2684354560, 10, 1073741824);
    ScaleAt(10, 30, 1, 1073741824, 10, 2147483648);
  }

  /** After it: none is round, and only the one of precision 17 starts with 17, 18 or 19. */
  lemma WrappedScale(k: nat)
    requires 10 <= k <= 31
    ensures Scale(10, k) > 0 && !Round(Scale(10, k)) && (Top(Scale(10, k)) >= 17 <==> k == 16)
  {
    WrappedScales();
    hide Scale;
    var s := Scale(10, k);
    assert Top(1410065408) == 14;
    assert Top(1215752192) == 12;
    assert Top(3567587328) == 3;
    assert Top(1316134912) == 13;
    assert Top(276447232) == 2;
    assert Top(2764472320) == 2;
    assert Top(1874919424) == 18;
    assert Top(1569325056) == 15;
    assert Top(2808348672) == 2;
    assert Top(2313682944) == 2;
    assert Top(1661992960) == 16;
    assert Top(3735027712) == 3;
    assert Top(2990538752) == 2;
    assert Top(4135583744) == 4;
    assert Top(2701131776) == 2;
    assert Top(1241513984) == 12;
    assert Top(3825205248) == 3;
    assert Top(3892314112) == 3;
    assert Top(268435456) == 2;
    assert Top(2684354560) == 2;
    assert Top(1073741824) == 10;
    assert Top(2147483648) == 2;
  }

  /**
   * Decimal printing is defined for every number except where the scaling loop divides by zero, and
   * except for precision 17 and the numbers that leave 16 or more below the last two digits of its
   * scale factor.
   */
  lemma DecimalPrintable(v: nat, precision: nat)
    requires v < TWO32 && precision < TWO32
    ensures Printable(v, 10, precision) <==>
      !(33 <= precision < 0x8000_0000) && (precision == 17 ==> Tail(v, 1874919424) < 16)
  {
    DivisionByZero(v, precision);
    if ScaleFactor(v, 10, precision) > 0 {
      var k := Forced(precision);
      GrowAppendsZeros(v, Scale(10, k));
      TableLeft(v, ScaleFactor(v, 10, precision));
      if k <= 9 { SmallScale(k); } else { WrappedScale(k); }
      if k == 16 { WrappedScales(); }
    }
  }

  /** Every number is printed, and in decimal digits. */
  ghost predicate PrintsDecimal(precision: nat) {
    forall v: nat :: v < TWO32 ==>
      Printable(v, 10, precision) && AllDecimal(Leads(v, 10, ScaleFactor(v, 10, precision)))
  }

  /** For every precision above 10 that is not negative as a signed number, some number is not. */
  lemma LetterWitness(precision: nat) returns (v: nat)
    requires 11 <= precision <= 32
    ensures v < TWO32 && !AllDecimal(Leads(v, 10, ScaleFactor(v, 10, precision)))
  {
    var s := Scale(10, Forced(precision));
    WrappedScale(Forced(precision));
    v := RaggedWitness(s);
    assert ScaleFactor(v, 10, precision) == s;
  }

  lemma DecimalExactly(precision: nat)
    requires precision < TWO32
    ensures PrintsDecimal(precision) <==> precision <= 10 || precision >= 0x8000_0000
  {
    if 11 <= precision <= 32 {
      var v := LetterWitness(precision);
    } else if 33 <= precision < 0x8000_0000 {
      DecimalPrintable(0, precision);
    } else {
      SmallScale(Forced(precision));
      forall v: nat | v < TWO32
        ensures Printable(v, 10, precision) && AllDecimal(Leads(v, 10, ScaleFactor(v, 10, precision)))
      {
        DecimalPrintable(v, precision);
        GrowAppendsZeros(v, Scale(10, Forced(precision)));
        RoundIsDecimal(v, ScaleFactor(v, 10, precision));
      }
    }
  }
}
