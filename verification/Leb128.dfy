/**
 * LEB128 decoding, and the encoding of DWARF section 7.6 (Variable Length Data) that it inverts.
 * 64-bit values are bit patterns below 2^64; a bitwise or of disjoint patterns is a sum.
 */
module Leb128 {
  import opened Numbers

  // ---------- meaning of a byte sequence ----------

  /** Number of bytes up to and including the first one without a continuation bit; 0 if there is none. */
  function Terminated(buf: seq<byte>): (n: nat)
    ensures n <= |buf|
  {
    if buf == [] then 0
    else if buf[0] < 128 then 1
    else if Terminated(buf[1..]) == 0 then 0 else 1 + Terminated(buf[1..])
  }

  /** The seven-bit groups, least significant first. */
  function Unsigned(bytes: seq<byte>): nat {
    if bytes == [] then 0 else bytes[0] % 128 + 128 * Unsigned(bytes[1..])
  }

  /** The same groups with the second highest bit of the last byte as sign. */
  function Signed(bytes: seq<byte>): int
    requires bytes != []
  {
    Unsigned(bytes) - (if bytes[|bytes| - 1] % 128 >= 64 then Pow(128, |bytes|) else 0)
  }

  /** The count is 0 exactly when every byte continues; otherwise it ends at the first that does not. */
  lemma {:induction false} TerminatedIsFirst(buf: seq<byte>)
    ensures Terminated(buf) == 0 <==> forall i :: 0 <= i < |buf| ==> buf[i] >= 128
    ensures Terminated(buf) > 0 ==> buf[Terminated(buf) - 1] < 128
    ensures forall i :: 0 <= i < Terminated(buf) - 1 ==> buf[i] >= 128
  {
    if buf != [] && buf[0] >= 128 {
      TerminatedIsFirst(buf[1..]);
      assert forall i :: 1 <= i < |buf| ==> buf[i] == buf[1..][i - 1];
    }
  }

  function EncodeUnsigned(v: nat): (s: seq<byte>) {
    if v < 128 then [v] else [v % 128 + 128] + EncodeUnsigned(v / 128)
  }

  function EncodeSigned(v: int): (s: seq<byte>)
    ensures s != []
    decreases if v < 0 then -v else v
  {
    var low, rest := v % 128, v / 128;
    if (rest == 0 && low < 64) || (rest == -1 && low >= 64) then [low]
    else [low + 128] + EncodeSigned(rest)
  }

  lemma {:induction false} EncodedUnsigned(v: nat, tail: seq<byte>)
    ensures Unsigned(EncodeUnsigned(v)) == v
    ensures Terminated(EncodeUnsigned(v) + tail) == |EncodeUnsigned(v)|
  {
    var s := EncodeUnsigned(v);
    if v >= 128 {
      EncodedUnsigned(v / 128, tail);
      assert (s + tail)[1..] == EncodeUnsigned(v / 128) + tail;
    }
  }

  lemma {:induction false} EncodedSigned(v: int, tail: seq<byte>)
    ensures Signed(EncodeSigned(v)) == v
    ensures Terminated(EncodeSigned(v) + tail) == |EncodeSigned(v)|
    decreases if v < 0 then -v else v
  {
    var s := EncodeSigned(v);
    var low, rest := v % 128, v / 128;
    if (rest == 0 && low < 64) || (rest == -1 && low >= 64) {
      assert s == [low];
      SignedOne(low);
    } else {
      EncodedSigned(rest, tail);
      assert s == [low + 128] + EncodeSigned(rest);
      hide EncodeSigned, Signed;
      assert (s + tail)[1..] == EncodeSigned(rest) + tail;
      SignedStep(s, EncodeSigned(rest));
    }
  }

  lemma SignedStep(s: seq<byte>, rest: seq<byte>)
    requires rest != [] && |s| == 1 + |rest| && s[1..] == rest
    ensures Signed(s) == s[0] % 128 + 128 * Signed(rest)
  {
    assert s[|s| - 1] == rest[|rest| - 1];
    assert Pow(128, |s|) == 128 * Pow(128, |rest|);
  }

  lemma SignedOne(low: byte)
    requires low < 128
    ensures Signed([low]) == if low < 64 then low else low - 128
  {
    var s := [low];
    assert s[1..] == [] && Unsigned(s) == low;
    assert Pow(128, 1) == 128;
  }

  lemma {:induction false} UnsignedLength(v: nat, k: nat)
    requires k >= 1 && v < Pow(128, k)
    ensures |EncodeUnsigned(v)| <= k
  {
    if v >= 128 {
      assert Pow(128, 1) == 128;
      UnsignedLength(v / 128, k - 1);
    }
  }

  lemma {:induction false} SignedLength(v: int, k: nat)
    requires k >= 1 && -64 * Pow(128, k - 1) <= v < 64 * Pow(128, k - 1)
    ensures |EncodeSigned(v)| <= k
    decreases k
  {
    if k > 1 && |EncodeSigned(v)| > 1 {
      SignedLength(v / 128, k - 1);
    }
  }

  lemma {:induction false} UnsignedSnoc(s: seq<byte>, b: byte)
    ensures Unsigned(s + [b]) == Unsigned(s) + (b % 128) * Pow(128, |s|)
    ensures Unsigned(s) < Pow(128, |s|)
  {
    if s == [] {
      assert [b][1..] == [];
    } else {
      assert (s + [b])[1..] == s[1..] + [b];
      UnsignedSnoc(s[1..], b);
      assert (b % 128) * (128 * Pow(128, |s| - 1)) == 128 * ((b % 128) * Pow(128, |s| - 1));
    }
  }

  lemma {:induction false} GroupsOfSeven(n: nat)
    ensures Pow2(7 * n) == Pow(128, n)
  {
    if n > 0 {
      GroupsOfSeven(n - 1);
      PowAdd(2, 7, 7 * (n - 1));
      assert Pow(2, 7) == 128;
    }
  }

  // ---------- the decoders ----------

  /** result | (uint64_t) group << shift, the group standing above every bit of result. */
  function OrShifted(result: nat, group: nat, shift: nat): nat
    requires result < Pow2(shift)
  {
    result + (group * Pow2(shift)) % TWO64
  }

  /** No byte is read at which the shift would reach 64. */
  predicate ShiftsFit(buf: seq<byte>) { |buf| <= 10 || 1 <= Terminated(buf) <= 10 }

  /** A group more: the pattern follows the value modulo 2^64. */
  lemma AddGroup(s: seq<byte>, b: byte, result: nat)
    requires |s| <= 9 && result == Unsigned(s)
    ensures Pow2(7 * |s|) <= Pow2(63) && result < Pow2(7 * |s|)
    ensures OrShifted(result, b % 128, 7 * |s|) == Unsigned(s + [b]) % TWO64
    ensures |s| < 9 ==> Unsigned(s + [b]) < TWO64
  {
    hide Pow, Unsigned;
    UnsignedSnoc(s, b);
    GroupsOfSeven(|s|);
    PowMonotone(2, 7 * |s|, 63);
    if |s| < 9 {
      PowMonotone(2, 7 * |s|, 56);
      NoTruncation(result, b % 128, Pow2(7 * |s|));
    } else {
      Truncate(result, b % 128);
    }
  }

  lemma NoTruncation(low: nat, group: nat, p: nat)
    requires low < p <= Pow2(56) && group < 128
    ensures low + group * p < TWO64
    ensures low + (group * p) % TWO64 == low + group * p == (low + group * p) % TWO64
  {
    Pow63();
    MulLe(group, 127, p);
    DivModUnique(group * p, TWO64, 0, group * p);
    DivModUnique(low + group * p, TWO64, 0, low + group * p);
  }

  lemma Pow63()
    ensures 2 * Pow2(63) == TWO64 && Pow2(56) * 256 == TWO64
  {
    assert Pow2(8) == 256;
    PowAdd(2, 8, 8);
    PowAdd(2, 16, 16);
    PowAdd(2, 32, 24);
    PowAdd(2, 16, 8);
    PowAdd(2, 56, 7);
    assert Pow2(7) == 128;
  }

  lemma Truncate(low: nat, group: nat)
    requires low < Pow2(63)
    ensures low + (group * Pow2(63)) % TWO64 == (low + group * Pow2(63)) % TWO64
  {
    Pow63();
    var h := Pow2(63);
    var bit, rest := group % 2, group / 2;
    assert group * h == bit * h + rest * TWO64 by {
      assert (2 * rest + bit) * h == rest * (2 * h) + bit * h;
    }
    ModShift(bit * h, rest, TWO64);
    ModShift(low + bit * h, rest, TWO64);
    assert bit == 0 || bit == 1;
  }

  /** Every byte so far continued. */
  lemma {:induction false} ContinuedPrefix(buf: seq<byte>, i: nat)
    requires i <= |buf| && forall k :: 0 <= k < i ==> buf[k] >= 128
    ensures Terminated(buf) == if Terminated(buf[i..]) == 0 then 0 else i + Terminated(buf[i..])
  {
    if i > 0 {
      ContinuedPrefix(buf[1..], i - 1);
      assert buf[1..][i - 1..] == buf[i..];
    } else {
      assert buf[0..] == buf;
    }
  }

  lemma EmptyPrefix(buf: seq<byte>)
    ensures Unsigned(buf[..0]) == 0
  {}

  /** read_uleb128_to_uint64: 0 and r untouched when the buffer ends first. */
  method ReadUleb128(buf: seq<byte>, r0: nat) returns (n: nat, r: nat)
    requires ShiftsFit(buf)
    ensures n == Terminated(buf)
    ensures n == 0 ==> r == r0
    ensures n > 0 ==> r == Unsigned(buf[..n]) % TWO64
  {
    hide Pow, Unsigned;
    EmptyPrefix(buf);
    var p: nat, shift: nat, result: nat := 0, 0, 0;
    while true
      invariant p <= |buf| && p <= 10 && shift == 7 * p
      invariant forall k :: 0 <= k < p ==> buf[k] >= 128
      invariant p <= 9 ==> result == Unsigned(buf[..p])
      decreases |buf| - p
    {
      ContinuedPrefix(buf, p);
      if p >= |buf| {
        return 0, r0;
      }
      var b := buf[p];
      AddGroup(buf[..p], b, result);
      assert buf[..p] + [b] == buf[..p + 1];
      result := OrShifted(result, b % 128, shift);
      p := p + 1;
      if b < 128 {
        break;
      }
      shift := shift + 7;
    }
    n, r := p, result;
  }

  /** A bit pattern read as int64_t. */
  function AsInt64(x: nat): int { if x >= TWO64 / 2 then x - TWO64 else x }

  /** read_sleb128_to_int64 */
  method ReadSleb128(buf: seq<byte>, r0: int) returns (n: nat, r: int)
    requires ShiftsFit(buf)
    ensures n == Terminated(buf)
    ensures n == 0 ==> r == r0
    ensures n > 0 ==> r == AsInt64(Signed(buf[..n]) % TWO64)
  {
    hide Pow, Unsigned;
    EmptyPrefix(buf);
    var p: nat, shift: nat, result: nat := 0, 0, 0;
    var b: byte := 0;
    while true
      invariant p <= |buf| && p <= 10 && shift == 7 * p
      invariant forall k :: 0 <= k < p ==> buf[k] >= 128
      invariant p <= 9 ==> result == Unsigned(buf[..p])
      decreases |buf| - p
    {
      ContinuedPrefix(buf, p);
      if p >= |buf| {
        return 0, r0;
      }
      b := buf[p];
      AddGroup(buf[..p], b, result);
      assert buf[..p] + [b] == buf[..p + 1];
      result := OrShifted(result, b % 128, shift);
      p := p + 1;
      shift := shift + 7;
      if b < 128 {
        break;
      }
    }
    SignExtension(buf[..p], b, result);
    if shift < 64 && b % 128 >= 64 {
      result := result + (TWO64 - Pow2(shift));
    }
    n, r := p, AsInt64(result);
  }

  lemma SignExtension(s: seq<byte>, b: byte, result: nat)
    requires 1 <= |s| <= 10 && b == s[|s| - 1] && result == Unsigned(s) % TWO64
    ensures 7 * |s| < 64 ==> result < Pow2(7 * |s|) < TWO64
    ensures Signed(s) % TWO64 == if 7 * |s| < 64 && b % 128 >= 64 then result + (TWO64 - Pow2(7 * |s|)) else result
  {
    var n := |s|;
    UnsignedSnoc(s, 0);
    GroupsOfSeven(n);
    Pow63();
    if n <= 9 {
      PowMonotone(2, 7 * n, 63);
      DivModUnique(Unsigned(s), TWO64, 0, Unsigned(s));
      if b % 128 >= 64 {
        DivModUnique(Signed(s), TWO64, -1, result + (TWO64 - Pow2(7 * n)));
      }
    } else {
      PowAdd(2, 63, 7);
      assert Pow2(7) == 128 && Pow2(70) == 64 * TWO64;
      ModShift(Unsigned(s), -64, TWO64);
    }
  }

  /** skip_leb128 */
  method SkipLeb128(buf: seq<byte>) returns (n: nat)
    ensures n == Terminated(buf)
  {
    var p := 0;
    while true
      invariant p <= |buf|
      invariant forall k :: 0 <= k < p ==> buf[k] >= 128
      decreases |buf| - p
    {
      ContinuedPrefix(buf, p);
      if p == |buf| {
        return 0;
      }
      var b := buf[p];
      p := p + 1;
      if b < 128 {
        return p;
      }
    }
  }

  // ---------- round trips ----------

  method DecodeEncodedUnsigned(v: nat, tail: seq<byte>) returns (n: nat, r: nat)
    requires v < TWO64
    ensures n == |EncodeUnsigned(v)| && r == v
  {
    EncodedUnsigned(v, tail);
    Pow63();
    GroupsOfSeven(10);
    PowMonotone(2, 64, 70);
    PowAdd(2, 63, 1);
    UnsignedLength(v, 10);
    n, r := ReadUleb128(EncodeUnsigned(v) + tail, 0);
    assert (EncodeUnsigned(v) + tail)[..n] == EncodeUnsigned(v);
    DivModUnique(v, TWO64, 0, v);
  }

  method DecodeEncodedSigned(v: int, tail: seq<byte>) returns (n: nat, r: int)
    requires -(TWO64 / 2) <= v < TWO64 / 2
    ensures n == |EncodeSigned(v)| && r == v
  {
    EncodedSigned(v, tail);
    Pow63();
    GroupsOfSeven(9);
    SignedLength(v, 10);
    n, r := ReadSleb128(EncodeSigned(v) + tail, 0);
    assert (EncodeSigned(v) + tail)[..n] == EncodeSigned(v);
    DivModUnique(v, TWO64, if v < 0 then -1 else 0, if v < 0 then v + TWO64 else v);
  }
}
