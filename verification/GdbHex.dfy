/**
 * Hexadecimal transfer in the GDB stub: memory to text and back, numbers in packets, and the
 * 8-digit printer putnum. A fault schedule says which memory access sets mem_err.
 */
module GdbHex {
  import opened Numbers
  import BitCount

  const BUFMAX: nat := 2048

  type Faults = nat -> bool

  function Hex2Digit(c: byte): int {
    if c == 0 then 0
    else if '0' as int <= c <= '9' as int then c - '0' as int
    else if 'a' as int <= c <= 'f' as int then c - 'a' as int + 10
    else if 'A' as int <= c <= 'F' as int then c - 'A' as int + 10
    else -1
  }

  function Digit2Hex(d: nat): byte
    requires d < 16
  {
    if d < 10 then '0' as int + d else 'a' as int + d - 10
  }

  predicate IsHex(c: byte) { c != 0 && Hex2Digit(c) >= 0 }

  predicate AllHex(s: seq<byte>) { forall i :: 0 <= i < |s| ==> IsHex(s[i]) }

  /** ch = hex2digit(high) << 4; ch |= hex2digit(low): the error value -1 sets all bits it covers. */
  function JoinDigits(high: byte, low: byte): byte {
    if Hex2Digit(low) < 0 then 255
    else if Hex2Digit(high) < 0 then 240 + Hex2Digit(low)
    else Hex2Digit(high) * 16 + Hex2Digit(low)
  }

  function HexOf(mem: seq<byte>): (s: seq<byte>)
    ensures |s| == 2 * |mem|
  {
    if mem == [] then [] else [Digit2Hex(mem[0] / 16), Digit2Hex(mem[0] % 16)] + HexOf(mem[1..])
  }

  function BytesOf(hex: seq<byte>): (s: seq<byte>)
    requires |hex| % 2 == 0
    ensures |s| == |hex| / 2
  {
    if hex == [] then [] else [JoinDigits(hex[0], hex[1])] + BytesOf(hex[2..])
  }

  function LowerChar(c: byte): byte {
    if 'A' as int <= c <= 'F' as int then c - 'A' as int + 'a' as int else c
  }

  function Lower(s: seq<byte>): (r: seq<byte>)
    ensures |r| == |s|
  {
    seq(|s|, i requires 0 <= i < |s| => LowerChar(s[i]))
  }

  /** Every byte survives the trip through two hex digits. */
  lemma {:induction false} BytesOfHex(mem: seq<byte>)
    ensures BytesOf(HexOf(mem)) == mem && AllHex(HexOf(mem))
  {
    if mem != [] {
      BytesOfHex(mem[1..]);
      assert HexOf(mem)[2..] == HexOf(mem[1..]);
      assert mem == [mem[0]] + mem[1..];
    }
  }

  /** The digits are 0 to 9 (48 to 57), A to F (65 to 70) and a to f (97 to 102), with their usual values. */
  lemma HexDigits(c: byte)
    ensures IsHex(c) <==> 48 <= c <= 57 || 65 <= c <= 70 || 97 <= c <= 102
    ensures 48 <= c <= 57 ==> Hex2Digit(c) == c - 48
    ensures 65 <= c <= 70 ==> Hex2Digit(c) == c - 55
    ensures 97 <= c <= 102 ==> Hex2Digit(c) == c - 87
    ensures !IsHex(c) ==> Hex2Digit(c) == if c == 0 then 0 else -1
  {}

  /** The two digits of every byte, high half first, in lower case. */
  lemma {:induction false} HexOfAt(mem: seq<byte>, i: nat)
    requires i < |mem|
    ensures var high, low := mem[i] / 16, mem[i] % 16;
      && HexOf(mem)[2 * i] == (if high < 10 then 48 + high else 87 + high)
      && HexOf(mem)[2 * i + 1] == (if low < 10 then 48 + low else 87 + low)
  {
    if i > 0 {
      HexOfAt(mem[1..], i - 1);
      assert HexOf(mem)[2..] == HexOf(mem[1..]);
    }
  }

  lemma {:induction false} BytesOfAt(hex: seq<byte>, i: nat)
    requires |hex| % 2 == 0 && 2 * i + 1 < |hex|
    ensures BytesOf(hex)[i] == JoinDigits(hex[2 * i], hex[2 * i + 1])
  {
    if i > 0 {
      BytesOfAt(hex[2..], i - 1);
      assert BytesOf(hex)[1..] == BytesOf(hex[2..]);
    }
  }

  /** The high digit shifted left by four and the low one are or-ed in one byte, whatever they are. */
  lemma JoinedBits(high: byte, low: byte)
    ensures var h, l := (16 * Hex2Digit(high)) % 256, Hex2Digit(low) % 256;
      JoinDigits(high, low) == h + l - BitCount.And(h, l)
  {
    var h, l := (16 * Hex2Digit(high)) % 256, Hex2Digit(low) % 256;
    hide BitCount.And;
    assert if Hex2Digit(high) < 0 then h == 240 else h == 16 * Hex2Digit(high);
    if Hex2Digit(low) < 0 {
      assert l == 255;
      AndFull(h);
    } else {
      AndHalves(h / 16, l);
    }
  }

  lemma AndFull(h: nat)
    requires h < 256
    ensures BitCount.And(h, 255) == h
  {
    hide BitCount.And;
    assert Pow2(8) == 256;
    BitCount.AndAllOnes(h, 8);
  }

  lemma AndHalves(h: nat, l: nat)
    requires l < 16
    ensures BitCount.And(h * 16, l) == 0
  {
    hide BitCount.And;
    assert Pow2(4) == 16;
    BitCount.AndDisjoint(h, l, 4);
    BitCount.AndCommutes(h * 16, l);
  }

  /** Hex text survives the trip through memory, its letters turned to lower case. */
  lemma HexOfBytes(hex: seq<byte>)
    requires |hex| % 2 == 0
    requires forall i :: 0 <= i < |hex| ==> 48 <= hex[i] <= 57 || 65 <= hex[i] <= 70 || 97 <= hex[i] <= 102
    ensures |HexOf(BytesOf(hex))| == |hex|
    ensures forall i :: 0 <= i < |hex| ==>
      HexOf(BytesOf(hex))[i] == if 65 <= hex[i] <= 70 then hex[i] + 32 else hex[i]
  {
    forall i | 0 <= i < |hex|
      ensures IsHex(hex[i])
    {
      HexDigits(hex[i]);
    }
    LowerOfBytes(hex);
  }

  lemma {:induction false} LowerOfBytes(hex: seq<byte>)
    requires |hex| % 2 == 0 && AllHex(hex)
    ensures HexOf(BytesOf(hex)) == Lower(hex)
  {
    if hex != [] {
      LowerOfBytes(hex[2..]);
      PairOfByte(hex[0], hex[1]);
      hide Hex2Digit, JoinDigits, Digit2Hex, LowerChar;
      assert BytesOf(hex)[1..] == BytesOf(hex[2..]);
      assert Lower(hex) == [LowerChar(hex[0]), LowerChar(hex[1])] + Lower(hex[2..]);
    }
  }

  lemma PairOfByte(high: byte, low: byte)
    requires IsHex(high) && IsHex(low)
    ensures Digit2Hex(JoinDigits(high, low) / 16) == LowerChar(high)
    ensures Digit2Hex(JoinDigits(high, low) % 16) == LowerChar(low)
  {}

  lemma {:induction false} HexOfSnoc(mem: seq<byte>, b: byte)
    ensures HexOf(mem + [b]) == HexOf(mem) + [Digit2Hex(b / 16), Digit2Hex(b % 16)]
  {
    if mem != [] {
      assert (mem + [b])[1..] == mem[1..] + [b];
      HexOfSnoc(mem[1..], b);
    }
  }

  lemma {:induction false} BytesOfSnoc(hex: seq<byte>, h: byte, l: byte)
    requires |hex| % 2 == 0
    ensures BytesOf(hex + [h, l]) == BytesOf(hex) + [JoinDigits(h, l)]
  {
    if hex == [] {
      assert [h, l][2..] == [];
    } else {
      assert (hex + [h, l])[2..] == hex[2..] + [h, l];
      BytesOfSnoc(hex[2..], h, l);
    }
  }

  predicate NoFault(faults: Faults, n: nat) { forall i: nat :: i < n ==> !faults(i) }

  lemma FaultStep(faults: Faults, i: nat, n: nat)
    requires i < n
    ensures faults(i) ==> !NoFault(faults, n)
    ensures NoFault(faults, i + 1) == (NoFault(faults, i) && !faults(i))
  {}

  lemma NextByte(bytes: seq<byte>, i: nat)
    requires i < |bytes|
    ensures HexOf(bytes[..i + 1]) == HexOf(bytes[..i]) + [Digit2Hex(bytes[i] / 16), Digit2Hex(bytes[i] % 16)]
  {
    HexOfSnoc(bytes[..i], bytes[i]);
    assert bytes[..i + 1] == bytes[..i] + [bytes[i]];
  }

  lemma NothingYet()
    ensures HexOf([]) == [] && BytesOf([]) == []
  {}

  /** The first i bytes have been written as text over what buf held before. */
  ghost predicate HexWritten(buf: array<byte>, bytes: seq<byte>, i: nat, orig: seq<byte>)
    reads buf
  {
    && i <= |bytes| && 2 * |bytes| < |orig| == buf.Length
    && buf[..] == HexOf(bytes[..i]) + orig[2 * i..]
  }

  lemma NothingWritten(buf: array<byte>, bytes: seq<byte>, orig: seq<byte>, faults: Faults)
    requires 2 * |bytes| < buf.Length && buf[..] == orig
    ensures HexWritten(buf, bytes, 0, orig) && NoFault(faults, 0)
  {
    NothingYet();
  }

  method PutByte(buf: array<byte>, i: nat, ch: byte, ghost bytes: seq<byte>, ghost orig: seq<byte>)
    requires HexWritten(buf, bytes, i, orig) && i < |bytes| && ch == bytes[i]
    modifies buf
    ensures HexWritten(buf, bytes, i + 1, orig)
  {
    NextByte(bytes, i);
    buf[2 * i] := Digit2Hex(ch / 16);
    buf[2 * i + 1] := Digit2Hex(ch % 16);
  }

  method PutZero(buf: array<byte>, n: nat, ghost bytes: seq<byte>, ghost orig: seq<byte>)
    requires HexWritten(buf, bytes, n, orig) && n == |bytes|
    modifies buf
    ensures buf[..] == HexOf(bytes) + [0] + orig[2 * n + 1..]
  {
    assert bytes[..n] == bytes;
    buf[2 * n] := 0;
  }

  /** mem2hex: the zero-terminated hex text of count bytes, or failure at the first fault. */
  method Mem2Hex(mem: array<byte>, at: nat, buf: array<byte>, count: nat, faults: Faults) returns (ok: bool)
    requires mem != buf && at + count <= mem.Length && 2 * count < buf.Length
    modifies buf
    ensures ok == NoFault(faults, count)
    ensures ok ==> buf[..] == HexOf(mem[at..at + count]) + [0] + old(buf[..])[2 * count + 1..]
  {
    hide *;
    ghost var orig, bytes := buf[..], mem[at..at + count];
    NothingWritten(buf, bytes, orig, faults);
    var i: nat := 0;
    while i < count
      invariant i <= count && NoFault(faults, i)
      invariant HexWritten(buf, bytes, i, orig)
    {
      var ch := mem[at + i];
      FaultStep(faults, i, count);
      if faults(i) {
        return false;
      }
      PutByte(buf, i, ch, bytes, orig);
      i := i + 1;
    }
    PutZero(buf, count, bytes, orig);
    assert mem[at..at + count] == bytes;
    ok := true;
  }

  /** The first i bytes of the text have been written from position at on. */
  ghost predicate BytesWritten(mem: array<byte>, at: nat, hex: seq<byte>, i: nat, orig: seq<byte>)
    reads mem
  {
    && 2 * i <= |hex| && at + i <= |orig| == mem.Length
    && mem[..] == orig[..at] + BytesOf(hex[..2 * i]) + orig[at + i..]
  }

  lemma NextPair(hex: seq<byte>, i: nat)
    requires 2 * i + 2 <= |hex|
    ensures BytesOf(hex[..2 * (i + 1)]) == BytesOf(hex[..2 * i]) + [JoinDigits(hex[2 * i], hex[2 * i + 1])]
  {
    BytesOfSnoc(hex[..2 * i], hex[2 * i], hex[2 * i + 1]);
    assert hex[..2 * (i + 1)] == hex[..2 * i] + [hex[2 * i], hex[2 * i + 1]];
  }

  method PutMemory(mem: array<byte>, at: nat, hex: seq<byte>, i: nat, ch: byte, ghost orig: seq<byte>)
    requires BytesWritten(mem, at, hex, i, orig) && at + i < mem.Length
    requires 2 * i + 2 <= |hex| && ch == JoinDigits(hex[2 * i], hex[2 * i + 1])
    modifies mem
    ensures BytesWritten(mem, at, hex, i + 1, orig)
  {
    NextPair(hex, i);
    mem[at + i] := ch;
  }

  lemma NoBytesWritten(mem: array<byte>, at: nat, hex: seq<byte>, orig: seq<byte>, faults: Faults)
    requires at <= mem.Length && mem[..] == orig
    ensures BytesWritten(mem, at, hex, 0, orig) && NoFault(faults, 0)
  {
    NothingYet();
    assert hex[..0] == [];
    assert orig == orig[..at] + [] + orig[at..];
  }

  lemma Untouched(mem: array<byte>, at: nat, hex: seq<byte>, i: nat, orig: seq<byte>, count: nat)
    requires BytesWritten(mem, at, hex, i, orig) && i <= count && at + count <= |orig|
    ensures mem[..at] == orig[..at] && mem[at + count..] == orig[at + count..]
    ensures mem[..] == orig[..at] + BytesOf(hex[..2 * i]) + orig[at + i..]
  {}

  /** hex2mem: the bytes that count pairs of digits stand for, or failure after the first faulting write. */
  method Hex2Mem(buf: seq<byte>, mem: array<byte>, at: nat, count: nat, faults: Faults) returns (ok: bool)
    requires 2 * count <= |buf| && at + count <= mem.Length
    modifies mem
    ensures ok == NoFault(faults, count)
    ensures ok ==> mem[..] == old(mem[..])[..at] + BytesOf(buf[..2 * count]) + old(mem[..])[at + count..]
    ensures mem[..at] == old(mem[..])[..at] && mem[at + count..] == old(mem[..])[at + count..]
  {
    hide *;
    ghost var orig := mem[..];
    NoBytesWritten(mem, at, buf, orig, faults);
    var i: nat := 0;
    while i < count
      invariant i <= count && NoFault(faults, i)
      invariant BytesWritten(mem, at, buf, i, orig)
    {
      var ch := JoinDigits(buf[2 * i], buf[2 * i + 1]);
      FaultStep(faults, i, count);
      PutMemory(mem, at, buf, i, ch, orig);
      i := i + 1;
      if faults(i - 1) {
        Untouched(mem, at, buf, i, orig, count);
        return false;
      }
    }
    Untouched(mem, at, buf, i, orig, count);
    ok := true;
  }

  // ---------- the memory commands ----------

  /** The stub's reply buffer and the memory it serves. */
  class Stub {
    const packetOut: array<byte>
    const memory: array<byte>

    ghost predicate Valid() {
      packetOut.Length == BUFMAX && packetOut != memory
    }

    constructor (memory: array<byte>)
      ensures Valid() && this.memory == memory && fresh(packetOut)
    {
      packetOut := new byte[BUFMAX];
      this.memory := memory;
    }

    /** The reply is this text, zero-terminated. */
    ghost predicate Replies(text: seq<byte>)
      reads packetOut
    {
      |text| < packetOut.Length && packetOut[..|text|] == text && packetOut[|text|] == 0
    }

    /** make_return_packet: OK or E and two hex digits. */
    method MakeReturnPacket(val: nat)
      requires Valid()
      modifies packetOut
      ensures Replies(if val == 0 then ['O' as int, 'K' as int]
                      else ['E' as int, Digit2Hex((val / 16) % 16), Digit2Hex(val % 16)])
    {
      if val == 0 {
        packetOut[0], packetOut[1], packetOut[2] := 'O' as int, 'K' as int, 0;
      } else {
        packetOut[0] := 'E' as int;
        packetOut[1] := Digit2Hex((val / 16) % 16);
        packetOut[2] := Digit2Hex(val % 16);
        packetOut[3] := 0;
      }
    }

    /** gdb_read_memory */
    method ReadMemory(addr: nat, n: nat, faults: Faults)
      requires Valid() && addr + n <= memory.Length && 2 * n < BUFMAX
      modifies packetOut
      ensures Replies(if NoFault(faults, n) then HexOf(memory[addr..addr + n])
                      else ['E' as int, '0' as int, '3' as int])
    {
      var ok := Mem2Hex(memory, addr, packetOut, n, faults);
      if !ok {
        MakeReturnPacket(3);
      }
    }

    /** gdb_write_memory */
    method WriteMemory(addr: nat, n: nat, data: seq<byte>, faults: Faults)
      requires Valid() && addr + n <= memory.Length && 2 * n <= |data|
      modifies packetOut, memory
      ensures Replies(if NoFault(faults, n) then ['O' as int, 'K' as int]
                      else ['E' as int, '0' as int, '3' as int])
      ensures NoFault(faults, n) ==> memory[addr..addr + n] == BytesOf(data[..2 * n])
      ensures memory[..addr] == old(memory[..addr]) && memory[addr + n..] == old(memory[addr + n..])
    {
      var ok := Hex2Mem(data, memory, addr, n, faults);
      MakeReturnPacket(if ok then 0 else 3);
    }

    /** What an M command wrote is what an m command reads, in lower case. */
    method WriteThenRead(addr: nat, n: nat, data: seq<byte>, faults: Faults)
      requires Valid() && addr + n <= memory.Length && 2 * n == |data| < BUFMAX && NoFault(faults, n)
      requires forall i :: 0 <= i < |data| ==> 48 <= data[i] <= 57 || 65 <= data[i] <= 70 || 97 <= data[i] <= 102
      modifies packetOut, memory
      ensures packetOut[|data|] == 0
      ensures forall i :: 0 <= i < |data| ==>
        packetOut[i] == if 65 <= data[i] <= 70 then data[i] + 32 else data[i]
    {
      WriteMemory(addr, n, data, faults);
      assert data[..2 * n] == data;
      HexOfBytes(data);
      ghost var text := HexOf(BytesOf(data));
      ReadMemory(addr, n, faults);
      assert forall i :: 0 <= i < |data| ==> packetOut[i] == packetOut[..|data|][i] == text[i];
    }
  }

  // ---------- numbers ----------

  /** Number of hex digits from the start of a zero-terminated string. */
  function HexRun(s: seq<byte>): (n: nat)
    ensures n <= |s|
  {
    if s == [] || !IsHex(s[0]) then 0 else 1 + HexRun(s[1..])
  }

  /** Value of a string of hex digits, most significant first. */
  function HexNumber(s: seq<byte>): nat
    requires AllHex(s)
  {
    if s == [] then 0 else HexNumber(s[..|s| - 1]) * 16 + Hex2Digit(s[|s| - 1])
  }

  lemma {:induction false} HexRunStep(s: seq<byte>, i: nat)
    requires i <= |s| && AllHex(s[..i])
    ensures HexRun(s) >= i && AllHex(s[..HexRun(s)])
    ensures i == |s| || !IsHex(s[i]) ==> HexRun(s) == i
  {
    if i > 0 {
      assert IsHex(s[..i][0]);
      assert s[1..][..i - 1] == s[..i][1..];
      HexRunStep(s[1..], i - 1);
      assert forall k :: 0 <= k < HexRun(s[1..]) ==> s[1..][..HexRun(s[1..])][k] == s[k + 1];
    } else if s != [] && IsHex(s[0]) {
      HexRunStep(s[1..], 0);
      assert forall k :: 0 <= k < HexRun(s[1..]) ==> s[1..][..HexRun(s[1..])][k] == s[k + 1];
    }
  }

  /** The run is the longest one of digits. */
  lemma HexRunIs(s: seq<byte>)
    ensures forall k :: 0 <= k < HexRun(s) ==> 48 <= s[k] <= 57 || 65 <= s[k] <= 70 || 97 <= s[k] <= 102
    ensures HexRun(s) < |s| ==>
      var c := s[HexRun(s)]; !(48 <= c <= 57) && !(65 <= c <= 70) && !(97 <= c <= 102)
  {
    HexRunStep(s, 0);
    forall k | 0 <= k < HexRun(s)
      ensures IsHex(s[k])
    {
      assert s[..HexRun(s)][k] == s[k];
    }
    HexRunEnds(s);
  }

  lemma {:induction false} HexRunEnds(s: seq<byte>)
    ensures HexRun(s) < |s| ==> !IsHex(s[HexRun(s)])
  {
    if s != [] && IsHex(s[0]) { HexRunEnds(s[1..]); }
  }

  /** hex2int: reads on while digits come; the value is kept in 32 bits. */
  method Hex2Int(s: seq<byte>) returns (numChars: nat, value: nat)
    ensures numChars == HexRun(s) && AllHex(s[..numChars])
    ensures value == HexNumber(s[..numChars]) % TWO32
  {
    numChars, value := 0, 0;
    HexRunStep(s, 0);
    hide HexRun;
    while numChars < |s| && s[numChars] != 0
      invariant numChars <= |s| && AllHex(s[..numChars])
      invariant value == HexNumber(s[..numChars]) % TWO32
    {
      var digit := Hex2Digit(s[numChars]);
      if digit < 0 {
        break;
      }
      assert s[..numChars + 1][..numChars] == s[..numChars];
      ShiftIn(HexNumber(s[..numChars]), digit);
      value := (value * 16) % TWO32 + digit;
      numChars := numChars + 1;
    }
    HexRunStep(s, numChars);
  }

  lemma ShiftIn(v: nat, digit: nat)
    requires digit < 16
    ensures ((v % TWO32) * 16) % TWO32 + digit == (v * 16 + digit) % TWO32
  {
    var q, r := v / TWO32, v % TWO32;
    assert v == q * TWO32 + r;
    var p, t := (r * 16) / TWO32, (r * 16) % TWO32;
    DivModUnique(v * 16 + digit, TWO32, q * 16 + p, t + digit);
  }

  /** The last n hex digits of v. */
  function Nibbles(v: nat, n: nat): (s: seq<byte>)
    ensures |s| == n && AllHex(s)
  {
    if n == 0 then [] else Nibbles(v / 16, n - 1) + [Digit2Hex(v % 16)]
  }

  /** v >> 4 * k */
  function ShrNibbles(v: nat, k: nat): nat {
    if k == 0 then v else ShrNibbles(v / 16, k - 1)
  }

  lemma {:induction false} NibbleAt(v: nat, n: nat, k: nat)
    requires k < n
    ensures Nibbles(v, n)[n - 1 - k] == Digit2Hex(ShrNibbles(v, k) % 16)
  {
    if k > 0 { NibbleAt(v / 16, n - 1, k - 1); }
  }

  lemma HexNumberSnoc(s: seq<byte>, c: byte)
    requires AllHex(s) && IsHex(c)
    ensures AllHex(s + [c]) && HexNumber(s + [c]) == HexNumber(s) * 16 + Hex2Digit(c)
  {
    assert (s + [c])[..|s|] == s;
  }

  lemma {:induction false} NibblesDenote(v: nat, n: nat)
    requires v < Pow(16, n)
    ensures HexNumber(Nibbles(v, n)) == v
  {
    if n > 0 {
      assert Pow(16, n) == 16 * Pow(16, n - 1);
      NibblesDenote(v / 16, n - 1);
      hide Pow, HexNumber;
      HexNumberSnoc(Nibbles(v / 16, n - 1), Digit2Hex(v % 16));
    }
  }

  /** putnum: exactly eight digits, most significant first. */
  method PutNum(num: nat) returns (text: seq<byte>)
    requires num < TWO32
    ensures text == Nibbles(num, 8)
  {
    var buf := new byte[9];
    var cnt: int := 7;
    while cnt >= 0
      invariant -1 <= cnt <= 7
      invariant buf[..7 - cnt] == Nibbles(num, 8)[..7 - cnt]
    {
      var digit := ShrNibbles(num, cnt) % 16;
      NibbleAt(num, 8, cnt);
      buf[7 - cnt] := if digit <= 9 then '0' as int + digit else 'a' as int - 10 + digit;
      assert buf[7 - cnt] == Digit2Hex(digit);
      cnt := cnt - 1;
    }
    assert buf[..8] == Nibbles(num, 8);
    buf[8] := 0;
    text := buf[..8];
  }

  lemma EightNibbles()
    ensures Pow(16, 8) == TWO32
  {
    PowAdd(16, 4, 4);
    assert Pow(16, 4) == 0x1_0000;
  }

  /** Every 32-bit number that putnum prints, hex2int reads back, all eight digits of it. */
  method PrintAndRead(num: nat, tail: seq<byte>) returns (numChars: nat, value: nat)
    requires num < TWO32 && (tail == [] || !IsHex(tail[0]))
    ensures numChars == 8 && value == num
  {
    var text := PutNum(num);
    EightNibbles();
    NibblesDenote(num, 8);
    DivModUnique(num, TWO32, 0, num);
    hide *;
    assert (text + tail)[..8] == text;
    HexRunStep(text + tail, 8);
    numChars, value := Hex2Int(text + tail);
  }
}
