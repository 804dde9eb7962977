/**
 * SEGGER_RTT_vprintf and its helpers: characters are staged in a small buffer that is flushed
 * into an up-ring by SEGGER_RTT_Write whenever it is full.
 */
module RttPrintf {
  import opened Numbers
  import opened RttFormat
  import RttRing
  import RttProtocol
  import RttUp

  predicate Multiple(n: nat, m: nat)
    requires m > 0
  {
    n % m == 0
  }

  /** What n characters fill in whole buffers. */
  function Whole(n: nat, size: nat): (w: nat)
    requires size > 0
    ensures w <= n
  {
    n - n % size
  }

  // Prefixes and suffixes by recursion: hidden, they keep the reasoning about single positions out
  // of the methods.

  ghost predicate Begins(s: seq<byte>, t: seq<byte>) {
    s == t || (|s| < |t| && Begins(s, t[..|t| - 1]))
  }

  lemma {:induction false} BeginsIsPrefix(s: seq<byte>, t: seq<byte>)
    ensures Begins(s, t) <==> s <= t
  {
    if |s| < |t| {
      BeginsIsPrefix(s, t[..|t| - 1]);
      hide Begins;
      if s <= t { assert t[..|t| - 1][..|s|] == t[..|s|]; }
    }
  }

  /** The text ends with the staged characters. */
  ghost predicate EndsWith(text: seq<byte>, staged: seq<byte>) {
    staged == [] ||
    (text != [] && text[|text| - 1] == staged[|staged| - 1] && EndsWith(text[..|text| - 1], staged[..|staged| - 1]))
  }

  lemma {:induction false} EndsWithTail(text: seq<byte>, staged: seq<byte>)
    ensures EndsWith(text, staged) <==> |staged| <= |text| && text[|text| - |staged|..] == staged
  {
    if staged != [] && text != [] {
      var t, n := text[..|text| - 1], |text| - |staged|;
      EndsWithTail(t, staged[..|staged| - 1]);
      assert staged == staged[..|staged| - 1] + [staged[|staged| - 1]];
      if n >= 0 {
        assert text[n..] == t[n..] + [text[|text| - 1]];
      }
    }
  }

  lemma EndsWithNothing(text: seq<byte>, staged: seq<byte>)
    requires staged == []
    ensures EndsWith(text, staged)
  {}

  lemma EndsWithSnoc(text: seq<byte>, staged: seq<byte>, c: byte)
    requires EndsWith(text, staged)
    ensures EndsWith(text + [c], staged + [c])
  {
    assert (text + [c])[..|text|] == text && (staged + [c])[..|staged|] == staged;
  }

  lemma Window(start: seq<byte>, text: seq<byte>, n: nat, k: nat)
    requires start <= text && n + k <= |start|
    ensures text[n..][..k] == start[..n + k][n..]
  {}

  /** The start of the last n characters of the text. */
  ghost predicate StartsEnd(text: seq<byte>, n: nat, start: seq<byte>) {
    |start| <= n <= |text| && EndsWith(text[..|text| - n + |start|], start)
  }

  lemma NothingStartsEnd(text: seq<byte>, n: nat)
    requires n <= |text|
    ensures StartsEnd(text, n, [])
  {}

  lemma {:induction false} StartOfEnd(text: seq<byte>, staged: seq<byte>, k: nat)
    requires EndsWith(text, staged) && k <= |staged| <= |text|
    ensures StartsEnd(text, |staged|, staged[..k])
    decreases |staged|
  {
    if k == |staged| {
      assert text[..|text|] == text && staged[..k] == staged;
    } else {
      var t, s := text[..|text| - 1], staged[..|staged| - 1];
      StartOfEnd(t, s, k);
      hide EndsWith;
      assert t[..|t| - |s| + k] == text[..|text| - |staged| + k] && s[..k] == staged[..k];
    }
  }

  /** How many of n bytes a ring with this much space takes in one write while the probe is silent. */
  function Taken(mode: nat, free: nat, n: nat): nat {
    if n <= free || mode == RttUp.BLOCK then n else if mode == RttUp.SKIP then 0 else free
  }

  /** How many of n bytes it takes in writes of size bytes, up to the first that falls short, and a last smaller one. */
  function Accepted(mode: nat, free: nat, n: nat, size: nat): nat
    requires size > 0
  {
    if n <= free || mode == RttUp.BLOCK then n else if mode == RttUp.SKIP then Whole(free, size) else free
  }

  /** SEGGER_RTT_PRINTF_DESC together with the ring it writes to and the probe's schedule. */
  class PrintfDesc {
    const buffer: array<byte>
    const ring: RttUp.UpRing
    const host: RttUp.Host
    var clock: nat
    var cnt: nat
    var returnValue: int

    // The ring as it was found, and the characters stored since.
    ghost const clock0: nat
    ghost const stored0: seq<byte>
    ghost const consumed0: seq<byte>
    ghost const free0: nat
    ghost const mode: nat
    ghost var emitted: seq<byte>   // every character stored up to the first error
    ghost var sent: nat            // how much of it the ring accepted before an error
    ghost var resent: seq<byte>    // what a flush repeated after an error put into the ring

    /** What holds between any two characters. */
    ghost predicate Base()
      reads this`clock, ring, ring.buffer
    {
      && 0 < buffer.Length < 0x8000_0000 && buffer != ring.buffer
      && ring.Settled() && ring.Mode() == mode
      && (mode == RttUp.BLOCK ==> RttUp.KeepsReading(host) && ring.buffer.Length >= 2)
      && consumed0 <= ring.consumed && clock0 <= clock
      && |ring.consumed| <= |consumed0| + RttUp.Quota(host, clock0, clock)
      && (RttUp.Idle(host, clock0, clock) ==> ring.consumed == consumed0)
      && |stored0| - |consumed0| + free0 + 1 == ring.buffer.Length
    }

    /** No error so far: all but the staged characters are in the ring. */
    ghost predicate Staged()
      reads this, buffer, ring, ring.buffer
    {
      && Base()
      && cnt <= buffer.Length && cnt <= |emitted|
      && returnValue == |emitted|
      && Multiple(|emitted| - cnt, buffer.Length)
      && EndsWith(emitted, buffer[..cnt])
      && ring.stored == stored0 + emitted[..|emitted| - cnt]
    }

    ghost predicate Good()
      reads this, buffer, ring, ring.buffer
    {
      Staged() && cnt < buffer.Length
    }

    /** A flush fell short: the ring holds a prefix, perhaps followed by one repeated flush. */
    ghost predicate Bad()
      reads this`clock, this`returnValue, this`emitted, this`sent, this`resent, ring, ring.buffer
    {
      && Base()
      && returnValue == -1 && mode != RttUp.BLOCK && free0 < |emitted|
      && Multiple(|emitted|, buffer.Length)
      && buffer.Length <= |emitted| && |emitted| - buffer.Length <= sent < |emitted|
      && sent >= Accepted(mode, free0, |emitted|, buffer.Length)
      && ring.stored == stored0 + emitted[..sent] + resent
      && StartsEnd(emitted, buffer.Length, resent)
      && (RttUp.Idle(host, clock0, clock) ==> resent == [] && sent == Accepted(mode, free0, |emitted|, buffer.Length))
    }

    /** Bad, with the buffer still full and no flush repeated yet. */
    ghost predicate JustFailed()
      reads this, buffer, ring, ring.buffer
    {
      && Bad() && resent == [] && cnt == buffer.Length && EndsWith(emitted, buffer[..])
      && (RttUp.Idle(host, clock0, clock) ==> ring.FreeBytes() < cnt && (mode != RttUp.SKIP ==> ring.FreeBytes() == 0))
    }

    /** A further character may be stored. */
    ghost predicate Ready()
      reads this, buffer, ring, ring.buffer
    {
      if returnValue >= 0 then Good() else JustFailed()
    }

    /** The text has been stored behind what was there before, or an error has cut it short. */
    ghost predicate Printed(before: seq<byte>, text: seq<byte>)
      reads this, buffer, ring, ring.buffer
    {
      if returnValue >= 0 then Good() && emitted == before + text
      else Bad() && Begins(emitted, before + text)
    }

    constructor (ring: RttUp.UpRing, size: nat, host: RttUp.Host, clock: nat)
      requires 0 < size < 0x8000_0000 && ring.Settled()
      requires ring.Mode() == RttUp.BLOCK ==> RttUp.KeepsReading(host) && ring.buffer.Length >= 2
      ensures Good() && emitted == [] && fresh(buffer) && buffer.Length == size
      ensures this.ring == ring && this.host == host && this.clock == clock0 == clock
      ensures stored0 == ring.stored && consumed0 == ring.consumed && free0 == ring.FreeBytes() && mode == ring.Mode()
    {
      hide RttUp.UpRing.FreeBytes, RttUp.UpRing.Mode, RttUp.Idle, RttUp.KeepsReading, RttRing.Contents;
      hide RttRing.Used, RttRing.Free, RttProtocol.Run, RttUp.Quota, Multiple, EndsWith;
      RttUp.QuotaTurn(host, clock, clock);
      ring.Balance();
      buffer := new byte[size];
      this.ring, this.host, this.clock, clock0 := ring, host, clock, clock;
      cnt, returnValue := 0, 0;
      stored0, consumed0, free0, mode := ring.stored, ring.consumed, ring.FreeBytes(), ring.Mode();
      emitted, sent, resent := [], 0, [];
      new;
      NothingStaged(buffer[..], stored0, emitted, cnt);
    }

    /** SEGGER_RTT_Write of the staged characters; room is the space it found. */
    method Flush() returns (written: nat, ghost room: nat)
      requires Base() && cnt <= buffer.Length
      modifies this`clock, ring, ring.buffer
      ensures Base() && written <= cnt
      ensures ring.stored == old(ring.stored) + buffer[..written]
      ensures buffer[..] == old(buffer[..])
      ensures written == Taken(mode, room, cnt) && room >= old(ring.FreeBytes())
      ensures old(clock) <= clock
      ensures RttUp.Idle(host, clock0, clock) ==> RttUp.Idle(host, clock0, old(clock)) && room == old(ring.FreeBytes())
      ensures RttUp.Idle(host, clock0, clock) && written < cnt ==>
                ring.FreeBytes() < cnt && (mode != RttUp.SKIP ==> ring.FreeBytes() == 0)
    {
      hide RttProtocol.Run, RttUp.Quota, RttRing.Contents;
      ghost var passes;
      written, room, passes, clock := ring.Write(buffer[..cnt], host, clock);
      RttUp.QuotaInParts(host, clock0, old(clock), clock);
      assert buffer[..cnt][..written] == buffer[..written];
    }

    /** _StoreChar. */
    method StoreChar(c: byte)
      requires Ready()
      modifies this, buffer, ring, ring.buffer
      ensures old(returnValue) >= 0 ==> Ready() && emitted == old(emitted) + [c]
      ensures old(returnValue) < 0 ==> Bad() && returnValue < 0 && emitted == old(emitted)
    {
      if cnt + 1 <= buffer.Length {
        Stage(c);
      }
      if cnt == buffer.Length {
        FlushFull();
      }
    }

    method Stage(c: byte)
      requires Good()
      modifies this`cnt, this`returnValue, this`emitted, buffer
      ensures Staged() && emitted == old(emitted) + [c] && cnt > 0
    {
      hide Begins, RttProtocol.Run, RttUp.Quota, EndsWith, Multiple, Base;
      States();
      MoreStaged(emitted, buffer[..], cnt, c);
      buffer[cnt] := c;
      assert buffer[..] == old(buffer[..])[cnt := c];
      cnt := cnt + 1;
      returnValue := returnValue + 1;
      emitted := emitted + [c];
    }

    /** Writes the full buffer; an error is noted and leaves the buffer full. */
    method FlushFull()
      requires (Staged() || JustFailed()) && cnt == buffer.Length
      modifies this`clock, this`cnt, this`returnValue, this`sent, this`resent, ring, ring.buffer
      ensures old(Staged()) ==> Good() || JustFailed()
      ensures old(!Staged()) ==> Bad()
    {
      hide EndsWith, Begins, RttProtocol.Run, RttUp.Quota, Base, Good, Bad, JustFailed, Accepted, Multiple, RttUp.Idle;
      hide RttUp.UpRing.FreeBytes;
      States();
      var written;
      if returnValue >= 0 {
        MultipleStep(|emitted|, cnt);
        written := FirstWrite();
      } else {
        written := RepeatedWrite();
      }
      if written != cnt {
        returnValue := -1;
        if old(Staged()) { NowFailed(); }
      } else {
        cnt := 0;
        if old(Staged()) { NowGood(); }
      }
    }

    lemma NowGood()
      requires Base() && cnt == 0 && returnValue == |emitted| && Multiple(|emitted|, buffer.Length)
      requires ring.stored == stored0 + emitted[..|emitted|]
      ensures Good()
    {
      hide EndsWith, Begins, RttProtocol.Run, RttUp.Quota, Multiple;
      EndsWithNothing(emitted, buffer[..0]);
    }

    lemma NowFailed()
      requires Base() && returnValue == -1 && mode != RttUp.BLOCK && free0 < |emitted|
      requires 0 < cnt == buffer.Length <= |emitted| && Multiple(|emitted|, buffer.Length)
      requires EndsWith(emitted, buffer[..cnt])
      requires |emitted| - cnt <= sent < |emitted| && resent == [] && ring.stored == stored0 + emitted[..sent]
      requires sent >= Accepted(mode, free0, |emitted|, buffer.Length)
      requires RttUp.Idle(host, clock0, clock) ==>
                 sent == Accepted(mode, free0, |emitted|, buffer.Length)
                 && ring.FreeBytes() < cnt && (mode != RttUp.SKIP ==> ring.FreeBytes() == 0)
      ensures JustFailed()
    {
      hide RttProtocol.Run, RttUp.Quota, Accepted, Multiple, EndsWith, RttUp.Idle, RttUp.UpRing.FreeBytes;
      hide RttUp.UpRing.Settled;
      assert buffer[..cnt] == buffer[..];
      NothingStartsEnd(emitted, cnt);
    }

    /** The write of the staged characters, before any error. */
    method FirstWrite() returns (written: nat)
      requires Staged()
      modifies this`clock, this`sent, this`resent, ring, ring.buffer
      ensures Base() && written <= cnt && old(clock) <= clock
      ensures sent == |emitted| - cnt + written && resent == []
      ensures ring.stored == stored0 + emitted[..sent]
      ensures written < cnt ==> free0 < |emitted| && mode != RttUp.BLOCK
      ensures written < cnt && RttUp.Idle(host, clock0, clock) ==>
                ring.FreeBytes() < cnt && (mode != RttUp.SKIP ==> ring.FreeBytes() == 0)
      ensures sent >= Accepted(mode, free0, |emitted|, buffer.Length)
      ensures RttUp.Idle(host, clock0, clock) ==>
                |emitted| - cnt <= free0 && sent == Accepted(mode, free0, |emitted|, buffer.Length)
    {
      hide EndsWith, Begins, RttProtocol.Run, RttUp.Quota, Staged, Taken, Accepted, Multiple, RttUp.UpRing.Settled;
      hide RttUp.UpRing.FreeBytes, RttUp.UpRing.Mode, RttUp.Idle, RttUp.KeepsReading;
      States();
      SpaceStaged();
      ghost var room;
      written, room := Flush();
      TakenAccepted(mode, free0, |emitted|, cnt, buffer.Length, room);
      Flushed(written);
      sent, resent := |emitted| - cnt + written, [];
    }

    /** The write of the same buffer once more, after an error. */
    method RepeatedWrite() returns (written: nat)
      requires JustFailed()
      modifies this`clock, this`sent, this`resent, ring, ring.buffer
      ensures Bad() && written <= cnt
    {
      hide EndsWith, Begins, RttProtocol.Run, RttUp.Quota, Accepted, Multiple, RttUp.KeepsReading, RttUp.UpRing.Valid;
      States();
      ghost var room;
      written, room := Flush();
      StartOfEnd(emitted, buffer[..], written);
      resent := buffer[..written];
    }

    /** While there is no error, the free space is the original one less what was flushed, or more. */
    lemma SpaceLeft()
      requires Base()
      ensures ring.FreeBytes() >= free0 - (|ring.stored| - |stored0|)
      ensures RttUp.Idle(host, clock0, clock) ==> ring.FreeBytes() == free0 - (|ring.stored| - |stored0|)
    {
      hide RttUp.UpRing.FreeBytes, RttRing.Contents, RttRing.Used, RttRing.Free;
      ring.Balance();
    }

    lemma Flushed(written: nat)
      requires written <= cnt <= buffer.Length && cnt <= |emitted| && EndsWith(emitted, buffer[..cnt])
      requires ring.stored == stored0 + emitted[..|emitted| - cnt] + buffer[..written]
      ensures ring.stored == stored0 + emitted[..|emitted| - cnt + written]
    {
      EndsWithTail(emitted, buffer[..cnt]);
      FlushedText(emitted, cnt, written, buffer[..], stored0);
    }

    lemma SpaceStaged()
      requires Staged()
      ensures cnt <= buffer.Length && cnt <= |emitted| && EndsWith(emitted, buffer[..cnt])
      ensures ring.stored == stored0 + emitted[..|emitted| - cnt]
      ensures buffer.Length > 0 && Multiple(|emitted| - cnt, buffer.Length)
      ensures ring.FreeBytes() >= free0 - (|emitted| - cnt)
      ensures RttUp.Idle(host, clock0, clock) ==>
                |emitted| - cnt <= free0 && ring.FreeBytes() == free0 - (|emitted| - cnt)
    {
      hide RttUp.UpRing.FreeBytes;
      SpaceLeft();
    }

    // The following lemmas are implications, so that their callers need not look into the predicates.

    /** After the first of two parts: either it is all there, or the error ends both. */
    lemma FirstPart(before: seq<byte>, first: seq<byte>, second: seq<byte>)
      ensures Printed(before, first) ==>
        if returnValue >= 0 then
          Good() && emitted == before + first && emitted + second == before + (first + second)
        else Printed(before, first + second)
    {
      hide Good, Bad;
      PrefixExtend(emitted, before, first, second);
    }

    lemma SecondPart(between: seq<byte>, before: seq<byte>, first: seq<byte>, second: seq<byte>)
      ensures between == before + first && Printed(between, second) ==> Printed(before, first + second)
    {
      hide Good, Bad;
      Reassociate(before, first, second);
    }

    lemma StoredOne(before: seq<byte>, c: byte)
      ensures (if returnValue >= 0 then Good() else Bad()) && emitted == before + [c] ==> Printed(before, [c])
    {}

    lemma AllStored(before: seq<byte>, text: seq<byte>)
      ensures returnValue >= 0 && Good() && emitted == before + text ==> Printed(before, text)
    {}

    lemma NothingStored()
      ensures returnValue >= 0 && Good() ==> Printed(emitted, [])
    {
      assert emitted + [] == emitted;
    }

    lemma States()
      ensures Staged() || Good() ==> Base() && returnValue >= 0 && buffer.Length > 0 && buffer != ring.buffer
      ensures JustFailed() ==> Bad() && Base() && returnValue == -1 && cnt == buffer.Length && buffer != ring.buffer
    {}

    lemma CutShort(before: seq<byte>, text: seq<byte>)
      ensures returnValue < 0 && Bad() && Begins(emitted, before + text) ==> Printed(before, text)
    {}

    lemma SameText(before: seq<byte>, text: seq<byte>, before0: seq<byte>, text0: seq<byte>)
      ensures before + text == before0 + text0 && Printed(before, text) ==> Printed(before0, text0)
    {}

    // ---------- numbers ----------

    /** The padding loop, with its side effect on the field width in the condition. */
    method PadField(c: byte, width: nat, fieldWidth: nat) returns (left: nat)
      requires Ready() && width >= 1
      modifies this, buffer, ring, ring.buffer
      ensures old(returnValue) >= 0 ==> Printed(old(emitted), Fill(fieldWidth - width, c))
      ensures old(returnValue) < 0 ==> Bad() && returnValue < 0 && emitted == old(emitted)
      ensures returnValue >= 0 ==> left < width
    {
      hide EndsWith, Begins, RttProtocol.Run, RttUp.Quota, Good, Bad, JustFailed, Printed;
      left := fieldWidth;
      ghost var n := 0;
      FillNone(emitted, c);
      hide Fill;
      while left != 0
        invariant returnValue >= 0 <==> old(returnValue) >= 0
        invariant old(returnValue) >= 0 ==> Good() && emitted == old(emitted) + Fill(n, c)
        invariant old(returnValue) < 0 ==> Ready() && returnValue < 0 && emitted == old(emitted)
        invariant n == fieldWidth - left && (n == 0 || left >= width)
        decreases left
      {
        var more := width < left;
        left := left - 1;
        if !more {
          break;
        }
        FillStep(old(emitted), n, c);
        StoreChar(c);
        n := n + 1;
        if returnValue < 0 {
          FillPrefix(old(emitted), n, fieldWidth - width, c);
          States();
          CutShort(old(emitted), Fill(fieldWidth - width, c));
          return;
        }
      }
      States();
      FillExact(n, fieldWidth - width, c);
      AllStored(old(emitted), Fill(fieldWidth - width, c));
    }

    /** One turn of the output loop; ok is false, and nothing is stored, where the table would be left. */
    method EmitDigit(v: nat, base: nat, digit: nat) returns (ok: bool, rest: nat)
      requires Good() && base >= 2 && digit > 0
      modifies this, buffer, ring, ring.buffer
      ensures var all := Leads(v, base, digit);
        if ok then
          var more := Leads(rest, base, Quotient(digit, base));
          && (if returnValue >= 0 then Good() else JustFailed())
          && emitted + Characters(more) == old(emitted) + Characters(all)
          && (InTable(all) <==> InTable(more))
        else
          Good() && returnValue >= 0 && emitted == old(emitted) + Characters(all) && !InTable(all)
    {
      hide EndsWith, Begins, RttProtocol.Run, RttUp.Quota, Good, Bad, JustFailed, Leads, Characters, InTable, Quotient;
      States();
      var div := Quotient(v, digit);
      FirstLead(v, base, digit, div, v - div * digit, emitted);
      rest := v - div * digit;
      ok := div < 16;
      if ok {
        StoreChar(DigitChar(div));
      }
    }

    /**
     * The output loop, which divides the scale factor down until it is 0. It stops short with ok
     * false where the table would be read outside its bounds.
     */
    method EmitDigits(v: nat, base: nat, scale: nat) returns (ok: bool)
      requires Good() && 2 <= base <= 16 && scale > 0
      modifies this, buffer, ring, ring.buffer
      ensures if returnValue >= 0 then Good() && emitted == old(emitted) + Characters(Leads(v, base, scale))
              else ok && JustFailed() && Begins(emitted, old(emitted) + Characters(Leads(v, base, scale)))
      ensures returnValue >= 0 ==> (ok <==> InTable(Leads(v, base, scale)))
    {
      hide EndsWith, Begins, RttProtocol.Run, RttUp.Quota, Good, Bad, JustFailed, Leads, Characters, InTable, Quotient;
      States();
      ghost var target := emitted + Characters(Leads(v, base, scale));
      var digit: nat, rest: nat := scale, v;
      while true
        invariant Good() && returnValue >= 0 && digit > 0
        invariant emitted + Characters(Leads(rest, base, digit)) == target
        invariant InTable(Leads(rest, base, digit)) <==> InTable(Leads(v, base, scale))
        decreases digit
      {
        ok, rest := EmitDigit(rest, base, digit);
        digit := Quotient(digit, base);
        SumPrefix(emitted, Characters(Leads(rest, base, digit)));
        if !ok || returnValue < 0 {
          return;
        }
        if digit == 0 {
          NoLeads(rest, base, emitted);
          return;
        }
      }
    }

    /** The digits, and the spaces after them in a left-justified field. */
    method DigitsAndTrailer(v: nat, base: nat, precision: nat, width: nat, left: nat, flags: Flags) returns (ok: bool)
      requires Good() && v < TWO32 && 2 <= base <= 16 && width == Width(v, base, precision)
      modifies this, buffer, ring, ring.buffer
      ensures ok ==>
        Printed(old(emitted), Numeral(v, base, precision) + Fill(if flags.left then left - width else 0, SPACE))
      ensures Printable(v, base, precision) ==> ok
      ensures ok && returnValue >= 0 ==> Printable(v, base, precision)
    {
      hide EndsWith, Begins, RttProtocol.Run, RttUp.Quota, Good, Bad, Leads, Characters, InTable, ScaleFactor, Width;
      States();
      var digit := ScaleUp(v, base, precision);
      if digit == 0 {
        return false;
      }
      ok := EmitDigits(v, base, digit);
      if !ok {
        return;
      }
      ghost var done := emitted;
      PrefixExtend(done, old(emitted), Numeral(v, base, precision),
                   Fill(if flags.left then left - width else 0, SPACE));
      if flags.left && left != 0 {
        var _ := PadField(SPACE, width, left);
      } else {
        assert Fill(if flags.left then left - width else 0, SPACE) == [];
      }
    }

    /** A padding loop behind its guards. */
    method PadWhen(guard: bool, c: byte, width: nat, fieldWidth: nat) returns (left: nat)
      requires Good() && width >= 1
      modifies this, buffer, ring, ring.buffer
      ensures Printed(old(emitted), if guard then Fill(fieldWidth - width, c) else [])
      ensures returnValue >= 0 ==> if guard then left < width else left == fieldWidth
    {
      assert returnValue >= 0;
      left := fieldWidth;
      if guard && left != 0 {
        left := PadField(c, width, left);
      } else {
        NothingStored();
        if guard { FillExact(0, fieldWidth - width, c); }
        assert Fill(0, c) == [];
      }
    }

    /** _PrintUnsigned. */
    method PrintUnsigned(v: nat, base: nat, precision: nat, fieldWidth: nat, flags: Flags) returns (ok: bool)
      requires Good() && v < TWO32 && 2 <= base <= 16
      modifies this, buffer, ring, ring.buffer
      ensures ok ==> Printed(old(emitted), UnsignedText(v, base, precision, fieldWidth, flags))
      ensures Printable(v, base, precision) ==> ok
      ensures ok && returnValue >= 0 ==> Printable(v, base, precision)
    {
      hide EndsWith, Begins, RttProtocol.Run, RttUp.Quota, Good, Bad, Printed, UnsignedText, Numeral, Printable, Width;
      UnsignedShape(v, base, precision, fieldWidth, flags);
      var width := CountWidth(v, base, precision);
      ghost var lead := if !flags.left then Fill(fieldWidth - width, LeadChar(flags, precision)) else [];
      ghost var rest := Numeral(v, base, precision) + Fill(if flags.left then fieldWidth - width else 0, SPACE);
      var left := PadWhen(!flags.left, LeadChar(flags, precision), width, fieldWidth);
      FirstPart(old(emitted), lead, rest);
      if returnValue < 0 {
        return true;
      }
      ghost var between := emitted;
      ok := DigitsAndTrailer(v, base, precision, width, left, flags);
      if ok {
        SecondPart(between, old(emitted), lead, rest);
      }
    }

    /** The sign of _PrintInt. */
    method StoreSign(v: int, flags: Flags)
      requires Good()
      modifies this, buffer, ring, ring.buffer
      ensures Printed(old(emitted), Sign(v, flags))
    {
      assert returnValue >= 0;
      if v < 0 {
        StoreChar('-' as int);
        StoredOne(old(emitted), '-' as int);
      } else if flags.plus {
        StoreChar('+' as int);
        StoredOne(old(emitted), '+' as int);
      } else {
        NothingStored();
      }
    }

    /** The zeros of _PrintInt and the number behind them. */
    method ZerosAndNumber(v: nat, base: nat, precision: nat, width: nat, inner: nat, flags: Flags) returns (ok: bool)
      requires Good() && v < TWO32 && 2 <= base <= 16
      requires width == Width(v, base, precision)
      requires flags.left || PadsWithZeros(flags, precision) || inner < width
      modifies this, buffer, ring, ring.buffer
      ensures ok ==> Printed(old(emitted), ZerosThenNumber(v, base, precision, inner, flags))
      ensures Printable(v, base, precision) ==> ok
      ensures ok && returnValue >= 0 ==> Printable(v, base, precision)
    {
      hide EndsWith, Begins, RttProtocol.Run, RttUp.Quota, Good, Bad, Printed, UnsignedText, Printable, Width;
      ghost var zeros := if PadsWithZeros(flags, precision) then Fill(inner as int - width, ZERO) else [];
      ghost var number := UnsignedText(v, base, precision, if flags.left then inner else 0, flags);
      var left := PadWhen(PadsWithZeros(flags, precision), ZERO, width, inner);
      FirstPart(old(emitted), zeros, number);
      if returnValue < 0 {
        return true;
      }
      ghost var between := emitted;
      NoSecondPadding(v, base, precision, left, flags);
      ok := PrintUnsigned(v, base, precision, left, flags);
      if ok {
        SecondPart(between, old(emitted), zeros, number);
      }
    }

    /** _PrintInt. */
    method PrintInt(v: int, base: nat, precision: nat, fieldWidth: nat, flags: Flags) returns (ok: bool)
      requires Good() && -0x8000_0000 < v < 0x8000_0000 && 2 <= base <= 16
      modifies this, buffer, ring, ring.buffer
      ensures ok ==> Printed(old(emitted), IntText(v, base, precision, fieldWidth, flags))
      ensures Printable(Abs(v), base, precision) ==> ok
      ensures ok && returnValue >= 0 ==> Printable(Abs(v), base, precision)
    {
      hide EndsWith, Begins, RttProtocol.Run, RttUp.Quota, Good, Bad, Printed, IntText, Printable, Sign;
      hide ZerosThenNumber;
      hide Width;
      var width := CountWidth(Abs(v), base, precision);
      var left := fieldWidth;
      if left > 0 && (v < 0 || flags.plus) {
        left := left - 1;
      }
      IntShape(v, base, precision, fieldWidth, left, flags);
      ghost var lead := if !flags.left && !PadsWithZeros(flags, precision)
                        then Fill(left as int - width, SPACE) else [];
      ghost var tail := Sign(v, flags) + ZerosThenNumber(Abs(v), base, precision, left, flags);
      ghost var inner := left;

      left := PadWhen((!flags.zero || precision != 0) && !flags.left, SPACE, width, left);
      FirstPart(old(emitted), lead, tail);
      if returnValue < 0 {
        return true;
      }
      ghost var between := emitted;
      TailIndependent(Abs(v), base, precision, inner, left, flags);
      ok := SignAndNumber(v, base, precision, width, left, flags);
      if ok {
        SecondPart(between, old(emitted), lead, tail);
      }
    }

    /** The sign of _PrintInt and what follows it. */
    method SignAndNumber(v: int, base: nat, precision: nat, width: nat, left: nat, flags: Flags) returns (ok: bool)
      requires Good() && -0x8000_0000 < v < 0x8000_0000 && 2 <= base <= 16
      requires width == Width(Abs(v), base, precision)
      requires flags.left || PadsWithZeros(flags, precision) || left < width
      modifies this, buffer, ring, ring.buffer
      ensures ok ==> Printed(old(emitted), Sign(v, flags) + ZerosThenNumber(Abs(v), base, precision, left, flags))
      ensures Printable(Abs(v), base, precision) ==> ok
      ensures ok && returnValue >= 0 ==> Printable(Abs(v), base, precision)
    {
      hide EndsWith, Begins, RttProtocol.Run, RttUp.Quota, Good, Bad, Printed, Printable, Sign, ZerosThenNumber, Width;
      StoreSign(v, flags);
      FirstPart(old(emitted), Sign(v, flags), ZerosThenNumber(Abs(v), base, precision, left, flags));
      if returnValue < 0 {
        return true;
      }
      ghost var between := emitted;
      ok := ZerosAndNumber(Abs(v), base, precision, width, left, flags);
      if ok {
        SecondPart(between, old(emitted), Sign(v, flags), ZerosThenNumber(Abs(v), base, precision, left, flags));
      }
    }

    /** The end of SEGGER_RTT_vprintf: write what is left and compute the result. */
    method Finish() returns (r: int, ghost kept: nat, ghost extra: seq<byte>)
      requires if returnValue >= 0 then Good() else Bad()
      modifies this`clock, this`returnValue, this`sent, this`resent, ring, ring.buffer
      ensures Base() && kept <= |emitted| && ring.stored == stored0 + emitted[..kept] + extra
      ensures r >= 0 <==> old(returnValue) >= 0
      ensures r >= 0 ==> r == |emitted| + (|emitted| - Whole(|emitted|, buffer.Length))
                         && Whole(|emitted|, buffer.Length) <= kept && extra == []
      ensures r < 0 ==> r == -1 && mode != RttUp.BLOCK && free0 < |emitted| && Multiple(|emitted|, buffer.Length)
                        && buffer.Length <= |emitted| && |emitted| - buffer.Length <= kept < |emitted|
                        && StartsEnd(emitted, buffer.Length, extra)
      ensures kept < |emitted| ==> free0 < |emitted| && mode != RttUp.BLOCK
      ensures kept >= Accepted(mode, free0, |emitted|, buffer.Length)
      ensures RttUp.Idle(host, clock0, clock) ==>
                extra == [] && kept == Accepted(mode, free0, |emitted|, buffer.Length)
                && (r >= 0 ==> Whole(|emitted|, buffer.Length) <= free0)
      ensures old(clock) <= clock
    {
      hide EndsWith, Begins, RttProtocol.Run, RttUp.Quota, Base, Multiple, Accepted, Whole, RttUp.Idle;
      hide RttUp.UpRing.FreeBytes, RttUp.UpRing.Settled;
      if returnValue >= 0 {
        StagedAtEnd();
        kept, extra := |emitted| - cnt, [];
      } else {
        kept, extra := sent, resent;
      }
      if returnValue > 0 {
        if cnt != 0 {
          var written := FirstWrite();   // not looked at any further
          kept := sent;
        }
        returnValue := returnValue + cnt;
      }
      r := returnValue;
    }

    lemma StagedAtEnd()
      requires Good()
      ensures Whole(|emitted|, buffer.Length) == |emitted| - cnt
      ensures |emitted| >= Accepted(mode, free0, |emitted|, buffer.Length)
      ensures RttUp.Idle(host, clock0, clock) ==>
                |emitted| - cnt <= free0 && (cnt == 0 ==> |emitted| == Accepted(mode, free0, |emitted|, buffer.Length))
    {
      Leftover(|emitted|, cnt, buffer.Length);
      SpaceStaged();
    }

    // ---------- the format ----------

    /** The character loop of %s. */
    method StoreString(text: seq<byte>)
      requires Good()
      modifies this, buffer, ring, ring.buffer
      ensures Printed(old(emitted), text)
    {
      hide EndsWith, Begins, RttProtocol.Run, RttUp.Quota, Good, Bad, JustFailed, Printed;
      States();
      NothingStored();
      assert emitted + text[..0] == emitted;
      var i := 0;
      while i < |text|
        invariant i <= |text| && returnValue >= 0 && Good()
        invariant emitted == old(emitted) + text[..i]
      {
        TextStep(old(emitted), text, i);
        StoreChar(text[i]);
        i := i + 1;
        if returnValue < 0 {
          States();
          CutShort(old(emitted), text);
          return;
        }
      }
      assert text[..i] == text;
      AllStored(old(emitted), text);
    }

    /** The switch over the conversion specifiers. */
    method PrintConversion(f: seq<byte>, c: Conversion, args: seq<Arg>) returns (ok: bool)
      requires Good() && Suits(f, c, args)
      modifies this, buffer, ring, ring.buffer
      ensures ok ==> Printed(old(emitted), ConversionText(f, c, args))
      ensures Defined(f, c, args) ==> ok
      ensures ok && returnValue >= 0 ==> Defined(f, c, args)
    {
      hide EndsWith, Begins, RttProtocol.Run, RttUp.Quota, Good, Bad, IntText, UnsignedText, Printable;
      States();
      ok := true;
      if c.specifier == 'c' as int {
        StoreChar(args[0].v % 256);
        StoredOne(old(emitted), args[0].v % 256);
      } else if c.specifier == 'd' as int {
        ok := PrintInt(args[0].v, 10, c.precision, c.width, c.flags);
      } else if c.specifier == 'u' as int {
        ok := PrintUnsigned(U32(args[0].v), 10, c.precision, c.width, c.flags);
      } else if c.specifier == 'x' as int || c.specifier == 'X' as int {
        ok := PrintUnsigned(U32(args[0].v), 16, c.precision, c.width, c.flags);
      } else if c.specifier == 's' as int {
        StoreString(args[0].s);
      } else if c.specifier == 'p' as int {
        HexadecimalPrintable(U32(args[0].v), 8);
        ok := PrintUnsigned(U32(args[0].v), 16, 8, 8, Flags(false, false, false, false));
      } else if c.specifier == '%' as int {
        StoreChar('%' as int);
        StoredOne(old(emitted), '%' as int);
      } else {
        NothingStored();
      }
    }

    /** One turn of the loop over the format: a character, or a conversion. */
    method PrintItem(f: seq<byte>, i: nat, args: seq<Arg>) returns (ok: bool, next: nat, rest: seq<Arg>)
      requires Good() && i <= |f| && WellFormed(f, i, args) && At(f, i) != 0
      modifies this, buffer, ring, ring.buffer
      ensures i < next <= |f| && WellFormed(f, next, rest)
      ensures !ok ==> !AllDefined(f, i, args)
      ensures ok && returnValue < 0 ==> Printed(old(emitted), Render(f, i, args))
      ensures ok && returnValue >= 0 ==>
        && Good() && emitted + Render(f, next, rest) == old(emitted) + Render(f, i, args)
        && (AllDefined(f, i, args) <==> AllDefined(f, next, rest))
    {
      hide Good, Bad, Printed, ConversionText, ScanConversion, Suits, Defined, WellFormed, AllDefined, Render;
      hide EndsWith, Begins, RttProtocol.Run, RttUp.Quota;
      States();
      FormatStep(f, i, args);
      ghost var before := emitted;
      if f[i] == '%' as int {
        var c := ReadConversion(f, i + 1);
        ghost var piece := ConversionText(f, c, args);
        ok := PrintConversion(f, c, args);
        next, rest := c.next, RestArgs(c, args);
        FirstPart(before, piece, Render(f, next, rest));
      } else {
        StoreChar(f[i]);
        ok, next, rest := true, i + 1, args;
        StoredOne(before, f[i]);
        FirstPart(before, [f[i]], Render(f, next, rest));
      }
    }

    /** The loop of SEGGER_RTT_vprintf over the format. */
    method PrintFormat(f: seq<byte>, args: seq<Arg>) returns (ok: bool)
      requires Good() && WellFormed(f, 0, args)
      modifies this, buffer, ring, ring.buffer
      ensures ok ==> Printed(old(emitted), Render(f, 0, args))
      ensures AllDefined(f, 0, args) ==> ok
      ensures ok && returnValue >= 0 ==> AllDefined(f, 0, args)
    {
      hide Good, Bad, Printed, WellFormed, AllDefined, Render, EndsWith, Begins, RttProtocol.Run, RttUp.Quota;
      States();
      ok := true;
      var i, rest := 0, args;
      while At(f, i) != 0
        invariant ok && i <= |f| && WellFormed(f, i, rest) && returnValue >= 0 && Good()
        invariant emitted + Render(f, i, rest) == old(emitted) + Render(f, 0, args)
        invariant AllDefined(f, i, rest) <==> AllDefined(f, 0, args)
        decreases |f| - i
      {
        ghost var before, text := emitted, Render(f, i, rest);
        ok, i, rest := PrintItem(f, i, rest);
        SameText(before, text, old(emitted), Render(f, 0, args));
        if !ok || returnValue < 0 {
          return;
        }
      }
      FormatEnd(f, i, rest);
      assert emitted + [] == emitted;
      AllStored(old(emitted), Render(f, 0, args));
    }

    /** The body of SEGGER_RTT_vprintf, from the empty staging buffer on. */
    method Print(f: seq<byte>, args: seq<Arg>) returns (ok: bool, r: int, ghost kept: nat, ghost extra: seq<byte>)
      requires Good() && emitted == [] && clock == clock0 && WellFormed(f, 0, args)
      modifies this, buffer, ring, ring.buffer
      ensures AllDefined(f, 0, args) ==> ok
      ensures ok && r >= 0 ==> AllDefined(f, 0, args)
      ensures ok ==> ring.Settled() && clock0 <= clock && ring.Mode() == mode
      ensures ok ==> consumed0 <= ring.consumed
                     && |ring.consumed| <= |consumed0| + RttUp.Quota(host, clock0, clock)
      ensures ok ==> Outcome(Render(f, 0, args), buffer.Length, mode, free0, r, kept, extra)
      ensures ok ==> ring.stored == stored0 + Render(f, 0, args)[..kept] + extra
      ensures ok && RttUp.Idle(host, clock0, clock) ==>
        Silent(Render(f, 0, args), buffer.Length, mode, free0, r, kept, extra)
    {
      hide EndsWith, Begins, RttProtocol.Run, RttUp.Quota, Good, Bad, Outcome, Silent, Accepted, Whole, Multiple;
      hide WellFormed, AllDefined, Render, RttUp.Idle, RttUp.KeepsReading, RttUp.UpRing.FreeBytes;
      hide RttUp.UpRing.Valid;
      States();
      r, kept, extra := 0, 0, [];
      ok := PrintFormat(f, args);
      if !ok {
        return;
      }
      ghost var text := Render(f, 0, args);
      NothingBefore(emitted, text);
      hide Printed;
      r, kept, extra := Finish();
      PrefixOfText(emitted, text, kept);
      OutcomeOf(emitted, text, buffer.Length, mode, free0, r, kept, extra);
    }
  }

  method ReadFlags(f: seq<byte>, i: nat) returns (flags: Flags, j: nat)
    requires i <= |f|
    ensures (flags, j) == ScanFlags(f, i, Flags(false, false, false, false))
    ensures (forall k :: i <= k < j ==> IsFlag(At(f, k))) && !IsFlag(At(f, j))
    ensures flags == Flags(Passed(f, i, j, '-' as int), Passed(f, i, j, '0' as int),
                           Passed(f, i, j, '+' as int), Passed(f, i, j, '#' as int))
  {
    FlagsScanned(f, i, Flags(false, false, false, false));
    hide Passed;
    flags, j := Flags(false, false, false, false), i;
    while IsFlag(At(f, j))
      invariant j <= |f|
      invariant ScanFlags(f, j, flags) == ScanFlags(f, i, Flags(false, false, false, false))
      decreases |f| - j
    {
      flags, j := AddFlag(flags, At(f, j)), j + 1;
    }
  }

  method ReadNumber(f: seq<byte>, i: nat) returns (n: nat, j: nat)
    requires i <= |f|
    ensures (n, j) == ScanNumber(f, i, 0)
  {
    n, j := 0, i;
    while IsDigit(At(f, j))
      invariant j <= |f| && ScanNumber(f, j, n) == ScanNumber(f, i, 0)
      decreases |f| - j
    {
      n, j := (n * 10 + (At(f, j) - '0' as int)) % TWO32, j + 1;
    }
  }

  method ReadModifiers(f: seq<byte>, i: nat) returns (c: byte, j: nat)
    requires i <= |f|
    ensures (c, j) == SkipModifiers(f, i, At(f, i))
  {
    c, j := At(f, i), i;
    while IsModifier(c)
      invariant if j <= |f| then SkipModifiers(f, j, c) == SkipModifiers(f, i, At(f, i))
                else (c, j) == SkipModifiers(f, i, At(f, i)) && !IsModifier(c)
      decreases |f| + 1 - j
    {
      c, j := At(f, j), j + 1;
    }
  }

  /** Flags, field width, precision and modifiers of one conversion. */
  method ReadConversion(f: seq<byte>, i: nat) returns (c: Conversion)
    requires i <= |f|
    ensures c == ScanConversion(f, i)
  {
    var flags, j := ReadFlags(f, i);
    var width, k := ReadNumber(f, j);
    var precision, m := 0, k;
    if At(f, k) == '.' as int {
      precision, m := ReadNumber(f, k + 1);
    }
    var specifier, n := ReadModifiers(f, m);
    c := Conversion(flags, width, precision, specifier, n + 1);
  }

  /**
   * SEGGER_RTT_vprintf; ok is false when a conversion divides by zero or reads outside the table.
   * The result is negative exactly when a flush of a full buffer fell short, which needs more text
   * in whole buffers than the ring had space for; the ring then holds a prefix of the text, and
   * behind it nothing or the start of the same buffer once more, if the probe made room meanwhile.
   * Otherwise the result is the number of characters plus the number of those in the last partial
   * flush, whose shortfall is not reported. At least as much is stored as Accepted says, and exactly
   * as much if the probe is silent.
   */
  method Vprintf(ring: RttUp.UpRing, size: nat, f: seq<byte>, args: seq<Arg>, host: RttUp.Host, clock: nat)
    returns (ok: bool, r: int, ghost sent: nat, ghost resent: seq<byte>, clock': nat)
    requires ring.Settled() && 0 < size < 0x8000_0000 && WellFormed(f, 0, args)
    requires ring.Mode() == RttUp.BLOCK ==> RttUp.KeepsReading(host) && ring.buffer.Length >= 2
    modifies ring, ring.buffer
    ensures AllDefined(f, 0, args) ==> ok
    ensures ok && r >= 0 ==> AllDefined(f, 0, args)
    ensures ok ==> ring.Settled() && clock <= clock' && ring.Mode() == old(ring.Mode())
    ensures ok ==> old(ring.consumed) <= ring.consumed
                   && |ring.consumed| <= |old(ring.consumed)| + RttUp.Quota(host, clock, clock')
    ensures ok ==> Outcome(Render(f, 0, args), size, ring.Mode(), old(ring.FreeBytes()), r, sent, resent)
    ensures ok ==> ring.stored == old(ring.stored) + Render(f, 0, args)[..sent] + resent
    ensures ok && RttUp.Idle(host, clock, clock') ==>
      Silent(Render(f, 0, args), size, ring.Mode(), old(ring.FreeBytes()), r, sent, resent)
  {
    var desc := new PrintfDesc(ring, size, host, clock);
    hide PrintfDesc.Good, Outcome, Silent, Accepted, Whole, Multiple, WellFormed, AllDefined, Render;
    hide RttUp.Idle, RttUp.KeepsReading, RttUp.UpRing.FreeBytes, RttUp.UpRing.Valid;
    ok, r, sent, resent := desc.Print(f, args);
    clock' := desc.clock;
  }

  lemma FormatStep(f: seq<byte>, i: nat, args: seq<Arg>)
    requires i <= |f| && WellFormed(f, i, args) && At(f, i) != 0
    ensures i < |f|
    ensures if f[i] != '%' as int then
        && WellFormed(f, i + 1, args) && Render(f, i, args) == [f[i]] + Render(f, i + 1, args)
        && (AllDefined(f, i, args) <==> AllDefined(f, i + 1, args))
      else
        var c := ScanConversion(f, i + 1);
        && Suits(f, c, args) && i < c.next <= |f| && WellFormed(f, c.next, RestArgs(c, args))
        && Render(f, i, args) == ConversionText(f, c, args) + Render(f, c.next, RestArgs(c, args))
        && (AllDefined(f, i, args) <==> Defined(f, c, args) && AllDefined(f, c.next, RestArgs(c, args)))
  {}

  lemma FormatEnd(f: seq<byte>, i: nat, args: seq<Arg>)
    requires i <= |f| && WellFormed(f, i, args) && At(f, i) == 0
    ensures Render(f, i, args) == [] && AllDefined(f, i, args)
  {}

  lemma NothingBefore(got: seq<byte>, text: seq<byte>)
    ensures [] + text == text && (Begins(got, [] + text) ==> got <= text)
  {
    BeginsIsPrefix(got, text);
  }

  lemma PrefixOfText(got: seq<byte>, text: seq<byte>, n: nat)
    requires got <= text && n <= |got|
    ensures got[..n] == text[..n]
  {}

  /** Result and effect of printing text through a buffer of size bytes, whatever the probe does. */
  ghost predicate Outcome(text: seq<byte>, size: nat, mode: nat, free: nat, r: int, sent: nat, resent: seq<byte>)
    requires size > 0
  {
    var whole := Whole(|text|, size);
    && sent <= |text|
    && (r >= 0 <==> sent >= whole)
    && (r >= 0 ==> r == |text| + |text| % size && resent == [] && (r == sent <==> |text| % size == 0))
    && (r < 0 ==> r == -1 && |resent| <= size && resent <= text[Whole(sent, size)..])
    && (mode == RttUp.BLOCK || free >= whole ==> r >= 0)
    && (mode == RttUp.BLOCK || free >= |text| ==> sent == |text|)
    && sent >= Accepted(mode, free, |text|, size)
  }

  /** The same when the probe does not read. */
  ghost predicate Silent(text: seq<byte>, size: nat, mode: nat, free: nat, r: int, sent: nat, resent: seq<byte>)
    requires size > 0
  {
    && (r >= 0 <==> mode == RttUp.BLOCK || free >= Whole(|text|, size))
    && resent == [] && sent == Accepted(mode, free, |text|, size)
  }

  lemma OutcomeOf(emitted: seq<byte>, text: seq<byte>, size: nat, mode: nat, free: nat,
                  r: int, sent: nat, resent: seq<byte>)
    requires size > 0 && emitted <= text && sent <= |emitted|
    requires r >= 0 ==> emitted == text && r == |text| + (|text| - Whole(|text|, size))
                        && Whole(|text|, size) <= sent && resent == []
    requires r < 0 ==> r == -1 && mode != RttUp.BLOCK && free < |emitted| && Multiple(|emitted|, size)
                       && size <= |emitted| && |emitted| - size <= sent < |emitted|
                       && StartsEnd(emitted, size, resent)
    requires sent < |emitted| ==> free < |emitted| && mode != RttUp.BLOCK
    requires sent >= Accepted(mode, free, |emitted|, size)
    ensures Outcome(text, size, mode, free, r, sent, resent)
    ensures resent == [] && sent == Accepted(mode, free, |emitted|, size) && (r >= 0 ==> Whole(|text|, size) <= free)
            ==> Silent(text, size, mode, free, r, sent, resent)
  {
    if r < 0 {
      MultipleBelow(|text|, |emitted|, size);
      MultipleAt(sent, |emitted|, size);
      ResentAt(emitted, text, size, resent);
    }
  }

  lemma ResentAt(emitted: seq<byte>, text: seq<byte>, size: nat, resent: seq<byte>)
    requires emitted <= text && StartsEnd(emitted, size, resent)
    ensures resent <= text[|emitted| - size..]
  {
    var n := |emitted| - size;
    EndsWithTail(emitted[..n + |resent|], resent);
    hide EndsWith;
    Window(emitted, text, n, |resent|);
  }

  lemma MultipleBelow(n: nat, m: nat, size: nat)
    requires size > 0 && Multiple(m, size) && m <= n
    ensures m <= Whole(n, size)
  {
    var q, p := n / size, m / size;
    assert n == q * size + n % size && m == p * size;
    if q < p { MulLe(q + 1, p, size); }
    MulLe(p, q, size);
  }

  lemma MultipleAt(n: nat, m: nat, size: nat)
    requires size > 0 && Multiple(m, size) && m - size <= n < m
    ensures Whole(n, size) == m - size
  {
    var p := m / size;
    assert m == p * size;
    assert (p - 1) * size == p * size - size;
    DivModUnique(n, size, p - 1, n - (m - size));
  }

  /**
   * One write of the staged characters continues what whole buffers have taken. Space that the
   * probe has made meanwhile only helps.
   */
  lemma TakenAccepted(mode: nat, free: nat, n: nat, cnt: nat, size: nat, room: nat)
    requires cnt <= size && cnt <= n && 0 < size && Multiple(n - cnt, size) && room >= free - (n - cnt)
    ensures Taken(mode, room, cnt) <= cnt
    ensures Taken(mode, room, cnt) < cnt ==> free < n && mode != RttUp.BLOCK
    ensures n - cnt + Taken(mode, room, cnt) >= Accepted(mode, free, n, size)
    ensures n - cnt <= free && room == free - (n - cnt) ==>
              n - cnt + Taken(mode, room, cnt) == Accepted(mode, free, n, size)
  {
    if n - cnt <= free < n {
      MultipleStep(n - cnt + size, size);
      MultipleAt(free, n - cnt + size, size);
    }
  }

  /**
   * One character into a full ring in skipping mode, with a silent probe: nothing can be stored,
   * and the result is 2.
   */
  method FullRingReportsTwo(ring: RttUp.UpRing, size: nat, c: byte, host: RttUp.Host, clock: nat)
    returns (r: int, ghost sent: nat, clock': nat)
    requires ring.Settled() && ring.Mode() == RttUp.SKIP && ring.FreeBytes() == 0
    requires 1 < size < 0x8000_0000 && c != 0 && c != '%' as int
    modifies ring, ring.buffer
    ensures clock <= clock' && (RttUp.Idle(host, clock, clock') ==> r == 2 && sent == 0)
  {
    ghost var resent;
    var ok;
    OneCharacter([c]);
    hide WellFormed, AllDefined, Render, Outcome, Silent, RttUp.Idle, RttUp.Quota;
    ok, r, sent, resent, clock' := Vprintf(ring, size, [c], [], host, clock);
    if RttUp.Idle(host, clock, clock') { ShortfallOf([c], size, r, sent, resent); }
  }

  /** There is such a ring. */
  method ShortfallUnreported() returns (free: nat, r: int, ghost sent: nat)
    ensures free == 0 && r == 2 && sent == 0
  {
    var silent: RttUp.Host := _ => 0;
    var ring := new RttUp.UpRing(2, RttUp.SKIP);
    ring.Balance();
    var _, _, _, now := ring.Write([0], silent, 0);
    ring.Balance();
    free := ring.FreeBytes();
    hide RttUp.UpRing.FreeBytes, RttUp.UpRing.Valid;
    var later;
    r, sent, later := FullRingReportsTwo(ring, 128, 'a' as int, silent, now);
  }

  lemma ShortfallOf(text: seq<byte>, size: nat, r: int, sent: nat, resent: seq<byte>)
    requires |text| == 1 < size && Outcome(text, size, RttUp.SKIP, 0, r, sent, resent)
    requires Silent(text, size, RttUp.SKIP, 0, r, sent, resent)
    ensures r == 2 && sent == 0
  {
    DivModUnique(1, size, 0, 1);
  }

  lemma OneCharacter(f: seq<byte>)
    requires |f| == 1 && f[0] != 0 && f[0] != '%' as int
    ensures WellFormed(f, 0, []) && AllDefined(f, 0, []) && Render(f, 0, []) == f
  {
    assert WellFormed(f, 1, []) && Render(f, 1, []) == [];
  }

  lemma NothingStaged(buf: seq<byte>, before: seq<byte>, text: seq<byte>, cnt: nat)
    requires |buf| > 0 && text == [] && cnt == 0
    ensures Multiple(|text| - cnt, |buf|) && EndsWith(text, buf[..cnt])
    ensures before == before + text[..|text| - cnt]
  {}

  lemma Leftover(n: nat, cnt: nat, size: nat)
    requires cnt < size && cnt <= n && Multiple(n - cnt, size)
    ensures Whole(n, size) == n - cnt
  {
    DivModUnique(n, size, (n - cnt) / size, cnt);
  }

  /** What _PrintInt stores after the sign when the field width has come down to inner. */
  function ZerosThenNumber(v: nat, base: nat, precision: nat, inner: nat, flags: Flags): seq<byte>
    requires 2 <= base <= 16
  {
    (if PadsWithZeros(flags, precision) then Fill(inner as int - Width(v, base, precision), ZERO) else [])
    + UnsignedText(v, base, precision, if flags.left then inner else 0, flags)
  }

  lemma TailIndependent(v: nat, base: nat, precision: nat, inner: nat, left: nat, flags: Flags)
    requires 2 <= base <= 16
    requires left == inner || (!flags.left && !PadsWithZeros(flags, precision))
    ensures ZerosThenNumber(v, base, precision, inner, flags) == ZerosThenNumber(v, base, precision, left, flags)
  {}

  /** The parts of a signed field in the order _PrintInt stores them. */
  lemma IntShape(v: int, base: nat, precision: nat, fieldWidth: nat, inner: nat, flags: Flags)
    requires 2 <= base <= 16
    requires inner == if fieldWidth > 0 && (v < 0 || flags.plus) then fieldWidth - 1 else fieldWidth
    ensures IntText(v, base, precision, fieldWidth, flags) ==
      (if !flags.left && !PadsWithZeros(flags, precision)
       then Fill(inner as int - Width(Abs(v), base, precision), SPACE) else [])
      + (Sign(v, flags) + ZerosThenNumber(Abs(v), base, precision, inner, flags))
  {
    hide Numeral, Width;
  }

  /** _PrintUnsigned, given the field width _PrintInt has used up, does not pad again. */
  lemma NoSecondPadding(v: nat, base: nat, precision: nat, left: nat, flags: Flags)
    requires 2 <= base <= 16 && (flags.left || left < Width(v, base, precision))
    ensures UnsignedText(v, base, precision, left, flags)
         == UnsignedText(v, base, precision, if flags.left then left else 0, flags)
  {}

  function LeadChar(flags: Flags, precision: nat): byte {
    if flags.zero && precision == 0 then ZERO else SPACE
  }

  /** An unsigned number in its field, the way _PrintUnsigned puts it together. */
  lemma UnsignedShape(v: nat, base: nat, precision: nat, fieldWidth: nat, flags: Flags)
    requires 2 <= base <= 16
    ensures var width := Width(v, base, precision);
      UnsignedText(v, base, precision, fieldWidth, flags) ==
        (if !flags.left then Fill(fieldWidth - width, LeadChar(flags, precision)) else [])
        + (Numeral(v, base, precision) + Fill(if flags.left then fieldWidth - width else 0, SPACE))
  {
    hide Numeral, Width;
  }

  lemma PrefixExtend(got: seq<byte>, before: seq<byte>, text: seq<byte>, more: seq<byte>)
    ensures Begins(got, before + text) ==> Begins(got, before + (text + more))
    ensures got == before + text ==> got + more == before + (text + more)
  {
    BeginsIsPrefix(got, before + text);
    BeginsIsPrefix(got, before + (text + more));
  }

  /** The digit counting loop, and the precision as a lower bound. */
  method CountWidth(v: nat, base: nat, precision: nat) returns (width: nat)
    requires base >= 2
    ensures width == Width(v, base, precision)
  {
    var number: nat := v;
    width := 1;
    while number >= base
      invariant width + DigitCount(number, base) == 1 + DigitCount(v, base)
      decreases number
    {
      number := Quotient(number, base);
      width := width + 1;
    }
    if precision > width {
      width := precision;
    }
  }

  /** The scaling loop, which stops at 0 where it would divide by zero. */
  method ScaleUp(v: nat, base: nat, precision: nat) returns (digit: nat)
    requires v < TWO32 && base >= 2
    ensures digit == ScaleFactor(v, base, precision)
  {
    var numDigits: int := Int32(precision);
    ghost var e := 0;
    digit := 1;
    assert Scale(base, 0) == 1;
    hide Scale, Grow, Quotient, ScaleFactor;
    while true
      invariant numDigits == Int32(precision) - e && ScaledBy(v, base, precision, e, digit)
      decreases Max(numDigits, 1), TWO32 - digit
    {
      ScaleTurn(v, base, precision, e, digit);
      if digit == 0 {
        return;
      }
      var more := Quotient(v, digit) >= base || numDigits > 1;
      numDigits := numDigits - 1;
      if !more {
        break;
      }
      digit := (digit * base) % TWO32;
      e := e + 1;
    }
  }

  /** The scale factor after e multiplications. */
  ghost predicate ScaledBy(v: nat, base: nat, precision: nat, e: nat, digit: nat)
    requires base >= 2
  {
    && digit < TWO32
    && (e <= Forced(precision) ==> digit == Scale(base, e))
    && (e >= Forced(precision) ==> Grow(v, base, digit) == ScaleFactor(v, base, precision))
  }

  /** The loop stops at 0, or when the precision is used up and v has no second digit above the scale. */
  lemma ScaleTurn(v: nat, base: nat, precision: nat, e: nat, digit: nat)
    requires v < TWO32 && base >= 2 && ScaledBy(v, base, precision, e, digit)
    ensures digit == 0 ==> ScaleFactor(v, base, precision) == 0
    ensures digit > 0 && Quotient(v, digit) < base && Int32(precision) - e <= 1 ==>
              digit == ScaleFactor(v, base, precision)
    ensures digit > 0 && (Quotient(v, digit) >= base || Int32(precision) - e > 1) ==>
              ScaledBy(v, base, precision, e + 1, (digit * base) % TWO32)
              && (Int32(precision) - e <= 1 ==> (digit * base) % TWO32 > digit)
  {
    if digit == 0 {
      if e < Forced(precision) { ScaleStaysZero(base, e, Forced(precision)); }
    } else {
      QuotientBelow(v, digit, base);
      if e >= Forced(precision) && digit * base <= v {
        DivModUnique(digit * base, TWO32, 0, digit * base);
        MulLe(2, base, digit);
      }
    }
  }

  lemma TextStep(before: seq<byte>, text: seq<byte>, i: nat)
    requires i < |text|
    ensures before + text[..i] + [text[i]] == before + text[..i + 1]
    ensures Begins(before + text[..i + 1], before + text)
  {
    BeginsIsPrefix(before + text[..i + 1], before + text);
  }

  lemma FillStep(before: seq<byte>, n: nat, c: byte)
    ensures before + Fill(n, c) + [c] == before + Fill(n + 1, c)
  {}

  lemma FillPrefix(before: seq<byte>, n: nat, m: int, c: byte)
    requires n <= m
    ensures Begins(before + Fill(n, c), before + Fill(m, c))
  {
    BeginsIsPrefix(before + Fill(n, c), before + Fill(m, c));
  }

  lemma FillNone(before: seq<byte>, c: byte)
    ensures before + Fill(0, c) == before
  {}

  lemma FillExact(n: nat, m: int, c: byte)
    ensures n == Max(0, m) ==> Fill(n, c) == Fill(m, c)
  {}

  /** The output loop stores the first index as a character and goes on with the rest. */
  lemma FirstLead(v: nat, base: nat, digit: nat, div: nat, rest: int, before: seq<byte>)
    requires base >= 2 && digit > 0 && div == Quotient(v, digit) && rest == v - div * digit
    ensures rest >= 0
    ensures var (all, more) := (Leads(v, base, digit), Leads(rest, base, Quotient(digit, base)));
      if div >= 16 then before + Characters(all) == before && !InTable(all)
      else (InTable(all) <==> InTable(more))
           && before + Characters(all) == (before + [DigitChar(div)]) + Characters(more)
  {
    DivisionEquation(v, digit);
    LeadsStep(v, base, digit);
    assert rest == Remainder(v, digit);
    hide Leads, Quotient, Remainder, Characters, InTable;
    var more := Leads(rest, base, Quotient(digit, base));
    FirstIndex(div, more);
    if div < 16 { Reassociate(before, [DigitChar(div)], Characters(more)); }
  }

  lemma MoreStaged(text: seq<byte>, buf: seq<byte>, cnt: nat, c: byte)
    requires cnt < |buf| && cnt <= |text| && EndsWith(text, buf[..cnt])
    ensures EndsWith(text + [c], buf[cnt := c][..cnt + 1])
    ensures (text + [c])[..|text| - cnt] == text[..|text| - cnt]
  {
    EndsWithSnoc(text, buf[..cnt], c);
    hide EndsWith;
    BufferSnoc(buf, cnt, c);
  }

  lemma BufferSnoc(buf: seq<byte>, cnt: nat, c: byte)
    requires cnt < |buf|
    ensures buf[cnt := c][..cnt + 1] == buf[..cnt] + [c]
  {}

  lemma SumPrefix(a: seq<byte>, b: seq<byte>)
    ensures Begins(a, a + b)
  {
    BeginsIsPrefix(a, a + b);
  }

  lemma NoLeads(v: nat, base: nat, text: seq<byte>)
    requires base >= 2
    ensures text + Characters(Leads(v, base, 0)) == text && InTable(Leads(v, base, 0))
  {}

  lemma MultipleStep(n: nat, m: nat)
    requires 0 < m <= n
    ensures Multiple(n - m, m) <==> Multiple(n, m)
  {
    ModShift(n - m, 1, m);
  }

  /** Flushing part of the staged tail extends the flushed prefix. */
  lemma FlushedText(text: seq<byte>, staged: nat, written: nat, buf: seq<byte>, before: seq<byte>)
    requires written <= staged <= |buf| && staged <= |text|
    requires buf[..staged] == text[|text| - staged..]
    ensures before + text[..|text| - staged] + buf[..written] == before + text[..|text| - staged + written]
  {
    assert buf[..written] == buf[..staged][..written];
    assert text[..|text| - staged + written] == text[..|text| - staged] + text[|text| - staged..][..written];
  }
}
