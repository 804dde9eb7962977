/**
 * SEGGER_RTT_Read as the consumer of a down-ring whose producer, the debug probe, appends at any
 * moment: at tick t it appends as much of host(t) as fits. A tick stands before every access of
 * the reader to the ring, the copied bytes included.
 */
module RttDown {
  import opened Numbers
  import opened RttRing

  type Host = nat -> seq<byte>

  /** The probe appends nothing from tick from on, up to tick to. */
  ghost predicate Silent(host: Host, from: nat, to: nat) { forall t: nat :: from <= t < to ==> host(t) == [] }

  /** The unread bytes of a ring once the probe has appended what fits of these. */
  function Fitting(unread: seq<byte>, size: nat, bytes: seq<byte>): (r: seq<byte>)
    requires |unread| < size
    ensures |r| < size && unread <= r
  {
    unread + bytes[..Min(|bytes|, size - 1 - |unread|)]
  }

  /** The unread bytes after the probe's turns from tick a up to tick b, if the target takes none. */
  ghost function After(unread: seq<byte>, size: nat, host: Host, a: nat, b: nat): (r: seq<byte>)
    requires |unread| < size
    ensures |r| < size && unread <= r
  {
    if b <= a then unread else Fitting(After(unread, size, host, a, b - 1), size, host(b - 1))
  }

  lemma {:induction false} AfterInParts(unread: seq<byte>, size: nat, host: Host, a: nat, b: nat, c: nat)
    requires |unread| < size && a <= b <= c
    ensures After(unread, size, host, a, c) == After(After(unread, size, host, a, b), size, host, b, c)
    decreases c
  {
    if b < c { AfterInParts(unread, size, host, a, b, c - 1); }
  }

  lemma AfterTurn(unread: seq<byte>, size: nat, host: Host, a: nat, b: nat)
    requires |unread| < size && a <= b
    ensures After(unread, size, host, a, a) == unread
    ensures After(unread, size, host, a, b + 1) == Fitting(After(unread, size, host, a, b), size, host(b))
  {}

  /** A silent probe leaves the unread bytes as they are. */
  lemma {:induction false} AfterSilence(unread: seq<byte>, size: nat, host: Host, a: nat, b: nat)
    requires |unread| < size && Silent(host, a, b)
    ensures After(unread, size, host, a, b) == unread
    decreases b
  {
    if a < b { AfterSilence(unread, size, host, a, b - 1); }
  }

  class DownRing {
    const buffer: array<byte>
    var wrOff: nat
    var rdOff: nat
    ghost var sent: seq<byte>    // every byte the probe has appended, in order
    ghost var taken: seq<byte>   // every byte the target has read, in order

    ghost predicate Valid()
      reads this, buffer
    {
      && Offsets(buffer.Length, rdOff, wrOff) && wrOff < buffer.Length
      && sent == taken + Unread()
    }

    ghost function Unread(): seq<byte>
      requires Offsets(buffer.Length, rdOff, wrOff)
      reads this, buffer
    {
      Contents(buffer[..], rdOff, wrOff)
    }

    constructor (size: nat)
      requires size > 0
      ensures Valid() && fresh(buffer) && buffer.Length == size
      ensures sent == [] && taken == []
    {
      buffer := new byte[size];
      wrOff, rdOff := 0, 0;
      sent, taken := [], [];
    }

    /** The probe appends as many of the bytes as fit. */
    method HostAppends(bytes: seq<byte>)
      requires Valid()
      modifies this`wrOff, this`sent, buffer
      ensures Valid() && old(Unread()) <= Unread() && Unread() == Fitting(old(Unread()), buffer.Length, bytes)
    {
      hide Contents;
      var n := Min(|bytes|, Free(buffer.Length, rdOff, wrOff));
      var i := 0;
      while i < n
        invariant 0 <= i <= n && Valid()
        invariant n - i <= Free(buffer.Length, rdOff, wrOff)
        invariant Unread() == old(Unread()) + bytes[..i]
      {
        AppendOne(buffer[..], rdOff, wrOff, bytes[i]);
        sent := sent + [bytes[i]];
        buffer[wrOff] := bytes[i];
        wrOff := if wrOff + 1 == buffer.Length then 0 else wrOff + 1;
        i := i + 1;
      }
    }

    /**
     * Extends the copy of the unread bytes seen from length `at` to length at + n, where orig is
     * what out held before the read; the probe may append meanwhile.
     */
    method CopyOut(out: array<byte>, at: nat, from: nat, n: nat, host: Host, clock: nat,
                   ghost seen: seq<byte>, ghost orig: seq<byte>) returns (clock': nat)
      requires Valid() && out != buffer && at + n <= out.Length == |orig|
      requires seen <= Unread() && at + n <= |seen|
      requires n > 0 ==> from == Slot(buffer.Length, rdOff, at) && from + n <= buffer.Length
      requires out[..] == seen[..at] + orig[at..]
      modifies this`wrOff, this`sent, buffer, out
      ensures Valid() && seen <= Unread() && clock' == clock + n
      ensures out[..] == seen[..at + n] + orig[at + n..]
      ensures Unread() == After(old(Unread()), buffer.Length, host, clock, clock')
    {
      hide After, Fitting;
      AfterTurn(old(Unread()), buffer.Length, host, clock, clock);
      clock' := clock;
      var i := 0;
      while i < n
        invariant i <= n && clock' == clock + i
        invariant Valid() && seen <= Unread()
        invariant out[..] == seen[..at + i] + orig[at + i..]
        invariant Unread() == After(old(Unread()), buffer.Length, host, clock, clock')
      {
        AfterTurn(old(Unread()), buffer.Length, host, clock, clock');
        HostAppends(host(clock'));
        assert buffer[from + i] == Unread()[at + i];
        out[at + i] := buffer[from + i];
        clock', i := clock' + 1, i + 1;
      }
    }

    /** The copy up to the end of the buffer, made only when the unread bytes wrap. */
    method CopyToEnd(out: array<byte>, size: nat, wr: nat, host: Host, clock: nat,
                     ghost seen: seq<byte>, ghost orig: seq<byte>) returns (count: nat, rd: nat, clock': nat)
      requires Valid() && out != buffer && size <= out.Length == |orig| && wr < buffer.Length
      requires seen <= Unread() && |seen| == Used(buffer.Length, rdOff, wr) && out[..] == orig
      modifies this`wrOff, this`sent, buffer, out
      ensures Valid() && clock <= clock' && seen <= Unread()
      ensures count <= size && count <= |seen| && out[..] == seen[..count] + orig[count..]
      ensures rd == Slot(buffer.Length, rdOff, count)
      ensures count == size || (count < size && rd <= wr && |seen| == count + wr - rd)
      ensures Unread() == After(old(Unread()), buffer.Length, host, clock, clock')
    {
      AfterTurn(Unread(), buffer.Length, host, clock, clock);
      hide Contents, After;
      count, rd, clock' := 0, rdOff, clock;
      if rd > wr {
        var n := Min(buffer.Length - rd, size);
        clock' := CopyOut(out, 0, rd, n, host, clock', seen, orig);
        count, rd := n, rd + n;
        if rd == buffer.Length {
          rd := 0;
        }
      }
    }

    /** Both copies of SEGGER_RTT_Read: up to the end of the buffer first, then from its start. */
    method CopySegments(out: array<byte>, size: nat, wr: nat, host: Host, clock: nat)
      returns (count: nat, rd: nat, clock': nat)
      requires Valid() && out != buffer && size <= out.Length && wr == wrOff
      modifies this`wrOff, this`sent, buffer, out
      ensures Valid() && clock <= clock' && old(Unread()) <= Unread()
      ensures count == Min(size, |old(Unread())|) && rd == Slot(buffer.Length, rdOff, count)
      ensures out[..] == old(Unread())[..count] + old(out[..])[count..]
      ensures Unread() == After(old(Unread()), buffer.Length, host, clock, clock')
    {
      hide Contents, Used, Slot, After;
      ghost var seen, orig := Unread(), out[..];
      count, rd, clock' := CopyToEnd(out, size, wr, host, clock, seen, orig);
      var n := Min(wr - rd, size - count);
      SecondSegment(buffer.Length, rdOff, wr, size, count, rd, |seen|, n);
      if n > 0 {
        AfterInParts(seen, buffer.Length, host, clock, clock', clock' + n);
        clock' := CopyOut(out, count, rd, n, host, clock', seen, orig);
        count, rd := count + n, rd + n;
      }
    }

    /**
     * SEGGER_RTT_Read: dequeues the oldest bytes of those seen when WrOff was sampled, which are
     * the bytes unread before and what the probe appended at the first tick. Everything the probe
     * appends later stays behind the rest of them.
     */
    method Read(out: array<byte>, size: nat, host: Host, clock: nat)
      returns (count: nat, ghost seen: seq<byte>, clock': nat)
      requires Valid() && out != buffer && size <= out.Length && size < 0x8000_0000
      modifies this, buffer, out
      ensures Valid() && clock < clock'
      ensures seen == Fitting(old(Unread()), buffer.Length, host(clock))
      ensures count == Min(size, |seen|)
      ensures out[..] == seen[..count] + old(out[..])[count..]
      ensures taken == old(taken) + seen[..count]
      ensures Unread() == After(seen, buffer.Length, host, clock + 1, clock')[count..]
      ensures Silent(host, clock + 1, clock') ==> Unread() == seen[count..]
    {
      hide Contents, After, Fitting, Silent;
      HostAppends(host(clock));
      seen := Unread();
      var rd;
      count, rd, clock' := CopySegments(out, size, wrOff, host, clock + 1);
      AfterTurn(seen, buffer.Length, host, clock + 1, clock');
      HostAppends(host(clock'));
      clock' := clock' + 1;
      SilentRead(seen, buffer.Length, host, clock + 1, clock');
      assert seen <= Unread();
      Dequeue(count, rd);
    }

    /** Publishing the new RdOff, unless nothing was read. */
    method Dequeue(count: nat, rd: nat)
      requires Valid() && count <= |Unread()| && rd == Slot(buffer.Length, rdOff, count)
      modifies this`rdOff, this`taken
      ensures Valid() && Unread() == old(Unread())[count..]
      ensures taken == old(taken) + old(Unread())[..count]
    {
      TakeFront(buffer[..], rdOff, wrOff, count);
      taken := taken + Unread()[..count];
      if count != 0 {
        rdOff := rd;
      }
    }

    /** SEGGER_RTT_GetKey: -1 exactly when nothing was unread, the oldest byte otherwise. */
    method GetKey(host: Host, clock: nat) returns (key: int, ghost seen: seq<byte>, clock': nat)
      requires Valid()
      modifies this, buffer
      ensures Valid() && clock < clock' && seen == Fitting(old(Unread()), buffer.Length, host(clock))
      ensures if seen == [] then key == -1 else key == seen[0]
      ensures taken == old(taken) + (if seen == [] then [] else [seen[0]])
      ensures Unread() == After(seen, buffer.Length, host, clock + 1, clock')[(if seen == [] then 0 else 1)..]
      ensures Silent(host, clock + 1, clock') ==> Unread() == if seen == [] then [] else seen[1..]
    {
      hide Contents, After, Fitting, Silent;
      var c := new byte[1];
      var count;
      count, seen, clock' := Read(c, 1, host, clock);
      key := if count == 1 then c[0] else -1;
      assert count == 1 ==> c[..] == [seen[0]];
    }

    /** SEGGER_RTT_HasKey */
    method HasKey(host: Host, clock: nat) returns (has: nat)
      requires Valid()
      modifies this`wrOff, this`sent, buffer
      ensures Valid() && Unread() == Fitting(old(Unread()), buffer.Length, host(clock))
      ensures has == if Unread() == [] then 0 else 1
    {
      var rd := rdOff;
      HostAppends(host(clock));
      has := if rd != wrOff then 1 else 0;
    }
  }

  /** What is left after the first copy lies in one piece and ends at WrOff. */
  lemma SecondSegment(size: nat, rdOff: nat, wr: nat, room: nat, count: nat, rd: nat, seen: nat, n: int)
    requires Offsets(size, rdOff, wr) && wr < size && seen == Used(size, rdOff, wr) && count <= seen && count <= room
    requires rd == Slot(size, rdOff, count) && n == Min(wr - rd, room - count)
    requires count == room || (count < room && rd <= wr && seen == count + wr - rd)
    ensures n <= 0 ==> count == Min(room, seen)
    ensures n > 0 ==> count + n == Min(room, seen) && rd + n == Slot(size, rdOff, count + n) && rd + n <= size
  {}

  lemma SilentRead(seen: seq<byte>, size: nat, host: Host, a: nat, b: nat)
    requires |seen| < size
    ensures Silent(host, a, b) ==> After(seen, size, host, a, b) == seen
  {
    if Silent(host, a, b) { AfterSilence(seen, size, host, a, b); }
  }

  lemma AppendOne(buf: seq<byte>, rd: nat, wr: nat, x: byte)
    requires Offsets(|buf|, rd, wr) && wr < |buf| && Free(|buf|, rd, wr) > 0
    ensures Contents(buf[wr := x], rd, if wr + 1 == |buf| then 0 else wr + 1) == Contents(buf, rd, wr) + [x]
  {}
}
