/**
 * SEGGER_RTT_Write as the producer of an up-ring whose consumer, the debug probe, moves RdOff at
 * any moment. The probe is an arbitrary schedule host: at tick t it takes up to host(t) unread
 * bytes. A tick stands before every access of the writer to the ring, the copied bytes included.
 * Every such access and every turn of the probe is a step of RttProtocol, which Valid records.
 */
module RttUp {
  import opened Numbers
  import opened RttRing
  import opened RttProtocol

  type Host = nat -> nat

  const SKIP := 0
  const TRIM := 1
  const BLOCK := 2

  ghost predicate ReadsAfter(host: Host, t: nat) { exists u: nat :: u >= t && host(u) > 0 }

  /** The probe never stops reading for good. */
  ghost predicate KeepsReading(host: Host) { forall t: nat :: ReadsAfter(host, t) }

  ghost predicate Idle(host: Host, from: nat, to: nat) { forall t: nat :: from <= t < to ==> host(t) == 0 }

  /** How many bytes the probe takes at most from tick from on, up to tick to. */
  ghost function Quota(host: Host, from: nat, to: nat): nat {
    if to <= from then 0 else Quota(host, from, to - 1) + host(to - 1)
  }

  lemma {:induction false} QuotaInParts(host: Host, a: nat, b: nat, c: nat)
    requires a <= b <= c
    ensures Quota(host, a, c) == Quota(host, a, b) + Quota(host, b, c)
    decreases c
  {
    if b < c { QuotaInParts(host, a, b, c - 1); }
  }

  lemma QuotaTurn(host: Host, a: nat, b: nat)
    requires a <= b
    ensures Quota(host, a, a) == 0 && Quota(host, a, b + 1) == Quota(host, a, b) + host(b)
  {}

  lemma {:induction false} IdleQuota(host: Host, a: nat, b: nat)
    ensures Idle(host, a, b) ==> Quota(host, a, b) == 0
    decreases b
  {
    if a < b { IdleQuota(host, a, b - 1); }
  }

  /** A slice that copies another still does when both grow by one byte. */
  lemma SliceSnoc(buf: seq<byte>, off: nat, i: nat, data: seq<byte>, done: nat)
    requires off + i < |buf| && done + i < |data| && buf[off..off + i] == data[done..done + i]
    ensures buf[off + i := data[done + i]][off..off + i + 1] == data[done..done + i + 1]
  {
    assert data[done..done + i + 1] == data[done..done + i] + [data[done + i]];
  }

  class UpRing {
    const buffer: array<byte>
    var wrOff: nat
    var rdOff: nat
    var flags: nat
    ghost var stored: seq<byte>     // every byte the writer has published, in order
    ghost var consumed: seq<byte>   // every byte the probe has taken, in order
    ghost const initial: seq<byte>  // what the buffer held at first
    ghost var steps: seq<Step>      // every access of the writer and turn of the probe, in order
    ghost var phase: Phase          // where the writer stands

    /** The ring as a state of the protocol. */
    ghost function Now(): State
      reads this, buffer
    {
      State(buffer[..], rdOff, wrOff, phase, consumed)
    }

    ghost predicate Valid()
      reads this, buffer
    {
      && Offsets(buffer.Length, rdOff, wrOff) && |initial| == buffer.Length
      && stored == consumed + Contents(buffer[..], rdOff, wrOff)
      && Run(Initial(initial), steps, Now())
    }

    /** No write is in progress. */
    ghost predicate Settled()
      reads this, buffer
    {
      Offsets(buffer.Length, rdOff, wrOff) && Valid() && wrOff < buffer.Length && phase.Ready?
    }

    /** The writer has counted its room and is copying. */
    ghost predicate Busy()
      reads this, buffer
    {
      Offsets(buffer.Length, rdOff, wrOff) && Valid() && wrOff < buffer.Length && phase.Copying?
    }

    /** What the protocol promises for every run holds for the ring at any moment. */
    lemma NothingLost()
      requires Valid()
      ensures Inv(Now()) && consumed + Contents(buffer[..], rdOff, wrOff) + InFlight(Now()) == Written(steps)
      ensures Contents(buffer[..], rdOff, wrOff) + InFlight(Now()) == Written(steps)[|consumed|..]
    {
      EveryRunIsLossless(initial, steps, Now());
    }

    function Mode(): nat
      reads this
    {
      flags % 4
    }

    function FreeBytes(): nat
      requires Offsets(buffer.Length, rdOff, wrOff)
      reads this
    {
      Free(buffer.Length, rdOff, wrOff)
    }

    constructor (size: nat, flags: nat)
      requires size > 0
      ensures Settled() && fresh(buffer) && buffer.Length == size && this.flags == flags
      ensures stored == [] && consumed == []
    {
      var b := new byte[size];
      buffer, initial := b, b[..];
      wrOff, rdOff := 0, 0;
      this.flags := flags;
      stored, consumed, steps, phase := [], [], [], Ready;
    }

    /** What was published is with the probe or fills the slots that are not free. */
    lemma Balance()
      requires Valid()
      ensures |stored| == |consumed| + (buffer.Length - 1 - FreeBytes())
    {}

    /** The probe takes up to k unread bytes from the front. */
    method HostReads(k: nat)
      requires Valid()
      modifies this`rdOff, this`consumed, this`steps
      ensures Valid()
      ensures var n := Min(k, |old(Contents(buffer[..], rdOff, wrOff))|);
        && consumed == old(consumed) + old(Contents(buffer[..], rdOff, wrOff))[..n]
        && FreeBytes() == old(FreeBytes()) + n
    {
      var n := Min(k, Used(buffer.Length, rdOff, wrOff));
      Append(Initial(initial), steps, Now(), HostTakes(n));
      hide Run;
      steps := steps + [HostTakes(n)];
      TakeFront(buffer[..], rdOff, wrOff, n);
      consumed := consumed + Contents(buffer[..], rdOff, wrOff)[..n];
      rdOff := Slot(buffer.Length, rdOff, n);
    }

    /** The same in numbers. */
    method HostTurn(k: nat)
      requires Valid()
      modifies this`rdOff, this`consumed, this`steps
      ensures Valid() && FreeBytes() == old(FreeBytes()) + Min(k, old(buffer.Length - 1 - FreeBytes()))
      ensures old(consumed) <= consumed && |consumed| <= |old(consumed)| + k
      ensures old(Settled()) ==> Settled()
      ensures old(Busy()) ==> Busy()
    {
      HostReads(k);
    }

    /**
     * Copies data[done..done + n] behind the unread bytes, one byte at a time. Nothing is
     * published yet, so the ring shows the probe the same bytes throughout.
     */
    method CopyIn(data: seq<byte>, done: nat, n: nat, host: Host, clock: nat) returns (clock': nat)
      requires Busy() && phase.copied == [] && n <= phase.room
      requires done + n <= |data| && n <= FreeBytes() && wrOff + n <= buffer.Length
      modifies this`rdOff, this`consumed, this`steps, this`phase, buffer
      ensures Busy() && clock' == clock + n && phase.copied == data[done..done + n]
      ensures buffer[wrOff..wrOff + n] == data[done..done + n]
      ensures old(consumed) <= consumed && |consumed| <= |old(consumed)| + Quota(host, clock, clock')
      ensures FreeBytes() >= old(FreeBytes())
    {
      hide Contents, Used, Free, Run, Quota;
      assert buffer[wrOff..wrOff] == data[done..done];
      QuotaTurn(host, clock, clock);
      clock' := clock;
      var i := 0;
      while i < n
        invariant i <= n && clock' == clock + i
        invariant Busy() && phase.room == old(phase.room) && phase.copied == data[done..done + i]
        invariant FreeBytes() >= old(FreeBytes())
        invariant buffer[wrOff..wrOff + i] == data[done..done + i]
        invariant old(consumed) <= consumed && |consumed| <= |old(consumed)| + Quota(host, clock, clock')
      {
        ghost var before := buffer[..];
        QuotaTurn(host, clock, clock');
        CopyByte(i, data[done + i], host(clock'));
        SliceSnoc(before, wrOff, i, data, done);
        clock', i := clock' + 1, i + 1;
      }
    }

    /** One byte of the copy, with the probe's turn before it. */
    method CopyByte(i: nat, x: byte, k: nat)
      requires Busy() && |phase.copied| == i < phase.room && i < FreeBytes() && wrOff + i < buffer.Length
      modifies this`rdOff, this`consumed, this`steps, this`phase, buffer
      ensures Busy() && FreeBytes() >= old(FreeBytes())
      ensures phase == old(phase).(copied := old(phase).copied + [x])
      ensures buffer[..] == old(buffer[..])[wrOff + i := x]
      ensures old(consumed) <= consumed && |consumed| <= |old(consumed)| + k
    {
      HostTurn(k);
      hide Contents, Run;
      FillFree(buffer[..], rdOff, wrOff, i, x);
      Append(Initial(initial), steps, Now(), Step.CopyByte(x));
      steps, phase := steps + [Step.CopyByte(x)], phase.(copied := phase.copied + [x]);
      buffer[wrOff + i] := x;
    }

    /** Reads RdOff and counts how much can be copied before the end of the buffer. */
    method CountRoom(n: nat, host: Host, clock: nat) returns (k: nat, clock': nat)
      requires Settled() && n > 0
      modifies this`rdOff, this`consumed, this`steps, this`phase
      ensures Busy() && clock' == clock + 2 && phase.copied == [] && k <= phase.room
      ensures Min(Min(old(FreeBytes()), buffer.Length - wrOff), n) <= k
      ensures k <= FreeBytes() && k <= n && wrOff + k <= buffer.Length
      ensures old(consumed) <= consumed && |consumed| <= |old(consumed)| + Quota(host, clock, clock')
      ensures FreeBytes() >= old(FreeBytes())
      ensures k == 0 && buffer.Length >= 2 ==> old(FreeBytes()) == 0 && host(clock) == 0
      ensures FreeBytes() == 0 && buffer.Length >= 2 ==> Idle(host, clock, clock')
    {
      hide Contents, Used, Free, Run;
      HostTurn(host(clock));
      var room := ReadOffset();
      k := Min(room, n);
      HostTurn(host(clock + 1));   // k was computed from an offset that may be stale by now
      clock' := clock + 2;
      QuotaTurn(host, clock, clock);
      QuotaTurn(host, clock, clock + 1);
    }

    /** The number of free bytes up to the end of the buffer, computed from RdOff. */
    method ReadOffset() returns (room: nat)
      requires Settled()
      modifies this`steps, this`phase
      ensures Busy() && phase == Copying(room, [])
      ensures room == Min(FreeBytes(), buffer.Length - wrOff) && FreeBytes() == old(FreeBytes())
    {
      RoomIsFree(buffer.Length, rdOff, wrOff);
      room := Min(Room(buffer.Length, rdOff, wrOff), buffer.Length - wrOff);
      Append(Initial(initial), steps, Now(), ReadRdOff);
      hide Run;
      steps, phase := steps + [ReadRdOff], Copying(room, []);
    }

    /** WrOff += n and the wrap-around; the probe may look while WrOff equals the buffer size. */
    method Publish(data: seq<byte>, done: nat, n: nat, host: Host, clock: nat) returns (clock': nat)
      requires Busy() && done + n <= |data| && n <= FreeBytes() && wrOff + n <= buffer.Length
      requires phase.copied == data[done..done + n] == buffer[wrOff..wrOff + n]
      modifies this`rdOff, this`wrOff, this`consumed, this`stored, this`steps, this`phase
      ensures Settled() && clock' == clock + 2
      ensures stored == old(stored) + data[done..done + n]
      ensures wrOff == if old(wrOff) + n == buffer.Length then 0 else old(wrOff) + n
      ensures old(consumed) <= consumed && |consumed| <= |old(consumed)| + Quota(host, clock, clock')
      ensures FreeBytes() >= old(FreeBytes()) - n
      ensures n == 0 && FreeBytes() == 0 && buffer.Length >= 2 ==> Idle(host, clock, clock')
    {
      hide Contents, Used, Free, Run;
      HostTurn(host(clock));
      Advance(data[done..done + n]);
      HostTurn(host(clock + 1));
      clock' := clock + 2;
      QuotaTurn(host, clock, clock);
      QuotaTurn(host, clock, clock + 1);
      WrapOffset();
    }

    /** WrOff += NumBytesToWrite: from here on the probe sees the copied bytes. */
    method Advance(bytes: seq<byte>)
      requires Busy() && |bytes| <= FreeBytes() && wrOff + |bytes| <= buffer.Length
      requires phase.copied == bytes == buffer[wrOff..wrOff + |bytes|]
      modifies this`wrOff, this`stored, this`steps, this`phase
      ensures Valid() && phase.Published? && wrOff == old(wrOff) + |bytes| && stored == old(stored) + bytes
      ensures FreeBytes() == old(FreeBytes()) - |bytes|
    {
      PublishBack(buffer[..], rdOff, wrOff, |bytes|);
      Append(Initial(initial), steps, Now(), MoveWrOff);
      hide Run;
      assert buffer[..][wrOff..wrOff + |bytes|] == bytes;
      wrOff := wrOff + |bytes|;
      stored := stored + bytes;
      steps, phase := steps + [MoveWrOff], Published;
    }

    method WrapOffset()
      requires Valid() && phase.Published?
      modifies this`wrOff, this`steps, this`phase
      ensures Settled() && FreeBytes() == old(FreeBytes())
      ensures wrOff == if old(wrOff) == buffer.Length then 0 else old(wrOff)
    {
      Append(Initial(initial), steps, Now(), CheckWrap);
      hide Run;
      steps, phase := steps + [CheckWrap], Ready;
      if wrOff == buffer.Length {
        WrapBack(buffer[..], rdOff);
        wrOff := 0;
      }
    }

    /** One pass of the write loop: read RdOff, copy what fits, move WrOff, wrap. */
    method WritePass(data: seq<byte>, done: nat, n: nat, host: Host, clock: nat) returns (k: nat, clock': nat)
      requires Settled() && 0 < n && done + n <= |data|
      modifies this`rdOff, this`wrOff, this`consumed, this`stored, this`steps, this`phase, buffer
      ensures Settled() && k <= n && clock < clock'
      ensures stored == old(stored) + data[done..done + k]
      ensures old(consumed) <= consumed && |consumed| <= |old(consumed)| + Quota(host, clock, clock')
      ensures FreeBytes() >= old(FreeBytes()) - k
      ensures Min(Min(old(FreeBytes()), buffer.Length - old(wrOff)), n) <= k
      ensures wrOff == if old(wrOff) + k == buffer.Length then 0 else old(wrOff) + k
      ensures k == 0 && buffer.Length >= 2 ==> old(FreeBytes()) == 0 && host(clock) == 0
      ensures k == 0 && FreeBytes() == 0 && buffer.Length >= 2 ==> Idle(host, clock, clock')
    {
      hide Contents, Used, Free, Run, Quota;
      var a, b;
      k, a := CountRoom(n, host, clock);
      b := CopyIn(data, done, k, host, a);
      clock' := Publish(data, done, k, host, b);
      QuotaInParts(host, clock, a, b);
      QuotaInParts(host, clock, b, clock');
    }

    /**
     * SEGGER_RTT_Write. In blocking mode the loop ends only because the probe keeps reading; the
     * other modes need at most two passes whatever the probe does, and room is the free space that
     * they find when they check it, after one turn of the probe.
     */
    method Write(data: seq<byte>, host: Host, clock: nat)
      returns (written: nat, ghost room: nat, ghost passes: nat, clock': nat)
      requires Settled() && |data| < 0x8000_0000
      requires Mode() == BLOCK ==> KeepsReading(host) && buffer.Length >= 2
      modifies this`rdOff, this`wrOff, this`consumed, this`stored, this`steps, this`phase, buffer
      ensures Settled() && clock <= clock'
      ensures written <= |data| && stored == old(stored) + data[..written]
      ensures flags % 4 == 0 ==> written == if |data| <= room then |data| else 0
      ensures flags % 4 == 1 || flags % 4 == 3 ==> written == if |data| <= room then |data| else room
      ensures flags % 4 == 2 ==> written == |data|
      ensures Mode() != BLOCK ==> passes <= 2 && clock < clock'
      ensures room == old(FreeBytes())
                      + if Mode() == BLOCK then 0 else Min(host(clock), old(buffer.Length - 1 - FreeBytes()))
      ensures old(consumed) <= consumed && |consumed| <= |old(consumed)| + Quota(host, clock, clock')
      ensures Idle(host, clock, clock') ==> consumed == old(consumed)
    {
      QuotaTurn(host, clock, clock);
      hide Contents, Used, Free, Room, Run, Quota;
      var n: nat := |data|;
      written, passes, clock', room := 0, 0, clock, FreeBytes();
      if Mode() != BLOCK {
        HostTurn(host(clock));
        clock' := clock + 1;
        QuotaTurn(host, clock, clock);
        room := FreeBytes();
        RoomIsFree(buffer.Length, rdOff, wrOff);
        IdleQuota(host, clock, clock');
        var free := Room(buffer.Length, rdOff, wrOff);
        if n > free {
          if Mode() == SKIP {
            return;
          }
          n := free;
        }
      }
      if n == 0 {
        return;
      }
      ghost var a := clock';
      passes, clock' := WriteAll(data, n, host, clock');
      QuotaInParts(host, clock, a, clock');
      IdleQuota(host, clock, clock');
      written := n;
    }

    /** The loop of SEGGER_RTT_Write, which stores the first n bytes of data. */
    method WriteAll(data: seq<byte>, n: nat, host: Host, clock: nat) returns (ghost passes: nat, clock': nat)
      requires Settled() && n <= |data|
      requires if Mode() == BLOCK then KeepsReading(host) && buffer.Length >= 2 else n <= FreeBytes()
      modifies this`rdOff, this`wrOff, this`consumed, this`stored, this`steps, this`phase, buffer
      ensures Settled() && clock <= clock'
      ensures stored == old(stored) + data[..n]
      ensures Mode() != BLOCK ==> passes <= 2
      ensures old(consumed) <= consumed && |consumed| <= |old(consumed)| + Quota(host, clock, clock')
    {
      hide Contents, Used, Free, Run, Quota, KeepsReading;
      QuotaTurn(host, clock, clock);
      assert stored + data[..0] == stored;
      var written: nat, left: nat := 0, n;
      passes, clock' := 0, clock;
      ghost var due: nat := clock;
      if Mode() == BLOCK {
        due := NextRead(host, clock);
      }
      while left != 0
        invariant Settled() && clock <= clock'
        invariant written + left == n && stored == old(stored) + data[..written]
        invariant Mode() == old(Mode())
        invariant Mode() != BLOCK ==> left <= FreeBytes() && passes <= 2
        invariant Mode() != BLOCK && left > 0 ==> passes == 0 || (passes == 1 && wrOff == 0)
        invariant Mode() == BLOCK ==> due >= clock' && host(due) > 0
        invariant old(consumed) <= consumed && |consumed| <= |old(consumed)| + Quota(host, clock, clock')
        decreases left, if FreeBytes() > 0 then 0 else due - clock' + 1
      {
        var k;
        ghost var a := clock';
        k, clock' := WritePass(data, written, left, host, clock');
        QuotaInParts(host, clock, a, clock');
        StoredMore(old(stored), data, written, k);
        written, left, passes := written + k, left - k, passes + 1;
        if Mode() == BLOCK && due < clock' {
          due := NextRead(host, clock');
        }
      }
    }
  }

  lemma SteadyProbe(host: Host)
    requires forall t: nat :: host(t) == 1
    ensures KeepsReading(host)
  {
    forall t: nat
      ensures ReadsAfter(host, t)
    {
      assert t >= t && host(t) > 0;
    }
  }

  /** Blocking mode stores data of any length through a ring of two bytes, if the probe takes one byte a tick. */
  method BlockBeyondSize(data: seq<byte>) returns (written: nat)
    requires |data| < 0x8000_0000
    ensures written == |data|
  {
    var host: Host := _ => 1;
    SteadyProbe(host);
    var ring := new UpRing(2, BLOCK);
    ghost var room, passes;
    var clock;
    written, room, passes, clock := ring.Write(data, host, 0);
  }

  lemma StoredMore(before: seq<byte>, data: seq<byte>, done: nat, k: nat)
    requires done + k <= |data|
    ensures before + data[..done] + data[done..done + k] == before + data[..done + k]
  {
    assert data[..done] + data[done..done + k] == data[..done + k];
  }

  lemma NextRead(host: Host, t: nat) returns (u: nat)
    requires KeepsReading(host)
    ensures u >= t && host(u) > 0
  {
    assert ReadsAfter(host, t);
    u :| u >= t && host(u) > 0;
  }
}
