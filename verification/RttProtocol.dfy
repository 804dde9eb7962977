/**
 * The up-ring as a protocol: every interleaving of the single steps of the write loop with the
 * debug probe, from an empty ring.
 */
module RttProtocol {
  import opened Numbers
  import opened RttRing

  /** Where the writer stands inside the loop of SEGGER_RTT_Write. */
  datatype Phase =
    | Ready                                   // about to read RdOff
    | Copying(room: nat, copied: seq<byte>)   // found room free slots, filled |copied| of them
    | Published                               // WrOff moved, wrap-around not checked yet

  datatype State = State(buf: seq<byte>, rd: nat, wr: nat, phase: Phase, consumed: seq<byte>)

  datatype Step =
    | HostTakes(n: nat)   // the probe takes n unread bytes and moves RdOff
    | ReadRdOff           // the writer counts the free slots up to the end of the buffer
    | CopyByte(x: byte)   // one byte of MEMCPY
    | MoveWrOff           // WrOff += NumBytesToWrite
    | CheckWrap           // WrOff back to 0 at the end of the buffer

  function Unread(s: State): seq<byte>
    requires Offsets(|s.buf|, s.rd, s.wr)
  {
    Contents(s.buf, s.rd, s.wr)
  }

  ghost predicate Inv(s: State) {
    && Offsets(|s.buf|, s.rd, s.wr)
    && (s.phase != Published ==> s.wr < |s.buf|)
    && (s.phase.Copying? ==>
          && |s.phase.copied| <= s.phase.room <= Free(|s.buf|, s.rd, s.wr)
          && s.wr + s.phase.room <= |s.buf|
          && s.buf[s.wr..s.wr + |s.phase.copied|] == s.phase.copied)
  }

  predicate Enabled(s: State, step: Step) {
    match step
    case HostTakes(n) => Offsets(|s.buf|, s.rd, s.wr) && n <= Used(|s.buf|, s.rd, s.wr)
    case ReadRdOff => s.phase.Ready? && Room(|s.buf|, s.rd, s.wr) >= 0 && s.wr <= |s.buf|
    case CopyByte(_) => s.phase.Copying? && |s.phase.copied| < s.phase.room && s.wr + |s.phase.copied| < |s.buf|
    case MoveWrOff => s.phase.Copying?
    case CheckWrap => s.phase.Published?
  }

  function Apply(s: State, step: Step): State
    requires Enabled(s, step)
  {
    match step
    case HostTakes(n) =>
      s.(rd := Slot(|s.buf|, s.rd, n), consumed := s.consumed + Unread(s)[..n])
    case ReadRdOff =>
      var room := Room(|s.buf|, s.rd, s.wr);
      s.(phase := Copying(if room < |s.buf| - s.wr then room else |s.buf| - s.wr, []))
    case CopyByte(x) =>
      s.(buf := s.buf[s.wr + |s.phase.copied| := x], phase := s.phase.(copied := s.phase.copied + [x]))
    case MoveWrOff =>
      s.(wr := s.wr + |s.phase.copied|, phase := Published)
    case CheckWrap =>
      s.(wr := if s.wr == |s.buf| then 0 else s.wr, phase := Ready)
  }

  ghost predicate Run(s: State, steps: seq<Step>, t: State)
    decreases |steps|
  {
    if steps == [] then s == t
    else Enabled(s, steps[0]) && Run(Apply(s, steps[0]), steps[1..], t)
  }

  /** All bytes handed to the copy steps of a run, in order. */
  function Written(steps: seq<Step>): seq<byte> {
    if steps == [] then []
    else (if steps[0].CopyByte? then [steps[0].x] else []) + Written(steps[1..])
  }

  /** Bytes copied behind the unread ones but not published yet. */
  function InFlight(s: State): seq<byte> {
    if s.phase.Copying? then s.phase.copied else []
  }

  /** All bytes the writer has put into the ring so far. */
  function Produced(s: State): seq<byte>
    requires Offsets(|s.buf|, s.rd, s.wr)
  {
    s.consumed + Unread(s) + InFlight(s)
  }

  /** What one step owes: the invariant, no byte lost or invented, nothing untaken. */
  ghost predicate Sound(s: State, step: Step)
    requires Inv(s) && Enabled(s, step)
  {
    var t := Apply(s, step);
    && Inv(t) && |t.buf| == |s.buf|
    && Produced(t) == Produced(s) + Written([step])
    && s.consumed <= t.consumed
  }

  /** Moving the first n unread bytes over to the consumed ones. */
  lemma Retaken(consumed: seq<byte>, unread: seq<byte>, n: nat, more: seq<byte>)
    requires n <= |unread|
    ensures (consumed + unread[..n]) + unread[n..] + more == consumed + unread + more
  {}

  lemma HostStep(s: State, n: nat)
    requires Inv(s) && Enabled(s, HostTakes(n))
    ensures Sound(s, HostTakes(n))
  {
    var t := Apply(s, HostTakes(n));
    TakeFront(s.buf, s.rd, s.wr, n);
    Retaken(s.consumed, Unread(s), n, InFlight(s));
  }

  lemma CopyStep(s: State, x: byte)
    requires Inv(s) && Enabled(s, CopyByte(x))
    ensures Sound(s, CopyByte(x)) && Unread(Apply(s, CopyByte(x))) == Unread(s)
  {
    var t := Apply(s, CopyByte(x));
    FillFree(s.buf, s.rd, s.wr, |s.phase.copied|, x);
    assert t.buf[t.wr..t.wr + |t.phase.copied|] == t.phase.copied;
    assert Written([CopyByte(x)]) == [x];
  }

  lemma MoveStep(s: State)
    requires Inv(s) && Enabled(s, MoveWrOff)
    ensures Sound(s, MoveWrOff) && Unread(s) <= Unread(Apply(s, MoveWrOff))
  {
    var t := Apply(s, MoveWrOff);
    PublishBack(s.buf, s.rd, s.wr, |s.phase.copied|);
    assert Unread(t) == Unread(s) + InFlight(s);
    assert Produced(t) == Produced(s);
  }

  lemma WrapStep(s: State)
    requires Inv(s) && Enabled(s, CheckWrap)
    ensures Sound(s, CheckWrap) && Unread(Apply(s, CheckWrap)) == Unread(s)
  {
    if s.wr == |s.buf| { WrapBack(s.buf, s.rd); }
  }

  lemma StepIsSound(s: State, step: Step)
    requires Inv(s) && Enabled(s, step)
    ensures Sound(s, step)
  {
    match step
    case HostTakes(n) => HostStep(s, n);
    case ReadRdOff => RoomIsFree(|s.buf|, s.rd, s.wr);
    case CopyByte(x) => CopyStep(s, x);
    case MoveWrOff => MoveStep(s);
    case CheckWrap => WrapStep(s);
  }

  /** No step of the writer changes or hides a byte the probe has still to read. */
  lemma UnreadBytesSurvive(s: State, step: Step)
    requires Inv(s) && Enabled(s, step) && !step.HostTakes?
    ensures Inv(Apply(s, step))
    ensures Unread(s) <= Unread(Apply(s, step)) && Apply(s, step).consumed == s.consumed
  {
    StepIsSound(s, step);
    match step
    case CopyByte(x) => CopyStep(s, x);
    case MoveWrOff => MoveStep(s);
    case CheckWrap => WrapStep(s);
    case _ =>
  }

  function Initial(buf: seq<byte>): State { State(buf, 0, 0, Ready, []) }

  lemma {:induction false} RunKeepsInv(s: State, steps: seq<Step>, t: State)
    requires Inv(s) && Run(s, steps, t)
    ensures Inv(t) && Produced(t) == Produced(s) + Written(steps)
    ensures s.consumed <= t.consumed && |t.buf| == |s.buf|
    decreases |steps|
  {
    hide Apply, Enabled, Produced, Contents, Used;
    if steps != [] {
      var m := Apply(s, steps[0]);
      StepIsSound(s, steps[0]);
      RunKeepsInv(m, steps[1..], t);
      WrittenCons(steps);
      assert Produced(t) == Produced(s) + Written([steps[0]]) + Written(steps[1..]);
    }
  }

  lemma WrittenCons(steps: seq<Step>)
    requires steps != []
    ensures Written(steps) == Written([steps[0]]) + Written(steps[1..])
  {
    assert [steps[0]][1..] == [];
  }

  /**
   * Over every run: what the probe took, what is unread and what is being copied are together
   * exactly the bytes written, in order, and the ring never holds more than size - 1 bytes.
   */
  lemma EveryRunIsLossless(buf: seq<byte>, steps: seq<Step>, t: State)
    requires |buf| > 0 && Run(Initial(buf), steps, t)
    ensures Inv(t) && t.consumed + Unread(t) + InFlight(t) == Written(steps)
    ensures |Unread(t)| <= |buf| - 1
  {
    RunKeepsInv(Initial(buf), steps, t);
  }

  /** A run goes on with one more step. */
  lemma {:induction false} Append(s: State, steps: seq<Step>, t: State, step: Step)
    requires Run(s, steps, t) && Enabled(t, step)
    ensures Run(s, steps + [step], Apply(t, step))
    decreases |steps|
  {
    if steps == [] {
      assert [step][1..] == [];
    } else {
      Append(Apply(s, steps[0]), steps[1..], t, step);
      assert (steps + [step])[1..] == steps[1..] + [step];
    }
  }

  lemma Prepend(s: State, step: Step, rest: seq<Step>, t: State)
    requires Enabled(s, step) && Run(Apply(s, step), rest, t)
    ensures Run(s, [step] + rest, t)
  {
    assert ([step] + rest)[1..] == rest;
  }

  /**
   * The moment in which a probe is misled that takes the difference of the offsets at face value is
   * reached: here by two single bytes through a ring of two, the second taken before the wrap.
   */
  lemma MisleadingMoment(x: byte, y: byte) returns (steps: seq<Step>, t: State)
    ensures Run(Initial([0, 0]), steps, t) && |t.buf| == 2
    ensures t.wr == |t.buf| && t.rd == 0 && Unread(t) == [] && LinearUsed(|t.buf|, t.rd, t.wr) == 2
  {
    t := State([x, y], 0, 2, Published, [x, y]);
    steps := [];
    var wrote := State([x, y], 1, 2, Published, [x]);
    assert Contents([x, y], 1, 2) == [y] && [x] + [y][..1] == [x, y];
    assert Apply(wrote, HostTakes(1)) == t;
    Prepend(wrote, HostTakes(1), steps, t);
    steps := [HostTakes(1)] + steps;
    steps := OneByte([x, 0], [x, y], 1, 1, y, [x], steps, t);
    Prepend(State([x, 0], 1, 1, Published, [x]), CheckWrap, steps, t);
    steps := [CheckWrap] + steps;
    var before := State([x, 0], 0, 1, Published, []);
    assert Contents([x, 0], 0, 1) == [x] && [] + [x][..1] == [x];
    assert Apply(before, HostTakes(1)) == State([x, 0], 1, 1, Published, [x]);
    Prepend(before, HostTakes(1), steps, t);
    steps := [HostTakes(1)] + steps;
    steps := OneByte([0, 0], [x, 0], 0, 0, x, [], steps, t);
  }

  /** One byte written into a ring of two. */
  lemma OneByte(buf: seq<byte>, now: seq<byte>, rd: nat, wr: nat, x: byte, consumed: seq<byte>,
                rest: seq<Step>, t: State)
    returns (steps: seq<Step>)
    requires |buf| == 2 && rd == wr < 2 && now == buf[wr := x]
    requires Run(State(now, rd, wr + 1, Published, consumed), rest, t)
    ensures Run(State(buf, rd, wr, Ready, consumed), steps, t)
  {
    assert [] + [x] == [x];
    steps := [MoveWrOff] + rest;
    Prepend(State(now, rd, wr, Copying(1, [x]), consumed), MoveWrOff, rest, t);
    Prepend(State(buf, rd, wr, Copying(1, []), consumed), CopyByte(x), steps, t);
    steps := [CopyByte(x)] + steps;
    Prepend(State(buf, rd, wr, Ready, consumed), ReadRdOff, steps, t);
    steps := [ReadRdOff] + steps;
  }
}
