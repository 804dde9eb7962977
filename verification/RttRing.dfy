/**
 * A ring of bytes between one writer and one reader. Offsets are as in RING_BUFFER: rd is where
 * the reader takes its next byte, wr where the writer puts its next one, and one slot stays empty.
 * The writer publishes wr == size for a moment before it wraps to 0.
 */
module RttRing {
  import opened Numbers

  predicate Offsets(size: nat, rd: int, wr: int) {
    0 <= rd < size && 0 <= wr <= size
  }

  /** Number of unread bytes; wr == size stands for wr == 0. */
  function Used(size: nat, rd: nat, wr: nat): (n: nat)
    requires Offsets(size, rd, wr)
    ensures n < size
  {
    if wr < rd then wr + size - rd else if wr - rd == size then 0 else wr - rd
  }

  function Free(size: nat, rd: nat, wr: nat): (n: nat)
    requires Offsets(size, rd, wr)
    ensures n < size
  {
    size - 1 - Used(size, rd, wr)
  }

  /** Index of the i-th slot after off. */
  function Slot(size: nat, off: nat, i: nat): (k: nat)
    requires off <= size && i < size
    ensures k < size
  {
    if off + i < size then off + i else off + i - size
  }

  /** The unread bytes, oldest first. */
  function Contents(buf: seq<byte>, rd: nat, wr: nat): (s: seq<byte>)
    requires Offsets(|buf|, rd, wr)
    ensures |s| == Used(|buf|, rd, wr)
  {
    seq(Used(|buf|, rd, wr), i requires 0 <= i < Used(|buf|, rd, wr) => buf[Slot(|buf|, rd, i)])
  }

  /** The reader moves rd past n unread bytes. */
  lemma TakeFront(buf: seq<byte>, rd: nat, wr: nat, n: nat)
    requires Offsets(|buf|, rd, wr) && n <= Used(|buf|, rd, wr)
    ensures Offsets(|buf|, Slot(|buf|, rd, n), wr)
    ensures Contents(buf, Slot(|buf|, rd, n), wr) == Contents(buf, rd, wr)[n..]
  {}

  /** A slot the writer may fill holds no unread byte. */
  lemma FillFree(buf: seq<byte>, rd: nat, wr: nat, i: nat, x: byte)
    requires Offsets(|buf|, rd, wr) && i < Free(|buf|, rd, wr) && wr + i < |buf|
    ensures Contents(buf[wr + i := x], rd, wr) == Contents(buf, rd, wr)
  {}

  /** The writer moves wr over n filled slots. */
  lemma PublishBack(buf: seq<byte>, rd: nat, wr: nat, n: nat)
    requires Offsets(|buf|, rd, wr) && wr < |buf| && n <= Free(|buf|, rd, wr) && wr + n <= |buf|
    ensures Contents(buf, rd, wr + n) == Contents(buf, rd, wr) + buf[wr..wr + n]
  {
    assert Used(|buf|, rd, wr + n) == Used(|buf|, rd, wr) + n;
  }

  /** Wrapping wr from the end of the buffer to its start changes nothing for the reader. */
  lemma WrapBack(buf: seq<byte>, rd: nat)
    requires rd < |buf|
    ensures Contents(buf, rd, |buf|) == Contents(buf, rd, 0)
  {}

  /** RdOff - WrOff - 1, plus the size when negative: the writer's own count of free slots. */
  function Room(size: nat, rd: nat, wr: nat): int {
    if rd - wr - 1 < 0 then rd - wr - 1 + size else rd - wr - 1
  }

  /** The count is right for every offset pair the writer can read, and stale reads only underestimate it. */
  lemma RoomIsFree(size: nat, rd: nat, wr: nat)
    requires Offsets(size, rd, wr) && wr < size
    ensures Room(size, rd, wr) == Free(size, rd, wr)
  {}

  /** A reader that takes the difference of the offsets at face value. */
  function LinearUsed(size: nat, rd: nat, wr: nat): int {
    if wr < rd then wr + size - rd else wr - rd
  }

  /**
   * While wr == size is visible such a reader is wrong exactly when it has already taken
   * everything up to the end of the buffer: it then counts a full buffer of stale bytes.
   */
  lemma LinearReaderMisled(size: nat, rd: nat, wr: nat)
    requires Offsets(size, rd, wr)
    ensures LinearUsed(size, rd, wr) == Used(size, rd, wr) <==> !(wr == size && rd == 0)
  {}
}
