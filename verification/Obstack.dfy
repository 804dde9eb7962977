/**
 * The obstack macros: objects grow at the end of a chunk of memory, are finished in place, and
 * are freed in the opposite order. Memory is a function from addresses to bytes; a chunk is an
 * address range whose header keeps objects out of its first bytes.
 */
module Obstack {
  import opened Numbers
  import BitCount

  type Memory = int -> byte

  /** A chunk occupies addresses from start to limit; its objects begin at contents. */
  datatype Chunk = Chunk(start: nat, contents: nat, limit: nat)

  /** A finished object, with the bytes it had when it was finished. */
  datatype Object = Object(chunk: nat, address: nat, bytes: seq<byte>)

  function Load(mem: Memory, at: int, n: nat): (s: seq<byte>)
    ensures |s| == n
  {
    seq(n, i => mem(at + i))
  }

  function Store(mem: Memory, at: int, bytes: seq<byte>): Memory {
    p => if at <= p < at + |bytes| then bytes[p - at] else mem(p)
  }

  lemma LoadStored(mem: Memory, at: int, bytes: seq<byte>)
    ensures Load(Store(mem, at, bytes), at, |bytes|) == bytes
  {}

  lemma LoadElsewhere(mem: Memory, at: int, bytes: seq<byte>, p: int, n: nat)
    requires p + n <= at || at + |bytes| <= p
    ensures Load(Store(mem, at, bytes), p, n) == Load(mem, p, n)
  {}

  predicate Apart(a: Chunk, b: Chunk) { a.limit <= b.start || b.limit <= a.start }

  /** p rounded up to the alignment; see MaskRoundsUp for the expression with the mask. */
  function Align(p: nat, alignment: nat): nat
    requires alignment > 0
  {
    if p % alignment == 0 then p else p + (alignment - p % alignment)
  }

  lemma AlignRoundsUp(p: nat, alignment: nat)
    requires alignment > 0
    ensures p <= Align(p, alignment) < p + alignment && Align(p, alignment) % alignment == 0
  {
    var r := p % alignment;
    assert p == (p / alignment) * alignment + r;
    if r != 0 {
      assert (p / alignment + 1) * alignment == (p / alignment) * alignment + alignment;
      DivModUnique(p + (alignment - r), alignment, p / alignment + 1, 0);
    }
  }

  /**
   * (p + mask) & ~mask in words of w bits: the mask has the low k bits set, so the alignment is a
   * power of two, and p + mask does not leave the word.
   */
  lemma MaskRoundsUp(w: nat, k: nat, p: nat, mask: nat)
    requires k <= w && mask == Pow2(k) - 1 && p + mask < Pow2(w)
    ensures mask < Pow2(w)
    ensures BitCount.And(p + mask, Pow2(w) - 1 - mask) == Align(p, mask + 1)
  {
    PowPositive(2, k);
    BitCount.ClearLowBits(w, k, p + mask, Pow2(w) - 1 - mask);
    RoundedDown(p, mask + 1);
  }

  lemma RoundedDown(p: nat, a: nat)
    requires a > 0
    ensures (p + a - 1) - (p + a - 1) % a == Align(p, a)
  {
    var q, r := p / a, p % a;
    assert p == q * a + r;
    if r == 0 {
      DivModUnique(p + a - 1, a, q, a - 1);
    } else {
      assert (q + 1) * a == q * a + a;
      DivModUnique(p + a - 1, a, q + 1, r - 1);
    }
  }

  predicate WellPlaced(c: Chunk, alignment: nat)
    requires alignment > 0
  {
    c.start < c.contents <= c.limit && c.contents % alignment == 0
  }

  /** obstack_chunk_alloc and the chunk sizing of _obstack_newchunk: where the next chunk lies. */
  type Allocator = (seq<Chunk>, nat) -> Chunk

  /** A new chunk is aligned, clear of all the others and has the room asked for. */
  ghost predicate GoodAllocator(alloc: Allocator, alignment: nat)
    requires alignment > 0
  {
    forall chunks: seq<Chunk>, need: nat {:trigger alloc(chunks, need)} ::
      var c := alloc(chunks, need);
      && WellPlaced(c, alignment) && c.contents + need <= c.limit
      && forall i :: 0 <= i < |chunks| ==> Apart(c, chunks[i])
  }

  /** Behind all chunks. */
  function Past(chunks: seq<Chunk>): (p: nat)
    ensures forall i :: 0 <= i < |chunks| ==> chunks[i].limit <= p
  {
    if chunks == [] then 0 else Max(chunks[|chunks| - 1].limit, Past(chunks[..|chunks| - 1]))
  }

  function PlaceBehind(chunks: seq<Chunk>, need: nat, alignment: nat): Chunk
    requires alignment > 0
  {
    var contents := Align(Past(chunks) + 1, alignment);
    Chunk(Past(chunks), contents, contents + need)
  }

  /** Such an allocator exists: it goes on behind all the chunks it has handed out. */
  lemma GoodAllocatorExists(alignment: nat)
    requires alignment > 0
    ensures GoodAllocator((chunks: seq<Chunk>, need: nat) => PlaceBehind(chunks, need, alignment), alignment)
  {
    forall chunks: seq<Chunk>, need: nat
      ensures var c := PlaceBehind(chunks, need, alignment);
        && WellPlaced(c, alignment) && c.contents + need <= c.limit
        && forall i :: 0 <= i < |chunks| ==> Apart(c, chunks[i])
    {
      AlignRoundsUp(Past(chunks) + 1, alignment);
    }
  }

  /** Where the pieces of memory lie, independent of what they hold. */
  ghost predicate Layout(chunks: seq<Chunk>, base: nat, next: nat, limit: nat, alignment: nat) {
    && alignment > 0 && |chunks| > 0
    && (forall i :: 0 <= i < |chunks| ==> WellPlaced(chunks[i], alignment))
    && (forall i, j :: 0 <= i < j < |chunks| ==> Apart(chunks[i], chunks[j]))
    && limit == chunks[|chunks| - 1].limit
    && chunks[|chunks| - 1].contents <= base <= next <= limit
    && (base % alignment == 0 || base == limit)
  }

  /** A finished object lies in its chunk, below the growing object, aligned unless it is empty at the very end. */
  ghost predicate Placed(o: Object, chunks: seq<Chunk>, base: nat, alignment: nat)
    requires alignment > 0
  {
    && o.chunk < |chunks|
    && chunks[o.chunk].contents <= o.address
    && o.address + |o.bytes| <= chunks[o.chunk].limit
    && (o.chunk == |chunks| - 1 ==> o.address + |o.bytes| <= base)
    && (o.address % alignment == 0 || o.address == chunks[o.chunk].limit)
  }

  /** o was finished before p: not in a later chunk, and below it in the same one. */
  predicate Before(o: Object, p: Object) {
    o.chunk < p.chunk || (o.chunk == p.chunk && o.address + |o.bytes| <= p.address)
  }

  ghost predicate Stacked(live: seq<Object>, chunks: seq<Chunk>, base: nat, alignment: nat)
    requires alignment > 0
  {
    && (forall i :: 0 <= i < |live| ==> Placed(live[i], chunks, base, alignment))
    && (forall i, j :: 0 <= i < j < |live| ==> Before(live[i], live[j]))
  }

  ghost predicate Intact(live: seq<Object>, mem: Memory) {
    forall i :: 0 <= i < |live| ==> Load(mem, live[i].address, |live[i].bytes|) == live[i].bytes
  }

  /** Only the flag tells that the current chunk may hold empty objects. */
  ghost predicate EmptiesFlagged(live: seq<Object>, last: int, flag: bool) {
    !flag ==> forall i :: 0 <= i < |live| && live[i].chunk == last ==> live[i].bytes != []
  }

  lemma ChunkGiven(alloc: Allocator, alignment: nat, chunks: seq<Chunk>, need: nat, c: Chunk)
    requires alignment > 0 && GoodAllocator(alloc, alignment) && c == alloc(chunks, need)
    ensures WellPlaced(c, alignment) && c.contents + need <= c.limit
    ensures forall i :: 0 <= i < |chunks| ==> Apart(c, chunks[i])
  {}

  class Stack {
    const alignment: nat
    const alloc: Allocator
    var mem: Memory
    var chunks: seq<Chunk>       // the chunk list, the current chunk last
    var objectBase: nat
    var nextFree: nat
    var chunkLimit: nat
    var maybeEmptyObject: bool
    ghost var live: seq<Object>  // the finished objects that have not been freed, oldest first

    ghost predicate Valid()
      reads this
    {
      && Layout(chunks, objectBase, nextFree, chunkLimit, alignment)
      && GoodAllocator(alloc, alignment)
      && Stacked(live, chunks, objectBase, alignment)
      && Intact(live, mem)
      && EmptiesFlagged(live, |chunks| - 1, maybeEmptyObject)
    }

    /** The bytes of the object being built. */
    function Growing(): seq<byte>
      requires objectBase <= nextFree
      reads this
    {
      Load(mem, objectBase, nextFree - objectBase)
    }

    /** The chunk list once there is room for n more bytes. */
    function ChunksWith(n: nat): seq<Chunk>
      requires |chunks| > 0 && objectBase <= nextFree
      reads this
    {
      if nextFree + n <= chunkLimit then chunks
      else
        (if !maybeEmptyObject && objectBase == chunks[|chunks| - 1].contents then chunks[..|chunks| - 1] else chunks)
        + [alloc(chunks, nextFree - objectBase + n)]
    }

    /** With room for n more bytes the growing object stays; otherwise it starts a new chunk. */
    twostate predicate Stays(n: nat)
      requires old(|chunks| > 0 && objectBase <= nextFree) && |chunks| > 0
      reads this
    {
      && chunks == old(ChunksWith(n))
      && if old(nextFree + n <= chunkLimit) then
           objectBase == old(objectBase) && maybeEmptyObject == old(maybeEmptyObject)
         else objectBase == chunks[|chunks| - 1].contents && !maybeEmptyObject
    }

    constructor (alignment: nat, alloc: Allocator, mem: Memory)
      requires alignment > 0 && GoodAllocator(alloc, alignment)
      ensures Valid() && live == [] && Growing() == []
      ensures this.alignment == alignment && this.alloc == alloc
    {
      this.alignment, this.alloc, this.mem := alignment, alloc, mem;
      var c := alloc([], 0);
      chunks, objectBase, nextFree, chunkLimit := [c], c.contents, c.contents, c.limit;
      maybeEmptyObject, live := false, [];
    }

    /**
     * _obstack_newchunk: a chunk with room for n more bytes takes over the growing object. The old
     * chunk is given up when it held nothing else and the flag does not warn of empty objects.
     */
    method NewChunk(n: nat)
      requires Valid()
      modifies this
      ensures Valid() && nextFree + n <= chunkLimit
      ensures Growing() == old(Growing()) && live == old(live)
      ensures chunks == (if !old(maybeEmptyObject) && old(objectBase) == old(chunks)[|old(chunks)| - 1].contents
                         then old(chunks)[..|old(chunks)| - 1] else old(chunks))
                        + [alloc(old(chunks), |old(Growing())| + n)]
      ensures objectBase == chunks[|chunks| - 1].contents && !maybeEmptyObject
      ensures forall p: int :: !(chunks[|chunks| - 1].start <= p < chunkLimit) ==> mem(p) == old(mem)(p)
    {
      hide Stacked, Intact, EmptiesFlagged, Load;
      var size := nextFree - objectBase;
      var c := alloc(chunks, size + n);
      ChunkGiven(alloc, alignment, chunks, size + n, c);
      hide GoodAllocator;
      ghost var text := Growing();
      StoreKeepsLive(live, chunks, objectBase, alignment, mem, c.contents, text, c);
      LoadStored(mem, c.contents, text);
      mem := Store(mem, c.contents, Load(mem, objectBase, size));
      if !maybeEmptyObject && objectBase == chunks[|chunks| - 1].contents {
        NothingLeftBehind(live, chunks, objectBase, nextFree, chunkLimit, alignment, c, size);
        chunks := chunks[..|chunks| - 1] + [c];
      } else {
        LeftBehind(live, chunks, objectBase, nextFree, chunkLimit, alignment, c, size);
        chunks := chunks + [c];
      }
      objectBase, nextFree, chunkLimit := c.contents, c.contents + size, c.limit;
      maybeEmptyObject := false;
    }

    /** memcpy to next_free, next_free += n: the room is there. */
    method Append(data: seq<byte>)
      requires Valid() && nextFree + |data| <= chunkLimit
      modifies this`mem, this`nextFree
      ensures Valid() && Growing() == old(Growing()) + data && nextFree == old(nextFree) + |data|
    {
      StoreAboveLive(live, chunks, objectBase, nextFree, chunkLimit, alignment, mem, data);
      LoadStored(mem, nextFree, data);
      LoadElsewhere(mem, nextFree, data, objectBase, nextFree - objectBase);
      LoadSplit(Store(mem, nextFree, data), objectBase, nextFree - objectBase, |data|);
      mem := Store(mem, nextFree, data);
      nextFree := nextFree + |data|;
    }

    /** obstack_grow */
    method Grow(data: seq<byte>)
      requires Valid()
      modifies this
      ensures Valid() && Growing() == old(Growing()) + data && live == old(live)
      ensures Stays(|data|)
    {
      if nextFree + |data| > chunkLimit {
        NewChunk(|data|);
      }
      Append(data);
    }

    /** obstack_grow0 */
    method Grow0(data: seq<byte>)
      requires Valid()
      modifies this
      ensures Valid() && Growing() == old(Growing()) + data + [0] && live == old(live)
      ensures Stays(|data| + 1)
    {
      if nextFree + |data| + 1 > chunkLimit {
        NewChunk(|data| + 1);
      }
      Append(data);
      Append([0]);
    }

    /** obstack_1grow */
    method OneGrow(datum: byte)
      requires Valid()
      modifies this
      ensures Valid() && Growing() == old(Growing()) + [datum] && live == old(live)
      ensures Stays(1)
    {
      if nextFree + 1 > chunkLimit {
        NewChunk(1);
      }
      Append([datum]);
    }

    /** obstack_blank: the new bytes are whatever the memory holds. */
    method Blank(n: nat)
      requires Valid()
      modifies this
      ensures Valid() && old(Growing()) <= Growing() && |Growing()| == |old(Growing())| + n && live == old(live)
      ensures Stays(n)
    {
      if chunkLimit - nextFree < n {
        NewChunk(n);
      }
      LoadSplit(mem, objectBase, nextFree - objectBase, n);
      nextFree := nextFree + n;
    }

    /** obstack_finish */
    method Finish() returns (value: nat)
      requires Valid()
      modifies this`nextFree, this`objectBase, this`maybeEmptyObject, this`live
      ensures Valid() && value == old(objectBase) && Growing() == [] && objectBase == nextFree
      ensures old(nextFree) <= nextFree < old(nextFree) + alignment
      ensures nextFree == Min(Align(old(nextFree), alignment), chunkLimit)
      ensures nextFree % alignment != 0 ==> nextFree == chunkLimit < Align(old(nextFree), alignment)
      ensures live == old(live) + [Object(|chunks| - 1, value, old(Growing()))]
      ensures old(maybeEmptyObject) ==> maybeEmptyObject
      ensures old(Growing()) != [] ==> value % alignment == 0 && maybeEmptyObject == old(maybeEmptyObject)
    {
      value := objectBase;
      ghost var o := Object(|chunks| - 1, value, Growing());
      FinishStacks(live, chunks, objectBase, nextFree, chunkLimit, alignment, mem, o, maybeEmptyObject);
      live := live + [o];
      if nextFree == value {
        maybeEmptyObject := true;
      }
      AlignRoundsUp(nextFree, alignment);
      nextFree := Align(nextFree, alignment);
      if nextFree > chunkLimit {
        nextFree := chunkLimit;
      }
      objectBase := nextFree;
    }

    /** obstack_alloc */
    method Alloc(n: nat) returns (value: nat)
      requires Valid()
      modifies this
      ensures Valid() && Growing() == [] && |live| == |old(live)| + 1 && live[..|live| - 1] == old(live)
      ensures var o := live[|live| - 1];
        o.address == value && old(Growing()) <= o.bytes && |o.bytes| == |old(Growing())| + n
      ensures n > 0 ==> value % alignment == 0
      ensures chunks == old(ChunksWith(n))
      ensures value == if old(nextFree + n <= chunkLimit) then old(objectBase) else chunks[|chunks| - 1].contents
    {
      Blank(n);
      value := Finish();
    }

    /** obstack_copy */
    method Copy(data: seq<byte>) returns (value: nat)
      requires Valid()
      modifies this
      ensures Valid() && Growing() == []
      ensures live == old(live) + [Object(|chunks| - 1, value, old(Growing()) + data)]
      ensures old(Growing()) + data != [] ==> value % alignment == 0
      ensures chunks == old(ChunksWith(|data|))
      ensures value == if old(nextFree + |data| <= chunkLimit) then old(objectBase)
                       else chunks[|chunks| - 1].contents
      ensures objectBase == nextFree == Min(Align(value + |old(Growing())| + |data|, alignment), chunkLimit)
      ensures old(nextFree) + |data| <= old(chunkLimit) && old(Growing()) + data != [] ==>
                maybeEmptyObject == old(maybeEmptyObject)
    {
      Grow(data);
      value := Finish();
    }

    /** Two copies that fit lie side by side: the second at the first aligned address behind the first. */
    method TwoCopies(a: seq<byte>, b: seq<byte>) returns (p: nat, q: nat)
      requires Valid() && Growing() == [] && a != [] && b != []
      requires Align(nextFree + |a|, alignment) + |b| <= chunkLimit
      modifies this
      ensures Valid() && chunks == old(chunks)
      ensures live == old(live) + [Object(|chunks| - 1, p, a), Object(|chunks| - 1, q, b)]
      ensures p == old(objectBase) && p % alignment == 0
      ensures p + |a| <= q < p + |a| + alignment && q % alignment == 0
    {
      hide Stacked, Intact, EmptiesFlagged, GoodAllocator, Load, Align;
      AlignRoundsUp(nextFree + |a|, alignment);
      NothingBefore(a);
      NothingBefore(b);
      p := Copy(a);
      q := Copy(b);
      Reassociate(old(live), [Object(|chunks| - 1, p, a)], [Object(|chunks| - 1, q, b)]);
    }

    /**
     * obstack_free of a finished object i: the comparison of its address with the bounds of the
     * current chunk finds exactly the objects of that chunk, but for an empty one at its very end.
     * The object and everything finished or begun after it is gone. All others are left to the
     * out-of-line function.
     */
    method Free(obj: nat, ghost i: nat) returns (handled: bool)
      requires Valid() && i < |live| && obj == live[i].address
      modifies this`nextFree, this`objectBase, this`live
      ensures handled == (old(live)[i].chunk == |chunks| - 1 && obj < chunkLimit)
      ensures handled ==> Valid() && live == old(live)[..i] && Growing() == [] && objectBase == nextFree == obj
      ensures !handled ==> Valid() && live == old(live) && nextFree == old(nextFree) && objectBase == old(objectBase)
    {
      OwnChunk(i);
      handled := chunks[|chunks| - 1].start < obj < chunkLimit;
      if handled {
        FreedLayout(live, chunks, objectBase, alignment, i);
        nextFree, objectBase := obj, obj;
        live := live[..i];
      }
    }

    /** An object lies between the bounds of the current chunk only if that is its own chunk. */
    lemma OwnChunk(i: nat)
      requires Valid() && i < |live|
      ensures chunks[|chunks| - 1].start < live[i].address < chunkLimit
          <==> live[i].chunk == |chunks| - 1 && live[i].address < chunkLimit
    {
      assert Placed(live[i], chunks, objectBase, alignment);
      assert WellPlaced(chunks[live[i].chunk], alignment);
    }

    /** Freeing a non-empty object that fitted the chunk restores the state before its allocation. */
    method CopyThenFree(data: seq<byte>)
      requires Valid() && Growing() == [] && data != [] && nextFree + |data| <= chunkLimit
      modifies this
      ensures Valid() && live == old(live) && Growing() == [] && chunks == old(chunks)
      ensures objectBase == old(objectBase) && nextFree == old(nextFree) && chunkLimit == old(chunkLimit)
      ensures maybeEmptyObject == old(maybeEmptyObject)
    {
      var value := Copy(data);
      ghost var n := |live| - 1;
      assert Placed(live[n], chunks, objectBase, alignment);
      var _ := Free(value, n);
    }

    /** Finished objects share no byte with each other or with the growing object. */
    lemma NoOverlap(i: nat, j: nat, p: int)
      requires Valid() && i < |live|
      requires live[i].address <= p < live[i].address + |live[i].bytes|
      ensures !(objectBase <= p < nextFree)
      ensures j < |live| && j != i ==> !(live[j].address <= p < live[j].address + |live[j].bytes|)
      ensures mem(p) == live[i].bytes[p - live[i].address]
    {
      assert Placed(live[i], chunks, objectBase, alignment);
      assert Load(mem, live[i].address, |live[i].bytes|)[p - live[i].address] == mem(p);
      if j < |live| && j != i {
        assert Placed(live[j], chunks, objectBase, alignment);
        assert if i < j then Before(live[i], live[j]) else Before(live[j], live[i]);
      }
    }
  }

  lemma NothingBefore(a: seq<byte>)
    ensures [] + a == a
  {}

  /** A chunk whose objects start where the growing one starts holds no finished object. */
  lemma NothingLeftBehind(live: seq<Object>, chunks: seq<Chunk>, base: nat, next: nat, limit: nat, alignment: nat,
                          c: Chunk, size: nat)
    requires Layout(chunks, base, next, limit, alignment) && Stacked(live, chunks, base, alignment)
    requires EmptiesFlagged(live, |chunks| - 1, false) && base == chunks[|chunks| - 1].contents
    requires WellPlaced(c, alignment) && c.contents + size <= c.limit
    requires forall i :: 0 <= i < |chunks| ==> Apart(c, chunks[i])
    ensures var now := chunks[..|chunks| - 1] + [c];
      && Layout(now, c.contents, c.contents + size, c.limit, alignment)
      && Stacked(live, now, c.contents, alignment)
      && EmptiesFlagged(live, |now| - 1, false)
  {
    var now := chunks[..|chunks| - 1] + [c];
    forall i | 0 <= i < |live|
      ensures Placed(live[i], now, c.contents, alignment) && live[i].chunk < |now| - 1
    {
      assert Placed(live[i], chunks, base, alignment);
    }
  }

  lemma LeftBehind(live: seq<Object>, chunks: seq<Chunk>, base: nat, next: nat, limit: nat, alignment: nat,
                   c: Chunk, size: nat)
    requires Layout(chunks, base, next, limit, alignment) && Stacked(live, chunks, base, alignment)
    requires WellPlaced(c, alignment) && c.contents + size <= c.limit
    requires forall i :: 0 <= i < |chunks| ==> Apart(c, chunks[i])
    ensures var now := chunks + [c];
      && Layout(now, c.contents, c.contents + size, c.limit, alignment)
      && Stacked(live, now, c.contents, alignment)
      && EmptiesFlagged(live, |now| - 1, false)
  {
    var now := chunks + [c];
    forall i | 0 <= i < |live|
      ensures Placed(live[i], now, c.contents, alignment) && live[i].chunk < |now| - 1
    {
      assert Placed(live[i], chunks, base, alignment);
    }
  }

  /** Writing outside the finished objects leaves them intact. */
  lemma StoreKeepsLive(live: seq<Object>, chunks: seq<Chunk>, base: nat, alignment: nat,
                       mem: Memory, at: int, bytes: seq<byte>, c: Chunk)
    requires alignment > 0 && Stacked(live, chunks, base, alignment) && Intact(live, mem)
    requires forall i :: 0 <= i < |chunks| ==> WellPlaced(chunks[i], alignment) && Apart(c, chunks[i])
    requires c.start <= at && at + |bytes| <= c.limit
    ensures Intact(live, Store(mem, at, bytes))
  {
    forall i | 0 <= i < |live|
      ensures Load(Store(mem, at, bytes), live[i].address, |live[i].bytes|) == live[i].bytes
    {
      assert Placed(live[i], chunks, base, alignment);
      LoadElsewhere(mem, at, bytes, live[i].address, |live[i].bytes|);
    }
  }

  /** Writing above the growing object leaves the finished ones intact. */
  lemma StoreAboveLive(live: seq<Object>, chunks: seq<Chunk>, base: nat, next: nat, limit: nat, alignment: nat,
                       mem: Memory, bytes: seq<byte>)
    requires Layout(chunks, base, next, limit, alignment) && Stacked(live, chunks, base, alignment)
    requires Intact(live, mem) && next + |bytes| <= limit
    ensures Intact(live, Store(mem, next, bytes))
  {
    forall i | 0 <= i < |live|
      ensures Load(Store(mem, next, bytes), live[i].address, |live[i].bytes|) == live[i].bytes
    {
      assert Placed(live[i], chunks, base, alignment);
      LoadElsewhere(mem, next, bytes, live[i].address, |live[i].bytes|);
    }
  }

  /** The growing object becomes the newest finished one, wherever the next one is to start. */
  lemma FinishStacks(live: seq<Object>, chunks: seq<Chunk>, base: nat, next: nat, limit: nat, alignment: nat,
                     mem: Memory, o: Object, flag: bool)
    requires Layout(chunks, base, next, limit, alignment) && Stacked(live, chunks, base, alignment)
    requires Intact(live, mem) && EmptiesFlagged(live, |chunks| - 1, flag)
    requires o == Object(|chunks| - 1, base, Load(mem, base, next - base))
    ensures forall next' :: next <= next' <= limit ==> Stacked(live + [o], chunks, next', alignment)
    ensures Intact(live + [o], mem)
    ensures EmptiesFlagged(live + [o], |chunks| - 1, flag || next == base)
  {
    forall next' | next <= next' <= limit
      ensures Stacked(live + [o], chunks, next', alignment)
    {
      forall i | 0 <= i < |live|
        ensures Placed(live[i], chunks, next', alignment) && Before(live[i], o)
      {
        assert Placed(live[i], chunks, base, alignment);
      }
    }
  }

  lemma LoadSplit(mem: Memory, at: int, n: nat, m: nat)
    ensures Load(mem, at, n + m) == Load(mem, at, n) + Load(mem, at + n, m)
  {}

  lemma FreedLayout(live: seq<Object>, chunks: seq<Chunk>, base: nat, alignment: nat, i: nat)
    requires alignment > 0 && |chunks| > 0 && Stacked(live, chunks, base, alignment)
    requires i < |live| && live[i].chunk == |chunks| - 1
    ensures Stacked(live[..i], chunks, live[i].address, alignment)
  {
    forall k | 0 <= k < i
      ensures Placed(live[k], chunks, live[i].address, alignment)
    {
      assert Placed(live[k], chunks, base, alignment) && Before(live[k], live[i]);
    }
  }

  // ---------- whole runs ----------

  /** FreeOp(k) frees the k-th object that the run has finished and not yet freed. */
  datatype Op =
    | GrowOp(data: seq<byte>) | Grow0Op(data: seq<byte>) | OneGrowOp(datum: byte) | BlankOp(n: nat)
    | FinishOp | FreeOp(k: nat)

  /** The finished objects, where they lie and what they hold, and the string that is growing. */
  datatype Built = Built(done: seq<Object>, growing: seq<byte>)

  /**
   * What an operation of a run that started with base finished objects makes of b: blank adds any n
   * bytes, finish adds the growing string as an object, and no other object moves.
   */
  ghost predicate Effect(b: Built, op: Op, base: nat, after: Built) {
    match op
    case GrowOp(data) => after == b.(growing := b.growing + data)
    case Grow0Op(data) => after == b.(growing := b.growing + data + [0])
    case OneGrowOp(datum) => after == b.(growing := b.growing + [datum])
    case BlankOp(n) => after.done == b.done && b.growing <= after.growing && |after.growing| == |b.growing| + n
    case FinishOp =>
      && |after.done| == |b.done| + 1 && after.done[..|b.done|] == b.done
      && after.done[|b.done|].bytes == b.growing && after.growing == []
    case FreeOp(k) => base + k < |b.done| && after == Built(b.done[..base + k], [])
  }

  /** Each operation has its effect on what the operations before it have built. */
  ghost predicate Builds(trace: seq<Built>, ops: seq<Op>, base: nat) {
    |trace| == |ops| + 1 && forall i :: 0 <= i < |ops| ==> Effect(trace[i], ops[i], base, trace[i + 1])
  }

  ghost function State(o: Stack): Built
    requires o.objectBase <= o.nextFree
    reads o
  {
    Built(o.live, o.Growing())
  }

  /** The addresses are those of the objects finished since there were base of them. */
  ghost predicate Returned(live: seq<Object>, addresses: seq<nat>, base: nat) {
    base + |addresses| == |live| &&
    forall j :: 0 <= j < |addresses| ==> addresses[j] == live[base + j].address
  }

  /** Everything but freeing an object that is not in the current chunk, or lies empty at its very end. */
  ghost predicate Performable(o: Stack, op: Op, base: nat)
    reads o
  {
    op.FreeOp? ==>
      && base + op.k < |o.live|
      && o.live[base + op.k].chunk == |o.chunks| - 1
      && o.live[base + op.k].address < o.chunkLimit
  }

  /** One operation; freeing takes an address that finishing has returned. */
  method Perform(o: Stack, op: Op, addresses: seq<nat>, ghost base: nat) returns (ok: bool, now: seq<nat>)
    requires o.Valid() && Returned(o.live, addresses, base)
    modifies o
    ensures o.Valid() && Returned(o.live, now, base)
    ensures ok <==> old(Performable(o, op, base))
    ensures if op.FreeOp? then o.live <= old(o.live) else old(o.live) <= o.live
    ensures ok ==> Effect(old(State(o)), op, base, State(o))
    ensures !ok ==> State(o) == old(State(o)) && !Performable(o, op, base)
  {
    hide GoodAllocator, Stacked, Intact, EmptiesFlagged, Load;
    ok, now := true, addresses;
    match op {
      case GrowOp(data) => o.Grow(data);
      case Grow0Op(data) => o.Grow0(data);
      case OneGrowOp(datum) => o.OneGrow(datum);
      case BlankOp(n) => o.Blank(n);
      case FinishOp =>
        var value := o.Finish();
        now := now + [value];
      case FreeOp(k) =>
        ok := false;
        if k < |addresses| {
          ok := o.Free(addresses[k], base + k);
        }
        if ok {
          now := addresses[..k];
        }
    }
  }

  /**
   * Any run, up to the first free of an object outside the current chunk, which the macro leaves to
   * the out-of-line function: step by step it builds exactly the strings asked for, and no object,
   * once finished, moves or changes.
   */
  method Run(o: Stack, ops: seq<Op>) returns (performed: nat, ghost trace: seq<Built>)
    requires o.Valid()
    modifies o
    ensures o.Valid() && old(o.live) <= o.live
    ensures performed <= |ops| && Builds(trace, ops[..performed], |old(o.live)|)
    ensures trace[0] == old(State(o)) && trace[performed] == State(o)
    ensures performed < |ops| ==> !Performable(o, ops[performed], |old(o.live)|)
  {
    ghost var base := |o.live|;
    performed, trace := 0, [State(o)];
    var addresses := [];
    while performed < |ops|
      invariant performed <= |ops| && o.Valid() && Returned(o.live, addresses, base)
      invariant old(o.live) <= o.live
      invariant Builds(trace, ops[..performed], base)
      invariant trace[0] == old(State(o)) && trace[performed] == State(o)
    {
      var ok;
      ok, addresses := Perform(o, ops[performed], addresses, base);
      if !ok {
        return;
      }
      BuildsMore(trace, ops, performed, base, State(o));
      trace := trace + [State(o)];
      performed := performed + 1;
    }
  }

  lemma BuildsMore(trace: seq<Built>, ops: seq<Op>, n: nat, base: nat, after: Built)
    requires n < |ops| && Builds(trace, ops[..n], base) && Effect(trace[n], ops[n], base, after)
    ensures Builds(trace + [after], ops[..n + 1], base)
  {}
}
