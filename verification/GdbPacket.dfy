/**
 * Packet framing of the GDB stub: $<data>#<two checksum digits>, acknowledged with '+'. The
 * serial line is the bytes still to come and the bytes already sent; a stub that needs a byte
 * which never comes is blocked.
 */
module GdbPacket {
  import opened Numbers
  import opened GdbHex

  const START: byte := '$' as int
  const END: byte := '#' as int
  const ACK: byte := '+' as int

  function Mask(b: byte): byte { b % 128 }

  /** Sum of the data bytes in an unsigned char. */
  function Checksum(s: seq<byte>): byte {
    if s == [] then 0 else (Checksum(s[..|s| - 1]) + s[|s| - 1]) % 256
  }

  function Frame(payload: seq<byte>): (f: seq<byte>)
    ensures |f| == |payload| + 4
  {
    var c := Checksum(payload);
    [START] + payload + [END, Digit2Hex(c / 16), Digit2Hex(c % 16)]
  }

  // ---------- what getpacket finds in the input ----------

  datatype Received =
    | Packet(payload: seq<byte>, next: nat)   // acknowledged
    | Overrun(data: seq<byte>, next: nat)     // the buffer filled up and its checksum happened to be 255
    | Blocked                                 // the input ended first

  /** Position behind the next start character; past the end if there is none. */
  function AfterStart(input: seq<byte>, i: nat): (j: nat)
    requires i <= |input|
    ensures i < j <= |input| + 1
    decreases |input| - i
  {
    if i == |input| then |input| + 1
    else if Mask(input[i]) == START then i + 1
    else AfterStart(input, i + 1)
  }

  /** Length of the data from i on: up to the end character, a full buffer, or the end of input. */
  function DataLength(input: seq<byte>, i: nat, room: nat): (n: nat)
    requires i <= |input|
    ensures i + n <= |input| && n <= room
    ensures n < room && i + n < |input| ==> Mask(input[i + n]) == END
    decreases room
  {
    if room == 0 || i == |input| || Mask(input[i]) == END then 0
    else 1 + DataLength(input, i + 1, room - 1)
  }

  function Masked(s: seq<byte>): (r: seq<byte>)
    ensures |r| == |s|
  {
    seq(|s|, k requires 0 <= k < |s| => Mask(s[k]))
  }

  /** The next packet, read through a buffer of the given size. */
  function Receive(input: seq<byte>, i: nat, size: nat): (r: Received)
    requires i <= |input|
    ensures r.Packet? ==> |r.payload| < size && i < r.next <= |input|
    decreases |input| - i
  {
    var s := AfterStart(input, i);
    if s > |input| then Blocked
    else
      var n := DataLength(input, s, size);
      var data := Masked(input[s..s + n]);
      if n == size then
        if Checksum(data) == 255 then Overrun(data, s + n) else Receive(input, s + n, size)
      else if s + n + 3 > |input| then Blocked
      else Packet(data, s + n + 3)
  }

  lemma ReceiveStep(input: seq<byte>, i: nat, size: nat)
    requires i <= |input|
    ensures var s := AfterStart(input, i);
      Receive(input, i, size) ==
        if s > |input| then Blocked
        else
          var n := DataLength(input, s, size);
          var data := Masked(input[s..s + n]);
          if n == size then
            if Checksum(data) == 255 then Overrun(data, s + n) else Receive(input, s + n, size)
          else if s + n + 3 > |input| then Blocked
          else Packet(data, s + n + 3)
  {}

  lemma ChecksumSnoc(s: seq<byte>, b: byte)
    ensures Checksum(s + [b]) == (Checksum(s) + b) % 256
  {
    assert (s + [b])[..|s|] == s;
  }

  lemma {:induction false} DataUpTo(input: seq<byte>, i: nat, n: nat, room: nat)
    requires i + n <= |input| && n <= room
    requires n == room || i + n == |input| || Mask(input[i + n]) == END
    requires forall k :: i <= k < i + n ==> Mask(input[k]) != END
    ensures DataLength(input, i, room) == n
    decreases n
  {
    if n > 0 { DataUpTo(input, i + 1, n - 1, room - 1); }
  }

  lemma NothingRead(input: seq<byte>, i: nat)
    requires i <= |input|
    ensures Masked(input[i..i]) == [] && Checksum([]) == 0
  {}

  lemma MaskedSnoc(input: seq<byte>, i: nat, j: nat)
    requires i <= j < |input|
    ensures Masked(input[i..j + 1]) == Masked(input[i..j]) + [Mask(input[j])]
  {}

  // ---------- the stub ----------

  class Line {
    const input: seq<byte>
    var pos: nat
    var output: seq<byte>

    constructor (input: seq<byte>)
      ensures this.input == input && pos == 0 && output == []
    {
      this.input, pos, output := input, 0, [];
    }

    /** Wait for the start character, ignore all others. */
    method WaitForStart() returns (found: bool)
      requires pos <= |input|
      modifies this`pos
      ensures found == (AfterStart(input, old(pos)) <= |input|)
      ensures pos == if found then AfterStart(input, old(pos)) else |input|
    {
      while pos < |input|
        invariant old(pos) <= pos <= |input| && AfterStart(input, pos) == AfterStart(input, old(pos))
      {
        var ch := Mask(input[pos]);
        pos := pos + 1;
        if ch == START {
          return true;
        }
      }
      found := false;
    }

    /** The first count characters from position i on are in the buffer and summed up. */
    ghost predicate Kept(buffer: array<byte>, i: nat, count: nat, checksum: byte)
      reads buffer
    {
      && count <= buffer.Length && i + count <= |input|
      && buffer[..count] == Masked(input[i..i + count]) && checksum == Checksum(buffer[..count])
    }

    /** One data character: into the sum and into the buffer. */
    method Keep(buffer: array<byte>, ghost i: nat, count: nat, checksum: byte, ch: byte) returns (sum: byte)
      requires Kept(buffer, i, count, checksum) && count < buffer.Length
      requires i + count < |input| && ch == Mask(input[i + count])
      modifies buffer
      ensures Kept(buffer, i, count + 1, sum)
    {
      ChecksumSnoc(buffer[..count], ch);
      MaskedSnoc(input, i, i + count);
      sum := (checksum + ch) % 256;
      buffer[count] := ch;
      assert buffer[..count + 1] == old(buffer[..count]) + [ch];
    }

    /** Read until a # or the end of the buffer or of the input; ended tells whether a # was found. */
    method ReadData(buffer: array<byte>) returns (count: nat, checksum: byte, ended: bool)
      requires pos <= |input|
      modifies this`pos, buffer
      ensures count == DataLength(input, old(pos), buffer.Length) && Kept(buffer, old(pos), count, checksum)
      ensures ended == (count < buffer.Length && old(pos) + count < |input|)
      ensures pos == old(pos) + count + (if ended then 1 else 0)
    {
      NothingRead(input, pos);
      assert buffer[..0] == [];
      assert Kept(buffer, pos, 0, 0);
      hide *;
      count, checksum, ended := 0, 0, false;
      while count < buffer.Length && pos < |input| && !ended
        invariant count <= buffer.Length && old(pos) + count <= |input|
        invariant pos == old(pos) + count + (if ended then 1 else 0)
        invariant Kept(buffer, old(pos), count, checksum)
        invariant forall k :: old(pos) <= k < old(pos) + count ==> Mask(input[k]) != END
        invariant ended ==> count < buffer.Length && old(pos) + count < |input| && Mask(input[old(pos) + count]) == END
        decreases buffer.Length - count, !ended
      {
        checksum, ended := ReadOne(buffer, old(pos), count, checksum);
        if !ended {
          count := count + 1;
        }
      }
      DataUpTo(input, old(pos), count, buffer.Length);
    }

    /** The next character: the end of the data, or one more to keep. */
    method ReadOne(buffer: array<byte>, ghost i: nat, count: nat, checksum: byte) returns (sum: byte, ended: bool)
      requires pos == i + count < |input| && Kept(buffer, i, count, checksum) && count < buffer.Length
      modifies this`pos, buffer
      ensures pos == old(pos) + 1 && ended == (Mask(input[old(pos)]) == END)
      ensures Kept(buffer, i, if ended then count else count + 1, sum)
    {
      var ch := Mask(input[pos]);
      pos := pos + 1;
      ended := ch == END;
      if ended {
        sum := checksum;
      } else {
        sum := Keep(buffer, i, count, checksum, ch);
      }
    }

    /** getpacket */
    method GetPacket(buffer: array<byte>) returns (r: Received)
      requires pos <= |input|
      modifies this, buffer
      ensures r == Receive(input, old(pos), buffer.Length)
      ensures r.Packet? ==> pos == r.next && output == old(output) + [43]
                            && buffer[..|r.payload|] == r.payload && buffer[|r.payload|] == 0
      ensures !r.Packet? ==> output == old(output)
      ensures r.Overrun? ==> pos == r.next && buffer[..] == r.data
    {
      hide Receive, AfterStart, DataLength, Checksum, Masked;
      while true
        invariant old(pos) <= pos <= |input| && output == old(output)
        invariant Receive(input, pos, buffer.Length) == Receive(input, old(pos), buffer.Length)
        decreases |input| - pos
      {
        ReceiveStep(input, pos, buffer.Length);
        var found := WaitForStart();
        if !found {
          return Blocked;
        }
        var count, checksum, ended := ReadData(buffer);
        if !ended && count < buffer.Length {
          return Blocked;
        }
        if !ended {
          assert buffer[..count] == buffer[..];
          if checksum != 255 {
            continue;
          }
          return Overrun(buffer[..], pos);
        }
        buffer[count] := 0;
        if pos + 2 > |input| {
          pos := |input|;
          return Blocked;
        }
        pos := pos + 2;   // the checksum digits, compared with nothing
        output := output + [ACK];
        return Packet(buffer[..count], pos);
      }
    }

    /** putpacket: the frame again and again until a '+' comes back. */
    method PutPacket(text: seq<byte>) returns (acked: bool)
      requires pos <= |input| && forall k :: 0 <= k < |text| ==> text[k] != 0
      modifies this
      ensures old(pos) <= pos <= |input|
      ensures output == old(output) + Repeat(Frame(text), pos - old(pos) + (if acked then 0 else 1))
      ensures acked ==> pos > old(pos) && input[pos - 1] % 128 == 43
      ensures !acked ==> pos == |input|
      ensures forall k :: old(pos) <= k < pos - (if acked then 1 else 0) ==> input[k] % 128 != 43
    {
      ghost var sent := 0;
      while true
        invariant old(pos) <= pos <= |input| && sent == pos - old(pos)
        invariant output == old(output) + Repeat(Frame(text), sent)
        invariant forall k :: old(pos) <= k < pos ==> input[k] % 128 != 43
        decreases |input| - pos
      {
        SendFrame(text);
        RepeatSnoc(Frame(text), sent);
        sent := sent + 1;
        if pos == |input| {
          return false;
        }
        var ch := Mask(input[pos]);
        pos := pos + 1;
        if ch == ACK {
          return true;
        }
      }
    }

    /** One transmission. */
    method SendFrame(text: seq<byte>)
      modifies this`output
      ensures output == old(output) + Frame(text)
    {
      output := output + [START];
      var checksum: byte, count := 0, 0;
      assert text[..0] == [];
      while count < |text|
        invariant count <= |text| && output == old(output) + [START] + text[..count]
        invariant checksum == Checksum(text[..count])
      {
        var ch := text[count];
        output := output + [ch];
        assert text[..count + 1] == text[..count] + [ch] && text[..count + 1][..count] == text[..count];
        checksum := (checksum + ch) % 256;
        count := count + 1;
      }
      assert text[..count] == text;
      output := output + [END];
      output := output + [Digit2Hex(checksum / 16)];
      output := output + [Digit2Hex(checksum % 16)];
    }
  }

  function Repeat(s: seq<byte>, n: nat): seq<byte> {
    if n == 0 then [] else s + Repeat(s, n - 1)
  }

  lemma {:induction false} RepeatSnoc(s: seq<byte>, n: nat)
    ensures Repeat(s, n + 1) == Repeat(s, n) + s
  {
    if n > 0 { RepeatSnoc(s, n - 1); }
  }

  // ---------- properties of the framing ----------

  /** Data that a frame can carry. */
  predicate Sendable(s: seq<byte>, size: nat) {
    |s| < size && forall k :: 0 <= k < |s| ==> 0 < s[k] < 128 && s[k] != END
  }

  predicate NoStart(s: seq<byte>) { forall k :: 0 <= k < |s| ==> Mask(s[k]) != START }

  lemma {:induction false} SkipJunk(input: seq<byte>, i: nat, j: nat)
    requires i <= j < |input| && Mask(input[j]) == START
    requires forall k :: i <= k < j ==> Mask(input[k]) != START
    ensures AfterStart(input, i) == j + 1
    decreases j - i
  {
    if i < j { SkipJunk(input, i + 1, j); }
  }

  /**
   * Whatever two bytes stand where the checksum belongs, the frame is taken: its data comes out
   * unchanged and exactly its bytes are used up, whatever came before and comes after.
   */
  lemma ReceiveFrame(junk: seq<byte>, payload: seq<byte>, x: byte, y: byte, tail: seq<byte>, size: nat)
    requires NoStart(junk) && Sendable(payload, size)
    ensures Receive(junk + ([START] + payload + [END, x, y]) + tail, 0, size) == Packet(payload, |junk| + |payload| + 4)
  {
    var input, s, n := junk + ([START] + payload + [END, x, y]) + tail, |junk| + 1, |payload|;
    InputBytes(junk, payload, x, y, tail);
    SkipJunk(input, 0, |junk|);
    DataUpTo(input, s, n, size);
    assert Masked(input[s..s + n]) == payload;
  }

  lemma InputBytes(junk: seq<byte>, payload: seq<byte>, x: byte, y: byte, tail: seq<byte>)
    ensures var input, s := junk + ([START] + payload + [END, x, y]) + tail, |junk| + 1;
      && |input| >= s + |payload| + 3
      && input[..|junk|] == junk && input[|junk|] == START
      && input[s..s + |payload|] == payload && input[s + |payload|] == END
      && (forall k :: 0 <= k < |junk| ==> input[k] == junk[k])
      && (forall k :: s <= k < s + |payload| ==> input[k] == payload[k - s])
  {
    var frame := [START] + payload + [END, x, y];
    var input := junk + frame + tail;
    assert input[|junk|..|junk| + |frame|] == frame;
    assert forall k :: |junk| <= k < |junk| + |frame| ==> input[k] == frame[k - |junk|];
  }

  // The top bit of every byte on the line is ignored.

  ghost predicate SameBytes(a: seq<byte>, b: seq<byte>) {
    |a| == |b| && forall k :: 0 <= k < |a| ==> a[k] % 128 == b[k] % 128
  }

  lemma {:induction false} SameStart(a: seq<byte>, b: seq<byte>, i: nat)
    requires SameBytes(a, b) && i <= |a|
    ensures AfterStart(a, i) == AfterStart(b, i)
    decreases |a| - i
  {
    if i < |a| { SameStart(a, b, i + 1); }
  }

  lemma {:induction false} SameLength(a: seq<byte>, b: seq<byte>, i: nat, room: nat)
    requires SameBytes(a, b) && i <= |a|
    ensures DataLength(a, i, room) == DataLength(b, i, room)
    decreases room
  {
    if i < |a| && room > 0 { SameLength(a, b, i + 1, room - 1); }
  }

  lemma SameMasked(a: seq<byte>, b: seq<byte>, i: nat, j: nat)
    requires SameBytes(a, b) && i <= j <= |a|
    ensures Masked(a[i..j]) == Masked(b[i..j])
  {}

  lemma SameSize(a: seq<byte>, b: seq<byte>)
    requires SameBytes(a, b)
    ensures |a| == |b|
  {}

  lemma {:induction false} SameReceive(a: seq<byte>, b: seq<byte>, i: nat, size: nat)
    requires SameBytes(a, b) && i <= |a|
    ensures Receive(a, i, size) == Receive(b, i, size)
    decreases |a| - i
  {
    hide *;
    SameSize(a, b);
    ReceiveStep(a, i, size);
    ReceiveStep(b, i, size);
    SameStart(a, b, i);
    var s := AfterStart(a, i);
    if s <= |a| {
      SameLength(a, b, s, size);
      var n := DataLength(a, s, size);
      SameMasked(a, b, s, s + n);
      SameReceive(a, b, s + n, size);
    }
  }

  /**
   * Whatever stands in the top bits of the wire: behind junk without a start character (36), data
   * without an end character (35) is received from between the two, with any two bytes as digits.
   */
  lemma ReceiveWire(wire: seq<byte>, junk: seq<byte>, payload: seq<byte>, x: byte, y: byte, tail: seq<byte>, size: nat)
    requires forall k :: 0 <= k < |junk| ==> junk[k] % 128 != 36
    requires |payload| < size && forall k :: 0 <= k < |payload| ==> 0 < payload[k] < 128 && payload[k] != 35
    requires |wire| == |junk| + |payload| + 4 + |tail|
    requires forall k :: 0 <= k < |wire| ==>
      wire[k] % 128 == (junk + ([36] + payload + [35, x, y]) + tail)[k] % 128
    ensures Receive(wire, 0, size) == Packet(payload, |junk| + |payload| + 4)
  {
    ReceiveFrame(junk, payload, x, y, tail, size);
    SameReceive(wire, junk + ([START] + payload + [END, x, y]) + tail, 0, size);
  }

  /** A frame: $ (36), the data, # (35), and the sum of the data modulo 256 in two hex digits. */
  lemma FrameIs(payload: seq<byte>)
    ensures var c := Sum(payload) % 256;
      Frame(payload) == [36] + payload + [35] + HexOf([c])
  {
    ChecksumIsSum(payload);
    var c := Checksum(payload);
    assert [c][1..] == [] && HexOf([c]) == [Digit2Hex(c / 16), Digit2Hex(c % 16)] + HexOf([]);
  }

  function Sum(s: seq<byte>): nat { if s == [] then 0 else s[0] + Sum(s[1..]) }

  lemma {:induction false} SumSnoc(s: seq<byte>, b: byte)
    ensures Sum(s + [b]) == Sum(s) + b
  {
    if s == [] {
      assert [b][1..] == [];
    } else {
      assert (s + [b])[1..] == s[1..] + [b];
      SumSnoc(s[1..], b);
    }
  }

  lemma {:induction false} ChecksumIsSum(s: seq<byte>)
    ensures Checksum(s) == Sum(s) % 256
  {
    if s != [] {
      var n := |s| - 1;
      ChecksumIsSum(s[..n]);
      ChecksumSnoc(s[..n], s[n]);
      SumSnoc(s[..n], s[n]);
      hide Checksum, Sum;
      assert s[..n] + [s[n]] == s;
      ModSum(Sum(s[..n]), s[n]);
    }
  }

  lemma ModSum(x: nat, b: nat)
    ensures (x % 256 + b) % 256 == (x + b) % 256
  {}

  /** Data that fills the buffer before any end character. */
  predicate Overlong(data: seq<byte>, size: nat) {
    |data| == size && forall k :: 0 <= k < |data| ==> Mask(data[k]) != END
  }

  /**
   * Data that fills the buffer is dropped and the next packet awaited, unless its sum happens to be
   * 255: then getpacket returns with the full buffer.
   */
  lemma ReceiveOverlong(junk: seq<byte>, data: seq<byte>, tail: seq<byte>, size: nat)
    requires NoStart(junk) && Overlong(data, size)
    ensures var (input, next) := (junk + ([START] + data) + tail, |junk| + 1 + size);
      Receive(input, 0, size) ==
        if Checksum(Masked(data)) == 255 then Overrun(Masked(data), next) else Receive(input, next, size)
  {
    hide AfterStart, DataLength, Receive, Checksum, Masked;
    var input, s := junk + ([START] + data) + tail, |junk| + 1;
    OverlongBytes(junk, data, tail);
    SkipJunk(input, 0, |junk|);
    DataUpTo(input, s, size, size);
    ReceiveStep(input, 0, size);
  }

  lemma OverlongBytes(junk: seq<byte>, data: seq<byte>, tail: seq<byte>)
    ensures var (input, s) := (junk + ([START] + data) + tail, |junk| + 1);
      && |input| >= s + |data| && input[|junk|] == START && input[s..s + |data|] == data
      && (forall k :: 0 <= k < |junk| ==> input[k] == junk[k])
      && (forall k :: s <= k < s + |data| ==> input[k] == data[k - s])
  {
    var packet := [START] + data;
    var input := junk + packet + tail;
    assert input[|junk|..|junk| + |packet|] == packet;
    assert forall k :: |junk| <= k < |junk| + |packet| ==> input[k] == packet[k - |junk|];
  }

  /** Such a packet is not answered at all. */
  method OverlongUnanswered(junk: seq<byte>, data: seq<byte>, tail: seq<byte>) returns (r: Received, replies: seq<byte>)
    requires NoStart(junk) && Overlong(data, BUFMAX) && Checksum(Masked(data)) == 255
    ensures r == Overrun(Masked(data), |junk| + 1 + BUFMAX) && replies == []
  {
    var line := new Line(junk + ([START] + data) + tail);
    var buffer := new byte[BUFMAX];
    ReceiveOverlong(junk, data, tail, buffer.Length);
    r := line.GetPacket(buffer);
    replies := line.output;
  }

  /** There are such packets: three bytes and zeros. */
  lemma OverlongExists() returns (data: seq<byte>)
    ensures Overlong(data, BUFMAX) && Checksum(Masked(data)) == 255 && |data| == 2048
  {
    var zeros := seq(BUFMAX - 3, _ => 0);
    data := [127, 127, 1] + zeros;
    assert [127, 127, 1][..2] == [127, 127] && [127, 127][..1] == [127] && [127][..0] == [];
    ZerosAddNothing([127, 127, 1], zeros);
    assert Masked(data) == data;
  }

  lemma {:induction false} ZerosAddNothing(s: seq<byte>, zeros: seq<byte>)
    requires forall k :: 0 <= k < |zeros| ==> zeros[k] == 0
    ensures Checksum(s + zeros) == Checksum(s)
  {
    if zeros == [] {
      assert s + zeros == s;
    } else {
      var n := |zeros| - 1;
      ZerosAddNothing(s, zeros[..n]);
      ChecksumSnoc(s + zeros[..n], 0);
      assert s + zeros == (s + zeros[..n]) + [0];
    }
  }

  /** The digits of a frame are the checksum of its data. */
  lemma FrameChecksum(payload: seq<byte>)
    ensures var f := Frame(payload); JoinDigits(f[|f| - 2], f[|f| - 1]) == Checksum(payload)
  {}

  /**
   * The stub answers every frame with '+', whatever stands before and behind it and where the
   * digits belong; the protocol's reply, + (43) for a right sum and - (45) for a wrong one, it is
   * exactly when the two masked digits are right.
   */
  method AnswerFrame(junk: seq<byte>, payload: seq<byte>, x: byte, y: byte, tail: seq<byte>) returns (reply: byte)
    requires NoStart(junk) && Sendable(payload, BUFMAX)
    ensures reply == 43
    ensures var right := JoinDigits(x % 128, y % 128) == Sum(payload) % 256;
      reply == (if right then 43 else 45) <==> right
  {
    var line := new Line(junk + ([START] + payload + [END, x, y]) + tail);
    var buffer := new byte[BUFMAX];
    ReceiveFrame(junk, payload, x, y, tail, buffer.Length);
    var r := line.GetPacket(buffer);
    reply := line.output[0];
  }

  /**
   * What putpacket sends, getpacket receives: through leading junk, and however many frames were
   * sent before the acknowledgement came.
   */
  method SendAndReceive(payload: seq<byte>, junk: seq<byte>, replies: seq<byte>) returns (r: Received)
    requires Sendable(payload, BUFMAX) && NoStart(junk)
    ensures r == Packet(payload, |junk| + |payload| + 4)
  {
    var sender := new Line(replies);
    var acked := sender.PutPacket(payload);
    var receiver := new Line(junk + sender.output);
    var buffer := new byte[BUFMAX];
    ghost var rest := FirstFrame(junk, payload, sender.pos + (if acked then 0 else 1), sender.output, buffer.Length);
    assert receiver.input == junk + Frame(payload) + rest;
    r := receiver.GetPacket(buffer);
  }

  lemma FrameDigits(payload: seq<byte>) returns (x: byte, y: byte)
    ensures Frame(payload) == [START] + payload + [END, x, y]
  {
    var c := Checksum(payload);
    x, y := Digit2Hex(c / 16), Digit2Hex(c % 16);
  }

  lemma FirstFrame(junk: seq<byte>, payload: seq<byte>, copies: nat, output: seq<byte>, size: nat)
    returns (rest: seq<byte>)
    requires NoStart(junk) && Sendable(payload, size)
    requires copies > 0 && output == [] + Repeat(Frame(payload), copies)
    ensures junk + output == junk + Frame(payload) + rest
    ensures Receive(junk + output, 0, size) == Packet(payload, |junk| + |payload| + 4)
  {
    var x, y := FrameDigits(payload);
    rest := FirstCopy(junk, Frame(payload), copies, output);
    hide *;
    ReceiveFrame(junk, payload, x, y, rest, size);
  }

  lemma FirstCopy(junk: seq<byte>, f: seq<byte>, copies: nat, output: seq<byte>) returns (rest: seq<byte>)
    requires copies > 0 && output == [] + Repeat(f, copies)
    ensures junk + output == junk + f + rest
  {
    rest := Repeat(f, copies - 1);
    assert output == f + rest;
  }
}
