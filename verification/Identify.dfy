/** The IDENTIFY receiver of usb.rs: chunks placed by offset into a growing buffer, with no CHUNK_START
    and no known total. */
module Identify {
  import opened ByteSeqs
  import opened Varints
  import opened Gip
  import opened AuthSend

  const IDENTIFY_BUF: nat := 512

  /** A chunk ACK: the sequence number answered and the bytes received so far. */
  datatype Ack = Ack(seqno: byte, received: nat)

  /** gip.rs/usb.rs `send_chunk_ack` with the unknown total 0: both counts are cut to 16 bits, and
      the remaining one saturates at 0. */
  function AckPacket(a: Ack): Bytes {
    SimplePacket(CMD_ACKNOWLEDGE, OPTS_INTERNAL, a.seqno,
                 [0x00, CMD_IDENTIFY, OPTS_INTERNAL] + Le16(a.received % 0x1_0000) + [0, 0] + Le16(0))
  }

  /** The ACK answers the chunk's own sequence number and carries the low 16 bits of the count. */
  lemma AckPacketRead(a: Ack)
    ensures var raw := AckPacket(a);
            var payload := raw[4..];
            && IsAckFor(raw, CMD_IDENTIFY) && PyFields(raw).value.seqno == a.seqno && |payload| == 9
            && payload[3] as nat + 256 * payload[4] as nat == a.received % 0x1_0000
            && payload[7] == 0 && payload[8] == 0
    ensures AckPacket(a)
            == [0x01, 0x21, a.seqno, 9, 0x00, 0x04, 0x21, (a.received % 0x1_0000 % 256) as byte,
                (a.received % 0x1_0000 / 256) as byte, 0, 0, 0, 0]
  {
    var p := [0x00, CMD_IDENTIFY, OPTS_INTERNAL] + Le16(a.received % 0x1_0000) + [0, 0] + Le16(0);
    HeaderRoundTrip(CMD_ACKNOWLEDGE, OPTS_INTERNAL, a.seqno, |p|, None, p);
    assert p[..9] == p;
    assert Varint(9) == [9] && !Odd(0) && !Odd(2) && !Odd(4);
    assert Header(CMD_ACKNOWLEDGE, OPTS_INTERNAL, a.seqno, 9, None) == [CMD_ACKNOWLEDGE, OPTS_INTERNAL, a.seqno, 9];
    assert AckPacket(a)[4..] == p;
  }

  datatype Outcome =
    | Go(buf: Bytes, recvd: nat)
    | Done(response: Option<Bytes>)
    | ShiftOverflow   // `read_varint` shifts out of range

  datatype Turn = Turn(outcome: Outcome, acks: seq<Ack>)

  /** What is returned when the transfer is over. */
  function Collected(buf: Bytes, recvd: nat): Option<Bytes> {
    if recvd > 0 then Some(buf[..Min(recvd, |buf|)]) else None
  }

  function Resized(buf: Bytes, end: nat): (b: Bytes)
    ensures |b| >= end && buf <= b
  {
    if end > |buf| then buf + Zeros(end + 64 - |buf|) else buf
  }

  /** `buf[at..at + |data|].copy_from_slice(data)` */
  function Placed(buf: Bytes, at: nat, data: Bytes): (b: Bytes)
    requires at + |data| <= |buf|
    ensures |b| == |buf|
  {
    buf[..at] + data + buf[at + |data|..]
  }

  function OnChunk(buf: Bytes, recvd: nat, p: Packet): Turn {
    var end := p.chunkOffset + |p.payload|;
    var recvd' := Max(recvd, p.chunkOffset + p.pktLen);
    Turn(Go(Placed(Resized(buf, end), p.chunkOffset, p.payload), recvd'),
         if WantsAck(p.options) then [Ack(p.seqno, recvd')] else [])
  }

  function OnRead(buf: Bytes, recvd: nat, e: Read): Turn {
    match e
    case NoData => Turn(if recvd > 0 then Done(Collected(buf, recvd)) else Go(buf, recvd), [])
    case Data(raw) =>
      match Decode(raw)
      case NoPacket => Turn(Go(buf, recvd), [])
      case Undefined => Turn(ShiftOverflow, [])
      case Decoded(p) =>
        if p.cmd != CMD_IDENTIFY then Turn(Go(buf, recvd), [])
        else if !IsChunk(p.options) then Turn(Done(Some(p.payload)), [])
        else if p.pktLen == 0 then Turn(Done(Collected(buf, recvd)), [])
        else OnChunk(buf, recvd, p)
  }

  datatype Result = Result(outcome: Outcome, acks: seq<Ack>)

  function Receive(buf: Bytes, recvd: nat, input: seq<Read>): Result
    decreases |input|
  {
    if input == [] then Result(Done(Collected(buf, recvd)), [])
    else
      var t := OnRead(buf, recvd, input[0]);
      if t.outcome.Go? then
        var r := Receive(t.outcome.buf, t.outcome.recvd, input[1..]);
        Result(r.outcome, t.acks + r.acks)
      else Result(t.outcome, t.acks)
  }

  /** `receive_identify_response`; the reads end where the deadline passes. */
  method ReceiveIdentifyResponse(input: seq<Read>) returns (r: Result)
    ensures r == Receive(Zeros(512), 0, input)
  {
    var buf := Zeros(IDENTIFY_BUF);
    var recvd := 0;
    var acks: seq<Ack> := [];
    assert input[0..] == input;
    for i := 0 to |input|
      invariant Receive(Zeros(512), 0, input)
                == Prepended(acks, Receive(buf, recvd, input[i..]))
    {
      ReceiveTurn(buf, recvd, input, i, acks);
      var t := ReadTurn(buf, recvd, input[i]);
      acks := acks + t.acks;
      if !t.outcome.Go? {
        return Result(t.outcome, acks);
      }
      buf, recvd := t.outcome.buf, t.outcome.recvd;
    }
    assert acks + [] == acks;
    return Result(Done(Collected(buf, recvd)), acks);
  }

  /** The body of the loop. Every slice of the buffer it copies to is in range. */
  method ReadTurn(buf: Bytes, recvd: nat, e: Read) returns (t: Turn)
    ensures t == OnRead(buf, recvd, e)
  {
    if e.NoData? {
      if recvd > 0 {
        return Turn(Done(Collected(buf, recvd)), []);
      }
      return Turn(Go(buf, recvd), []);
    }
    var d := Decode(e.raw);
    if d.Undefined? {
      return Turn(ShiftOverflow, []);
    }
    if d.NoPacket? || d.packet.cmd != CMD_IDENTIFY {
      return Turn(Go(buf, recvd), []);
    }
    var pkt := d.packet;
    var data := pkt.payload;
    if !IsChunk(pkt.options) {
      return Turn(Done(Some(data)), []);
    }
    if pkt.pktLen == 0 {
      return Turn(Done(Collected(buf, recvd)), []);
    }
    var grown := buf;
    var end := pkt.chunkOffset + |data|;
    if end > |buf| {
      grown := buf + Zeros(end + 64 - |buf|);
    }
    grown := grown[..pkt.chunkOffset] + data + grown[end..];
    var recvd' := Max(recvd, pkt.chunkOffset + pkt.pktLen);
    var acks: seq<Ack> := [];
    if WantsAck(pkt.options) {
      acks := [Ack(pkt.seqno, recvd')];
    }
    t := Turn(Go(grown, recvd'), acks);
  }

  function Prepended(acks: seq<Ack>, r: Result): Result {
    Result(r.outcome, acks + r.acks)
  }

  lemma ReceiveTurn(buf: Bytes, recvd: nat, input: seq<Read>, i: nat, acks: seq<Ack>)
    requires i < |input|
    ensures var t := OnRead(buf, recvd, input[i]);
            Prepended(acks, Receive(buf, recvd, input[i..]))
            == if t.outcome.Go? then Prepended(acks + t.acks, Receive(t.outcome.buf, t.outcome.recvd, input[i + 1..]))
               else Result(t.outcome, acks + t.acks)
  {
    var t := OnRead(buf, recvd, input[i]);
    assert input[i..][0] == input[i] && input[i..][1..] == input[i + 1..];
    if t.outcome.Go? {
      Assoc(acks, t.acks, Receive(t.outcome.buf, t.outcome.recvd, input[i + 1..]).acks);
    }
  }

  // ------------------------------------------------------------ ACKs

  predicate NonDecreasing(acks: seq<Ack>, from: nat) {
    acks == [] || (acks[0].received >= from && NonDecreasing(acks[1..], acks[0].received))
  }

  lemma {:induction false} WeakerFloor(acks: seq<Ack>, from: nat, lower: nat)
    requires NonDecreasing(acks, from) && lower <= from
    ensures NonDecreasing(acks, lower)
  {
  }

  /** Whatever comes in, the acknowledged counts never go back. */
  lemma {:induction false} AcksNeverDecrease(buf: Bytes, recvd: nat, input: seq<Read>)
    ensures NonDecreasing(Receive(buf, recvd, input).acks, recvd)
    decreases |input|
  {
    if input != [] {
      var t := OnRead(buf, recvd, input[0]);
      if t.outcome.Go? {
        AcksNeverDecrease(t.outcome.buf, t.outcome.recvd, input[1..]);
        var r := Receive(t.outcome.buf, t.outcome.recvd, input[1..]);
        if t.acks == [] {
          WeakerFloor(r.acks, t.outcome.recvd, recvd);
          assert t.acks + r.acks == r.acks;
        } else {
          assert (t.acks + r.acks)[1..] == r.acks;
        }
      }
    }
  }

  // ------------------------------------------------------------ reassembly

  /** A complete IDENTIFY chunk on the wire. */
  datatype Chunk = Chunk(opts: byte, seqno: byte, offset: nat, data: Bytes)

  predicate Complete(c: Chunk) {
    IsChunk(c.opts) && 0 < |c.data| < 0x1000_0000 && c.offset < U32
  }

  function OnWire(c: Chunk): Bytes {
    Header(CMD_IDENTIFY, c.opts, c.seqno, |c.data|, Some(c.offset)) + c.data
  }

  predicate Covers(c: Chunk, i: nat) { c.offset <= i < c.offset + |c.data| }

  /** Byte `i` of the overlay: from the last chunk that covers it, 0 where none does. */
  function At(cs: seq<Chunk>, i: nat): byte {
    if cs == [] then 0
    else
      var last := cs[|cs| - 1];
      if Covers(last, i) then last.data[i - last.offset] else At(cs[..|cs| - 1], i)
  }

  function Extent(cs: seq<Chunk>): nat {
    if cs == [] then 0
    else Max(Extent(cs[..|cs| - 1]), cs[|cs| - 1].offset + |cs[|cs| - 1].data|)
  }

  /** All chunks laid over zeros, the last writer winning. */
  function Overlay(cs: seq<Chunk>): Bytes {
    seq(Extent(cs), i requires 0 <= i < Extent(cs) => At(cs, i))
  }

  /** The buffer shows the overlay of the chunks so far. */
  predicate Shows(buf: Bytes, recvd: nat, cs: seq<Chunk>) {
    && recvd == Extent(cs) <= |buf|
    && forall i :: 0 <= i < |buf| ==> buf[i] == At(cs, i)
  }

  lemma ChunkDecodes(c: Chunk)
    requires Complete(c)
    ensures var h := Header(CMD_IDENTIFY, c.opts, c.seqno, |c.data|, Some(c.offset));
            Decode(OnWire(c)) == Decoded(Packet(CMD_IDENTIFY, c.opts, c.seqno, |h|, |c.data|, c.offset, c.data))
  {
    RustReadsHeader(CMD_IDENTIFY, c.opts, c.seqno, |c.data|, Some(c.offset), c.data);
    assert c.data[..|c.data|] == c.data;
  }

  lemma ChunkRead(buf: Bytes, recvd: nat, c: Chunk)
    requires Complete(c)
    ensures var end := c.offset + |c.data|;
            OnRead(buf, recvd, Data(OnWire(c)))
            == Turn(Go(Placed(Resized(buf, end), c.offset, c.data), Max(recvd, end)),
                    if WantsAck(c.opts) then [Ack(c.seqno, Max(recvd, end))] else [])
  {
    ChunkDecodes(c);
  }

  lemma ChunkShown(buf: Bytes, recvd: nat, cs: seq<Chunk>, c: Chunk)
    requires Shows(buf, recvd, cs) && Complete(c)
    ensures var t := OnRead(buf, recvd, Data(OnWire(c)));
            && t.outcome.Go? && Shows(t.outcome.buf, t.outcome.recvd, cs + [c])
            && t.acks == if WantsAck(c.opts) then [Ack(c.seqno, Extent(cs + [c]))] else []
  {
    ChunkRead(buf, recvd, c);
    assert (cs + [c])[..|cs|] == cs;
    ResizedShown(buf, cs, c.offset + |c.data|);
    ShownAfterPlacing(Resized(buf, c.offset + |c.data|), cs, c);
  }

  /** Growing the buffer keeps the earlier bytes and shows the zeros of the overlay behind them. */
  lemma ResizedShown(buf: Bytes, cs: seq<Chunk>, end: nat)
    requires Extent(cs) <= |buf| && forall i :: 0 <= i < |buf| ==> buf[i] == At(cs, i)
    ensures var b := Resized(buf, end);
            buf <= b && forall i :: 0 <= i < |b| ==> b[i] == At(cs, i)
  {
    var b := Resized(buf, end);
    forall i | 0 <= i < |b| ensures b[i] == At(cs, i) {
      if i >= |buf| {
        NothingBeyondExtent(cs, i);
      }
    }
  }

  lemma ShownAfterPlacing(grown: Bytes, cs: seq<Chunk>, c: Chunk)
    requires c.offset + |c.data| <= |grown|
    requires forall i :: 0 <= i < |grown| ==> grown[i] == At(cs, i)
    ensures var b := Placed(grown, c.offset, c.data);
            forall i :: 0 <= i < |b| ==> b[i] == At(cs + [c], i)
  {
    var b := Placed(grown, c.offset, c.data);
    assert (cs + [c])[..|cs|] == cs;
    forall i | 0 <= i < |b| ensures b[i] == At(cs + [c], i) {
      assert Covers(c, i) ==> b[i] == c.data[i - c.offset];
    }
  }

  lemma {:induction false} NothingBeyondExtent(cs: seq<Chunk>, i: nat)
    requires i >= Extent(cs)
    ensures At(cs, i) == 0
  {
    if cs != [] {
      NothingBeyondExtent(cs[..|cs| - 1], i);
    }
  }

  // ------------------------------------------------------------ scripts

  /** What comes in before the end: complete chunks, and reads that change nothing. */
  datatype Item = Piece(c: Chunk) | Other(e: Read)

  /** Timeouts only matter once data has arrived; packets of other commands never do. */
  predicate Harmless(e: Read, recvd: nat) {
    match e
    case NoData => recvd == 0
    case Data(raw) => Decode(raw).NoPacket? || (Decode(raw).Decoded? && Decode(raw).packet.cmd != CMD_IDENTIFY)
  }

  function Pieces(items: seq<Item>): seq<Chunk> {
    if items == [] then []
    else
      var before, last := Pieces(items[..|items| - 1]), items[|items| - 1];
      if last.Piece? then before + [last.c] else before
  }

  predicate Script(items: seq<Item>) {
    items == [] ||
    (var before, last := items[..|items| - 1], items[|items| - 1];
     && Script(before)
     && match last
        case Piece(c) => Complete(c)
        case Other(e) => Harmless(e, Extent(Pieces(before))))
  }

  function AsRead(i: Item): Read {
    match i
    case Piece(c) => Data(OnWire(c))
    case Other(e) => e
  }

  function Reads(items: seq<Item>): seq<Read> {
    if items == [] then [] else Reads(items[..|items| - 1]) + [AsRead(items[|items| - 1])]
  }

  /** The ACKs: one for every flagged chunk, with the extent of all chunks up to it. */
  function Acks(items: seq<Item>): seq<Ack> {
    if items == [] then []
    else
      var before, last := items[..|items| - 1], items[|items| - 1];
      Acks(before) + match last
                     case Piece(c) => if WantsAck(c.opts) then [Ack(c.seqno, Extent(Pieces(items)))] else []
                     case Other(_) => []
  }

  /** After the reads of a script the buffer shows the overlay of its chunks. */
  lemma {:induction false} ScriptShown(items: seq<Item>, more: seq<Read>) returns (buf: Bytes)
    requires Script(items)
    ensures Shows(buf, Extent(Pieces(items)), Pieces(items))
    ensures Receive(Zeros(512), 0, Reads(items) + more)
            == Prepended(Acks(items), Receive(buf, Extent(Pieces(items)), more))
    decreases |items|
  {
    if items == [] {
      buf := Zeros(512);
      assert Reads(items) + more == more;
      assert [] + Receive(buf, 0, more).acks == Receive(buf, 0, more).acks;
    } else {
      var before, last := items[..|items| - 1], items[|items| - 1];
      var e := AsRead(last);
      var was := ScriptShown(before, [e] + more);
      Assoc(Reads(before), [e], more);
      var recvd := Extent(Pieces(before));
      ReceiveTurn(was, recvd, [e] + more, 0, Acks(before));
      assert ([e] + more)[0..] == [e] + more && ([e] + more)[1..] == more;
      match last
      case Piece(c) =>
        ChunkShown(was, recvd, Pieces(before), c);
        buf := OnRead(was, recvd, e).outcome.buf;
      case Other(_) =>
        buf := was;
        assert Acks(before) + [] == Acks(before);
    }
  }

  /** The two ways a transfer ends: an empty chunk, or silence once data has arrived. */
  predicate Ends(e: Read, recvd: nat) {
    match e
    case NoData => recvd > 0
    case Data(raw) =>
      && Decode(raw).Decoded? && Decode(raw).packet.cmd == CMD_IDENTIFY
      && IsChunk(Decode(raw).packet.options) && Decode(raw).packet.pktLen == 0
  }

  /** Any run of complete chunks, in any order and with repetitions, with other packets anywhere in
      between, yields the overlay of the chunks on zeros, last writer winning; every flagged chunk is
      acknowledged with the extent so far. */
  lemma IdentifyIsOverlay(items: seq<Item>, end: Read, more: seq<Read>)
    requires Script(items) && Ends(end, Extent(Pieces(items)))
    ensures Receive(Zeros(512), 0, Reads(items) + [end] + more)
            == Result(Done(if Extent(Pieces(items)) > 0 then Some(Overlay(Pieces(items))) else None), Acks(items))
  {
    var buf := ScriptShown(items, [end] + more);
    var cs := Pieces(items);
    Assoc(Reads(items), [end], more);
    ReceiveTurn(buf, Extent(cs), [end] + more, 0, Acks(items));
    assert ([end] + more)[0..] == [end] + more;
    assert buf[..Extent(cs)] == Overlay(cs);
    assert Acks(items) + [] == Acks(items);
  }

  /** A response that comes in one piece is returned as it is, whatever chunks came before. */
  lemma SimpleResponse(items: seq<Item>, opts: byte, seqno: byte, data: Bytes, more: seq<Read>)
    requires Script(items) && !IsChunk(opts) && |data| < U32
    ensures Receive(Zeros(512), 0, Reads(items) + [Data(SimplePacket(0x04, opts, seqno, data))] + more)
            == Result(Done(Some(data)), Acks(items))
  {
    var end := Data(SimplePacket(0x04, opts, seqno, data));
    var buf := ScriptShown(items, [end] + more);
    Assoc(Reads(items), [end], more);
    ReceiveTurn(buf, Extent(Pieces(items)), [end] + more, 0, Acks(items));
    assert ([end] + more)[0..] == [end] + more;
    RustReadsHeader(0x04, opts, seqno, |data|, None, data);
    assert data[..|data|] == data && OffsetField(None) == [];
    assert Acks(items) + [] == Acks(items);
  }

  /** At the deadline what has come so far is returned, and nothing if nothing has. */
  lemma DeadlineResponse(items: seq<Item>)
    requires Script(items)
    ensures Receive(Zeros(512), 0, Reads(items))
            == Result(Done(if Extent(Pieces(items)) > 0 then Some(Overlay(Pieces(items))) else None), Acks(items))
  {
    var buf := ScriptShown(items, []);
    var cs := Pieces(items);
    assert Reads(items) + [] == Reads(items);
    assert buf[..Extent(cs)] == Overlay(cs);
    assert Acks(items) + [] == Acks(items);
  }

  /** A length varint that goes on for a sixth byte stops a debug build, whatever the command. */
  lemma OverlongStops(buf: Bytes, recvd: nat, raw: Bytes)
    requires |raw| >= 9 && forall i :: 3 <= i < 8 ==> raw[i] >= 128
    ensures OnRead(buf, recvd, Data(raw)) == Turn(ShiftOverflow, [])
  {
    assert raw[3] >= 128 && raw[4] >= 128 && raw[5] >= 128 && raw[6] >= 128 && raw[7] >= 128;
    assert VarintLength(raw, 7) == 0 || VarintLength(raw, 7) >= 2;
    assert VarintLength(raw, 5) == 0 || VarintLength(raw, 5) >= 4;
    assert VarintLength(raw, 3) == 0 || VarintLength(raw, 3) >= 6;
  }

  /** The chunks are pieces of `message`. */
  predicate Consistent(cs: seq<Chunk>, message: Bytes) {
    forall k :: 0 <= k < |cs| ==> PieceOf(cs[k], message)
  }

  predicate PieceOf(c: Chunk, message: Bytes) {
    0 < |c.data| && c.offset + |c.data| <= |message| && c.data == message[c.offset..c.offset + |c.data|]
  }

  predicate Covered(cs: seq<Chunk>, i: nat) {
    exists k :: 0 <= k < |cs| && Covers(cs[k], i)
  }

  lemma {:induction false} OverlayOfPieces(cs: seq<Chunk>, message: Bytes, i: nat)
    requires Consistent(cs, message) && i < |message|
    ensures Extent(cs) <= |message|
    ensures Covered(cs, i) ==> At(cs, i) == message[i] && i < Extent(cs)
    ensures !Covered(cs, i) ==> At(cs, i) == 0
  {
    if cs != [] {
      var before, last := cs[..|cs| - 1], cs[|cs| - 1];
      assert PieceOf(last, message);
      forall k | 0 <= k < |before| ensures PieceOf(before[k], message) {
        assert before[k] == cs[k] && PieceOf(cs[k], message);
      }
      OverlayOfPieces(before, message, i);
      if Covered(cs, i) && !Covers(last, i) {
        var k :| 0 <= k < |cs| && Covers(cs[k], i);
        assert Covers(before[k], i);
      }
      if Covered(before, i) {
        var k :| 0 <= k < |before| && Covers(before[k], i);
        assert Covers(cs[k], i);
      }
    }
  }

  /** Reassembly: chunks of a message, in any order, duplicated or not, give back the message exactly
      when they reach its last byte and leave out nothing but zero bytes - so always when they cover
      it. */
  lemma OverlayIsMessageIff(cs: seq<Chunk>, message: Bytes)
    requires Consistent(cs, message) && message != []
    ensures Overlay(cs) == message
            <==> Covered(cs, |message| - 1) && forall i :: 0 <= i < |message| ==> Covered(cs, i) || message[i] == 0
  {
    forall i: nat | i < |message|
      ensures Extent(cs) <= |message|
      ensures Covered(cs, i) ==> At(cs, i) == message[i] && i < Extent(cs)
      ensures !Covered(cs, i) ==> At(cs, i) == 0
    {
      OverlayOfPieces(cs, message, i);
    }
    if Overlay(cs) == message {
      forall i | 0 <= i < |message| ensures Covered(cs, i) || message[i] == 0 {
        assert Overlay(cs)[i] == message[i];
      }
      ExtentReached(cs, message);
    }
    if Covered(cs, |message| - 1) && forall i :: 0 <= i < |message| ==> Covered(cs, i) || message[i] == 0 {
      assert |Overlay(cs)| == |message|;
      forall i | 0 <= i < |message| ensures Overlay(cs)[i] == message[i] {
        assert Covered(cs, i) || message[i] == 0;
      }
    }
  }

  /** Some chunk ends where the extent does. */
  lemma {:induction false} ExtentReached(cs: seq<Chunk>, message: Bytes)
    requires Extent(cs) > 0 && Consistent(cs, message)
    ensures Covered(cs, Extent(cs) - 1)
  {
    var before, last := cs[..|cs| - 1], cs[|cs| - 1];
    assert PieceOf(last, message);
    if Extent(cs) == last.offset + |last.data| {
      assert Covers(cs[|cs| - 1], Extent(cs) - 1);
    } else {
      forall k | 0 <= k < |before| ensures PieceOf(before[k], message) {
        assert before[k] == cs[k] && PieceOf(cs[k], message);
      }
      ExtentReached(before, message);
      var k :| 0 <= k < |before| && Covers(before[k], Extent(before) - 1);
      assert Covers(cs[k], Extent(cs) - 1);
    }
  }

  /** The whole receiver: complete chunks of a message that cover it, in any order and duplicated,
      with other packets in between, and then the end of the transfer, give exactly the message. */
  lemma IdentifyReassembles(items: seq<Item>, end: Read, more: seq<Read>, message: Bytes)
    requires Script(items) && Ends(end, Extent(Pieces(items))) && message != []
    requires Consistent(Pieces(items), message)
    requires forall i :: 0 <= i < |message| ==> Covered(Pieces(items), i)
    ensures Receive(Zeros(512), 0, Reads(items) + [end] + more).outcome == Done(Some(message))
  {
    assert Covered(Pieces(items), |message| - 1);
    OverlayIsMessageIff(Pieces(items), message);
    IdentifyIsOverlay(items, end, more);
  }
}
