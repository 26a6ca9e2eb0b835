/** Packets through an endpoint that is read a fixed number of bytes at a time, 64 in gip_init.py. */
module Endpoint {
  import opened ByteSeqs
  import opened Varints
  import opened Gip
  import opened AuthSend
  import opened AuthRecv
  import opened AuthLink

  const EP_BYTES: nat := 64

  /** The reads that take in one packet. */
  function Reads(packet: Bytes, width: nat): seq<Read>
    requires width > 0
  {
    if |packet| <= width then [Data(packet)] else [Data(packet[..width])] + Reads(packet[width..], width)
  }

  function Through(packets: seq<Bytes>, width: nat): seq<Read>
    requires width > 0
  {
    if packets == [] then [] else Reads(packets[0], width) + Through(packets[1..], width)
  }

  predicate AllFit(packets: seq<Bytes>, width: nat) {
    forall i :: 0 <= i < |packets| ==> |packets[i]| <= width
  }

  /** Packets that fit are read whole. */
  lemma {:induction false} FittingReadWhole(packets: seq<Bytes>, width: nat)
    requires width > 0 && AllFit(packets, width)
    ensures Through(packets, width) == Delivered(packets)
  {
    if packets != [] {
      FittingReadWhole(packets[1..], width);
      DeliveredAppend([packets[0]], packets[1..]);
      assert packets == [packets[0]] + packets[1..];
      assert Delivered([packets[0]]) == [Data(packets[0])];
    }
  }

  lemma {:induction false} ThroughAppend(a: seq<Bytes>, b: seq<Bytes>, width: nat)
    requires width > 0
    ensures Through(a + b, width) == Through(a, width) + Through(b, width)
  {
    if a == [] {
      assert a + b == b;
    } else {
      ThroughAppend(a[1..], b, width);
      assert (a + b)[0] == a[0] && (a + b)[1..] == a[1..] + b;
      Assoc(Reads(a[0], width), Through(a[1..], width), Through(b, width));
    }
  }

  // ------------------------------------------------------------ unchunked packets

  lemma SimpleSize(cmd: byte, opts: byte, seqno: byte, payload: Bytes)
    ensures |payload| < 128 ==> |SimplePacket(cmd, opts, seqno, payload)| == |payload| + 4
    ensures |payload| >= 128 ==> |SimplePacket(cmd, opts, seqno, payload)| >= |payload| + 5
    ensures 128 <= |payload| < 0x20_0000 ==> |SimplePacket(cmd, opts, seqno, payload)| <= |payload| + 7
  {
    var v := Varint(|payload|);
    assert OffsetField(None) == [];
    assert Odd(1) && Odd(3) && !Odd(0) && !Odd(2) && !Odd(4);
    if |payload| >= 128 {
      ShlTable(1);
      VarintLengthBound(|payload|, 1);
      VarintLengthBound(|payload|, 3);
    }
  }

  /** An unchunked packet fits the endpoint exactly up to 60 bytes of payload. */
  lemma SimpleFitsIff(cmd: byte, opts: byte, seqno: byte, payload: Bytes)
    ensures |SimplePacket(cmd, opts, seqno, payload)| <= EP_BYTES <==> |payload| <= 60
  {
    SimpleSize(cmd, opts, seqno, payload);
  }

  /** What the first read of an unchunked packet brings of its payload. */
  function FirstRead(opts: byte, seqno: byte, payload: Bytes, width: nat): Bytes {
    payload[..Min(|payload|, Max(0, width - |Header(CMD_AUTHENTICATE, opts, seqno, |payload|, None)|))]
  }

  /** The receiver takes a packet cut off behind its header for a shorter payload. */
  lemma SimpleCut(asm: Assembly, opts: byte, seqno: byte, payload: Bytes, width: nat)
    requires !IsChunk(opts) && !IsChunkStart(opts)
    requires |Header(CMD_AUTHENTICATE, opts, seqno, |payload|, None)| <= width
    ensures var packet := SimplePacket(CMD_AUTHENTICATE, opts, seqno, payload);
            OnRead(asm, Data(packet[..Min(width, |packet|)]))
            == Turn(Returned(FirstRead(opts, seqno, payload, width), seqno), [])
  {
    var h := Header(CMD_AUTHENTICATE, opts, seqno, |payload|, None);
    var packet, front := SimplePacket(CMD_AUTHENTICATE, opts, seqno, payload), FirstRead(opts, seqno, payload, width);
    assert packet[..Min(width, |packet|)] == h + front;
    HeaderRoundTrip(CMD_AUTHENTICATE, opts, seqno, |payload|, None, front);
    assert front[..Min(|payload|, |front|)] == front;
  }

  lemma FirstOfReads(packet: Bytes, width: nat) returns (tail: seq<Read>)
    requires width > 0
    ensures Reads(packet, width) == [Data(packet[..Min(width, |packet|)])] + tail
  {
    if |packet| <= width {
      tail := [];
      assert packet[..|packet|] == packet;
    } else {
      tail := Reads(packet[width..], width);
    }
  }

  /** An unchunked payload on its way to a receiver that reads `width` bytes at a time. */
  method Deliver(opts: byte, seqno: byte, payload: Bytes, width: nat) returns (arrived: Bytes)
    requires !IsChunk(opts) && !IsChunkStart(opts) && width >= EP_BYTES && |payload| < 0x20_0000
    ensures arrived == FirstRead(opts, seqno, payload, width)
  {
    var packet := SimplePacket(CMD_AUTHENTICATE, opts, seqno, payload);
    SimpleSize(CMD_AUTHENTICATE, opts, seqno, payload);
    SimpleCut(NoChunks, opts, seqno, payload, width);
    ghost var tail := FirstOfReads(packet, width);
    Front(NoChunks, Data(packet[..Min(width, |packet|)]), tail);
    var r := RecvAuthPkt(Reads(packet, width));
    arrived := r.outcome.value.payload;
  }

  // ------------------------------------------------------------ chunked transfers

  /** Below 16384 bytes every packet of a transfer fits, so all that `AuthLink` says of whole packets holds
      of 64-byte reads. */
  lemma WireReadWhole(payload: Bytes, seqno: byte, acks: seq<bool>, width: nat)
    requires |payload| < 16384 && width >= EP_BYTES
    ensures Through(Wire(payload, seqno, acks), width) == Delivered(Wire(payload, seqno, acks))
  {
    var w := Wire(payload, seqno, acks);
    WireFitsIff(payload, seqno, acks);
    forall i | 0 <= i < |w| ensures |w[i]| <= width {
      assert Fits(w[i]);
    }
    FittingReadWhole(w, width);
  }

  predicate FitsEndpoint(m: Message) {
    if m.Chunked? then |m.payload| < 16384 else |m.payload| <= 60
  }

  lemma {:induction false} StreamReadWhole(ms: seq<Message>)
    requires forall i :: 0 <= i < |ms| ==> FitsEndpoint(ms[i])
    ensures Through(Stream(ms), EP_BYTES) == Delivered(Stream(ms))
  {
    if ms != [] {
      StreamReadWhole(ms[1..]);
      MessageReadWhole(ms[0]);
      ThroughAppend(OnWire(ms[0]), Stream(ms[1..]), EP_BYTES);
      DeliveredAppend(OnWire(ms[0]), Stream(ms[1..]));
    }
  }

  lemma MessageReadWhole(m: Message)
    requires FitsEndpoint(m)
    ensures Through(OnWire(m), EP_BYTES) == Delivered(OnWire(m))
  {
    match m
    case Chunked(payload, seqno, acks) => WireReadWhole(payload, seqno, acks, EP_BYTES);
    case Simple(payload, seqno, wantsAck) =>
      SimpleFitsIff(CMD_AUTHENTICATE, if wantsAck then OPTS_ACK else OPTS_INTERNAL, seqno, payload);
      FittingReadWhole(OnWire(m), EP_BYTES);
  }

  /** One stream through 64-byte reads: messages that fit the endpoint come one by one, each as
      `AuthLink.ManyMessages` has it. */
  lemma ManyMessagesRead(ms: seq<Message>, stray: seq<Read>, input: seq<Read>)
    requires forall i :: 0 <= i < |ms| ==> FitsEndpoint(ms[i])
    requires Stray(stray) && Clean(input) == stray + Through(Stream(ms), EP_BYTES)
    ensures Calls(|ms|, input) == AllArriving(ms)
  {
    StreamReadWhole(ms);
    ManyMessages(ms, stray, input);
  }

  // ------------------------------------------------------------ transfers too large for the endpoint

  /** Zeros where bytes 56 and 57 of the payload belong. */
  predicate Holed(b: Bytes) { |b| >= 58 && b[56] == 0 && b[57] == 0 }

  predicate HoledAssembly(asm: Assembly) { asm.Partial? && Holed(asm.buf) && asm.recvd >= 58 }

  predicate HoledOutcome(o: Outcome) {
    match o
    case Continue(asm) => HoledAssembly(asm)
    case Returned(payload, _) => Holed(payload)
    case Raised => true
  }

  /** Header sizes for offsets of three varint bytes. */
  lemma WideHeader(opts: byte, seqno: byte, len: nat, offset: nat)
    requires len < 128
    ensures offset < 0x20_0000 ==> |Header(CMD_AUTHENTICATE, opts, seqno, len, Some(offset))| <= 8
    ensures 16384 <= offset < 0x20_0000 ==> |Header(CMD_AUTHENTICATE, opts, seqno, len, Some(offset))| == 8
    ensures offset < U32 ==> |Header(CMD_AUTHENTICATE, opts, seqno, len, Some(offset))| <= 10
  {
    var o := Varint(offset);
    VarintLengthBound(offset, 2);
    VarintLengthBound(offset, 3);
    VarintLengthBound(offset, 5);
    ShlTable(1);
    assert |Varint(len)| == 1 && OffsetField(Some(offset)) == o;
    assert Odd(1) && Odd(3) && Odd(5) && Odd(7) && !Odd(0) && !Odd(2) && !Odd(4) && !Odd(6) && !Odd(8);
  }

  /** The read of a chunk packet, cut off or not: the header is whole, the data may be short. */
  lemma ChunkCut(asm: Assembly, opts: byte, seqno: byte, len: nat, offset: nat, data: Bytes)
    requires IsChunk(opts) && |data| <= len < 128 && offset < U32
    ensures |Header(CMD_AUTHENTICATE, opts, seqno, len, Some(offset))| <= 10
    ensures var h := Header(CMD_AUTHENTICATE, opts, seqno, len, Some(offset));
            var packet, front := h + data, data[..Min(|data|, EP_BYTES - |h|)];
            OnRead(asm, Data(packet[..Min(EP_BYTES, |packet|)]))
               == OnAuth(asm, Fields(CMD_AUTHENTICATE, opts, seqno, |h|, len, offset), front)
  {
    WideHeader(opts, seqno, len, offset);
    var h := Header(CMD_AUTHENTICATE, opts, seqno, len, Some(offset));
    var packet, front := h + data, data[..Min(|data|, EP_BYTES - |h|)];
    assert packet[..Min(EP_BYTES, |packet|)] == h + front;
    ChunkHeaderRead(asm, opts, seqno, len, offset, front);
  }

  /** The first read of a transfer: from 16384 bytes on two bytes of the first chunk are missing, the
      buffer comes out two bytes short, and zeros stand in their place. */
  lemma FirstCut(asm: Assembly, payload: Bytes, seqno: byte)
    requires |payload| < U32
    ensures var packet := FirstPacket(payload, seqno);
            var t := OnRead(asm, Data(packet[..Min(EP_BYTES, |packet|)]));
            && (!Startable(payload) ==> t == Turn(Raised, []))
            && (Startable(payload) && |payload| >= 16384 ==>
                  t.outcome.Continue? && HoledAssembly(t.outcome.asm) && |t.outcome.asm.buf| == |payload| - 2)
  {
    ChunkCut(asm, OPTS_FIRST, seqno, 58, |payload|, payload[..Min(58, |payload|)]);
    WideHeader(OPTS_FIRST, seqno, 58, |payload|);
    assert IsChunkStart(OPTS_FIRST) && WantsAck(OPTS_FIRST);
    assert Packable(Ack(seqno, 58, |payload|)) <==> Startable(payload);
  }

  /** What the first read of a packet makes of a transfer. */
  function AfterRead(asm: Assembly, packet: Bytes): Outcome {
    OnRead(asm, Data(packet[..Min(EP_BYTES, |packet|)])).outcome
  }

  /** No later chunk fills the hole. */
  lemma HoleStays(asm: Assembly, payload: Bytes, seqno: byte, offset: nat)
    requires HoledAssembly(asm) && 58 <= offset < |payload| < U32
    ensures HoledOutcome(AfterRead(asm, ChunkPacket(payload, seqno, offset)))
  {
    var size, opts := ChunkSize(payload, offset), ChunkOpts(payload, offset);
    var data := payload[offset..offset + size];
    assert opts == OPTS_CHUNK || opts == OPTS_CHUNK_ACK;
    assert ChunkPacket(payload, seqno, offset) == Header(CMD_AUTHENTICATE, opts, seqno, size, Some(offset)) + data;
    CutHoled(asm, opts, seqno, size, offset, data);
  }

  lemma CutHoled(asm: Assembly, opts: byte, seqno: byte, size: nat, offset: nat, data: Bytes)
    requires HoledAssembly(asm) && IsChunk(opts) && !IsChunkStart(opts)
    requires |data| <= size < 128 && 58 <= offset < U32
    ensures var packet := Header(CMD_AUTHENTICATE, opts, seqno, size, Some(offset)) + data;
            HoledOutcome(OnRead(asm, Data(packet[..Min(EP_BYTES, |packet|)])).outcome)
  {
    ChunkCut(asm, opts, seqno, size, offset, data);
    var h := Header(CMD_AUTHENTICATE, opts, seqno, size, Some(offset));
    ChunkBehindHole(asm, Fields(CMD_AUTHENTICATE, opts, seqno, |h|, size, offset),
                    data[..Min(|data|, EP_BYTES - |h|)]);
  }

  lemma ChunkBehindHole(asm: Assembly, f: Fields, data: Bytes)
    requires HoledAssembly(asm) && IsChunk(f.opts) && !IsChunkStart(f.opts) && f.chunkOffset >= 58
    ensures HoledOutcome(OnAuth(asm, f, data).outcome)
  {
    var b := PyAssign(asm.buf, f.chunkOffset, f.chunkOffset + f.pktLen, data);
    assert b[..58] == asm.buf[..58] && b[56] == b[..58][56] && b[57] == b[..58][57];
  }

  lemma HoleReturned(asm: Assembly, payload: Bytes, seqno: byte)
    requires HoledAssembly(asm)
    ensures var t := OnRead(asm, Data(EmptyPacket(payload, seqno))); t.outcome.Returned? && HoledOutcome(t.outcome)
  {
    var h := Header(CMD_AUTHENTICATE, OPTS_CHUNK, seqno, 0, Some(|payload|));
    ChunkHeaderRead(asm, OPTS_CHUNK, seqno, 0, |payload|, []);
    assert h + [] == h;
    assert IsChunk(OPTS_CHUNK) && !IsChunkStart(OPTS_CHUNK);
  }

  /** A packet of up to 66 bytes is one read, and perhaps a second one too short for a header. */
  lemma ReadInFront(asm: Assembly, packet: Bytes, tail: seq<Read>)
    requires |packet| <= 66
    ensures var t := OnRead(asm, Data(packet[..Min(EP_BYTES, |packet|)]));
            Receive(asm, Reads(packet, EP_BYTES) + tail).outcome
            == if t.outcome.Continue? then Receive(t.outcome.asm, tail).outcome else Some(t.outcome)
  {
    var front := packet[..Min(EP_BYTES, |packet|)];
    if |packet| <= EP_BYTES {
      assert packet == front;
      Front(asm, Data(front), tail);
    } else {
      var rest := packet[EP_BYTES..];
      assert Reads(packet, EP_BYTES) + tail == [Data(front)] + ([Data(rest)] + tail);
      Front(asm, Data(front), [Data(rest)] + tail);
      assert PyFields(rest).None? && Noise(Data(rest));
      var t := OnRead(asm, Data(front));
      if t.outcome.Continue? {
        Front(t.outcome.asm, Data(rest), tail);
      }
    }
  }

  /** A call whose first read ends it does not see the rest. */
  lemma CallEnds(asm: Assembly, packet: Bytes, tail: seq<Read>)
    requires !OnRead(asm, Data(packet[..Min(EP_BYTES, |packet|)])).outcome.Continue?
    ensures Receive(asm, Reads(packet, EP_BYTES) + tail).outcome
            == Some(OnRead(asm, Data(packet[..Min(EP_BYTES, |packet|)])).outcome)
  {
    var front := packet[..Min(EP_BYTES, |packet|)];
    if |packet| <= EP_BYTES {
      assert packet == front;
      Front(asm, Data(front), tail);
    } else {
      Assoc([Data(front)], Reads(packet[EP_BYTES..], EP_BYTES), tail);
      Front(asm, Data(front), Reads(packet[EP_BYTES..], EP_BYTES) + tail);
    }
  }

  lemma PacketSizes(payload: Bytes, seqno: byte, offset: nat)
    requires offset <= |payload| < 0x20_0000
    ensures |FirstPacket(payload, seqno)| <= 66 && |ChunkPacket(payload, seqno, offset)| <= 66
    ensures |EmptyPacket(payload, seqno)| <= 66
  {
    WideHeader(OPTS_FIRST, seqno, 58, |payload|);
    WideHeader(ChunkOpts(payload, offset), seqno, ChunkSize(payload, offset), offset);
    WideHeader(OPTS_CHUNK, seqno, 0, |payload|);
  }

  /** So whatever a call returns of a holed transfer is holed. */
  lemma {:induction false} HoledToTheEnd(asm: Assembly, payload: Bytes, seqno: byte, offset: nat, acks: seq<bool>)
    requires HoledAssembly(asm) && 58 <= offset && |payload| < 0x20_0000
    ensures var rest := Chunks(payload, seqno, offset, acks) + [EmptyPacket(payload, seqno)];
            var o := Receive(asm, Through(rest, EP_BYTES)).outcome;
            o.Some? && !o.value.Continue? && HoledOutcome(o.value)
    decreases |acks|
  {
    if offset >= |payload| || acks == [] || !acks[0] {
      EmptyEnds(asm, payload, seqno);
      assert [] + [EmptyPacket(payload, seqno)] == [EmptyPacket(payload, seqno)];
    } else {
      var next, head := offset + ChunkSize(payload, offset), ChunkPacket(payload, seqno, offset);
      var rest := Chunks(payload, seqno, next, acks[1..]) + [EmptyPacket(payload, seqno)];
      Assoc([head], Chunks(payload, seqno, next, acks[1..]), [EmptyPacket(payload, seqno)]);
      PacketSizes(payload, seqno, offset);
      HeadReceived(asm, head, rest);
      HoleStays(asm, payload, seqno, offset);
      var o := AfterRead(asm, head);
      if o.Continue? {
        HoledToTheEnd(o.asm, payload, seqno, next, acks[1..]);
      }
    }
  }

  lemma HeadReceived(asm: Assembly, head: Bytes, rest: seq<Bytes>)
    requires |head| <= 66
    ensures var o := AfterRead(asm, head);
            Receive(asm, Through([head] + rest, EP_BYTES)).outcome
            == if o.Continue? then Receive(o.asm, Through(rest, EP_BYTES)).outcome else Some(o)
  {
    HeadThrough(head, rest);
    ReadInFront(asm, head, Through(rest, EP_BYTES));
  }

  lemma EmptyEnds(asm: Assembly, payload: Bytes, seqno: byte)
    requires HoledAssembly(asm) && |payload| < 0x20_0000
    ensures var o := Receive(asm, Through([EmptyPacket(payload, seqno)], EP_BYTES)).outcome;
            o.Some? && o.value.Returned? && HoledOutcome(o.value)
  {
    var empty := EmptyPacket(payload, seqno);
    HoleReturned(asm, payload, seqno);
    WideHeader(OPTS_CHUNK, seqno, 0, |payload|);
    assert [empty][1..] == [] && Through([empty], EP_BYTES) == [Data(empty)] + [];
    Front(asm, Data(empty), []);
  }

  lemma HeadThrough(head: Bytes, rest: seq<Bytes>)
    ensures Through([head] + rest, EP_BYTES) == Reads(head, EP_BYTES) + Through(rest, EP_BYTES)
  {
    assert ([head] + rest)[1..] == rest;
  }

  /** What a call returns of a transfer read 64 bytes at a time. */
  function ReadOutcome(payload: Bytes, seqno: byte, acks: seq<bool>): Option<Outcome> {
    Receive(NoChunks, Through(Wire(payload, seqno, acks), EP_BYTES)).outcome
  }

  /** A call raises, or returns a front of the payload. */
  predicate Safe(payload: Bytes, seqno: byte, acks: seq<bool>) {
    var o := ReadOutcome(payload, seqno, acks);
    o.Some? && (o.value.Raised? || (o.value.Returned? && o.value.payload <= payload))
  }

  /** From 16384 bytes on what comes back has zeros for bytes 56 and 57, whatever the payload has there. */
  lemma WideTransferHoled(payload: Bytes, seqno: byte, acks: seq<bool>)
    requires Startable(payload) && |payload| >= 16384
    ensures var o := ReadOutcome(payload, seqno, acks); o.Some? && !o.value.Continue? && HoledOutcome(o.value)
  {
    var head := FirstPacket(payload, seqno);
    var rest := Chunks(payload, seqno, 58, acks) + [EmptyPacket(payload, seqno)];
    PacketSizes(payload, seqno, 58);
    Assoc([head], Chunks(payload, seqno, 58, acks), [EmptyPacket(payload, seqno)]);
    HeadReceived(NoChunks, head, rest);
    FirstCut(NoChunks, payload, seqno);
    HoledToTheEnd(AfterRead(NoChunks, head).asm, payload, seqno, 58, acks);
  }

  lemma FittingSafe(payload: Bytes, seqno: byte, acks: seq<bool>)
    requires |payload| < 16384
    ensures Safe(payload, seqno, acks)
  {
    WireReadWhole(payload, seqno, acks, EP_BYTES);
    ChunkedReceived(payload, seqno, acks, []);
    assert Delivered(Wire(payload, seqno, acks)) + [] == Delivered(Wire(payload, seqno, acks));
  }

  /** With no ACK at all the second packet of a transfer is the empty one. */
  lemma UnackedReturns(payload: Bytes, seqno: byte)
    requires Startable(payload) && |payload| >= 16384
    ensures var o := ReadOutcome(payload, seqno, []); o.Some? && o.value.Returned? && Holed(o.value.payload)
  {
    var head, empty := FirstPacket(payload, seqno), EmptyPacket(payload, seqno);
    PacketSizes(payload, seqno, 58);
    assert Wire(payload, seqno, []) == [head] + [empty];
    HeadReceived(NoChunks, head, [empty]);
    FirstCut(NoChunks, payload, seqno);
    EmptyEnds(AfterRead(NoChunks, head).asm, payload, seqno);
  }

  lemma UnstartableRaises(payload: Bytes, seqno: byte, acks: seq<bool>)
    requires 0x1_0000 + 58 <= |payload| < U32
    ensures ReadOutcome(payload, seqno, acks) == Some(Raised)
  {
    var head := FirstPacket(payload, seqno);
    var rest := Chunks(payload, seqno, 58, acks) + [EmptyPacket(payload, seqno)];
    Assoc([head], Chunks(payload, seqno, 58, acks), [EmptyPacket(payload, seqno)]);
    HeadThrough(head, rest);
    FirstCut(NoChunks, payload, seqno);
    CallEnds(NoChunks, head, Through(rest, EP_BYTES));
  }

  /** Read 64 bytes at a time, transfers of `n` bytes are prefix-safe - a call raises or returns a front of
      the payload, for every payload and every pattern of ACKs - exactly if all their packets fit, or the
      first one already makes the receiver raise. */
  lemma PrefixSafeIff(n: nat)
    requires n < U32
    ensures n < 16384 || n >= 0x1_0000 + 58
            <==> forall payload, seqno, acks :: |payload| == n ==> Safe(payload, seqno, acks)
  {
    if n < 16384 {
      forall payload, seqno, acks | |payload| == n ensures Safe(payload, seqno, acks) {
        FittingSafe(payload, seqno, acks);
      }
    } else if n >= 0x1_0000 + 58 {
      forall payload, seqno, acks | |payload| == n ensures Safe(payload, seqno, acks) {
        UnstartableRaises(payload, seqno, acks);
      }
    } else {
      var payload: Bytes := seq(n, _ => 1);
      UnackedReturns(payload, 1);
      assert payload[56] == 1;
      assert !Safe(payload, 1, []);
    }
  }
}
