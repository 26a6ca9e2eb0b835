/** `_recv_auth_pkt` of gip_init.py: one AUTHENTICATE payload off the stream, chunked or not. */
module AuthRecv {
  import opened ByteSeqs
  import opened Gip
  import opened Varints
  import opened AuthSend

  /** A chunked transfer under way. */
  datatype Assembly = NoChunks | Partial(buf: Bytes, total: nat, recvd: nat, seqno: byte)

  /** `buf[lo:hi] = data` on a Python bytearray, which clips the bounds and may change the size. */
  function PyAssign(buf: Bytes, lo: nat, hi: nat, data: Bytes): Bytes {
    var l := Min(lo, |buf|);
    buf[..l] + data + buf[Max(l, Min(hi, |buf|))..]
  }

  /** One ACK: `received` so far and `remaining`, answering `seqno`. */
  datatype Ack = Ack(seqno: byte, received: nat, total: nat)

  /** `struct.pack('<H', ..)` raises on what does not fit 16 bits. */
  predicate Packable(a: Ack) { a.received < 0x1_0000 && 0 <= a.total - a.received < 0x1_0000 }

  /** The packet `_send_gip_ack_for_chunk` sends. */
  function AckPacket(a: Ack, cmd: byte): Bytes
    requires Packable(a)
  {
    SimplePacket(CMD_ACKNOWLEDGE, OPTS_INTERNAL, a.seqno,
                 [0x00, cmd, OPTS_INTERNAL] + Le16(a.received) + [0, 0] + Le16(a.total - a.received))
  }

  /** The sender's wait recognises these ACKs, which carry the bytes received and the bytes remaining. */
  lemma AckIsRecognised(a: Ack, cmd: byte)
    requires Packable(a)
    ensures IsAckFor(AckPacket(a, cmd), cmd)
    ensures PyFields(AckPacket(a, cmd)).Some? && PyFields(AckPacket(a, cmd)).value.seqno == a.seqno
    ensures var f := PyFields(AckPacket(a, cmd)).value;
            var p := PySlice(AckPacket(a, cmd), f.hdrLen, f.pktLen);
            && |p| == 9 && p[..3] == [0x00, cmd, 0x21] && p[5..7] == [0, 0]
            && FromLe16(p[3..5]) == a.received && FromLe16(p[7..9]) == a.total - a.received
  {
    var p := [0x00, cmd, OPTS_INTERNAL] + Le16(a.received) + [0, 0] + Le16(a.total - a.received);
    HeaderRoundTrip(CMD_ACKNOWLEDGE, OPTS_INTERNAL, a.seqno, |p|, None, p);
    assert p[..9] == p;
    assert p[3..5] == Le16(a.received) && p[7..9] == Le16(a.total - a.received);
  }

  /** The ACK literally: 13 bytes, both counts low byte first. */
  lemma AckOnWire(a: Ack, cmd: byte)
    requires Packable(a)
    ensures var left := a.total - a.received;
            AckPacket(a, cmd)
            == [0x01, 0x21, a.seqno, 9, 0x00, cmd, 0x21, (a.received % 256) as byte, (a.received / 256) as byte,
                0, 0, (left % 256) as byte, (left / 256) as byte]
  {
    assert Varint(9) == [9] && OffsetField(None) == [] && !Odd(0) && !Odd(2) && !Odd(4);
    assert Header(0x01, 0x21, a.seqno, 9, None) == [0x01, 0x21, a.seqno, 9];
  }

  function FromLe16(b: Bytes): nat
    requires |b| == 2
  {
    b[0] as nat + 256 * b[1] as nat
  }

  // ------------------------------------------------------------ one packet

  datatype Outcome = Continue(asm: Assembly) | Returned(payload: Bytes, seqno: byte) | Raised

  datatype Turn = Turn(outcome: Outcome, acks: seq<Ack>)

  /** The ACK for a flagged chunk, if it can be packed. */
  function Acking(opts: byte, a: Ack, next: Outcome): Turn {
    if !WantsAck(opts) then Turn(next, [])
    else if Packable(a) then Turn(next, [a])
    else Turn(Raised, [])
  }

  /** What the receiver does with an AUTHENTICATE packet. */
  function OnAuth(asm: Assembly, f: Fields, data: Bytes): Turn {
    if IsChunkStart(f.opts) then
      var buf := PyAssign(Zeros(f.chunkOffset), 0, f.pktLen, data);
      Acking(f.opts, Ack(f.seqno, f.pktLen, f.chunkOffset),
             Continue(Partial(buf, f.chunkOffset, f.pktLen, f.seqno)))
    else if IsChunk(f.opts) then
      if asm.NoChunks? then Turn(Continue(asm), [])
      else if f.pktLen == 0 then Turn(Returned(asm.buf[..Min(asm.recvd, |asm.buf|)], asm.seqno), [])
      else
        var end := f.chunkOffset + f.pktLen;
        var buf := PyAssign(asm.buf, f.chunkOffset, end, data);
        Acking(f.opts, Ack(f.seqno, end, asm.total),
               if end >= asm.total then Returned(buf, asm.seqno)
               else Continue(Partial(buf, asm.total, end, asm.seqno)))
    else Turn(Returned(data, f.seqno), [])
  }

  /** Reads that change nothing: timeouts, errors, empty or short packets, other commands. */
  predicate Noise(e: Read) {
    e.NoData? || PyFields(e.raw).None? || PyFields(e.raw).value.cmd != CMD_AUTHENTICATE
  }

  function OnRead(asm: Assembly, e: Read): Turn {
    if Noise(e) then Turn(Continue(asm), [])
    else
      var f := PyFields(e.raw).value;
      OnAuth(asm, f, PySlice(e.raw, f.hdrLen, f.pktLen))
  }

  /** Timeouts, packets too short for a header and packets of other commands are skipped. */
  lemma OthersSkipped(asm: Assembly, e: Read)
    requires e.NoData? || |e.raw| < 4 || e.raw[0] != 0x06
    ensures OnRead(asm, e) == Turn(Continue(asm), [])
  {
  }

  // ------------------------------------------------------------ the whole call

  /** `None` when the deadline passes, which is where the list of reads ends. */
  datatype Result = Result(outcome: Option<Outcome>, acks: seq<Ack>, rest: seq<Read>)

  function Receive(asm: Assembly, input: seq<Read>): Result
    decreases |input|
  {
    if input == [] then Result(None, [], [])
    else
      var t := OnRead(asm, input[0]);
      if t.outcome.Continue? then
        var r := Receive(t.outcome.asm, input[1..]);
        Result(r.outcome, t.acks + r.acks, r.rest)
      else Result(Some(t.outcome), t.acks, input[1..])
  }

  function Prepended(acks: seq<Ack>, r: Result): Result {
    Result(r.outcome, acks + r.acks, r.rest)
  }

  /** Taking one read off the front of what is left. */
  lemma ReceiveTurn(asm: Assembly, input: seq<Read>, i: nat, acks: seq<Ack>)
    requires i < |input|
    ensures var t := OnRead(asm, input[i]);
            Prepended(acks, Receive(asm, input[i..]))
            == if t.outcome.Continue? then Prepended(acks + t.acks, Receive(t.outcome.asm, input[i + 1..]))
               else Result(Some(t.outcome), acks + t.acks, input[i + 1..])
  {
    var t := OnRead(asm, input[i]);
    assert input[i..][0] == input[i] && input[i..][1..] == input[i + 1..];
    if t.outcome.Continue? {
      Assoc(acks, t.acks, Receive(t.outcome.asm, input[i + 1..]).acks);
    }
  }

  /** `_recv_auth_pkt`. */
  method RecvAuthPkt(input: seq<Read>) returns (r: Result)
    ensures r == Receive(NoChunks, input)
  {
    var asm := NoChunks;
    var acks: seq<Ack> := [];
    assert input[0..] == input;
    assert Prepended([], Receive(asm, input)) == Receive(asm, input);
    for i := 0 to |input|
      invariant Receive(NoChunks, input) == Prepended(acks, Receive(asm, input[i..]))
    {
      ReceiveTurn(asm, input, i, acks);
      var t := ReadTurn(asm, input[i]);
      acks := acks + t.acks;
      if !t.outcome.Continue? {
        return Result(Some(t.outcome), acks, input[i + 1..]);
      }
      asm := t.outcome.asm;
    }
    assert acks + [] == acks;
    return Result(None, acks, []);
  }

  /** The body of the loop. */
  method ReadTurn(asm: Assembly, e: Read) returns (t: Turn)
    ensures t == OnRead(asm, e)
  {
    if e.NoData? || e.raw == [] {
      return Turn(Continue(asm), []);
    }
    var h := DecodeGipHeader(e.raw);
    if h.None? || h.value.cmd != CMD_AUTHENTICATE {
      return Turn(Continue(asm), []);
    }
    t := RecvAuthTurn(asm, h.value, PySlice(e.raw, h.value.hdrLen, h.value.pktLen));
  }

  /** The AUTHENTICATE branch of the loop. */
  method RecvAuthTurn(asm: Assembly, f: Fields, data: Bytes) returns (t: Turn)
    ensures t == OnAuth(asm, f, data)
  {
    if IsChunkStart(f.opts) {
      var total := f.chunkOffset;
      var buf := Zeros(total);
      buf := PyAssign(buf, 0, f.pktLen, data);
      var recvd := f.pktLen;
      t := Acking(f.opts, Ack(f.seqno, recvd, total), Continue(Partial(buf, total, recvd, f.seqno)));
    } else if IsChunk(f.opts) {
      if asm.NoChunks? {
        return Turn(Continue(asm), []);
      }
      if f.pktLen == 0 {
        return Turn(Returned(asm.buf[..Min(asm.recvd, |asm.buf|)], asm.seqno), []);
      }
      var end := f.chunkOffset + f.pktLen;
      var buf := PyAssign(asm.buf, f.chunkOffset, end, data);
      var next := Continue(Partial(buf, asm.total, end, asm.seqno));
      if end >= asm.total {
        next := Returned(buf, asm.seqno);
      }
      t := Acking(f.opts, Ack(f.seqno, end, asm.total), next);
    } else {
      t := Turn(Returned(data, f.seqno), []);
    }
  }

  // ------------------------------------------------------------ noise does not matter

  function Clean(input: seq<Read>): seq<Read> {
    if input == [] then []
    else if Noise(input[0]) then Clean(input[1..])
    else [input[0]] + Clean(input[1..])
  }

  /** Timeouts, errors and packets of other commands, wherever they come, change neither what is
      returned nor which ACKs go out, nor what is left for the next call. */
  lemma {:induction false} NoiseIgnored(asm: Assembly, input: seq<Read>)
    ensures var r, c := Receive(asm, input), Receive(asm, Clean(input));
            r.outcome == c.outcome && r.acks == c.acks && Clean(r.rest) == c.rest
    decreases |input|
  {
    if input != [] {
      var t := OnRead(asm, input[0]);
      if Noise(input[0]) {
        NoiseIgnored(asm, input[1..]);
        assert [] + Receive(asm, input[1..]).acks == Receive(asm, input[1..]).acks;
      } else {
        assert Clean(input)[0] == input[0] && Clean(input)[1..] == Clean(input[1..]);
        if t.outcome.Continue? {
          NoiseIgnored(t.outcome.asm, input[1..]);
        }
      }
    }
  }
}
