/** The stop-and-wait sender of gip_init.py: AUTHENTICATE payloads in chunks, one ACK each. */
module AuthSend {
  import opened ByteSeqs
  import opened Varints
  import opened Gip

  const PKT_MAX_LEN: nat := 58

  /** 0x21 with ACK; with CHUNK; with both; with CHUNK_START too. */
  const OPTS_ACK: byte := 0x31
  const OPTS_CHUNK: byte := 0xA1
  const OPTS_CHUNK_ACK: byte := 0xB1
  const OPTS_FIRST: byte := 0xF1

  /** One read on the interrupt endpoint: a packet, or a timeout or USB error. */
  datatype Read = Data(raw: Bytes) | NoData

  // ------------------------------------------------------------ waiting for an ACK

  /** An ACKNOWLEDGE packet whose payload names `cmd`. */
  predicate IsAckFor(raw: Bytes, cmd: byte) {
    match PyFields(raw)
    case None => false
    case Some(f) =>
      var payload := PySlice(raw, f.hdrLen, f.pktLen);
      f.cmd == CMD_ACKNOWLEDGE && |payload| >= 2 && payload[1] == cmd
  }

  predicate AckSeen(inbox: seq<Read>, cmd: byte) {
    exists k :: 0 <= k < |inbox| && inbox[k].Data? && IsAckFor(inbox[k].raw, cmd)
  }

  /** `_wait_for_gip_ack`: the reads up to the deadline, whatever else they bring. */
  method WaitForGipAck(inbox: seq<Read>, cmd: byte) returns (ok: bool)
    ensures ok == AckSeen(inbox, cmd)
  {
    for i := 0 to |inbox|
      invariant forall k :: 0 <= k < i ==> !(inbox[k].Data? && IsAckFor(inbox[k].raw, cmd))
    {
      if inbox[i].NoData? || inbox[i].raw == [] {
        continue;
      }
      var raw := inbox[i].raw;
      var h := DecodeGipHeader(raw);
      if h.None? {
        continue;
      }
      if h.value.cmd == CMD_ACKNOWLEDGE {
        var payload := PySlice(raw, h.value.hdrLen, h.value.pktLen);
        if |payload| >= 2 && payload[1] == cmd {
          return true;
        }
      }
    }
    return false;
  }

  // ------------------------------------------------------------ what is an ACK, and what is not

  /** A packet is an ACK for `cmd` exactly if its command is ACKNOWLEDGE and its payload names `cmd`. */
  lemma AckIff(command: byte, opts: byte, seqno: byte, offset: Option<nat>, payload: Bytes, cmd: byte)
    requires offset.Some? <==> IsChunk(opts)
    ensures IsAckFor(Header(command, opts, seqno, |payload|, offset) + payload, cmd)
            <==> command == 0x01 && |payload| >= 2 && payload[1] == cmd
  {
    HeaderRoundTrip(command, opts, seqno, |payload|, offset, payload);
    assert payload[..|payload|] == payload;
  }

  /** Whatever does not start with ACKNOWLEDGE never is one. */
  lemma OtherCommandNoAck(raw: Bytes, cmd: byte)
    requires |raw| < 4 || raw[0] != 0x01
    ensures !IsAckFor(raw, cmd)
  {
  }

  /** What may come in during a wait without answering it: silence, packets of other commands, and ACKs
      for other commands. */
  datatype Unrelated = Silence | Foreign(raw: Bytes) | OtherAck(opts: byte, seqno: byte, payload: Bytes)

  predicate IsUnrelated(u: Unrelated) {
    match u
    case Silence => true
    case Foreign(raw) => |raw| < 4 || raw[0] != 0x01
    case OtherAck(opts, _, payload) => !IsChunk(opts) && (|payload| < 2 || payload[1] != 0x06)
  }

  function UnrelatedRead(u: Unrelated): Read {
    match u
    case Silence => NoData
    case Foreign(raw) => Data(raw)
    case OtherAck(opts, seqno, payload) => Data(Header(0x01, opts, seqno, |payload|, None) + payload)
  }

  function UnrelatedReads(us: seq<Unrelated>): seq<Read> {
    seq(|us|, k requires 0 <= k < |us| => UnrelatedRead(us[k]))
  }

  lemma UnrelatedNotSeen(us: seq<Unrelated>)
    requires forall k :: 0 <= k < |us| ==> IsUnrelated(us[k])
    ensures !AckSeen(UnrelatedReads(us), CMD_AUTHENTICATE)
  {
    var inbox := UnrelatedReads(us);
    forall k | 0 <= k < |inbox| ensures !(inbox[k].Data? && IsAckFor(inbox[k].raw, CMD_AUTHENTICATE)) {
      assert IsUnrelated(us[k]);
      match us[k]
      case Silence =>
      case Foreign(raw) => OtherCommandNoAck(raw, CMD_AUTHENTICATE);
      case OtherAck(opts, seqno, payload) => AckIff(0x01, opts, seqno, None, payload, CMD_AUTHENTICATE);
    }
  }

  /** A wait that brings nothing but such reads is a timeout: of a payload of more than one chunk only the
      first chunk and the empty one go out. */
  lemma UnrelatedStops(payload: Bytes, seqno: byte, first: seq<Unrelated>, more: seq<seq<Read>>)
    requires forall k :: 0 <= k < |first| ==> IsUnrelated(first[k])
    ensures Wire(payload, seqno, Acks([UnrelatedReads(first)] + more))
            == [FirstPacket(payload, seqno), EmptyPacket(payload, seqno)]
  {
    UnrelatedNotSeen(first);
    var inboxes := [UnrelatedReads(first)] + more;
    assert Acks(inboxes)[0] == AckSeen(inboxes[0], CMD_AUTHENTICATE);
  }

  /** An ACK for AUTHENTICATE ends the wait wherever it comes among other reads. */
  lemma AckAnywhere(before: seq<Read>, opts: byte, seqno: byte, payload: Bytes, after: seq<Read>)
    requires !IsChunk(opts) && |payload| >= 2 && payload[1] == 0x06
    ensures AckSeen(before + [Data(Header(0x01, opts, seqno, |payload|, None) + payload)] + after, CMD_AUTHENTICATE)
  {
    AckIff(0x01, opts, seqno, None, payload, CMD_AUTHENTICATE);
    var inbox := before + [Data(Header(0x01, opts, seqno, |payload|, None) + payload)] + after;
    assert inbox[|before|].Data? && IsAckFor(inbox[|before|].raw, CMD_AUTHENTICATE);
  }

  // ------------------------------------------------------------ the packets

  function FirstPacket(payload: Bytes, seqno: byte): Bytes {
    Header(CMD_AUTHENTICATE, OPTS_FIRST, seqno, 58, Some(|payload|)) + payload[..Min(58, |payload|)]
  }

  function ChunkSize(payload: Bytes, offset: nat): nat {
    Min(Max(0, |payload| - offset), 58)
  }

  function ChunkOpts(payload: Bytes, offset: nat): byte {
    if offset + ChunkSize(payload, offset) == |payload| then OPTS_CHUNK_ACK else OPTS_CHUNK
  }

  function ChunkPacket(payload: Bytes, seqno: byte, offset: nat): Bytes
    requires offset <= |payload|
  {
    var size := ChunkSize(payload, offset);
    Header(CMD_AUTHENTICATE, ChunkOpts(payload, offset), seqno, size, Some(offset)) + payload[offset..offset + size]
  }

  function EmptyPacket(payload: Bytes, seqno: byte): Bytes {
    Header(CMD_AUTHENTICATE, OPTS_CHUNK, seqno, 0, Some(|payload|))
  }

  /** The chunks after the first: one for every ACK, until the payload ends or a wait times out. */
  function Chunks(payload: Bytes, seqno: byte, offset: nat, acks: seq<bool>): seq<Bytes>
    decreases |acks|
  {
    if offset >= |payload| || acks == [] || !acks[0] then []
    else [ChunkPacket(payload, seqno, offset)]
         + Chunks(payload, seqno, offset + ChunkSize(payload, offset), acks[1..])
  }

  /** How far into the payload those chunks get. */
  function SentFrom(payload: Bytes, offset: nat, acks: seq<bool>): nat
    decreases |acks|
  {
    if offset >= |payload| || acks == [] || !acks[0] then offset
    else SentFrom(payload, offset + ChunkSize(payload, offset), acks[1..])
  }

  /** Everything a chunked send puts on the wire. */
  function Wire(payload: Bytes, seqno: byte, acks: seq<bool>): seq<Bytes> {
    [FirstPacket(payload, seqno)] + Chunks(payload, seqno, 58, acks) + [EmptyPacket(payload, seqno)]
  }

  /** The payload bytes in the data chunks that went out. */
  function Sent(payload: Bytes, acks: seq<bool>): nat {
    Min(SentFrom(payload, 58, acks), |payload|)
  }

  /** Which of the waits saw their ACK. */
  function Acks(inboxes: seq<seq<Read>>): seq<bool> {
    seq(|inboxes|, k requires 0 <= k < |inboxes| => AckSeen(inboxes[k], CMD_AUTHENTICATE))
  }

  lemma OneMoreChunk(payload: Bytes, seqno: byte, offset: nat, acks: seq<bool>, turn: nat, sent: seq<Bytes>)
    requires offset < |payload| && turn < |acks| && acks[turn]
    ensures sent + Chunks(payload, seqno, offset, acks[turn..])
            == sent + [ChunkPacket(payload, seqno, offset)]
               + Chunks(payload, seqno, offset + ChunkSize(payload, offset), acks[turn + 1..])
  {
    assert acks[turn..][1..] == acks[turn + 1..];
    Assoc(sent, [ChunkPacket(payload, seqno, offset)],
          Chunks(payload, seqno, offset + ChunkSize(payload, offset), acks[turn + 1..]));
  }

  /** `_gip_auth_send_chunked`. `inboxes[k]` is what comes in during the k-th wait; waits beyond the
      list time out. The last wait, before the empty chunk, decides nothing. */
  method GipAuthSendChunked(payload: Bytes, seqno: byte, inboxes: seq<seq<Read>>) returns (wire: seq<Bytes>)
    ensures wire == Wire(payload, seqno, Acks(inboxes))
  {
    var total := |payload|;
    var firstHdr := Header(CMD_AUTHENTICATE, OPTS_FIRST, seqno, PKT_MAX_LEN, Some(total));
    wire := [firstHdr + payload[..Min(PKT_MAX_LEN, total)]];
    var chunks := SendChunks(payload, seqno, inboxes);
    wire := wire + chunks;
    wire := wire + [Header(CMD_AUTHENTICATE, OPTS_CHUNK, seqno, 0, Some(total))];
  }

  /** The loop of `_gip_auth_send_chunked`. */
  method SendChunks(payload: Bytes, seqno: byte, inboxes: seq<seq<Read>>) returns (sent: seq<Bytes>)
    ensures sent == Chunks(payload, seqno, 58, Acks(inboxes))
  {
    ghost var acks := Acks(inboxes);
    sent := [];
    var offset := PKT_MAX_LEN;
    var remaining: int := |payload| - PKT_MAX_LEN;
    var waits := 0;
    assert acks[0..] == acks;
    while remaining > 0
      invariant remaining == |payload| - offset && waits <= |acks| == |inboxes|
      invariant SentSoFar(payload, seqno, acks, waits, offset, sent)
      decreases remaining
    {
      var acked;
      acked, sent, offset, remaining := ChunkAfterWait(payload, seqno, inboxes, waits, offset, remaining, sent, acks);
      if !acked {
        return;
      }
      waits := waits + 1;
    }
    NoMoreChunks(payload, seqno, offset, acks[waits..], sent);
  }

  /** One turn of that loop: waits for the ACK of the chunk before, and sends the next one after it. */
  method ChunkAfterWait(payload: Bytes, seqno: byte, inboxes: seq<seq<Read>>, waits: nat, offset: nat,
                        remaining: nat, sent: seq<Bytes>, ghost acks: seq<bool>)
    returns (acked: bool, sent': seq<Bytes>, offset': nat, remaining': int)
    requires acks == Acks(inboxes) && waits <= |inboxes| && 0 < remaining == |payload| - offset
    requires SentSoFar(payload, seqno, acks, waits, offset, sent)
    ensures !acked ==> sent' == Chunks(payload, seqno, 58, acks)
    ensures acked ==> waits < |inboxes| && remaining' == |payload| - offset' < remaining
    ensures acked ==> SentSoFar(payload, seqno, acks, waits + 1, offset', sent')
  {
    sent', offset', remaining' := sent, offset, remaining;
    acked := WaitForTurn(inboxes, waits, acks);
    if !acked {
      NoMoreChunks(payload, seqno, offset, acks[waits..], sent);
      return;
    }
    OneMoreChunk(payload, seqno, offset, acks, waits, sent);
    var packet;
    packet, offset', remaining' := SendOne(payload, seqno, offset, remaining);
    sent' := sent + [packet];
  }

  /** With what is still to come, these are all the chunks. */
  predicate SentSoFar(payload: Bytes, seqno: byte, acks: seq<bool>, waits: nat, offset: nat, sent: seq<Bytes>)
    requires waits <= |acks|
  {
    sent + Chunks(payload, seqno, offset, acks[waits..]) == Chunks(payload, seqno, 58, acks)
  }

  lemma NoMoreChunks(payload: Bytes, seqno: byte, offset: nat, acks: seq<bool>, sent: seq<Bytes>)
    requires offset >= |payload| || acks == [] || !acks[0]
    ensures sent + Chunks(payload, seqno, offset, acks) == sent
  {
  }

  /** The wait of one turn. */
  method WaitForTurn(inboxes: seq<seq<Read>>, turn: nat, ghost acks: seq<bool>) returns (acked: bool)
    requires acks == Acks(inboxes) && turn <= |inboxes|
    ensures acked == (acks[turn..] != [] && acks[turn..][0])
  {
    if turn == |inboxes| {
      return false;
    }
    acked := WaitForGipAck(inboxes[turn], CMD_AUTHENTICATE);
    assert acks[turn..][0] == acks[turn];
  }

  /** One turn of that loop after its ACK. */
  method SendOne(payload: Bytes, seqno: byte, offset: nat, remaining: nat)
    returns (packet: Bytes, next: nat, left: int)
    requires 0 < remaining == |payload| - offset
    ensures packet == ChunkPacket(payload, seqno, offset)
    ensures next == offset + ChunkSize(payload, offset) && left == |payload| - next < remaining
  {
    var chunkSize := if remaining <= PKT_MAX_LEN then remaining else PKT_MAX_LEN;
    var isLast := chunkSize == remaining;
    var co := if isLast then OPTS_CHUNK_ACK else OPTS_CHUNK;
    var hdr := Header(CMD_AUTHENTICATE, co, seqno, chunkSize, Some(offset));
    packet := hdr + payload[offset..offset + chunkSize];
    next := offset + chunkSize;
    left := remaining - chunkSize;
  }

  // ------------------------------------------------------------ every chunk acknowledged

  lemma {:induction false} SentFromBounds(payload: Bytes, offset: nat, acks: seq<bool>)
    ensures SentFrom(payload, offset, acks) >= offset
    ensures offset <= |payload| ==> SentFrom(payload, offset, acks) <= |payload|
    decreases |acks|
  {
    if offset < |payload| && acks != [] && acks[0] {
      SentFromBounds(payload, offset + ChunkSize(payload, offset), acks[1..]);
    }
  }

  /** A peer that acknowledges every chunk gets the whole payload. */
  lemma {:induction false} AckedIsComplete(payload: Bytes, offset: nat, acks: seq<bool>)
    requires offset <= |payload| <= offset + 58 * |acks|
    requires forall k :: 0 <= k < |acks| ==> acks[k]
    ensures SentFrom(payload, offset, acks) == |payload|
    decreases |acks|
  {
    if offset < |payload| {
      AckedIsComplete(payload, offset + ChunkSize(payload, offset), acks[1..]);
    }
  }

  /** The data a receiver finds in a packet. */
  function DataOf(packet: Bytes): Bytes {
    match PyFields(packet)
    case None => []
    case Some(f) => PySlice(packet, f.hdrLen, f.pktLen)
  }

  function AllData(packets: seq<Bytes>): Bytes {
    if packets == [] then [] else DataOf(packets[0]) + AllData(packets[1..])
  }

  lemma HeaderCarries(opts: byte, seqno: byte, offset: nat, data: Bytes)
    requires IsChunk(opts)
    ensures DataOf(Header(CMD_AUTHENTICATE, opts, seqno, |data|, Some(offset)) + data) == data
  {
    HeaderRoundTrip(CMD_AUTHENTICATE, opts, seqno, |data|, Some(offset), data);
    assert data[..|data|] == data;
  }

  lemma ChunkCarries(payload: Bytes, seqno: byte, offset: nat)
    requires offset <= |payload|
    ensures DataOf(ChunkPacket(payload, seqno, offset)) == payload[offset..offset + ChunkSize(payload, offset)]
  {
    var opts, data := ChunkOpts(payload, offset), payload[offset..offset + ChunkSize(payload, offset)];
    assert opts == OPTS_CHUNK || opts == OPTS_CHUNK_ACK;
    assert |data| == ChunkSize(payload, offset);
    assert ChunkPacket(payload, seqno, offset) == Header(CMD_AUTHENTICATE, opts, seqno, |data|, Some(offset)) + data;
    HeaderCarries(opts, seqno, offset, data);
  }

  /** The data chunks partition what goes out: put behind the part before them, they make up the
      payload as far as it is sent. */
  lemma {:induction false} ChunksPartition(payload: Bytes, seqno: byte, offset: nat, acks: seq<bool>)
    requires offset <= |payload|
    ensures SentFrom(payload, offset, acks) <= |payload|
    ensures payload[..offset] + AllData(Chunks(payload, seqno, offset, acks))
            == payload[..SentFrom(payload, offset, acks)]
    decreases |acks|
  {
    if offset < |payload| && acks != [] && acks[0] {
      var next := offset + ChunkSize(payload, offset);
      ChunkCarries(payload, seqno, offset);
      PacketInFront(payload, ChunkPacket(payload, seqno, offset), offset, next,
                    Chunks(payload, seqno, next, acks[1..]));
      ChunksPartition(payload, seqno, next, acks[1..]);
    }
  }

  lemma PacketInFront(payload: Bytes, packet: Bytes, offset: nat, next: nat, rest: seq<Bytes>)
    requires offset <= next <= |payload| && DataOf(packet) == payload[offset..next]
    ensures payload[..offset] + AllData([packet] + rest) == payload[..next] + AllData(rest)
  {
    assert ([packet] + rest)[1..] == rest;
    Assoc(payload[..offset], payload[offset..next], AllData(rest));
    assert payload[..offset] + payload[offset..next] == payload[..next];
  }

  // ------------------------------------------------------------ the 64-byte endpoint

  lemma HeaderSize(opts: byte, seqno: byte, len: nat, offset: nat)
    requires len < 128
    ensures |Header(CMD_AUTHENTICATE, opts, seqno, len, Some(offset))| <= 6 <==> offset < 16384
  {
    var o := Varint(offset);
    VarintLengthBound(offset, 1);
    VarintLengthBound(offset, 2);
    ShlTable(1);
    assert |Varint(len)| == 1;
    if |o| == 1 {
      assert Odd(1) && Odd(3) && Odd(5);
    } else if |o| == 2 {
      assert !Odd(0) && !Odd(2) && !Odd(4) && !Odd(6);
    }
  }

  predicate Fits(packet: Bytes) { |packet| <= 64 }

  lemma {:induction false} ChunksFit(payload: Bytes, seqno: byte, offset: nat, acks: seq<bool>, i: nat)
    requires |payload| < 16384 && i < |Chunks(payload, seqno, offset, acks)|
    ensures Fits(Chunks(payload, seqno, offset, acks)[i])
    decreases |acks|
  {
    var size := ChunkSize(payload, offset);
    HeaderSize(ChunkOpts(payload, offset), seqno, size, offset);
    if i > 0 {
      ChunksFit(payload, seqno, offset + size, acks[1..], i - 1);
    }
  }

  /** Every packet of a chunked send fits the 64-byte interrupt endpoint exactly for payloads below
      16384 bytes: from there on the offset field needs a third byte and the first packet 66. */
  lemma WireFitsIff(payload: Bytes, seqno: byte, acks: seq<bool>)
    ensures (forall i :: 0 <= i < |Wire(payload, seqno, acks)| ==> Fits(Wire(payload, seqno, acks)[i]))
            <==> |payload| < 16384
  {
    var w, c := Wire(payload, seqno, acks), Chunks(payload, seqno, 58, acks);
    HeaderSize(OPTS_FIRST, seqno, 58, |payload|);
    HeaderSize(OPTS_CHUNK, seqno, 0, |payload|);
    assert w[0] == FirstPacket(payload, seqno);
    if |payload| < 16384 {
      forall i | 0 <= i < |w| ensures Fits(w[i]) {
        if 0 < i <= |c| {
          assert w[i] == c[i - 1];
          ChunksFit(payload, seqno, 58, acks, i - 1);
        }
      }
    }
  }

  // ------------------------------------------------------------ the packets byte for byte

  /** A header with a length of one byte and an offset of two. */
  lemma TwoByteOffset(cmd: byte, opts: byte, seqno: byte, len: nat, offset: nat)
    requires len < 128 <= offset < 16384
    ensures Header(cmd, opts, seqno, len, Some(offset))
            == [cmd, opts, seqno, len as byte, (offset % 128 + 128) as byte, (offset / 128) as byte]
  {
    var o := Varint(offset);
    assert o == [(offset % 128 + 128) as byte] + Varint(offset / 128);
    assert Varint(offset / 128) == [(offset / 128) as byte];
    assert Varint(len) == [len as byte];
    assert !Odd(0) && !Odd(2) && !Odd(4) && !Odd(6);
  }

  /** The packets of a transfer of 128 to 16383 bytes, literally. */
  lemma PacketsOnWire(payload: Bytes, seqno: byte, offset: nat)
    requires 128 <= |payload| < 16384 && 128 <= offset < |payload|
    ensures FirstPacket(payload, seqno)
            == [0x06, 0xF1, seqno, 58, (|payload| % 128 + 128) as byte, (|payload| / 128) as byte] + payload[..58]
    ensures EmptyPacket(payload, seqno)
            == [0x06, 0xA1, seqno, 0, (|payload| % 128 + 128) as byte, (|payload| / 128) as byte]
    ensures var size, last := Min(58, |payload| - offset), |payload| - offset <= 58;
            ChunkPacket(payload, seqno, offset)
            == [0x06, if last then 0xB1 else 0xA1, seqno, size as byte,
                (offset % 128 + 128) as byte, (offset / 128) as byte] + payload[offset..offset + size]
  {
    TwoByteOffset(0x06, 0xF1, seqno, 58, |payload|);
    TwoByteOffset(0x06, 0xA1, seqno, 0, |payload|);
    TwoByteOffset(0x06, ChunkOpts(payload, offset), seqno, ChunkSize(payload, offset), offset);
  }
}
