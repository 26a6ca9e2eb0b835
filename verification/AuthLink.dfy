/** Sender and receiver of gip_init.py joined by a link that delivers packets whole and in order, however
    long: `Endpoint` says what 64-byte reads make of that. */
module AuthLink {
  import opened ByteSeqs
  import opened Gip
  import opened AuthSend
  import opened AuthRecv

  function Delivered(packets: seq<Bytes>): seq<Read> {
    seq(|packets|, k requires 0 <= k < |packets| => Data(packets[k]))
  }

  lemma DeliveredAppend(a: seq<Bytes>, b: seq<Bytes>)
    ensures Delivered(a + b) == Delivered(a) + Delivered(b)
  {
  }

  /** Receiving takes one read off the front. */
  lemma Front(asm: Assembly, e: Read, tail: seq<Read>)
    ensures var t := OnRead(asm, e);
            Receive(asm, [e] + tail)
            == if t.outcome.Continue? then Prepended(t.acks, Receive(t.outcome.asm, tail))
               else Result(Some(t.outcome), t.acks, tail)
  {
    assert ([e] + tail)[0] == e && ([e] + tail)[1..] == tail;
  }

  // ------------------------------------------------------------ single packets

  /** What the receiver makes of a packet with a chunk header. */
  lemma ChunkHeaderRead(asm: Assembly, opts: byte, seqno: byte, len: nat, offset: nat, data: Bytes)
    requires IsChunk(opts) && |data| <= len
    ensures OnRead(asm, Data(Header(CMD_AUTHENTICATE, opts, seqno, len, Some(offset)) + data))
            == OnAuth(asm, Fields(CMD_AUTHENTICATE, opts, seqno,
                                  |Header(CMD_AUTHENTICATE, opts, seqno, len, Some(offset))|, len, offset), data)
  {
    HeaderRoundTrip(CMD_AUTHENTICATE, opts, seqno, len, Some(offset), data);
    assert data[..Min(len, |data|)] == data;
  }

  function Prefix(payload: Bytes, n: nat): Bytes { payload[..Min(n, |payload|)] }

  /** The receiver holds the first `offset` bytes of `payload`. */
  predicate InTransfer(asm: Assembly, payload: Bytes, offset: nat, seqno: byte) {
    && asm.Partial? && asm.total == |asm.buf| == |payload| && asm.recvd == offset <= |payload|
    && asm.seqno == seqno
    && asm.buf[..offset] == payload[..offset]
  }

  /** The first chunk as the receiver's branch sees it. */
  lemma FirstRead(asm: Assembly, payload: Bytes, seqno: byte)
    ensures OnRead(asm, Data(FirstPacket(payload, seqno)))
            == Acking(OPTS_FIRST, Ack(seqno, 58, |payload|),
                      Continue(Partial(PyAssign(Zeros(|payload|), 0, 58, payload[..Min(58, |payload|)]),
                                       |payload|, 58, seqno)))
  {
    ChunkHeaderRead(asm, OPTS_FIRST, seqno, 58, |payload|, payload[..Min(58, |payload|)]);
    assert IsChunkStart(OPTS_FIRST);
  }

  /** The first chunk starts a transfer and is acknowledged - unless the ACK's counts do not fit its
      16-bit fields, which is so exactly below 58 and above 65535 + 58 bytes. */
  lemma FirstTurn(asm: Assembly, payload: Bytes, seqno: byte)
    ensures var t := OnRead(asm, Data(FirstPacket(payload, seqno)));
            if 58 <= |payload| < 0x1_0000 + 58 then
              && t.outcome.Continue? && InTransfer(t.outcome.asm, payload, 58, seqno)
              && t.acks == [Ack(seqno, 58, |payload|)]
            else t == Turn(Raised, [])
  {
    FirstRead(asm, payload, seqno);
    assert WantsAck(OPTS_FIRST);
    assert Packable(Ack(seqno, 58, |payload|)) <==> 58 <= |payload| < 0x1_0000 + 58;
    if |payload| >= 58 {
      PrefixGrows(Zeros(|payload|), payload, 0, 58);
    }
  }

  /** A data chunk extends the prefix. Only the last one is acknowledged and ends the transfer - or
      raises, exactly when the total does not fit the 16-bit count of its ACK. */
  lemma ChunkTurn(asm: Assembly, payload: Bytes, seqno: byte, offset: nat)
    requires InTransfer(asm, payload, offset, seqno) && offset < |payload|
    ensures var t := OnRead(asm, Data(ChunkPacket(payload, seqno, offset)));
            var next := offset + ChunkSize(payload, offset);
            if next == |payload| then
              t == if |payload| < 0x1_0000 then Turn(Returned(payload, seqno), [Ack(seqno, |payload|, |payload|)])
                   else Turn(Raised, [])
            else t.outcome.Continue? && InTransfer(t.outcome.asm, payload, next, seqno) && t.acks == []
  {
    var size := ChunkSize(payload, offset);
    var data := payload[offset..offset + size];
    var opts := ChunkOpts(payload, offset);
    ChunkHeaderRead(asm, opts, seqno, size, offset, data);
    assert IsChunk(opts) && !IsChunkStart(opts) && (WantsAck(opts) <==> offset + size == |payload|);
    PrefixGrows(asm.buf, payload, offset, size);
  }

  lemma PrefixGrows(buf: Bytes, payload: Bytes, offset: nat, size: nat)
    requires |buf| == |payload| && offset + size <= |payload| && buf[..offset] == payload[..offset]
    ensures var b := PyAssign(buf, offset, offset + size, payload[offset..offset + size]);
            && |b| == |payload| && b[..offset + size] == payload[..offset + size]
            && (offset + size == |payload| ==> b == payload)
  {
    var b := PyAssign(buf, offset, offset + size, payload[offset..offset + size]);
    assert b[..offset + size] == payload[..offset] + payload[offset..offset + size];
  }

  /** The empty chunk returns what there is, or is skipped when no transfer is under way. */
  lemma EmptyTurn(asm: Assembly, payload: Bytes, seqno: byte)
    ensures var t := OnRead(asm, Data(EmptyPacket(payload, seqno)));
            && (asm.NoChunks? ==> t == Turn(Continue(asm), []))
            && (forall p: Bytes, offset: nat, s: byte :: InTransfer(asm, p, offset, s) ==>
                  t == Turn(Returned(p[..offset], s), []))
  {
    var h := Header(CMD_AUTHENTICATE, OPTS_CHUNK, seqno, 0, Some(|payload|));
    ChunkHeaderRead(asm, OPTS_CHUNK, seqno, 0, |payload|, []);
    assert h + [] == h;
    assert IsChunk(OPTS_CHUNK) && !IsChunkStart(OPTS_CHUNK);
  }

  lemma SimpleTurn(asm: Assembly, opts: byte, seqno: byte, payload: Bytes)
    requires !IsChunk(opts) && !IsChunkStart(opts)
    ensures OnRead(asm, Data(SimplePacket(CMD_AUTHENTICATE, opts, seqno, payload)))
            == Turn(Returned(payload, seqno), [])
  {
    HeaderRoundTrip(CMD_AUTHENTICATE, opts, seqno, |payload|, None, payload);
    assert payload[..|payload|] == payload;
  }

  // ------------------------------------------------------------ one chunked transfer

  /** All data chunks from `offset` on go out, and there are some. */
  predicate Completes(payload: Bytes, offset: nat, acks: seq<bool>) {
    offset < |payload| && SentFrom(payload, offset, acks) == |payload|
  }

  /** What a call returns of a transfer under way. */
  function Ending(payload: Bytes, seqno: byte, offset: nat, acks: seq<bool>): Outcome {
    if Completes(payload, offset, acks) && |payload| >= 0x1_0000 then Raised
    else Returned(Prefix(payload, SentFrom(payload, offset, acks)), seqno)
  }

  /** The ACK of the last chunk, if it went out and can be packed. */
  function LastAck(payload: Bytes, seqno: byte, offset: nat, acks: seq<bool>): seq<Ack> {
    if Completes(payload, offset, acks) && |payload| < 0x1_0000 then [Ack(seqno, |payload|, |payload|)] else []
  }

  /** The empty chunk stays behind when the last data chunk already ended the call. */
  function Behind(payload: Bytes, seqno: byte, offset: nat, acks: seq<bool>): seq<Read> {
    if Completes(payload, offset, acks) then [Data(EmptyPacket(payload, seqno))] else []
  }

  lemma {:induction false} ChunksReceived(asm: Assembly, payload: Bytes, seqno: byte, offset: nat,
                                          acks: seq<bool>, more: seq<Read>)
    requires InTransfer(asm, payload, offset, seqno)
    ensures Receive(asm, Delivered(Chunks(payload, seqno, offset, acks)) + [Data(EmptyPacket(payload, seqno))] + more)
            == Result(Some(Ending(payload, seqno, offset, acks)),
                      LastAck(payload, seqno, offset, acks), Behind(payload, seqno, offset, acks) + more)
    decreases |acks|
  {
    var empty := Data(EmptyPacket(payload, seqno));
    if offset >= |payload| || acks == [] || !acks[0] {
      NoMoreReceived(asm, payload, seqno, offset, acks, more);
    } else {
      var next := offset + ChunkSize(payload, offset);
      var head := Data(ChunkPacket(payload, seqno, offset));
      var tail := Delivered(Chunks(payload, seqno, next, acks[1..])) + [empty] + more;
      ChunkInFront(payload, seqno, offset, acks, more);
      ChunkTurn(asm, payload, seqno, offset);
      Front(asm, head, tail);
      if next == |payload| {
        LastSent(payload, seqno, offset, acks, more);
      } else {
        var t := OnRead(asm, head);
        ChunksReceived(t.outcome.asm, payload, seqno, next, acks[1..], more);
        assert t.acks + LastAck(payload, seqno, next, acks[1..]) == LastAck(payload, seqno, next, acks[1..]);
      }
    }
  }

  /** No further chunk: the empty one comes next. */
  lemma NoMoreReceived(asm: Assembly, payload: Bytes, seqno: byte, offset: nat, acks: seq<bool>, more: seq<Read>)
    requires InTransfer(asm, payload, offset, seqno)
    requires offset >= |payload| || acks == [] || !acks[0]
    ensures Receive(asm, Delivered(Chunks(payload, seqno, offset, acks)) + [Data(EmptyPacket(payload, seqno))] + more)
            == Result(Some(Ending(payload, seqno, offset, acks)),
                      LastAck(payload, seqno, offset, acks), Behind(payload, seqno, offset, acks) + more)
  {
    var empty := Data(EmptyPacket(payload, seqno));
    EmptyTurn(asm, payload, seqno);
    Front(asm, empty, more);
    assert Delivered(Chunks(payload, seqno, offset, acks)) + [empty] + more == [empty] + more;
    assert Behind(payload, seqno, offset, acks) + more == more;
  }

  lemma ChunkInFront(payload: Bytes, seqno: byte, offset: nat, acks: seq<bool>, more: seq<Read>)
    requires offset < |payload| && acks != [] && acks[0]
    ensures var next, empty := offset + ChunkSize(payload, offset), Data(EmptyPacket(payload, seqno));
            Delivered(Chunks(payload, seqno, offset, acks)) + [empty] + more
            == [Data(ChunkPacket(payload, seqno, offset))]
               + (Delivered(Chunks(payload, seqno, next, acks[1..])) + [empty] + more)
  {
    var next := offset + ChunkSize(payload, offset);
    DeliveredAppend([ChunkPacket(payload, seqno, offset)], Chunks(payload, seqno, next, acks[1..]));
    assert Delivered([ChunkPacket(payload, seqno, offset)]) == [Data(ChunkPacket(payload, seqno, offset))];
  }

  /** After the last data chunk only the empty one is left. */
  lemma LastSent(payload: Bytes, seqno: byte, offset: nat, acks: seq<bool>, more: seq<Read>)
    requires offset < |payload| == offset + ChunkSize(payload, offset) && acks != [] && acks[0]
    ensures SentFrom(payload, offset, acks) == |payload| && Prefix(payload, |payload|) == payload
    ensures Delivered(Chunks(payload, seqno, |payload|, acks[1..])) + [Data(EmptyPacket(payload, seqno))] + more
            == Behind(payload, seqno, offset, acks) + more
  {
    assert Chunks(payload, seqno, |payload|, acks[1..]) == [];
    assert Delivered([]) + [Data(EmptyPacket(payload, seqno))] == [Data(EmptyPacket(payload, seqno))];
  }

  /** The totals whose first chunk starts a transfer: its ACK fits the 16-bit counts. */
  predicate Startable(payload: Bytes) { 58 <= |payload| < 0x1_0000 + 58 }

  /** A call raises exactly if the first chunk cannot be acknowledged, or the last one went out and
      cannot. */
  predicate Raises(payload: Bytes, acks: seq<bool>) {
    !Startable(payload) || (|payload| >= 0x1_0000 && Sent(payload, acks) == |payload|)
  }

  /** What a call leaves of the transfer for the next one: all chunks if the first one raised, the
      empty one if the last one ended the call. */
  function LeftOver(payload: Bytes, seqno: byte, acks: seq<bool>): seq<Read> {
    if Startable(payload) then Behind(payload, seqno, 58, acks)
    else Delivered(Chunks(payload, seqno, 58, acks)) + [Data(EmptyPacket(payload, seqno))]
  }

  /** End to end, for every payload and every pattern of ACK timeouts: the receiver returns the prefix
      whose chunks went out, which is all of it exactly when every chunk did, or raises; it
      acknowledges the first chunk and the last; what it leaves goes to the next call. */
  lemma ChunkedReceived(payload: Bytes, seqno: byte, acks: seq<bool>, more: seq<Read>)
    ensures Receive(NoChunks, Delivered(Wire(payload, seqno, acks)) + more)
            == Result(Some(if Raises(payload, acks) then Raised
                           else Returned(payload[..Sent(payload, acks)], seqno)),
                      (if Startable(payload) then [Ack(seqno, 58, |payload|)] else [])
                      + (if Startable(payload) then LastAck(payload, seqno, 58, acks) else []),
                      LeftOver(payload, seqno, acks) + more)
  {
    SentFromBounds(payload, 58, acks);
    var first, empty := Data(FirstPacket(payload, seqno)), Data(EmptyPacket(payload, seqno));
    var tail := Delivered(Chunks(payload, seqno, 58, acks)) + [empty] + more;
    WireInFront(payload, seqno, acks, more);
    Front(NoChunks, first, tail);
    FirstTurn(NoChunks, payload, seqno);
    if Startable(payload) {
      ChunksReceived(OnRead(NoChunks, first).outcome.asm, payload, seqno, 58, acks, more);
    }
  }

  lemma WireInFront(payload: Bytes, seqno: byte, acks: seq<bool>, more: seq<Read>)
    ensures Delivered(Wire(payload, seqno, acks)) + more
            == [Data(FirstPacket(payload, seqno))]
               + (Delivered(Chunks(payload, seqno, 58, acks)) + [Data(EmptyPacket(payload, seqno))] + more)
  {
    var f, c, e := [FirstPacket(payload, seqno)], Chunks(payload, seqno, 58, acks), [EmptyPacket(payload, seqno)];
    DeliveredAppend(f + c, e);
    DeliveredAppend(f, c);
    assert Delivered(f) == [Data(f[0])] && Delivered(e) == [Data(e[0])];
  }

  // ------------------------------------------------------------ the receiver as the sender's peer

  /** What comes back to the sender of a packet: the ACK packets of the receiver's turn. */
  function Answer(t: Turn): seq<Read> {
    seq(|t.acks|, k requires 0 <= k < |t.acks| =>
      if Packable(t.acks[k]) then Data(AckPacket(t.acks[k], CMD_AUTHENTICATE)) else NoData)
  }

  /** Where the receiver stands after a turn; a call that ended is followed by a fresh one. */
  function After(t: Turn): Assembly {
    if t.outcome.Continue? then t.outcome.asm else NoChunks
  }

  /** The waits of the sender's loop with the receiver as its peer: each wait sees the answer to the
      chunk before it, and a chunk goes out only if that wait saw an ACK. */
  function LoopFrom(t: Turn, payload: Bytes, seqno: byte, offset: nat): seq<seq<Read>>
    decreases |payload| - offset
  {
    if offset >= |payload| then []
    else if !AckSeen(Answer(t), CMD_AUTHENTICATE) then [Answer(t)]
    else
      [Answer(t)] + LoopFrom(NextTurn(t, payload, seqno, offset), payload, seqno, offset + ChunkSize(payload, offset))
  }

  function NextTurn(t: Turn, payload: Bytes, seqno: byte, offset: nat): Turn
    requires offset <= |payload|
  {
    OnRead(After(t), Data(ChunkPacket(payload, seqno, offset)))
  }

  /** Sender and receiver of this file in a closed loop. */
  function ClosedLoop(payload: Bytes, seqno: byte): seq<seq<Read>> {
    LoopFrom(OnRead(NoChunks, Data(FirstPacket(payload, seqno))), payload, seqno, 58)
  }

  /** The sender recognises the answer to a turn exactly if the receiver acknowledged. */
  lemma AnswerSeen(t: Turn)
    requires |t.acks| <= 1 && forall k :: 0 <= k < |t.acks| ==> Packable(t.acks[k])
    ensures AckSeen(Answer(t), CMD_AUTHENTICATE) <==> t.acks != []
  {
    if t.acks != [] {
      AckIsRecognised(t.acks[0], CMD_AUTHENTICATE);
      assert Answer(t)[0] == Data(AckPacket(t.acks[0], CMD_AUTHENTICATE));
    }
  }

  /** Chunk number `k` of a transfer; every chunk starts at a multiple of 58. */
  function ChunkNumber(payload: Bytes, seqno: byte, k: nat): Bytes
    requires 58 * k <= |payload|
  {
    if k == 0 then FirstPacket(payload, seqno) else ChunkPacket(payload, seqno, 58 * k)
  }

  /** What the receiver makes of chunk `k`: it answers exactly the first chunk of a total it can start
      with, and the last of a total it can count. */
  lemma ChunkAnswered(asm: Assembly, payload: Bytes, seqno: byte, k: nat)
    requires 58 * k <= |payload| && (k > 0 ==> 58 * k < |payload| && InTransfer(asm, payload, 58 * k, seqno))
    ensures var t := OnRead(asm, Data(ChunkNumber(payload, seqno, k)));
            AckSeen(Answer(t), CMD_AUTHENTICATE)
            <==> if k == 0 then Startable(payload) else 58 * (k + 1) >= |payload| && |payload| < 0x1_0000
  {
    var t := OnRead(asm, Data(ChunkNumber(payload, seqno, k)));
    if k == 0 {
      FirstTurn(asm, payload, seqno);
    } else {
      ChunkTurn(asm, payload, seqno, 58 * k);
    }
    AnswerSeen(t);
  }

  /** How far the loop gets: because only flagged chunks are answered while the sender waits after each,
      no third chunk ever goes out, and no second one of a total the receiver cannot start with. */
  lemma ClosedLoopSends(payload: Bytes, seqno: byte)
    ensures Sent(payload, Acks(ClosedLoop(payload, seqno)))
            == Min(|payload|, if Startable(payload) then 116 else 58)
  {
    var first := OnRead(NoChunks, Data(FirstPacket(payload, seqno)));
    ChunkAnswered(NoChunks, payload, seqno, 0);
    var inboxes := ClosedLoop(payload, seqno);
    var acks := Acks(inboxes);
    if |payload| <= 58 {
      assert SentFrom(payload, 58, acks) == 58;
    } else if !Startable(payload) {
      LoopEnds(first, payload, seqno, 58);
    } else {
      FirstTurn(NoChunks, payload, seqno);
      SecondChunk(first, payload, seqno);
    }
  }

  lemma AcksInFront(inbox: seq<Read>, rest: seq<seq<Read>>)
    ensures Acks([inbox] + rest) == [AckSeen(inbox, CMD_AUTHENTICATE)] + Acks(rest)
  {
    var all := [inbox] + rest;
    AckAt(all, 0);
    forall k | 0 <= k < |rest| ensures Acks(all)[k + 1] == Acks(rest)[k] {
      AckAt(all, k + 1);
      AckAt(rest, k);
    }
    BitsInFront(Acks(all), AckSeen(inbox, CMD_AUTHENTICATE), Acks(rest));
  }

  lemma AckAt(inboxes: seq<seq<Read>>, k: nat)
    requires k < |inboxes|
    ensures Acks(inboxes)[k] == AckSeen(inboxes[k], CMD_AUTHENTICATE)
  {
  }

  lemma BitsInFront(all: seq<bool>, first: bool, rest: seq<bool>)
    requires |all| == |rest| + 1 && all[0] == first
    requires forall k :: 0 <= k < |rest| ==> all[k + 1] == rest[k]
    ensures all == [first] + rest
  {
  }

  lemma SecondChunk(first: Turn, payload: Bytes, seqno: byte)
    requires |payload| > 58 && AckSeen(Answer(first), CMD_AUTHENTICATE)
    requires InTransfer(After(first), payload, 58, seqno)
    ensures SentFrom(payload, 58, Acks(LoopFrom(first, payload, seqno, 58))) == Min(|payload|, 116)
  {
    var second, next := NextTurn(first, payload, seqno, 58), 58 + ChunkSize(payload, 58);
    var rest := LoopFrom(second, payload, seqno, next);
    AcksInFront(Answer(first), rest);
    assert SentFrom(payload, 58, Acks([Answer(first)] + rest)) == SentFrom(payload, next, Acks(rest));
    if |payload| > 116 {
      ChunkAnswered(After(first), payload, seqno, 1);
      LoopEnds(second, payload, seqno, next);
    }
  }

  /** Without an ACK the loop ends. */
  lemma LoopEnds(t: Turn, payload: Bytes, seqno: byte, offset: nat)
    requires offset < |payload| && !AckSeen(Answer(t), CMD_AUTHENTICATE)
    ensures SentFrom(payload, offset, Acks(LoopFrom(t, payload, seqno, offset))) == offset
  {
    assert LoopFrom(t, payload, seqno, offset) == [Answer(t)];
  }

  /** Sender and receiver of this repository complete a transfer together exactly from one chunk up to
      two. */
  lemma OwnReceiverStalls(payload: Bytes, seqno: byte)
    ensures var acks := Acks(ClosedLoop(payload, seqno));
            Receive(NoChunks, Delivered(Wire(payload, seqno, acks))).outcome == Some(Returned(payload, seqno))
            <==> 58 <= |payload| <= 116
  {
    var acks := Acks(ClosedLoop(payload, seqno));
    ClosedLoopSends(payload, seqno);
    ChunkedReceived(payload, seqno, acks, []);
    assert Delivered(Wire(payload, seqno, acks)) + [] == Delivered(Wire(payload, seqno, acks));
    assert payload[..Sent(payload, acks)] == payload <==> Sent(payload, acks) == |payload|;
  }

  // ------------------------------------------------------------ many messages on one stream

  datatype Message =
    | Chunked(payload: Bytes, seqno: byte, acks: seq<bool>)
    | Simple(payload: Bytes, seqno: byte, wantsAck: bool)

  function OnWire(m: Message): seq<Bytes> {
    match m
    case Chunked(payload, seqno, acks) => Wire(payload, seqno, acks)
    case Simple(payload, seqno, wantsAck) =>
      [SimplePacket(CMD_AUTHENTICATE, if wantsAck then OPTS_ACK else OPTS_INTERNAL, seqno, payload)]
  }

  /** What one call is to return for one message. */
  function Arriving(m: Message): Outcome {
    match m
    case Chunked(payload, seqno, acks) =>
      if Raises(payload, acks) then Raised else Returned(payload[..Sent(payload, acks)], seqno)
    case Simple(payload, seqno, _) => Returned(payload, seqno)
  }

  function Stream(ms: seq<Message>): seq<Bytes> {
    if ms == [] then [] else OnWire(ms[0]) + Stream(ms[1..])
  }

  /** `n` calls of `_recv_auth_pkt` on one stream. */
  function Calls(n: nat, input: seq<Read>): seq<Option<Outcome>> {
    if n == 0 then []
    else
      var r := Receive(NoChunks, input);
      [r.outcome] + Calls(n - 1, r.rest)
  }

  /** Chunks a previous transfer left behind: without a transfer under way they are skipped. */
  predicate Stray(s: seq<Read>) {
    s == [] || (Skipped(s[0]) && Stray(s[1..]))
  }

  predicate Skipped(e: Read) { OnRead(NoChunks, e) == Turn(Continue(NoChunks), []) }

  lemma {:induction false} StraySkipped(s: seq<Read>, input: seq<Read>)
    requires Stray(s)
    ensures Receive(NoChunks, s + input) == Receive(NoChunks, input)
    decreases |s|
  {
    if s == [] {
      assert s + input == input;
    } else {
      StraySkipped(s[1..], input);
      FrontSkipped(s, input);
    }
  }

  lemma FrontSkipped(s: seq<Read>, input: seq<Read>)
    requires s != [] && Skipped(s[0])
    ensures Receive(NoChunks, s + input) == Receive(NoChunks, s[1..] + input)
  {
    FrontOf(s, input);
    OneSkipped(s[0], s[1..] + input);
  }

  lemma FrontOf<T>(s: seq<T>, t: seq<T>)
    requires s != []
    ensures s + t == [s[0]] + (s[1..] + t)
  {
  }

  lemma OneSkipped(e: Read, tail: seq<Read>)
    requires Skipped(e)
    ensures Receive(NoChunks, [e] + tail) == Receive(NoChunks, tail)
  {
    Front(NoChunks, e, tail);
    assert [] + Receive(NoChunks, tail).acks == Receive(NoChunks, tail).acks;
  }

  lemma ChunkSkipped(payload: Bytes, seqno: byte, offset: nat)
    requires offset < |payload|
    ensures Skipped(Data(ChunkPacket(payload, seqno, offset)))
  {
    var size, opts := ChunkSize(payload, offset), ChunkOpts(payload, offset);
    ChunkHeaderRead(NoChunks, opts, seqno, size, offset, payload[offset..offset + size]);
    assert IsChunk(opts) && !IsChunkStart(opts);
  }

  lemma {:induction false} ChunksStray(payload: Bytes, seqno: byte, offset: nat, acks: seq<bool>)
    ensures Stray(Delivered(Chunks(payload, seqno, offset, acks)))
    decreases |acks|
  {
    if offset < |payload| && acks != [] && acks[0] {
      var next := offset + ChunkSize(payload, offset);
      var head, rest := ChunkPacket(payload, seqno, offset), Chunks(payload, seqno, next, acks[1..]);
      ChunkSkipped(payload, seqno, offset);
      ChunksStray(payload, seqno, next, acks[1..]);
      DeliveredAppend([head], rest);
      assert Delivered([head]) == [Data(head)] && [Data(head)][1..] == [];
      StrayAppend(Delivered([head]), Delivered(rest));
    }
  }

  lemma {:induction false} StrayAppend(a: seq<Read>, b: seq<Read>)
    requires Stray(a) && Stray(b)
    ensures Stray(a + b)
  {
    if a == [] {
      assert a + b == b;
    } else {
      StrayAppend(a[1..], b);
      assert (a + b)[0] == a[0] && (a + b)[1..] == a[1..] + b;
    }
  }

  lemma LeftOverStray(payload: Bytes, seqno: byte, acks: seq<bool>)
    ensures Stray(LeftOver(payload, seqno, acks))
  {
    var empty := [Data(EmptyPacket(payload, seqno))];
    EmptyTurn(NoChunks, payload, seqno);
    ChunksStray(payload, seqno, 58, acks);
    assert empty[1..] == [] && Skipped(empty[0]);
    StrayAppend(Delivered(Chunks(payload, seqno, 58, acks)), empty);
  }

  /** One message off the front of a stream leaves at most stray chunks before the rest. */
  lemma OneMessage(m: Message, more: seq<Read>) returns (stray: seq<Read>)
    ensures Stray(stray)
    ensures var r := Receive(NoChunks, Delivered(OnWire(m)) + more);
            r.outcome == Some(Arriving(m)) && r.rest == stray + more
  {
    match m
    case Chunked(payload, seqno, acks) =>
      ChunkedReceived(payload, seqno, acks, more);
      LeftOverStray(payload, seqno, acks);
      stray := LeftOver(payload, seqno, acks);
    case Simple(payload, seqno, wantsAck) =>
      var opts := if wantsAck then OPTS_ACK else OPTS_INTERNAL;
      assert !IsChunk(opts) && !IsChunkStart(opts);
      SimpleTurn(NoChunks, opts, seqno, payload);
      var packet := SimplePacket(CMD_AUTHENTICATE, opts, seqno, payload);
      assert Delivered(OnWire(m)) == [Data(packet)];
      Front(NoChunks, Data(packet), more);
      stray := [];
      assert stray + more == more;
  }

  /** But for noise, the input is the messages on the wire, behind what earlier transfers left. */
  predicate Carries(input: seq<Read>, stray: seq<Read>, ms: seq<Message>) {
    Stray(stray) && Clean(input) == stray + Delivered(Stream(ms))
  }

  /** A call returns `o` and leaves `rest`. */
  predicate CallGives(input: seq<Read>, o: Outcome, rest: seq<Read>) {
    Receive(NoChunks, input).outcome == Some(o) && Receive(NoChunks, input).rest == rest
  }

  /** The next call on a stream returns its first message. */
  lemma NextCall(ms: seq<Message>, stray: seq<Read>, input: seq<Read>) returns (left: seq<Read>, rest: seq<Read>)
    requires ms != [] && Carries(input, stray, ms)
    ensures CallGives(input, Arriving(ms[0]), rest) && Carries(rest, left, ms[1..])
  {
    DeliveredAppend(OnWire(ms[0]), Stream(ms[1..]));
    StraySkipped(stray, Delivered(Stream(ms)));
    left := OneMessage(ms[0], Delivered(Stream(ms[1..])));
    NoiseIgnored(NoChunks, input);
    rest := Receive(NoChunks, input).rest;
  }

  function AllArriving(ms: seq<Message>): seq<Option<Outcome>> {
    if ms == [] then [] else [Some(Arriving(ms[0]))] + AllArriving(ms[1..])
  }

  lemma OneMoreCall(ms: seq<Message>, input: seq<Read>, rest: seq<Read>)
    requires ms != [] && CallGives(input, Arriving(ms[0]), rest)
    requires Calls(|ms| - 1, rest) == AllArriving(ms[1..])
    ensures Calls(|ms|, input) == AllArriving(ms)
  {
  }

  /** One stream, any messages: successive calls return the messages one by one - or raise, exactly for
      the totals that cannot be acknowledged - whatever timeouts and other packets come in between,
      and whatever the ACK pattern of each transfer. */
  lemma {:induction false} ManyMessages(ms: seq<Message>, stray: seq<Read>, input: seq<Read>)
    requires Carries(input, stray, ms)
    ensures Calls(|ms|, input) == AllArriving(ms)
    decreases |ms|
  {
    if ms != [] {
      var left, rest := NextCall(ms, stray, input);
      ManyMessages(ms[1..], left, rest);
      OneMoreCall(ms, input, rest);
    }
  }
}
