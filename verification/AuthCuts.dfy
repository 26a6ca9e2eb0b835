/** The AUTHENTICATE receiver of gip_init.py against any sender: transfers cut up in any way. */
module AuthCuts {
  import opened ByteSeqs
  import opened Gip
  import opened AuthSend
  import opened AuthRecv
  import opened AuthLink

  /** A chunk of `size` bytes with these options. */
  datatype Cut = Cut(size: nat, opts: byte, seqno: byte)

  /** A read whose header announces this chunk, with these bytes behind it. */
  predicate ReadsAs(e: Read, c: Cut, offset: nat, data: Bytes) {
    && !Noise(e)
    && var f := PyFields(e.raw).value;
       && f.opts == c.opts && f.seqno == c.seqno && f.pktLen == c.size && f.chunkOffset == offset
       && PySlice(e.raw, f.hdrLen, f.pktLen) == data
  }

  /** Such as any chunk a sender builds with `build_header`. */
  lemma BuiltChunkReads(c: Cut, offset: nat, data: Bytes)
    requires IsChunk(c.opts) && |data| == c.size
    ensures ReadsAs(Data(Header(CMD_AUTHENTICATE, c.opts, c.seqno, c.size, Some(offset)) + data), c, offset, data)
  {
    HeaderRoundTrip(CMD_AUTHENTICATE, c.opts, c.seqno, c.size, Some(offset), data);
    var h := Header(CMD_AUTHENTICATE, c.opts, c.seqno, c.size, Some(offset));
    assert (h + data)[|h|..|h| + c.size] == data;
  }

  /** The read starts a transfer of the payload with its first `c.size` bytes. */
  predicate Starts(e: Read, c: Cut, payload: Bytes) {
    IsChunkStart(c.opts) && c.size <= |payload| && ReadsAs(e, c, |payload|, payload[..c.size])
  }

  /** The read brings bytes `offset` up to `offset + c.size` of the payload. */
  predicate Brings(e: Read, c: Cut, payload: Bytes, offset: nat) {
    && IsChunk(c.opts) && !IsChunkStart(c.opts) && 0 < c.size && offset + c.size <= |payload|
    && ReadsAs(e, c, offset, payload[offset..offset + c.size])
  }

  /** The reads bring chunks of the payload, in order, from `offset` up to `end`. */
  predicate AllBring(es: seq<Read>, cuts: seq<Cut>, payload: Bytes, offset: nat, end: nat)
    decreases |es|
  {
    if es == [] then cuts == [] && offset == end
    else
      && cuts != [] && Brings(es[0], cuts[0], payload, offset) && offset + cuts[0].size <= end
      && AllBring(es[1..], cuts[1..], payload, offset + cuts[0].size, end)
  }

  /** The ACK of a chunk that ends at `end`, if the chunk asks for one. */
  function CutAck(total: nat, end: nat, c: Cut): seq<Ack> {
    if Bit4(c.opts) then [Ack(c.seqno, end, total)] else []
  }

  /** Every flagged chunk is acknowledged with all bytes up to its end. */
  function CutAcks(total: nat, offset: nat, cuts: seq<Cut>): seq<Ack>
    decreases |cuts|
  {
    if cuts == [] then []
    else CutAck(total, offset + cuts[0].size, cuts[0]) + CutAcks(total, offset + cuts[0].size, cuts[1..])
  }

  /** The turn of a chunk that ends at `end`. */
  predicate CutDone(t: Turn, payload: Bytes, seqno: byte, end: nat, acks: seq<Ack>) {
    && t.acks == acks
    && if end == |payload| then t.outcome == Returned(payload, seqno)
       else t.outcome.Continue? && InTransfer(t.outcome.asm, payload, end, seqno)
  }

  lemma CutTurn(asm: Assembly, payload: Bytes, seqno: byte, offset: nat, e: Read, c: Cut)
    requires InTransfer(asm, payload, offset, seqno) && Brings(e, c, payload, offset) && |payload| < 0x1_0000
    ensures var end := offset + c.size;
            CutDone(OnRead(asm, e), payload, seqno, end, CutAck(|payload|, end, c))
  {
    PrefixGrows(asm.buf, payload, offset, c.size);
  }

  lemma MiddleTurn(asm: Assembly, payload: Bytes, seqno: byte, offset: nat, e: Read, c: Cut)
    returns (next: Assembly)
    requires InTransfer(asm, payload, offset, seqno) && Brings(e, c, payload, offset)
    requires offset + c.size < |payload| < 0x1_0000
    ensures OnRead(asm, e) == Turn(Continue(next), CutAck(|payload|, offset + c.size, c))
    ensures InTransfer(next, payload, offset + c.size, seqno)
  {
    CutTurn(asm, payload, seqno, offset, e, c);
    next := OnRead(asm, e).outcome.asm;
  }

  /** A first chunk starts a transfer, also in the middle of another one, which is forgotten. */
  lemma StartTurn(asm: Assembly, payload: Bytes, e: Read, c: Cut)
    requires Starts(e, c, payload) && |payload| < 0x1_0000
    ensures var t := OnRead(asm, e);
            && t.acks == CutAck(|payload|, c.size, c)
            && t.outcome.Continue? && InTransfer(t.outcome.asm, payload, c.size, c.seqno)
  {
    PrefixGrows(Zeros(|payload|), payload, 0, c.size);
  }

  /** A chunk of no transfer is ignored, even if it asks for an ACK. */
  lemma StrayChunkIgnored(e: Read, c: Cut, offset: nat, data: Bytes)
    requires IsChunk(c.opts) && !IsChunkStart(c.opts) && ReadsAs(e, c, offset, data)
    ensures OnRead(NoChunks, e) == Turn(Continue(NoChunks), [])
  {
  }

  /** A chunk that ends at the total ends the transfer, whatever is still missing: that stays as it is. */
  lemma LastChunkEnds(asm: Assembly, e: Read, c: Cut, offset: nat, data: Bytes)
    requires asm.Partial? && |asm.buf| == asm.total == offset + c.size < 0x1_0000
    requires IsChunk(c.opts) && !IsChunkStart(c.opts) && 0 < c.size == |data| && ReadsAs(e, c, offset, data)
    ensures OnRead(asm, e) == Turn(Returned(asm.buf[..offset] + data, asm.seqno), CutAck(asm.total, asm.total, c))
  {
    assert asm.buf[asm.total..] == [] && asm.buf[..offset] + data + [] == asm.buf[..offset] + data;
  }

  lemma PrependTwice(a: seq<Ack>, b: seq<Ack>, r: Result)
    ensures Prepended(a, Prepended(b, r)) == Prepended(a + b, r)
  {
    Assoc(a, b, r.acks);
  }

  lemma PrependNone(r: Result)
    ensures Prepended([], r) == r
  {
    assert [] + r.acks == r.acks;
  }

  lemma HeadOff(es: seq<Read>, rest: seq<Read>)
    requires es != []
    ensures es + rest == [es[0]] + (es[1..] + rest)
  {
  }

  lemma ReceiveOne(asm: Assembly, e: Read, rest: seq<Read>)
    ensures var t := OnRead(asm, e);
            Receive(asm, [e] + rest)
            == if t.outcome.Continue? then Prepended(t.acks, Receive(t.outcome.asm, rest))
               else Result(Some(t.outcome), t.acks, rest)
  {
    assert ([e] + rest)[1..] == rest;
  }

  /** The turns of several reads, as one. */
  function Turns(asm: Assembly, es: seq<Read>): Turn
    decreases |es|
  {
    if es == [] then Turn(Continue(asm), [])
    else
      var t := OnRead(asm, es[0]);
      if t.outcome.Continue? then
        var u := Turns(t.outcome.asm, es[1..]);
        Turn(u.outcome, t.acks + u.acks)
      else t
  }

  lemma {:induction false} ReceiveTurns(asm: Assembly, es: seq<Read>, rest: seq<Read>)
    requires Turns(asm, es).outcome.Continue?
    ensures var t := Turns(asm, es); Receive(asm, es + rest) == Prepended(t.acks, Receive(t.outcome.asm, rest))
    decreases |es|
  {
    if es == [] {
      assert es + rest == rest;
      PrependNone(Receive(asm, rest));
    } else {
      var t, tail := OnRead(asm, es[0]), es[1..];
      var u := Turns(t.outcome.asm, tail);
      ReceiveTurns(t.outcome.asm, tail, rest);
      ReceiveOne(asm, es[0], tail + rest);
      PrependTwice(t.acks, u.acks, Receive(u.outcome.asm, rest));
      HeadOff(es, rest);
    }
  }

  /** Chunks that leave some of the payload extend the transfer by what is in them. */
  lemma {:induction false} CutsGoOn(asm: Assembly, payload: Bytes, seqno: byte, offset: nat, end: nat,
                                    cuts: seq<Cut>, es: seq<Read>)
    requires InTransfer(asm, payload, offset, seqno) && end < |payload| < 0x1_0000
    requires AllBring(es, cuts, payload, offset, end)
    ensures var t := Turns(asm, es);
            && t.acks == CutAcks(|payload|, offset, cuts)
            && t.outcome.Continue? && InTransfer(t.outcome.asm, payload, end, seqno)
    decreases |es|
  {
    if es != [] {
      var a := MiddleTurn(asm, payload, seqno, offset, es[0], cuts[0]);
      CutsGoOn(a, payload, seqno, offset + cuts[0].size, end, cuts[1..], es[1..]);
    }
  }

  /** The first chunk and some more. */
  lemma TransferGoesOn(payload: Bytes, first: Cut, cuts: seq<Cut>, end: nat, e: Read, es: seq<Read>, rest: seq<Read>)
    returns (after: Assembly)
    requires Starts(e, first, payload) && AllBring(es, cuts, payload, first.size, end)
    requires end < |payload| < 0x1_0000
    ensures InTransfer(after, payload, end, first.seqno)
    ensures Receive(NoChunks, [e] + es + rest)
            == Prepended(CutAck(|payload|, first.size, first) + CutAcks(|payload|, first.size, cuts),
                         Receive(after, rest))
  {
    StartTurn(NoChunks, payload, e, first);
    var t := OnRead(NoChunks, e);
    ReceiveOne(NoChunks, e, es + rest);
    CutsGoOn(t.outcome.asm, payload, first.seqno, first.size, end, cuts, es);
    after := Turns(t.outcome.asm, es).outcome.asm;
    ReceiveTurns(t.outcome.asm, es, rest);
    PrependTwice(t.acks, CutAcks(|payload|, first.size, cuts), Receive(after, rest));
    assert [e] + es + rest == [e] + (es + rest);
  }

  /** Any sender: a first chunk of any size that leaves some of the payload, and the rest in order, in chunks
      of any sizes that ask for ACKs or not, is received whole. Exactly the flagged chunks are acknowledged,
      each with the bytes received so far against the total, and what is behind stays unread. */
  lemma AnyChunksReceived(payload: Bytes, first: Cut, cuts: seq<Cut>, last: Cut, at: nat,
                          e: Read, es: seq<Read>, l: Read, rest: seq<Read>)
    requires Starts(e, first, payload) && AllBring(es, cuts, payload, first.size, at)
    requires Brings(l, last, payload, at) && at + last.size == |payload| < 0x1_0000
    ensures Receive(NoChunks, [e] + es + ([l] + rest))
            == Result(Some(Returned(payload, first.seqno)),
                      CutAck(|payload|, first.size, first) + CutAcks(|payload|, first.size, cuts)
                      + CutAck(|payload|, |payload|, last),
                      rest)
  {
    var after := TransferGoesOn(payload, first, cuts, at, e, es, [l] + rest);
    CutTurn(after, payload, first.seqno, at, l, last);
    ReceiveOne(after, l, rest);
  }

  /** A deadline in the middle of a transfer returns nothing, whatever has been received. */
  lemma DeadlineReturnsNothing(payload: Bytes, first: Cut, cuts: seq<Cut>, end: nat, e: Read, es: seq<Read>)
    requires Starts(e, first, payload) && AllBring(es, cuts, payload, first.size, end)
    requires end < |payload| < 0x1_0000
    ensures Receive(NoChunks, [e] + es)
            == Result(None, CutAck(|payload|, first.size, first) + CutAcks(|payload|, first.size, cuts), [])
  {
    var after := TransferGoesOn(payload, first, cuts, end, e, es, []);
    assert [e] + es + [] == [e] + es;
  }

  /** An empty chunk in the middle of a transfer returns what has been received, without an ACK. */
  lemma EmptyChunkReturnsPrefix(payload: Bytes, first: Cut, cuts: seq<Cut>, empty: Cut, offset: nat, end: nat,
                                e: Read, es: seq<Read>, l: Read, rest: seq<Read>)
    requires Starts(e, first, payload) && AllBring(es, cuts, payload, first.size, end)
    requires end < |payload| < 0x1_0000
    requires empty.size == 0 && IsChunk(empty.opts) && !IsChunkStart(empty.opts) && ReadsAs(l, empty, offset, [])
    ensures Receive(NoChunks, [e] + es + ([l] + rest))
            == Result(Some(Returned(payload[..end], first.seqno)),
                      CutAck(|payload|, first.size, first) + CutAcks(|payload|, first.size, cuts), rest)
  {
    var after := TransferGoesOn(payload, first, cuts, end, e, es, [l] + rest);
    ReceiveOne(after, l, rest);
    assert OnRead(after, l) == Turn(Returned(payload[..end], first.seqno), []);
  }
}
