/** The IDENTIFY receiver of gip_init.py: the twin of the one in usb.rs, but for its ACKs. */
module IdentifyPy {
  import opened ByteSeqs
  import opened Gip
  import opened AuthSend
  import opened Identify
  import AuthRecv

  /** One read: what comes or times out, or a USB error, which ends the call. */
  datatype PyIn = In(e: Read) | Failed

  datatype PyOutcome = PyGo(buf: Bytes, recvd: nat) | PyDone(response: Option<Bytes>) | PyRaised

  /** An ACK with the unknown total 0 cannot be packed: its remaining count is negative, except for no
      bytes at all. */
  lemma UntotalledAck(seqno: byte, recvd: nat)
    ensures AuthRecv.Packable(AuthRecv.Ack(seqno, recvd, 0)) <==> recvd == 0
  {
  }

  function OnPyChunk(buf: Bytes, recvd: nat, f: Fields, data: Bytes): PyOutcome {
    var end := f.chunkOffset + f.pktLen;
    var grown := if end > |buf| then buf + Zeros(end - |buf| + 64) else buf;
    var recvd' := Max(recvd, end);
    if WantsAck(f.opts) && !AuthRecv.Packable(AuthRecv.Ack(f.seqno, recvd', 0)) then PyRaised
    else PyGo(AuthRecv.PyAssign(grown, f.chunkOffset, end, data), recvd')
  }

  function OnPyRead(buf: Bytes, recvd: nat, e: PyIn): PyOutcome {
    match e
    case Failed => PyDone(Collected(buf, recvd))
    case In(NoData) => if recvd > 0 then PyDone(Collected(buf, recvd)) else PyGo(buf, recvd)
    case In(Data(raw)) =>
      match PyFields(raw)
      case None => PyGo(buf, recvd)
      case Some(f) =>
        var data := PySlice(raw, f.hdrLen, f.pktLen);
        if f.cmd != CMD_IDENTIFY then PyGo(buf, recvd)
        else if !IsChunk(f.opts) then PyDone(Collected(data, f.pktLen))
        else if f.pktLen == 0 then PyDone(Collected(buf, recvd))
        else OnPyChunk(buf, recvd, f, data)
  }

  /** The whole call; the reads end where the deadline passes. */
  function PyReceive(buf: Bytes, recvd: nat, input: seq<PyIn>): PyOutcome
    decreases |input|
  {
    if input == [] then PyDone(Collected(buf, recvd))
    else
      var o := OnPyRead(buf, recvd, input[0]);
      if o.PyGo? then PyReceive(o.buf, o.recvd, input[1..]) else o
  }

  /** `_receive_identify_response` of gip_init.py. */
  method PyReceiveIdentifyResponse(input: seq<PyIn>) returns (o: PyOutcome)
    ensures o == PyReceive(Zeros(512), 0, input)
  {
    var chunkBuf := Zeros(IDENTIFY_BUF);
    var chunkRecvd := 0;
    assert input[0..] == input;
    for i := 0 to |input|
      invariant PyReceive(Zeros(512), 0, input) == PyReceive(chunkBuf, chunkRecvd, input[i..])
    {
      assert input[i..][0] == input[i] && input[i..][1..] == input[i + 1..];
      o := PyReadTurn(chunkBuf, chunkRecvd, input[i]);
      if !o.PyGo? {
        return o;
      }
      chunkBuf, chunkRecvd := o.buf, o.recvd;
    }
    return PyDone(Collected(chunkBuf, chunkRecvd));
  }

  /** The body of the loop. */
  method PyReadTurn(chunkBuf: Bytes, chunkRecvd: nat, e: PyIn) returns (o: PyOutcome)
    ensures o == OnPyRead(chunkBuf, chunkRecvd, e)
  {
    if e.Failed? {
      return PyDone(Collected(chunkBuf, chunkRecvd));
    }
    if e.e.NoData? {
      return if chunkRecvd > 0 then PyDone(Collected(chunkBuf, chunkRecvd)) else PyGo(chunkBuf, chunkRecvd);
    }
    var raw := e.e.raw;
    if raw == [] {
      return PyGo(chunkBuf, chunkRecvd);
    }
    var h := DecodeGipHeader(raw);
    if h.None? || h.value.cmd != CMD_IDENTIFY {
      return PyGo(chunkBuf, chunkRecvd);
    }
    var f := h.value;
    var chunkData := PySlice(raw, f.hdrLen, f.pktLen);
    if !IsChunk(f.opts) {
      return PyDone(Collected(chunkData, f.pktLen));
    }
    if f.pktLen == 0 {
      return PyDone(Collected(chunkBuf, chunkRecvd));
    }
    o := PyChunkTurn(chunkBuf, chunkRecvd, f, chunkData);
  }

  method PyChunkTurn(chunkBuf: Bytes, chunkRecvd: nat, f: Fields, chunkData: Bytes) returns (o: PyOutcome)
    ensures o == OnPyChunk(chunkBuf, chunkRecvd, f, chunkData)
  {
    var buf := chunkBuf;
    var end := f.chunkOffset + f.pktLen;
    if end > |buf| {
      buf := buf + Zeros(end - |buf| + 64);
    }
    buf := AuthRecv.PyAssign(buf, f.chunkOffset, end, chunkData);
    var recvd := Max(chunkRecvd, end);
    if WantsAck(f.opts) && !AuthRecv.Packable(AuthRecv.Ack(f.seqno, recvd, 0)) {
      return PyRaised;
    }
    o := PyGo(buf, recvd);
  }

  // ------------------------------------------------------------ the same response, unless it raises

  /** A complete chunk: raises if it asks for an ACK, and otherwise does what the Rust receiver does. */
  lemma PyChunkRead(buf: Bytes, recvd: nat, c: Chunk)
    requires Complete(c)
    ensures var o, t := OnPyRead(buf, recvd, In(Data(OnWire(c)))), OnRead(buf, recvd, Data(OnWire(c)));
            if WantsAck(c.opts) then o == PyRaised
            else t.outcome.Go? && o == PyGo(t.outcome.buf, t.outcome.recvd)
  {
    var end := c.offset + |c.data|;
    ChunkRead(buf, recvd, c);
    HeaderRoundTrip(CMD_IDENTIFY, c.opts, c.seqno, |c.data|, Some(c.offset), c.data);
    assert c.data[..|c.data|] == c.data;
    UntotalledAck(c.seqno, Max(recvd, end));
    AssignedIsPlaced(Resized(buf, end), c.offset, c.data);
  }

  lemma AssignedIsPlaced(buf: Bytes, at: nat, data: Bytes)
    requires at + |data| <= |buf|
    ensures AuthRecv.PyAssign(buf, at, at + |data|, data) == Placed(buf, at, data)
  {
  }

  /** Reads that change nothing for either receiver. */
  predicate PyHarmless(e: Read, recvd: nat) {
    match e
    case NoData => recvd == 0
    case Data(raw) => PyFields(raw).None? || PyFields(raw).value.cmd != CMD_IDENTIFY
  }

  predicate PyScript(items: seq<Item>) {
    items == [] ||
    (var before, last := items[..|items| - 1], items[|items| - 1];
     PyScript(before) && (last.Other? ==> PyHarmless(last.e, Extent(Pieces(before)))))
  }

  /** Some chunk asks for an ACK. */
  predicate Flagged(items: seq<Item>) {
    items != [] &&
    (var last := items[|items| - 1];
     Flagged(items[..|items| - 1]) || (last.Piece? && WantsAck(last.c.opts)))
  }

  function PyReads(items: seq<Item>): seq<PyIn> {
    if items == [] then [] else PyReads(items[..|items| - 1]) + [In(AsRead(items[|items| - 1]))]
  }

  lemma PyFront(buf: Bytes, recvd: nat, e: PyIn, more: seq<PyIn>)
    ensures var o := OnPyRead(buf, recvd, e);
            PyReceive(buf, recvd, [e] + more) == if o.PyGo? then PyReceive(o.buf, o.recvd, more) else o
  {
    assert ([e] + more)[0] == e && ([e] + more)[1..] == more;
  }

  lemma {:induction false} PyScriptShown(items: seq<Item>, more: seq<PyIn>) returns (buf: Bytes)
    requires Script(items) && PyScript(items)
    ensures Flagged(items) ==> PyReceive(Zeros(512), 0, PyReads(items) + more) == PyRaised
    ensures !Flagged(items) ==>
              && Shows(buf, Extent(Pieces(items)), Pieces(items))
              && PyReceive(Zeros(512), 0, PyReads(items) + more) == PyReceive(buf, Extent(Pieces(items)), more)
    decreases |items|
  {
    if items == [] {
      buf := Zeros(512);
      assert PyReads(items) + more == more;
    } else {
      var before, last := items[..|items| - 1], items[|items| - 1];
      var e := In(AsRead(last));
      buf := PyScriptShown(before, [e] + more);
      Assoc(PyReads(before), [e], more);
      if !Flagged(before) {
        buf := LastRead(buf, before, last, more);
      }
    }
  }

  /** The last read of a script. */
  lemma LastRead(was: Bytes, before: seq<Item>, last: Item, more: seq<PyIn>) returns (buf: Bytes)
    requires Script(before + [last]) && PyScript(before + [last])
    requires Shows(was, Extent(Pieces(before)), Pieces(before))
    ensures var recvd, e, cs := Extent(Pieces(before)), In(AsRead(last)), Pieces(before + [last]);
            if last.Piece? && WantsAck(last.c.opts) then PyReceive(was, recvd, [e] + more) == PyRaised
            else Shows(buf, Extent(cs), cs) && PyReceive(was, recvd, [e] + more) == PyReceive(buf, Extent(cs), more)
  {
    var recvd := Extent(Pieces(before));
    assert (before + [last])[..|before|] == before;
    PyFront(was, recvd, In(AsRead(last)), more);
    match last
    case Piece(c) =>
      PyChunkRead(was, recvd, c);
      ChunkShown(was, recvd, Pieces(before), c);
      buf := OnRead(was, recvd, AsRead(last)).outcome.buf;
    case Other(_) => buf := was;
  }

  /** The ends both receivers see alike: silence once data has arrived, and an empty chunk. */
  predicate PyEnds(e: Read, recvd: nat) {
    match e
    case NoData => recvd > 0
    case Data(raw) =>
      && PyFields(raw).Some? && PyFields(raw).value.cmd == CMD_IDENTIFY
      && IsChunk(PyFields(raw).value.opts) && PyFields(raw).value.pktLen == 0
  }

  /** On complete chunks in any order, with other packets in between, this receiver raises exactly if one
      of them asks for an ACK, and otherwise returns what the Rust receiver returns, the overlay. */
  lemma PyIdentifyIsOverlayUnlessFlagged(items: seq<Item>, end: Read, more: seq<PyIn>)
    requires Script(items) && PyScript(items) && PyEnds(end, Extent(Pieces(items)))
    ensures PyReceive(Zeros(512), 0, PyReads(items) + [In(end)] + more)
            == if Flagged(items) then PyRaised
               else PyDone(if Extent(Pieces(items)) > 0 then Some(Overlay(Pieces(items))) else None)
  {
    var buf := PyScriptShown(items, [In(end)] + more);
    Assoc(PyReads(items), [In(end)], more);
    if !Flagged(items) {
      var cs := Pieces(items);
      PyFront(buf, Extent(cs), In(end), more);
      assert buf[..Extent(cs)] == Overlay(cs);
    }
  }

  /** A response in one piece is returned as it is, unless it is empty. */
  lemma PySimpleResponse(items: seq<Item>, opts: byte, seqno: byte, data: Bytes, more: seq<PyIn>)
    requires Script(items) && PyScript(items) && !Flagged(items) && !IsChunk(opts)
    ensures PyReceive(Zeros(512), 0, PyReads(items) + [In(Data(SimplePacket(0x04, opts, seqno, data)))] + more)
            == PyDone(if data == [] then None else Some(data))
  {
    var end := In(Data(SimplePacket(0x04, opts, seqno, data)));
    var buf := PyScriptShown(items, [end] + more);
    Assoc(PyReads(items), [end], more);
    PyFront(buf, Extent(Pieces(items)), end, more);
    HeaderRoundTrip(0x04, opts, seqno, |data|, None, data);
    assert data[..|data|] == data;
  }

  /** At the deadline, and at a USB error, what has come so far is returned. */
  lemma PyCutShort(items: seq<Item>, more: seq<PyIn>)
    requires Script(items) && PyScript(items) && !Flagged(items)
    ensures var response := if Extent(Pieces(items)) > 0 then Some(Overlay(Pieces(items))) else None;
            && PyReceive(Zeros(512), 0, PyReads(items)) == PyDone(response)
            && PyReceive(Zeros(512), 0, PyReads(items) + [Failed] + more) == PyDone(response)
  {
    var cs := Pieces(items);
    var atDeadline := PyScriptShown(items, []);
    assert PyReads(items) + [] == PyReads(items);
    assert atDeadline[..Extent(cs)] == Overlay(cs);
    var atError := PyScriptShown(items, [Failed] + more);
    Assoc(PyReads(items), [Failed], more);
    PyFront(atError, Extent(cs), Failed, more);
    assert atError[..Extent(cs)] == Overlay(cs);
  }
}
