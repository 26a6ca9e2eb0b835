/** GIP packet framing: headers, decoding and sequence numbers (gip.rs, gip_init.py). */
module Gip {
  import opened ByteSeqs
  import opened Varints

  // ------------------------------------------------------------ constants

  const CMD_ACKNOWLEDGE: byte := 0x01
  const CMD_IDENTIFY: byte := 0x04
  const CMD_AUTHENTICATE: byte := 0x06
  const CMD_AUDIO_SAMPLES: byte := 0x60

  predicate IsChunk(opts: byte) { Bit7(opts) }

  predicate IsChunkStart(opts: byte) { Bit6(opts) }

  predicate WantsAck(opts: byte) { Bit4(opts) }

  /** `GIP_CLIENT_ID | GIP_OPT_INTERNAL` */
  const OPTS_INTERNAL: byte := 0x21

  // ------------------------------------------------------------ building

  function OffsetField(offset: Option<nat>): Bytes {
    match offset
    case None => []
    case Some(o) => Varint(o)
  }

  function OffsetValue(offset: Option<nat>): nat {
    if offset.Some? then offset.value else 0
  }

  /** The length varint, padded so that the whole header comes out even. */
  function LengthField(len: nat, offset: Option<nat>): Bytes {
    var v := Varint(len);
    if Odd(3 + |v| + |OffsetField(offset)|) then Extended(v) else v
  }

  lemma LengthFieldReadBack(pre: Bytes, len: nat, offset: Option<nat>, post: Bytes)
    ensures Reads(pre + LengthField(len, offset) + post, |pre|, |LengthField(len, offset)|, len)
  {
    VarintReadBack(pre, len, post);
    ExtendedReadBack(pre, len, post);
  }

  /** gip_init.py `build_gip_header`. */
  function Header(cmd: byte, opts: byte, seqno: byte, len: nat, offset: Option<nat>): Bytes {
    [cmd, opts, seqno] + LengthField(len, offset) + OffsetField(offset)
  }

  lemma HeaderIsEven(cmd: byte, opts: byte, seqno: byte, len: nat, offset: Option<nat>)
    ensures |Header(cmd, opts, seqno, len, offset)| % 2 == 0
  {
    var plain := 3 + |Varint(len)| + |OffsetField(offset)|;
    assert |Header(cmd, opts, seqno, len, offset)| == if Odd(plain) then plain + 1 else plain;
    OddIsMod2(plain);
  }

  /** gip_init.py `build_packet`, gip.rs `build_packet`. */
  function SimplePacket(cmd: byte, opts: byte, seqno: byte, payload: Bytes): Bytes {
    Header(cmd, opts, seqno, |payload|, None) + payload
  }

  /** gip.rs `build_header`, working on vectors as the source does. */
  method BuildHeader(cmd: byte, opts: byte, seqno: byte, len: nat) returns (hdr: Bytes)
    requires len < U32
    ensures hdr == Header(cmd, opts, seqno, len, None)
  {
    var lenVarint := new ByteVec();
    WriteVarint(lenVarint, len);
    var v := lenVarint.bytes;
    if Odd(3 + |lenVarint.bytes|) {
      var last := |lenVarint.bytes| - 1;
      lenVarint.bytes := lenVarint.bytes[last := Continued(lenVarint.bytes[last])];
      lenVarint.bytes := lenVarint.bytes + [0];
      assert lenVarint.bytes == Extended(v);
    }
    assert lenVarint.bytes == LengthField(len, None);
    hdr := [];
    hdr := hdr + [cmd];
    hdr := hdr + [opts];
    hdr := hdr + [seqno];
    assert hdr == [cmd, opts, seqno];
    hdr := hdr + lenVarint.bytes;
    assert hdr + [] == hdr;
  }

  // ------------------------------------------------------------ decoding, Rust

  datatype Packet = Packet(cmd: byte, options: byte, seqno: byte, hdrLen: nat,
                           pktLen: nat, chunkOffset: nat, payload: Bytes)

  /** `Undefined` is the shift overflow of `read_varint`. */
  datatype RustDecoded = NoPacket | Undefined | Decoded(packet: Packet)

  /** gip.rs `decode`: the length varint and, only with the CHUNK bit, the offset varint. */
  function Decode(buf: Bytes): RustDecoded {
    if |buf| < 4 then NoPacket
    else
      var len := RustVarint(buf, 3);
      var off := if len.Value? && IsChunk(buf[1]) then RustVarint(buf, 3 + len.consumed) else Value(0, 0);
      Assembled(buf, len, off)
  }

  /** The same in a release build, which reads varints of any length. */
  function DecodeRelease(buf: Bytes): RustDecoded {
    if |buf| < 4 then NoPacket
    else
      var len := ReleaseVarint(buf, 3);
      var off := if len.Value? && IsChunk(buf[1]) then ReleaseVarint(buf, 3 + len.consumed) else Value(0, 0);
      Assembled(buf, len, off)
  }

  /** Both builds decode alike wherever the debug build does not stop. */
  lemma DecodeReleaseAgrees(buf: Bytes)
    requires !Decode(buf).Undefined?
    ensures DecodeRelease(buf) == Decode(buf)
  {
    if |buf| >= 4 {
      ReleaseAgrees(buf, 3);
      var len := RustVarint(buf, 3);
      if len.Value? && IsChunk(buf[1]) {
        ReleaseAgrees(buf, 3 + len.consumed);
      }
    }
  }

  function Assembled(buf: Bytes, len: VarintRead, off: VarintRead): RustDecoded
    requires |buf| >= 4
  {
    match (len, off)
    case (Overlong, _) => Undefined
    case (Incomplete, _) => NoPacket
    case (Value(_, _), Overlong) => Undefined
    case (Value(_, _), Incomplete) => NoPacket
    case (Value(pktLen, c), Value(chunkOffset, d)) =>
      var pos := 3 + c + d;
      Decoded(Packet(buf[0], buf[1], buf[2], pos, pktLen, chunkOffset, PySlice(buf, pos, pktLen)))
  }

  /** Slices that stop at the end of the data: `data[at:at + len]` in Python, and in Rust
      `buf.get(at..end)` with `end` capped at the end of the buffer. */
  function PySlice(data: Bytes, at: nat, len: nat): Bytes {
    if at >= |data| then [] else data[at..Min(at + len, |data|)]
  }

  // ------------------------------------------------------------ decoding, Python

  datatype Fields = Fields(cmd: byte, opts: byte, seqno: byte, hdrLen: nat,
                           pktLen: nat, chunkOffset: nat)

  datatype PyRead = PyRead(value: nat, end: nat)

  /** One varint loop: a varint cut off by the end of the data still yields what was there. */
  function PyVarint(data: Bytes, pos: nat): (r: PyRead)
    requires pos <= |data|
    ensures pos <= r.end <= |data|
  {
    var n := VarintLength(data, pos);
    var end := if n == 0 then |data| else pos + n;
    PyRead(VarintValue(data, pos), end)
  }

  function PyFields(data: Bytes): Option<Fields> {
    if |data| < 4 then None
    else
      var len := PyVarint(data, 3);
      var off := if IsChunk(data[1]) then PyVarint(data, len.end) else PyRead(0, len.end);
      Some(Fields(data[0], data[1], data[2], off.end, len.value, off.value))
  }

  /** One of the two varint loops of `decode_gip_header`. */
  method DecodeVarintLoop(data: Bytes, start: nat) returns (value: nat, pos: nat)
    requires start <= |data|
    ensures PyRead(value, pos) == PyVarint(data, start)
  {
    value := 0;
    pos := start;
    var shift: nat := 0;
    while pos < |data|
      invariant start <= pos <= |data| && shift == 7 * (pos - start)
      invariant StillOpen(data, start, pos, value)
    {
      Turn(data, start, pos, value);
      var b := data[pos];
      value := BitOr(value, Shl(Low(b), shift));
      pos := pos + 1;
      shift := shift + 7;
      if b < 128 {
        return;
      }
    }
    ShlZero(shift);
  }

  /** gip_init.py `decode_gip_header`. */
  method DecodeGipHeader(data: Bytes) returns (r: Option<Fields>)
    ensures r == PyFields(data)
  {
    if |data| < 4 {
      return None;
    }
    var pktLen, pos := DecodeVarintLoop(data, 3);
    var chunkOffset := 0;
    var hdrEnd := pos;
    if IsChunk(data[1]) {
      chunkOffset, hdrEnd := DecodeVarintLoop(data, pos);
    }
    return Some(Fields(data[0], data[1], data[2], hdrEnd, pktLen, chunkOffset));
  }

  // ------------------------------------------------------------ the two decoders agree

  lemma VarintReadersAgree(buf: Bytes, pos: nat)
    requires pos <= |buf|
    ensures var r, p := RustVarint(buf, pos), PyVarint(buf, pos);
            && (r.Value? ==> r.value == Wrap32(p.value) && pos + r.consumed == p.end)
            && (r.Incomplete? ==> p.end == |buf|)
  {
  }

  /** Whatever Rust decodes, Python decodes to the same fields, with Rust's two numbers reduced
      modulo 2^32; Rust refuses only short or cut-off headers and varints of six bytes or more. */
  lemma DecodersAgree(buf: Bytes)
    ensures Decode(buf).Decoded? ==>
              var p, f := Decode(buf).packet, PyFields(buf);
              && f.Some?
              && f.value == Fields(p.cmd, p.options, p.seqno, p.hdrLen, f.value.pktLen, f.value.chunkOffset)
              && p.pktLen == Wrap32(f.value.pktLen) && p.chunkOffset == Wrap32(f.value.chunkOffset)
              && (f.value.pktLen < U32 ==> p.payload == PySlice(buf, p.hdrLen, p.pktLen))
    ensures Decode(buf).NoPacket? ==> PyFields(buf).None? || PyFields(buf).value.hdrLen == |buf|
  {
    if |buf| >= 4 {
      VarintReadersAgree(buf, 3);
      VarintReadersAgree(buf, PyVarint(buf, 3).end);
    }
  }

  // ------------------------------------------------------------ round trips

  /** Both varints of a header are read back, whatever follows them. */
  lemma VarintsReadBack(cmd: byte, opts: byte, seqno: byte, len: nat, offset: Option<nat>, rest: Bytes)
    ensures var buf, f := Header(cmd, opts, seqno, len, offset) + rest, LengthField(len, offset);
            && Reads(buf, 3, |f|, len)
            && (offset.Some? ==> Reads(buf, 3 + |f|, |OffsetField(offset)|, offset.value))
  {
    var fixed, f, o := [cmd, opts, seqno], LengthField(len, offset), OffsetField(offset);
    assert fixed + f + (o + rest) == fixed + f + o + rest;
    LengthFieldReadBack(fixed, len, offset, o + rest);
    if offset.Some? {
      VarintReadBack(fixed + f, offset.value, rest);
    }
  }

  /** Every header is read back field for field, whatever follows it. */
  lemma HeaderRoundTrip(cmd: byte, opts: byte, seqno: byte, len: nat, offset: Option<nat>, rest: Bytes)
    requires offset.Some? <==> IsChunk(opts)
    ensures var h := Header(cmd, opts, seqno, len, offset);
            && PyFields(h + rest) == Some(Fields(cmd, opts, seqno, |h|, len, OffsetValue(offset)))
            && PySlice(h + rest, |h|, len) == rest[..Min(len, |rest|)]
  {
    VarintsReadBack(cmd, opts, seqno, len, offset, rest);
    SliceAfter(Header(cmd, opts, seqno, len, offset), rest, len);
  }

  lemma SliceAfter(h: Bytes, rest: Bytes, len: nat)
    ensures PySlice(h + rest, |h|, len) == rest[..Min(len, |rest|)]
  {
    if rest == [] {
      assert h + rest == h;
    } else {
      assert (h + rest)[|h|..Min(|h| + len, |h + rest|)] == rest[..Min(len, |rest|)];
    }
  }

  /** gip.rs `decode` reads the same headers back, except the one shape whose padded length
      varint needs six bytes: a length of 2^28 or more before an odd-sized chunk offset. */
  lemma RustReadsHeader(cmd: byte, opts: byte, seqno: byte, len: nat, offset: Option<nat>, rest: Bytes)
    requires offset.Some? <==> IsChunk(opts)
    requires len < U32 && OffsetValue(offset) < U32
    ensures var h := Header(cmd, opts, seqno, len, offset);
            Decode(h + rest) ==
            if len >= 0x1000_0000 && Odd(|OffsetField(offset)|) then Undefined
            else Decoded(Packet(cmd, opts, seqno, |h|, len, OffsetValue(offset), rest[..Min(len, |rest|)]))
  {
    var h := Header(cmd, opts, seqno, len, offset);
    LengthFieldFits(len, offset);
    RustVarintsReadBack(cmd, opts, seqno, len, offset, rest);
    SliceAfter(h, rest, len);
    AssembledBehind(h, rest, |LengthField(len, offset)|, |OffsetField(offset)|, len, OffsetValue(offset));
  }

  lemma AssembledBehind(h: Bytes, rest: Bytes, f: nat, o: nat, len: nat, off: nat)
    requires |h| == 3 + f + o >= 4
    ensures Assembled(h + rest, Value(len, f), Value(off, o))
            == Decoded(Packet(h[0], h[1], h[2], |h|, len, off, PySlice(h + rest, |h|, len)))
  {
  }

  /** `read_varint` on both varints of a header. */
  lemma RustVarintsReadBack(cmd: byte, opts: byte, seqno: byte, len: nat, offset: Option<nat>, rest: Bytes)
    requires len < U32 && OffsetValue(offset) < U32
    ensures var buf, f := Header(cmd, opts, seqno, len, offset) + rest, LengthField(len, offset);
            && RustVarint(buf, 3) == (if |f| > 5 then Overlong else Value(len, |f|))
            && (offset.Some? ==> RustVarint(buf, 3 + |f|) == Value(offset.value, |OffsetField(offset)|))
  {
    VarintsReadBack(cmd, opts, seqno, len, offset, rest);
    if offset.Some? {
      ShlTable(1);
      VarintLengthBound(offset.value, 5);
    }
  }

  lemma LengthFieldFits(len: nat, offset: Option<nat>)
    requires len < U32
    ensures |LengthField(len, offset)| <= 5 <==> !(len >= 0x1000_0000 && Odd(|OffsetField(offset)|))
  {
    ShlTable(1);
    VarintLengthBound(len, 4);
    VarintLengthBound(len, 5);
    OddStep(|OffsetField(offset)|);
  }

  lemma OddStep(n: nat)
    ensures Odd(n + 8) == Odd(n) && Odd(n + 7) == !Odd(n)
  {
    OddIsMod2(n);
    OddIsMod2(n + 7);
    OddIsMod2(n + 8);
  }

  // ------------------------------------------------------------ sequence numbers

  /** The `k`-th sequence number of any stream, from 0: 1, 2, .., 255, 1, .. */
  function SeqAt(k: nat): byte { (k % 255 + 1) as byte }

  /** gip.rs `SeqCounter`. */
  class SeqCounter {
    var last: byte

    constructor ()
      ensures last == 0
    {
      last := 0;
    }

    /** The `k`-th call on a fresh counter returns `SeqAt(k)`, never 0. */
    method Next(ghost k: nat) returns (s: byte)
      requires last == if k == 0 then 0 else SeqAt(k - 1)
      modifies this
      ensures s == SeqAt(k) && last == s && s != 0
    {
      last := ((last as int + 1) % 256) as byte;
      if last == 0 {
        last := 1;
      }
      s := last;
    }
  }

  /** The other spelling of the same counter: `if seq < 255 { seq + 1 } else { 1 }`. */
  function SeqAfter(s: byte): byte { if s < 255 then s + 1 else 1 }

  lemma SeqAfterCycles(k: nat)
    ensures SeqAfter(SeqAt(k)) == SeqAt(k + 1)
  {
    var q, r := k / 255, k % 255;
    assert k == 255 * q + r;
    if r < 254 {
      CycleRemainder(q, r + 1);
    } else {
      CycleRemainder(q + 1, 0);
    }
  }

  lemma CycleRemainder(q: nat, r: nat)
    requires r < 255
    ensures (255 * q + r) % 255 == r
  {
  }

  /** `n` numbers on from `s`. */
  function SeqFrom(s: byte, n: nat): byte { if n == 0 then s else SeqAfter(SeqFrom(s, n - 1)) }

  lemma {:induction false} SeqFromAt(j: nat, n: nat)
    ensures SeqFrom(SeqAt(j), n) == SeqAt(j + n)
  {
    if n > 0 {
      SeqFromAt(j, n - 1);
      SeqAfterCycles(j + n - 1);
    }
  }

  lemma {:induction false} SeqFromAdds(s: byte, j: nat, n: nat)
    ensures SeqFrom(SeqFrom(s, j), n) == SeqFrom(s, j + n)
  {
    if n > 0 {
      SeqFromAdds(s, j, n - 1);
    }
  }
}
