/** The microphone path: `on_in` of iso.rs fills the capture ring, the source callback of audio.rs
    trims it and serves the graph. */
module IsoIn {
  import opened ByteSeqs
  import opened Gip
  import opened Varints
  import Spsc

  /** The PCM behind the 2-byte sub-header of a payload. */
  function BehindSubHeader(payload: Bytes): Bytes {
    if |payload| >= 2 then payload[2..] else []
  }

  /** iso.rs `parse_in`, as the bytes it yields: nothing for packets it refuses. A debug build yields the
      same wherever it does not stop. */
  function ParseIn(data: Bytes): Bytes {
    match DecodeRelease(data)
    case Decoded(p) => if p.cmd == CMD_AUDIO_SAMPLES then BehindSubHeader(p.payload) else []
    case _ => []
  }

  /** The PCM iso_audio.py `_on_in` takes from the same packet. */
  function PyParseIn(data: Bytes): Bytes {
    if |data| < 4 || data[0] != CMD_AUDIO_SAMPLES then []
    else
      match PyFields(data)
      case None => []
      case Some(f) => BehindSubHeader(PySlice(data, f.hdrLen, f.pktLen))
  }

  /** Payloads cut from the same place give the same PCM exactly if they are equally long, as far as
      that is more than a sub-header. */
  lemma SamePcmIff(rest: Bytes, a: nat, b: nat)
    requires a <= |rest| && b <= |rest|
    ensures BehindSubHeader(rest[..a]) == BehindSubHeader(rest[..b]) <==> Max(2, a) == Max(2, b)
  {
    assert |BehindSubHeader(rest[..a])| == Max(0, a - 2) && |BehindSubHeader(rest[..b])| == Max(0, b - 2);
  }

  /** The length a Rust release build reads is not the declared one, and it matters: the two cut the
      packet at different places behind the sub-header. */
  predicate CutElsewhere(data: Bytes) {
    match PyFields(data)
    case None => false
    case Some(f) =>
      var rust, rest := ReleaseVarint(data, 3), |data| - f.hdrLen;
      f.cmd == CMD_AUDIO_SAMPLES && rust.Value? && Max(2, Min(rust.value, rest)) != Max(2, Min(f.pktLen, rest))
  }

  /** How a release build and Python see the same packet. */
  lemma ReleaseFields(data: Bytes)
    requires |data| >= 4
    ensures var len, f := ReleaseVarint(data, 3), PyFields(data).value;
            && PyFields(data).Some? && f.hdrLen <= |data| && f.cmd == data[0]
            && match DecodeRelease(data)
               case Decoded(p) =>
                 && len.Value? && p.cmd == data[0] && p.hdrLen == f.hdrLen && p.pktLen == len.value
                 && p.payload == PySlice(data, f.hdrLen, p.pktLen)
               case _ => f.hdrLen == |data|
  {
  }

  /** For every packet both drivers take the same PCM exactly unless they cut it at different places.
      They do not for a length below 2^32 in at most five bytes. */
  lemma ParsersAgree(data: Bytes)
    ensures ParseIn(data) == PyParseIn(data) <==> !CutElsewhere(data)
    ensures PyFields(data).Some? && PyFields(data).value.pktLen < U32 && VarintLength(data, 3) <= 5
            ==> !CutElsewhere(data)
  {
    if |data| >= 4 {
      ReleaseFields(data);
      var f, d := PyFields(data).value, DecodeRelease(data);
      if f.pktLen < U32 && VarintLength(data, 3) <= 5 && ReleaseVarint(data, 3).Value? {
        ShortLengthKept(data);
      }
      SliceOf(data, f.hdrLen, f.pktLen);
      if d.Decoded? {
        SliceOf(data, f.hdrLen, d.packet.pktLen);
        SamePcmIff(data[f.hdrLen..], Min(d.packet.pktLen, |data| - f.hdrLen), Min(f.pktLen, |data| - f.hdrLen));
      }
    }
  }

  lemma ShortLengthKept(data: Bytes)
    requires |data| >= 4 && PyFields(data).value.pktLen < U32 && VarintLength(data, 3) <= 5
    requires ReleaseVarint(data, 3).Value?
    ensures ReleaseVarint(data, 3).value == PyFields(data).value.pktLen
  {
    ReleaseAgrees(data, 3);
  }

  lemma SliceOf(data: Bytes, at: nat, len: nat)
    requires at <= |data|
    ensures PySlice(data, at, len) == data[at..][..Min(len, |data| - at)]
  {
  }

  /** A mic packet gives back the PCM behind its 2-byte sub-header. */
  lemma MicPacketParses(opts: byte, seqno: byte, sub: Bytes, pcm: Bytes)
    requires |sub| == 2 && |pcm| + 2 < U32 && !IsChunk(opts)
    ensures ParseIn(SimplePacket(CMD_AUDIO_SAMPLES, opts, seqno, sub + pcm)) == pcm
  {
    RustReadsHeader(CMD_AUDIO_SAMPLES, opts, seqno, |sub + pcm|, None, sub + pcm);
    DecodeReleaseAgrees(SimplePacket(CMD_AUDIO_SAMPLES, opts, seqno, sub + pcm));
    assert OffsetField(None) == [] && (sub + pcm)[..|sub + pcm|] == sub + pcm;
  }

  /** One isochronous packet of a completed transfer. */
  datatype IsoPacket = IsoPacket(completed: bool, data: Bytes)

  function PcmIn(p: IsoPacket): Bytes {
    if p.completed then ParseIn(p.data) else []
  }

  function AllPcm(packets: seq<IsoPacket>): Bytes {
    if packets == [] then [] else AllPcm(packets[..|packets| - 1]) + PcmIn(packets[|packets| - 1])
  }

  /** One packet of a transfer as the microphone sends it: failed, with anything in it; PCM behind a 2-byte
      sub-header; or another command. */
  datatype MicPacket =
    | Failed(data: Bytes)
    | Audio(opts: byte, seqno: byte, sub: Bytes, pcm: Bytes)
    | OtherCommand(raw: Bytes)

  predicate FromMic(m: MicPacket) {
    match m
    case Failed(_) => true
    case Audio(opts, _, sub, pcm) => |sub| == 2 && |pcm| + 2 < U32 && !IsChunk(opts)
    case OtherCommand(raw) => |raw| < 4 || raw[0] != 0x60
  }

  function AsIso(m: MicPacket): IsoPacket {
    match m
    case Failed(data) => IsoPacket(false, data)
    case Audio(opts, seqno, sub, pcm) => IsoPacket(true, SimplePacket(0x60, opts, seqno, sub + pcm))
    case OtherCommand(raw) => IsoPacket(true, raw)
  }

  function AllIso(ms: seq<MicPacket>): seq<IsoPacket> {
    if ms == [] then [] else AllIso(ms[..|ms| - 1]) + [AsIso(ms[|ms| - 1])]
  }

  /** The PCM of the completed audio packets, in order. */
  function GoodPcm(ms: seq<MicPacket>): seq<Bytes> {
    if ms == [] then []
    else
      var before, m := GoodPcm(ms[..|ms| - 1]), ms[|ms| - 1];
      if m.Audio? then before + [m.pcm] else before
  }

  /** Failed packets and other commands give nothing, audio packets their PCM. */
  lemma MicPacketPcm(m: MicPacket)
    requires FromMic(m)
    ensures PcmIn(AsIso(m)) == if m.Audio? then m.pcm else []
  {
    if m.Audio? {
      MicPacketParses(m.opts, m.seqno, m.sub, m.pcm);
    }
  }

  /** What `OnIn` pushes for a transfer: the PCM of its completed audio packets, in order, and nothing
      else. */
  lemma {:induction false} TransferPcm(ms: seq<MicPacket>)
    requires forall i :: 0 <= i < |ms| ==> FromMic(ms[i])
    ensures AllPcm(AllIso(ms)) == Join(GoodPcm(ms))
  {
    if ms != [] {
      var front, m := ms[..|ms| - 1], ms[|ms| - 1];
      TransferPcm(front);
      MicPacketPcm(m);
      assert AllIso(ms)[..|AllIso(ms)| - 1] == AllIso(front);
      if m.Audio? {
        JoinSnoc(GoodPcm(front), m.pcm);
      }
    }
  }

  /** `on_in`: the capture ring takes the PCM of the good packets, in order, as if it had come in
      one piece; what does not fit at the end is dropped. */
  method OnIn(cap: Spsc.Ring, running: bool, gone: bool, packets: seq<IsoPacket>) returns (resubmit: bool)
    requires cap.Valid()
    modifies cap
    ensures cap.Valid() && resubmit == (running && !gone)
    ensures cap.items == if resubmit then Spsc.Pushed(cap.capacity, old(cap.items), AllPcm(packets))
                         else old(cap.items)
  {
    if !running || gone {
      return false;
    }
    assert Spsc.Pushed(cap.capacity, cap.items, AllPcm(packets[..0])) == cap.items;
    for i := 0 to |packets|
      invariant cap.Valid()
      invariant cap.items == Spsc.Pushed(cap.capacity, old(cap.items), AllPcm(packets[..i]))
    {
      assert packets[..i + 1][..i] == packets[..i] && packets[..i + 1][i] == packets[i];
      Spsc.PushesMerge(cap.capacity, old(cap.items), AllPcm(packets[..i]), PcmIn(packets[i]));
      var p := packets[i];
      if p.completed && p.data != [] {
        var pcm := ParseIn(p.data);
        if pcm != [] {
          var n := cap.Write(pcm);
        }
      }
    }
    assert packets[..|packets|] == packets;
    return true;
  }
}

module MicSource {
  import opened ByteSeqs
  import opened Ledger
  import Spsc

  /** `cap_low`: the latency target in bytes, at least one frame. */
  function CapLow(rate: nat, stride: nat, ms: nat): (low: nat)
    ensures low >= stride
  {
    Max(rate * stride * ms / 1000, stride)
  }

  /** It is `ms` milliseconds of audio, rounded down to bytes, unless that is less than a frame. */
  lemma CapLowIsMilliseconds(rate: nat, stride: nat, ms: nat)
    ensures rate * stride * ms >= 1000 * stride ==>
              CapLow(rate, stride, ms) * 1000 <= rate * stride * ms < (CapLow(rate, stride, ms) + 1) * 1000
    ensures rate * stride * ms < 1000 * stride ==> CapLow(rate, stride, ms) == stride
  {
    var bytes := rate * stride * ms;
    Thousandths(bytes, stride);
  }

  lemma Thousandths(bytes: nat, floor: nat)
    ensures bytes / 1000 * 1000 <= bytes < (bytes / 1000 + 1) * 1000
    ensures bytes >= 1000 * floor ==> bytes / 1000 >= floor
    ensures bytes < 1000 * floor ==> bytes / 1000 < floor
  {
  }

  /** The bytes to serve: the requested frames, or the whole mapped buffer without a hint. `requested` is
      64 bits wide, and so is its product with the stride in a release build; a debug build stops. */
  function Want(mapped: nat, requested: nat, stride: nat): (w: nat)
    requires stride > 0
    ensures w <= mapped
  {
    var maxbytes := mapped / stride * stride;
    if requested > 0 then Min(Wrap64(requested * stride), maxbytes) else maxbytes
  }

  /** The trim: everything above `low` in whole frames, once the depth has passed `high`. */
  function Excess(capLow: nat, stride: nat, depth: nat, want: nat): (e: nat)
    requires stride > 0
    ensures e <= depth
  {
    var low := Max(capLow, want);
    var high := Max(2 * capLow, 2 * want);
    if depth > high then
      var over := depth - low;
      over - over % stride
    else 0
  }

  /** What one callback does with the ring: skipped, served, left. */
  datatype Served = Served(skipped: Bytes, got: Bytes, left: Bytes)

  /** One callback; `env[k]` is what the USB thread pushes just before the k-th ring access
      (sample, skip, read). */
  function Serve(capacity: nat, capLow: nat, stride: nat, ring: Bytes, want: nat, env: seq<Bytes>): Served
    requires stride > 0 && |env| == 3
  {
    var sampled := Spsc.Pushed(capacity, ring, env[0]);
    var excess := Excess(capLow, stride, |sampled|, want);
    var later := Spsc.Pushed(capacity, sampled, env[1]);
    var kept := Spsc.Pushed(capacity, later[excess..], env[2]);
    var got := Min(want, |kept|);
    Served(later[..excess], kept[..got], kept[got..])
  }

  /** The bytes the ring takes from the pushes of one callback. */
  function Added(capacity: nat, capLow: nat, stride: nat, ring: Bytes, want: nat, env: seq<Bytes>): Bytes
    requires stride > 0 && |env| == 3
  {
    var sampled := Spsc.Pushed(capacity, ring, env[0]);
    var excess := Excess(capLow, stride, |sampled|, want);
    var later := Spsc.Pushed(capacity, sampled, env[1]);
    env[0][..Spsc.Room(capacity, |ring|, env[0])]
    + env[1][..Spsc.Room(capacity, |sampled|, env[1])]
    + env[2][..Spsc.Room(capacity, |later| - excess, env[2])]
  }

  /** Between the USB side and the graph nothing is reordered, duplicated or lost: with the skip and
      the read booked, the books of the capture ring stay balanced over every callback. */
  lemma ServeKeepsBooks(accepted: Bytes, log: seq<Use>, capacity: nat, capLow: nat, stride: nat,
                        ring: Bytes, want: nat, env: seq<Bytes>)
    requires stride > 0 && |env| == 3 && Balanced(accepted, log, ring)
    ensures var s := Serve(capacity, capLow, stride, ring, want, env);
            Balanced(accepted + Added(capacity, capLow, stride, ring, want, env),
                     log + [Discarded(s.skipped)] + [Played(s.got)], s.left)
  {
    var sampled := Spsc.Pushed(capacity, ring, env[0]);
    var excess := Excess(capLow, stride, |sampled|, want);
    var later := Spsc.Pushed(capacity, sampled, env[1]);
    var kept := Spsc.Pushed(capacity, later[excess..], env[2]);
    var a0 := env[0][..Spsc.Room(capacity, |ring|, env[0])];
    var a1 := env[1][..Spsc.Room(capacity, |sampled|, env[1])];
    var a2 := env[2][..Spsc.Room(capacity, |later| - excess, env[2])];
    BalancedAfterAccept(accepted, log, ring, a0);
    BalancedAfterAccept(accepted + a0, log, sampled, a1);
    BalancedAfterUse(accepted + a0 + a1, log, later, excess, Discarded(later[..excess]));
    BalancedAfterAccept(accepted + a0 + a1, log + [Discarded(later[..excess])], later[excess..], a2);
    BalancedAfterUse(accepted + a0 + a1 + a2, log + [Discarded(later[..excess])], kept, Min(want, |kept|),
                     Played(kept[..Min(want, |kept|)]));
    Assoc(accepted, a0, a1);
    Assoc(accepted, a0 + a1, a2);
  }

  lemma ExcessBounds(capLow: nat, stride: nat, depth: nat, want: nat)
    requires 0 < stride <= capLow
    ensures var e := Excess(capLow, stride, depth, want);
            && depth - e <= 2 * Max(capLow, want)
            && (e > 0 ==> depth - e >= Max(capLow, want))
            && (e > 0 <==> depth > 2 * Max(capLow, want))
  {
    var low := Max(capLow, want);
    if depth > 2 * low {
      RemainderBelow(depth - low, stride);
    }
  }

  /** A trim goes down to `low` in whole frames: what stays above it is less than a frame. */
  lemma TrimIsExact(capLow: nat, stride: nat, depth: nat, want: nat)
    requires 0 < stride <= capLow && depth > 2 * Max(capLow, want)
    ensures var left := depth - Excess(capLow, stride, depth, want);
            && Max(capLow, want) <= left < Max(capLow, want) + stride
            && Excess(capLow, stride, depth, want) % stride == 0
  {
    var over := depth - Max(capLow, want);
    RemainderBelow(over, stride);
    WholeFramesOff(over, stride);
  }

  lemma WholeFramesOff(n: nat, stride: nat)
    requires stride > 0
    ensures (n - n % stride) % stride == 0
  {
    var q := n / stride;
    assert n - n % stride == stride * q;
    MultipleHasNoRest(q, stride);
  }

  lemma {:induction false} MultipleHasNoRest(q: nat, stride: nat)
    requires stride > 0
    ensures stride * q % stride == 0
  {
    if q > 0 {
      MultipleHasNoRest(q - 1, stride);
      assert stride * q == stride * (q - 1) + stride;
      SameRest(stride * (q - 1), stride);
    }
  }

  lemma SameRest(n: nat, stride: nat)
    requires stride > 0
    ensures (n + stride) % stride == n % stride
  {
    var q, r := n / stride, n % stride;
    assert n + stride == stride * (q + 1) + r;
    UniqueRest(n + stride, stride, q + 1, r);
  }

  lemma UniqueRest(n: nat, stride: nat, q: nat, r: nat)
    requires r < stride && n == stride * q + r
    ensures n % stride == r
  {
    var d := n / stride - q;
    assert stride * d == r - n % stride;
  }

  lemma RemainderBelow(n: nat, stride: nat)
    requires stride > 0
    ensures 0 <= n % stride < stride
  {
  }

  /** In every interleaving a callback that trims serves all that is wanted: the trim cannot be the
      cause of an underrun. */
  lemma TrimNeverStarves(capacity: nat, capLow: nat, stride: nat, ring: Bytes, want: nat, env: seq<Bytes>)
    requires 0 < stride <= capLow && |env| == 3
    requires Excess(capLow, stride, |Spsc.Pushed(capacity, ring, env[0])|, want) > 0
    ensures |Serve(capacity, capLow, stride, ring, want, env).got| == want
  {
    ExcessBounds(capLow, stride, |Spsc.Pushed(capacity, ring, env[0])|, want);
  }

  /** With nothing pushed in between, the trim costs the reader nothing - it gets what it would have
      got without it - and one callback brings any ring, even a full one, down to twice the target. */
  lemma AtomicServe(capacity: nat, capLow: nat, stride: nat, ring: Bytes, want: nat)
    requires 0 < stride <= capLow
    ensures var s := Serve(capacity, capLow, stride, ring, want, [[], [], []]);
            && |s.got| == Min(|ring|, want)
            && |s.got| + |s.left| <= 2 * Max(capLow, want)
            && (|ring| <= 2 * Max(capLow, want) ==> s.skipped == [] && s.got == ring[..|s.got|])
  {
    ExcessBounds(capLow, stride, |ring|, want);
    var none: Bytes := [];
    assert Spsc.Pushed(capacity, ring, none) == ring;
    var excess := Excess(capLow, stride, |ring|, want);
    assert Spsc.Pushed(capacity, ring[excess..], none) == ring[excess..];
    assert ring[0..] == ring;
  }

  /** Whole 2-byte samples stay whole: pushes, skips and reads never split one. */
  lemma SamplesStayWhole(capacity: nat, capLow: nat, ring: Bytes, want: nat, env: seq<Bytes>)
    requires |env| == 3 && |ring| <= capacity && capLow >= 2
    requires Even(capacity) && Even(|ring|) && Even(want) && forall k :: 0 <= k < 3 ==> Even(|env[k]|)
    ensures var s := Serve(capacity, capLow, 2, ring, want, env);
            Even(|s.skipped|) && Even(|s.got|) && Even(|s.left|)
  {
    var sampled := Spsc.Pushed(capacity, ring, env[0]);
    PushedEven(capacity, ring, env[0]);
    var excess := Excess(capLow, 2, |sampled|, want);
    ExcessEven(capLow, |sampled|, want);
    PushedEven(capacity, sampled, env[1]);
    var later := Spsc.Pushed(capacity, sampled, env[1]);
    EvenDifference(|later|, excess);
    PushedEven(capacity, later[excess..], env[2]);
    var kept := Spsc.Pushed(capacity, later[excess..], env[2]);
    EvenDifference(|kept|, Min(want, |kept|));
  }

  predicate Even(n: nat) { n % 2 == 0 }

  lemma EvenDifference(a: nat, b: nat)
    requires Even(a) && Even(b) && a >= b
    ensures Even(a - b)
  {
    assert a - b == 2 * (a / 2 - b / 2);
  }

  lemma EvenSum(a: nat, b: nat)
    requires Even(a) && Even(b)
    ensures Even(a + b)
  {
    assert a + b == 2 * (a / 2 + b / 2);
  }

  lemma PushedEven(capacity: nat, ring: Bytes, src: Bytes)
    requires Even(capacity) && Even(|ring|) && Even(|src|) && |ring| <= capacity
    ensures Even(|Spsc.Pushed(capacity, ring, src)|) && |Spsc.Pushed(capacity, ring, src)| <= capacity
  {
    if |ring| + |src| <= capacity {
      EvenSum(|ring|, |src|);
    }
  }

  lemma ExcessEven(capLow: nat, depth: nat, want: nat)
    ensures Even(Excess(capLow, 2, depth, want))
  {
    if depth > Max(2 * capLow, 2 * want) {
      var over := depth - Max(capLow, want);
      assert over - over % 2 == 2 * (over / 2);
    }
  }

  // ------------------------------------------------------------ the request of the graph

  /** wolverine_pw.c `on_process_capture`: the same arithmetic on `uint32_t`; `b->requested` is a
      64-bit field and gets truncated. */
  function WantC(maxsize: nat, requested: nat, stride: nat): nat
    requires stride > 0
  {
    var maxframes := maxsize / stride;
    var nframes := if requested != 0 then Wrap32(requested) else maxframes;
    Min(nframes, maxframes) * stride
  }

  /** The C shim and the Rust driver serve the same number of bytes exactly if the C truncation does
      not bite, as long as the Rust product does not wrap; if it does, exactly if both have wrapped to the
      same number of bytes or both still ask for more than the buffer holds. */
  lemma WantsAgree(maxsize: nat, requested: nat, stride: nat)
    requires stride > 0 && maxsize < U32
    ensures var frames := maxsize / stride;
            var agree := WantC(maxsize, requested, stride) == Want(maxsize, requested, stride);
            if requested * stride < 0x1_0000_0000_0000_0000 then
              agree <==> requested < U32 || Wrap32(requested) >= frames
            else if Wrap32(requested) < frames then
              agree <==> Wrap64(requested * stride) == Wrap32(requested) * stride
            else agree <==> Wrap64(requested * stride) >= frames * stride
  {
    var frames := maxsize / stride;
    FramesFit(maxsize, stride);
    MinTimes(requested, frames, stride);
    var c := Min(if requested != 0 then Wrap32(requested) else frames, frames);
    if requested * stride < 0x1_0000_0000_0000_0000 {
      var rust := if requested > 0 then Min(requested, frames) else frames;
      assert Want(maxsize, requested, stride) == rust * stride;
      SameFrames(c, rust, stride);
    } else {
      MinTimes(Wrap32(requested), frames, stride);
      SameFrames(Wrap32(requested), frames, stride);
    }
  }

  lemma FramesFit(maxsize: nat, stride: nat)
    requires stride > 0
    ensures maxsize / stride <= maxsize
  {
    var f := maxsize / stride;
    assert maxsize == stride * f + maxsize % stride;
    assert stride * f == f + (stride - 1) * f;
    Product(stride - 1, f);
  }

  lemma Product(a: nat, b: nat)
    ensures a * b >= 0
  {
  }

  lemma MinTimes(a: nat, b: nat, k: nat)
    ensures Min(a * k, b * k) == Min(a, b) * k
  {
    if a <= b {
      assert a * k <= b * k;
    } else {
      assert a * k >= b * k;
    }
  }

  lemma SameFrames(a: nat, b: nat, k: nat)
    requires k > 0
    ensures a * k == b * k <==> a == b
  {
    if a < b {
      assert (b - a) * k > 0;
    } else if b < a {
      assert (a - b) * k > 0;
    }
  }

  // ------------------------------------------------------------ the callback

  /** The source `process` closure. `slice` is null when the buffer is not mapped. Its first `want`
      bytes are the served PCM and then silence, the rest is left alone; `want` goes into the
      chunk size. */
  method Process(cap: Spsc.Ring, capLow: nat, stride: nat, slice: array?<byte>, requested: nat, env: seq<Bytes>)
    returns (want: nat)
    requires cap.Valid() && stride > 0 && |env| == 3
    modifies cap, slice
    ensures cap.Valid()
    ensures slice == null ==> want == 0 && cap.items == old(cap.items)
    ensures slice != null ==>
              var s := Serve(cap.capacity, capLow, stride, old(cap.items), want, env);
              && want == Want(slice.Length, requested, stride)
              && cap.items == s.left
              && slice[..] == s.got + Zeros(want - |s.got|) + old(slice[want..])
  {
    if slice == null {
      return 0;
    }
    want := Want(slice.Length, requested, stride);

    var taken := cap.Write(env[0]);
    var low := Max(capLow, want);
    var high := Max(2 * capLow, 2 * want);
    var avail := cap.Avail();
    ghost var sampled := cap.items;
    var trim := 0;
    if avail > high {
      var excess := avail - low;
      trim := excess - excess % stride;
    }
    assert trim == Excess(capLow, stride, |sampled|, want);
    taken := cap.Write(env[1]);
    if trim > 0 {
      var skipped := cap.Skip(trim);
    }
    taken := cap.Write(env[2]);
    ReadOrSilence(cap, slice, want);
  }

  /** The read of `process`: what there is, then silence for a genuine underrun. */
  method ReadOrSilence(cap: Spsc.Ring, slice: array<byte>, want: nat)
    requires cap.Valid() && want <= slice.Length
    modifies cap, slice
    ensures cap.Valid()
    ensures var got := Min(want, |old(cap.items)|);
            && cap.items == old(cap.items)[got..]
            && slice[..] == old(cap.items)[..got] + Zeros(want - got) + old(slice[want..])
  {
    ghost var was := slice[..];
    var got := cap.Read(slice, 0, want);
    ghost var read := slice[..];
    CopyInto(slice, got, Zeros(want - got));
    assert slice[..] == read[..got] + Zeros(want - got) + read[want..];
    assert read[want..] == was[want..];
  }
}
