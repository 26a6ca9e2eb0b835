/** The playback half of the isochronous engine: `EngineState` and `on_out` of iso.rs. */
module IsoOut {
  import opened ByteSeqs
  import opened Gip
  import opened Varints
  import opened Ledger
  import Q = BoundedQueue
  import Spsc

  const OUT_PCM_BYTES: nat := 192
  const OUT_HDR_BYTES: nat := 6
  const OUT_PKT_BYTES: nat := 198

  /** Where packet `i` of a transfer starts. */
  function PktAt(i: nat): nat { 198 * i }

  /** The ring the sink thread pushes into: the one of ring.rs, the one of wolverine_pw.c, or none. */
  datatype Feed = DropNewest(capacity: nat) | DropOldest(capacity: nat) | NoBridge

  /** The tunables: ring capacity, priming depth in 1 ms frames, packets in a transfer, transfers. */
  datatype Config = Config(capacity: nat, primeMs: nat, pkts: nat, xfers: nat) {
    /** `env_usize` only lets positive values through. */
    predicate Valid() { primeMs > 0 && pkts > 0 && xfers > 0 }

    function Prime(): nat { 192 * primeMs }

    /** Packets in flight, each one millisecond. */
    function Runway(): nat { xfers * pkts }

    function Feed(): Feed { DropNewest(capacity) }

    /** `prime_bytes + prime_bytes.max(OUT_PCM_BYTES)` */
    function High(): nat { Prime() + Max(Prime(), OUT_PCM_BYTES) }
  }

  // ------------------------------------------------------------ packets

  /** The header template with sequence byte `s`: the third varint byte cured the robotic voice. */
  function AudioHeader(s: byte): Bytes { [0x60, 0x21, s, 0xC0, 0x81, 0x00] }

  /** It is what `build_header` builds for 192 bytes of AUDIO_SAMPLES. */
  lemma AudioHeaderIsBuilt(s: byte)
    ensures AudioHeader(s) == Header(CMD_AUDIO_SAMPLES, OPTS_INTERNAL, s, OUT_PCM_BYTES, None)
  {
    var v := Varint(192);
    assert Varint(1) == [0x01] && v == [0xC0] + Varint(1);
    assert v == [0xC0, 0x01];
    assert OffsetField(None) == [];
    assert Odd(1) && Odd(3) && Odd(5);
    assert 3 + |v| + |OffsetField(None)| == 5;
    assert LengthField(192, None) == Extended(v) == [0xC0, 0x81, 0x00];
  }

  /** One packet on the bus: header, the PCM there was, silence for the rest. */
  function Frame(s: byte, pcm: Bytes): Bytes
    requires |pcm| <= OUT_PCM_BYTES
  {
    AudioHeader(s) + (pcm + Zeros(OUT_PCM_BYTES - |pcm|))
  }

  /** The device reads every frame as a 6-byte header and 192 payload bytes: PCM, then silence. */
  lemma FrameDecodes(s: byte, pcm: Bytes)
    requires |pcm| <= OUT_PCM_BYTES
    ensures |Frame(s, pcm)| == OUT_PKT_BYTES
    ensures Decode(Frame(s, pcm)) == Decoded(Packet(CMD_AUDIO_SAMPLES, OPTS_INTERNAL, s, 6, 192, 0,
                                                    pcm + Zeros(OUT_PCM_BYTES - |pcm|)))
  {
    var payload := pcm + Zeros(OUT_PCM_BYTES - |pcm|);
    AudioHeaderIsBuilt(s);
    RustReadsHeader(CMD_AUDIO_SAMPLES, OPTS_INTERNAL, s, OUT_PCM_BYTES, None, payload);
    assert payload[..Min(192, |payload|)] == payload;
  }

  // ------------------------------------------------------------ the steps of one callback

  /** What a callback works on. */
  datatype Core = Core(ring: Bytes, primed: bool, seqno: byte)

  /** The sink thread pushes. */
  function PushInto(feed: Feed, c: Core, src: Bytes): Core {
    match feed
    case DropNewest(capacity) => c.(ring := Spsc.Pushed(capacity, c.ring, src))
    case DropOldest(capacity) => c.(ring := Q.Pushed(capacity, c.ring, src))
    case NoBridge => c
  }

  function Push(cfg: Config, c: Core, src: Bytes): Core { PushInto(cfg.Feed(), c, src) }

  /** First sample: wait for a cushion before draining real audio. */
  function PrimeCheck(cfg: Config, c: Core): Core {
    c.(primed := c.primed || |c.ring| >= cfg.Prime())
  }

  /** Second sample: how much to trim, in whole stereo frames; 0 when no trim is due. */
  function Excess(cfg: Config, c: Core): nat {
    if c.primed && |c.ring| > cfg.High() then WholeFrames(|c.ring| - cfg.Prime()) else 0
  }

  function Skip(c: Core, excess: nat): Core {
    c.(ring := c.ring[Min(excess, |c.ring|)..])
  }

  /** The PCM the next packet gets. */
  function NextPcm(c: Core): (pcm: Bytes)
    ensures |pcm| <= OUT_PCM_BYTES
  {
    if c.primed then c.ring[..Min(OUT_PCM_BYTES, |c.ring|)] else []
  }

  function AfterPacket(c: Core): Core {
    Core(c.ring[|NextPcm(c)|..], c.primed, SeqAfter(c.seqno))
  }

  // ------------------------------------------------------------ one whole callback

  /** Everything before the refill loop. `env[k]` is what the sink thread pushes just before the
      k-th ring access. */
  function Trimmed(cfg: Config, c: Core, env: seq<Bytes>): Core
    requires |env| == 3
  {
    var sampled := Push(cfg, PrimeCheck(cfg, Push(cfg, c, env[0])), env[1]);
    Skip(Push(cfg, sampled, env[2]), Excess(cfg, sampled))
  }

  /** The trim bounds the playback depth in one callback, however full the ring was: what is left is
      at most twice the prime depth, and after a trim the prime depth and less than one frame,
      apart from what the sink pushes between the sample and the skip. */
  lemma TrimBoundsDepth(cfg: Config, c: Core, env: seq<Bytes>)
    requires cfg.Valid() && |env| == 3
    ensures var sampled := Push(cfg, PrimeCheck(cfg, Push(cfg, c, env[0])), env[1]);
            var left := Trimmed(cfg, c, env);
            && (left.primed ==> |left.ring| <= 2 * cfg.Prime() + |env[2]|)
            && (Excess(cfg, sampled) > 0 ==> cfg.Prime() <= |left.ring| <= cfg.Prime() + 3 + |env[2]|)
  {
  }

  /** The refill loop: one packet for every entry of `env`, which the sink pushes just before it. */
  function Refilled(feed: Feed, c: Core, env: seq<Bytes>): Core {
    if env == [] then c
    else AfterPacket(PushInto(feed, Refilled(feed, c, env[..|env| - 1]), env[|env| - 1]))
  }

  /** What the last packet of `env` starts from. */
  function BeforeLast(feed: Feed, c: Core, env: seq<Bytes>): Core
    requires env != []
  {
    PushInto(feed, Refilled(feed, c, env[..|env| - 1]), env[|env| - 1])
  }

  function Packets(feed: Feed, c: Core, env: seq<Bytes>): seq<Bytes> {
    if env == [] then []
    else
      var before := BeforeLast(feed, c, env);
      Packets(feed, c, env[..|env| - 1]) + [Frame(before.seqno, NextPcm(before))]
  }

  lemma {:induction false} PacketsCount(feed: Feed, c: Core, env: seq<Bytes>)
    ensures |Packets(feed, c, env)| == |env|
    ensures forall k :: 0 <= k < |env| ==> |Packets(feed, c, env)[k]| == OUT_PKT_BYTES
  {
    if env != [] {
      PacketsCount(feed, c, env[..|env| - 1]);
      var before := BeforeLast(feed, c, env);
      FrameDecodes(before.seqno, NextPcm(before));
    }
  }

  /** The PCM of the packets. */
  function Pcms(feed: Feed, c: Core, env: seq<Bytes>): seq<Bytes> {
    if env == [] then [] else Pcms(feed, c, env[..|env| - 1]) + [NextPcm(BeforeLast(feed, c, env))]
  }

  lemma {:induction false} PcmsCount(feed: Feed, c: Core, env: seq<Bytes>)
    ensures |Pcms(feed, c, env)| == |env|
  {
    if env != [] {
      PcmsCount(feed, c, env[..|env| - 1]);
    }
  }

  lemma {:induction false} NumberAfter(feed: Feed, c: Core, env: seq<Bytes>)
    ensures Refilled(feed, c, env).seqno == SeqFrom(c.seqno, |env|)
  {
    if env != [] {
      NumberAfter(feed, c, env[..|env| - 1]);
    }
  }

  /** A packet with this number and this PCM. */
  predicate Carries(packet: Bytes, seqno: byte, pcm: Bytes) {
    |pcm| <= OUT_PCM_BYTES && packet == Frame(seqno, pcm)
  }

  lemma LastPacket(feed: Feed, c: Core, env: seq<Bytes>) returns (packet: Bytes, pcm: Bytes)
    requires env != []
    ensures Packets(feed, c, env) == Packets(feed, c, env[..|env| - 1]) + [packet]
    ensures Pcms(feed, c, env) == Pcms(feed, c, env[..|env| - 1]) + [pcm]
    ensures Carries(packet, SeqFrom(c.seqno, |env| - 1), pcm)
  {
    NumberAfter(feed, c, env[..|env| - 1]);
    var before := BeforeLast(feed, c, env);
    packet, pcm := Frame(before.seqno, NextPcm(before)), NextPcm(before);
  }

  /** Packet `k` carries PCM `k`, `k` numbers on from `seqno`. */
  predicate AllCarry(packets: seq<Bytes>, pcms: seq<Bytes>, seqno: byte) {
    |packets| == |pcms| && forall k :: 0 <= k < |packets| ==> Carries(packets[k], SeqFrom(seqno, k), pcms[k])
  }

  lemma CarrySnoc(packets: seq<Bytes>, pcms: seq<Bytes>, seqno: byte, packet: Bytes, pcm: Bytes)
    requires AllCarry(packets, pcms, seqno) && Carries(packet, SeqFrom(seqno, |packets|), pcm)
    ensures AllCarry(packets + [packet], pcms + [pcm], seqno)
  {
    var more, morePcms := packets + [packet], pcms + [pcm];
    forall k | 0 <= k < |more| ensures Carries(more[k], SeqFrom(seqno, k), morePcms[k]) {
      if k < |packets| {
        assert more[k] == packets[k] && morePcms[k] == pcms[k];
      }
    }
  }

  lemma {:induction false} PacketsCarry(feed: Feed, c: Core, env: seq<Bytes>)
    ensures AllCarry(Packets(feed, c, env), Pcms(feed, c, env), c.seqno) && |Packets(feed, c, env)| == |env|
  {
    if env != [] {
      var front := env[..|env| - 1];
      var packet, pcm := LastPacket(feed, c, env);
      PacketsCarry(feed, c, front);
      CarrySnoc(Packets(feed, c, front), Pcms(feed, c, front), c.seqno, packet, pcm);
    }
  }

  /** Packet `k` of a callback is `k` numbers on from where the callback starts. */
  lemma PacketFrom(feed: Feed, c: Core, env: seq<Bytes>, k: nat)
    requires k < |env|
    ensures |Packets(feed, c, env)| == |Pcms(feed, c, env)| == |env|
    ensures Carries(Packets(feed, c, env)[k], SeqFrom(c.seqno, k), Pcms(feed, c, env)[k])
  {
    PacketsCarry(feed, c, env);
  }

  /** PCM and then silence written behind it fill one payload, and nothing else moves. */
  lemma PayloadFilled(b1: Bytes, b2: Bytes, b3: Bytes, at: nat, pcm: Bytes)
    requires at + OUT_PCM_BYTES <= |b1| && |pcm| <= OUT_PCM_BYTES
    requires b2 == b1[..at] + pcm + b1[at + |pcm|..]
    requires b3 == b2[..at + |pcm|] + Zeros(OUT_PCM_BYTES - |pcm|) + b2[at + OUT_PCM_BYTES..]
    ensures b3 == b1[..at] + (pcm + Zeros(OUT_PCM_BYTES - |pcm|)) + b1[at + OUT_PCM_BYTES..]
  {
    assert b2[..at + |pcm|] == b1[..at] + pcm;
    assert b2[at + OUT_PCM_BYTES..] == b1[at + OUT_PCM_BYTES..];
    Assoc(b1[..at], pcm, Zeros(OUT_PCM_BYTES - |pcm|));
  }

  /** A header and the payload behind it make one frame. */
  lemma FrameFilled(b0: Bytes, b1: Bytes, b2: Bytes, off: nat, s: byte, pcm: Bytes)
    requires off + OUT_PKT_BYTES <= |b0| && |pcm| <= OUT_PCM_BYTES
    requires b1 == b0[..off] + AudioHeader(s) + b0[off + 6..]
    requires b2 == b1[..off + 6] + (pcm + Zeros(OUT_PCM_BYTES - |pcm|)) + b1[off + OUT_PKT_BYTES..]
    ensures b2 == b0[..off] + Frame(s, pcm) + b0[off + OUT_PKT_BYTES..]
  {
    assert b1[..off + 6] == b0[..off] + AudioHeader(s);
    assert b1[off + OUT_PKT_BYTES..] == b0[off + OUT_PKT_BYTES..];
    Assoc(b0[..off], AudioHeader(s), pcm + Zeros(OUT_PCM_BYTES - |pcm|));
  }

  /** Tiling grows by one packet. */
  lemma TileNext(packets: seq<Bytes>, frame: Bytes, was: Bytes, before: Bytes, after: Bytes)
    requires |frame| == OUT_PKT_BYTES && |was| >= PktAt(|packets| + 1)
    requires forall k :: 0 <= k < |packets| ==> |packets[k]| == OUT_PKT_BYTES
    requires |before| == |was| && before == Join(packets) + was[PktAt(|packets|)..]
    requires var off := PktAt(|packets|);
             after == before[..off] + frame + before[off + OUT_PKT_BYTES..]
    ensures after == Join(packets + [frame]) + was[PktAt(|packets| + 1)..]
  {
    JoinUniform(packets, OUT_PKT_BYTES);
    JoinSnoc(packets, frame);
    var off := PktAt(|packets|);
    assert before[..off] == Join(packets);
    assert before[off + OUT_PKT_BYTES..] == was[off + OUT_PKT_BYTES..];
  }

  /** The first `i` packets of the transfer are made: engine at `view`, buffer tiled so far. */
  ghost predicate Tiled(feed: Feed, c: Core, env: seq<Bytes>, i: nat, was: Bytes, view: Core, buf: Bytes) {
    && i <= |env| && |buf| == |was| >= PktAt(i)
    && view == Refilled(feed, c, env[..i])
    && buf == Join(Packets(feed, c, env[..i])) + was[PktAt(i)..]
  }

  /** One turn of the refill loop keeps the tiling. */
  lemma RefillTurn(feed: Feed, c: Core, env: seq<Bytes>, i: nat, was: Bytes, view: Core, before: Bytes, after: Bytes)
    requires i < |env| && PktAt(i + 1) <= |was| && Tiled(feed, c, env, i, was, view, before)
    requires var pushed := PushInto(feed, view, env[i]);
             after == before[..PktAt(i)] + Frame(pushed.seqno, NextPcm(pushed))
                      + before[PktAt(i) + OUT_PKT_BYTES..]
    ensures Tiled(feed, c, env, i + 1, was, AfterPacket(PushInto(feed, view, env[i])), after)
  {
    var pushed := PushInto(feed, view, env[i]);
    PacketsSnoc(feed, c, env, i);
    PacketsCount(feed, c, env[..i]);
    FrameDecodes(pushed.seqno, NextPcm(pushed));
    TileNext(Packets(feed, c, env[..i]), Frame(pushed.seqno, NextPcm(pushed)), was, before, after);
  }

  lemma PacketsSnoc(feed: Feed, c: Core, env: seq<Bytes>, i: nat)
    requires i < |env|
    ensures var pushed := PushInto(feed, Refilled(feed, c, env[..i]), env[i]);
            && Refilled(feed, c, env[..i + 1]) == AfterPacket(pushed)
            && Packets(feed, c, env[..i + 1]) == Packets(feed, c, env[..i]) + [Frame(pushed.seqno, NextPcm(pushed))]
  {
    assert env[..i + 1][..i] == env[..i] && env[..i + 1][i] == env[i];
  }

  /** The header template with sequence number `outSeq` goes to `off`; the next one (1..255, never 0)
      comes back. */
  method PutHeader(buffer: array<byte>, off: nat, outHdr: array<byte>, outSeq: byte) returns (next: byte)
    requires off + OUT_PKT_BYTES <= buffer.Length && buffer != outHdr
    requires outHdr.Length == OUT_HDR_BYTES && outHdr[..] == AudioHeader(outHdr[2])
    modifies outHdr, buffer
    ensures outHdr[..] == AudioHeader(outHdr[2]) && next == SeqAfter(outSeq)
    ensures buffer[..] == old(buffer[..off]) + AudioHeader(outSeq) + old(buffer[off + 6..])
  {
    outHdr[2] := outSeq;
    assert outHdr[..] == AudioHeader(outSeq);
    next := if outSeq < 255 then outSeq + 1 else 1;
    CopyInto(buffer, off, outHdr[..]);
  }

  /** Silence behind `n` bytes of PCM: the payload at `at` is complete, and nothing else moves. */
  method PadSilence(buffer: array<byte>, at: nat, n: nat, ghost was: Bytes, ghost pcm: Bytes)
    requires n == |pcm| <= OUT_PCM_BYTES && at + OUT_PCM_BYTES <= buffer.Length == |was|
    requires buffer[..] == was[..at] + pcm + was[at + n..]
    modifies buffer
    ensures buffer[..] == was[..at] + (pcm + Zeros(OUT_PCM_BYTES - n)) + was[at + OUT_PCM_BYTES..]
  {
    ghost var read := buffer[..];
    if n < OUT_PCM_BYTES {
      CopyInto(buffer, at + n, Zeros(OUT_PCM_BYTES - n));
    }
    assert buffer[..] == read[..at + n] + Zeros(OUT_PCM_BYTES - n) + read[at + OUT_PCM_BYTES..];
    PayloadFilled(was, read, buffer[..], at, pcm);
  }

  /** Shared state of the callbacks (`EngineState`), without the diagnostic counters. */
  class Engine {
    const cfg: Config
    const play: Spsc.Ring
    const outHdr: array<byte>
    var outSeq: byte
    var primed: bool
    var running: bool

    predicate Valid()
      reads this, play, outHdr
    {
      && cfg.Valid() && play.capacity == cfg.capacity && play.Valid()
      && outHdr.Length == OUT_HDR_BYTES && outHdr[..] == AudioHeader(outHdr[2])
    }

    function View(): Core
      reads this, play
    {
      Core(play.items, primed, outSeq)
    }

    /** The engine part of `start`. */
    constructor (cfg: Config, play: Spsc.Ring)
      requires cfg.Valid() && play.capacity == cfg.capacity && play.Valid()
      ensures Valid() && this.cfg == cfg && this.play == play && fresh(outHdr)
      ensures running && View() == Core(play.items, false, 1)
    {
      var hdr := BuildHeader(CMD_AUDIO_SAMPLES, OPTS_INTERNAL, 1, OUT_PCM_BYTES);
      AudioHeaderIsBuilt(1);
      var template := new byte[|hdr|](i requires 0 <= i < |hdr| => hdr[i]);
      assert template[..] == hdr;
      this.cfg := cfg;
      this.play := play;
      outHdr := template;
      outSeq := 1;
      primed := false;
      running := true;
    }

    /** `on_out`. `gone` is a NO_DEVICE or CANCELLED status. The buffer comes back exactly tiled
        with the packets, and nothing behind the tiling is touched. */
    method OnOut(buffer: array<byte>, gone: bool, env: seq<Bytes>) returns (resubmit: bool)
      requires Valid() && |env| == 3 + cfg.pkts
      requires buffer.Length >= PktAt(cfg.pkts) && buffer != outHdr
      modifies this, play, outHdr, buffer
      ensures Valid() && running == old(running)
      ensures resubmit == (running && !gone)
      ensures !resubmit ==> View() == old(View()) && buffer[..] == old(buffer[..])
      ensures resubmit ==>
                var c := Trimmed(cfg, old(View()), env[..3]);
                && View() == Refilled(cfg.Feed(), c, env[3..])
                && buffer[..] == Join(Packets(cfg.Feed(), c, env[3..])) + old(buffer[PktAt(cfg.pkts)..])
    {
      if !running || gone {
        return false;
      }
      PrimeAndTrim(env[..3]);

      RefillAll(buffer, env[3..]);
      return true;
    }

    /** The refill loop of `on_out`. */
    method RefillAll(buffer: array<byte>, pushes: seq<Bytes>)
      requires Valid() && |pushes| == cfg.pkts
      requires buffer.Length >= PktAt(cfg.pkts) && buffer != outHdr
      modifies this, play, outHdr, buffer
      ensures Valid() && running == old(running)
      ensures View() == Refilled(cfg.Feed(), old(View()), pushes)
      ensures buffer[..] == Join(Packets(cfg.Feed(), old(View()), pushes)) + old(buffer[PktAt(cfg.pkts)..])
    {
      ghost var c, was := View(), buffer[..];
      for i := 0 to cfg.pkts
        invariant Valid() && running == old(running)
        invariant Tiled(cfg.Feed(), c, pushes, i, was, View(), buffer[..])
      {
        RefillPacket(buffer, i, pushes, c, was);
      }
      assert pushes[..cfg.pkts] == pushes;
    }

    /** The part of `on_out` before the refill loop. */
    method PrimeAndTrim(env: seq<Bytes>)
      requires Valid() && |env| == 3
      modifies this, play
      ensures Valid() && running == old(running)
      ensures View() == Trimmed(cfg, old(View()), env)
    {
      var taken := play.Write(env[0]);
      if !primed && play.Avail() >= cfg.Prime() {
        primed := true;
      }

      assert View() == PrimeCheck(cfg, Push(cfg, old(View()), env[0]));

      taken := play.Write(env[1]);
      ghost var sampled := View();
      assert sampled == Push(cfg, PrimeCheck(cfg, Push(cfg, old(View()), env[0])), env[1]);
      var excess := 0;
      if primed {
        var avail := play.Avail();
        if avail > cfg.High() {
          excess := WholeFrames(avail - cfg.Prime());
        }
      }
      assert excess == Excess(cfg, sampled);
      taken := play.Write(env[2]);
      if excess > 0 {
        var skipped := play.Skip(excess);
      }
    }

    /** One turn of the refill loop, seen from the whole transfer. */
    method RefillPacket(buffer: array<byte>, i: nat, pushes: seq<Bytes>, ghost c: Core, ghost was: Bytes)
      requires Valid() && i < |pushes|
      requires buffer.Length == |was| >= PktAt(i + 1) && buffer != outHdr
      requires Tiled(cfg.Feed(), c, pushes, i, was, View(), buffer[..])
      modifies this, play, outHdr, buffer
      ensures Valid() && running == old(running)
      ensures Tiled(cfg.Feed(), c, pushes, i + 1, was, View(), buffer[..])
    {
      ghost var view, before := View(), buffer[..];
      RefillOne(buffer, PktAt(i), pushes[i]);
      RefillTurn(cfg.Feed(), c, pushes, i, was, view, before, buffer[..]);
    }

    /** One turn of the refill loop, for the packet at `off`. */
    method RefillOne(buffer: array<byte>, off: nat, pushed: Bytes)
      requires Valid() && off + OUT_PKT_BYTES <= buffer.Length && buffer != outHdr
      modifies this, play, outHdr, buffer
      ensures Valid() && running == old(running)
      ensures var before := Push(cfg, old(View()), pushed);
              && View() == AfterPacket(before)
              && buffer[..] == old(buffer[..off]) + Frame(before.seqno, NextPcm(before))
                               + old(buffer[off + OUT_PKT_BYTES..])
    {
      ghost var s, b0 := outSeq, buffer[..];
      ghost var pcm := NextPcm(Push(cfg, View(), pushed));
      outSeq := PutHeader(buffer, off, outHdr, outSeq);
      ghost var b1 := buffer[..];
      WritePcm(buffer, off + OUT_HDR_BYTES, pushed);
      FrameFilled(b0, b1, buffer[..], off, s, pcm);
    }

    /** PCM straight into the transfer buffer, else silence. */
    method WritePcm(buffer: array<byte>, at: nat, pushed: Bytes)
      requires Valid() && at + OUT_PCM_BYTES <= buffer.Length && buffer != outHdr
      modifies play, buffer
      ensures Valid()
      ensures var before := Push(cfg, old(View()), pushed);
              var pcm := NextPcm(before);
              && play.items == AfterPacket(before).ring
              && buffer[..] == old(buffer[..at]) + (pcm + Zeros(OUT_PCM_BYTES - |pcm|))
                               + old(buffer[at + OUT_PCM_BYTES..])
    {
      var taken := play.Write(pushed);
      ghost var was, pcm := buffer[..], NextPcm(View());
      var n := 0;
      if primed {
        n := play.Read(buffer, at, OUT_PCM_BYTES);
      }
      PadSilence(buffer, at, n, was, pcm);
    }
  }
}
