/** The playback half of `IsoAudio` in iso_audio.py: `_on_out`, the refill loop over the drop-oldest
    ring, without a trim. */
module IsoAudio {
  import opened ByteSeqs
  import opened Gip
  import opened Ledger
  import opened IsoOut
  import opened CRing
  import Q = BoundedQueue

  const OUT_PRIME_BYTES: nat := 7680

  // ------------------------------------------------------------ one callback on values

  /** The ring of wolverine_pw.c, if the native bridge is there. */
  function FeedOf(bridge: bool): Feed { if bridge then DropOldest(RING_CAP) else NoBridge }

  function SinkPush(bridge: bool, c: Core, src: Bytes): Core { PushInto(FeedOf(bridge), c, src) }

  function Cushioned(bridge: bool, c: Core): Core {
    c.(primed := c.primed || (bridge && |c.ring| >= OUT_PRIME_BYTES))
  }

  // ------------------------------------------------------------ callbacks are runs of the ring

  /** The ring accesses of the refill loop. */
  function Accesses(primed: bool, env: seq<Bytes>): seq<Q.Op> {
    if env == [] then []
    else
      var before := Accesses(primed, env[..|env| - 1]) + [Q.Write(env[|env| - 1])];
      if primed then before + [Q.Read(OUT_PCM_BYTES)] else before
  }

  lemma RunSnoc(ops: seq<Q.Op>, op: Q.Op)
    ensures Q.Run(RING_CAP, ops + [op]) == Q.Do(RING_CAP, Q.Run(RING_CAP, ops), op)
  {
    assert (ops + [op])[..|ops|] == ops;
  }

  /** The refill loop is a run of the bounded queue: what its packets carry is what the run of ring
      accesses plays, so everything proved of such runs holds of the callback. */
  lemma {:induction false} RefillIsRun(ops: seq<Q.Op>, c: Core, env: seq<Bytes>)
    requires Q.Run(RING_CAP, ops).q == c.ring
    ensures var t, u := Q.Run(RING_CAP, ops), Q.Run(RING_CAP, ops + Accesses(c.primed, env));
            var after := Refilled(FeedOf(true), c, env);
            && after.ring == u.q && after.primed == c.primed
            && PlayedOf(u.log) == PlayedOf(t.log) + if c.primed then Pcms(FeedOf(true), c, env) else []
    decreases |env|
  {
    if env == [] {
      assert ops + [] == ops;
      assert PlayedOf(Q.Run(RING_CAP, ops).log) + [] == PlayedOf(Q.Run(RING_CAP, ops).log);
    } else {
      var n := |env| - 1;
      var front := Accesses(c.primed, env[..n]);
      RefillIsRun(ops, c, env[..n]);
      AccessesOfPacket(ops + front, BeforeLast(FeedOf(true), c, env), env[n], Refilled(FeedOf(true), c, env[..n]).ring);
      AccessesAppend(ops, front, c.primed, env);
      Assoc(PlayedOf(Q.Run(RING_CAP, ops).log), Pcms(FeedOf(true), c, env[..n]),
            [NextPcm(BeforeLast(FeedOf(true), c, env))]);
    }
  }

  lemma AccessesAppend(ops: seq<Q.Op>, front: seq<Q.Op>, primed: bool, env: seq<Bytes>)
    requires env != [] && front == Accesses(primed, env[..|env| - 1])
    ensures ops + Accesses(primed, env)
            == if primed then ops + front + [Q.Write(env[|env| - 1])] + [Q.Read(OUT_PCM_BYTES)]
               else ops + front + [Q.Write(env[|env| - 1])]
  {
    var w := [Q.Write(env[|env| - 1])];
    Assoc(ops, front, w);
    Assoc(ops, front + w, [Q.Read(OUT_PCM_BYTES)]);
  }

  lemma AccessesOfPacket(ops: seq<Q.Op>, pushed: Core, src: Bytes, ring: Bytes)
    requires Q.Run(RING_CAP, ops).q == ring && pushed.ring == Q.Pushed(RING_CAP, ring, src)
    ensures var t := Q.Run(RING_CAP, ops);
            var u := Q.Run(RING_CAP, ops + [Q.Write(src)]);
            var v := Q.Run(RING_CAP, ops + [Q.Write(src)] + [Q.Read(OUT_PCM_BYTES)]);
            && (!pushed.primed ==> u.q == AfterPacket(pushed).ring && PlayedOf(u.log) == PlayedOf(t.log))
            && (pushed.primed ==> v.q == AfterPacket(pushed).ring
                                  && PlayedOf(v.log) == PlayedOf(t.log) + [NextPcm(pushed)])
  {
    var t := Q.Run(RING_CAP, ops);
    RunSnoc(ops, Q.Write(src));
    Snoc(t.log, Discarded((t.q + src)[..Q.Overflow(RING_CAP, t.q, src)]));
    var u := Q.Run(RING_CAP, ops + [Q.Write(src)]);
    RunSnoc(ops + [Q.Write(src)], Q.Read(OUT_PCM_BYTES));
    Snoc(u.log, Played(Q.Taken(u.q, OUT_PCM_BYTES)));
    assert pushed.ring[0..] == pushed.ring;
  }

  /** The packets of a callback in closed form: packet `k` of the callback that starts behind `j`
      packets is frame `j + k`, with sequence byte (j + k) mod 255 + 1. */
  lemma PacketsNumbered(bridge: bool, c: Core, env: seq<Bytes>, j: nat, k: nat)
    requires c.seqno == SeqAt(j) && k < |env|
    ensures |Packets(FeedOf(bridge), c, env)| == |Pcms(FeedOf(bridge), c, env)| == |env|
    ensures |Pcms(FeedOf(bridge), c, env)[k]| <= OUT_PCM_BYTES
    ensures Packets(FeedOf(bridge), c, env)[k] == Frame(SeqAt(j + k), Pcms(FeedOf(bridge), c, env)[k])
  {
    PacketFrom(FeedOf(bridge), c, env, k);
    SeqFromAt(j, k);
  }

  // ------------------------------------------------------------ a whole session

  /** One callback: what the sink pushes before the fill level is read, and before each packet. */
  datatype Callback = Callback(first: Bytes, pushes: seq<Bytes>)

  function Begun(c: Core, k: Callback): Core { Cushioned(true, SinkPush(true, c, k.first)) }

  function Session(ks: seq<Callback>): Core {
    if ks == [] then Core([], false, 1)
    else
      var k := ks[|ks| - 1];
      Refilled(FeedOf(true), Begun(Session(ks[..|ks| - 1]), k), k.pushes)
  }

  function SessionAccesses(ks: seq<Callback>): seq<Q.Op> {
    if ks == [] then []
    else
      var k := ks[|ks| - 1];
      SessionAccesses(ks[..|ks| - 1]) + [Q.Write(k.first)]
      + Accesses(Begun(Session(ks[..|ks| - 1]), k).primed, k.pushes)
  }

  /** The packets of all callbacks, and the PCM in them. */
  function Sent(ks: seq<Callback>): seq<Bytes> {
    if ks == [] then []
    else
      var k := ks[|ks| - 1];
      Sent(ks[..|ks| - 1]) + Packets(FeedOf(true), Begun(Session(ks[..|ks| - 1]), k), k.pushes)
  }

  function Carried(ks: seq<Callback>): seq<Bytes> {
    if ks == [] then []
    else
      var k := ks[|ks| - 1];
      Carried(ks[..|ks| - 1]) + Pcms(FeedOf(true), Begun(Session(ks[..|ks| - 1]), k), k.pushes)
  }

  lemma {:induction false} UnprimedIsSilent(c: Core, env: seq<Bytes>)
    requires !c.primed
    ensures !Refilled(FeedOf(true), c, env).primed && Join(Pcms(FeedOf(true), c, env)) == []
  {
    if env != [] {
      UnprimedIsSilent(c, env[..|env| - 1]);
      JoinSnoc(Pcms(FeedOf(true), c, env[..|env| - 1]), NextPcm(BeforeLast(FeedOf(true), c, env)));
    }
  }

  /** One more callback adds to the PCM on the bus what its ring accesses play. */
  lemma CallbackPlays(ops: seq<Q.Op>, c: Core, k: Callback, pcm: seq<Bytes>)
    requires Q.Run(RING_CAP, ops).q == c.ring && Join(pcm) == Join(PlayedOf(Q.Run(RING_CAP, ops).log))
    ensures var b := Begun(c, k);
            var u := Q.Run(RING_CAP, ops + [Q.Write(k.first)] + Accesses(b.primed, k.pushes));
            u.q == Refilled(FeedOf(true), b, k.pushes).ring
            && Join(pcm + Pcms(FeedOf(true), b, k.pushes)) == Join(PlayedOf(u.log))
  {
    var b, t := Begun(c, k), Q.Run(RING_CAP, ops);
    RunSnoc(ops, Q.Write(k.first));
    Snoc(t.log, Discarded((t.q + k.first)[..Q.Overflow(RING_CAP, t.q, k.first)]));
    RefillIsRun(ops + [Q.Write(k.first)], b, k.pushes);
    JoinAppend(pcm, Pcms(FeedOf(true), b, k.pushes));
    if b.primed {
      JoinAppend(PlayedOf(t.log), Pcms(FeedOf(true), b, k.pushes));
    } else {
      UnprimedIsSilent(b, k.pushes);
      assert PlayedOf(t.log) + [] == PlayedOf(t.log);
    }
  }

  lemma {:induction false} SessionPlays(ks: seq<Callback>)
    ensures var t := Q.Run(RING_CAP, SessionAccesses(ks));
            t.q == Session(ks).ring && Join(Carried(ks)) == Join(PlayedOf(t.log))
  {
    if ks != [] {
      var front, k := ks[..|ks| - 1], ks[|ks| - 1];
      SessionPlays(front);
      CallbackPlays(SessionAccesses(front), Session(front), k, Carried(front));
    }
  }

  // ------------------------------------------------------------ when a session primes, and what it plays then

  /** How many bytes the ring holds behind the first push of callback `i`. */
  function Found(ks: seq<Callback>, i: nat): nat
    requires i < |ks|
  {
    Min(RING_CAP, |Session(ks[..i]).ring| + |ks[i].first|)
  }

  /** A callback that is not primed yet is primed exactly by 7680 bytes, before its first packet. */
  lemma CallbackPrimes(c: Core, k: Callback)
    ensures var level, b := Min(RING_CAP, |c.ring| + |k.first|), Begun(c, k);
            && b.ring == Last(c.ring + k.first, level) && b.seqno == c.seqno
            && (b.primed <==> c.primed || level >= 7680)
            && (Refilled(FeedOf(true), b, k.pushes).primed <==> b.primed)
  {
    RefilledPrimed(FeedOf(true), Begun(c, k), k.pushes);
  }

  lemma {:induction false} RefilledPrimed(feed: Feed, c: Core, env: seq<Bytes>)
    ensures Refilled(feed, c, env).primed == c.primed
  {
    if env != [] {
      RefilledPrimed(feed, c, env[..|env| - 1]);
    }
  }

  /** The callbacks so far primed the session. */
  predicate Deep(ks: seq<Callback>) {
    if ks == [] then false
    else
      var front, k := ks[..|ks| - 1], ks[|ks| - 1];
      Deep(front) || Min(RING_CAP, |Session(front).ring| + |k.first|) >= 7680
  }

  lemma {:induction false} PrimedDeep(ks: seq<Callback>)
    ensures Session(ks).primed <==> Deep(ks)
  {
    if ks != [] {
      PrimedDeep(ks[..|ks| - 1]);
      CallbackPrimes(Session(ks[..|ks| - 1]), ks[|ks| - 1]);
    }
  }

  lemma {:induction false} DeepAt(ks: seq<Callback>) returns (i: nat)
    requires Deep(ks)
    ensures i < |ks| && Found(ks, i) >= 7680
  {
    i := |ks| - 1;
    if Deep(ks[..|ks| - 1]) {
      i := DeepAt(ks[..|ks| - 1]);
      assert ks[..|ks| - 1][..i] == ks[..i];
    }
  }

  lemma {:induction false} DeepFrom(ks: seq<Callback>, i: nat)
    requires i < |ks| && Found(ks, i) >= 7680
    ensures Deep(ks)
    decreases |ks|
  {
    if i < |ks| - 1 {
      assert ks[..|ks| - 1][..i] == ks[..i];
      DeepFrom(ks[..|ks| - 1], i);
    }
  }

  /** A session is primed exactly if the ring held 7680 bytes or more behind some callback's first push. */
  lemma SessionPrimedIff(ks: seq<Callback>)
    ensures Session(ks).primed <==> exists i :: 0 <= i < |ks| && Found(ks, i) >= 7680
  {
    PrimedDeep(ks);
    if Deep(ks) {
      var i := DeepAt(ks);
    }
    forall i | 0 <= i < |ks| && Found(ks, i) >= 7680 ensures Deep(ks) {
      DeepFrom(ks, i);
    }
  }

  /** The ring packet `k` of callback `i` reads from, behind the push just before it. */
  function Facing(ks: seq<Callback>, i: nat, k: nat): Bytes
    requires i < |ks| && k < |ks[i].pushes|
  {
    var b := Begun(Session(ks[..i]), ks[i]);
    Q.Pushed(RING_CAP, Refilled(FeedOf(true), b, ks[i].pushes[..k]).ring, ks[i].pushes[k])
  }

  lemma {:induction false} PcmAt(feed: Feed, c: Core, env: seq<Bytes>, k: nat)
    requires k < |env|
    ensures |Pcms(feed, c, env)| == |env| && Pcms(feed, c, env)[k] == NextPcm(BeforeLast(feed, c, env[..k + 1]))
    decreases |env|
  {
    var front := env[..|env| - 1];
    PcmsCount(feed, c, front);
    PcmsSnoc(feed, c, env);
    if k < |env| - 1 {
      PcmAt(feed, c, front, k);
      FrontFront(env, k + 1);
    } else {
      assert env[..k + 1] == env;
    }
  }

  lemma PcmsSnoc(feed: Feed, c: Core, env: seq<Bytes>)
    requires env != []
    ensures Pcms(feed, c, env) == Pcms(feed, c, env[..|env| - 1]) + [NextPcm(BeforeLast(feed, c, env))]
  {
  }

  lemma FrontFront(env: seq<Bytes>, n: nat)
    requires n < |env|
    ensures env[..|env| - 1][..n] == env[..n]
  {
  }

  /** The packets of callback `i` are behind those of the callbacks before. */
  lemma {:induction false} CarriedThen(ks: seq<Callback>, i: nat)
    requires i < |ks|
    ensures Carried(ks[..i]) + Pcms(FeedOf(true), Begun(Session(ks[..i]), ks[i]), ks[i].pushes) <= Carried(ks)
    decreases |ks|
  {
    if i < |ks| - 1 {
      assert ks[..|ks| - 1][..i] == ks[..i];
      CarriedThen(ks[..|ks| - 1], i);
    }
  }

  /** One packet of a callback: from the callback that primes on it takes the oldest min(192, fill) bytes off
      the ring; before that it takes none. */
  lemma PacketPlays(c: Core, env: seq<Bytes>, k: nat)
    requires k < |env|
    ensures var before := Refilled(FeedOf(true), c, env[..k]);
            var ring := Q.Pushed(RING_CAP, before.ring, env[k]);
            var n := if c.primed then Min(192, |ring|) else 0;
            && |Pcms(FeedOf(true), c, env)| == |env| && Pcms(FeedOf(true), c, env)[k] == ring[..n]
            && Refilled(FeedOf(true), c, env[..k + 1]).ring == ring[n..]
  {
    PcmAt(FeedOf(true), c, env, k);
    RefilledPrimed(FeedOf(true), c, env[..k]);
    RefilledOn(FeedOf(true), c, env, k);
    PacketStep(Refilled(FeedOf(true), c, env[..k]), env[k]);
  }

  lemma RefilledOn(feed: Feed, c: Core, env: seq<Bytes>, k: nat)
    requires k < |env|
    ensures var before := PushInto(feed, Refilled(feed, c, env[..k]), env[k]);
            BeforeLast(feed, c, env[..k + 1]) == before && Refilled(feed, c, env[..k + 1]) == AfterPacket(before)
  {
    assert env[..k + 1][..k] == env[..k];
  }

  lemma PacketStep(before: Core, src: Bytes)
    ensures var ring, pushed := Q.Pushed(RING_CAP, before.ring, src), PushInto(FeedOf(true), before, src);
            var n := if before.primed then Min(192, |ring|) else 0;
            NextPcm(pushed) == ring[..n] && AfterPacket(pushed).ring == ring[n..]
  {
  }

  /** Without the bridge no callback is primed, and every packet is silent. */
  lemma NoBridgeIsSilent(c: Core, src: Bytes, env: seq<Bytes>, j: nat, k: nat)
    requires !c.primed && c.seqno == SeqAt(j) && k < |env|
    ensures var b := Cushioned(false, SinkPush(false, c, src));
            && !b.primed && !Refilled(FeedOf(false), b, env).primed
            && |Packets(FeedOf(false), b, env)| == |env|
            && Packets(FeedOf(false), b, env)[k] == Frame(SeqAt(j + k), [])
  {
    var b := Cushioned(false, SinkPush(false, c, src));
    RefilledPrimed(FeedOf(false), b, env);
    RefilledPrimed(FeedOf(false), b, env[..k]);
    PacketsNumbered(false, b, env, j, k);
    PcmAt(FeedOf(false), b, env, k);
    RefilledOn(FeedOf(false), b, env, k);
  }

  /** Packet `k` of callback `i` in a session: silent as long as no callback has found 7680 bytes, and from
      that callback on the oldest min(192, fill) bytes of the ring. */
  lemma SessionPacket(ks: seq<Callback>, i: nat, k: nat)
    requires i < |ks| && k < |ks[i].pushes|
    ensures var at, ring := |Carried(ks[..i])| + k, Facing(ks, i, k);
            && at < |Carried(ks)|
            && ((forall j :: 0 <= j <= i ==> Found(ks, j) < 7680) ==> Carried(ks)[at] == [])
            && ((exists j :: 0 <= j <= i && Found(ks, j) >= 7680)
                ==> Carried(ks)[at] == ring[..Min(192, |ring|)])
  {
    var b := Begun(Session(ks[..i]), ks[i]);
    PrimedBy(ks, i);
    PacketPlays(b, ks[i].pushes, k);
    CarriedThen(ks, i);
  }

  lemma PrimedBy(ks: seq<Callback>, i: nat)
    requires i < |ks|
    ensures Begun(Session(ks[..i]), ks[i]).primed <==> exists j :: 0 <= j <= i && Found(ks, j) >= 7680
  {
    var upTo := ks[..i + 1];
    assert upTo[..i] == ks[..i] && upTo[i] == ks[i];
    CallbackPrimes(Session(ks[..i]), ks[i]);
    SessionPrimedIff(upTo);
    forall j | 0 <= j <= i ensures Found(upTo, j) == Found(ks, j) {
      assert upTo[..j] == ks[..j] && upTo[j] == ks[j];
    }
  }

  /** Packet `i`, if it is among the packets sent, has number `i`, and the next one gets the next number. */
  predicate Numbered(sent: seq<Bytes>, carried: seq<Bytes>, seqno: byte, i: nat) {
    && |carried| == |sent| && seqno == SeqFrom(1, |sent|)
    && (i < |sent| ==> Carries(sent[i], SeqFrom(1, i), carried[i]))
  }

  lemma NumberedAppend(sent: seq<Bytes>, carried: seq<Bytes>, seqno: byte,
                       packets: seq<Bytes>, pcms: seq<Bytes>, i: nat)
    requires Numbered(sent, carried, seqno, i) && |packets| == |pcms|
    requires |sent| <= i < |sent| + |packets|
             ==> Carries(packets[i - |sent|], SeqFrom(seqno, i - |sent|), pcms[i - |sent|])
    ensures Numbered(sent + packets, carried + pcms, SeqFrom(seqno, |packets|), i)
  {
    SeqFromAdds(1, |sent|, |packets|);
    if |sent| <= i {
      SeqFromAdds(1, |sent|, i - |sent|);
    }
  }

  /** One more callback behind the packets sent before. */
  lemma CallbackNumbered(sent: seq<Bytes>, carried: seq<Bytes>, c: Core, env: seq<Bytes>, i: nat)
    requires Numbered(sent, carried, c.seqno, i)
    ensures Numbered(sent + Packets(FeedOf(true), c, env), carried + Pcms(FeedOf(true), c, env),
                     Refilled(FeedOf(true), c, env).seqno, i)
  {
    var feed := FeedOf(true);
    NumberAfter(feed, c, env);
    PacketsCount(feed, c, env);
    PcmsCount(feed, c, env);
    if |sent| <= i < |sent| + |env| {
      PacketFrom(feed, c, env, i - |sent|);
    }
    NumberedAppend(sent, carried, c.seqno, Packets(feed, c, env), Pcms(feed, c, env), i);
  }

  lemma {:induction false} SessionNumbered(ks: seq<Callback>, i: nat)
    ensures Numbered(Sent(ks), Carried(ks), Session(ks).seqno, i)
  {
    if ks != [] {
      var front, k := ks[..|ks| - 1], ks[|ks| - 1];
      SessionNumbered(front, i);
      CallbackNumbered(Sent(front), Carried(front), Begun(Session(front), k), k.pushes, i);
    }
  }

  lemma FrameNumber(packet: Bytes, k: nat, pcm: Bytes)
    requires Carries(packet, SeqFrom(1, k), pcm)
    ensures Carries(packet, SeqAt(k), pcm)
  {
    assert SeqAt(0) == 1;
    SeqFromAt(0, k);
  }

  /** In every session packet `i` is frame `i`, and the PCM of all packets, in order, is what the run
      of ring accesses plays: the stream the sink wrote, with gaps only where the ring overflowed. */
  lemma SessionHistory(ks: seq<Callback>, i: nat)
    requires i < |Sent(ks)|
    ensures |Carried(ks)| == |Sent(ks)| && Carries(Sent(ks)[i], SeqAt(i), Carried(ks)[i])
    ensures var t := Q.Run(RING_CAP, SessionAccesses(ks));
            && Join(Carried(ks)) == Join(PlayedOf(t.log)) && t.q == Session(ks).ring
            && Balanced(t.written, t.log, t.q)
  {
    SessionNumbered(ks, i);
    FrameNumber(Sent(ks)[i], i, Carried(ks)[i]);
    SessionPlays(ks);
    Q.RunBalanced(RING_CAP, SessionAccesses(ks));
  }

  predicate WholeFramesPushed(k: Callback) {
    MultipleOf4(|k.first|) && forall i :: 0 <= i < |k.pushes| ==> MultipleOf4(|k.pushes[i]|)
  }

  /** With whole stereo frames pushed every access is whole frames, so overflow of the ring never
      swaps the channels of what this engine plays. */
  lemma SessionChannelsStayPut(ks: seq<Callback>, i: nat, p: nat)
    requires forall n :: 0 <= n < |ks| ==> WholeFramesPushed(ks[n])
    requires i < |Q.Run(RING_CAP, SessionAccesses(ks)).log|
    requires p < |Q.Run(RING_CAP, SessionAccesses(ks)).log[i].data|
    ensures var t := Q.Run(RING_CAP, SessionAccesses(ks)); Traced(t.written, t.log, i, p)
  {
    SessionAligned(ks);
    Remainder(0x2_0000, 0);
    Q.ChannelsStayPut(RING_CAP, SessionAccesses(ks), i, p);
  }

  lemma {:induction false} SessionAligned(ks: seq<Callback>)
    requires forall n :: 0 <= n < |ks| ==> WholeFramesPushed(ks[n])
    ensures AllAlignedOps(SessionAccesses(ks))
  {
    if ks != [] {
      var front, k := ks[..|ks| - 1], ks[|ks| - 1];
      SessionAligned(front);
      AccessesAligned(Begun(Session(front), k).primed, k.pushes);
    }
  }

  predicate AllAlignedOps(ops: seq<Q.Op>) {
    forall i :: 0 <= i < |ops| ==> Q.AlignedOp(ops[i])
  }

  lemma {:induction false} AccessesAligned(primed: bool, env: seq<Bytes>)
    requires forall i :: 0 <= i < |env| ==> MultipleOf4(|env[i]|)
    ensures AllAlignedOps(Accesses(primed, env))
  {
    if env != [] {
      AccessesAligned(primed, env[..|env| - 1]);
      Remainder(48, 0);
    }
  }

  // ------------------------------------------------------------ the callback

  class Engine {
    const pw: Ring
    const bridge: bool   // false without the native bridge; the ring is then never touched
    const outHdr: array<byte>
    var outSeq: byte
    var outPrimed: bool
    var running: bool

    ghost predicate Valid()
      reads this, pw, outHdr, pw.buf
    {
      && outHdr.Length == OUT_HDR_BYTES && outHdr[..] == AudioHeader(outHdr[2])
      && (!bridge ==> !outPrimed)
      && pw.Valid() && pw.buf != outHdr
    }

    ghost function View(): Core
      reads this, pw
    {
      Core(pw.queue, outPrimed, outSeq)
    }

    /** The framing part of `start`. */
    constructor (pw: Ring, bridge: bool)
      requires pw.Valid()
      ensures Valid() && this.pw == pw && this.bridge == bridge && fresh(outHdr)
      ensures running && View() == Core(pw.queue, false, 1)
    {
      var hdr := Header(CMD_AUDIO_SAMPLES, OPTS_INTERNAL, 1, OUT_PCM_BYTES, None);
      AudioHeaderIsBuilt(1);
      var template := new byte[|hdr|](i requires 0 <= i < |hdr| => hdr[i]);
      assert template[..] == hdr;
      this.pw := pw;
      this.bridge := bridge;
      outHdr := template;
      outSeq := 1;
      outPrimed := false;
      running := true;
    }

    /** `_on_out` for `pkts` packets. `env[k]` is what the sink thread pushes just before the k-th
        ring access: the fill level first, then one read for each packet. */
    method OnOut(buffer: array<byte>, pkts: nat, gone: bool, env: seq<Bytes>) returns (resubmit: bool)
      requires Valid() && |env| == 1 + pkts && forall k :: 0 <= k < |env| ==> |env[k]| < U32
      requires buffer.Length == PktAt(pkts) && buffer != outHdr && buffer != pw.buf
      modifies this, pw, outHdr, buffer, pw.buf
      ensures Valid() && running == old(running)
      ensures resubmit == (running && !gone)
      ensures !resubmit ==> View() == old(View()) && buffer[..] == old(buffer[..])
      ensures resubmit ==>
                var c := Cushioned(bridge, SinkPush(bridge, old(View()), env[0]));
                && View() == Refilled(FeedOf(bridge), c, env[1..])
                && buffer[..] == Join(Packets(FeedOf(bridge), c, env[1..]))
    {
      if !running || gone {
        return false;
      }
      if bridge {
        pw.Write(env[0]);
        if !outPrimed {
          var avail := pw.Avail();
          if avail >= OUT_PRIME_BYTES {
            outPrimed := true;
          }
        }
      }
      RefillAll(buffer, env[1..]);
      return true;
    }

    /** The refill loop. */
    method RefillAll(buffer: array<byte>, pushes: seq<Bytes>)
      requires Valid() && forall k :: 0 <= k < |pushes| ==> |pushes[k]| < U32
      requires buffer.Length == PktAt(|pushes|) && buffer != outHdr && buffer != pw.buf
      modifies this, pw, outHdr, buffer, pw.buf
      ensures Valid() && running == old(running)
      ensures View() == Refilled(FeedOf(bridge), old(View()), pushes)
      ensures buffer[..] == Join(Packets(FeedOf(bridge), old(View()), pushes))
    {
      ghost var c, was := View(), buffer[..];
      for i := 0 to |pushes|
        invariant Valid() && running == old(running)
        invariant Tiled(FeedOf(bridge), c, pushes, i, was, View(), buffer[..])
      {
        RefillPacket(buffer, i, pushes, c, was);
      }
      assert pushes[..|pushes|] == pushes;
    }

    /** One turn of the refill loop, seen from the whole transfer. */
    method RefillPacket(buffer: array<byte>, i: nat, pushes: seq<Bytes>, ghost c: Core, ghost was: Bytes)
      requires Valid() && i < |pushes| && |pushes[i]| < U32
      requires buffer.Length == |was| >= PktAt(i + 1) && buffer != outHdr && buffer != pw.buf
      requires Tiled(FeedOf(bridge), c, pushes, i, was, View(), buffer[..])
      modifies this, pw, outHdr, buffer, pw.buf
      ensures Valid() && running == old(running)
      ensures Tiled(FeedOf(bridge), c, pushes, i + 1, was, View(), buffer[..])
    {
      ghost var view, before := View(), buffer[..];
      RefillOne(buffer, PktAt(i), pushes[i]);
      RefillTurn(FeedOf(bridge), c, pushes, i, was, view, before, buffer[..]);
    }

    /** One packet: header, PCM, silence. */
    method RefillOne(buffer: array<byte>, off: nat, pushed: Bytes)
      requires Valid() && |pushed| < U32
      requires off + OUT_PKT_BYTES <= buffer.Length && buffer != outHdr && buffer != pw.buf
      modifies this, pw, outHdr, buffer, pw.buf
      ensures Valid() && running == old(running)
      ensures var before := SinkPush(bridge, old(View()), pushed);
              && View() == AfterPacket(before)
              && buffer[..] == old(buffer[..off]) + Frame(before.seqno, NextPcm(before))
                               + old(buffer[off + OUT_PKT_BYTES..])
    {
      ghost var s, b0 := outSeq, buffer[..];
      ghost var before := SinkPush(bridge, View(), pushed);
      outSeq := PutHeader(buffer, off, outHdr, outSeq);
      ghost var b1 := buffer[..];
      if bridge {
        pw.Write(pushed);
      }
      WritePcm(buffer, off + OUT_HDR_BYTES, before.ring);
      FrameFilled(b0, b1, buffer[..], off, s, NextPcm(before));
    }

    /** PCM straight into the transfer buffer, else silence. */
    method WritePcm(buffer: array<byte>, at: nat, ghost ring: Bytes)
      requires Valid() && ring == View().ring
      requires at + OUT_PCM_BYTES <= buffer.Length && buffer != outHdr && buffer != pw.buf
      modifies pw, buffer
      ensures Valid()
      ensures var pcm := NextPcm(old(View()));
              && View().ring == ring[|pcm|..]
              && buffer[..] == old(buffer[..at]) + (pcm + Zeros(OUT_PCM_BYTES - |pcm|))
                               + old(buffer[at + OUT_PCM_BYTES..])
    {
      ghost var was, pcm := buffer[..], NextPcm(View());
      var n := 0;
      if bridge && outPrimed {
        n := pw.Read(buffer, at, OUT_PCM_BYTES);
      }
      PadSilence(buffer, at, n, was, pcm);
    }
  }
}
