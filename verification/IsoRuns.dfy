/** The playback engine as a step system: the sink thread, the completion callbacks and `stop`
    interleave freely, ring access by ring access. */
module IsoRuns {
  import opened ByteSeqs
  import opened Gip
  import opened Ledger
  import opened IsoOut
  import Spsc

  /** Where the one running callback stands. */
  datatype Control = Idle | AtTrim | AtSkip(excess: nat) | AtRead | AtSubmit

  datatype Event =
    | Sink(src: Bytes)          // the sink thread pushes
    | Complete(gone: bool)      // the oldest transfer completes; `gone`: NO_DEVICE or CANCELLED
    | Advance                   // the running callback makes its next ring access
    | Submit(ok: bool)          // the running callback resubmits its transfer
    | Stop                      // `stop` clears the running flag

  /** One packet of a transfer that completed; `sent` unless it came back NO_DEVICE or CANCELLED. */
  datatype Ended = Ended(packet: Bytes, sent: bool)

  datatype State = State(
    core: Core, running: bool, control: Control,
    inflight: seq<seq<Bytes>>,  // the submitted transfers, oldest first
    current: seq<Bytes>,        // the packets the running callback has written
    // history
    offered: Bytes,             // all the sink pushed
    accepted: Bytes,            // all of it the ring took
    log: seq<Use>,              // what became of it
    ended: seq<Ended>,          // packets of completed transfers, in the order of completion
    intact: bool,               // every submit so far succeeded
    trimmed: bool,              // the running (or last) callback trimmed
    burst: nat)                 // bytes offered since the last sample a trim decision rests on

  /** The all-zero packets `start` submits. */
  function Silent(n: nat): seq<Bytes> { seq(n, _ => Zeros(OUT_PKT_BYTES)) }

  function Marked(packets: seq<Bytes>, sent: bool): seq<Ended> {
    seq(|packets|, k requires 0 <= k < |packets| => Ended(packets[k], sent))
  }

  function PacketsOf(es: seq<Ended>): seq<Bytes> {
    seq(|es|, k requires 0 <= k < |es| => es[k].packet)
  }

  /** The packets that were sent, or those that were not. */
  function Having(es: seq<Ended>, sent: bool): seq<Bytes> {
    if es == [] then []
    else
      var front, e := Having(es[..|es| - 1], sent), es[|es| - 1];
      if e.sent == sent then front + [e.packet] else front
  }

  /** The history of the bus, and the packets cancelled on the way to it. */
  function Bus(s: State): seq<Bytes> { Having(s.ended, true) }

  function Cancelled(s: State): seq<Bytes> { Having(s.ended, false) }

  function Init(cfg: Config): State {
    State(Core([], false, 1), true, Idle, seq(cfg.xfers, _ => Silent(cfg.pkts)), [],
          [], [], [], [], true, false, 0)
  }

  function SinkStep(cfg: Config, s: State, src: Bytes): State {
    s.(core := Push(cfg, s.core, src),
       offered := s.offered + src,
       accepted := s.accepted + src[..Spsc.Room(cfg.capacity, |s.core.ring|, src)],
       burst := s.burst + |src|)
  }

  function CompleteStep(cfg: Config, s: State, gone: bool): State {
    if s.control != Idle || s.inflight == [] then s
    else
      var back := s.(ended := s.ended + Marked(s.inflight[0], !gone), inflight := s.inflight[1..]);
      if !s.running || gone then back
      else
        var core := PrimeCheck(cfg, s.core);
        back.(core := core, control := AtTrim, trimmed := false,
              burst := if core.primed then s.burst else 0)
  }

  function AdvanceStep(cfg: Config, s: State): State {
    match s.control
    case AtTrim =>
      s.(control := AtSkip(Excess(cfg, s.core)), burst := if s.core.primed then 0 else s.burst)
    case AtSkip(excess) =>
      if excess == 0 then s.(control := AtRead)
      else
        s.(core := Skip(s.core, excess), control := AtRead, trimmed := true,
           log := s.log + [Discarded(s.core.ring[..Min(excess, |s.core.ring|)])])
    case AtRead =>
      var pcm := NextPcm(s.core);
      s.(core := AfterPacket(s.core),
         current := s.current + [Frame(s.core.seqno, pcm)],
         log := s.log + [Played(pcm)],
         control := if |s.current| + 1 == cfg.pkts then AtSubmit else AtRead)
    case _ => s
  }

  function SubmitStep(s: State, ok: bool): State {
    if s.control != AtSubmit then s
    else
      s.(control := Idle, current := [], intact := s.intact && ok,
         inflight := if ok then s.inflight + [s.current] else s.inflight)
  }

  /** An event that is not enabled leaves the state alone, so every event list is a run. */
  function Step(cfg: Config, s: State, e: Event): State {
    match e
    case Sink(src) => SinkStep(cfg, s, src)
    case Complete(gone) => CompleteStep(cfg, s, gone)
    case Advance => AdvanceStep(cfg, s)
    case Submit(ok) => SubmitStep(s, ok)
    case Stop => s.(running := false)
  }

  function Run(cfg: Config, events: seq<Event>): State {
    if events == [] then Init(cfg)
    else Step(cfg, Run(cfg, events[..|events| - 1]), events[|events| - 1])
  }

  lemma RunSnoc(cfg: Config, events: seq<Event>, e: Event)
    ensures Run(cfg, events + [e]) == Step(cfg, Run(cfg, events), e)
  {
    assert (events + [e])[..|events|] == events;
  }

  // ------------------------------------------------------------ conservation and order

  predicate Books(cfg: Config, s: State) {
    Balanced(s.accepted, s.log, s.core.ring) && |s.core.ring| <= cfg.capacity
  }

  lemma SinkKeepsBooks(cfg: Config, s: State, src: Bytes)
    requires Books(cfg, s)
    ensures Books(cfg, SinkStep(cfg, s, src))
  {
    BalancedAfterAccept(s.accepted, s.log, s.core.ring, src[..Spsc.Room(cfg.capacity, |s.core.ring|, src)]);
  }

  lemma AdvanceKeepsBooks(cfg: Config, s: State)
    requires Books(cfg, s)
    ensures Books(cfg, AdvanceStep(cfg, s))
  {
    if s.control.AtSkip? {
      var n := Min(s.control.excess, |s.core.ring|);
      BalancedAfterUse(s.accepted, s.log, s.core.ring, n, Discarded(s.core.ring[..n]));
    } else if s.control.AtRead? {
      var pcm := NextPcm(s.core);
      assert s.core.ring[..|pcm|] == pcm;
      BalancedAfterUse(s.accepted, s.log, s.core.ring, |pcm|, Played(pcm));
    }
  }

  lemma StepKeepsBooks(cfg: Config, s: State, e: Event)
    requires Books(cfg, s)
    ensures Books(cfg, Step(cfg, s, e))
  {
    match e
    case Sink(src) => SinkKeepsBooks(cfg, s, src);
    case Advance => AdvanceKeepsBooks(cfg, s);
    case _ =>
  }

  /** In every run the bytes played, the bytes trimmed and the bytes in the ring, in this order,
      are the bytes accepted. */
  lemma {:induction false} EveryByteAccountedFor(cfg: Config, events: seq<Event>)
    ensures Books(cfg, Run(cfg, events))
  {
    if events != [] {
      EveryByteAccountedFor(cfg, events[..|events| - 1]);
      StepKeepsBooks(cfg, Run(cfg, events[..|events| - 1]), events[|events| - 1]);
    }
  }

  // ------------------------------------------------------------ the bus

  /** The frames of a run: the k-th carries sequence number `SeqAt(k)`. */
  function Frames(pcms: seq<Bytes>): seq<Bytes>
    requires forall k :: 0 <= k < |pcms| ==> |pcms[k]| <= OUT_PCM_BYTES
  {
    seq(|pcms|, k requires 0 <= k < |pcms| => Frame(SeqAt(k), pcms[k]))
  }

  /** All packets submitted, in order, and then those being written. */
  function OnTheWay(s: State): seq<Bytes> {
    PacketsOf(s.ended) + Join(s.inflight) + s.current
  }

  predicate Short(pcms: seq<Bytes>) {
    forall k :: 0 <= k < |pcms| ==> |pcms[k]| <= OUT_PCM_BYTES
  }

  predicate BusOrder(cfg: Config, s: State) {
    && Short(PlayedOf(s.log))
    && s.core.seqno == SeqAt(|PlayedOf(s.log)|)
    && (s.intact ==> OnTheWay(s) == Silent(cfg.Runway()) + Frames(PlayedOf(s.log)))
    && (s.control == AtRead || s.control == AtSubmit || s.current == [])
  }

  lemma FramesSnoc(pcms: seq<Bytes>, pcm: Bytes)
    requires Short(pcms) && |pcm| <= OUT_PCM_BYTES
    ensures Short(pcms + [pcm])
    ensures Frames(pcms + [pcm]) == Frames(pcms) + [Frame(SeqAt(|pcms|), pcm)]
  {
    var more := pcms + [pcm];
    forall k | 0 <= k < |more| ensures more[k] == if k < |pcms| then pcms[k] else pcm {
    }
  }

  lemma PacketKeepsBusOrder(cfg: Config, s: State)
    requires BusOrder(cfg, s) && s.control.AtRead?
    ensures BusOrder(cfg, AdvanceStep(cfg, s))
  {
    var pcm, pcms := NextPcm(s.core), PlayedOf(s.log);
    Snoc(s.log, Played(pcm));
    FramesSnoc(pcms, pcm);
    SeqAfterCycles(|pcms|);
    Assoc(PacketsOf(s.ended) + Join(s.inflight), s.current, [Frame(s.core.seqno, pcm)]);
    Assoc(Silent(cfg.Runway()), Frames(pcms), [Frame(s.core.seqno, pcm)]);
  }

  lemma TrimKeepsBusOrder(cfg: Config, s: State)
    requires BusOrder(cfg, s) && s.control.AtSkip?
    ensures BusOrder(cfg, AdvanceStep(cfg, s))
  {
    Snoc(s.log, Discarded(s.core.ring[..Min(s.control.excess, |s.core.ring|)]));
  }

  lemma MarkedPackets(es: seq<Ended>, packets: seq<Bytes>, sent: bool)
    ensures PacketsOf(es + Marked(packets, sent)) == PacketsOf(es) + packets
  {
  }

  lemma TransferKeepsBusOrder(cfg: Config, s: State, e: Event)
    requires BusOrder(cfg, s) && (e.Complete? || e.Submit?)
    ensures BusOrder(cfg, Step(cfg, s, e))
  {
    if e.Submit? {
      JoinSnoc(s.inflight, s.current);
      Assoc(PacketsOf(s.ended), Join(s.inflight), s.current);
    } else if s.inflight != [] {
      MarkedPackets(s.ended, s.inflight[0], !e.gone);
      Assoc(PacketsOf(s.ended), s.inflight[0], Join(s.inflight[1..]));
    }
  }

  lemma StepKeepsBusOrder(cfg: Config, s: State, e: Event)
    requires BusOrder(cfg, s)
    ensures BusOrder(cfg, Step(cfg, s, e))
  {
    match e
    case Sink(_) =>
    case Stop =>
    case Advance =>
      if s.control.AtSkip? {
        TrimKeepsBusOrder(cfg, s);
      } else if s.control.AtRead? {
        PacketKeepsBusOrder(cfg, s);
      }
    case _ => TransferKeepsBusOrder(cfg, s, e);
  }

  lemma {:induction false} SilentJoins(n: nat, m: nat)
    ensures Join(seq(n, _ => Silent(m))) == Silent(n * m)
  {
    if n > 0 {
      SilentJoins(n - 1, m);
      assert seq(n, _ => Silent(m))[1..] == seq(n - 1, _ => Silent(m));
      assert n * m == m + (n - 1) * m;
    }
  }

  lemma {:induction false} BusOrderAlways(cfg: Config, events: seq<Event>)
    ensures BusOrder(cfg, Run(cfg, events))
  {
    if events == [] {
      SilentJoins(cfg.xfers, cfg.pkts);
    } else {
      BusOrderAlways(cfg, events[..|events| - 1]);
      StepKeepsBusOrder(cfg, Run(cfg, events[..|events| - 1]), events[|events| - 1]);
    }
  }

  /** Packet `j` in the order of submission is one of the silent packets of `start`, or frame number
      `k = j - Runway()`, with sequence byte `SeqAt(k) = k mod 255 + 1` and the PCM of read `k`. */
  predicate InOrder(cfg: Config, s: State, j: nat)
    requires j < |s.ended| && Short(PlayedOf(s.log))
  {
    var first := cfg.Runway();
    if j < first then s.ended[j].packet == Zeros(OUT_PKT_BYTES)
    else j - first < |PlayedOf(s.log)|
         && s.ended[j].packet == Frame(SeqAt(j - first), PlayedOf(s.log)[j - first])
  }

  lemma ClosedForm(cfg: Config, s: State, j: nat)
    requires BusOrder(cfg, s) && s.intact && j < |s.ended|
    ensures InOrder(cfg, s, j)
  {
    assert OnTheWay(s)[j] == PacketsOf(s.ended)[j] by {
      Assoc(PacketsOf(s.ended), Join(s.inflight), s.current);
    }
  }

  /** A completed packet stands behind those before it that ended as it did, on the bus or among the
      cancelled. */
  lemma {:induction false} PlaceOf(es: seq<Ended>, j: nat)
    requires j < |es|
    ensures var place := |Having(es[..j], es[j].sent)|;
            place < |Having(es, es[j].sent)| && Having(es, es[j].sent)[place] == es[j].packet
    decreases |es|
  {
    var front := es[..|es| - 1];
    if j < |es| - 1 {
      PlaceOf(front, j);
      assert front[..j] == es[..j];
    }
  }

  /** Every packet on the bus is a completed one. */
  lemma {:induction false} CameFrom(es: seq<Ended>, sent: bool, b: nat) returns (j: nat)
    requires b < |Having(es, sent)|
    ensures j < |es| && es[j].sent == sent && |Having(es[..j], sent)| == b && Having(es, sent)[b] == es[j].packet
    decreases |es|
  {
    var n := |es| - 1;
    if b < |Having(es[..n], sent)| {
      j := CameFrom(es[..n], sent, b);
      assert es[..n][..j] == es[..j];
    } else {
      j := n;
    }
  }

  /** Every completed packet is on the bus or cancelled. */
  lemma {:induction false} SentOrCancelled(es: seq<Ended>, j: nat)
    requires j <= |es|
    ensures |Having(es[..j], true)| + |Having(es[..j], false)| == j
    ensures |Having(es[..j], false)| <= |Having(es, false)|
    decreases |es|, j
  {
    if j < |es| {
      SentOrCancelled(es[..|es| - 1], j);
      assert es[..|es| - 1][..j] == es[..j];
    } else if j > 0 {
      SentOrCancelled(es[..j - 1], j - 1);
      assert es[..j] == es && es[..j - 1][..j - 1] == es[..j - 1];
    }
  }

  /** As long as submits succeed the bus history has this closed form in every run, whatever the
      transfers, the packets in a transfer and the interleaving: bus packet `b` is packet `j` in the
      order of submission, where all `j - b` others before it were cancelled. */
  lemma BusHistory(cfg: Config, events: seq<Event>, b: nat) returns (j: nat)
    requires Run(cfg, events).intact && b < |Bus(Run(cfg, events))|
    ensures var s := Run(cfg, events);
            && Short(PlayedOf(s.log)) && j < |s.ended| && s.ended[j].sent && InOrder(cfg, s, j)
            && Bus(s)[b] == s.ended[j].packet
            && b + |Having(s.ended[..j], false)| == j
            && (Cancelled(s) == [] ==> j == b)
  {
    var s := Run(cfg, events);
    BusOrderAlways(cfg, events);
    j := CameFrom(s.ended, true, b);
    ClosedForm(cfg, s, j);
    SentOrCancelled(s.ended, j);
  }

  /** Nothing gets through behind a cancelled packet: a device that went away, or a stopped engine
      whose transfers were cancelled together. */
  predicate CutOff(es: seq<Ended>) {
    forall i, j :: 0 <= i < j < |es| && es[j].sent ==> es[i].sent
  }

  /** Then the bus history is simply the front of the packets submitted. */
  lemma {:induction false} CutOffIsPrefix(es: seq<Ended>)
    requires CutOff(es)
    ensures |Having(es, true)| <= |es| && Having(es, true) == PacketsOf(es)[..|Having(es, true)|]
    ensures es != [] && es[|es| - 1].sent ==> |Having(es, true)| == |es|
  {
    if es != [] {
      var n := |es| - 1;
      CutOffIsPrefix(es[..n]);
      assert PacketsOf(es) == PacketsOf(es[..n]) + [es[n].packet];
      if es[n].sent && n > 0 {
        assert es[n - 1].sent;
      }
    }
  }

  /** Read number `k` is log entry `i`: the packet behind the silent ones and the k before it carries
      the block of the accepted stream that starts where all earlier reads and trims end, and it has its
      place on the bus, or among the cancelled packets if its transfer was cancelled. */
  predicate EndedFrom(cfg: Config, s: State, i: nat)
    requires i < |s.log|
  {
    var k, from, to := |PlayedOf(s.log[..i])|, Offset(s.log, i), Offset(s.log, i + 1);
    var j := cfg.Runway() + k;
    && from <= to <= |s.accepted| && to - from <= OUT_PCM_BYTES
    && j < |s.ended| && s.ended[j].packet == Frame(SeqAt(k), s.accepted[from..to])
    && var there, place := Having(s.ended, s.ended[j].sent), |Having(s.ended[..j], s.ended[j].sent)|;
       place < |there| && there[place] == Frame(SeqAt(k), s.accepted[from..to])
  }

  lemma PacketTraced(cfg: Config, s: State, i: nat)
    requires Books(cfg, s) && BusOrder(cfg, s) && s.intact && i < |s.log| && s.log[i].Played?
    requires cfg.Runway() + |PlayedOf(s.log[..i])| < |s.ended|
    ensures EndedFrom(cfg, s, i)
  {
    PlayedAt(s.log, i);
    EntryIsContiguous(s.accepted, s.log, s.core.ring, i);
    ClosedForm(cfg, s, cfg.Runway() + |PlayedOf(s.log[..i])|);
    PlaceOf(s.ended, cfg.Runway() + |PlayedOf(s.log[..i])|);
  }

  /** From the sink to the bus, in every run: once its transfer is back, every read of the ring has its
      packet at its place on the bus - unless the transfer was cancelled, which books it as lost - with
      its place in the accepted stream as PCM. */
  lemma SinkToBus(cfg: Config, events: seq<Event>, i: nat)
    requires Run(cfg, events).intact && i < |Run(cfg, events).log| && Run(cfg, events).log[i].Played?
    requires cfg.Runway() + |PlayedOf(Run(cfg, events).log[..i])| < |Run(cfg, events).ended|
    ensures EndedFrom(cfg, Run(cfg, events), i)
  {
    EveryByteAccountedFor(cfg, events);
    BusOrderAlways(cfg, events);
    PacketTraced(cfg, Run(cfg, events), i);
  }

  /** Nothing has been taken out of the ring, or the prime depth has been in it. */
  predicate SilentSoFar(cfg: Config, s: State) {
    if s.core.primed then |s.accepted| >= cfg.Prime()
    else s.core.ring == s.accepted && Stream(s.log) == [] && (s.control.AtSkip? ==> s.control.excess == 0)
  }

  lemma SilentAdvance(cfg: Config, s: State)
    requires SilentSoFar(cfg, s)
    ensures SilentSoFar(cfg, AdvanceStep(cfg, s))
  {
    if s.control.AtRead? {
      Snoc(s.log, Played(NextPcm(s.core)));
    }
  }

  lemma SilentStep(cfg: Config, s: State, e: Event)
    requires SilentSoFar(cfg, s)
    ensures SilentSoFar(cfg, Step(cfg, s, e))
  {
    match e
    case Sink(_) =>
    case Complete(_) =>
    case Advance => SilentAdvance(cfg, s);
    case _ =>
  }

  /** Until a callback has found the prime depth in the ring nothing is taken out of it, and every
      packet is silent. */
  lemma {:induction false} SilentUntilPrimed(cfg: Config, events: seq<Event>)
    ensures SilentSoFar(cfg, Run(cfg, events))
  {
    if events != [] {
      SilentUntilPrimed(cfg, events[..|events| - 1]);
      SilentStep(cfg, Run(cfg, events[..|events| - 1]), events[|events| - 1]);
    }
  }

  lemma StepPrimingFits(cfg: Config, s: State, e: Event)
    requires Books(cfg, s) && (s.core.primed ==> cfg.Prime() <= cfg.capacity)
    ensures Step(cfg, s, e).core.primed ==> cfg.Prime() <= cfg.capacity
  {
  }

  lemma {:induction false} PrimingFits(cfg: Config, events: seq<Event>)
    ensures Run(cfg, events).core.primed ==> cfg.Prime() <= cfg.capacity
  {
    if events != [] {
      PrimingFits(cfg, events[..|events| - 1]);
      EveryByteAccountedFor(cfg, events[..|events| - 1]);
      StepPrimingFits(cfg, Run(cfg, events[..|events| - 1]), events[|events| - 1]);
    }
  }

  /** One push of the prime depth and one completion prime the engine. */
  function PrimingRun(cfg: Config): seq<Event> { [Sink(Zeros(cfg.Prime()))] + [Complete(false)] }

  lemma PrimingRunPrimes(cfg: Config)
    requires cfg.Valid() && cfg.Prime() <= cfg.capacity
    ensures Run(cfg, PrimingRun(cfg)).core.primed
  {
    var none: seq<Event>, src := [], Zeros(cfg.Prime());
    assert none + [Sink(src)] == [Sink(src)];
    RunSnoc(cfg, none, Sink(src));
    RunSnoc(cfg, [Sink(src)], Complete(false));
    assert src[..|src|] == src;
  }

  /** Playback can start at all exactly if the ring can hold the prime depth; otherwise no run ever
      takes a byte out of it. */
  lemma PrimesIff(cfg: Config)
    requires cfg.Valid()
    ensures cfg.Prime() <= cfg.capacity <==> exists events :: Run(cfg, events).core.primed
    ensures cfg.Prime() > cfg.capacity ==> forall events :: Stream(Run(cfg, events).log) == []
  {
    forall events ensures Run(cfg, events).core.primed ==> cfg.Prime() <= cfg.capacity {
      PrimingFits(cfg, events);
    }
    if cfg.Prime() <= cfg.capacity {
      PrimingRunPrimes(cfg);
    } else {
      forall events ensures Stream(Run(cfg, events).log) == [] {
        SilentUntilPrimed(cfg, events);
      }
    }
  }

  // ------------------------------------------------------------ transfers in flight

  /** Transfers the host controller or the running callback holds. */
  function Held(s: State): nat {
    |s.inflight| + if s.control == Idle then 0 else 1
  }

  /** No event ever adds a transfer. One is given up for good exactly when a completion finds the
      engine stopped or the device gone, or a submit fails. */
  lemma StepHeld(cfg: Config, s: State, e: Event)
    ensures Held(Step(cfg, s, e)) == Held(s) - if GivesUp(s, e) then 1 else 0
  {
  }

  predicate GivesUp(s: State, e: Event) {
    || (e.Complete? && s.control == Idle && s.inflight != [] && (!s.running || e.gone))
    || (e.Submit? && s.control == AtSubmit && !e.ok)
  }

  predicate Healthy(e: Event) {
    match e
    case Complete(gone) => !gone
    case Submit(ok) => ok
    case Stop => false
    case _ => true
  }

  /** While it runs on a healthy device, the engine has all its transfers in flight between
      callbacks. */
  lemma {:induction false} AllInFlight(cfg: Config, events: seq<Event>)
    requires forall i :: 0 <= i < |events| ==> Healthy(events[i])
    ensures var s := Run(cfg, events);
            s.running && s.intact && Held(s) == cfg.xfers && (s.control == Idle ==> |s.inflight| == cfg.xfers)
  {
    if events != [] {
      AllInFlight(cfg, events[..|events| - 1]);
      StepHeld(cfg, Run(cfg, events[..|events| - 1]), events[|events| - 1]);
    }
  }

  function StepAll(cfg: Config, s: State, events: seq<Event>): State {
    if events == [] then s else Step(cfg, StepAll(cfg, s, events[..|events| - 1]), events[|events| - 1])
  }

  /** How the packets of the oldest transfers end under these completions. */
  function Endings(inflight: seq<seq<Bytes>>, events: seq<Event>): seq<Ended>
    requires |events| <= |inflight| && forall i :: 0 <= i < |events| ==> events[i].Complete?
  {
    if events == [] then []
    else
      var n := |events| - 1;
      Endings(inflight, events[..n]) + Marked(inflight[n], !events[n].gone)
  }

  lemma {:induction false} EndingsPackets(inflight: seq<seq<Bytes>>, events: seq<Event>)
    requires |events| <= |inflight| && forall i :: 0 <= i < |events| ==> events[i].Complete?
    ensures PacketsOf(Endings(inflight, events)) == Join(inflight[..|events|])
  {
    if events != [] {
      var n := |events| - 1;
      EndingsPackets(inflight, events[..n]);
      MarkedPackets(Endings(inflight, events[..n]), inflight[n], !events[n].gone);
      assert inflight[..n + 1] == inflight[..n] + [inflight[n]];
      JoinSnoc(inflight[..n], inflight[n]);
    }
  }

  /** Once stopped and between callbacks, every completion retires the oldest transfer, and nothing is
      submitted again: after as many completions as there are transfers none is in flight. The packets
      go to the bus or are cancelled, as their completion says. */
  lemma {:induction false} StoppedDrains(cfg: Config, s: State, events: seq<Event>)
    requires !s.running && s.control == Idle && |events| <= |s.inflight|
    requires forall i :: 0 <= i < |events| ==> events[i].Complete?
    ensures var t := StepAll(cfg, s, events);
            && t.control == Idle && !t.running && t.log == s.log && t.core == s.core
            && t.inflight == s.inflight[|events|..]
            && t.ended == s.ended + Endings(s.inflight, events)
  {
    if events != [] {
      var n := |events| - 1;
      StoppedDrains(cfg, s, events[..n]);
      assert StepAll(cfg, s, events) == CompleteStep(cfg, StepAll(cfg, s, events[..n]), events[n].gone);
      Assoc(s.ended, Endings(s.inflight, events[..n]), Marked(s.inflight[n], !events[n].gone));
    }
  }

  /** What `stop` loses: if every transfer still in flight comes back cancelled, the bus history stays
      as it was and all their packets are lost; if none does, all of them go out. */
  lemma StopLoses(cfg: Config, s: State, events: seq<Event>, gone: bool)
    requires !s.running && s.control == Idle && |events| == |s.inflight|
    requires forall i :: 0 <= i < |events| ==> events[i] == Complete(gone)
    ensures var t := StepAll(cfg, s, events);
            && t.inflight == []
            && Bus(t) == Bus(s) + (if gone then [] else Join(s.inflight))
            && Cancelled(t) == Cancelled(s) + (if gone then Join(s.inflight) else [])
  {
    StoppedDrains(cfg, s, events);
    assert s.inflight[..|events|] == s.inflight;
    var es := Endings(s.inflight, events);
    EndingsPackets(s.inflight, events);
    EndingsAlike(s.inflight, events, gone);
    HavingAppend(s.ended, es, true);
    HavingAppend(s.ended, es, false);
    AllAlike(es, !gone);
  }

  lemma {:induction false} EndingsAlike(inflight: seq<seq<Bytes>>, events: seq<Event>, gone: bool)
    requires |events| <= |inflight| && forall i :: 0 <= i < |events| ==> events[i] == Complete(gone)
    ensures forall k :: 0 <= k < |Endings(inflight, events)| ==> Endings(inflight, events)[k].sent == !gone
  {
    if events != [] {
      EndingsAlike(inflight, events[..|events| - 1], gone);
    }
  }

  lemma {:induction false} HavingAppend(a: seq<Ended>, b: seq<Ended>, sent: bool)
    ensures Having(a + b, sent) == Having(a, sent) + Having(b, sent)
  {
    if b == [] {
      assert a + b == a;
    } else {
      var n := |b| - 1;
      HavingAppend(a, b[..n], sent);
      assert (a + b)[..|a + b| - 1] == a + b[..n] && (a + b)[|a + b| - 1] == b[n];
    }
  }

  lemma {:induction false} AllAlike(es: seq<Ended>, sent: bool)
    requires forall k :: 0 <= k < |es| ==> es[k].sent == sent
    ensures Having(es, sent) == PacketsOf(es) && Having(es, !sent) == []
  {
    if es != [] {
      var n := |es| - 1;
      AllAlike(es[..n], sent);
      assert PacketsOf(es) == PacketsOf(es[..n]) + [es[n].packet];
    }
  }

  // ------------------------------------------------------------ channel alignment

  predicate AlignedState(s: State) {
    MultipleOf4(|s.core.ring|) && AllAligned(s.log)
  }

  lemma AlignedSnoc(log: seq<Use>, u: Use)
    requires AllAligned(log) && MultipleOf4(|u.data|)
    ensures AllAligned(log + [u])
  {
    forall i | 0 <= i < |log + [u]| ensures MultipleOf4(|(log + [u])[i].data|) {
    }
  }

  lemma StepKeepsAligned(cfg: Config, s: State, e: Event)
    requires AlignedState(s) && Books(cfg, s) && MultipleOf4(cfg.capacity)
    requires e.Sink? ==> MultipleOf4(|e.src|)
    requires s.control.AtSkip? ==> MultipleOf4(s.control.excess)
    ensures AlignedState(Step(cfg, s, e))
    ensures Step(cfg, s, e).control.AtSkip? ==> MultipleOf4(Step(cfg, s, e).control.excess)
  {
    match e
    case Sink(src) =>
      SumAligned(cfg.capacity, |s.core.ring|);
      SumAligned(|s.core.ring|, Spsc.Room(cfg.capacity, |s.core.ring|, src));
    case Advance =>
      if s.control.AtSkip? {
        var n := Min(s.control.excess, |s.core.ring|);
        SumAligned(|s.core.ring|, n);
        AlignedSnoc(s.log, Discarded(s.core.ring[..n]));
      } else if s.control.AtRead? {
        SumAligned(|s.core.ring|, |NextPcm(s.core)|);
        AlignedSnoc(s.log, Played(NextPcm(s.core)));
      } else if s.control.AtTrim? {
        ExcessAligned(cfg, s.core);
      }
    case _ =>
  }

  lemma ExcessAligned(cfg: Config, c: Core)
    ensures MultipleOf4(Excess(cfg, c))
    ensures Excess(cfg, c) > 0 ==> |c.ring| - cfg.Prime() - 3 <= Excess(cfg, c) <= |c.ring| - cfg.Prime()
  {
  }

  predicate WholeFramePushes(events: seq<Event>) {
    forall i :: 0 <= i < |events| ==> (events[i].Sink? ==> MultipleOf4(|events[i].src|))
  }

  lemma {:induction false} AlignedAlways(cfg: Config, events: seq<Event>)
    requires MultipleOf4(cfg.capacity) && WholeFramePushes(events)
    ensures var s := Run(cfg, events);
            AlignedState(s) && (s.control.AtSkip? ==> MultipleOf4(s.control.excess))
  {
    if events != [] {
      AlignedAlways(cfg, events[..|events| - 1]);
      EveryByteAccountedFor(cfg, events[..|events| - 1]);
      StepKeepsAligned(cfg, Run(cfg, events[..|events| - 1]), events[|events| - 1]);
    }
  }

  /** If the sink pushes whole stereo frames, then however it interleaves with priming, trimming,
      overflow and underruns, the PCM byte at packet position `p` comes from a place in the
      accepted stream congruent to `p` modulo 4: left stays left. */
  lemma ChannelsStayPut(cfg: Config, events: seq<Event>, i: nat, p: nat)
    requires MultipleOf4(cfg.capacity) && WholeFramePushes(events)
    requires i < |Run(cfg, events).log| && p < |Run(cfg, events).log[i].data|
    ensures Traced(Run(cfg, events).accepted, Run(cfg, events).log, i, p)
  {
    AlignedAlways(cfg, events);
    EveryByteAccountedFor(cfg, events);
    var s := Run(cfg, events);
    ByteComesFrom(s.accepted, s.log, s.core.ring, i, p);
  }

  // ------------------------------------------------------------ no overflow

  /** Every burst between two deciding samples stays within `limit` bytes. */
  predicate BurstsWithin(cfg: Config, events: seq<Event>, limit: nat) {
    Run(cfg, events).burst <= limit && (events == [] || BurstsWithin(cfg, events[..|events| - 1], limit))
  }

  /** The sink only pushes between callbacks. */
  predicate AtomicCallbacks(cfg: Config, events: seq<Event>) {
    events == [] ||
    (var n := |events| - 1;
     && AtomicCallbacks(cfg, events[..n])
     && (events[n].Sink? ==> Run(cfg, events[..n]).control == Idle))
  }

  /** How deep the ring can be, and that nothing was dropped so far. */
  predicate Shallow(cfg: Config, s: State, limit: nat) {
    && s.accepted == s.offered
    && (if s.control.AtSkip? && s.control.excess > 0 then
          && |s.core.ring| <= 2 * cfg.Prime() + limit + s.burst
          && |s.core.ring| <= s.control.excess + cfg.Prime() + 3 + s.burst
        else |s.core.ring| <= 2 * cfg.Prime() + s.burst)
  }

  lemma SinkStaysShallow(cfg: Config, s: State, src: Bytes, limit: nat)
    requires Shallow(cfg, s, limit) && s.burst + |src| <= limit
    requires s.control == Idle || 2 * cfg.Prime() + 2 * limit <= cfg.capacity
    requires 2 * cfg.Prime() + limit <= cfg.capacity
    ensures Shallow(cfg, SinkStep(cfg, s, src), limit)
  {
    assert Spsc.Room(cfg.capacity, |s.core.ring|, src) == |src|;
    assert src[..|src|] == src;
  }

  lemma StepStaysShallow(cfg: Config, s: State, e: Event, limit: nat)
    requires cfg.Valid() && Shallow(cfg, s, limit) && s.burst <= limit && !e.Sink?
    ensures Shallow(cfg, Step(cfg, s, e), limit)
  {
    if e.Advance? && s.control == AtTrim {
      ExcessAligned(cfg, s.core);
    }
  }

  /** Overflow freedom. If at most `limit` bytes arrive between consecutive samples that trim
      decisions rest on, and the capacity is at least twice the prime depth plus twice `limit`
      (once, if callbacks run without the sink pushing in between), no byte is ever dropped. */
  lemma {:induction false} NeverOverflows(cfg: Config, events: seq<Event>, limit: nat, atomic: bool)
    requires cfg.Valid() && BurstsWithin(cfg, events, limit)
    requires atomic ==> AtomicCallbacks(cfg, events)
    requires 2 * cfg.Prime() + (if atomic then limit else 2 * limit) <= cfg.capacity
    ensures Run(cfg, events).accepted == Run(cfg, events).offered
    ensures Shallow(cfg, Run(cfg, events), limit)
  {
    if events != [] {
      var n := |events| - 1;
      var s, e := Run(cfg, events[..n]), events[n];
      NeverOverflows(cfg, events[..n], limit, atomic);
      if e.Sink? {
        SinkStaysShallow(cfg, s, e.src, limit);
      } else {
        StepStaysShallow(cfg, s, e, limit);
      }
    }
  }

  // ------------------------------------------------------------ trimming and starvation

  /** The last `n` removals were full packets. */
  predicate LastFull(log: seq<Use>, n: nat) {
    n <= |log| && forall k :: |log| - n <= k < |log| ==> log[k].Played? && |log[k].data| == OUT_PCM_BYTES
  }

  /** A callback that trimmed and is about to resubmit has no silent packet. */
  predicate TrimFed(cfg: Config, s: State) {
    s.control == AtSubmit && s.trimmed ==> LastFull(s.log, cfg.pkts)
  }

  /** What keeps it so: a pending trim leaves the prime depth, and every packet takes its share. */
  predicate Fed(cfg: Config, s: State) {
    && (s.control.AtSkip? && s.control.excess > 0 ==>
          s.core.primed && |s.core.ring| >= s.control.excess + cfg.Prime())
    && (s.control == AtTrim || s.control.AtSkip? ==> !s.trimmed)
    && (s.control == AtRead ==> |s.current| < cfg.pkts)
    && (s.control == AtSubmit ==> |s.current| == cfg.pkts)
    && (s.control != AtRead && s.control != AtSubmit ==> s.current == [])
    && (s.trimmed && (s.control == AtRead || s.control == AtSubmit) ==>
          && s.core.primed
          && |s.core.ring| + 192 * |s.current| >= cfg.Prime()
          && LastFull(s.log, |s.current|))
  }

  lemma StepKeepsFed(cfg: Config, s: State, e: Event)
    requires cfg.Valid() && cfg.primeMs >= cfg.pkts && Fed(cfg, s)
    ensures Fed(cfg, Step(cfg, s, e))
  {
    if e.Advance? {
      if s.control == AtTrim {
        ExcessAligned(cfg, s.core);
      } else if s.control == AtRead && s.trimmed {
        assert 192 * |s.current| <= 192 * (cfg.pkts - 1);
        LastFullSnoc(s.log, |s.current|, NextPcm(s.core));
      }
    }
  }

  lemma LastFullSnoc(log: seq<Use>, n: nat, pcm: Bytes)
    requires LastFull(log, n) && |pcm| == OUT_PCM_BYTES
    ensures LastFull(log + [Played(pcm)], n + 1)
  {
  }

  lemma {:induction false} FedAlways(cfg: Config, events: seq<Event>)
    requires cfg.Valid() && cfg.primeMs >= cfg.pkts
    ensures Fed(cfg, Run(cfg, events))
  {
    if events != [] {
      FedAlways(cfg, events[..|events| - 1]);
      StepKeepsFed(cfg, Run(cfg, events[..|events| - 1]), events[|events| - 1]);
    }
  }

  predicate Untrimmed(s: State) { !s.trimmed && (s.control.AtSkip? ==> s.control.excess == 0) }

  lemma StepUntrimmed(cfg: Config, s: State, e: Event)
    requires cfg.Valid() && |s.core.ring| <= cfg.capacity <= 2 * cfg.Prime() && Untrimmed(s)
    ensures Untrimmed(Step(cfg, s, e))
  {
  }

  /** A ring that cannot pass the trimming mark is never trimmed. */
  lemma {:induction false} NeverTrimmed(cfg: Config, events: seq<Event>)
    requires cfg.Valid() && cfg.capacity <= 2 * cfg.Prime()
    ensures Untrimmed(Run(cfg, events))
  {
    if events != [] {
      NeverTrimmed(cfg, events[..|events| - 1]);
      EveryByteAccountedFor(cfg, events[..|events| - 1]);
      StepUntrimmed(cfg, Run(cfg, events[..|events| - 1]), events[|events| - 1]);
    }
  }

  /** Fill the ring just past the trimming mark, let one callback trim, and then read `m` packets. */
  function TrimRun(cfg: Config, m: nat): seq<Event> {
    if m == 0 then [Sink(Zeros(2 * cfg.Prime() + 1))] + [Complete(false)] + [Advance] + [Advance]
    else TrimRun(cfg, m - 1) + [Advance]
  }

  lemma FilledRing(cfg: Config)
    requires cfg.capacity >= 2 * cfg.Prime() + 1
    ensures var s := Run(cfg, [Sink(Zeros(2 * cfg.Prime() + 1))]);
            s == Init(cfg).(core := s.core, offered := s.offered, accepted := s.accepted, burst := s.burst)
            && s.core == Core(Zeros(2 * cfg.Prime() + 1), false, 1)
  {
    var none: seq<Event>, src := [], Zeros(2 * cfg.Prime() + 1);
    RunSnoc(cfg, none, Sink(src));
    assert none + [Sink(src)] == [Sink(src)];
    assert src[..|src|] == src;
  }

  lemma TrimFromFilled(cfg: Config, s: State)
    requires cfg.Valid() && s.core == Core(Zeros(2 * cfg.Prime() + 1), false, 1)
    requires s.control == Idle && s.running && s.inflight != [] && s.current == []
    ensures var t := AdvanceStep(cfg, AdvanceStep(cfg, CompleteStep(cfg, s, false)));
            t.control == AtRead && t.trimmed && t.core.primed && |t.core.ring| == cfg.Prime() + 1 && t.current == []
  {
    var t := CompleteStep(cfg, s, false);
    assert t.control == AtTrim && t.core.primed && t.core.ring == s.core.ring && t.current == [];
    assert Excess(cfg, t.core) == cfg.Prime() by {
      Remainder(48 * cfg.primeMs, 0);
      OnlyMultiple(cfg.Prime(), Excess(cfg, t.core));
    }
  }

  lemma OnlyMultiple(a: nat, b: nat)
    requires MultipleOf4(a) && MultipleOf4(b) && a - 2 <= b <= a + 1
    ensures a == b
  {
  }

  lemma TrimRunStart(cfg: Config)
    requires cfg.Valid() && cfg.capacity >= 2 * cfg.Prime() + 1
    ensures var s := Run(cfg, TrimRun(cfg, 0));
            s.control == AtRead && s.trimmed && s.core.primed && |s.core.ring| == cfg.Prime() + 1 && s.current == []
  {
    var first := [Sink(Zeros(2 * cfg.Prime() + 1))];
    FilledRing(cfg);
    TrimFromFilled(cfg, Run(cfg, first));
    RunSnoc(cfg, first, Complete(false));
    RunSnoc(cfg, first + [Complete(false)], Advance);
    RunSnoc(cfg, first + [Complete(false)] + [Advance], Advance);
  }

  /** Where that run stands after `m` packets. */
  predicate OnTrimRun(cfg: Config, s: State, m: nat) {
    && s.control == (if m == cfg.pkts then AtSubmit else AtRead) && s.trimmed && s.core.primed
    && |s.current| == m && |s.core.ring| == Max(0, cfg.Prime() + 1 - 192 * m)
    && (m > cfg.primeMs ==> !LastFull(s.log, 1))
  }

  lemma TrimRunNext(cfg: Config, m: nat)
    requires m > 0
    ensures Run(cfg, TrimRun(cfg, m)) == AdvanceStep(cfg, Run(cfg, TrimRun(cfg, m - 1)))
  {
    RunSnoc(cfg, TrimRun(cfg, m - 1), Advance);
  }

  lemma ReadOnTrimRun(cfg: Config, s: State, t: State, m: nat)
    requires m < cfg.pkts && OnTrimRun(cfg, s, m) && t == AdvanceStep(cfg, s)
    ensures OnTrimRun(cfg, t, m + 1)
  {
    assert t.log[|t.log| - 1] == Played(NextPcm(s.core));
  }

  lemma {:induction false} TrimRunStarves(cfg: Config, m: nat)
    requires cfg.Valid() && cfg.capacity >= 2 * cfg.Prime() + 1 && m <= cfg.pkts
    ensures OnTrimRun(cfg, Run(cfg, TrimRun(cfg, m)), m)
  {
    if m == 0 {
      TrimRunStart(cfg);
    } else {
      TrimRunStarves(cfg, m - 1);
      TrimRunNext(cfg, m);
      ReadOnTrimRun(cfg, Run(cfg, TrimRun(cfg, m - 1)), Run(cfg, TrimRun(cfg, m)), m - 1);
    }
  }

  /** Trimming never starves a callback of the packets it is about to fill exactly when the prime depth
      covers one transfer, or the ring is too small ever to be trimmed: otherwise there is a run in
      which it happens. */
  lemma TrimNeverStarvesIff(cfg: Config)
    requires cfg.Valid()
    ensures cfg.primeMs >= cfg.pkts || cfg.capacity <= 2 * cfg.Prime()
            <==> forall events :: TrimFed(cfg, Run(cfg, events))
  {
    if cfg.primeMs >= cfg.pkts {
      forall events ensures TrimFed(cfg, Run(cfg, events)) {
        FedAlways(cfg, events);
      }
    } else if cfg.capacity <= 2 * cfg.Prime() {
      forall events ensures TrimFed(cfg, Run(cfg, events)) {
        NeverTrimmed(cfg, events);
      }
    } else {
      TrimRunStarves(cfg, cfg.pkts);
      var starving := TrimRun(cfg, cfg.pkts);
      var s := Run(cfg, starving);
      assert OnTrimRun(cfg, s, cfg.pkts) && !LastFull(s.log, 1);
      assert LastFull(s.log, cfg.pkts) ==> LastFull(s.log, 1);
      assert !TrimFed(cfg, Run(cfg, starving));
    }
  }

  // ------------------------------------------------------------ `on_out` is one callback of a run

  /** The sink pushes, then the callback takes its next step, for every entry of `env`. */
  function Woven(env: seq<Bytes>): seq<Event> {
    if env == [] then [] else Woven(env[..|env| - 1]) + [Sink(env[|env| - 1]), Advance]
  }

  lemma {:induction false} StepAllAppend(cfg: Config, s: State, a: seq<Event>, b: seq<Event>)
    ensures StepAll(cfg, s, a + b) == StepAll(cfg, StepAll(cfg, s, a), b)
  {
    if b == [] {
      assert a + b == a;
    } else {
      var n := |b| - 1;
      StepAllAppend(cfg, s, a, b[..n]);
      assert (a + b)[..|a + b| - 1] == a + b[..n] && (a + b)[|a + b| - 1] == b[n];
    }
  }

  lemma StepAllTwo(cfg: Config, s: State, x: Event, y: Event)
    ensures StepAll(cfg, s, [x, y]) == Step(cfg, Step(cfg, s, x), y)
  {
    assert [x, y][..1] == [x] && [x][..0] == [];
    assert StepAll(cfg, s, [x]) == Step(cfg, s, x);
  }

  lemma {:induction false} RefillIsRun(cfg: Config, s: State, env: seq<Bytes>)
    requires s.control == AtRead && s.current == [] && |env| <= cfg.pkts && cfg.pkts > 0
    ensures var t := StepAll(cfg, s, Woven(env));
            && t.core == Refilled(cfg.Feed(), s.core, env) && t.current == Packets(cfg.Feed(), s.core, env)
            && |t.current| == |env|
            && t.control == (if |env| == cfg.pkts then AtSubmit else AtRead)
  {
    if env != [] {
      var n := |env| - 1;
      RefillIsRun(cfg, s, env[..n]);
      StepAllAppend(cfg, s, Woven(env[..n]), [Sink(env[n]), Advance]);
      StepAllTwo(cfg, StepAll(cfg, s, Woven(env[..n])), Sink(env[n]), Advance);
    }
  }

  /** The steps before the refill loop, taken one by one. */
  lemma TrimIsSteps(cfg: Config, s: State, env: seq<Bytes>)
    requires s.control == Idle && s.current == [] && s.running && s.inflight != [] && |env| == 3
    ensures var a := CompleteStep(cfg, SinkStep(cfg, s, env[0]), false);
            var b := AdvanceStep(cfg, SinkStep(cfg, a, env[1]));
            var t := AdvanceStep(cfg, SinkStep(cfg, b, env[2]));
            t.control == AtRead && t.current == [] && t.core == Trimmed(cfg, s.core, env)
  {
    var a := CompleteStep(cfg, SinkStep(cfg, s, env[0]), false);
    assert a.core == PrimeCheck(cfg, Push(cfg, s.core, env[0])) && a.control == AtTrim && a.current == [];
    var b := AdvanceStep(cfg, SinkStep(cfg, a, env[1]));
    assert b.core == Push(cfg, a.core, env[1]) && b.control == AtSkip(Excess(cfg, b.core)) && b.current == [];
    var c := Push(cfg, b.core, env[2]);
    assert c.ring[Min(0, |c.ring|)..] == c.ring;
  }

  /** The effect `Engine.OnOut` is proved to have is that of a run of this step system: the
      completion of the oldest transfer and the callback's steps, with the pushes in between. */
  lemma CallbackIsRun(cfg: Config, s: State, env: seq<Bytes>)
    requires s.control == Idle && s.current == [] && s.running && s.inflight != []
    requires |env| == 3 + cfg.pkts && cfg.pkts > 0
    ensures var events := [Sink(env[0]), Complete(false)] + [Sink(env[1]), Advance]
                          + [Sink(env[2]), Advance] + Woven(env[3..]);
            var t, c := StepAll(cfg, s, events), Trimmed(cfg, s.core, env[..3]);
            && t.control == AtSubmit
            && t.core == Refilled(cfg.Feed(), c, env[3..]) && t.current == Packets(cfg.Feed(), c, env[3..])
  {
    var e1, e2, e3 := [Sink(env[0]), Complete(false)], [Sink(env[1]), Advance], [Sink(env[2]), Advance];
    var s1 := StepAll(cfg, s, e1);
    var s2 := StepAll(cfg, s1, e2);
    var s3 := StepAll(cfg, s2, e3);
    StepAllTwo(cfg, s, Sink(env[0]), Complete(false));
    StepAllTwo(cfg, s1, Sink(env[1]), Advance);
    StepAllTwo(cfg, s2, Sink(env[2]), Advance);
    TrimIsSteps(cfg, s, env[..3]);
    StepAllAppend(cfg, s, e1, e2);
    StepAllAppend(cfg, s, e1 + e2, e3);
    StepAllAppend(cfg, s, e1 + e2 + e3, Woven(env[3..]));
    RefillIsRun(cfg, s3, env[3..]);
  }
}
