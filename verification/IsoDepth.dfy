/** How large the playback ring has to be, exactly, with and without pushes inside a callback. */
module IsoDepth {
  import opened ByteSeqs
  import opened IsoOut
  import opened IsoRuns
  import Spsc

  /** What the packets of one callback take from the ring. */
  function Drain(cfg: Config): nat { 192 * cfg.pkts }

  /** The most a callback can leave in the ring if at most `limit` bytes come in between samples: one
      byte less than primes the engine, or what is left of the trimming mark. */
  function Crest(cfg: Config, limit: nat): nat
    requires cfg.Valid()
  {
    Max(cfg.Prime() - 1, if limit > Drain(cfg) then 2 * cfg.Prime() - Drain(cfg) else 0)
  }

  /** Runs in which bursts stay within `limit` and, if asked for, nothing is pushed inside a callback. */
  predicate Within(cfg: Config, events: seq<Event>, limit: nat, atomic: bool) {
    (atomic ==> AtomicCallbacks(cfg, events)) && BurstsWithin(cfg, events, limit)
  }

  /** What has to fit on top of the crest: one burst, or one before and one behind the sample. */
  function Bursts(limit: nat, atomic: bool): nat { if atomic then limit else 2 * limit }

  predicate NoDrop(cfg: Config, events: seq<Event>) {
    Run(cfg, events).accepted == Run(cfg, events).offered
  }

  // ------------------------------------------------------------ enough room is enough

  /** What a callback samples is cut to the trimming mark. */
  function Level(cfg: Config, limit: nat): nat
    requires cfg.Valid()
  {
    Min(Crest(cfg, limit) + limit, 2 * cfg.Prime())
  }

  /** The depth at every point of a callback; `burst` bytes of it came in since the last sample. */
  predicate Calm(cfg: Config, s: State, limit: nat)
    requires cfg.Valid()
  {
    var depth, crest := |s.core.ring|, Crest(cfg, limit);
    && s.accepted == s.offered && s.burst <= limit
    && match s.control
       case Idle => s.current == [] && depth <= crest + s.burst
       case AtTrim =>
         s.current == [] && depth <= if s.core.primed then crest + s.burst else cfg.Prime() - 1 + s.burst
       case AtSkip(excess) =>
         && s.current == []
         && if s.core.primed then
              depth <= crest + limit + s.burst && depth - Min(excess, depth) <= Level(cfg, limit) + s.burst
            else excess == 0 && depth <= cfg.Prime() - 1 + s.burst
       case AtRead => |s.current| < cfg.pkts && ReadDown(cfg, s, limit)
       case AtSubmit => |s.current| == cfg.pkts && ReadDown(cfg, s, limit)
  }

  /** So many packets have been read. */
  predicate ReadDown(cfg: Config, s: State, limit: nat)
    requires cfg.Valid()
  {
    |s.core.ring| <= s.burst
      + if s.core.primed then Max(0, Level(cfg, limit) - 192 * |s.current|) else cfg.Prime() - 1
  }

  lemma CalmDepth(cfg: Config, s: State, limit: nat)
    requires cfg.Valid() && Calm(cfg, s, limit)
    ensures |s.core.ring| <= Crest(cfg, limit) + s.burst + if s.control == Idle then 0 else limit
  {
  }

  /** A push that fits is taken whole. */
  lemma PushedWhole(cfg: Config, s: State, src: Bytes)
    requires |s.core.ring| + |src| <= cfg.capacity
    ensures SinkStep(cfg, s, src)
            == s.(core := s.core.(ring := s.core.ring + src), offered := s.offered + src,
                  accepted := s.accepted + src, burst := s.burst + |src|)
  {
    assert Spsc.Room(cfg.capacity, |s.core.ring|, src) == |src|;
    assert src[..|src|] == src;
  }

  lemma SinkCalm(cfg: Config, s: State, src: Bytes, limit: nat, atomic: bool)
    requires cfg.Valid() && Calm(cfg, s, limit) && s.burst + |src| <= limit && (atomic ==> s.control == Idle)
    requires Bursts(limit, atomic) + Crest(cfg, limit) <= cfg.capacity
    ensures Calm(cfg, SinkStep(cfg, s, src), limit)
  {
    CalmDepth(cfg, s, limit);
    PushedWhole(cfg, s, src);
  }

  lemma AdvanceCalm(cfg: Config, s: State, limit: nat)
    requires cfg.Valid() && Calm(cfg, s, limit)
    ensures Calm(cfg, AdvanceStep(cfg, s), limit)
  {
    if s.control == AtTrim {
      TrimCalm(cfg, s, limit);
    } else if s.control == AtRead {
      ReadCalm(cfg, s, limit);
    }
  }

  lemma TrimCalm(cfg: Config, s: State, limit: nat)
    requires cfg.Valid() && Calm(cfg, s, limit) && s.control == AtTrim
    ensures Calm(cfg, AdvanceStep(cfg, s), limit)
  {
    ExcessAligned(cfg, s.core);
  }

  lemma ReadCalm(cfg: Config, s: State, limit: nat)
    requires cfg.Valid() && Calm(cfg, s, limit) && s.control == AtRead
    ensures Calm(cfg, AdvanceStep(cfg, s), limit)
  {
  }

  lemma StepCalm(cfg: Config, s: State, e: Event, limit: nat)
    requires cfg.Valid() && Calm(cfg, s, limit) && !e.Sink?
    ensures Calm(cfg, Step(cfg, s, e), limit)
  {
    if e.Advance? {
      AdvanceCalm(cfg, s, limit);
    }
  }

  lemma {:induction false} CalmAlways(cfg: Config, events: seq<Event>, limit: nat, atomic: bool)
    requires cfg.Valid() && Within(cfg, events, limit, atomic)
    requires Bursts(limit, atomic) + Crest(cfg, limit) <= cfg.capacity
    ensures Calm(cfg, Run(cfg, events), limit)
  {
    if events != [] {
      var n := |events| - 1;
      CalmAlways(cfg, events[..n], limit, atomic);
      if events[n].Sink? {
        SinkCalm(cfg, Run(cfg, events[..n]), events[n].src, limit, atomic);
      } else {
        StepCalm(cfg, Run(cfg, events[..n]), events[n], limit);
      }
    }
  }

  predicate Unoffered(s: State) { s.offered == [] == s.accepted && s.burst == 0 }

  lemma StepUnoffered(cfg: Config, s: State, e: Event)
    requires Unoffered(s) && Step(cfg, s, e).burst == 0
    ensures Unoffered(Step(cfg, s, e))
  {
  }

  lemma {:induction false} NothingOffered(cfg: Config, events: seq<Event>)
    requires BurstsWithin(cfg, events, 0)
    ensures Unoffered(Run(cfg, events))
  {
    if events != [] {
      NothingOffered(cfg, events[..|events| - 1]);
      StepUnoffered(cfg, Run(cfg, events[..|events| - 1]), events[|events| - 1]);
    }
  }

  // ------------------------------------------------------------ and it is needed

  function Advances(n: nat): seq<Event> { if n == 0 then [] else Advances(n - 1) + [Advance] }

  predicate NoSink(events: seq<Event>) { forall i :: 0 <= i < |events| ==> !events[i].Sink? }

  lemma {:induction false} AdvancesOnly(n: nat)
    ensures NoSink(Advances(n))
  {
    if n > 0 {
      AdvancesOnly(n - 1);
    }
  }

  lemma {:induction false} RunAppend(cfg: Config, events: seq<Event>, more: seq<Event>)
    ensures Run(cfg, events + more) == StepAll(cfg, Run(cfg, events), more)
  {
    if more == [] {
      assert events + more == events;
    } else {
      var n := |more| - 1;
      RunAppend(cfg, events, more[..n]);
      RunSnoc(cfg, events + more[..n], more[n]);
      assert events + more == events + more[..n] + [more[n]];
    }
  }

  lemma BurstFalls(cfg: Config, s: State, e: Event)
    requires !e.Sink?
    ensures Step(cfg, s, e).burst <= s.burst
  {
  }

  /** What a callback does to runs within the limits. */
  lemma {:induction false} WithinLater(cfg: Config, events: seq<Event>, more: seq<Event>, limit: nat)
    requires Within(cfg, events, limit, true) && NoSink(more)
    ensures Within(cfg, events + more, limit, true)
  {
    if more == [] {
      assert events + more == events;
    } else {
      var n := |more| - 1;
      WithinLater(cfg, events, more[..n], limit);
      assert (events + more)[..|events| + n] == events + more[..n] && (events + more)[|events| + n] == more[n];
      BurstFalls(cfg, Run(cfg, events + more[..n]), more[n]);
      BurstOk(cfg, events + more[..n], limit);
    }
  }

  lemma BurstOk(cfg: Config, events: seq<Event>, limit: nat)
    requires BurstsWithin(cfg, events, limit)
    ensures Run(cfg, events).burst <= limit
  {
  }

  lemma WithinPush(cfg: Config, events: seq<Event>, src: Bytes, limit: nat)
    requires Within(cfg, events, limit, true) && Run(cfg, events).control == Idle
    requires Run(cfg, events).burst + |src| <= limit
    ensures Within(cfg, events + [Sink(src)], limit, true)
  {
    assert (events + [Sink(src)])[..|events|] == events;
    RunSnoc(cfg, events, Sink(src));
  }

  /** Between callbacks on a running engine. */
  predicate Resting(s: State) {
    s.control == Idle && s.running && s.current == [] && s.inflight != []
  }

  predicate Kept(s: State, t: State) {
    t.running == s.running && t.inflight == s.inflight && t.accepted == s.accepted && t.offered == s.offered
  }

  lemma {:induction false} Reads(cfg: Config, s: State, m: nat)
    requires s.control == AtRead && s.current == [] && m <= cfg.pkts && cfg.pkts > 0
    ensures var t := StepAll(cfg, s, Advances(m));
            && t.control == (if m == cfg.pkts then AtSubmit else AtRead) && |t.current| == m
            && t.core.primed == s.core.primed && Kept(s, t) && t.burst == s.burst
            && |t.core.ring| == (if s.core.primed then Max(0, |s.core.ring| - 192 * m) else |s.core.ring|)
  {
    if m > 0 {
      Reads(cfg, s, m - 1);
      assert Advances(m)[..|Advances(m)| - 1] == Advances(m - 1);
      OneRead(cfg, StepAll(cfg, s, Advances(m - 1)));
    }
  }

  lemma OneRead(cfg: Config, s: State)
    requires s.control == AtRead
    ensures var t := AdvanceStep(cfg, s);
            && t.control == (if |s.current| + 1 == cfg.pkts then AtSubmit else AtRead)
            && |t.current| == |s.current| + 1
            && t.core.primed == s.core.primed && Kept(s, t) && t.burst == s.burst
            && |t.core.ring| == (if s.core.primed then Max(0, |s.core.ring| - 192) else |s.core.ring|)
  {
  }

  /** The depth one callback leaves of `d`. */
  function Left(cfg: Config, primed: bool, d: nat): nat {
    if primed || d >= cfg.Prime() then Max(0, d - Drain(cfg)) else d
  }

  /** The steps of one callback whose submit succeeds. */
  function Callback(cfg: Config): seq<Event> {
    [Complete(false)] + [Advance, Advance] + Advances(cfg.pkts) + [Submit(true)]
  }

  lemma Opening(cfg: Config, s: State)
    requires cfg.Valid() && Resting(s) && |s.core.ring| <= 2 * cfg.Prime()
    ensures var t := StepAll(cfg, StepAll(cfg, s, [Complete(false)]), [Advance, Advance]);
            && t.control == AtRead && t.current == [] && t.burst == 0 && t.running
            && t.core == PrimeCheck(cfg, s.core) && t.accepted == s.accepted && t.offered == s.offered
  {
    var a := CompleteStep(cfg, s, false);
    assert [Complete(false)][..0] == [];
    assert StepAll(cfg, s, [Complete(false)]) == a;
    StepAllTwo(cfg, a, Advance, Advance);
    assert Excess(cfg, a.core) == 0;
  }

  lemma CallbackLeaves(cfg: Config, s: State)
    requires cfg.Valid() && Resting(s) && |s.core.ring| <= 2 * cfg.Prime()
    ensures var t := StepAll(cfg, s, Callback(cfg));
            && Resting(t) && t.burst == 0 && t.accepted == s.accepted && t.offered == s.offered
            && t.core.primed == (s.core.primed || |s.core.ring| >= cfg.Prime())
            && |t.core.ring| == Left(cfg, s.core.primed, |s.core.ring|)
  {
    var a := StepAll(cfg, s, [Complete(false)]);
    var b := StepAll(cfg, a, [Advance, Advance]);
    var c := StepAll(cfg, b, Advances(cfg.pkts));
    Opening(cfg, s);
    Reads(cfg, b, cfg.pkts);
    StepAllAppend(cfg, s, [Complete(false)], [Advance, Advance]);
    StepAllAppend(cfg, s, [Complete(false)] + [Advance, Advance], Advances(cfg.pkts));
    StepAllAppend(cfg, s, [Complete(false)] + [Advance, Advance] + Advances(cfg.pkts), [Submit(true)]);
    assert [Submit(true)][..0] == [];
    assert StepAll(cfg, c, [Submit(true)]) == SubmitStep(c, true);
  }

  /** A run within the limits that rests at depth `d`, ready for a full burst. */
  predicate RestsAt(cfg: Config, events: seq<Event>, limit: nat, d: nat) {
    var s := Run(cfg, events);
    Within(cfg, events, limit, true) && Resting(s) && s.burst == 0 && |s.core.ring| == d
  }

  /** That no run within the limits drops a byte. */
  ghost predicate NeverDrops(cfg: Config, limit: nat, atomic: bool) {
    forall events :: Within(cfg, events, limit, atomic) ==> NoDrop(cfg, events)
  }

  /** Then every burst fits on top of it. */
  lemma PushFits(cfg: Config, limit: nat, events: seq<Event>, d: nat, src: Bytes)
    requires NeverDrops(cfg, limit, true) && RestsAt(cfg, events, limit, d) && |src| <= limit
    ensures d + |src| <= cfg.capacity
    ensures var t := Run(cfg, events + [Sink(src)]);
            && Within(cfg, events + [Sink(src)], limit, true) && Resting(t) && |t.core.ring| == d + |src|
            && t.core.primed == Run(cfg, events).core.primed
  {
    WithinPush(cfg, events, src, limit);
    RunSnoc(cfg, events, Sink(src));
    EveryByteAccountedFor(cfg, events);
    assert NoDrop(cfg, events) && NoDrop(cfg, events + [Sink(src)]);
    DroppedUnlessFits(cfg, Run(cfg, events), src);
    PushedWhole(cfg, Run(cfg, events), src);
  }

  /** One push and one callback. */
  lemma Round(cfg: Config, limit: nat, events: seq<Event>, d: nat, src: Bytes) returns (later: seq<Event>)
    requires cfg.Valid() && NeverDrops(cfg, limit, true) && RestsAt(cfg, events, limit, d)
    requires |src| <= limit && d + |src| <= 2 * cfg.Prime()
    ensures RestsAt(cfg, later, limit, Left(cfg, Run(cfg, events).core.primed, d + |src|))
    ensures Run(cfg, later).core.primed == (Run(cfg, events).core.primed || d + |src| >= cfg.Prime())
  {
    PushFits(cfg, limit, events, d, src);
    var pushed := events + [Sink(src)];
    AdvancesOnly(cfg.pkts);
    WithinLater(cfg, pushed, Callback(cfg), limit);
    RunAppend(cfg, pushed, Callback(cfg));
    CallbackLeaves(cfg, Run(cfg, pushed));
    later := pushed + Callback(cfg);
  }

  /** Any depth below the prime depth, byte by byte. */
  lemma {:induction false} Fill(cfg: Config, limit: nat, k: nat) returns (events: seq<Event>)
    requires cfg.Valid() && NeverDrops(cfg, limit, true) && limit > 0 && k < cfg.Prime()
    ensures RestsAt(cfg, events, limit, k) && !Run(cfg, events).core.primed
  {
    if k == 0 {
      events := [];
    } else {
      events := Fill(cfg, limit, k - 1);
      events := Round(cfg, limit, events, k - 1, Zeros(1));
    }
  }

  /** From there up to what is left of the trimming mark, if bursts are larger than the drain. */
  lemma {:induction false} Climb(cfg: Config, limit: nat, events: seq<Event>, d: nat) returns (top: seq<Event>)
    requires cfg.Valid() && NeverDrops(cfg, limit, true) && limit > Drain(cfg)
    requires cfg.Prime() - 1 <= d <= 2 * cfg.Prime() - Drain(cfg) && RestsAt(cfg, events, limit, d)
    ensures RestsAt(cfg, top, limit, 2 * cfg.Prime() - Drain(cfg))
    decreases 2 * cfg.Prime() - d
  {
    if d == 2 * cfg.Prime() - Drain(cfg) {
      top := events;
    } else {
      var x := Min(limit, 2 * cfg.Prime() - d);
      var later := Round(cfg, limit, events, d, Zeros(x));
      top := Climb(cfg, limit, later, d + x - Drain(cfg));
    }
  }

  /** A run that rests at the crest. */
  lemma ReachCrest(cfg: Config, limit: nat) returns (events: seq<Event>)
    requires cfg.Valid() && limit > 0 && NeverDrops(cfg, limit, true)
    ensures RestsAt(cfg, events, limit, Crest(cfg, limit))
  {
    events := Fill(cfg, limit, cfg.Prime() - 1);
    if limit > Drain(cfg) && cfg.Prime() - 1 <= 2 * cfg.Prime() - Drain(cfg) {
      events := Climb(cfg, limit, events, cfg.Prime() - 1);
    }
  }

  lemma SampledPrimed(cfg: Config, s: State)
    requires Resting(s) && |s.core.ring| >= cfg.Prime()
    ensures var t := AdvanceStep(cfg, CompleteStep(cfg, s, false)); t.burst == 0 && t.core.ring == s.core.ring
  {
  }

  /** A full burst, the samples of a callback, and another full burst before its skip. */
  lemma SecondBurst(cfg: Config, limit: nat, events: seq<Event>, d: nat)
    requires cfg.Valid() && NeverDrops(cfg, limit, false) && RestsAt(cfg, events, limit, d)
    requires d + limit >= cfg.Prime()
    ensures d + 2 * limit <= cfg.capacity
  {
    var src := Zeros(limit);
    PushFits(cfg, limit, events, d, src);
    var pushed := events + [Sink(src)];
    var s := Run(cfg, pushed);
    var more := [Complete(false), Advance];
    WithinLater(cfg, pushed, more, limit);
    RunAppend(cfg, pushed, more);
    StepAllTwo(cfg, s, Complete(false), Advance);
    var begun := pushed + more;
    var t := Run(cfg, begun);
    SampledPrimed(cfg, s);
    assert t.burst == 0 && |t.core.ring| == d + limit;
    BurstFits(cfg, limit, begun, src);
  }

  /** Wherever a run stands, the rest of a burst fits. */
  lemma BurstFits(cfg: Config, limit: nat, events: seq<Event>, src: Bytes)
    requires NeverDrops(cfg, limit, false) && BurstsWithin(cfg, events, limit)
    requires Run(cfg, events).burst + |src| <= limit
    ensures |Run(cfg, events).core.ring| + |src| <= cfg.capacity
  {
    BurstsAfterPush(cfg, limit, events, src);
    NothingDropped(cfg, limit, events);
    NothingDropped(cfg, limit, events + [Sink(src)]);
    RunSnoc(cfg, events, Sink(src));
    EveryByteAccountedFor(cfg, events);
    DroppedUnlessFits(cfg, Run(cfg, events), src);
  }

  lemma BurstsAfterPush(cfg: Config, limit: nat, events: seq<Event>, src: Bytes)
    requires BurstsWithin(cfg, events, limit) && Run(cfg, events).burst + |src| <= limit
    ensures BurstsWithin(cfg, events + [Sink(src)], limit)
  {
    RunSnoc(cfg, events, Sink(src));
    assert (events + [Sink(src)])[..|events|] == events;
  }

  lemma NothingDropped(cfg: Config, limit: nat, events: seq<Event>)
    requires NeverDrops(cfg, limit, false) && BurstsWithin(cfg, events, limit)
    ensures NoDrop(cfg, events)
  {
    assert Within(cfg, events, limit, false);
  }

  lemma DroppedUnlessFits(cfg: Config, s: State, src: Bytes)
    requires s.accepted == s.offered && |s.core.ring| <= cfg.capacity
    requires SinkStep(cfg, s, src).accepted == SinkStep(cfg, s, src).offered
    ensures |s.core.ring| + |src| <= cfg.capacity
  {
    var t := SinkStep(cfg, s, src);
    assert |t.offered| == |s.offered| + |src|;
    assert |t.accepted| == |s.accepted| + Spsc.Room(cfg.capacity, |s.core.ring|, src);
  }

  lemma RoomNeeded(cfg: Config, limit: nat, atomic: bool)
    requires cfg.Valid() && limit > 0 && NeverDrops(cfg, limit, atomic)
    ensures Bursts(limit, atomic) + Crest(cfg, limit) <= cfg.capacity
  {
    forall events | Within(cfg, events, limit, true) ensures NoDrop(cfg, events) {
      assert Within(cfg, events, limit, atomic);
    }
    var events := ReachCrest(cfg, limit);
    if atomic {
      PushFits(cfg, limit, events, Crest(cfg, limit), Zeros(limit));
    } else {
      SecondBurst(cfg, limit, events, Crest(cfg, limit));
    }
  }

  /** With at most `limit` bytes between samples no byte is ever dropped exactly if, on top of the most a
      callback can leave, one burst fits, or two if the sink also pushes inside a callback: for a
      smaller ring there is a run that overflows it. */
  lemma NeverDropsIff(cfg: Config, limit: nat, atomic: bool)
    requires cfg.Valid()
    ensures NeverDrops(cfg, limit, atomic)
            <==> limit == 0 || Bursts(limit, atomic) + Crest(cfg, limit) <= cfg.capacity
  {
    if limit == 0 {
      forall events | Within(cfg, events, limit, atomic) ensures NoDrop(cfg, events) {
        NothingOffered(cfg, events);
      }
    } else if Bursts(limit, atomic) + Crest(cfg, limit) <= cfg.capacity {
      forall events | Within(cfg, events, limit, atomic) ensures NoDrop(cfg, events) {
        CalmAlways(cfg, events, limit, atomic);
      }
    } else if NeverDrops(cfg, limit, atomic) {
      RoomNeeded(cfg, limit, atomic);
    }
  }
}
