/** How large the capture ring has to be, exactly, with and without pushes inside a callback. */
module MicDepth {
  import opened ByteSeqs
  import opened MicRuns
  import opened MicSource
  import Spsc

  /** The most a callback can leave in the ring: twice the latency target, or what a large want leaves
      when the trim has already made room for it. */
  function Crest(cfg: Config, most: nat, limit: nat): nat {
    Max(2 * cfg.Low(), Min(most, limit - 1))
  }

  /** What has to fit on top of it: one burst, or one before and one behind the sample. */
  function Bursts(limit: nat, atomic: bool): nat { if atomic then limit else 2 * limit }

  predicate NoDrop(cfg: Config, events: seq<Event>)
    requires cfg.Valid()
  {
    Run(cfg, events).accepted == Run(cfg, events).offered
  }

  /** That no run within the limits drops a byte. */
  ghost predicate NeverDrops(cfg: Config, most: nat, limit: nat, atomic: bool)
    requires cfg.Valid()
  {
    forall events :: Within(cfg, events, most, limit, atomic) ==> NoDrop(cfg, events)
  }

  // ------------------------------------------------------------ enough room is enough

  /** What the trim leaves is less than a frame above its target. */
  lemma ExcessCuts(low: nat, stride: nat, depth: nat, want: nat)
    requires 0 < stride <= low && Excess(low, stride, depth, want) > 0
    ensures depth - Excess(low, stride, depth, want) < Max(low, want) + stride
  {
    RemainderBelow(depth - Max(low, want), stride);
  }

  /** A callback that samples no more than the crest and a burst leaves no more than the crest. */
  lemma LeavesCrest(cfg: Config, depth: nat, want: nat, most: nat, limit: nat)
    requires cfg.Valid() && want <= most && limit > 0 && depth <= Crest(cfg, most, limit) + limit
    ensures depth - Excess(cfg.Low(), cfg.stride, depth, want) - want <= Crest(cfg, most, limit)
  {
    ExcessBounds(cfg.Low(), cfg.stride, depth, want);
    if Excess(cfg.Low(), cfg.stride, depth, want) > 0 {
      ExcessCuts(cfg.Low(), cfg.stride, depth, want);
    }
  }

  /** The depth at every point of a callback; `burst` bytes of it came in since the last sample. */
  predicate Calm(cfg: Config, s: State, most: nat, limit: nat) {
    var depth, crest := |s.ring|, Crest(cfg, most, limit);
    && s.accepted == s.offered && s.burst <= limit
    && match s.control
       case Idle => depth <= crest + s.burst
       case AtSkip(excess, want) => depth <= crest + limit + s.burst && depth <= excess + want + crest + s.burst
       case AtRead(want) => depth <= crest + limit + s.burst && depth <= want + crest + s.burst
  }

  /** A push that fits is taken whole. */
  lemma PushedWhole(cfg: Config, s: State, src: Bytes)
    requires |s.ring| + |src| <= cfg.capacity
    ensures PushStep(cfg, s, src)
            == s.(ring := s.ring + src, offered := s.offered + src, accepted := s.accepted + src,
                  burst := s.burst + |src|)
  {
    assert Spsc.Room(cfg.capacity, |s.ring|, src) == |src|;
    assert src[..|src|] == src;
  }

  lemma PushCalm(cfg: Config, s: State, src: Bytes, most: nat, limit: nat, atomic: bool)
    requires Calm(cfg, s, most, limit) && Allowed(s, Push(src), most, limit, atomic)
    requires Bursts(limit, atomic) + Crest(cfg, most, limit) <= cfg.capacity
    ensures Calm(cfg, PushStep(cfg, s, src), most, limit)
  {
    PushedWhole(cfg, s, src);
  }

  lemma AdvanceCalm(cfg: Config, s: State, most: nat, limit: nat)
    requires Calm(cfg, s, most, limit)
    ensures Calm(cfg, AdvanceStep(s), most, limit)
  {
  }

  lemma StepCalm(cfg: Config, s: State, e: Event, most: nat, limit: nat, atomic: bool)
    requires cfg.Valid() && Calm(cfg, s, most, limit) && Allowed(s, e, most, limit, atomic)
    requires limit > 0 && Bursts(limit, atomic) + Crest(cfg, most, limit) <= cfg.capacity
    ensures Calm(cfg, Step(cfg, s, e), most, limit)
  {
    match e
    case Push(src) => PushCalm(cfg, s, src, most, limit, atomic);
    case Begin(want) =>
      if s.control == Idle {
        LeavesCrest(cfg, |s.ring|, want, most, limit);
      }
    case Advance => AdvanceCalm(cfg, s, most, limit);
  }

  lemma {:induction false} CalmAlways(cfg: Config, events: seq<Event>, most: nat, limit: nat, atomic: bool)
    requires cfg.Valid() && Within(cfg, events, most, limit, atomic)
    requires limit > 0 && Bursts(limit, atomic) + Crest(cfg, most, limit) <= cfg.capacity
    ensures Calm(cfg, Run(cfg, events), most, limit)
  {
    if events != [] {
      var n := |events| - 1;
      CalmAlways(cfg, events[..n], most, limit, atomic);
      StepCalm(cfg, Run(cfg, events[..n]), events[n], most, limit, atomic);
    }
  }

  predicate Unoffered(s: State) { s.offered == [] == s.accepted && s.burst == 0 }

  lemma {:induction false} NothingOffered(cfg: Config, events: seq<Event>, most: nat, atomic: bool)
    requires cfg.Valid() && Within(cfg, events, most, 0, atomic)
    ensures Unoffered(Run(cfg, events))
  {
    if events != [] {
      var n := |events| - 1;
      NothingOffered(cfg, events[..n], most, atomic);
      StepUnoffered(cfg, Run(cfg, events[..n]), events[n], most, atomic);
    }
  }

  lemma StepUnoffered(cfg: Config, s: State, e: Event, most: nat, atomic: bool)
    requires cfg.Valid() && Unoffered(s) && Allowed(s, e, most, 0, atomic)
    ensures Unoffered(Step(cfg, s, e))
  {
  }

  // ------------------------------------------------------------ and it is needed

  lemma {:induction false} WithinWeaker(cfg: Config, events: seq<Event>, most: nat, limit: nat)
    requires cfg.Valid() && Within(cfg, events, most, limit, true)
    ensures Within(cfg, events, most, limit, false)
  {
    if events != [] {
      WithinWeaker(cfg, events[..|events| - 1], most, limit);
    }
  }

  lemma WithinMore(cfg: Config, events: seq<Event>, e: Event, most: nat, limit: nat, atomic: bool)
    requires cfg.Valid() && Within(cfg, events, most, limit, atomic)
    requires Allowed(Run(cfg, events), e, most, limit, atomic)
    ensures Within(cfg, events + [e], most, limit, atomic)
    ensures Run(cfg, events + [e]) == Step(cfg, Run(cfg, events), e)
  {
    StepAllSnoc(cfg, START, events, e);
    assert (events + [e])[..|events|] == events;
  }

  lemma DroppedUnlessFits(cfg: Config, s: State, src: Bytes)
    requires s.accepted == s.offered && |s.ring| <= cfg.capacity
    requires PushStep(cfg, s, src).accepted == PushStep(cfg, s, src).offered
    ensures |s.ring| + |src| <= cfg.capacity
  {
    var t := PushStep(cfg, s, src);
    assert |t.offered| == |s.offered| + |src|;
    assert |t.accepted| == |s.accepted| + Spsc.Room(cfg.capacity, |s.ring|, src);
  }

  /** Then wherever a run stands, the rest of a burst fits. */
  lemma BurstFits(cfg: Config, most: nat, limit: nat, atomic: bool, events: seq<Event>, src: Bytes)
    requires cfg.Valid() && NeverDrops(cfg, most, limit, atomic) && Within(cfg, events, most, limit, atomic)
    requires Allowed(Run(cfg, events), Push(src), most, limit, atomic)
    ensures |Run(cfg, events).ring| + |src| <= cfg.capacity
    ensures Within(cfg, events + [Push(src)], most, limit, atomic)
    ensures Run(cfg, events + [Push(src)]) == PushStep(cfg, Run(cfg, events), src)
  {
    WithinMore(cfg, events, Push(src), most, limit, atomic);
    assert NoDrop(cfg, events) && NoDrop(cfg, events + [Push(src)]);
    EveryByteAccountedFor(cfg, events);
    DroppedUnlessFits(cfg, Run(cfg, events), src);
  }

  /** A run within the limits that rests at depth `d`, ready for a full burst. */
  predicate RestsAt(cfg: Config, events: seq<Event>, most: nat, limit: nat, d: nat)
    requires cfg.Valid()
  {
    var s := Run(cfg, events);
    Within(cfg, events, most, limit, true) && s.control == Idle && s.burst == 0 && |s.ring| == d
  }

  lemma CallbackReads(cfg: Config, s: State, want: nat)
    requires cfg.Valid() && s.control == Idle && |s.ring| <= 2 * Max(cfg.Low(), want)
    ensures var t := AdvanceStep(AdvanceStep(BeginStep(cfg, s, want)));
            t.control == Idle && t.burst == 0 && |t.ring| == Max(0, |s.ring| - want)
  {
    ExcessBounds(cfg.Low(), cfg.stride, |s.ring|, want);
  }

  /** One push and one callback that does not trim. */
  lemma Round(cfg: Config, most: nat, limit: nat, events: seq<Event>, d: nat, src: Bytes, want: nat)
    returns (later: seq<Event>)
    requires cfg.Valid() && NeverDrops(cfg, most, limit, true) && RestsAt(cfg, events, most, limit, d)
    requires |src| <= limit && want <= most && d + |src| <= 2 * Max(cfg.Low(), want)
    ensures RestsAt(cfg, later, most, limit, Max(0, d + |src| - want))
  {
    BurstFits(cfg, most, limit, true, events, src);
    PushedWhole(cfg, Run(cfg, events), src);
    var e1 := events + [Push(src)];
    var e2 := e1 + [Begin(want)];
    var e3 := e2 + [Advance];
    WithinMore(cfg, e1, Begin(want), most, limit, true);
    WithinMore(cfg, e2, Advance, most, limit, true);
    WithinMore(cfg, e3, Advance, most, limit, true);
    CallbackReads(cfg, Run(cfg, e1), want);
    later := e3 + [Advance];
  }

  /** Any depth up to twice the target, byte by byte, with callbacks that want nothing. */
  lemma {:induction false} Fill(cfg: Config, most: nat, limit: nat, k: nat) returns (events: seq<Event>)
    requires cfg.Valid() && NeverDrops(cfg, most, limit, true) && limit > 0 && k <= 2 * cfg.Low()
    ensures RestsAt(cfg, events, most, limit, k)
  {
    if k == 0 {
      events := [];
    } else {
      events := Fill(cfg, most, limit, k - 1);
      events := Round(cfg, most, limit, events, k - 1, Zeros(1), 0);
    }
  }

  /** From there up, each time with the want that leaves half of what is sampled. */
  lemma {:induction false} Climb(cfg: Config, most: nat, limit: nat, events: seq<Event>, d: nat)
    returns (top: seq<Event>)
    requires cfg.Valid() && NeverDrops(cfg, most, limit, true) && limit > 0
    requires 2 * cfg.Low() <= d <= Min(most, limit - 1) && RestsAt(cfg, events, most, limit, d)
    ensures RestsAt(cfg, top, most, limit, Min(most, limit - 1))
    decreases limit - d
  {
    if d == Min(most, limit - 1) {
      top := events;
    } else {
      var depth := Min(d + limit, 2 * most);
      var want := (depth + 1) / 2;
      var later := Round(cfg, most, limit, events, d, Zeros(depth - d), want);
      top := Climb(cfg, most, limit, later, depth - want);
    }
  }

  /** A run that rests at the crest. */
  lemma ReachCrest(cfg: Config, most: nat, limit: nat) returns (events: seq<Event>)
    requires cfg.Valid() && NeverDrops(cfg, most, limit, true) && limit > 0
    ensures RestsAt(cfg, events, most, limit, Crest(cfg, most, limit))
  {
    events := Fill(cfg, most, limit, 2 * cfg.Low());
    if 2 * cfg.Low() <= Min(most, limit - 1) {
      events := Climb(cfg, most, limit, events, 2 * cfg.Low());
    }
  }

  /** A full burst, the sample of a callback, and another full burst before its skip. */
  lemma SecondBurst(cfg: Config, most: nat, limit: nat, events: seq<Event>, d: nat)
    requires cfg.Valid() && NeverDrops(cfg, most, limit, false) && RestsAt(cfg, events, most, limit, d)
    ensures d + 2 * limit <= cfg.capacity
  {
    var src := Zeros(limit);
    WithinWeaker(cfg, events, most, limit);
    BurstFits(cfg, most, limit, false, events, src);
    PushedWhole(cfg, Run(cfg, events), src);
    var pushed := events + [Push(src)];
    WithinMore(cfg, pushed, Begin(0), most, limit, false);
    BurstFits(cfg, most, limit, false, pushed + [Begin(0)], src);
  }

  lemma RoomNeeded(cfg: Config, most: nat, limit: nat, atomic: bool)
    requires cfg.Valid() && limit > 0 && NeverDrops(cfg, most, limit, atomic)
    ensures Bursts(limit, atomic) + Crest(cfg, most, limit) <= cfg.capacity
  {
    forall events | Within(cfg, events, most, limit, true) ensures NoDrop(cfg, events) {
      WithinWeaker(cfg, events, most, limit);
      assert Within(cfg, events, most, limit, atomic);
    }
    var events := ReachCrest(cfg, most, limit);
    if atomic {
      BurstFits(cfg, most, limit, true, events, Zeros(limit));
    } else {
      SecondBurst(cfg, most, limit, events, Crest(cfg, most, limit));
    }
  }

  /** With wants up to `most` and at most `limit` bytes between samples no byte is ever dropped exactly if,
      on top of the most a callback can leave, one burst fits, or two if `on_in` also pushes inside
      a callback: for a smaller ring there is a run that overflows it. */
  lemma NeverDropsIff(cfg: Config, most: nat, limit: nat, atomic: bool)
    requires cfg.Valid()
    ensures NeverDrops(cfg, most, limit, atomic)
            <==> limit == 0 || Bursts(limit, atomic) + Crest(cfg, most, limit) <= cfg.capacity
  {
    if limit == 0 {
      forall events | Within(cfg, events, most, limit, atomic) ensures NoDrop(cfg, events) {
        NothingOffered(cfg, events, most, atomic);
      }
    } else if Bursts(limit, atomic) + Crest(cfg, most, limit) <= cfg.capacity {
      forall events | Within(cfg, events, most, limit, atomic) ensures NoDrop(cfg, events) {
        CalmAlways(cfg, events, most, limit, atomic);
      }
    } else if NeverDrops(cfg, most, limit, atomic) {
      RoomNeeded(cfg, most, limit, atomic);
    }
  }
}
