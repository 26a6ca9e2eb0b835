/** The capture ring over whole runs: `on_in` pushes between any two ring accesses of the source
    callback. */
module MicRuns {
  import opened ByteSeqs
  import opened Ledger
  import opened MicSource
  import Spsc

  /** The tunables; one frame is `stride` bytes. */
  datatype Config = Config(capacity: nat, rate: nat, stride: nat, ms: nat) {
    predicate Valid() { stride > 0 }

    function Low(): nat { CapLow(rate, stride, ms) }
  }

  /** Where the source callback stands; `want` is what it is to serve. */
  datatype Control = Idle | AtSkip(excess: nat, want: nat) | AtRead(want: nat)

  datatype Event =
    | Push(src: Bytes)     // `on_in` pushes the PCM of a transfer
    | Begin(want: nat)     // the source callback starts and samples the depth
    | Advance              // its next ring access

  datatype State = State(
    ring: Bytes, control: Control,
    // history
    offered: Bytes,        // all `on_in` pushed
    accepted: Bytes,       // all of it the ring took
    log: seq<Use>,         // what became of it
    trimmed: bool,         // the running (or last) callback trimmed
    short: bool,           // a callback that trimmed got less than it wanted
    burst: nat)            // bytes offered since the last sample

  const START: State := State([], Idle, [], [], [], false, false, 0)

  function PushStep(cfg: Config, s: State, src: Bytes): State {
    s.(ring := Spsc.Pushed(cfg.capacity, s.ring, src), offered := s.offered + src,
       accepted := s.accepted + src[..Spsc.Room(cfg.capacity, |s.ring|, src)], burst := s.burst + |src|)
  }

  function BeginStep(cfg: Config, s: State, want: nat): State
    requires cfg.Valid()
  {
    if s.control != Idle then s
    else s.(control := AtSkip(Excess(cfg.Low(), cfg.stride, |s.ring|, want), want), trimmed := false, burst := 0)
  }

  function AdvanceStep(s: State): State {
    match s.control
    case Idle => s
    case AtSkip(excess, want) =>
      var n := Min(excess, |s.ring|);
      if excess == 0 then s.(control := AtRead(want))
      else s.(ring := s.ring[n..], control := AtRead(want), trimmed := true, log := s.log + [Discarded(s.ring[..n])])
    case AtRead(want) =>
      var n := Min(want, |s.ring|);
      s.(ring := s.ring[n..], control := Idle, log := s.log + [Played(s.ring[..n])],
         short := s.short || (s.trimmed && n < want))
  }

  function Step(cfg: Config, s: State, e: Event): State
    requires cfg.Valid()
  {
    match e
    case Push(src) => PushStep(cfg, s, src)
    case Begin(want) => BeginStep(cfg, s, want)
    case Advance => AdvanceStep(s)
  }

  function StepAll(cfg: Config, s: State, events: seq<Event>): State
    requires cfg.Valid()
  {
    if events == [] then s else Step(cfg, StepAll(cfg, s, events[..|events| - 1]), events[|events| - 1])
  }

  function Run(cfg: Config, events: seq<Event>): State
    requires cfg.Valid()
  {
    StepAll(cfg, START, events)
  }

  // ------------------------------------------------------------ conservation and order

  predicate Books(cfg: Config, s: State) {
    Balanced(s.accepted, s.log, s.ring) && |s.ring| <= cfg.capacity
  }

  lemma StepKeepsBooks(cfg: Config, s: State, e: Event)
    requires cfg.Valid() && Books(cfg, s)
    ensures Books(cfg, Step(cfg, s, e))
  {
    match e
    case Push(src) => BalancedAfterAccept(s.accepted, s.log, s.ring, src[..Spsc.Room(cfg.capacity, |s.ring|, src)]);
    case Begin(_) =>
    case Advance =>
      if s.control.AtSkip? {
        var n := Min(s.control.excess, |s.ring|);
        BalancedAfterUse(s.accepted, s.log, s.ring, n, Discarded(s.ring[..n]));
      } else if s.control.AtRead? {
        var n := Min(s.control.want, |s.ring|);
        BalancedAfterUse(s.accepted, s.log, s.ring, n, Played(s.ring[..n]));
      }
  }

  /** In every run the bytes served, the bytes trimmed and the bytes in the ring, in this order, are the
      bytes the ring accepted. */
  lemma {:induction false} EveryByteAccountedFor(cfg: Config, events: seq<Event>)
    requires cfg.Valid()
    ensures Books(cfg, Run(cfg, events))
  {
    if events != [] {
      EveryByteAccountedFor(cfg, events[..|events| - 1]);
      StepKeepsBooks(cfg, Run(cfg, events[..|events| - 1]), events[|events| - 1]);
    }
  }

  /** While nobody listens the ring keeps the oldest bytes that fit, however long that lasts: the delay
      the trim is there for. */
  lemma {:induction false} UnreadKeepsOldest(cfg: Config, events: seq<Event>)
    requires cfg.Valid() && forall i :: 0 <= i < |events| ==> !events[i].Begin?
    ensures var s := Run(cfg, events);
            s.control == Idle && s.log == [] && s.ring == s.offered[..Min(cfg.capacity, |s.offered|)]
  {
    if events != [] {
      var s, e := Run(cfg, events[..|events| - 1]), events[|events| - 1];
      UnreadKeepsOldest(cfg, events[..|events| - 1]);
      if e.Push? {
        var none: Bytes := [];
        Spsc.PushesMerge(cfg.capacity, none, s.offered, e.src);
      }
    }
  }

  // ------------------------------------------------------------ trimming and starvation

  /** A pending trim leaves all that is wanted. */
  predicate Fed(s: State) {
    && !s.short
    && match s.control
       case Idle => true
       case AtSkip(excess, want) => !s.trimmed && (excess > 0 ==> |s.ring| >= excess + want)
       case AtRead(want) => s.trimmed ==> |s.ring| >= want
  }

  lemma StepKeepsFed(cfg: Config, s: State, e: Event)
    requires cfg.Valid() && Fed(s)
    ensures Fed(Step(cfg, s, e))
  {
    if e.Begin? && s.control == Idle {
      ExcessBounds(cfg.Low(), cfg.stride, |s.ring|, e.want);
    }
  }

  /** In no run does a callback that trimmed serve less than is wanted. */
  lemma {:induction false} TrimNeverStarves(cfg: Config, events: seq<Event>)
    requires cfg.Valid()
    ensures Fed(Run(cfg, events))
  {
    if events != [] {
      TrimNeverStarves(cfg, events[..|events| - 1]);
      StepKeepsFed(cfg, Run(cfg, events[..|events| - 1]), events[|events| - 1]);
    }
  }

  // ------------------------------------------------------------ depth and overflow

  /** Wants stay within `most`, and at most `limit` bytes come in between two samples; with `atomic`,
      none within a callback. */
  predicate Allowed(s: State, e: Event, most: nat, limit: nat, atomic: bool) {
    match e
    case Push(src) => s.burst + |src| <= limit && (atomic ==> s.control == Idle)
    case Begin(want) => want <= most
    case Advance => true
  }

  predicate Within(cfg: Config, events: seq<Event>, most: nat, limit: nat, atomic: bool)
    requires cfg.Valid()
  {
    events == [] ||
    (var n := |events| - 1;
     Within(cfg, events[..n], most, limit, atomic) && Allowed(Run(cfg, events[..n]), events[n], most, limit, atomic))
  }

  /** Twice the latency target, or twice the largest want. */
  function Mark(cfg: Config, most: nat): nat { 2 * Max(cfg.Low(), most) }

  /** How deep the ring can be, and that nothing was dropped so far. */
  predicate Shallow(cfg: Config, s: State, most: nat, limit: nat) {
    && s.accepted == s.offered && s.burst <= limit
    && match s.control
       case AtSkip(excess, _) =>
         |s.ring| <= Mark(cfg, most) + limit + s.burst && |s.ring| <= Mark(cfg, most) + excess + s.burst
       case _ => |s.ring| <= Mark(cfg, most) + s.burst
  }

  lemma PushStaysShallow(cfg: Config, s: State, src: Bytes, most: nat, limit: nat, atomic: bool)
    requires Shallow(cfg, s, most, limit) && Allowed(s, Push(src), most, limit, atomic)
    requires Mark(cfg, most) + (if atomic then limit else 2 * limit) <= cfg.capacity
    ensures Shallow(cfg, PushStep(cfg, s, src), most, limit)
  {
    assert Spsc.Room(cfg.capacity, |s.ring|, src) == |src|;
    assert src[..|src|] == src;
  }

  lemma StepStaysShallow(cfg: Config, s: State, e: Event, most: nat, limit: nat)
    requires cfg.Valid() && Shallow(cfg, s, most, limit) && !e.Push? && Allowed(s, e, most, limit, false)
    ensures Shallow(cfg, Step(cfg, s, e), most, limit)
  {
    if e.Begin? && s.control == Idle {
      ExcessBounds(cfg.Low(), cfg.stride, |s.ring|, e.want);
    }
  }

  /** Overflow freedom and bounded delay: if the source is served at all, with at most `limit` bytes in
      between, the depth stays within the mark plus what came in since the last sample, and a ring with
      room for the mark and two bursts (one, with atomic callbacks) never drops a byte. */
  lemma {:induction false} NeverOverflows(cfg: Config, events: seq<Event>, most: nat, limit: nat, atomic: bool)
    requires cfg.Valid() && Within(cfg, events, most, limit, atomic)
    requires Mark(cfg, most) + (if atomic then limit else 2 * limit) <= cfg.capacity
    ensures Shallow(cfg, Run(cfg, events), most, limit)
  {
    if events != [] {
      var n := |events| - 1;
      var s, e := Run(cfg, events[..n]), events[n];
      NeverOverflows(cfg, events[..n], most, limit, atomic);
      if e.Push? {
        PushStaysShallow(cfg, s, e.src, most, limit, atomic);
      } else {
        StepStaysShallow(cfg, s, e, most, limit);
      }
    }
  }

  // ------------------------------------------------------------ samples stay whole

  predicate EvenEvent(e: Event) {
    match e
    case Push(src) => Even(|src|)
    case Begin(want) => Even(want)
    case Advance => true
  }

  predicate AllEven(log: seq<Use>) { forall i :: 0 <= i < |log| ==> Even(|log[i].data|) }

  predicate Whole(cfg: Config, s: State) {
    && Even(|s.ring|) && |s.ring| <= cfg.capacity && AllEven(s.log)
    && match s.control
       case Idle => true
       case AtSkip(excess, want) => Even(excess) && Even(want)
       case AtRead(want) => Even(want)
  }

  lemma StepKeepsWhole(cfg: Config, s: State, e: Event)
    requires cfg.Valid() && cfg.stride == 2 && Even(cfg.capacity) && Whole(cfg, s) && EvenEvent(e)
    ensures Whole(cfg, Step(cfg, s, e))
  {
    match e
    case Push(src) => PushedEven(cfg.capacity, s.ring, src);
    case Begin(want) => ExcessEven(cfg.Low(), |s.ring|, want);
    case Advance =>
      if s.control.AtSkip? {
        EvenDifference(|s.ring|, Min(s.control.excess, |s.ring|));
      } else if s.control.AtRead? {
        EvenDifference(|s.ring|, Min(s.control.want, |s.ring|));
      }
  }

  lemma {:induction false} WholeAlways(cfg: Config, events: seq<Event>)
    requires cfg.Valid() && cfg.stride == 2 && Even(cfg.capacity)
    requires forall i :: 0 <= i < |events| ==> EvenEvent(events[i])
    ensures Whole(cfg, Run(cfg, events))
  {
    if events != [] {
      WholeAlways(cfg, events[..|events| - 1]);
      StepKeepsWhole(cfg, Run(cfg, events[..|events| - 1]), events[|events| - 1]);
    }
  }

  lemma {:induction false} StartsEven(log: seq<Use>, i: nat)
    requires AllEven(log) && i <= |log|
    ensures Even(Offset(log, i))
  {
    if i > 0 {
      StartsEven(log, i - 1);
      assert log[..i][..i - 1] == log[..i - 1];
      EvenSum(Offset(log, i - 1), |log[i - 1].data|);
    }
  }

  /** In every run each piece served or trimmed is a whole number of 2-byte samples that starts on a
      sample boundary of the accepted stream: low bytes stay low bytes. */
  lemma SamplesStayWhole(cfg: Config, events: seq<Event>, i: nat)
    requires cfg.Valid() && cfg.stride == 2 && Even(cfg.capacity)
    requires forall i :: 0 <= i < |events| ==> EvenEvent(events[i])
    requires i < |Run(cfg, events).log|
    ensures var s := Run(cfg, events);
            && Even(Offset(s.log, i)) && Even(|s.log[i].data|)
            && Offset(s.log, i) + |s.log[i].data| <= |s.accepted|
            && s.accepted[Offset(s.log, i)..Offset(s.log, i) + |s.log[i].data|] == s.log[i].data
  {
    WholeAlways(cfg, events);
    EveryByteAccountedFor(cfg, events);
    StartsEven(Run(cfg, events).log, i);
    EntryIsContiguous(Run(cfg, events).accepted, Run(cfg, events).log, Run(cfg, events).ring, i);
  }

  // ------------------------------------------------------------ the callback is a run

  lemma StepAllSnoc(cfg: Config, s: State, events: seq<Event>, e: Event)
    requires cfg.Valid()
    ensures StepAll(cfg, s, events + [e]) == Step(cfg, StepAll(cfg, s, events), e)
  {
    assert (events + [e])[..|events|] == events;
  }

  /** The entry of a trim, if there was one. */
  function Trim(skipped: Bytes): seq<Use> { if skipped == [] then [] else [Discarded(skipped)] }

  /** The events of one callback with the pushes of `on_in` in between. */
  function Callback(want: nat, env: seq<Bytes>): seq<Event>
    requires |env| == 3
  {
    [Push(env[0])] + [Begin(want)] + [Push(env[1])] + [Advance] + [Push(env[2])] + [Advance]
  }

  /** The callback left `t` of `s`: what `Serve` says, booked. */
  predicate ServedFrom(cfg: Config, s: State, t: State, want: nat, env: seq<Bytes>)
    requires cfg.Valid() && |env| == 3
  {
    var served := Serve(cfg.capacity, cfg.Low(), cfg.stride, s.ring, want, env);
    && t.control == Idle && t.ring == served.left
    && t.log == s.log + Trim(served.skipped) + [Played(served.got)]
    && t.accepted == s.accepted + Added(cfg.capacity, cfg.Low(), cfg.stride, s.ring, want, env)
    && t.offered == s.offered + env[0] + env[1] + env[2]
  }

  /** The effect `MicSource.Process` is proved to have is that of these events. */
  lemma CallbackIsRun(cfg: Config, s: State, want: nat, env: seq<Bytes>)
    requires cfg.Valid() && s.control == Idle && |env| == 3
    ensures ServedFrom(cfg, s, StepAll(cfg, s, Callback(want, env)), want, env)
  {
    var none: seq<Event> := [];
    var e1, e2 := [Push(env[0])], [Push(env[0])] + [Begin(want)];
    var e3, e4 := e2 + [Push(env[1])], e2 + [Push(env[1])] + [Advance];
    assert none + e1 == e1;
    StepAllSnoc(cfg, s, none, Push(env[0]));
    StepAllSnoc(cfg, s, e1, Begin(want));
    StepAllSnoc(cfg, s, e2, Push(env[1]));
    StepAllSnoc(cfg, s, e3, Advance);
    StepAllSnoc(cfg, s, e4, Push(env[2]));
    StepAllSnoc(cfg, s, e4 + [Push(env[2])], Advance);
    CallbackSteps(cfg, s, want, env);
  }

  /** A push and then the skip. */
  lemma SkipStage(cfg: Config, s: State, src: Bytes)
    requires s.control.AtSkip? && s.control.excess <= |s.ring|
    ensures var t, later := AdvanceStep(PushStep(cfg, s, src)), Spsc.Pushed(cfg.capacity, s.ring, src);
            && t.control == AtRead(s.control.want) && t.ring == later[s.control.excess..]
            && t.log == s.log + Trim(later[..s.control.excess])
            && t.accepted == s.accepted + src[..Spsc.Room(cfg.capacity, |s.ring|, src)]
            && t.offered == s.offered + src
  {
    var later := Spsc.Pushed(cfg.capacity, s.ring, src);
    assert later[0..] == later && s.log + [] == s.log;
  }

  /** A push and then the read. */
  lemma ReadStage(cfg: Config, s: State, src: Bytes)
    requires s.control.AtRead?
    ensures var t, kept := AdvanceStep(PushStep(cfg, s, src)), Spsc.Pushed(cfg.capacity, s.ring, src);
            var n := Min(s.control.want, |kept|);
            && t.control == Idle && t.ring == kept[n..] && t.log == s.log + [Played(kept[..n])]
            && t.accepted == s.accepted + src[..Spsc.Room(cfg.capacity, |s.ring|, src)]
            && t.offered == s.offered + src
  {
  }

  lemma CallbackSteps(cfg: Config, s: State, want: nat, env: seq<Bytes>)
    requires cfg.Valid() && s.control == Idle && |env| == 3
    ensures var a := BeginStep(cfg, PushStep(cfg, s, env[0]), want);
            var t := AdvanceStep(PushStep(cfg, AdvanceStep(PushStep(cfg, a, env[1])), env[2]));
            ServedFrom(cfg, s, t, want, env)
  {
    var a := BeginStep(cfg, PushStep(cfg, s, env[0]), want);
    SkipStage(cfg, a, env[1]);
    var b := AdvanceStep(PushStep(cfg, a, env[1]));
    ReadStage(cfg, b, env[2]);
    var a0 := env[0][..Spsc.Room(cfg.capacity, |s.ring|, env[0])];
    var a1 := env[1][..Spsc.Room(cfg.capacity, |a.ring|, env[1])];
    var a2 := env[2][..Spsc.Room(cfg.capacity, |b.ring|, env[2])];
    Assoc(s.accepted, a0, a1);
    Assoc(s.accepted, a0 + a1, a2);
  }
}
