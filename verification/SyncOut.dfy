/** The synchronous playback fallback of gip_init.py, `stream_audio_out`, over the drop-oldest ring. */
module SyncOut {
  import opened ByteSeqs
  import opened Gip
  import opened Ledger
  import opened BoundedQueue
  import opened CRing
  import IsoOut

  const PRIME_BYTES: nat := 3840

  datatype WriteResult = Ok | Timeout | Error

  /** One turn of the loop: what the sink thread pushes before and after the fill level is read, and
      how the write on the endpoint ends. */
  datatype TurnIn = TurnIn(before: Bytes, between: Bytes, result: WriteResult)

  datatype State = State(
    queue: Bytes, outSeq: byte, primed: bool, pending: Option<Bytes>, errors: nat, stopped: bool,
    // history
    attempts: seq<Bytes>,   // every write on the endpoint
    of: seq<nat>,           // the number of the packet each attempt carries
    results: seq<WriteResult>,   // how each attempt ended
    resolved: seq<Bytes>,   // packets written or given up, in order
    fills: seq<nat>,        // the fill level sampled for each packet made
    written: Bytes,         // all the sink pushed
    log: seq<Use>)          // what became of it; silence is an empty `Played`

  function Init(queue: Bytes): State {
    State(queue, 1, false, None, 0, false, [], [], [], [], [], queue, [])
  }

  function SinkStep(s: State, src: Bytes): State {
    s.(queue := Pushed(RING_CAP, s.queue, src), written := s.written + src,
       log := if src == [] then s.log
              else s.log + [Discarded((s.queue + src)[..Overflow(RING_CAP, s.queue, src)])])
  }

  /** Frames the next packet with the next sequence number; `fill` is the level sampled for it. */
  function FrameStep(s: State, pcm: Bytes, fill: nat): State
    requires |pcm| <= 192
  {
    s.(pending := Some(IsoOut.Frame(s.outSeq, pcm)), outSeq := SeqAfter(s.outSeq),
       log := s.log + [Played(pcm)], fills := s.fills + [fill])
  }

  /** Makes the pending packet if there is none: silence until primed, then whole packets of PCM, or
      silence for a dip. */
  function PrepareStep(bridge: bool, s: State, t: TurnIn): State {
    if !bridge then
      if s.pending.Some? then s else FrameStep(s, [], 0)
    else if s.pending.Some? then SinkStep(SinkStep(s, t.before), t.between)
    else
      var s1 := SinkStep(s, t.before);
      var s2, fill := SinkStep(s1, t.between), |s1.queue|;
      if !s1.primed then FrameStep(s2.(primed := fill >= 3840), [], fill)
      else if fill >= 192 then
        FrameStep(s2.(queue := Remaining(s2.queue, 192)), Taken(s2.queue, 192), fill)
      else FrameStep(s2, [], fill)
  }

  /** One write of the pending packet: a timeout keeps it, success and error let it go. */
  function WriteStep(s: State, result: WriteResult): State
    requires s.pending.Some?
  {
    var tried := s.(attempts := s.attempts + [s.pending.value], of := s.of + [|s.resolved|],
                    results := s.results + [result]);
    match result
    case Timeout => tried
    case Ok => tried.(resolved := s.resolved + [s.pending.value], pending := None, errors := 0)
    case Error =>
      tried.(resolved := s.resolved + [s.pending.value], pending := None, errors := s.errors + 1,
             stopped := s.errors + 1 > 100)
  }

  function Turned(bridge: bool, s: State, t: TurnIn): State {
    if s.stopped then s else WriteStep(PrepareStep(bridge, s, t), t.result)
  }

  function Run(bridge: bool, queue: Bytes, turns: seq<TurnIn>): State {
    if turns == [] then Init(queue)
    else Turned(bridge, Run(bridge, queue, turns[..|turns| - 1]), turns[|turns| - 1])
  }

  // ------------------------------------------------------------ exactly once

  /** Every packet made so far. */
  function Made(s: State): seq<Bytes> {
    if s.pending.Some? then s.resolved + [s.pending.value] else s.resolved
  }

  predicate FullOrSilent(pcm: Bytes) { |pcm| == 192 || pcm == [] }

  /** Packet `k` carries sequence number `SeqAt(k)` and PCM number `k`, whole or silent, and the books
      of the ring balance. */
  ghost predicate Numbered(s: State) {
    && |s.queue| <= RING_CAP
    && Balanced(s.written, s.log, s.queue)
    && s.outSeq == SeqAt(|Made(s)|)
    && |PlayedOf(s.log)| == |Made(s)|
    && forall k :: 0 <= k < |Made(s)| ==>
         FullOrSilent(PlayedOf(s.log)[k]) && Made(s)[k] == IsoOut.Frame(SeqAt(k), PlayedOf(s.log)[k])
  }

  /** The packet number behind an attempt at number `n`. */
  function NextNumber(n: nat, r: WriteResult): nat { if r.Timeout? then n else n + 1 }

  /** Attempts are numbered from 0 on; a timeout repeats the number and anything else takes the next. */
  predicate Chain(of: seq<nat>, results: seq<WriteResult>) {
    && |of| == |results|
    && (of != [] ==> of[0] == 0)
    && forall j :: 0 < j < |of| ==> of[j] == NextNumber(of[j - 1], results[j - 1])
  }

  /** The number of the attempt to come. */
  function Upcoming(of: seq<nat>, results: seq<WriteResult>): nat
    requires |of| == |results|
  {
    if of == [] then 0 else NextNumber(of[|of| - 1], results[|of| - 1])
  }

  /** Every attempt writes the packet it is numbered with, and the attempt behind it writes the same
      packet again exactly after a timeout. */
  predicate OnceEach(s: State) {
    && Chain(s.of, s.results) && |s.attempts| == |s.of|
    && |s.resolved| == Upcoming(s.of, s.results)
    && (forall j :: 0 <= j < |s.of| ==> s.of[j] < |Made(s)| && s.attempts[j] == Made(s)[s.of[j]])
  }

  /** A packet is pending between turns exactly after a timeout. */
  predicate Settled(s: State) {
    s.pending.Some? <==> s.results != [] && s.results[|s.results| - 1].Timeout?
  }

  /** A sample before number `k` found the prime depth. */
  ghost predicate PrimedBefore(fills: seq<nat>, k: nat) {
    exists i :: 0 <= i < k && i < |fills| && fills[i] >= 3840
  }

  /** Packet `k` holds PCM exactly if a sample before it found the prime depth and its own sample
      found a whole packet. */
  ghost predicate FedBySample(s: State) {
    && |s.fills| == |PlayedOf(s.log)|
    && (s.primed <==> PrimedBefore(s.fills, |s.fills|))
    && forall k :: 0 <= k < |s.fills| ==>
         (PlayedOf(s.log)[k] != [] <==> s.fills[k] >= 192 && PrimedBefore(s.fills, k))
  }

  lemma SinkKeeps(s: State, src: Bytes)
    requires Numbered(s)
    ensures Numbered(SinkStep(s, src))
    ensures |SinkStep(s, src).queue| >= |s.queue|
  {
    WriteNeverLowers(RING_CAP, s.queue, src);
    if src == [] {
      assert s.queue + src == s.queue && s.written + src == s.written;
      assert Pushed(RING_CAP, s.queue, src) == s.queue;
    } else {
      var n := Overflow(RING_CAP, s.queue, src);
      BalancedAfterAccept(s.written, s.log, s.queue, src);
      BalancedAfterUse(s.written + src, s.log, s.queue + src, n, Discarded((s.queue + src)[..n]));
      Snoc(s.log, Discarded((s.queue + src)[..n]));
    }
  }

  lemma FrameKeeps(s: State, n: nat, fill: nat)
    requires Numbered(s) && s.pending.None? && n <= |s.queue| && (n == 0 || n == 192)
    ensures Numbered(FrameStep(s.(queue := s.queue[n..]), s.queue[..n], fill))
  {
    var pcm := s.queue[..n];
    BalancedAfterUse(s.written, s.log, s.queue, n, Played(pcm));
    Snoc(s.log, Played(pcm));
    SeqAfterCycles(|s.resolved|);
  }

  /** The read behind the check of the fill level always gets its 192 bytes and takes them off the
      ring, since pushes in between can only push out older bytes, never lower the fill level. */
  lemma PrepareKeeps(bridge: bool, s: State, t: TurnIn)
    requires Numbered(s)
    ensures var p := PrepareStep(bridge, s, t);
            && Numbered(p) && p.pending.Some? && p.resolved == s.resolved
            && p.attempts == s.attempts && p.of == s.of && p.results == s.results
            && (s.pending.Some? ==> p.pending == s.pending)
    ensures var p, s1 := PrepareStep(bridge, s, t), SinkStep(s, t.before);
            var s2 := SinkStep(s1, t.between);
            bridge && s.pending.None? && s.primed && |s1.queue| >= 192 ==>
              |Taken(s2.queue, 192)| == 192 && p.log == s2.log + [Played(Taken(s2.queue, 192))]
              && |p.queue| == |s2.queue| - 192
  {
    var s1 := SinkStep(s, t.before);
    var s2 := SinkStep(s1, t.between);
    SinkKeeps(s, t.before);
    SinkKeeps(s1, t.between);
    if s.pending.None? {
      if !bridge {
        SilenceKeeps(s, 0);
      } else if s1.primed && |s1.queue| >= 192 {
        FrameKeeps(s2, 192, |s1.queue|);
      } else {
        SilenceKeeps(s2.(primed := s1.primed || |s1.queue| >= 3840), |s1.queue|);
      }
    }
  }

  lemma SilenceKeeps(s: State, fill: nat)
    requires Numbered(s) && s.pending.None?
    ensures Numbered(FrameStep(s, [], fill))
  {
    FrameKeeps(s, 0, fill);
    assert s.queue[..0] == [] && s.queue[0..] == s.queue;
  }

  lemma NumberedSame(s: State, t: State)
    requires Numbered(s) && Made(t) == Made(s)
    requires t.queue == s.queue && t.written == s.written && t.log == s.log && t.outSeq == s.outSeq
    ensures Numbered(t)
  {
  }

  lemma ChainGrows(of: seq<nat>, results: seq<WriteResult>, r: WriteResult)
    requires Chain(of, results)
    ensures Chain(of + [Upcoming(of, results)], results + [r])
    ensures Upcoming(of + [Upcoming(of, results)], results + [r]) == NextNumber(Upcoming(of, results), r)
  {
  }

  lemma WriteKeeps(s: State, result: WriteResult)
    requires s.pending.Some? && OnceEach(s) && Numbered(s)
    ensures var u := WriteStep(s, result); OnceEach(u) && Numbered(u) && Settled(u)
  {
    var u := WriteStep(s, result);
    ChainGrows(s.of, s.results, result);
    assert Made(u) == Made(s);
    NumberedSame(s, u);
    assert Made(s)[|s.resolved|] == s.pending.value;
    forall j | 0 <= j < |u.of| ensures u.of[j] < |Made(u)| && u.attempts[j] == Made(u)[u.of[j]] {
      if j < |s.of| {
        assert u.of[j] == s.of[j] && u.attempts[j] == s.attempts[j];
      }
    }
  }

  lemma MadeGrows(s: State, p: State)
    requires OnceEach(s) && p.pending.Some? && p.resolved == s.resolved && p.results == s.results
    requires p.attempts == s.attempts && p.of == s.of && (s.pending.Some? ==> p.pending == s.pending)
    ensures OnceEach(p)
  {
    forall j | 0 <= j < |p.of| ensures p.of[j] < |Made(p)| && p.attempts[j] == Made(p)[p.of[j]] {
      assert s.of[j] < |Made(s)| && s.attempts[j] == Made(s)[s.of[j]];
    }
  }

  lemma TurnKeeps(bridge: bool, s: State, t: TurnIn)
    requires Numbered(s) && OnceEach(s) && Settled(s)
    ensures var u := Turned(bridge, s, t); Numbered(u) && OnceEach(u) && Settled(u)
  {
    if !s.stopped {
      PrepareKeeps(bridge, s, t);
      MadeGrows(s, PrepareStep(bridge, s, t));
      WriteKeeps(PrepareStep(bridge, s, t), t.result);
    }
  }

  /** Exactly once: in every run, for every pattern of timeouts and errors, the packets are numbered
      1, 2, .., 255, 1, .. without gap or repetition, a timeout resends identical bytes, anything else
      goes on to the next packet, and the PCM in the packets is what left the ring, in order. */
  lemma {:induction false} ExactlyOnce(bridge: bool, queue: Bytes, turns: seq<TurnIn>)
    requires |queue| <= RING_CAP
    ensures var s := Run(bridge, queue, turns); Numbered(s) && OnceEach(s) && Settled(s)
  {
    if turns == [] {
      assert [] + queue == queue;
    } else {
      ExactlyOnce(bridge, queue, turns[..|turns| - 1]);
      TurnKeeps(bridge, Run(bridge, queue, turns[..|turns| - 1]), turns[|turns| - 1]);
    }
  }

  /** Two attempts carry the same packet exactly if every attempt from the first up to the second ran
      into a timeout: nothing is written again after a success or an error. */
  lemma {:induction false} WrittenAgainIff(of: seq<nat>, results: seq<WriteResult>, i: nat, j: nat)
    requires Chain(of, results) && i <= j < |of|
    ensures of[i] <= of[j]
    ensures of[i] == of[j] <==> forall k :: i <= k < j ==> results[k].Timeout?
    decreases j - i
  {
    if i < j {
      WrittenAgainIff(of, results, i, j - 1);
    }
  }

  /** No packet is skipped: each one below the next number has its attempt, the last of which did not
      time out. */
  lemma {:induction false} EachResolved(of: seq<nat>, results: seq<WriteResult>, k: nat) returns (j: nat)
    requires Chain(of, results) && k < Upcoming(of, results)
    ensures j < |of| && of[j] == k && !results[j].Timeout?
    decreases |of|
  {
    var n := |of| - 1;
    if of[n] == k {
      j := n;
    } else {
      assert n > 0 && Upcoming(of[..n], results[..n]) == of[n];
      j := EachResolved(of[..n], results[..n], k);
    }
  }

  /** So every number up to the last tried occurs. */
  lemma EachAttempted(s: State, k: nat)
    requires OnceEach(s) && s.of != [] && k <= s.of[|s.of| - 1]
    ensures k in s.of
  {
    if k < s.of[|s.of| - 1] {
      var j := EachResolved(s.of, s.results, k);
    }
  }

  // ------------------------------------------------------------ results and the end of the loop

  /** Errors since the last success; timeouts do not count and do not reset. */
  function ErrorsInARow(results: seq<WriteResult>): nat {
    if results == [] then 0
    else
      var front, r := ErrorsInARow(results[..|results| - 1]), results[|results| - 1];
      if r.Ok? then 0 else if r.Error? then front + 1 else front
  }

  /** The attempts ended as the turns say, one attempt to a turn. */
  predicate EndedAs(results: seq<WriteResult>, turns: seq<TurnIn>) {
    |results| <= |turns| && forall j :: 0 <= j < |results| ==> results[j] == turns[j].result
  }

  lemma EndedLater(results: seq<WriteResult>, turns: seq<TurnIn>, t: TurnIn)
    requires EndedAs(results, turns)
    ensures EndedAs(results, turns + [t])
  {
  }

  lemma EndedMore(results: seq<WriteResult>, turns: seq<TurnIn>, t: TurnIn)
    requires EndedAs(results, turns) && |results| == |turns|
    ensures EndedAs(results + [t.result], turns + [t])
  {
  }

  lemma PrepareLeaves(bridge: bool, s: State, t: TurnIn)
    ensures var p := PrepareStep(bridge, s, t);
            p.results == s.results && p.errors == s.errors && p.stopped == s.stopped && p.attempts == s.attempts
            && p.pending.Some?
  {
  }

  /** The loop gives up exactly with the 101st error since a success; until then turn `j` is attempt
      `j`. */
  lemma {:induction false} StopsIff(bridge: bool, queue: Bytes, turns: seq<TurnIn>)
    ensures var s := Run(bridge, queue, turns);
            && EndedAs(s.results, turns) && s.errors == ErrorsInARow(s.results)
            && (s.stopped <==> s.errors > 100)
            && (!s.stopped ==> |s.results| == |turns|)
  {
    if turns != [] {
      var front, t := turns[..|turns| - 1], turns[|turns| - 1];
      var s := Run(bridge, queue, front);
      StopsIff(bridge, queue, front);
      if s.stopped {
        EndedLater(s.results, front, t);
      } else {
        PrepareLeaves(bridge, s, t);
        StopStep(PrepareStep(bridge, s, t), t.result);
        EndedMore(s.results, front, t);
      }
      assert turns == front + [t];
    }
  }

  lemma StopStep(p: State, r: WriteResult)
    requires p.pending.Some? && p.errors == ErrorsInARow(p.results) <= 100 && !p.stopped
    ensures var u := WriteStep(p, r);
            && u.errors == ErrorsInARow(u.results) && (u.stopped <==> u.errors > 100)
            && u.results == p.results + [r]
  {
    assert (p.results + [r])[..|p.results|] == p.results;
  }

  // ------------------------------------------------------------ silence

  lemma SampleAdded(fills: seq<nat>, fill: nat, k: nat)
    ensures k <= |fills| ==> (PrimedBefore(fills + [fill], k) <==> PrimedBefore(fills, k))
    ensures PrimedBefore(fills + [fill], |fills| + 1) <==> PrimedBefore(fills, |fills|) || fill >= 3840
  {
    var more := fills + [fill];
    forall i | 0 <= i < |fills| ensures more[i] == fills[i] {
    }
    assert more[|fills|] == fill;
  }

  lemma FrameFed(s: State, pcm: Bytes, fill: nat, primed: bool)
    requires FedBySample(s) && |pcm| <= 192
    requires pcm != [] <==> s.primed && fill >= 192
    requires primed <==> s.primed || fill >= 3840
    ensures FedBySample(FrameStep(s.(primed := primed), pcm, fill))
  {
    var u := FrameStep(s.(primed := primed), pcm, fill);
    Snoc(s.log, Played(pcm));
    SampleAdded(s.fills, fill, |s.fills|);
    forall k | 0 <= k < |u.fills|
      ensures PlayedOf(u.log)[k] != [] <==> u.fills[k] >= 192 && PrimedBefore(u.fills, k)
    {
      SampleAdded(s.fills, fill, k);
    }
  }

  lemma SinkFed(s: State, src: Bytes)
    requires FedBySample(s)
    ensures FedBySample(SinkStep(s, src))
  {
    if src != [] {
      Snoc(s.log, Discarded((s.queue + src)[..Overflow(RING_CAP, s.queue, src)]));
    }
  }

  lemma FedSame(s: State, t: State)
    requires FedBySample(s) && t.fills == s.fills && t.log == s.log && t.primed == s.primed
    ensures FedBySample(t)
  {
  }

  lemma PrepareFed(bridge: bool, s: State, t: TurnIn)
    requires Numbered(s) && FedBySample(s) && (!bridge ==> !s.primed)
    requires |SinkStep(s, t.before).queue| >= 192 ==> |SinkStep(SinkStep(s, t.before), t.between).queue| >= 192
    ensures FedBySample(PrepareStep(bridge, s, t)) && (!bridge ==> !PrepareStep(bridge, s, t).primed)
  {
    var s1 := SinkStep(s, t.before);
    var s2, fill := SinkStep(s1, t.between), |s1.queue|;
    SinkFed(s, t.before);
    SinkFed(s1, t.between);
    if s.pending.None? {
      if !bridge {
        FrameFed(s, [], 0, false);
      } else if !s1.primed {
        FrameFed(s2, [], fill, fill >= 3840);
      } else if fill >= 192 {
        var rest := s2.(queue := Remaining(s2.queue, 192));
        FedSame(s2, rest);
        FrameFed(rest, Taken(s2.queue, 192), fill, true);
      } else {
        FrameFed(s2, [], fill, true);
      }
    }
  }

  lemma WriteFed(p: State, r: WriteResult)
    requires p.pending.Some? && FedBySample(p)
    ensures FedBySample(WriteStep(p, r)) && WriteStep(p, r).primed == p.primed
  {
    FedSame(p, WriteStep(p, r));
  }

  lemma FillHolds(s: State, t: TurnIn)
    requires Numbered(s)
    ensures |SinkStep(SinkStep(s, t.before), t.between).queue| >= |SinkStep(s, t.before).queue|
  {
    SinkKeeps(s, t.before);
    SinkKeeps(SinkStep(s, t.before), t.between);
  }

  lemma FedStep(bridge: bool, s: State, t: TurnIn)
    requires Numbered(s) && FedBySample(s) && (!bridge ==> !s.primed) && !s.stopped
    ensures FedBySample(Turned(bridge, s, t)) && (!bridge ==> !Turned(bridge, s, t).primed)
  {
    FillHolds(s, t);
    PrepareFed(bridge, s, t);
    var p := PrepareStep(bridge, s, t);
    assert p.pending.Some?;
    WriteFed(p, t.result);
    assert Turned(bridge, s, t) == WriteStep(p, t.result);
  }

  /** In every run a packet is silent exactly if no earlier sample had found the prime depth yet, or
      its own sample found less than a packet. */
  lemma {:induction false} SilentExactly(bridge: bool, queue: Bytes, turns: seq<TurnIn>)
    requires |queue| <= RING_CAP
    ensures FedBySample(Run(bridge, queue, turns)) && (!bridge ==> !Run(bridge, queue, turns).primed)
  {
    if turns != [] {
      var front, t := turns[..|turns| - 1], turns[|turns| - 1];
      SilentExactly(bridge, queue, front);
      ExactlyOnce(bridge, queue, front);
      if !Run(bridge, queue, front).stopped {
        FedStep(bridge, Run(bridge, queue, front), t);
      }
    }
  }

  // ------------------------------------------------------------ priming, from the ring itself

  /** How many bytes the queue holds behind the first push of a turn. */
  function Level(s: State, t: TurnIn): nat { Min(RING_CAP, |s.queue| + |t.before|) }

  /** The bytes in the queue when the packet of a turn reads: the newest of all that was there. */
  function Queued(s: State, t: TurnIn): Bytes {
    Pushed(RING_CAP, Pushed(RING_CAP, s.queue, t.before), t.between)
  }

  /** A turn that makes a packet: it primes exactly at the prime depth, records the level it found, and
      writes the oldest 192 bytes if primed before and it found as many, else silence, leaving the rest. */
  lemma TurnMakes(s: State, t: TurnIn)
    requires |s.queue| <= RING_CAP && !s.stopped && s.pending.None?
    ensures var u, level, q := Turned(true, s, t), Level(s, t), Queued(s, t);
            && (u.primed <==> s.primed || level >= 3840)
            && u.fills == s.fills + [level]
            && (if s.primed && level >= 192 then
                  && |q| >= 192 && Made(u) == Made(s) + [IsoOut.Frame(s.outSeq, q[..192])]
                  && u.queue == q[192..]
                else Made(u) == Made(s) + [IsoOut.Frame(s.outSeq, [])] && u.queue == q)
  {
    assert |SinkStep(s, t.before).queue| == Level(s, t);
    WriteNeverLowers(RING_CAP, SinkStep(s, t.before).queue, t.between);
    PrepareMakes(s, t);
    var p := PrepareStep(true, s, t);
    WriteMakes(p, t.result);
  }

  lemma PrepareMakes(s: State, t: TurnIn)
    requires |s.queue| <= RING_CAP && s.pending.None?
    requires |Pushed(RING_CAP, s.queue, t.before)| == Level(s, t) <= |Queued(s, t)|
    ensures var p, level, q := PrepareStep(true, s, t), Level(s, t), Queued(s, t);
            && (p.primed <==> s.primed || level >= 3840)
            && p.fills == s.fills + [level] && p.resolved == s.resolved
            && (if s.primed && level >= 192 then
                  p.pending == Some(IsoOut.Frame(s.outSeq, q[..192])) && p.queue == q[192..]
                else p.pending == Some(IsoOut.Frame(s.outSeq, [])) && p.queue == q)
  {
  }

  lemma WriteMakes(p: State, r: WriteResult)
    requires p.pending.Some?
    ensures var u := WriteStep(p, r);
            && Made(u) == Made(p) && u.queue == p.queue && u.fills == p.fills && u.primed == p.primed
  {
  }

  /** A turn that writes a packet again, and a turn behind the end of the loop, make none: the sink goes on
      pushing in the first, nothing happens in the second. */
  lemma TurnRepeats(s: State, t: TurnIn)
    requires s.stopped || s.pending.Some?
    ensures var u := Turned(true, s, t);
            && u.primed == s.primed && u.fills == s.fills && Made(u) == Made(s)
            && u.queue == if s.stopped then s.queue else Queued(s, t)
  {
    if !s.stopped {
      WriteMakes(PrepareStep(true, s, t), t.result);
    }
  }

  predicate MakesPacket(s: State) { !s.stopped && s.pending.None? }

  lemma TurnPrimes(s: State, t: TurnIn)
    requires |s.queue| <= RING_CAP
    ensures Turned(true, s, t).primed <==> s.primed || (MakesPacket(s) && Level(s, t) >= 3840)
    ensures Made(s) <= Made(Turned(true, s, t)) && s.fills <= Turned(true, s, t).fills
    ensures |Made(Turned(true, s, t))| == if MakesPacket(s) then |Made(s)| + 1 else |Made(s)|
  {
    if MakesPacket(s) {
      TurnMakes(s, t);
    } else {
      TurnRepeats(s, t);
    }
  }

  lemma RingFits(bridge: bool, queue: Bytes, turns: seq<TurnIn>)
    requires |queue| <= RING_CAP
    ensures |Run(bridge, queue, turns).queue| <= RING_CAP
  {
    ExactlyOnce(bridge, queue, turns);
  }

  /** Turn `i` makes a packet. */
  predicate Makes(queue: Bytes, turns: seq<TurnIn>, i: nat)
    requires i < |turns|
  {
    MakesPacket(Run(true, queue, turns[..i]))
  }

  function LevelAt(queue: Bytes, turns: seq<TurnIn>, i: nat): nat
    requires i < |turns|
  {
    Level(Run(true, queue, turns[..i]), turns[i])
  }

  /** The turns so far primed the loop. */
  predicate Deep(queue: Bytes, turns: seq<TurnIn>) {
    if turns == [] then false
    else
      var front, t := turns[..|turns| - 1], turns[|turns| - 1];
      var s := Run(true, queue, front);
      Deep(queue, front) || (MakesPacket(s) && Level(s, t) >= 3840)
  }

  lemma {:induction false} PrimedDeep(queue: Bytes, turns: seq<TurnIn>)
    requires |queue| <= RING_CAP
    ensures Run(true, queue, turns).primed <==> Deep(queue, turns)
  {
    if turns != [] {
      var front := turns[..|turns| - 1];
      PrimedDeep(queue, front);
      RingFits(true, queue, front);
      TurnPrimes(Run(true, queue, front), turns[|turns| - 1]);
    }
  }

  /** Turn `i` makes a packet and finds the prime depth. */
  predicate FindsDepth(queue: Bytes, turns: seq<TurnIn>, i: nat)
    requires i < |turns|
  {
    Makes(queue, turns, i) && LevelAt(queue, turns, i) >= 3840
  }

  lemma {:induction false} DeepAt(queue: Bytes, turns: seq<TurnIn>) returns (i: nat)
    requires Deep(queue, turns)
    ensures i < |turns| && FindsDepth(queue, turns, i)
  {
    i := |turns| - 1;
    if Deep(queue, turns[..|turns| - 1]) {
      i := DeepAt(queue, turns[..|turns| - 1]);
      assert turns[..|turns| - 1][..i] == turns[..i];
    }
  }

  lemma {:induction false} DeepFrom(queue: Bytes, turns: seq<TurnIn>, i: nat)
    requires i < |turns| && FindsDepth(queue, turns, i)
    ensures Deep(queue, turns)
    decreases |turns|
  {
    if i < |turns| - 1 {
      assert turns[..|turns| - 1][..i] == turns[..i];
      DeepFrom(queue, turns[..|turns| - 1], i);
    }
  }

  /** The loop is primed exactly if a turn that made a packet found 3840 bytes or more in the ring: no other
      turn primes it, and nothing unprimes it. */
  lemma PrimedIff(queue: Bytes, turns: seq<TurnIn>)
    requires |queue| <= RING_CAP
    ensures Run(true, queue, turns).primed
            <==> exists i :: 0 <= i < |turns| && Makes(queue, turns, i) && LevelAt(queue, turns, i) >= 3840
  {
    PrimedDeep(queue, turns);
    if Deep(queue, turns) {
      var i := DeepAt(queue, turns);
    }
    forall i | 0 <= i < |turns| && Makes(queue, turns, i) && LevelAt(queue, turns, i) >= 3840
      ensures Deep(queue, turns)
    {
      DeepFrom(queue, turns, i);
    }
  }

  /** The packets made and the levels found only grow. */
  lemma {:induction false} MadeGrow(queue: Bytes, turns: seq<TurnIn>, i: nat)
    requires |queue| <= RING_CAP && i <= |turns|
    ensures var s, u := Run(true, queue, turns[..i]), Run(true, queue, turns);
            Made(s) <= Made(u) && s.fills <= u.fills
    decreases |turns|
  {
    if i == |turns| {
      assert turns[..i] == turns;
    } else {
      var front, t := turns[..|turns| - 1], turns[|turns| - 1];
      var s := Run(true, queue, front);
      MadeGrow(queue, front, i);
      RingFits(true, queue, front);
      assert front[..i] == turns[..i];
      TurnPrimes(s, t);
    }
  }

  lemma SampleForEach(bridge: bool, queue: Bytes, turns: seq<TurnIn>)
    requires |queue| <= RING_CAP
    ensures |Run(bridge, queue, turns).fills| == |Made(Run(bridge, queue, turns))|
  {
    ExactlyOnce(bridge, queue, turns);
    SilentExactly(bridge, queue, turns);
  }

  lemma NextNumbered(bridge: bool, queue: Bytes, turns: seq<TurnIn>)
    requires |queue| <= RING_CAP
    ensures |Run(bridge, queue, turns).queue| <= RING_CAP
    ensures Run(bridge, queue, turns).outSeq == SeqAt(|Made(Run(bridge, queue, turns))|)
  {
    ExactlyOnce(bridge, queue, turns);
  }

  /** The packet turn `i` makes: its number is how many were made before, its level is that of the ring in
      that very turn, and it carries the oldest 192 bytes exactly if the loop was primed before and this turn
      found as many. */
  lemma PacketOfTurn(queue: Bytes, turns: seq<TurnIn>, i: nat)
    requires |queue| <= RING_CAP && i < |turns| && Makes(queue, turns, i)
    ensures var s, u := Run(true, queue, turns[..i]), Run(true, queue, turns);
            var k, level, q := |Made(s)|, LevelAt(queue, turns, i), Queued(s, turns[i]);
            && k < |Made(u)| && k < |u.fills| && u.fills[k] == level
            && (if s.primed && level >= 192 then
                  |q| >= 192 && Made(u)[k] == IsoOut.Frame(SeqAt(k), q[..192])
                else Made(u)[k] == IsoOut.Frame(SeqAt(k), []))
  {
    var s := Run(true, queue, turns[..i]);
    NextNumbered(true, queue, turns[..i]);
    SampleForEach(true, queue, turns[..i]);
    assert turns[..i + 1][..i] == turns[..i] && turns[..i + 1][i] == turns[i];
    TurnMakes(s, turns[i]);
    MadeGrow(queue, turns, i + 1);
  }

  /** Every packet has the turn that made it. */
  lemma {:induction false} MakerOf(queue: Bytes, turns: seq<TurnIn>, k: nat) returns (i: nat)
    requires |queue| <= RING_CAP && k < |Made(Run(true, queue, turns))|
    ensures i < |turns| && Makes(queue, turns, i) && |Made(Run(true, queue, turns[..i]))| == k
    decreases |turns|
  {
    var n := |turns| - 1;
    var front, t := turns[..n], turns[n];
    var s := Run(true, queue, front);
    RingFits(true, queue, front);
    TurnPrimes(s, t);
    if k < |Made(s)| {
      i := MakerOf(queue, front, k);
      assert front[..i] == turns[..i];
    } else {
      i := n;
    }
  }

  /** Without the bridge every packet is silent. */
  lemma {:induction false} NoBridgeIsSilent(queue: Bytes, turns: seq<TurnIn>, k: nat)
    requires |queue| <= RING_CAP && k < |Made(Run(false, queue, turns))|
    ensures Made(Run(false, queue, turns))[k] == IsoOut.Frame(SeqAt(k), [])
  {
    ExactlyOnce(false, queue, turns);
    SilentExactly(false, queue, turns);
  }

  // ------------------------------------------------------------ what is delivered

  /** The PCM of the packets whose write ended with `r`, in the order of the writes. */
  function EndedWith(pcms: seq<Bytes>, of: seq<nat>, results: seq<WriteResult>, r: WriteResult): seq<Bytes>
    requires |of| == |results| && forall j :: 0 <= j < |of| ==> of[j] < |pcms|
  {
    if of == [] then []
    else
      var n := |of| - 1;
      var front := EndedWith(pcms, of[..n], results[..n], r);
      if results[n] == r then front + [pcms[of[n]]] else front
  }

  /** The numbers of the packets given up on an error. */
  function GivenUp(of: seq<nat>, results: seq<WriteResult>): set<nat>
    requires |of| == |results|
  {
    if of == [] then {}
    else
      var n := |of| - 1;
      GivenUp(of[..n], results[..n]) + if results[n].Error? then {of[n]} else {}
  }

  /** All but the numbered ones. */
  function Without(pcms: seq<Bytes>, gone: set<nat>): seq<Bytes> {
    if pcms == [] then []
    else
      var n := |pcms| - 1;
      Without(pcms[..n], gone) + if n in gone then [] else [pcms[n]]
  }

  lemma {:induction false} WithoutBeyond(pcms: seq<Bytes>, gone: set<nat>, k: nat)
    requires k >= |pcms|
    ensures Without(pcms, gone + {k}) == Without(pcms, gone)
  {
    if pcms != [] {
      WithoutBeyond(pcms[..|pcms| - 1], gone, k);
    }
  }

  lemma {:induction false} GivenUpBelow(of: seq<nat>, results: seq<WriteResult>, k: nat)
    requires Chain(of, results) && k in GivenUp(of, results)
    ensures k < Upcoming(of, results)
    decreases |of|
  {
    var n := |of| - 1;
    if n > 0 && k in GivenUp(of[..n], results[..n]) {
      GivenUpBelow(of[..n], results[..n], k);
    }
  }

  lemma {:induction false} WrittenAreKept(pcms: seq<Bytes>, of: seq<nat>, results: seq<WriteResult>)
    requires Chain(of, results) && Upcoming(of, results) <= |pcms|
    requires forall j :: 0 <= j < |of| ==> of[j] < |pcms|
    ensures EndedWith(pcms, of, results, Ok) == Without(pcms[..Upcoming(of, results)], GivenUp(of, results))
    decreases |of|
  {
    if of != [] {
      var n := |of| - 1;
      var k, gone := of[n], GivenUp(of[..n], results[..n]);
      assert Upcoming(of[..n], results[..n]) == k;
      WrittenAreKept(pcms, of[..n], results[..n]);
      if results[n].Timeout? {
        assert gone + {} == gone;
      } else {
        assert pcms[..k + 1][..k] == pcms[..k];
        if k in gone {
          GivenUpBelow(of[..n], results[..n], k);
        }
        WithoutBeyond(pcms[..k], gone, k);
        assert gone + {} == gone;
      }
    }
  }

  lemma {:induction false} NothingGoneIff(pcms: seq<Bytes>, gone: set<nat>)
    ensures |Join(Without(pcms, gone))| <= |Join(pcms)|
    ensures Join(Without(pcms, gone)) == Join(pcms)
            <==> forall k :: 0 <= k < |pcms| && k in gone ==> pcms[k] == []
    ensures |Join(Without(pcms, gone))| == |Join(pcms)| ==> Join(Without(pcms, gone)) == Join(pcms)
  {
    if pcms != [] {
      var n := |pcms| - 1;
      var front, kept := pcms[..n], Without(pcms[..n], gone);
      NothingGoneIff(front, gone);
      assert pcms == front + [pcms[n]];
      JoinSnoc(front, pcms[n]);
      if n in gone {
        assert kept + [] == kept;
      } else {
        JoinSnoc(kept, pcms[n]);
      }
      assert forall k :: 0 <= k < n ==> pcms[k] == front[k];
    }
  }

  /** What the device got, in every run: the PCM of the successful writes, in order, is that of all
      packets let go but those given up on an error. All of it arrived exactly if every packet given
      up was silent. */
  lemma DeliveredIff(bridge: bool, queue: Bytes, turns: seq<TurnIn>)
    requires |queue| <= RING_CAP
    ensures var s := Run(bridge, queue, turns);
            && |s.resolved| <= |PlayedOf(s.log)| && (forall j :: 0 <= j < |s.of| ==> s.of[j] < |PlayedOf(s.log)|)
            && Chain(s.of, s.results)
            && var pcms, gone := PlayedOf(s.log)[..|s.resolved|], GivenUp(s.of, s.results);
               var got := EndedWith(PlayedOf(s.log), s.of, s.results, Ok);
               && got == Without(pcms, gone)
               && (Join(got) == Join(pcms) <==> forall k :: 0 <= k < |pcms| && k in gone ==> pcms[k] == [])
  {
    var s := Run(bridge, queue, turns);
    ExactlyOnce(bridge, queue, turns);
    WrittenAreKept(PlayedOf(s.log), s.of, s.results);
    NothingGoneIff(PlayedOf(s.log)[..|s.resolved|], GivenUp(s.of, s.results));
  }

  // ------------------------------------------------------------ the loop

  /** The loop's variables are those of the state. */
  ghost predicate Mirrors(s: State, pw: Ring?, outSeq: byte, primed: bool, pending: Option<Bytes>)
    reads pw, if pw != null then {pw.buf} else {}
  {
    && s.outSeq == outSeq && s.primed == primed && s.pending == pending
    && (pw != null ==> pw.Valid() && pw.queue == s.queue)
  }

  /** `frame` */
  method FrameNext(pcm: Bytes, outSeq: byte) returns (packet: Bytes, next: byte)
    requires |pcm| == 192
    ensures packet == IsoOut.AudioHeader(outSeq) + pcm && next == SeqAfter(outSeq)
  {
    IsoOut.AudioHeaderIsBuilt(outSeq);
    var hdr := Header(CMD_AUDIO_SAMPLES, OPTS_INTERNAL, outSeq, 192, None);
    next := if outSeq < 255 then outSeq + 1 else 1;
    packet := hdr + pcm;
  }

  /** A packet of silence and a packet of PCM are the two kinds of frames. */
  lemma FrameKinds(outSeq: byte, pcm: Bytes)
    ensures IsoOut.AudioHeader(outSeq) + Zeros(192) == IsoOut.Frame(outSeq, [])
    ensures |pcm| == 192 ==> IsoOut.AudioHeader(outSeq) + pcm == IsoOut.Frame(outSeq, pcm)
  {
    assert [] + Zeros(192) == Zeros(192);
    assert pcm + Zeros(0) == pcm;
  }

  /** The part of the loop before the write. */
  method Prepare(pw: Ring?, t: TurnIn, outSeq: byte, primed: bool, pending: Option<Bytes>, ghost s: State)
    returns (outSeq': byte, primed': bool, pending': Option<Bytes>)
    requires |t.before| < U32 && |t.between| < U32 && Mirrors(s, pw, outSeq, primed, pending)
    modifies pw, if pw != null then {pw.buf} else {}
    ensures Mirrors(PrepareStep(pw != null, s, t), pw, outSeq', primed', pending')
  {
    outSeq', primed', pending' := outSeq, primed, pending;
    var packet := [];
    if pw == null {
      if pending.None? {
        FrameKinds(outSeq, []);
        packet, outSeq' := FrameNext(Zeros(192), outSeq);
        pending' := Some(packet);
      }
      return;
    }
    pw.Write(t.before);
    if pending.Some? {
      pw.Write(t.between);
      return;
    }
    var avail := pw.Avail();
    pw.Write(t.between);
    FrameKinds(outSeq, Taken(pw.queue, 192));
    if !primed {
      primed' := avail >= PRIME_BYTES;
      packet, outSeq' := FrameNext(Zeros(192), outSeq);
    } else if avail >= 192 {
      WriteNeverLowers(RING_CAP, SinkStep(s, t.before).queue, t.between);
      var n, pcm := ReadPlayback(pw);
      assert n == 192 && pcm[..192] == pcm;
      packet, outSeq' := FrameNext(pcm, outSeq);
    } else {
      packet, outSeq' := FrameNext(Zeros(192), outSeq);
    }
    pending' := Some(packet);
  }

  /** `wpw_read_playback` into the 192-byte buffer, and all of the buffer: what the read did not fill is
      whatever was there before. */
  method ReadPlayback(pw: Ring) returns (n: nat, pcm: Bytes)
    requires pw.Valid()
    modifies pw
    ensures pw.Valid() && n == Min(192, |old(pw.queue)|) && |pcm| == 192
    ensures pcm[..n] == Taken(old(pw.queue), 192) && pw.queue == Remaining(old(pw.queue), 192)
  {
    var rbuf := new byte[192];
    n := pw.Read(rbuf, 0, 192);
    pcm := rbuf[..];
  }

  lemma {:induction false} StoppedStays(bridge: bool, queue: Bytes, turns: seq<TurnIn>, i: nat)
    requires i <= |turns| && Run(bridge, queue, turns[..i]).stopped
    ensures Run(bridge, queue, turns) == Run(bridge, queue, turns[..i])
    decreases |turns|
  {
    if i == |turns| {
      assert turns[..i] == turns;
    } else {
      var before := turns[..|turns| - 1];
      assert before[..i] == turns[..i];
      StoppedStays(bridge, queue, before, i);
    }
  }

  /** The write of the pending packet ends with `result`. */
  method Write(pending: Option<Bytes>, errors: nat, result: WriteResult, ghost p: State)
    returns (pending': Option<Bytes>, errors': nat)
    requires p.pending == pending && pending.Some? && p.errors == errors <= 100 && !p.stopped
    ensures var u := WriteStep(p, result);
            && u.pending == pending' && u.errors == errors' && (u.stopped <==> errors' > 100)
            && u.outSeq == p.outSeq && u.primed == p.primed && u.queue == p.queue
            && u.attempts == p.attempts + [pending.value]
  {
    pending', errors' := pending, errors;
    match result {
      case Ok =>
        pending' := None;
        errors' := 0;
      case Timeout =>
      case Error =>
        errors' := errors + 1;
        pending' := None;
    }
  }

  /** `stream_audio_out`. `pw` is null without the bridge; the loop runs for the given turns, or until
      more than 100 errors in a row. */
  method StreamAudioOut(pw: Ring?, turns: seq<TurnIn>) returns (attempts: seq<Bytes>)
    requires pw != null ==> pw.Valid()
    requires forall i :: 0 <= i < |turns| ==> |turns[i].before| < U32 && |turns[i].between| < U32
    modifies pw, if pw != null then {pw.buf} else {}
    ensures var s := Run(pw != null, if pw != null then old(pw.queue) else [], turns);
            attempts == s.attempts && (pw != null ==> pw.Valid() && pw.queue == s.queue)
  {
    var outSeq: byte, errors, primed, pending := 1, 0, false, None;
    attempts := [];
    ghost var bridge, queue := pw != null, if pw != null then pw.queue else [];
    for i := 0 to |turns|
      invariant var s := Run(bridge, queue, turns[..i]);
                && !s.stopped && s.errors == errors <= 100 && s.attempts == attempts
                && Mirrors(s, pw, outSeq, primed, pending)
    {
      assert turns[..i + 1][..i] == turns[..i] && turns[..i + 1][i] == turns[i];
      ghost var s := Run(bridge, queue, turns[..i]);
      var packet;
      packet, outSeq, primed, pending, errors := OneTurn(pw, turns[i], outSeq, primed, pending, errors, s);
      attempts := attempts + [packet];
      if errors > 100 {
        StoppedStays(bridge, queue, turns, i + 1);
        return;
      }
    }
    assert turns[..|turns|] == turns;
  }

  /** One turn of the loop: what it writes, and the loop's variables behind it. */
  method OneTurn(pw: Ring?, t: TurnIn, outSeq: byte, primed: bool, pending: Option<Bytes>, errors: nat, ghost s: State)
    returns (packet: Bytes, outSeq': byte, primed': bool, pending': Option<Bytes>, errors': nat)
    requires |t.before| < U32 && |t.between| < U32 && Mirrors(s, pw, outSeq, primed, pending)
    requires !s.stopped && s.errors == errors <= 100
    modifies pw, if pw != null then {pw.buf} else {}
    ensures var u := Turned(pw != null, s, t);
            && Mirrors(u, pw, outSeq', primed', pending')
            && u.attempts == s.attempts + [packet] && u.errors == errors' && (u.stopped <==> errors' > 100)
  {
    ghost var p := PrepareStep(pw != null, s, t);
    PrepareLeaves(pw != null, s, t);
    outSeq', primed', pending' := Prepare(pw, t, outSeq, primed, pending, s);
    packet := pending'.value;
    pending', errors' := Write(pending', errors, t.result, p);
    assert Turned(pw != null, s, t) == WriteStep(p, t.result);
  }
}
