/** The drop-oldest byte ring of wolverine_pw.c and the bounded queue it implements. */
module BoundedQueue {
  import opened ByteSeqs
  import opened Ledger

  /** A write keeps the newest bytes that fit. */
  function Pushed(cap: nat, q: Bytes, src: Bytes): Bytes {
    Last(q + src, Min(cap, |q| + |src|))
  }

  function Taken(q: Bytes, n: nat): Bytes { q[..Min(n, |q|)] }

  function Remaining(q: Bytes, n: nat): Bytes { q[Min(n, |q|)..] }

  datatype Op = Write(src: Bytes) | Read(n: nat)

  datatype Trace = Trace(q: Bytes, written: Bytes, log: seq<Use>)

  /** How many of the oldest bytes a write pushes out. */
  function Overflow(cap: nat, q: Bytes, src: Bytes): nat {
    Max(0, |q| + |src| - cap)
  }

  function Do(cap: nat, t: Trace, op: Op): Trace {
    match op
    case Write(src) =>
      Trace(Pushed(cap, t.q, src), t.written + src,
            t.log + [Discarded((t.q + src)[..Overflow(cap, t.q, src)])])
    case Read(n) =>
      Trace(Remaining(t.q, n), t.written, t.log + [Played(Taken(t.q, n))])
  }

  function Run(cap: nat, ops: seq<Op>): Trace {
    if ops == [] then Trace([], [], [])
    else Do(cap, Run(cap, ops[..|ops| - 1]), ops[|ops| - 1])
  }

  lemma DoKeepsBooks(cap: nat, t: Trace, op: Op)
    requires Balanced(t.written, t.log, t.q) && |t.q| <= cap
    ensures var t' := Do(cap, t, op); Balanced(t'.written, t'.log, t'.q) && |t'.q| <= cap
  {
    match op
    case Write(src) =>
      var n := Overflow(cap, t.q, src);
      BalancedAfterAccept(t.written, t.log, t.q, src);
      BalancedAfterUse(t.written + src, t.log, t.q + src, n, Discarded((t.q + src)[..n]));
    case Read(n) =>
      BalancedAfterUse(t.written, t.log, t.q, Min(n, |t.q|), Played(Taken(t.q, n)));
  }

  /** Every run: the books balance, so what readers got is the written stream in order with gaps
      only where the oldest bytes were pushed out, and what is queued is the newest of it. */
  lemma {:induction false} RunBalanced(cap: nat, ops: seq<Op>)
    ensures var t := Run(cap, ops);
            && Balanced(t.written, t.log, t.q)
            && |t.q| <= cap
            && t.q == Last(t.written, |t.q|)
  {
    if ops != [] {
      RunBalanced(cap, ops[..|ops| - 1]);
      DoKeepsBooks(cap, Run(cap, ops[..|ops| - 1]), ops[|ops| - 1]);
    }
  }

  predicate AlignedOp(op: Op) {
    match op
    case Write(src) => MultipleOf4(|src|)
    case Read(n) => MultipleOf4(n)
  }

  lemma PushedAligned(cap: nat, q: Bytes, src: Bytes)
    requires MultipleOf4(cap) && MultipleOf4(|q|) && |q| <= cap && MultipleOf4(|src|)
    ensures MultipleOf4(|Pushed(cap, q, src)|) && MultipleOf4(Overflow(cap, q, src))
  {
    SumAligned(|q|, |src|);
    if |q| + |src| > cap {
      SumAligned(|q| + |src|, cap);
    }
  }

  lemma TakenAligned(q: Bytes, n: nat)
    requires MultipleOf4(|q|) && MultipleOf4(n)
    ensures MultipleOf4(|Taken(q, n)|) && MultipleOf4(|Remaining(q, n)|)
  {
    SumAligned(|q|, Min(n, |q|));
  }

  lemma DoAligned(cap: nat, t: Trace, op: Op)
    requires MultipleOf4(cap) && MultipleOf4(|t.q|) && |t.q| <= cap && AlignedOp(op)
    ensures var t' := Do(cap, t, op);
            MultipleOf4(|t'.q|) && t'.log[..|t.log|] == t.log && |t'.log| == |t.log| + 1
            && MultipleOf4(|t'.log[|t.log|].data|)
  {
    match op
    case Write(src) =>
      PushedAligned(cap, t.q, src);
      assert |(t.q + src)[..Overflow(cap, t.q, src)]| == Overflow(cap, t.q, src);
    case Read(n) => TakenAligned(t.q, n);
  }

  /** Whole frames in and out of a ring of whole frames: no overflow ever splits a frame. */
  lemma {:induction false} RunAligned(cap: nat, ops: seq<Op>)
    requires MultipleOf4(cap)
    requires forall i :: 0 <= i < |ops| ==> AlignedOp(ops[i])
    ensures var t := Run(cap, ops); MultipleOf4(|t.q|) && AllAligned(t.log)
  {
    if ops != [] {
      var before := Run(cap, ops[..|ops| - 1]);
      RunAligned(cap, ops[..|ops| - 1]);
      RunBalanced(cap, ops[..|ops| - 1]);
      DoAligned(cap, before, ops[|ops| - 1]);
      var log := Run(cap, ops).log;
      forall i | 0 <= i < |log| ensures MultipleOf4(|log[i].data|) {
        if i < |before.log| {
          assert log[i] == before.log[i];
        }
      }
    }
  }

  /** Every byte a reader gets at packet position `p` comes from a stream index congruent to `p`
      modulo the 4-byte frame: left stays left. */
  lemma ChannelsStayPut(cap: nat, ops: seq<Op>, i: nat, p: nat)
    requires MultipleOf4(cap)
    requires forall i :: 0 <= i < |ops| ==> AlignedOp(ops[i])
    requires i < |Run(cap, ops).log| && p < |Run(cap, ops).log[i].data|
    ensures Traced(Run(cap, ops).written, Run(cap, ops).log, i, p)
  {
    RunBalanced(cap, ops);
    RunAligned(cap, ops);
    var t := Run(cap, ops);
    ByteComesFrom(t.written, t.log, t.q, i, p);
  }

  /** A write never lowers the fill level. */
  lemma WriteNeverLowers(cap: nat, q: Bytes, src: Bytes)
    requires |q| <= cap
    ensures |Pushed(cap, q, src)| >= |q|
  {
  }
}

module CRing {
  import opened ByteSeqs
  import opened BoundedQueue

  const RING_CAP: nat := 0x8_0000

  /** A `uint32_t` cursor. */
  type Cursor = c: int | 0 <= c < 0x1_0000_0000

  /** `a + n` and `a - b` on `uint32_t`. */
  function Add32(a: Cursor, n: nat): Cursor
    requires n < 0x1_0000_0000
  {
    if a + n < 0x1_0000_0000 then a + n else a + n - 0x1_0000_0000
  }

  function Sub32(a: Cursor, b: Cursor): Cursor {
    if a >= b then a - b else a - b + 0x1_0000_0000
  }

  /** `cursor & RING_MASK` */
  function Slot(cursor: int): (s: nat)
    ensures s < RING_CAP
  {
    cursor % 0x8_0000
  }

  /** Masking does not see the wrap of a cursor, since the capacity divides 2^32. */
  lemma SlotWraps(c: Cursor, n: nat, k: int)
    requires n < U32
    ensures Slot(Add32(c, n) + k) == Slot(c + n + k)
  {
    assert (c + n + k) - 0x1_0000_0000 == (c + n + k) + 0x8_0000 * -8192;
  }

  lemma SlotsDiffer(a: int, b: int)
    requires 0 < b - a < RING_CAP
    ensures Slot(a) != Slot(b)
  {
  }

  /** `bytes` lie in the slots of `mem` from cursor `from` on. */
  predicate InSlots(mem: Bytes, from: Cursor, bytes: Bytes) {
    && |mem| == RING_CAP && |bytes| <= RING_CAP
    && forall k :: 0 <= k < |bytes| ==> mem[Slot(from + k)] == bytes[k]
  }

  lemma SlotWritten(mem: Bytes, from: Cursor, bytes: Bytes, b: byte)
    requires InSlots(mem, from, bytes) && |bytes| < RING_CAP
    ensures InSlots(mem[Slot(from + |bytes|) := b], from, bytes + [b])
  {
    forall k | 0 <= k < |bytes| ensures Slot(from + k) != Slot(from + |bytes|) && mem[Slot(from + k)] == bytes[k] {
      SlotsDiffer(from + k, from + |bytes|);
    }
  }

  /** The tail moves over the `n` oldest bytes. */
  lemma FrontDropped(mem: Bytes, from: Cursor, bytes: Bytes, n: nat)
    requires InSlots(mem, from, bytes) && n <= |bytes|
    ensures InSlots(mem, Add32(from, n), bytes[n..])
  {
    forall k | 0 <= k < |bytes| - n ensures mem[Slot(Add32(from, n) + k)] == bytes[n..][k] {
      SlotWraps(from, n, k);
      assert mem[Slot(from + (n + k))] == bytes[n + k];
    }
  }

  /** One turn of the copying loop of `ring_write`. */
  lemma TurnWritten(mem: Bytes, head: Cursor, start: Cursor, kept: Bytes, src: Bytes, i: nat)
    requires |kept| + |src| <= RING_CAP && head == Add32(start, |kept|)
    requires i < |src| && InSlots(mem, start, kept + src[..i])
    ensures InSlots(mem[Slot(Add32(head, i)) := src[i]], start, kept + src[..i + 1])
  {
    SlotWraps(head, i, 0);
    SlotWraps(start, |kept|, i);
    SlotWritten(mem, start, kept + src[..i], src[i]);
    assert kept + src[..i + 1] == kept + src[..i] + [src[i]];
  }

  lemma SlotRead(mem: Bytes, tail: Cursor, queue: Bytes, i: nat)
    requires i < |queue| && InSlots(mem, tail, queue)
    ensures mem[Slot(Add32(tail, i))] == queue[i]
    ensures queue[..i + 1] == queue[..i] + [queue[i]]
  {
    SlotWraps(tail, i, 0);
    assert mem[Slot(tail + i)] == queue[i];
  }

  /** Dropping from `source` what never fits, and from the queue what has to make room. */
  lemma PushedIsKept(q: Bytes, source: Bytes, kept: Bytes, src: Bytes)
    requires |q| <= RING_CAP
    requires src == source[|source| - Min(RING_CAP, |source|)..]
    requires kept == q[Max(0, |src| - (RING_CAP - |q|))..]
    ensures kept + src == Pushed(RING_CAP, q, source)
  {
  }

  class Ring {
    const buf: array<byte>
    var head: Cursor
    var tail: Cursor
    ghost var queue: Bytes

    /** The queue lies between the cursors. */
    ghost predicate Valid()
      reads this, buf
    {
      InSlots(buf[..], tail, queue) && head == Add32(tail, |queue|)
    }

    constructor ()
      ensures Valid() && queue == [] && fresh(buf)
    {
      buf := new byte[RING_CAP];
      head := 0;
      tail := 0;
      queue := [];
    }

    /** `ring_write`: the newest bytes always get in; the oldest make room. */
    method Write(source: Bytes)
      requires Valid() && |source| < U32
      modifies this, buf
      ensures Valid()
      ensures queue == Pushed(RING_CAP, old(queue), source)
    {
      var src := source;
      var n := |source|;
      if n > RING_CAP {
        src := src[n - RING_CAP..];
        n := RING_CAP;
      }
      var used := Sub32(head, tail);
      assert used == |queue|;
      var space := RING_CAP - used;
      ghost var kept := queue[Max(0, n - space)..];
      PushedIsKept(queue, source, kept, src);
      if n > space {
        FrontDropped(buf[..], tail, queue, n - space);
        tail := Add32(tail, n - space);
      }
      assert head == Add32(tail, |kept|) && InSlots(buf[..], tail, kept);
      CopyIn(src, tail, kept);
      queue := kept + src;
      head := Add32(head, n);
    }

    /** The copying loop of `ring_write`, from the slot of `head` on. */
    method CopyIn(src: Bytes, ghost start: Cursor, ghost kept: Bytes)
      requires |kept| + |src| <= RING_CAP && head == Add32(start, |kept|)
      requires InSlots(buf[..], start, kept)
      modifies buf
      ensures InSlots(buf[..], start, kept + src)
    {
      assert kept + src[..0] == kept;
      for i := 0 to |src|
        invariant InSlots(buf[..], start, kept + src[..i])
      {
        TurnWritten(buf[..], head, start, kept, src, i);
        buf[Slot(Add32(head, i))] := src[i];
      }
      assert src[..|src|] == src;
    }

    /** `ring_read` into `dst` from position `at` on. */
    method Read(dst: array<byte>, at: nat, wanted: nat) returns (n: nat)
      requires Valid() && at + wanted <= dst.Length && dst != buf
      modifies this, dst
      ensures Valid()
      ensures n == Min(wanted, |old(queue)|)
      ensures queue == Remaining(old(queue), wanted)
      ensures dst[..] == old(dst[..at]) + Taken(old(queue), wanted) + old(dst[at + n..])
    {
      var avail := Sub32(head, tail);
      n := wanted;
      if n > avail {
        n := avail;
      }
      CopyOut(dst, at, n);
      FrontDropped(buf[..], tail, queue, n);
      tail := Add32(tail, n);
      queue := queue[n..];
    }

    /** The copying loop of `ring_read`, from the slot of `tail` on. */
    method CopyOut(dst: array<byte>, at: nat, n: nat)
      requires Valid() && n <= |queue| && at + n <= dst.Length && dst != buf
      modifies dst
      ensures dst[..] == old(dst[..at]) + queue[..n] + old(dst[at + n..])
    {
      for i := 0 to n
        invariant dst[..] == old(dst[..at]) + queue[..i] + old(dst[at + i..])
      {
        SlotRead(buf[..], tail, queue, i);
        dst[at + i] := buf[Slot(Add32(tail, i))];
      }
    }

    /** `wpw_playback_avail` on a running bridge. */
    method Avail() returns (a: nat)
      requires Valid()
      ensures a == |queue|
    {
      a := Sub32(head, tail);
    }
  }
}
