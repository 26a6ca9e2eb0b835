/** What became of every byte a ring accepted: the common history of both audio rings. */
module Ledger {
  import opened ByteSeqs

  /** One removal from the front of a ring: handed to the consumer, or thrown away. */
  datatype Use = Played(data: Bytes) | Discarded(data: Bytes)

  /** All removed bytes in order. */
  function Stream(log: seq<Use>): Bytes {
    if log == [] then [] else Stream(log[..|log| - 1]) + log[|log| - 1].data
  }

  /** The played entries in order. */
  function PlayedOf(log: seq<Use>): seq<Bytes> {
    if log == [] then []
    else
      var before, last := PlayedOf(log[..|log| - 1]), log[|log| - 1];
      if last.Played? then before + [last.data] else before
  }

  lemma Snoc(log: seq<Use>, u: Use)
    ensures Stream(log + [u]) == Stream(log) + u.data
    ensures PlayedOf(log + [u]) == if u.Played? then PlayedOf(log) + [u.data] else PlayedOf(log)
  {
    assert (log + [u])[..|log|] == log;
  }

  /** Stream index at which entry `i` starts. */
  function Offset(log: seq<Use>, i: nat): nat
    requires i <= |log|
  {
    |Stream(log[..i])|
  }

  /** The books balance: removed bytes, in order, and then what is still in the ring, are exactly
      what was ever accepted. */
  predicate Balanced(accepted: Bytes, log: seq<Use>, ring: Bytes) {
    Stream(log) + ring == accepted
  }

  /** A ring that takes bytes in at its end keeps the books balanced. */
  lemma BalancedAfterAccept(accepted: Bytes, log: seq<Use>, ring: Bytes, taken: Bytes)
    requires Balanced(accepted, log, ring)
    ensures Balanced(accepted + taken, log, ring + taken)
  {
    Assoc(Stream(log), ring, taken);
  }

  /** So does one that lets bytes go from its front and books them. */
  lemma BalancedAfterUse(accepted: Bytes, log: seq<Use>, ring: Bytes, n: nat, u: Use)
    requires Balanced(accepted, log, ring) && n <= |ring| && u.data == ring[..n]
    ensures Balanced(accepted, log + [u], ring[n..])
  {
    Snoc(log, u);
    assert ring == ring[..n] + ring[n..];
    Assoc(Stream(log), ring[..n], ring[n..]);
  }

  /** A played entry is the played block numbered by the played entries before it. */
  lemma {:induction false} PlayedAt(log: seq<Use>, i: nat)
    requires i < |log| && log[i].Played?
    ensures |PlayedOf(log[..i])| < |PlayedOf(log)| && PlayedOf(log)[|PlayedOf(log[..i])|] == log[i].data
    decreases |log|
  {
    var shorter := log[..|log| - 1];
    if i < |log| - 1 {
      PlayedAt(shorter, i);
      assert shorter[..i] == log[..i];
    }
  }

  predicate MultipleOf4(n: nat) { n % 4 == 0 }

  predicate AllAligned(log: seq<Use>) {
    forall i :: 0 <= i < |log| ==> MultipleOf4(|log[i].data|)
  }

  /** Entry `i` of balanced books is the contiguous block of the accepted stream that starts
      where the entries before it end. */
  lemma {:induction false} EntryIsContiguous(accepted: Bytes, log: seq<Use>, ring: Bytes, i: nat)
    requires Balanced(accepted, log, ring) && i < |log|
    ensures Offset(log, i) + |log[i].data| == Offset(log, i + 1) <= |Stream(log)| <= |accepted|
    ensures accepted[Offset(log, i)..Offset(log, i + 1)] == log[i].data
    decreases |log|
  {
    var n := |log| - 1;
    if i == n {
      assert log[..n + 1] == log;
      assert accepted == Stream(log[..n]) + log[n].data + ring;
    } else {
      var shorter := log[..n];
      Assoc(Stream(shorter), log[n].data, ring);
      EntryIsContiguous(accepted, shorter, log[n].data + ring, i);
      assert shorter[..i] == log[..i] && shorter[..i + 1] == log[..i + 1];
    }
  }

  /** With whole frames everywhere, every entry starts on a frame boundary of the stream. */
  lemma {:induction false} EntriesStartAligned(log: seq<Use>, i: nat)
    requires AllAligned(log) && i <= |log|
    ensures MultipleOf4(Offset(log, i))
  {
    if i > 0 {
      EntriesStartAligned(log, i - 1);
      assert log[..i][..i - 1] == log[..i - 1];
      SumAligned(Offset(log, i - 1), |log[i - 1].data|);
    }
  }

  lemma SumAligned(a: nat, b: nat)
    requires MultipleOf4(a) && MultipleOf4(b)
    ensures MultipleOf4(a + b)
    ensures a >= b ==> MultipleOf4(a - b)
  {
    var p, q := a / 4, b / 4;
    assert a + b == 4 * (p + q);
    Remainder(p + q, 0);
    if a >= b {
      assert a - b == 4 * (p - q);
      Remainder(p - q, 0);
    }
  }

  /** Byte `p` of entry `i` is the byte of the accepted stream at the entry's start plus `p`, a
      place on the same channel of its 4-byte frame. */
  predicate Traced(accepted: Bytes, log: seq<Use>, i: nat, p: nat)
    requires i < |log| && p < |log[i].data|
  {
    var k := Offset(log, i) + p;
    k < |accepted| && accepted[k] == log[i].data[p] && k % 4 == p % 4
  }

  lemma ByteComesFrom(accepted: Bytes, log: seq<Use>, ring: Bytes, i: nat, p: nat)
    requires Balanced(accepted, log, ring) && AllAligned(log)
    requires i < |log| && p < |log[i].data|
    ensures Traced(accepted, log, i, p)
  {
    EntryIsContiguous(accepted, log, ring, i);
    EntriesStartAligned(log, i);
    assert accepted[Offset(log, i)..Offset(log, i + 1)][p] == log[i].data[p];
    FramePosition(Offset(log, i), p);
  }

  lemma FramePosition(start: nat, p: nat)
    requires MultipleOf4(start)
    ensures (start + p) % 4 == p % 4
  {
    var a, b, r := start / 4, p / 4, p % 4;
    assert start + p == 4 * (a + b) + r;
    Remainder(a + b, r);
  }

  lemma Remainder(q: nat, r: nat)
    requires r < 4
    ensures (4 * q + r) % 4 == r
  {
  }

  /** `n & !3` */
  function WholeFrames(n: nat): (w: nat)
    ensures MultipleOf4(w) && n - 3 <= w <= n && (MultipleOf4(n) ==> w == n)
  {
    var q := n / 4;
    Remainder(q, 0);
    4 * q
  }
}
