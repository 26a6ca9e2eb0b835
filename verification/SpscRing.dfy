/** The single-producer single-consumer byte rings of ring.rs (drop-newest on overflow). */
module Spsc {
  import opened ByteSeqs

  /** How much of `src` a ring holding `used` bytes takes. */
  function Room(capacity: nat, used: nat, src: Bytes): (n: nat)
    ensures n <= |src| && (used <= capacity ==> used + n <= capacity)
  {
    Min(|src|, Max(0, capacity - used))
  }

  /** What a push leaves in the ring. */
  function Pushed(capacity: nat, ring: Bytes, src: Bytes): Bytes {
    ring + src[..Room(capacity, |ring|, src)]
  }

  /** Two pushes with nothing between them are one push of both. */
  lemma PushesMerge(capacity: nat, ring: Bytes, a: Bytes, b: Bytes)
    requires |ring| <= capacity
    ensures Pushed(capacity, Pushed(capacity, ring, a), b) == Pushed(capacity, ring, a + b)
  {
    var n := Room(capacity, |ring|, a);
    var m := Room(capacity, |ring| + n, b);
    assert (a + b)[..Room(capacity, |ring|, a + b)] == a[..n] + b[..m];
    Assoc(ring, a[..n], b[..m]);
  }

  /** One `rtrb` ring: both ends, every operation atomic. */
  class Ring {
    const capacity: nat
    var items: Bytes

    predicate Valid()
      reads this
    {
      |items| <= capacity
    }

    constructor (capacity: nat)
      ensures Valid() && items == [] && this.capacity == capacity
    {
      this.capacity := capacity;
      items := [];
    }

    /** `ring::write`: as much as fits; the newest bytes are dropped. */
    method Write(src: Bytes) returns (n: nat)
      requires Valid()
      modifies this
      ensures Valid() && items == Pushed(capacity, old(items), src)
      ensures n == |items| - |old(items)|
    {
      var free := capacity - |items|;
      n := if |src| <= free then |src| else free;
      items := items + src[..n];
    }

    /** `ring::read` into `dst[at..at + len]`. */
    method Read(dst: array<byte>, at: nat, len: nat) returns (n: nat)
      requires Valid() && at + len <= dst.Length
      modifies this, dst
      ensures Valid() && n == Min(len, |old(items)|)
      ensures items == old(items)[n..]
      ensures dst[..] == old(dst[..at]) + old(items)[..n] + old(dst[at + n..])
    {
      n := if len <= |items| then len else |items|;
      CopyInto(dst, at, items[..n]);
      items := items[n..];
    }

    /** `ring::avail` */
    function Avail(): nat
      reads this
    {
      |items|
    }

    /** `ring::skip`: throws away the oldest `n` bytes, or all there are. */
    method Skip(n: nat) returns (skipped: nat)
      requires Valid()
      modifies this
      ensures Valid() && skipped == Min(n, |old(items)|) && items == old(items)[skipped..]
    {
      skipped := if n <= Avail() then n else Avail();
      if skipped == 0 {
        return 0;
      }
      items := items[skipped..];
    }
  }
}
