/** Bytes, byte strings and the few machine-word facts the other modules share. */
module ByteSeqs {

  newtype byte = b: int | 0 <= b < 256

  type Bytes = seq<byte>

  /** Number of values of a `u32` / `uint32_t`. */
  const U32: int := 0x1_0000_0000

  /** Truncation to a `u32`. */
  function Wrap32(n: int): (r: nat)
    ensures r < 0x1_0000_0000
    ensures 0 <= n < 0x1_0000_0000 ==> r == n
  {
    n % 0x1_0000_0000
  }

  /** Truncation to a `u64`. */
  function Wrap64(n: int): (r: nat)
    ensures r < 0x1_0000_0000_0000_0000
    ensures 0 <= n < 0x1_0000_0000_0000_0000 ==> r == n
  {
    n % 0x1_0000_0000_0000_0000
  }

  datatype Option<+T> = None | Some(value: T)

  function Min(a: int, b: int): int { if a <= b then a else b }

  function Max(a: int, b: int): int { if a <= b then b else a }

  function Zeros(n: nat): (z: Bytes)
    ensures |z| == n && forall i :: 0 <= i < n ==> z[i] == 0
  {
    seq(n, _ => 0)
  }

  /** The last `n` bytes of `s`. */
  function Last(s: Bytes, n: nat): Bytes
    requires n <= |s|
  {
    s[|s| - n..]
  }

  /** Little- and big-endian 16-bit fields (`struct.pack('<H')`, `to_le_bytes`, `'>H'`). */
  function Le16(n: nat): Bytes
    requires n < 0x1_0000
  {
    [(n % 256) as byte, (n / 256) as byte]
  }

  function Be16(n: nat): Bytes
    requires n < 0x1_0000
  {
    [(n / 256) as byte, (n % 256) as byte]
  }

  // ------------------------------------------------------------ flags

  /** `opts & 0x80 != 0` */
  predicate Bit7(opts: byte) { opts >= 0x80 }

  /** `opts & 0x40 != 0` */
  predicate Bit6(opts: byte) { opts % 0x80 >= 0x40 }

  /** `opts & 0x10 != 0` */
  predicate Bit4(opts: byte) { opts % 0x20 >= 0x10 }

  /** The three flags are bits 7, 6 and 4: every byte is its bits. */
  lemma FlagBits(b7: nat, b6: nat, b5: nat, b4: nat, low: nat)
    requires b7 < 2 && b6 < 2 && b5 < 2 && b4 < 2 && low < 16
    ensures var b := (128 * b7 + 64 * b6 + 32 * b5 + 16 * b4 + low) as byte;
            (Bit7(b) <==> b7 == 1) && (Bit6(b) <==> b6 == 1) && (Bit4(b) <==> b4 == 1)
  {
  }

  /** Odd numbers, told apart without division: `OddIsMod2` says it is `n % 2 == 1`. */
  predicate Odd(n: nat) { if n < 2 then n == 1 else Odd(n - 2) }

  lemma {:induction false} OddIsMod2(n: nat)
    ensures Odd(n) <==> n % 2 == 1
  {
    if n >= 2 { OddIsMod2(n - 2); }
  }

  // ------------------------------------------------------------ joining

  /** All parts one after the other. */
  function Join<T>(parts: seq<seq<T>>): seq<T> {
    if parts == [] then [] else parts[0] + Join(parts[1..])
  }

  lemma Assoc<T>(a: seq<T>, b: seq<T>, c: seq<T>)
    ensures a + (b + c) == (a + b) + c
  {
  }

  lemma {:induction false} JoinAppend<T>(a: seq<seq<T>>, b: seq<seq<T>>)
    ensures Join(a + b) == Join(a) + Join(b)
  {
    if a == [] {
      assert a + b == b;
    } else {
      JoinAppend(a[1..], b);
      assert (a + b)[0] == a[0] && (a + b)[1..] == a[1..] + b;
      Assoc(a[0], Join(a[1..]), Join(b));
    }
  }

  lemma JoinSnoc<T>(a: seq<seq<T>>, x: seq<T>)
    ensures Join(a + [x]) == Join(a) + x
  {
    JoinAppend(a, [x]);
    assert Join([x]) == x + Join<T>([]);
  }

  lemma {:induction false} JoinUniform<T>(parts: seq<seq<T>>, n: nat)
    requires forall i :: 0 <= i < |parts| ==> |parts[i]| == n
    ensures |Join(parts)| == n * |parts|
  {
    if parts != [] {
      JoinUniform(parts[1..], n);
    }
  }

  /** `memmove`/`copy_from_slice`: `src` over `dst[at..at + |src|]`, nothing else. */
  method CopyInto(dst: array<byte>, at: nat, src: Bytes)
    requires at + |src| <= dst.Length
    modifies dst
    ensures dst[..] == old(dst[..at]) + src + old(dst[at + |src|..])
  {
    for i := 0 to |src|
      invariant dst[..at] == old(dst[..at])
      invariant dst[at..at + i] == src[..i]
      invariant dst[at + i..] == old(dst[at + i..])
    {
      assert old(dst[at + i..])[1..] == old(dst[at + i + 1..]);
      dst[at + i] := src[i];
      assert dst[at..at + i + 1] == dst[at..at + i] + [src[i]];
    }
    assert src[..|src|] == src;
    assert dst[..] == dst[..at] + dst[at..at + |src|] + dst[at + |src|..];
  }
}
