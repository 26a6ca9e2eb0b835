/** `auth_prf` of gip_init.py and the P_hash of section 5 of RFC 5246 it computes. */
module Prf {
  import opened ByteSeqs

  /** HMAC is taken as any function of key and data with a non-empty result. */
  ghost predicate Usable(h: (Bytes, Bytes) -> Bytes) {
    forall key: Bytes, data: Bytes :: |h(key, data)| > 0
  }

  /** A(0) = seed, A(i) = HMAC(secret, A(i - 1)). */
  function A(h: (Bytes, Bytes) -> Bytes, secret: Bytes, seed: Bytes, i: nat): Bytes {
    if i == 0 then seed else h(secret, A(h, secret, seed, i - 1))
  }

  /** The first `n` blocks: HMAC(secret, A(1) + seed) + HMAC(secret, A(2) + seed) + .. */
  function PHash(h: (Bytes, Bytes) -> Bytes, secret: Bytes, seed: Bytes, n: nat): Bytes {
    if n == 0 then [] else PHash(h, secret, seed, n - 1) + h(secret, A(h, secret, seed, n) + seed)
  }

  /** More blocks only append, and every block adds something. */
  lemma {:induction false} PHashGrows(h: (Bytes, Bytes) -> Bytes, secret: Bytes, seed: Bytes, n: nat, m: nat)
    requires Usable(h) && n <= m
    ensures PHash(h, secret, seed, n) <= PHash(h, secret, seed, m)
    ensures |PHash(h, secret, seed, m)| >= |PHash(h, secret, seed, n)| + (m - n)
    decreases m
  {
    if n < m {
      PHashGrows(h, secret, seed, n, m - 1);
      assert |h(secret, A(h, secret, seed, m) + seed)| > 0;
    }
  }

  /** As much of P_hash(key, tag + seed) as is asked for; `length` blocks always suffice. */
  ghost function Expanded(h: (Bytes, Bytes) -> Bytes, key: Bytes, seed: Bytes, length: nat): (r: Bytes)
    requires Usable(h)
    ensures |r| == length
  {
    PHashGrows(h, key, seed, 0, length);
    PHash(h, key, seed, length)[..length]
  }

  /** `auth_prf`: exactly `length` bytes of P_hash over label (`tag`) and seed. It stops because every HMAC
      adds at least one byte. */
  method AuthPrf(h: (Bytes, Bytes) -> Bytes, key: Bytes, tag: Bytes, seed: Bytes, length: nat)
    returns (r: Bytes)
    requires Usable(h)
    ensures |r| == length && r == Expanded(h, key, tag + seed, length)
  {
    var a := h(key, tag + seed);
    var out: Bytes := [];
    ghost var blocks := 0;
    while |out| < length
      invariant out == PHash(h, key, tag + seed, blocks)
      invariant a == A(h, key, tag + seed, blocks + 1)
      decreases length - |out|
    {
      Assoc(a, tag, seed);
      assert |h(key, a + tag + seed)| > 0;
      out := out + h(key, a + tag + seed);
      a := h(key, a);
      blocks := blocks + 1;
    }
    PrefixOfBoth(h, key, tag + seed, blocks, length);
    r := out[..length];
  }

  lemma PrefixOfBoth(h: (Bytes, Bytes) -> Bytes, key: Bytes, seed: Bytes, blocks: nat, length: nat)
    requires Usable(h) && |PHash(h, key, seed, blocks)| >= length
    ensures PHash(h, key, seed, blocks)[..length] == Expanded(h, key, seed, length)
  {
    PHashGrows(h, key, seed, 0, length);
    if blocks <= length {
      PHashGrows(h, key, seed, blocks, length);
    } else {
      PHashGrows(h, key, seed, length, blocks);
    }
  }

  /** Shorter outputs are prefixes of longer ones. */
  lemma ExpandedPrefix(h: (Bytes, Bytes) -> Bytes, key: Bytes, seed: Bytes, short: nat, long: nat)
    requires Usable(h) && short <= long
    ensures Expanded(h, key, seed, short) == Expanded(h, key, seed, long)[..short]
  {
    PHashGrows(h, key, seed, 0, short);
    PHashGrows(h, key, seed, 0, long);
    PHashGrows(h, key, seed, short, long);
  }

  /** With 32-byte HMACs, block `i` of the output is HMAC(key, A(i + 1) + seed). */
  lemma {:induction false} ExpandedBlock(h: (Bytes, Bytes) -> Bytes, key: Bytes, seed: Bytes, length: nat, i: nat)
    requires forall k: Bytes, d: Bytes :: |h(k, d)| == 32
    requires 32 * (i + 1) <= length
    ensures Usable(h)
    ensures Expanded(h, key, seed, length)[32 * i..32 * (i + 1)] == h(key, A(h, key, seed, i + 1) + seed)
  {
    PHashSize(h, key, seed, i);
    PHashSize(h, key, seed, i + 1);
    PHashGrows(h, key, seed, i + 1, length);
    PHashGrows(h, key, seed, 0, length);
    var block := h(key, A(h, key, seed, i + 1) + seed);
    assert PHash(h, key, seed, i + 1)[32 * i..32 * (i + 1)] == block;
    assert Expanded(h, key, seed, length)[..32 * (i + 1)] == PHash(h, key, seed, i + 1);
  }

  lemma {:induction false} PHashSize(h: (Bytes, Bytes) -> Bytes, key: Bytes, seed: Bytes, n: nat)
    requires forall k: Bytes, d: Bytes :: |h(k, d)| == 32
    ensures |PHash(h, key, seed, n)| == 32 * n
  {
    if n > 0 {
      PHashSize(h, key, seed, n - 1);
    }
  }

  /** The first two blocks with their HMACs written out. */
  lemma FirstTwoBlocks(h: (Bytes, Bytes) -> Bytes, key: Bytes, seed: Bytes)
    requires forall k: Bytes, d: Bytes :: |h(k, d)| == 32
    ensures Usable(h)
    ensures Expanded(h, key, seed, 64) == h(key, h(key, seed) + seed) + h(key, h(key, h(key, seed)) + seed)
  {
    ExpandedBlock(h, key, seed, 64, 0);
    ExpandedBlock(h, key, seed, 64, 1);
    var r := Expanded(h, key, seed, 64);
    assert A(h, key, seed, 0) == seed && A(h, key, seed, 1) == h(key, seed);
    assert A(h, key, seed, 2) == h(key, h(key, seed));
    assert r == r[0..32] + r[32..64];
  }
}
