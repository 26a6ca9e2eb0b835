/** LEB128 varints (section 7.6 of DWARF Version 5) as gip.rs and gip_init.py write and read them. */
module Varints {
  import opened ByteSeqs

  // ------------------------------------------------------------ meaning

  /** `b & 0x7f` */
  function Low(b: byte): nat { (b % 128) as nat }

  /** `b | 0x80` */
  function Continued(b: byte): byte { if b < 128 then b + 128 else b }

  /** Bytes of the varint that starts at `pos`, terminator included; 0 when `buf` ends first. */
  function VarintLength(buf: Bytes, pos: nat): (n: nat)
    ensures n > 0 ==> pos + n <= |buf|
    decreases |buf| - pos
  {
    if pos >= |buf| then 0
    else if buf[pos] < 128 then 1
    else
      var rest := VarintLength(buf, pos + 1);
      if rest == 0 then 0 else rest + 1
  }

  /** The number that varint stands for: seven bits a byte, lowest group first. */
  function VarintValue(buf: Bytes, pos: nat): nat
    decreases |buf| - pos
  {
    if pos >= |buf| then 0
    else Low(buf[pos]) + if buf[pos] < 128 then 0 else 128 * VarintValue(buf, pos + 1)
  }

  /** `v`, wherever it stands in a buffer, is read as the number `n`. */
  predicate Reads(buf: Bytes, pos: nat, len: nat, n: nat) {
    VarintLength(buf, pos) == len && VarintValue(buf, pos) == n
  }

  /** The canonical encoding both writers produce. */
  function Varint(n: nat): Bytes {
    if n < 128 then [n as byte] else [(n % 128 + 128) as byte] + Varint(n / 128)
  }

  /** Continuation bit on the last byte and a zero terminator after it. */
  function Extended(v: Bytes): Bytes
    requires |v| > 0
  {
    v[..|v| - 1] + [Continued(v[|v| - 1]), 0]
  }

  lemma {:induction false} VarintReadBack(pre: Bytes, n: nat, post: Bytes)
    ensures Reads(pre + Varint(n) + post, |pre|, |Varint(n)|, n)
    decreases n
  {
    var buf := pre + Varint(n) + post;
    if n >= 128 {
      var b := (n % 128 + 128) as byte;
      VarintReadBack(pre + [b], n / 128, post);
      assert buf == pre + [b] + Varint(n / 128) + post;
      assert buf[|pre|] == b && |pre + [b]| == |pre| + 1;
    } else {
      assert buf[|pre|] == n as byte;
    }
  }

  lemma {:induction false} ExtendedReadBack(pre: Bytes, n: nat, post: Bytes)
    ensures Reads(pre + Extended(Varint(n)) + post, |pre|, |Varint(n)| + 1, n)
    decreases n
  {
    var buf := pre + Extended(Varint(n)) + post;
    if n >= 128 {
      var b := (n % 128 + 128) as byte;
      ExtendedReadBack(pre + [b], n / 128, post);
      var e := Extended(Varint(n / 128));
      assert Extended(Varint(n)) == [b] + e;
      assert buf == pre + [b] + e + post;
      assert buf[|pre|] == b && |pre + [b]| == |pre| + 1;
    } else {
      assert buf[|pre|] == n as byte + 128 && buf[|pre| + 1] == 0;
      assert VarintLength(buf, |pre| + 1) == 1 && VarintValue(buf, |pre| + 1) == 0;
    }
  }

  /** `Varint(n)` is the one shortest encoding: any other bytes read as `n` take more room. */
  lemma {:induction false} VarintIsShortest(buf: Bytes, pos: nat)
    requires VarintLength(buf, pos) > 0
    ensures var len, v := VarintLength(buf, pos), Varint(VarintValue(buf, pos));
            |v| <= len && (|v| == len ==> buf[pos..pos + len] == v)
    decreases |buf| - pos
  {
    if buf[pos] >= 128 {
      VarintIsShortest(buf, pos + 1);
      var len, n := VarintLength(buf, pos), VarintValue(buf, pos);
      assert n / 128 == VarintValue(buf, pos + 1) && n % 128 == Low(buf[pos]);
      assert buf[pos..pos + len] == [buf[pos]] + buf[pos + 1..pos + len];
    }
  }

  lemma {:induction false} VarintLengthBound(n: nat, groups: nat)
    requires groups > 0
    ensures |Varint(n)| <= groups <==> n < Shl(1, 7 * groups)
  {
    ShlSeven(1, 7 * groups - 7);
    if groups == 1 {
    } else {
      var p := Shl(1, 7 * groups - 7);
      assert 7 * (groups - 1) == 7 * groups - 7;
      if n >= 128 {
        VarintLengthBound(n / 128, groups - 1);
        assert n / 128 < p <==> n < 128 * p;
      } else {
        ShlPositive(7 * groups - 7);
      }
    }
  }

  // ------------------------------------------------------------ shift and or

  /** `x << k` on unbounded integers. */
  function Shl(x: nat, k: nat): nat { if k == 0 then x else 2 * Shl(x, k - 1) }

  /** `a | b` bit by bit. */
  function BitOr(a: nat, b: nat): nat
    decreases a + b
  {
    if a == 0 && b == 0 then 0
    else (if a % 2 == 1 || b % 2 == 1 then 1 else 0) + 2 * BitOr(a / 2, b / 2)
  }

  lemma {:induction false} ShlPositive(k: nat)
    ensures Shl(1, k) > 0
  {
    if k > 0 { ShlPositive(k - 1); }
  }

  lemma {:induction false} ShlZero(k: nat)
    ensures Shl(0, k) == 0
  {
    if k > 0 { ShlZero(k - 1); }
  }

  lemma ShlSeven(x: nat, k: nat)
    ensures Shl(x, k + 7) == 128 * Shl(x, k)
  {
    var p := Shl(x, k);
    assert Shl(x, k + 1) == 2 * p;
    assert Shl(x, k + 2) == 4 * p;
    assert Shl(x, k + 3) == 8 * p;
    assert Shl(x, k + 4) == 16 * p;
    assert Shl(x, k + 5) == 32 * p;
    assert Shl(x, k + 6) == 64 * p;
  }

  /** Shifting one group and the groups above it. */
  lemma {:induction false} ShlGroups(x: nat, y: nat, k: nat)
    ensures Shl(x + 128 * y, k) == Shl(x, k) + Shl(y, k + 7)
    ensures x < 128 ==> Shl(x, k) <= 127 * Shl(1, k)
  {
    ShlSeven(y, k);
    if k > 0 {
      ShlGroups(x, y, k - 1);
      ShlSeven(y, k - 1);
    }
  }

  lemma {:induction false} BitOrZero(b: nat)
    ensures BitOr(0, b) == b
  {
    if b > 0 { BitOrZero(b / 2); }
  }

  /** Or-ing a number shifted to bit `k` into one below bit `k` adds them. */
  lemma {:induction false} BitOrDisjoint(a: nat, c: nat, k: nat)
    requires a < Shl(1, k)
    ensures BitOr(a, Shl(c, k)) == a + Shl(c, k)
  {
    if k == 0 {
      BitOrZero(c);
    } else {
      var q := Shl(c, k - 1);
      BitOrDisjoint(a / 2, c, k - 1);
      assert (2 * q) / 2 == q && (2 * q) % 2 == 0;
    }
  }

  // ------------------------------------------------------------ reading

  /** What both loops keep while they have only seen continuation bytes from `pos` up to `i`:
      the groups taken so far and the ones still ahead make up the whole varint. */
  predicate StillOpen(buf: Bytes, pos: nat, i: nat, value: nat) {
    && pos <= i
    && value < Shl(1, 7 * (i - pos))
    && VarintValue(buf, pos) == value + Shl(VarintValue(buf, i), 7 * (i - pos))
    && VarintLength(buf, pos) == (if VarintLength(buf, i) == 0 then 0 else i - pos + VarintLength(buf, i))
  }

  /** One turn on unbounded integers. */
  lemma Turn(buf: Bytes, pos: nat, i: nat, value: nat)
    requires i < |buf| && StillOpen(buf, pos, i, value)
    ensures var next := value + Shl(Low(buf[i]), 7 * (i - pos));
            && BitOr(value, Shl(Low(buf[i]), 7 * (i - pos))) == next
            && (if buf[i] < 128 then Reads(buf, pos, i + 1 - pos, next)
                else StillOpen(buf, pos, i + 1, next))
  {
    var x, k := Low(buf[i]), 7 * (i - pos);
    assert 7 * (i + 1 - pos) == k + 7;
    BitOrDisjoint(value, x, k);
    ShlGroups(x, VarintValue(buf, i + 1), k);
    ShlSeven(1, k);
  }

  /** What `read_varint` can do. The sixth byte needs a shift of 35 on a `u32`, which Rust
      does not define: a debug build panics there and a release build masks the shift. */
  datatype VarintRead = Incomplete | Overlong | Value(value: nat, consumed: nat)

  /** gip.rs `read_varint`: up to five bytes are read modulo 2^32. */
  function RustVarint(buf: Bytes, pos: nat): VarintRead {
    var n := VarintLength(buf, pos);
    if n > 5 || (n == 0 && pos + 6 <= |buf|) then Overlong
    else if n == 0 then Incomplete
    else Value(Wrap32(VarintValue(buf, pos)), n)
  }

  lemma ShlTable(x: nat)
    ensures Shl(x, 0) == x && Shl(x, 7) == 0x80 * x && Shl(x, 14) == 0x4000 * x
    ensures Shl(x, 21) == 0x20_0000 * x && Shl(x, 28) == 0x1000_0000 * x
    ensures Shl(x, 35) == 0x8_0000_0000 * x
  {
    ShlSeven(x, 0);
    ShlSeven(x, 7);
    ShlSeven(x, 14);
    ShlSeven(x, 21);
    ShlSeven(x, 28);
  }

  /** Seven bits shifted to group `j` of a `u32`: only the fifth group can lose bits. */
  function Kept(j: nat, x: nat): nat { if j == 4 then x % 16 else x }

  lemma ShiftTruncates(a: nat, j: nat, x: nat)
    requires j < 5 && x < 128 && a < Shl(1, 7 * j)
    ensures Wrap32(a + Shl(x, 7 * j)) == a + Shl(Kept(j, x), 7 * j)
    ensures j < 4 ==> a + Shl(x, 7 * j) < U32
  {
    ShlTable(1);
    if j == 4 {
      ShlTable(x);
      ShlTable(x % 16);
      FifthGroup(a, x);
    } else {
      ShlGroups(x, 0, 7 * j);
    }
  }

  /** One turn of the `u32` accumulator: the shift drops the bits above the word, and or-ing
      what is left keeps the value modulo 2^32. */
  lemma RustTurn(value: nat, j: nat, x: nat)
    requires j < 5 && x < 128 && value < Shl(1, 7 * j)
    ensures BitOr(value, Wrap32(Shl(x, 7 * j))) == Wrap32(value + Shl(x, 7 * j))
    ensures j < 4 ==> value + Shl(x, 7 * j) < U32
  {
    ShlPositive(7 * j);
    ShiftTruncates(0, j, x);
    ShiftTruncates(value, j, x);
    BitOrDisjoint(value, Kept(j, x), 7 * j);
  }

  lemma FifthGroup(a: nat, x: nat)
    requires a < 0x1000_0000 && x < 128
    ensures Wrap32(a + 0x1000_0000 * x) == a + 0x1000_0000 * (x % 16)
  {
    var q, r := x / 16, x % 16;
    assert a + 0x1000_0000 * x == q * 0x1_0000_0000 + (a + 0x1000_0000 * r);
  }

  /** How the Rust loop ends, or goes on, at byte `i`. */
  lemma RustStep(buf: Bytes, pos: nat, i: nat, value: nat)
    requires pos <= i < |buf| && i - pos <= 5 && StillOpen(buf, pos, i, value)
    ensures i - pos == 5 ==> RustVarint(buf, pos) == Overlong
    ensures i - pos < 5 ==>
              var next := BitOr(value, Wrap32(Shl(Low(buf[i]), 7 * (i - pos))));
              if buf[i] < 128 then RustVarint(buf, pos) == Value(next, i + 1 - pos)
              else var exact := value + Shl(Low(buf[i]), 7 * (i - pos));
                   StillOpen(buf, pos, i + 1, exact) && (i - pos < 4 ==> next == exact)
  {
    if i - pos < 5 {
      RustTurn(value, i - pos, Low(buf[i]));
      Turn(buf, pos, i, value);
    }
  }

  /** gip.rs `read_varint`, loop for loop. */
  method ReadVarint(buf: Bytes, pos: nat) returns (r: VarintRead)
    ensures r == RustVarint(buf, pos)
  {
    var value: nat := 0;
    var shift: nat := 0;
    var i := pos;
    ghost var exact: nat := 0;
    while i < |buf|
      invariant pos <= i <= Max(pos, |buf|)
      invariant i - pos <= 5 && shift == 7 * (i - pos)
      invariant StillOpen(buf, pos, i, exact)
      invariant i - pos < 5 ==> value == exact
      decreases |buf| - i
    {
      RustStep(buf, pos, i, exact);
      if shift >= 32 {
        return Overlong;
      }
      var b := buf[i];
      value := BitOr(value, Wrap32(Shl(Low(b), shift)));
      i := i + 1;
      if b < 128 {
        return Value(value, i - pos);
      }
      exact := exact + Shl(Low(b), shift);
      shift := shift + 7;
    }
    return Incomplete;
  }

  // ------------------------------------------------------------ the release build

  /** A release build masks the shift of a `u32` to 0..31. */
  function Masked(shift: nat): nat { shift % 32 }

  /** What it has in its accumulator after `n` bytes. */
  function ReleaseValue(buf: Bytes, pos: nat, n: nat): nat
    requires pos + n <= |buf|
  {
    if n == 0 then 0
    else BitOr(ReleaseValue(buf, pos, n - 1), Wrap32(Shl(Low(buf[pos + n - 1]), Masked(7 * (n - 1)))))
  }

  lemma ReleaseNext(buf: Bytes, pos: nat, i: nat)
    requires pos <= i < |buf|
    ensures ReleaseValue(buf, pos, i + 1 - pos)
            == BitOr(ReleaseValue(buf, pos, i - pos), Wrap32(Shl(Low(buf[i]), Masked(7 * (i - pos)))))
  {
  }

  function ReleaseVarint(buf: Bytes, pos: nat): VarintRead {
    var n := VarintLength(buf, pos);
    if n == 0 then Incomplete else Value(ReleaseValue(buf, pos, n), n)
  }

  /** gip.rs `read_varint` in a release build, for varints of any length. */
  method ReadVarintRelease(buf: Bytes, pos: nat) returns (r: VarintRead)
    ensures r == ReleaseVarint(buf, pos)
  {
    var value: nat := 0;
    var shift: nat := 0;
    var i := pos;
    while i < |buf|
      invariant pos <= i <= Max(pos, |buf|) && shift == 7 * (i - pos)
      invariant i <= |buf| ==> value == ReleaseValue(buf, pos, i - pos)
      invariant VarintLength(buf, pos) == if VarintLength(buf, i) == 0 then 0 else i - pos + VarintLength(buf, i)
      decreases |buf| - i
    {
      ReleaseNext(buf, pos, i);
      var b := buf[i];
      value := BitOr(value, Wrap32(Shl(Low(b), Masked(shift))));
      i := i + 1;
      if b < 128 {
        return Value(value, i - pos);
      }
      shift := shift + 7;
    }
    return Incomplete;
  }

  lemma SmallShift(j: nat)
    requires j < 5
    ensures Masked(7 * j) == 7 * j
  {
  }

  /** Up to byte `i` the release build has the number so far, exactly. */
  predicate ReleaseOpen(buf: Bytes, pos: nat, i: nat, exact: nat) {
    && pos <= i < |buf| && i - pos < 5 && StillOpen(buf, pos, i, exact)
    && VarintLength(buf, i) > 0 && ReleaseValue(buf, pos, i - pos) == exact
  }

  lemma ReleaseGoesOn(buf: Bytes, pos: nat, i: nat, exact: nat)
    requires ReleaseOpen(buf, pos, i, exact) && buf[i] >= 128 && VarintLength(buf, pos) <= 5
    ensures ReleaseOpen(buf, pos, i + 1, exact + Shl(Low(buf[i]), 7 * (i - pos)))
  {
    RustStep(buf, pos, i, exact);
    SmallShift(i - pos);
    ReleaseNext(buf, pos, i);
  }

  lemma ReleaseEnds(buf: Bytes, pos: nat, i: nat, exact: nat)
    requires ReleaseOpen(buf, pos, i, exact) && buf[i] < 128
    ensures ReleaseVarint(buf, pos) == RustVarint(buf, pos)
  {
    RustStep(buf, pos, i, exact);
    SmallShift(i - pos);
    ReleaseNext(buf, pos, i);
  }

  /** Both builds read the same wherever the debug build reads at all. */
  lemma ReleaseAgrees(buf: Bytes, pos: nat)
    requires !RustVarint(buf, pos).Overlong?
    ensures ReleaseVarint(buf, pos) == RustVarint(buf, pos)
  {
    if VarintLength(buf, pos) > 0 {
      var i, exact: nat := pos, 0;
      while buf[i] >= 128
        invariant ReleaseOpen(buf, pos, i, exact)
        decreases |buf| - i
      {
        ReleaseGoesOn(buf, pos, i, exact);
        exact := exact + Shl(Low(buf[i]), 7 * (i - pos));
        i := i + 1;
      }
      ReleaseEnds(buf, pos, i, exact);
    }
  }

  // ------------------------------------------------------------ writing

  /** A growable byte vector (`Vec<u8>`). */
  class ByteVec {
    var bytes: Bytes

    constructor ()
      ensures bytes == []
    {
      bytes := [];
    }
  }

  /** gip.rs `write_varint`: appends to the caller's vector. */
  method WriteVarint(out: ByteVec, value: nat)
    requires value < U32
    modifies out
    ensures out.bytes == old(out.bytes) + Varint(value)
  {
    var rest := value;
    while true
      invariant out.bytes + Varint(rest) == old(out.bytes) + Varint(value)
      decreases rest
    {
      var low := (rest % 128) as byte;
      var here := rest;
      rest := rest / 128;
      if rest != 0 {
        low := Continued(low);
      }
      assert Varint(here) == if rest == 0 then [low] else [low] + Varint(rest);
      Assoc(out.bytes, [low], Varint(rest));
      out.bytes := out.bytes + [low];
      if rest == 0 {
        break;
      }
    }
  }

  /** gip_init.py `encode_varint`: the other loop shape, the same bytes. */
  method EncodeVarint(value: nat) returns (result: Bytes)
    ensures result == Varint(value)
  {
    result := [];
    var rest := value;
    while rest > 0x7F
      invariant result + Varint(rest) == Varint(value)
    {
      var low := Continued((rest % 128) as byte);
      assert Varint(rest) == [low] + Varint(rest / 128);
      Assoc(result, [low], Varint(rest / 128));
      result := result + [low];
      rest := rest / 128;
    }
    result := result + [(rest % 128) as byte];
  }
}
