/** The block-wise fast paths of fips202.c, the shake interface built on them, and the sponge of FIPS 202. */
module SpongeBlocks {
  import opened Arithmetic
  import opened KeccakF
  import opened Sponge

  // ---- Whole lanes ----

  function Or64(a: bv64, b: bv64): bv64 {
    a | b
  }

  function And64(a: bv64, b: bv64): bv64 {
    a & b
  }

  function OrByteIn(x: bv64, j: nat, b: bv8): bv64
    requires j < 8
  {
    Or64(x, ByteAt(b, j))
  }

  /** The first n of eight bytes as a word in little-endian order. */
  function LoadBytes(b: seq<bv8>, n: nat): bv64
    requires n <= 8 && |b| == 8
  {
    if n == 0 then 0 else OrByteIn(LoadBytes(b, n - 1), n - 1, b[n - 1])
  }

  /** load64. */
  method Load64(x: seq<bv8>, at: nat) returns (r: bv64)
    requires at + 8 <= |x|
    ensures r == LoadBytes(x[at..at + 8], 8)
  {
    hide OrByteIn;
    r := 0;
    for i := 0 to 8
      invariant r == LoadBytes(x[at..at + 8], i)
    {
      r := OrByteIn(r, i, x[at + i]);
    }
  }

  /** store64. */
  method Store64(x: array<bv8>, at: nat, u: Lane)
    requires at + 8 <= x.Length
    modifies x
    ensures forall k :: 0 <= k < x.Length ==> x[k] == if at <= k < at + 8 then ByteOf(u, k - at) else old(x[k])
  {
    hide ByteOf;
    for i := 0 to 8
      invariant forall k :: 0 <= k < x.Length ==> x[k] == if at <= k < at + i then ByteOf(u, k - at) else old(x[k])
    {
      x[at + i] := ByteOf(u, i);
    }
  }

  /** The bytes from byte n on. */
  function HighBytes(n: nat): bv64 {
    match n
    case 0 => 0xFFFFFFFFFFFFFFFF
    case 1 => 0xFFFFFFFFFFFFFF00
    case 2 => 0xFFFFFFFFFFFF0000
    case 3 => 0xFFFFFFFFFF000000
    case 4 => 0xFFFFFFFF00000000
    case 5 => 0xFFFFFF0000000000
    case 6 => 0xFFFF000000000000
    case 7 => 0xFF00000000000000
    case _ => 0
  }

  /** Nothing in x from byte n on. */
  predicate ClearFrom(x: bv64, n: nat) {
    And64(x, HighBytes(n)) == 0
  }

  function XorWord(l: Lane, x: bv64): Lane {
    Lane(Xor64(l.bits, x))
  }

  /** A byte in place j has no bits elsewhere. */
  ghost predicate Inside(y: bv64, h: bv64, g: bv64) {
    y & !(h ^ g) == 0 && g & !h == 0
  }

  lemma PlainInside(b: bv8)
    ensures (b as bv64) & !(0xFFFFFFFFFFFFFFFF ^ 0xFFFFFFFFFFFFFF00) == 0
    ensures ((b as bv64) << 8) & !(0xFFFFFFFFFFFFFF00 ^ 0xFFFFFFFFFFFF0000) == 0
    ensures ((b as bv64) << 16) & !(0xFFFFFFFFFFFF0000 ^ 0xFFFFFFFFFF000000) == 0
    ensures ((b as bv64) << 24) & !(0xFFFFFFFFFF000000 ^ 0xFFFFFFFF00000000) == 0
    ensures ((b as bv64) << 32) & !(0xFFFFFFFF00000000 ^ 0xFFFFFF0000000000) == 0
    ensures ((b as bv64) << 40) & !(0xFFFFFF0000000000 ^ 0xFFFF000000000000) == 0
    ensures ((b as bv64) << 48) & !(0xFFFF000000000000 ^ 0xFF00000000000000) == 0
    ensures ((b as bv64) << 56) & !(0xFF00000000000000 ^ 0x0000000000000000) == 0
  {
  }

  lemma ByteInside(b: bv8, j: nat)
    requires j < 8
    ensures Inside(ByteAt(b, j), HighBytes(j), HighBytes(j + 1))
  {
    hide *;
    AllInside(b);
    if j == 0 {} else if j == 1 {} else if j == 2 {} else if j == 3 {} else if j == 4 {} else if j == 5 {} else if j == 6 {} else {}
  }

  lemma AllInside(b: bv8)
    ensures Inside(ByteAt(b, 0), HighBytes(0), HighBytes(1))
    ensures Inside(ByteAt(b, 1), HighBytes(1), HighBytes(2))
    ensures Inside(ByteAt(b, 2), HighBytes(2), HighBytes(3))
    ensures Inside(ByteAt(b, 3), HighBytes(3), HighBytes(4))
    ensures Inside(ByteAt(b, 4), HighBytes(4), HighBytes(5))
    ensures Inside(ByteAt(b, 5), HighBytes(5), HighBytes(6))
    ensures Inside(ByteAt(b, 6), HighBytes(6), HighBytes(7))
    ensures Inside(ByteAt(b, 7), HighBytes(7), HighBytes(8))
  {
    PlainInside(b);
  }

  lemma Disjoint(x: bv64, y: bv64, h: bv64, g: bv64)
    requires And64(x, h) == 0 && Inside(y, h, g)
    ensures And64(x, y) == 0 && And64(Or64(x, y), g) == 0
  {
  }

  lemma OrIsXor(x: bv64, y: bv64)
    requires And64(x, y) == 0
    ensures Or64(x, y) == Xor64(x, y)
  {
    PlainOrIsXor(x, y);
  }

  lemma PlainOrIsXor(x: bv64, y: bv64)
    requires x & y == 0
    ensures x | y == x ^ y
  {
  }

  lemma XorTwice(l: bv64, x: bv64, y: bv64)
    ensures Xor64(l, Xor64(x, y)) == Xor64(Xor64(l, x), y)
  {
  }

  /** The bytes of a word do not overlap, so or-ing them together and then xoring is xoring one by one. */
  lemma OrStep(l: Lane, x: bv64, b: bv8, n: nat)
    requires n < 8 && ClearFrom(x, n)
    ensures XorWord(l, OrByteIn(x, n, b)) == XorByteIn(XorWord(l, x), n, b)
    ensures ClearFrom(OrByteIn(x, n, b), n + 1)
  {
    hide ByteAt, HighBytes, Or64, Xor64, And64, Inside;
    ByteInside(b, n);
    Disjoint(x, ByteAt(b, n), HighBytes(n), HighBytes(n + 1));
    OrIsXor(x, ByteAt(b, n));
    XorTwice(l.bits, x, ByteAt(b, n));
  }

  lemma NoBytes(l: Lane)
    ensures XorWord(l, 0) == l && ClearFrom(0, 0)
  {
  }

  /** Xoring the first n bytes of a word into a lane. */
  function XorLane(l: Lane, b: seq<bv8>, n: nat): Lane
    requires n <= 8 && |b| == 8
  {
    if n == 0 then l else XorByteIn(XorLane(l, b, n - 1), n - 1, b[n - 1])
  }

  lemma {:induction false} XorLaneIs(l: Lane, b: seq<bv8>, n: nat)
    requires n <= 8 && |b| == 8
    ensures XorLane(l, b, n) == XorWord(l, LoadBytes(b, n)) && ClearFrom(LoadBytes(b, n), n)
  {
    hide XorByteIn, OrByteIn, XorWord, ClearFrom;
    NoBytes(l);
    if n > 0 {
      XorLaneIs(l, b, n - 1);
      OrStep(l, LoadBytes(b, n - 1), b[n - 1], n - 1);
    }
  }

  /** Xoring n bytes at the start of lane i changes that lane only. */
  lemma {:induction false} XorBytesLane(s: State, i: nat, b: seq<bv8>, n: nat)
    requires i < 25 && |b| == 8 && n <= 8
    ensures XorBytes(s, 8 * i, b[..n]) == s[i := XorLane(s[i], b, n)]
  {
    hide XorByteIn;
    if n > 0 {
      XorBytesLane(s, i, b, n - 1);
      assert b[..n][..n - 1] == b[..n - 1];
      assert (8 * i + n - 1) / 8 == i && (8 * i + n - 1) % 8 == n - 1;
    }
  }

  lemma {:induction false} XorBytesSplit(s: State, pos: nat, a: seq<bv8>, b: seq<bv8>)
    requires pos + |a| + |b| <= 200
    ensures XorBytes(s, pos, a + b) == XorBytes(XorBytes(s, pos, a), pos + |a|, b)
  {
    hide XorByte;
    if b == [] {
      assert a + b == a;
    } else {
      XorBytesSplit(s, pos, a, b[..|b| - 1]);
      assert (a + b)[..|a + b| - 1] == a + b[..|b| - 1];
    }
  }

  lemma NextLane(s: State, block: seq<bv8>, i: nat)
    requires 8 * i + 8 <= |block| <= 200
    ensures var t := XorBytes(s, 0, block[..8 * i]);
            XorBytes(s, 0, block[..8 * i + 8]) == t[i := XorWord(t[i], LoadBytes(block[8 * i..8 * i + 8], 8))]
  {
    hide XorBytes, XorLane, LoadBytes, XorWord;
    var t, b := XorBytes(s, 0, block[..8 * i]), block[8 * i..8 * i + 8];
    XorBytesSplit(s, 0, block[..8 * i], b);
    assert block[..8 * i] + b == block[..8 * i + 8];
    XorBytesLane(t, i, b, 8);
    assert b[..8] == b;
    XorLaneIs(t[i], b, 8);
  }

  lemma Subslice(b: seq<bv8>, from: nat, r: nat, i: nat)
    requires from + r <= |b| && i + 8 <= r
    ensures b[from..from + r][i..i + 8] == b[from + i..from + i + 8]
  {
    var c, d := b[from..from + r][i..i + 8], b[from + i..from + i + 8];
    assert forall k :: 0 <= k < 8 ==> c[k] == d[k];
  }

  /** Xors a block of r bytes into the state lane by lane. */
  method XorBlock(s: array<Lane>, input: seq<bv8>, from: nat, r: nat)
    requires s.Length == 25 && r <= 200 && r % 8 == 0 && from + r <= |input|
    modifies s
    ensures s[..] == XorBytes(old(s[..]), 0, input[from..from + r])
  {
    hide XorBytes, LoadBytes;
    ghost var was, block := s[..], input[from..from + r];
    XorBytesNone(was, 0, block);
    for i := 0 to r / 8
      invariant s[..] == XorBytes(was, 0, block[..8 * i])
    {
      assert 8 * i + 8 <= r;
      var w := Load64(input, from + 8 * i);
      NextLane(was, block, i);
      Subslice(input, from, r, 8 * i);
      s[i] := XorWord(s[i], w);
    }
    assert block[..r] == block;
  }

  /** keccak_absorb_once: absorbs into a cleared state and finalizes. */
  method KeccakAbsorbOnce(s: array<Lane>, r: nat, input: seq<bv8>, dom: bv8)
    requires s.Length == 25 && 0 < r <= 200 && r % 8 == 0
    modifies s
    ensures s[..] == Finalize(Absorb(Progress(Zero(), 0), r, input), r, dom)
  {
    hide Absorb, XorBytes, Permute, XorByteIn;
    for i := 0 to 25
      invariant forall k :: 0 <= k < i ==> s[k] == Lane(0)
    {
      s[i] := Lane(0);
    }
    assert s[..] == Zero();
    ghost var p := Progress(Zero(), 0);
    var next: nat, inlen: nat := 0, |input|;
    AbsorbNone(p, r, input);
    while inlen >= r
      invariant next + inlen == |input|
      invariant Progress(s[..], 0) == Absorb(p, r, input[..next])
      decreases inlen
    {
      ghost var q := Progress(s[..], 0);
      XorBlock(s, input, next, r);
      AbsorbWithin(q, r, input[next..next + r]);
      AbsorbMore(p, r, input, next, r);
      next, inlen := next + r, inlen - r;
      KeccakF1600StatePermute(s);
    }
    ghost var q := Progress(s[..], 0);
    XorInto(s, 0, input, next, inlen);
    AbsorbWithin(q, r, input[next..next + inlen]);
    AbsorbMore(p, r, input, next, inlen);
    assert input[..next + inlen] == input;
    KeccakFinalize(s, inlen, r, dom);
  }

  /** keccak_squeezeblocks: whole blocks, each after a permutation. */
  method KeccakSqueezeBlocks(out: array<bv8>, at: nat, nblocks: nat, s: array<Lane>, r: nat)
    requires s.Length == 25 && 0 < r <= 200 && r % 8 == 0 && at + nblocks * r <= out.Length && Separate(s, out)
    modifies out, s
    ensures Progress(s[..], r) == After(Progress(old(s[..]), r), r, nblocks * r)
    ensures forall k :: 0 <= k < out.Length ==>
      out[k] == if at <= k < at + nblocks * r then StreamByte(Progress(old(s[..]), r), r, k - at) else old(out[k])
  {
    hide StreamByte, Permute, GetByte;
    ghost var p, was := Progress(s[..], r), out[..];
    assert After(p, r, 0) == p;
    hide After;
    var done: nat, left := 0, nblocks;
    while left > 0
      invariant done == (nblocks - left) * r && 0 <= left <= nblocks
      invariant Progress(s[..], r) == After(p, r, done)
      invariant forall k :: 0 <= k < out.Length ==> out[k] == if at <= k < at + done then StreamByte(p, r, k - at) else was[k]
    {
      BlockRoom(nblocks, left, r);
      ghost var q := Progress(s[..], r);
      KeccakF1600StatePermute(s);
      ghost var c := s[..];
      Continue(p, q, r, done, r, 0, c);
      StoreBlock(out, at + done, s, r);
      assert s[..] == c;
      done := done + r;
      left := left - 1;
    }
  }

  lemma BlockRoom(n: int, left: int, r: int)
    requires 0 < left <= n && r >= 0
    ensures (n - left) * r + r == (n - (left - 1)) * r <= n * r
  {
    MulNonNegative(left - 1, r);
    DistributeRight(n - left, 1, r);
    DistributeRight(n - (left - 1), left - 1, r);
  }

  method StoreBlock(out: array<bv8>, at: nat, s: array<Lane>, r: nat)
    requires s.Length == 25 && r <= 200 && r % 8 == 0 && at + r <= out.Length && Separate(s, out)
    modifies out
    ensures forall k :: 0 <= k < out.Length ==> out[k] == if at <= k < at + r then GetByte(s[..], k - at) else old(out[k])
  {
    hide ByteOf;
    for i := 0 to r / 8
      invariant forall k :: 0 <= k < out.Length ==> out[k] == if at <= k < at + 8 * i then GetByte(old(s[..]), k - at) else old(out[k])
      invariant s[..] == old(s[..])
    {
      Store64(out, at + 8 * i, s[i]);
    }
  }
}
