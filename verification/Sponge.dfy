/** The sponge construction of fips202.c, byte by byte, over the Keccak permutation. */
module Sponge {
  import opened KeccakF

  // ---- Bytes of the state ----

  /** A byte in place j of a word. */
  function ByteAt(b: bv8, j: nat): bv64
    requires j < 8
  {
    match j
    case 0 => b as bv64
    case 1 => (b as bv64) << 8
    case 2 => (b as bv64) << 16
    case 3 => (b as bv64) << 24
    case 4 => (b as bv64) << 32
    case 5 => (b as bv64) << 40
    case 6 => (b as bv64) << 48
    case _ => (b as bv64) << 56
  }

  function Xor64(a: bv64, b: bv64): bv64 {
    a ^ b
  }

  function XorByteIn(l: Lane, j: nat, b: bv8): Lane
    requires j < 8
  {
    Lane(Xor64(l.bits, ByteAt(b, j)))
  }

  function ByteOf(l: Lane, j: nat): bv8
    requires j < 8
  {
    ((l.bits >> (8 * j)) & 0xFF) as bv8
  }

  function XorByte(s: State, i: nat, b: bv8): State
    requires i < 200
  {
    s[i / 8 := XorByteIn(s[i / 8], i % 8, b)]
  }

  function GetByte(s: State, i: nat): bv8
    requires i < 200
  {
    ByteOf(s[i / 8], i % 8)
  }

  function Zero(): State {
    seq(25, _ => Lane(0))
  }

  // ---- Absorbing ----

  /** The state and the position in the current block. */
  datatype Progress = Progress(s: State, pos: nat)

  /** Xors bytes into the state from position pos on. */
  function XorBytes(s: State, pos: nat, b: seq<bv8>): State
    requires pos + |b| <= 200
  {
    if b == [] then s else XorByte(XorBytes(s, pos, b[..|b| - 1]), pos + |b| - 1, b[|b| - 1])
  }

  function AbsorbByte(p: Progress, r: nat, b: bv8): (q: Progress)
    requires p.pos < r <= 200
    ensures q.pos == if p.pos + 1 == r then 0 else p.pos + 1
  {
    if p.pos + 1 == r then Progress(Permute(XorByte(p.s, p.pos, b)), 0) else Progress(XorByte(p.s, p.pos, b), p.pos + 1)
  }

  /** Absorbs a byte string one byte at a time, permuting whenever a block of r bytes is full. */
  function Absorb(p: Progress, r: nat, b: seq<bv8>): (q: Progress)
    requires p.pos < r <= 200
    ensures q.pos < r
  {
    if b == [] then p else AbsorbByte(Absorb(p, r, b[..|b| - 1]), r, b[|b| - 1])
  }

  /** Absorbing in two pieces is absorbing the whole. */
  lemma {:induction false} AbsorbSplit(p: Progress, r: nat, a: seq<bv8>, b: seq<bv8>)
    requires p.pos < r <= 200
    ensures Absorb(p, r, a + b) == Absorb(Absorb(p, r, a), r, b)
  {
    hide AbsorbByte;
    if b == [] {
      assert a + b == a;
    } else {
      AbsorbSplit(p, r, a, b[..|b| - 1]);
      assert (a + b)[..|a + b| - 1] == a + b[..|b| - 1];
    }
  }

  function Concat(chunks: seq<seq<bv8>>): seq<bv8> {
    if chunks == [] then [] else Concat(chunks[..|chunks| - 1]) + chunks[|chunks| - 1]
  }

  /** A run of absorb calls, one for each chunk. */
  function AbsorbAll(p: Progress, r: nat, chunks: seq<seq<bv8>>): (q: Progress)
    requires p.pos < r <= 200
    ensures q.pos < r
  {
    if chunks == [] then p else Absorb(AbsorbAll(p, r, chunks[..|chunks| - 1]), r, chunks[|chunks| - 1])
  }

  /** Any way of cutting the input into absorb calls gives the same state. */
  lemma {:induction false} AbsorbChunks(p: Progress, r: nat, chunks: seq<seq<bv8>>)
    requires p.pos < r <= 200
    ensures AbsorbAll(p, r, chunks) == Absorb(p, r, Concat(chunks))
  {
    if chunks != [] {
      var n := |chunks| - 1;
      AbsorbChunks(p, r, chunks[..n]);
      AbsorbSplit(p, r, Concat(chunks[..n]), chunks[n]);
    }
  }

  /** Within a block absorbing is xoring. */
  lemma {:induction false} AbsorbWithin(p: Progress, r: nat, b: seq<bv8>)
    requires p.pos < r <= 200 && p.pos + |b| <= r
    ensures Absorb(p, r, b) == if p.pos + |b| < r then Progress(XorBytes(p.s, p.pos, b), p.pos + |b|)
                               else Progress(Permute(XorBytes(p.s, p.pos, b)), 0)
  {
    hide XorByte, Permute;
    if b != [] { AbsorbWithin(p, r, b[..|b| - 1]); }
  }

  lemma XorBytesSnoc(s: State, pos: nat, b: seq<bv8>, n: nat)
    requires n < |b| && pos + |b| <= 200
    ensures XorBytes(s, pos, b[..n + 1]) == XorByte(XorBytes(s, pos, b[..n]), pos + n, b[n])
  {
    hide XorByte;
    assert b[..n + 1][..n] == b[..n];
  }

  /** Xors input[from..from + n] into the state array from position pos: the two inner loops of keccak_absorb. */
  method XorInto(s: array<Lane>, pos: nat, input: seq<bv8>, from: nat, n: nat)
    requires s.Length == 25 && pos + n <= 200 && from + n <= |input|
    modifies s
    ensures s[..] == XorBytes(old(s[..]), pos, input[from..from + n])
  {
    hide XorBytes, XorByteIn;
    ghost var was, b := s[..], input[from..from + n];
    XorBytesNone(was, pos, b);
    for i := pos to pos + n
      invariant s[..] == XorBytes(was, pos, b[..i - pos])
    {
      XorBytesSnoc(was, pos, b, i - pos);
      s[i / 8] := XorByteIn(s[i / 8], i % 8, input[from + (i - pos)]);
    }
    assert b[..n] == b;
  }

  lemma XorBytesNone(s: State, pos: nat, b: seq<bv8>)
    requires pos <= 200
    ensures XorBytes(s, pos, b[..0]) == s
  {
  }

  /** keccak_absorb. */
  method KeccakAbsorb(s: array<Lane>, start: nat, r: nat, input: seq<bv8>) returns (pos: nat)
    requires s.Length == 25 && start < r <= 200
    modifies s
    ensures Progress(s[..], pos) == Absorb(Progress(old(s[..]), start), r, input)
  {
    hide Absorb, XorBytes, Permute;
    ghost var p := Progress(s[..], start);
    pos := start;
    var next: nat, inlen: nat := 0, |input|;
    AbsorbNone(p, r, input);
    while pos + inlen >= r
      invariant next + inlen == |input| && pos < r
      invariant Progress(s[..], pos) == Absorb(p, r, input[..next])
      decreases inlen
    {
      ghost var q, b := Progress(s[..], pos), input[next..next + (r - pos)];
      XorInto(s, pos, input, next, r - pos);
      AbsorbWithin(q, r, b);
      AbsorbMore(p, r, input, next, r - pos);
      next, inlen := next + (r - pos), inlen - (r - pos);
      KeccakF1600StatePermute(s);
      pos := 0;
    }
    ghost var q, b := Progress(s[..], pos), input[next..next + inlen];
    XorInto(s, pos, input, next, inlen);
    AbsorbWithin(q, r, b);
    AbsorbMore(p, r, input, next, inlen);
    assert input[..next + inlen] == input;
    pos := pos + inlen;
  }

  lemma AbsorbNone(p: Progress, r: nat, input: seq<bv8>)
    requires p.pos < r <= 200
    ensures Absorb(p, r, input[..0]) == p
  {
  }

  lemma AbsorbMore(p: Progress, r: nat, input: seq<bv8>, next: nat, n: nat)
    requires p.pos < r <= 200 && next + n <= |input|
    ensures Absorb(p, r, input[..next + n]) == Absorb(Absorb(p, r, input[..next]), r, input[next..next + n])
  {
    hide Absorb;
    AbsorbSplit(p, r, input[..next], input[next..next + n]);
    assert input[..next + n] == input[..next] + input[next..next + n];
  }

  // ---- The end of the message ----

  /** Domain separation and padding: the byte dom at the position reached, the last bit of the block set. */
  function Finalize(p: Progress, r: nat, dom: bv8): State
    requires p.pos < r <= 200
  {
    XorByte(XorByte(p.s, p.pos, dom), r - 1, 0x80)
  }

  lemma TopBit(l: Lane)
    ensures XorByteIn(l, 7, 0x80) == Lane(l.bits ^ (1 << 63))
  {
  }

  /** keccak_finalize; the rates of the source are multiples of eight. */
  method KeccakFinalize(s: array<Lane>, pos: nat, r: nat, dom: bv8)
    requires s.Length == 25 && pos < r <= 200 && r % 8 == 0
    modifies s
    ensures s[..] == Finalize(Progress(old(s[..]), pos), r, dom)
  {
    hide XorByteIn;
    s[pos / 8] := XorByteIn(s[pos / 8], pos % 8, dom);
    TopBit(s[r / 8 - 1]);
    assert (r - 1) / 8 == r / 8 - 1 && (r - 1) % 8 == 7;
    s[r / 8 - 1] := Lane(s[r / 8 - 1].bits ^ (1 << 63));
  }

  // ---- Squeezing ----

  /** The next output byte at p. */
  function Head(p: Progress, r: nat): bv8
    requires p.pos <= r && 0 < r <= 200
  {
    if p.pos == r then GetByte(Permute(p.s), 0) else GetByte(p.s, p.pos)
  }

  /** Where squeezing n more bytes leads: the permutation is put off until the next byte is asked for. */
  function After(p: Progress, r: nat, n: nat): (q: Progress)
    requires p.pos <= r && 0 < r <= 200
    ensures q.pos <= r
  {
    if n == 0 then p
    else
      var q := After(p, r, n - 1);
      if q.pos == r then Progress(Permute(q.s), 1) else Progress(q.s, q.pos + 1)
  }

  /** Output byte k after squeezing has reached p. */
  function StreamByte(p: Progress, r: nat, k: nat): bv8
    requires p.pos <= r && 0 < r <= 200
  {
    Head(After(p, r, k), r)
  }

  lemma {:induction false} AfterAfter(p: Progress, r: nat, m: nat, n: nat)
    requires p.pos <= r && 0 < r <= 200
    ensures After(After(p, r, m), r, n) == After(p, r, m + n)
  {
    hide Permute;
    if n > 0 { AfterAfter(p, r, m, n - 1); }
  }

  /** Squeezing in two pieces continues the same stream. */
  lemma AfterStream(p: Progress, r: nat, n: nat, k: nat)
    requires p.pos <= r && 0 < r <= 200
    ensures StreamByte(After(p, r, n), r, k) == StreamByte(p, r, n + k)
  {
    hide After, Head;
    AfterAfter(p, r, n, k);
  }

  /** The bytes of one squeeze call. */
  function Squeezed(p: Progress, r: nat, n: nat): (b: seq<bv8>)
    requires p.pos <= r && 0 < r <= 200
    ensures |b| == n
  {
    seq(n, k requires 0 <= k < n => StreamByte(p, r, k))
  }

  /** The bytes of a run of squeeze calls of the given lengths. */
  function SqueezeAll(p: Progress, r: nat, lengths: seq<nat>): seq<bv8>
    requires p.pos <= r && 0 < r <= 200
    decreases |lengths|
  {
    if lengths == [] then [] else Squeezed(p, r, lengths[0]) + SqueezeAll(After(p, r, lengths[0]), r, lengths[1..])
  }

  function Sum(lengths: seq<nat>): nat {
    if lengths == [] then 0 else lengths[0] + Sum(lengths[1..])
  }

  lemma SqueezedSplit(p: Progress, r: nat, m: nat, n: nat)
    requires p.pos <= r && 0 < r <= 200
    ensures Squeezed(p, r, m) + Squeezed(After(p, r, m), r, n) == Squeezed(p, r, m + n)
  {
    hide StreamByte, After;
    var l, w := Squeezed(p, r, m) + Squeezed(After(p, r, m), r, n), Squeezed(p, r, m + n);
    forall k | 0 <= k < m + n ensures l[k] == w[k] {
      if k >= m { AfterStream(p, r, m, k - m); }
    }
  }

  /** Any sequence of squeeze calls yields the same bytes as one call for the total. */
  lemma {:induction false} SqueezeChunks(p: Progress, r: nat, lengths: seq<nat>)
    requires p.pos <= r && 0 < r <= 200
    ensures SqueezeAll(p, r, lengths) == Squeezed(p, r, Sum(lengths))
    decreases |lengths|
  {
    hide After;
    if lengths != [] {
      hide Squeezed;
      SqueezeChunks(After(p, r, lengths[0]), r, lengths[1..]);
      SqueezedSplit(p, r, lengths[0], Sum(lengths[1..]));
    }
  }

  /** Within the current block no permutation is needed. */
  lemma {:induction false} WithinBlock(p: Progress, r: nat, k: nat)
    requires p.pos + k <= r <= 200 && 0 < r
    ensures After(p, r, k) == Progress(p.s, p.pos + k)
    ensures p.pos + k < r ==> StreamByte(p, r, k) == GetByte(p.s, p.pos + k)
  {
    hide Permute, GetByte;
    if k > 0 { WithinBlock(p, r, k - 1); }
  }

  /** At the end of a block the stream goes on with the permuted state. */
  lemma {:induction false} NextBlock(p: Progress, r: nat, k: nat)
    requires p.pos == r && 0 < r <= 200
    ensures k > 0 ==> After(p, r, k) == After(Progress(Permute(p.s), 0), r, k)
    ensures StreamByte(p, r, k) == StreamByte(Progress(Permute(p.s), 0), r, k)
  {
    hide Permute, GetByte;
    if k > 0 {
      NextBlock(p, r, k - 1);
      if k == 1 { assert After(p, r, 0) == p; }
    }
  }

  /** The output buffer is not the state. */
  ghost predicate Separate(s: array<Lane>, out: array<bv8>) {
    (s as object) != (out as object)
  }

  /** keccak_squeeze, writing from offset at of the output buffer. */
  method KeccakSqueeze(out: array<bv8>, at: nat, outlen: nat, s: array<Lane>, start: nat, r: nat) returns (pos: nat)
    requires s.Length == 25 && start <= r && 0 < r <= 200 && at + outlen <= out.Length && Separate(s, out)
    modifies out, s
    ensures pos <= r && Progress(s[..], pos) == After(Progress(old(s[..]), start), r, outlen)
    ensures forall k :: 0 <= k < out.Length ==>
      out[k] == if at <= k < at + outlen then StreamByte(Progress(old(s[..]), start), r, k - at) else old(out[k])
  {
    hide StreamByte, Permute, GetByte;
    ghost var p, was := Progress(s[..], start), out[..];
    assert After(p, r, 0) == p;
    hide After;
    pos := start;
    var done: nat, left: nat := 0, outlen;
    while left > 0
      invariant done + left == outlen && pos <= r
      invariant Progress(s[..], pos) == After(p, r, done)
      invariant forall k :: 0 <= k < out.Length ==> out[k] == if at <= k < at + done then StreamByte(p, r, k - at) else was[k]
      decreases left
    {
      ghost var q := Progress(s[..], pos);
      if pos == r {
        KeccakF1600StatePermute(s);
        pos := 0;
      }
      var n := if r - pos < left then r - pos else left;
      ghost var c := s[..];
      Continue(p, q, r, done, n, pos, c);
      CopyOut(out, at + done, n, s, pos);
      assert s[..] == c;
      pos := pos + n;
      done, left := done + n, left - n;
    }
  }

  /** The inner loop of keccak_squeeze, over the rest of the block or of the request. */
  method CopyOut(out: array<bv8>, at: nat, n: nat, s: array<Lane>, pos: nat)
    requires s.Length == 25 && pos + n <= 200 && at + n <= out.Length && Separate(s, out)
    modifies out
    ensures forall k :: 0 <= k < out.Length ==> out[k] == if at <= k < at + n then GetByte(s[..], pos + k - at) else old(out[k])
  {
    hide ByteOf;
    for i := pos to pos + n
      invariant s[..] == old(s[..])
      invariant forall k :: 0 <= k < out.Length ==>
        out[k] == if at <= k < at + (i - pos) then GetByte(old(s[..]), pos + k - at) else old(out[k])
    {
      out[at + (i - pos)] := ByteOf(s[i / 8], i % 8);
    }
  }

  lemma Continue(p: Progress, q: Progress, r: nat, done: nat, n: nat, pos: nat, s: State)
    requires p.pos <= r && 0 < r <= 200 && n > 0
    requires q == After(p, r, done)
    requires if q.pos == r then s == Permute(q.s) && pos == 0 else s == q.s && pos == q.pos
    requires pos + n <= r
    ensures After(p, r, done + n) == Progress(s, pos + n)
    ensures forall k :: done <= k < done + n ==> StreamByte(p, r, k) == GetByte(s, pos + k - done)
  {
    hide StreamByte, After, Permute, GetByte;
    AfterAfter(p, r, done, n);
    var c := Progress(s, pos);
    WithinBlock(c, r, n);
    if q.pos == r { NextBlock(q, r, n); }
    forall k | done <= k < done + n ensures StreamByte(p, r, k) == GetByte(s, pos + k - done) {
      var j := k - done;
      AfterStream(p, r, done, j);
      if q.pos == r { NextBlock(q, r, j); }
      WithinBlock(c, r, j);
    }
  }
}
