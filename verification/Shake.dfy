/** The incremental state and the one-shot functions of fips202.c, and the sponge function of FIPS 202 they compute. */
module Shake {
  import opened KeccakF
  import opened Sponge
  import opened SpongeBlocks
  import opened Arithmetic

  const SHAKE128_RATE: nat := 168
  const SHAKE256_RATE: nat := 136
  const SHA3_256_RATE: nat := 136
  const SHA3_512_RATE: nat := 72

  /** Rates are whole lanes. */
  predicate IsRate(r: nat) {
    0 < r <= 200 && r % 8 == 0
  }

  /** The state after absorbing a message from the start. */
  function Absorbed(m: seq<bv8>, r: nat): (p: Progress)
    requires IsRate(r)
    ensures p.pos < r
  {
    Absorb(Progress(Zero(), 0), r, m)
  }

  /** The state after finalizing: a whole block is taken as squeezed, so that the next byte asks for a permutation. */
  function Finalized(m: seq<bv8>, r: nat, dom: bv8): (p: Progress)
    requires IsRate(r)
    ensures p.pos == r
  {
    Progress(Finalize(Absorbed(m, r), r, dom), r)
  }

  /** Output byte k for message m. */
  function OutputByte(m: seq<bv8>, r: nat, dom: bv8, k: nat): bv8
    requires IsRate(r)
  {
    StreamByte(Finalized(m, r, dom), r, k)
  }

  lemma ContinueStream(p: Progress, r: nat, n: nat, len: nat)
    requires p.pos <= r && 0 < r <= 200
    ensures forall j :: 0 <= j < len ==> StreamByte(After(p, r, n), r, j) == StreamByte(p, r, n + j)
  {
    hide *;
    forall j | 0 <= j < len ensures StreamByte(After(p, r, n), r, j) == StreamByte(p, r, n + j) { AfterStream(p, r, n, j); }
  }

  // ---- The incremental interface; shake128 has rate 168 and shake256 rate 136 ----

  /** keccak_state, with the message absorbed and the number of bytes squeezed so far. */
  class KeccakState {
    const s: array<Lane>
    var pos: nat
    ghost var message: seq<bv8>
    ghost var squeezed: nat

    ghost predicate Absorbing(r: nat)
      reads this, s
    {
      s.Length == 25 && IsRate(r) && Progress(s[..], pos) == Absorbed(message, r)
    }

    ghost predicate Squeezing(r: nat)
      reads this, s
    {
      s.Length == 25 && IsRate(r) && Progress(s[..], pos) == After(Finalized(message, r, 0x1F), r, squeezed)
    }

    /** shake_init. */
    constructor (r: nat)
      requires IsRate(r)
      ensures Absorbing(r) && message == [] && fresh(s)
    {
      s := new Lane[25](_ => Lane(0));
      pos := 0;
      message, squeezed := [], 0;
      new;
      assert s[..] == Zero();
    }

    /** shake_absorb: the message grows by the input, however it is cut into calls. */
    method Absorb(r: nat, input: seq<bv8>)
      requires Absorbing(r)
      modifies this, s
      ensures Absorbing(r) && message == old(message) + input
    {
      hide Permute;
      AbsorbSplit(Progress(Zero(), 0), r, message, input);
      pos := KeccakAbsorb(s, pos, r, input);
      message := message + input;
    }

    /** shake_finalize. */
    method Finalize(r: nat)
      requires Absorbing(r)
      modifies this, s
      ensures Squeezing(r) && pos == r && message == old(message) && squeezed == 0
    {
      hide Sponge.Finalize, Sponge.Absorb;
      KeccakFinalize(s, pos, r, 0x1F);
      pos := r;
      squeezed := 0;
    }

    /** shake_squeeze: the next bytes of the output, however it is cut into calls. */
    method Squeeze(out: array<bv8>, at: nat, outlen: nat, r: nat)
      requires Squeezing(r) && at + outlen <= out.Length && Separate(s, out)
      modifies this, s, out
      ensures Squeezing(r) && message == old(message) && squeezed == old(squeezed) + outlen
      ensures forall k :: 0 <= k < out.Length ==>
        out[k] == if at <= k < at + outlen then OutputByte(message, r, 0x1F, old(squeezed) + (k - at)) else old(out[k])
    {
      hide Finalized, After, StreamByte;
      ghost var p, n := Finalized(message, r, 0x1F), squeezed;
      AfterAfter(p, r, n, outlen);
      ContinueStream(p, r, n, outlen);
      pos := KeccakSqueeze(out, at, outlen, s, pos, r);
      squeezed := squeezed + outlen;
    }

    /** shake_absorb_once: the same state as absorbing and finalizing. */
    method AbsorbOnce(r: nat, input: seq<bv8>)
      requires s.Length == 25 && IsRate(r)
      modifies this, s
      ensures Squeezing(r) && pos == r && message == input && squeezed == 0
    {
      hide Sponge.Finalize, Sponge.Absorb;
      KeccakAbsorbOnce(s, r, input, 0x1F);
      pos := r;
      message, squeezed := input, 0;
    }

    /** shake_squeezeblocks, when no part of a block is pending: the next whole blocks of the same output. */
    method SqueezeBlocks(out: array<bv8>, at: nat, nblocks: nat, r: nat)
      requires Squeezing(r) && pos == r && at + nblocks * r <= out.Length && Separate(s, out)
      modifies this, s, out
      ensures Squeezing(r) && pos == r && message == old(message) && squeezed == old(squeezed) + nblocks * r
      ensures forall k :: 0 <= k < out.Length ==>
        out[k] == if at <= k < at + nblocks * r then OutputByte(message, r, 0x1F, old(squeezed) + (k - at)) else old(out[k])
    {
      hide Finalized, After, StreamByte;
      ghost var p, n, m := Finalized(message, r, 0x1F), squeezed, nblocks * r;
      assert m >= 0 by { MulNonNegative(nblocks, r); }
      AfterAfter(p, r, n, m);
      ContinueStream(p, r, n, m);
      KeccakSqueezeBlocks(out, at, nblocks, s, r);
      squeezed := squeezed + m;
    }
  }

  // ---- One-shot functions ----

  /** shake128 and shake256: whole blocks first, then the rest of the output. */
  method OneShot(out: array<bv8>, outlen: nat, input: seq<bv8>, r: nat)
    requires IsRate(r) && outlen <= out.Length
    modifies out
    ensures forall k :: 0 <= k < out.Length ==> out[k] == if k < outlen then OutputByte(input, r, 0x1F, k) else old(out[k])
  {
    hide OutputByte, After, Finalized, Absorbed;
    var state := new KeccakState(r);
    assert state.s.Length == 25 && Separate(state.s, out);
    var nblocks := outlen / r;
    BlocksFit(outlen, r);
    hide *;
    state.AbsorbOnce(r, input);
    state.SqueezeBlocks(out, 0, nblocks, r);
    state.Squeeze(out, nblocks * r, outlen - nblocks * r, r);
  }

  method Shake128(out: array<bv8>, outlen: nat, input: seq<bv8>)
    requires outlen <= out.Length
    modifies out
    ensures forall k :: 0 <= k < out.Length ==> out[k] == if k < outlen then OutputByte(input, 168, 0x1F, k) else old(out[k])
  {
    OneShot(out, outlen, input, SHAKE128_RATE);
  }

  method Shake256(out: array<bv8>, outlen: nat, input: seq<bv8>)
    requires outlen <= out.Length
    modifies out
    ensures forall k :: 0 <= k < out.Length ==> out[k] == if k < outlen then OutputByte(input, 136, 0x1F, k) else old(out[k])
  {
    OneShot(out, outlen, input, SHAKE256_RATE);
  }

  lemma BlocksFit(n: nat, r: nat)
    requires r > 0
    ensures 0 <= n / r * r <= n
  {
    Euclid(n, r);
    DivNonNegative(n, r);
    MulNonNegative(n / r, r);
  }

  method Sha3_256(h: array<bv8>, input: seq<bv8>)
    requires h.Length == 32
    modifies h
    ensures forall k :: 0 <= k < 32 ==> h[k] == OutputByte(input, 136, 0x06, k)
  {
    Sha3(h, 4, input, SHA3_256_RATE);
  }

  method Sha3_512(h: array<bv8>, input: seq<bv8>)
    requires h.Length == 64
    modifies h
    ensures forall k :: 0 <= k < 64 ==> h[k] == OutputByte(input, 72, 0x06, k)
  {
    Sha3(h, 8, input, SHA3_512_RATE);
  }

  /** sha3_256 and sha3_512: one permutation, then whole lanes of the digest. */
  method Sha3(h: array<bv8>, lanes: nat, input: seq<bv8>, r: nat)
    requires IsRate(r) && 8 * lanes <= r && h.Length == 8 * lanes
    modifies h
    ensures forall k :: 0 <= k < h.Length ==> h[k] == OutputByte(input, r, 0x06, k)
  {
    hide Sponge.Finalize, Sponge.Absorb, StreamByte, Permute, GetByte;
    var s := new Lane[25](_ => Lane(0));
    KeccakAbsorbOnce(s, r, input, 0x06);
    ghost var p := Finalized(input, r, 0x06);
    KeccakF1600StatePermute(s);
    ghost var q := Progress(s[..], 0);
    StoreBlock(h, 0, s, 8 * lanes);
    forall k | 0 <= k < 8 * lanes ensures StreamByte(p, r, k) == GetByte(q.s, k) {
      NextBlock(p, r, k);
      WithinBlock(q, r, k);
    }
  }

  // ---- The sponge function of section 4 of FIPS 202, on whole bytes ----

  /** n bytes of domain separation and padding 10*1 (section 5.1): dom first, the highest bit of the last byte set. */
  function Padding(n: nat, dom: bv8): (b: seq<bv8>)
    requires n > 0
    ensures |b| == n
  {
    if n == 1 then [dom ^ 0x80] else [dom] + seq(n - 2, _ => 0) + [0x80]
  }

  type Block = b: seq<bv8> | |b| <= 200 witness []

  /** The padded message in blocks of r bytes. */
  function Blocks(m: seq<bv8>, r: nat, dom: bv8): seq<Block>
    requires IsRate(r)
  {
    if |m| < r then [m + Padding(r - |m|, dom)] else [m[..r]] + Blocks(m[r..], r, dom)
  }

  /** Absorbs whole blocks: xor a block into the state, permute. */
  function AbsorbBlocks(s: State, blocks: seq<Block>): State
    decreases |blocks|
  {
    if blocks == [] then s else AbsorbBlocks(Permute(XorBytes(s, 0, blocks[0])), blocks[1..])
  }

  /** Squeezes block after block, permuting in between. */
  function SqueezeByte(s: State, r: nat, k: nat): bv8
    requires IsRate(r)
    decreases k
  {
    if k < r then GetByte(s, k) else SqueezeByte(Permute(s), r, k - r)
  }

  lemma {:induction false} XorZeros(s: State, pos: nat, n: nat)
    requires pos + n <= 200
    ensures XorBytes(s, pos, seq(n, _ => 0)) == s
  {
    hide XorByte;
    if n > 0 {
      var z: seq<bv8> := seq(n, _ => 0);
      assert z[..n - 1] == seq(n - 1, _ => 0);
      XorZeros(s, pos, n - 1);
      XorZero(s, pos + n - 1);
    }
  }

  lemma XorZero(s: State, i: nat)
    requires i < 200
    ensures XorByte(s, i, 0) == s
  {
    var j := i % 8;
    assert ByteAt(0, j) == 0;
    assert Xor64(s[i / 8].bits, 0) == s[i / 8].bits;
  }

  /** At the end of a block, which is the end of a lane. */
  lemma XorByteTwice(s: State, i: nat, a: bv8, b: bv8)
    requires i < 200 && i % 8 == 7
    ensures XorByte(XorByte(s, i, a), i, b) == XorByte(s, i, a ^ b)
  {
    hide ByteAt, Xor64;
    LastByteXor(a, b);
    XorTwice(s[i / 8].bits, ByteAt(a, 7), ByteAt(b, 7));
  }

  lemma LastByteXor(a: bv8, b: bv8)
    ensures ByteAt(a ^ b, 7) == Xor64(ByteAt(a, 7), ByteAt(b, 7))
  {
    assert ((a ^ b) as bv64) << 56 == ((a as bv64) << 56) ^ ((b as bv64) << 56);
  }

  lemma XorOne(s: State, pos: nat, b: bv8)
    requires pos < 200
    ensures XorBytes(s, pos, [b]) == XorByte(s, pos, b)
  {
    hide XorByte;
    assert [b][..0] == [];
  }

  /** Xoring the padding is what keccak_finalize does. */
  lemma PaddingIs(s: State, pos: nat, r: nat, dom: bv8)
    requires pos < r && IsRate(r)
    ensures XorBytes(s, pos, Padding(r - pos, dom)) == Finalize(Progress(s, pos), r, dom)
  {
    hide XorByte, XorBytes;
    var n := r - pos;
    if n == 1 {
      XorOne(s, pos, dom ^ 0x80);
      XorByteTwice(s, pos, dom, 0x80);
    } else {
      var z: seq<bv8> := seq(n - 2, _ => 0);
      XorBytesSplit(s, pos, [dom] + z, [0x80]);
      XorBytesSplit(s, pos, [dom], z);
      XorOne(s, pos, dom);
      var t := XorByte(s, pos, dom);
      XorZeros(t, pos + 1, n - 2);
      XorOne(t, r - 1, 0x80);
    }
  }

  lemma {:induction false} AbsorbBlocksIs(s: State, m: seq<bv8>, r: nat, dom: bv8)
    requires IsRate(r)
    ensures AbsorbBlocks(s, Blocks(m, r, dom)) == Permute(Finalize(Absorb(Progress(s, 0), r, m), r, dom))
    decreases |m|
  {
    hide Permute, Finalize, Absorb, XorBytes, Padding;
    if |m| < r {
      AbsorbWithin(Progress(s, 0), r, m);
      XorBytesSplit(s, 0, m, Padding(r - |m|, dom));
      PaddingIs(XorBytes(s, 0, m), |m|, r, dom);
      assert Blocks(m, r, dom)[1..] == [];
    } else {
      AbsorbWithin(Progress(s, 0), r, m[..r]);
      AbsorbSplit(Progress(s, 0), r, m[..r], m[r..]);
      assert m == m[..r] + m[r..];
      AbsorbBlocksIs(Permute(XorBytes(s, 0, m[..r])), m[r..], r, dom);
      assert Blocks(m, r, dom)[1..] == Blocks(m[r..], r, dom);
    }
  }

  lemma {:induction false} StreamIs(s: State, r: nat, k: nat)
    requires IsRate(r)
    ensures StreamByte(Progress(s, r), r, k) == SqueezeByte(Permute(s), r, k)
    decreases k
  {
    hide Permute, GetByte, StreamByte, After;
    var u := Permute(s);
    NextBlock(Progress(s, r), r, k);
    if k < r {
      WithinBlock(Progress(u, 0), r, k);
    } else {
      WithinBlock(Progress(u, 0), r, r);
      AfterStream(Progress(u, 0), r, r, k - r);
      StreamIs(u, r, k - r);
    }
  }

  /** The code computes the sponge function: pad to blocks, absorb them, squeeze blocks. */
  lemma SpongeTheorem(m: seq<bv8>, r: nat, dom: bv8, k: nat)
    requires IsRate(r)
    ensures OutputByte(m, r, dom, k) == SqueezeByte(AbsorbBlocks(Zero(), Blocks(m, r, dom)), r, k)
  {
    hide AbsorbBlocks, Blocks, SqueezeByte, Permute, Finalize, Absorb, StreamByte, Zero;
    AbsorbBlocksIs(Zero(), m, r, dom);
    StreamIs(Finalize(Absorbed(m, r), r, dom), r, k);
  }
}
