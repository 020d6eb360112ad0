/** The symmetric primitives of the encryption, built on the sponge: symmetric-shake.c and the names of symmetric.h. */
module KyberSymmetric {
  import opened Words
  import opened Shake
  import Sponge

  /** The output of an extendable-output function: one byte for every position. */
  type Stream = nat -> uint8

  /** xof(seed, x, y) is the stream obtained by absorbing the seed followed by the bytes x and y. */
  type Xof = (seq<uint8>, uint8, uint8) -> Stream

  /** hash_g, prf and the matrix xof, each as the stream of bytes it yields. */
  datatype Symmetric = Symmetric(g: seq<uint8> -> Stream, prf: (seq<uint8>, uint8) -> Stream, xof: Xof)

  /** The first n bytes of a stream. */
  function Prefix(stream: Stream, n: nat): (r: seq<uint8>)
    ensures |r| == n
  {
    seq(n, i requires 0 <= i < n => stream(i))
  }

  // ---- Bytes as numbers and as bit vectors ----

  function Number(b: bv8): uint8 {
    b as int
  }

  function Numbers(b: seq<bv8>): (s: seq<uint8>)
    ensures |s| == |b|
  {
    seq(|b|, i requires 0 <= i < |b| => Number(b[i]))
  }

  /** The same bytes as numbers. */
  method CopyNumbers(buf: array<uint8>, bytes: array<bv8>, n: nat)
    requires n <= buf.Length && n <= bytes.Length && (buf as object) != (bytes as object)
    modifies buf
    ensures forall i :: 0 <= i < n ==> buf[i] == Number(bytes[i])
  {
    hide Number;
    for i := 0 to n
      invariant forall k :: 0 <= k < i ==> buf[k] == Number(bytes[k])
    {
      buf[i] := Number(bytes[i]);
    }
  }

  function Octet(x: uint8): bv8 {
    x as bv8
  }

  function Octets(s: seq<uint8>): (b: seq<bv8>)
    ensures |b| == |s|
  {
    seq(|s|, i requires 0 <= i < |s| => Octet(s[i]))
  }

  lemma OctetsSnoc(s: seq<uint8>, x: uint8)
    ensures Octets(s + [x]) == Octets(s) + [Octet(x)]
  {
    hide Octet;
  }

  /** The bytes of a sponge output, as numbers. */
  function Output(message: seq<bv8>, r: nat, dom: bv8): Stream
    requires IsRate(r)
  {
    k => Number(OutputByte(message, r, dom, k))
  }

  // ---- The three primitives ----

  /** The stream that xof_absorb and xof_squeezeblocks give. */
  function ShakeXof(seed: seq<uint8>, x: uint8, y: uint8): Stream {
    Output(Octets(seed + [x, y]), SHAKE128_RATE, 0x1F)
  }

  /** The next byte squeezed from the state is byte `taken` of that stream. */
  ghost predicate StandsAt(state: KeccakState, seed: seq<uint8>, x: uint8, y: uint8, taken: nat)
    reads state, state.s
  {
    state.Squeezing(SHAKE128_RATE) && state.pos == SHAKE128_RATE && state.message == Octets(seed + [x, y]) && state.squeezed == taken
  }

  /** kyber_shake128_absorb: the seed and two index bytes. */
  method Shake128Absorb(state: KeccakState, seed: seq<uint8>, x: uint8, y: uint8)
    requires state.s.Length == 25
    modifies state, state.s
    ensures StandsAt(state, seed, x, y, 0)
  {
    hide Octet;
    var extseed := Octets(seed) + [Octet(x), Octet(y)];
    assert Octets(seed + [x, y]) == extseed;
    state.AbsorbOnce(SHAKE128_RATE, extseed);
  }

  /** xof_squeezeblocks: the next blocks of the stream, wherever it stands. */
  method XofBlocks(state: KeccakState, buf: array<uint8>, nblocks: nat, ghost seed: seq<uint8>, ghost x: uint8, ghost y: uint8,
                   ghost taken: nat)
    requires StandsAt(state, seed, x, y, taken) && nblocks * SHAKE128_RATE <= buf.Length
    requires (state as object) != (buf as object) && (state.s as object) != (buf as object)
    modifies state, state.s, buf
    ensures StandsAt(state, seed, x, y, taken + nblocks * SHAKE128_RATE)
    ensures forall i :: 0 <= i < nblocks * SHAKE128_RATE ==> buf[i] == ShakeXof(seed, x, y)(taken + i)
  {
    hide OutputByte, Octets, Number;
    var bytes := new bv8[nblocks * SHAKE128_RATE](_ => 0);
    state.SqueezeBlocks(bytes, 0, nblocks, SHAKE128_RATE);
    CopyNumbers(buf, bytes, nblocks * SHAKE128_RATE);
  }

  function ShakePrf(key: seq<uint8>, nonce: uint8): Stream {
    Output(Octets(key + [nonce]), SHAKE256_RATE, 0x1F)
  }

  /** kyber_shake256_prf. */
  method Shake256Prf(out: array<bv8>, outlen: nat, key: seq<uint8>, nonce: uint8)
    requires outlen <= out.Length
    modifies out
    ensures forall k :: 0 <= k < outlen ==> Number(out[k]) == ShakePrf(key, nonce)(k)
    ensures forall k :: outlen <= k < out.Length ==> out[k] == old(out[k])
  {
    hide OutputByte, Octet, Number;
    OctetsSnoc(key, nonce);
    Shake256(out, outlen, Octets(key) + [Octet(nonce)]);
  }

  /** Key and input absorbed one after the other, and finalized. */
  method AbsorbBoth(s: KeccakState, key: seq<bv8>, input: seq<bv8>)
    requires s.Absorbing(SHAKE256_RATE) && s.message == []
    modifies s, s.s
    ensures s.Squeezing(SHAKE256_RATE) && s.message == key + input && s.squeezed == 0
  {
    hide *;
    JoinEmpty(key, input);
    s.Absorb(SHAKE256_RATE, key);
    s.Absorb(SHAKE256_RATE, input);
    s.Finalize(SHAKE256_RATE);
  }

  /** kyber_shake256_rkprf: absorbing key and input one after the other is absorbing both together. */
  method Shake256Rkprf(out: array<bv8>, key: seq<bv8>, input: seq<bv8>)
    requires out.Length == 32
    modifies out
    ensures forall k :: 0 <= k < 32 ==> out[k] == OutputByte(key + input, 136, 0x1F, k)
  {
    hide OutputByte, Absorbed;
    var s := new KeccakState(SHAKE256_RATE);
    assert Sponge.Separate(s.s, out);
    hide *;
    AbsorbBoth(s, key, input);
    s.Squeeze(out, 0, 32, SHAKE256_RATE);
  }

  lemma JoinEmpty(a: seq<bv8>, b: seq<bv8>)
    ensures [] + a + b == a + b
  {
  }

  function ShakeG(input: seq<uint8>): Stream {
    Output(Octets(input), SHA3_512_RATE, 0x06)
  }

  /** hash_g is sha3_512. */
  method HashG(h: array<bv8>, input: seq<uint8>)
    requires h.Length == 64
    modifies h
    ensures forall k :: 0 <= k < 64 ==> Number(h[k]) == ShakeG(input)(k)
  {
    hide OutputByte, Octets, Number;
    Sha3_512(h, Octets(input));
  }

  /** The primitives that symmetric.h selects. */
  function ShakeSymmetric(): Symmetric {
    Symmetric(ShakeG, ShakePrf, ShakeXof)
  }
}
