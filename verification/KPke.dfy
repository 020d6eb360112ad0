/**
 The public-key encryption of indcpa.c (K-PKE of FIPS 203). Keys and ciphertexts are defined for arbitrary symmetric primitives;
 the methods run on the Keccak state, with the primitives of symmetric.h.
 */
module KPke {
  import opened Words
  import opened Poly
  import opened Packing
  import opened Compress
  import opened Cbd
  import opened KyberSymmetric
  import opened Sampling
  import opened RingProduct
  import InvNtt

  // ---- Noise ----

  function Noise1(prf: (seq<uint8>, uint8) -> Stream, seed: seq<uint8>, nonce: uint8): Poly {
    CbdSpec(3, Prefix(prf(seed, nonce), 192))
  }

  function Noise2(prf: (seq<uint8>, uint8) -> Stream, seed: seq<uint8>, nonce: uint8): Poly {
    CbdSpec(2, Prefix(prf(seed, nonce), 128))
  }

  ghost function NoiseVec1(prf: (seq<uint8>, uint8) -> Stream, seed: seq<uint8>, nonce: uint8): PolyVec
    requires nonce < 255
  {
    Pair(Noise1(prf, seed, nonce), Noise1(prf, seed, nonce + 1))
  }

  ghost function NoiseVec2(prf: (seq<uint8>, uint8) -> Stream, seed: seq<uint8>, nonce: uint8): PolyVec
    requires nonce < 255
  {
    Pair(Noise2(prf, seed, nonce), Noise2(prf, seed, nonce + 1))
  }

  method PolyGetNoiseEta1(r: array<int16>, seed: seq<uint8>, nonce: uint8)
    requires r.Length == 256
    modifies r
    ensures r[..] == Noise1(ShakePrf, seed, nonce)
  {
    hide CbdCoefficient, ShakePrf, Number;
    var buf := new bv8[192](_ => 0);
    Shake256Prf(buf, 192, seed, nonce);
    assert Numbers(buf[..]) == Prefix(ShakePrf(seed, nonce), 192);
    Cbd3(r, Numbers(buf[..]));
  }

  method PolyGetNoiseEta2(r: array<int16>, seed: seq<uint8>, nonce: uint8)
    requires r.Length == 256
    modifies r
    ensures r[..] == Noise2(ShakePrf, seed, nonce)
  {
    hide CbdCoefficient, ShakePrf, Number;
    var buf := new bv8[128](_ => 0);
    Shake256Prf(buf, 128, seed, nonce);
    assert Numbers(buf[..]) == Prefix(ShakePrf(seed, nonce), 128);
    Cbd2(r, Numbers(buf[..]));
  }

  // ---- Keys and ciphertexts as functions of the randomness ----

  /** The row of the public key vector for one matrix row: A_i s + e_i, in the transform domain. */
  ghost function PublicRow(row: PolyVec, sHat: PolyVec, eHat: Poly): Poly
    requires Reduced(sHat)
  {
    ReduceSpec(AddSpec(TomontSpec(AccSpec(row, sHat)), eHat))
  }

  ghost function PublicVec(row0: PolyVec, row1: PolyVec, sHat: PolyVec, eHat: PolyVec): PolyVec
    requires Reduced(sHat)
  {
    Pair(PublicRow(row0, sHat, eHat[0]), PublicRow(row1, sHat, eHat[1]))
  }

  /** Both ciphertext parts before compression: an inverse transformed scalar product plus noise. */
  ghost function MaskedProduct(row: PolyVec, rHat: PolyVec): Poly
    requires Reduced(rHat)
  {
    PolyInvNttSpec(AccSpec(row, rHat))
  }

  ghost function CipherVec(row0: PolyVec, row1: PolyVec, rHat: PolyVec, e1: PolyVec): PolyVec
    requires Reduced(rHat)
  {
    VecReduceSpec(VecAddSpec(Pair(MaskedProduct(row0, rHat), MaskedProduct(row1, rHat)), e1))
  }

  ghost function CipherPoly(t: PolyVec, rHat: PolyVec, e2: Poly, k: Poly): Poly
    requires Reduced(rHat)
  {
    ReduceSpec(AddSpec(AddSpec(MaskedProduct(t, rHat), e2), k))
  }

  ghost function DecryptPoly(u: PolyVec, v: Poly, sHat: PolyVec): Poly
    requires Reduced(VecNttSpec(u))
  {
    ReduceSpec(SubSpec(v, MaskedProduct(sHat, VecNttSpec(u))))
  }

  /** Noise polynomials and transforms of short polynomials fit the multiplication routine. */
  lemma TransformReduced(v: PolyVec, bound: int)
    requires Bounded(v[0], bound) && Bounded(v[1], bound) && bound <= 3329
    ensures Bounded(VecNttSpec(v)[0], 1664) && Bounded(VecNttSpec(v)[1], 1664) && Reduced(VecNttSpec(v))
  {
    hide Bounded, PolyNttSpec;
    PolyNttCorrect(v[0], bound);
    PolyNttCorrect(v[1], bound);
    InvNtt.BoundedWeaken(VecNttSpec(v)[0], 1664, 3328);
    InvNtt.BoundedWeaken(VecNttSpec(v)[1], 1664, 3328);
  }

  /** hash_g of the coins and the byte KYBER_K: 32 bytes for the matrix, 32 for the noise. */
  function PublicSeed(sym: Symmetric, coins: seq<uint8>): (r: seq<uint8>)
    ensures |r| == 32
  {
    Prefix(sym.g(coins + [2]), 64)[..32]
  }

  function NoiseSeed(sym: Symmetric, coins: seq<uint8>): (r: seq<uint8>)
    ensures |r| == 32
  {
    Prefix(sym.g(coins + [2]), 64)[32..]
  }

  ghost function SecretHat(sym: Symmetric, coins: seq<uint8>): (r: PolyVec)
    ensures Reduced(r)
  {
    TransformReduced(NoiseVec1(sym.prf, NoiseSeed(sym, coins), 0), 3);
    VecNttSpec(NoiseVec1(sym.prf, NoiseSeed(sym, coins), 0))
  }

  ghost function PublicKeyVec(sym: Symmetric, coins: seq<uint8>): PolyVec
    requires EnoughForMatrix(sym.xof, PublicSeed(sym, coins))
  {
    PublicVec(MatrixRow(sym.xof, PublicSeed(sym, coins), false, 0), MatrixRow(sym.xof, PublicSeed(sym, coins), false, 1),
              SecretHat(sym, coins), VecNttSpec(NoiseVec1(sym.prf, NoiseSeed(sym, coins), 2)))
  }

  ghost function PublicKey(sym: Symmetric, coins: seq<uint8>): (pk: seq<uint8>)
    requires EnoughForMatrix(sym.xof, PublicSeed(sym, coins))
    ensures |pk| == 800
  {
    VecToBytes(PublicKeyVec(sym, coins)) + PublicSeed(sym, coins)
  }

  ghost function SecretKey(sym: Symmetric, coins: seq<uint8>): (sk: seq<uint8>)
    ensures |sk| == 768
  {
    VecToBytes(SecretHat(sym, coins))
  }

  ghost function EncryptionHat(sym: Symmetric, coins: seq<uint8>): (r: PolyVec)
    ensures Reduced(r)
  {
    TransformReduced(NoiseVec1(sym.prf, coins, 0), 3);
    VecNttSpec(NoiseVec1(sym.prf, coins, 0))
  }

  /** u = A^T r + e1, before compression. */
  ghost function EncryptVec(sym: Symmetric, seed: seq<uint8>, coins: seq<uint8>): PolyVec
    requires EnoughForMatrix(sym.xof, seed)
  {
    CipherVec(MatrixRow(sym.xof, seed, true, 0), MatrixRow(sym.xof, seed, true, 1), EncryptionHat(sym, coins),
              NoiseVec2(sym.prf, coins, 2))
  }

  /** v = t r + e2 + 1665 m, before compression. */
  ghost function EncryptPoly(sym: Symmetric, t: PolyVec, m: seq<uint8>, coins: seq<uint8>): Poly
    requires |m| == 32
  {
    CipherPoly(t, EncryptionHat(sym, coins), Noise2(sym.prf, coins, 4), FromMsgSpec(m))
  }

  function SeedOf(pk: seq<uint8>): seq<uint8>
    requires |pk| == 800
  {
    pk[768..]
  }

  ghost function VecOf(pk: seq<uint8>): PolyVec
    requires |pk| == 800
  {
    VecFromBytes(pk[..768])
  }

  ghost function Ciphertext(u: PolyVec, v: Poly): (c: seq<uint8>)
    ensures |c| == 768
  {
    VecCompress(u) + PolyCompressSpec(v)
  }

  ghost function CiphertextOf(row0: PolyVec, row1: PolyVec, t: PolyVec, rHat: PolyVec, e1: PolyVec, e2: Poly, k: Poly): (c: seq<uint8>)
    requires Reduced(rHat)
    ensures |c| == 768
  {
    Ciphertext(CipherVec(row0, row1, rHat, e1), CipherPoly(t, rHat, e2, k))
  }

  ghost function Encrypt(sym: Symmetric, pk: seq<uint8>, m: seq<uint8>, coins: seq<uint8>): (c: seq<uint8>)
    requires |pk| == 800 && |m| == 32 && EnoughForMatrix(sym.xof, SeedOf(pk))
    ensures |c| == 768
  {
    Ciphertext(EncryptVec(sym, SeedOf(pk), coins), EncryptPoly(sym, VecOf(pk), m, coins))
  }

  /** The polynomial that decryption passes to poly_tomsg. */
  ghost function DecryptedPoly(c: seq<uint8>, sk: seq<uint8>): Poly
    requires |c| == 768 && |sk| == 768
  {
    var u := VecDecompress(c[..640]);
    DecompressedReduced(c[..640]);
    DecryptPoly(u, PolyDecompressSpec(c[640..]), VecFromBytes(sk))
  }

  ghost function Decrypt(c: seq<uint8>, sk: seq<uint8>): (m: seq<uint8>)
    requires |c| == 768 && |sk| == 768
    ensures |m| == 32
  {
    ToMsgSpec(DecryptedPoly(c, sk))
  }

  // ---- Serialized vectors ----

  ghost function VecToBytes(v: PolyVec): (r: seq<uint8>)
    ensures |r| == 768
  {
    ToBytesSpec(v[0]) + ToBytesSpec(v[1])
  }

  ghost function VecFromBytes(b: seq<uint8>): PolyVec
    requires |b| == 768
  {
    Pair(FromBytesSpec(b[..384]), FromBytesSpec(b[384..]))
  }

  ghost function VecCompress(v: PolyVec): (r: seq<uint8>)
    ensures |r| == 640
  {
    PolyCompress10Spec(v[0]) + PolyCompress10Spec(v[1])
  }

  ghost function VecDecompress(b: seq<uint8>): PolyVec
    requires |b| == 640
  {
    Pair(PolyDecompress10Spec(b[..320]), PolyDecompress10Spec(b[320..]))
  }

  lemma DecompressBounded(b: seq<uint8>)
    requires |b| == 320
    ensures Bounded(PolyDecompress10Spec(b), 3329)
  {
    hide TenBits;
  }

  lemma DecompressedReduced(b: seq<uint8>)
    requires |b| == 640
    ensures Reduced(VecNttSpec(VecDecompress(b)))
  {
    hide Bounded, PolyDecompress10Spec, VecNttSpec, Reduced;
    DecompressBounded(b[..320]);
    DecompressBounded(b[320..]);
    TransformReduced(VecDecompress(b), 3329);
  }

  method PolyVecToBytes(r: array<uint8>, a: seq<array<int16>>)
    requires IsVec(a) && r.Length >= 768
    modifies r
    ensures r[..] == VecToBytes(Vec(a)) + old(r[768..])
  {
    hide ToBytesSpec;
    PolyToBytes(r, 0, a[0]);
    PolyToBytes(r, 384, a[1]);
  }

  method PolyVecFromBytes(r: seq<array<int16>>, a: array<uint8>)
    requires IsVec(r) && a.Length >= 768
    modifies r[0], r[1]
    ensures Vec(r) == VecFromBytes(a[..768])
  {
    hide FromBytesSpec;
    PolyFromBytes(r[0], a, 0);
    PolyFromBytes(r[1], a, 384);
    assert a[..768][..384] == a[0..384] && a[..768][384..] == a[384..768];
  }

  method PolyVecCompress(r: array<uint8>, a: seq<array<int16>>)
    requires IsVec(a) && r.Length >= 640
    modifies r
    ensures r[..] == VecCompress(Vec(a)) + old(r[640..])
  {
    hide PolyCompress10Spec;
    PolyCompress10(r, 0, a[0]);
    PolyCompress10(r, 320, a[1]);
  }

  method PolyVecDecompress(r: seq<array<int16>>, a: array<uint8>)
    requires IsVec(r) && a.Length >= 640
    modifies r[0], r[1]
    ensures Vec(r) == VecDecompress(a[..640])
  {
    hide PolyDecompress10Spec;
    PolyDecompress10(r[0], a, 0);
    PolyDecompress10(r[1], a, 320);
    assert a[..640][..320] == a[0..320] && a[..640][320..] == a[320..640];
  }

  /** pack_pk: the vector followed by the seed. */
  method PackPk(r: array<uint8>, pk: seq<array<int16>>, seed: seq<uint8>)
    requires IsVec(pk) && r.Length == 800 && |seed| == 32
    modifies r
    ensures r[..] == VecToBytes(Vec(pk)) + seed
  {
    hide VecToBytes;
    PolyVecToBytes(r, pk);
    ghost var b := VecToBytes(Vec(pk));
    for i := 0 to 32
      invariant r[..768] == b
      invariant r[768..768 + i] == seed[..i]
    {
      r[768 + i] := seed[i];
    }
    assert r[..] == r[..768] + r[768..800];
  }

  /** unpack_pk. */
  method UnpackPk(pkpv: seq<array<int16>>, packed: array<uint8>) returns (seed: seq<uint8>)
    requires IsVec(pkpv) && packed.Length == 800
    modifies pkpv[0], pkpv[1]
    ensures Vec(pkpv) == VecOf(packed[..]) && seed == SeedOf(packed[..])
  {
    hide VecFromBytes;
    PolyVecFromBytes(pkpv, packed);
    seed := packed[768..];
    assert packed[..][..768] == packed[..768];
  }

  /** pack_ciphertext. */
  method PackCiphertext(r: array<uint8>, b: seq<array<int16>>, v: array<int16>)
    requires IsVec(b) && v.Length == 256 && r.Length == 768
    modifies r
    ensures r[..] == Ciphertext(Vec(b), v[..])
  {
    hide VecCompress, PolyCompressSpec;
    PolyVecCompress(r, b);
    PolyCompress(r, 640, v);
  }

  /** unpack_ciphertext. */
  method UnpackCiphertext(b: seq<array<int16>>, v: array<int16>, c: array<uint8>)
    requires IsVec(b) && v.Length == 256 && v != b[0] && v != b[1] && c.Length == 768
    modifies b[0], b[1], v
    ensures Vec(b) == VecDecompress(c[..640]) && v[..] == PolyDecompressSpec(c[640..])
  {
    hide VecDecompress, PolyDecompressSpec;
    PolyVecDecompress(b, c);
    PolyDecompress(v, c, 640);
    assert c[640..] == c[640..768];
  }

  // ---- indcpa_keypair_derand, indcpa_enc, indcpa_dec ----

  method GetNoiseVec1(v: seq<array<int16>>, seed: seq<uint8>, nonce: uint8)
    requires IsVec(v) && nonce < 254
    modifies v[0], v[1]
    ensures Vec(v) == NoiseVec1(ShakePrf, seed, nonce)
  {
    hide Noise1, ShakePrf;
    for i := 0 to 2
      invariant 0 < i ==> v[0][..] == Noise1(ShakePrf, seed, nonce)
      invariant 1 < i ==> v[1][..] == Noise1(ShakePrf, seed, nonce + 1)
    {
      PolyGetNoiseEta1(v[i], seed, nonce + i);
    }
  }

  method GetNoiseVec2(v: seq<array<int16>>, seed: seq<uint8>, nonce: uint8)
    requires IsVec(v) && nonce < 254
    modifies v[0], v[1]
    ensures Vec(v) == NoiseVec2(ShakePrf, seed, nonce)
  {
    hide Noise2, ShakePrf;
    for i := 0 to 2
      invariant 0 < i ==> v[0][..] == Noise2(ShakePrf, seed, nonce)
      invariant 1 < i ==> v[1][..] == Noise2(ShakePrf, seed, nonce + 1)
    {
      PolyGetNoiseEta2(v[i], seed, nonce + i);
    }
  }

  /** A s + e in the transform domain. */
  method PublicVector(pkpv: seq<array<int16>>, a: seq<seq<array<int16>>>, skpv: seq<array<int16>>, e: seq<array<int16>>)
    requires IsMatrix(a) && IsVec(pkpv) && IsVec(skpv) && IsVec(e) && Reduced(Vec(skpv))
    requires Apart(pkpv, a[0]) && Apart(pkpv, a[1]) && Apart(pkpv, skpv) && Apart(pkpv, e)
    modifies pkpv[0], pkpv[1]
    ensures Vec(pkpv) == PublicVec(Vec(a[0]), Vec(a[1]), Vec(skpv), Vec(e))
  {
    hide AccSpec, TomontSpec, AddSpec, ReduceSpec, Bounded, Reduced;
    for i := 0 to 2
      invariant 0 < i ==> pkpv[0][..] == TomontSpec(AccSpec(Vec(a[0]), Vec(skpv)))
      invariant 1 < i ==> pkpv[1][..] == TomontSpec(AccSpec(Vec(a[1]), Vec(skpv)))
    {
      PolyVecBasemulAcc(pkpv[i], a[i], skpv);
      PolyTomont(pkpv[i]);
    }
    PolyVecAdd(pkpv, e);
    PolyVecReduce(pkpv);
  }

  /** hash_g of the coins followed by KYBER_K. */
  method ExpandCoins(coins: seq<uint8>) returns (publicSeed: seq<uint8>, noiseSeed: seq<uint8>)
    ensures publicSeed == PublicSeed(ShakeSymmetric(), coins) && noiseSeed == NoiseSeed(ShakeSymmetric(), coins)
  {
    hide ShakeG, Number;
    var h := new bv8[64](_ => 0);
    HashG(h, coins + [2]);
    var buf := Numbers(h[..]);
    assert buf == Prefix(ShakeG(coins + [2]), 64);
    publicSeed, noiseSeed := buf[..32], buf[32..];
  }

  /** Two noise vectors, both transformed. */
  method TransformedNoise(seed: seq<uint8>) returns (skpv: seq<array<int16>>, e: seq<array<int16>>)
    ensures IsVec(skpv) && IsVec(e) && fresh(skpv[0]) && fresh(skpv[1]) && fresh(e[0]) && fresh(e[1])
    ensures Vec(skpv) == VecNttSpec(NoiseVec1(ShakePrf, seed, 0)) && Vec(e) == VecNttSpec(NoiseVec1(ShakePrf, seed, 2))
  {
    hide NoiseVec1, VecNttSpec;
    skpv := NewPolyVec();
    GetNoiseVec1(skpv, seed, 0);
    e := NewPolyVec();
    GetNoiseVec1(e, seed, 2);
    PolyVecNtt(skpv);
    PolyVecNtt(e);
  }

  method KeyPair(pk: array<uint8>, sk: array<uint8>, coins: seq<uint8>)
    requires pk.Length == 800 && sk.Length == 768 && pk != sk && |coins| == 32
    requires EnoughForMatrix(ShakeXof, PublicSeed(ShakeSymmetric(), coins))
    modifies pk, sk
    ensures pk[..] == PublicKey(ShakeSymmetric(), coins) && sk[..] == SecretKey(ShakeSymmetric(), coins)
  {
    hide Sample, Enough, NoiseVec1, VecNttSpec, PublicVec, VecToBytes, MatrixRow, EnoughForMatrix, Reduced, Prefix, PublicSeed, NoiseSeed, ShakeG;
    var publicSeed, noiseSeed := ExpandCoins(coins);
    var a := NewMatrix();
    GenMatrix(a, publicSeed, false);
    var skpv, e := TransformedNoise(noiseSeed);
    assert Vec(skpv) == SecretHat(ShakeSymmetric(), coins);
    var pkpv := NewPolyVec();
    PublicVector(pkpv, a, skpv, e);
    PolyVecToBytes(sk, skpv);
    PackPk(pk, pkpv, publicSeed);
  }

  /** A^T r + e1. */
  method CipherVector(b: seq<array<int16>>, at: seq<seq<array<int16>>>, sp: seq<array<int16>>, ep: seq<array<int16>>)
    requires IsMatrix(at) && IsVec(b) && IsVec(sp) && IsVec(ep) && Reduced(Vec(sp))
    requires Apart(b, at[0]) && Apart(b, at[1]) && Apart(b, sp) && Apart(b, ep)
    modifies b[0], b[1]
    ensures Vec(b) == CipherVec(Vec(at[0]), Vec(at[1]), Vec(sp), Vec(ep))
  {
    hide AccSpec, PolyInvNttSpec, AddSpec, ReduceSpec, Bounded, Reduced;
    for i := 0 to 2
      invariant 0 < i ==> b[0][..] == AccSpec(Vec(at[0]), Vec(sp))
      invariant 1 < i ==> b[1][..] == AccSpec(Vec(at[1]), Vec(sp))
    {
      PolyVecBasemulAcc(b[i], at[i], sp);
    }
    PolyVecInvNtt(b);
    PolyVecAdd(b, ep);
    PolyVecReduce(b);
  }

  /** t r + e2 + k. */
  method CipherPolynomial(v: array<int16>, pkpv: seq<array<int16>>, sp: seq<array<int16>>, epp: array<int16>, k: array<int16>)
    requires IsVec(pkpv) && IsVec(sp) && Reduced(Vec(sp)) && v.Length == epp.Length == k.Length == 256
    requires v != pkpv[0] && v != pkpv[1] && v != sp[0] && v != sp[1] && v != epp && v != k
    modifies v
    ensures v[..] == CipherPoly(Vec(pkpv), Vec(sp), epp[..], k[..])
  {
    hide AccSpec, PolyInvNttSpec, AddSpec, ReduceSpec, Bounded, Reduced;
    PolyVecBasemulAcc(v, pkpv, sp);
    PolyInvNtt(v);
    PolyAdd(v, v, epp);
    PolyAdd(v, v, k);
    PolyReduce(v);
  }

  /** The noise of encryption, with its secret vector already transformed. */
  method EncryptionNoise(sp: seq<array<int16>>, ep: seq<array<int16>>, epp: array<int16>, coins: seq<uint8>)
    requires IsVec(sp) && IsVec(ep) && Apart(sp, ep) && epp.Length == 256
    requires epp != sp[0] && epp != sp[1] && epp != ep[0] && epp != ep[1]
    modifies sp[0], sp[1], ep[0], ep[1], epp
    ensures Vec(sp) == EncryptionHat(ShakeSymmetric(), coins) && Vec(ep) == NoiseVec2(ShakePrf, coins, 2)
    ensures epp[..] == Noise2(ShakePrf, coins, 4)
  {
    hide NoiseVec1, NoiseVec2, Noise2, VecNttSpec, Reduced;
    GetNoiseVec1(sp, coins, 0);
    GetNoiseVec2(ep, coins, 2);
    PolyGetNoiseEta2(epp, coins, 4);
    PolyVecNtt(sp);
  }

  method EncryptWith(c: array<uint8>, pkpv: seq<array<int16>>, at: seq<seq<array<int16>>>, sp: seq<array<int16>>,
                     ep: seq<array<int16>>, epp: array<int16>, m: seq<uint8>)
    requires c.Length == 768 && IsVec(pkpv) && IsMatrix(at) && IsVec(sp) && IsVec(ep)
    requires epp.Length == 256 && Reduced(Vec(sp)) && |m| == 32
    modifies c
    ensures c[..] == CiphertextOf(Vec(at[0]), Vec(at[1]), Vec(pkpv), Vec(sp), Vec(ep), epp[..], FromMsgSpec(m))
  {
    hide Ciphertext, CipherVec, CipherPoly, Reduced, FromMsgSpec;
    var k := new int16[256];
    PolyFromMsg(k, m);
    var b := NewPolyVec();
    CipherVector(b, at, sp, ep);
    var v := new int16[256];
    CipherPolynomial(v, pkpv, sp, epp, k);
    PackCiphertext(c, b, v);
  }

  lemma EncryptIs(sym: Symmetric, pk: seq<uint8>, m: seq<uint8>, coins: seq<uint8>)
    requires |pk| == 800 && |m| == 32 && EnoughForMatrix(sym.xof, SeedOf(pk))
    ensures Encrypt(sym, pk, m, coins)
         == CiphertextOf(MatrixRow(sym.xof, SeedOf(pk), true, 0), MatrixRow(sym.xof, SeedOf(pk), true, 1), VecOf(pk),
                         EncryptionHat(sym, coins), NoiseVec2(sym.prf, coins, 2), Noise2(sym.prf, coins, 4), FromMsgSpec(m))
  {
    hide Ciphertext, CipherVec, CipherPoly, MatrixRow, EnoughForMatrix, SeedOf, VecOf, EncryptionHat, NoiseVec2, Noise2, FromMsgSpec;
  }

  method Enc(c: array<uint8>, m: seq<uint8>, pk: array<uint8>, coins: seq<uint8>)
    requires c.Length == 768 && pk.Length == 800 && c != pk && |m| == |coins| == 32
    requires EnoughForMatrix(ShakeXof, SeedOf(pk[..]))
    modifies c
    ensures c[..] == Encrypt(ShakeSymmetric(), old(pk[..]), m, coins)
  {
    hide Encrypt, CiphertextOf, MatrixRow, EnoughForMatrix, SeedOf, VecOf, EncryptionHat, NoiseVec2, Noise2, FromMsgSpec, Reduced;
    EncryptIs(ShakeSymmetric(), pk[..], m, coins);
    var pkpv := NewPolyVec();
    var sp := NewPolyVec();
    var ep := NewPolyVec();
    var epp := new int16[256];
    var at := NewMatrix();
    var seed := UnpackPk(pkpv, pk);
    GenMatrix(at, seed, true);
    EncryptionNoise(sp, ep, epp, coins);
    EncryptWith(c, pkpv, at, sp, ep, epp, m);
  }

  method Dec(c: array<uint8>, sk: array<uint8>) returns (m: array<uint8>)
    requires c.Length == 768 && sk.Length == 768
    ensures fresh(m) && m[..] == Decrypt(c[..], sk[..])
  {
    hide VecDecompress, PolyDecompressSpec, VecFromBytes, VecNttSpec, Reduced, AccSpec, PolyInvNttSpec, SubSpec, ReduceSpec, ToMsgSpec;
    var b := NewPolyVec();
    var v := new int16[256];
    UnpackCiphertext(b, v, c);
    var skpv := NewPolyVec();
    PolyVecFromBytes(skpv, sk);
    assert c[..][..640] == c[..640] && c[..][640..] == c[640..] && sk[..768] == sk[..];
    DecompressedReduced(c[..640]);
    PolyVecNtt(b);
    var mp := new int16[256];
    PolyVecBasemulAcc(mp, skpv, b);
    PolyInvNtt(mp);
    PolySub(mp, v, mp);
    PolyReduce(mp);
    m := PolyToMsg(mp);
  }
}
