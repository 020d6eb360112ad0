/**
 Key generation, encryption and decryption entry by entry, as algorithms 13 to 15 of FIPS 203 describe them: the sponge on literal
 inputs, bit fields of the byte strings, and arithmetic modulo q.
 */
module KPkeStandard {
  import opened Words
  import opened ModQ
  import opened Transform
  import opened RqAlgebra
  import opened RingProduct
  import opened Poly
  import opened Packing
  import opened Compress
  import opened Cbd
  import opened Sponge
  import opened Shake
  import opened KyberSymmetric
  import opened Sampling
  import opened KPke
  import opened KPkeCorrect
  import opened Fields
  import InvNtt

  // ---- The symmetric primitives: section 4.1 of FIPS 203 ----

  /** Output byte k of the sponge function with rate r and domain separation dom. */
  function SpongeByte(m: seq<uint8>, r: nat, dom: bv8, k: nat): uint8
    requires IsRate(r)
  {
    Number(SqueezeByte(AbsorbBlocks(Zero(), Blocks(Octets(m), r, dom)), r, k))
  }

  function SpongeBytes(m: seq<uint8>, r: nat, dom: bv8, from: nat, n: nat): (b: seq<uint8>)
    requires IsRate(r)
    ensures |b| == n
  {
    seq<uint8>(n, k requires 0 <= k < n => SpongeByte(m, r, dom, from + k))
  }

  /** The two halves of G(d || k): SHA3-512 of the coins and the byte 2. */
  function Rho(d: seq<uint8>): seq<uint8> {
    SpongeBytes(d + [2], 72, 0x06, 0, 32)
  }

  function Sigma(d: seq<uint8>): seq<uint8> {
    SpongeBytes(d + [2], 72, 0x06, 32, 32)
  }

  /** SamplePolyCBD of PRF(s, b): SHAKE256 of the seed and the byte b. */
  function NoiseOf(eta: nat, s: seq<uint8>, b: uint8): Poly
    requires eta == 2 || eta == 3
  {
    CbdSpec(eta, SpongeBytes(s + [b], 136, 0x1F, 0, 64 * eta))
  }

  /** XOF(rho, j, i): SHAKE128 of the seed and two bytes. */
  function XofOf(rho: seq<uint8>, j: uint8, i: uint8): Stream {
    k => SpongeByte(rho + [j, i], 168, 0x1F, k)
  }

  /** The output for every matrix entry holds enough candidates. */
  ghost predicate Sampled(rho: seq<uint8>) {
    forall i: uint8, j: uint8 :: i < 2 && j < 2 ==> Enough(XofOf(rho, j, i))
  }

  /** Entry (i, j) of the matrix: SampleNTT of XOF(rho, j, i). */
  ghost function MatrixEntry(rho: seq<uint8>, i: uint8, j: uint8): Poly
    requires Sampled(rho) && i < 2 && j < 2
  {
    Sample(XofOf(rho, j, i))
  }

  // ---- The layout of keys and ciphertexts ----

  /** Coefficient p of polynomial i in a key: twelve bits each. */
  function KeyField(b: seq<uint8>, i: nat, p: nat): nat
    requires |b| >= 768 && i < 2 && p < 256
  {
    FieldAt(b, 12 * (256 * i + p), 12)
  }

  /** Coefficient p of the compressed polynomial i in a ciphertext: ten bits each. */
  function CipherField(c: seq<uint8>, i: nat, p: nat): nat
    requires |c| >= 640 && i < 2 && p < 256
  {
    FieldAt(c, 10 * (256 * i + p), 10)
  }

  /** Coefficient p of the last polynomial of a ciphertext: four bits each, behind 640 bytes. */
  function LastField(c: seq<uint8>, p: nat): nat
    requires |c| == 768 && p < 256
  {
    FieldAt(c, 8 * 640 + 4 * p, 4)
  }

  // ---- What the algorithms compute ----

  ghost function NoiseNtt(s: seq<uint8>): (r: seq<seq<int>>)
    ensures Vec2(r)
  {
    [NttOf(NoiseOf(3, s, 0)), NttOf(NoiseOf(3, s, 1))]
  }

  /** Row i of A s + e; the noise takes the nonces 0 and 1 for s, 2 and 3 for e. */
  ghost function KeyRow(d: seq<uint8>, i: uint8): (t: seq<int>)
    requires Sampled(Rho(d)) && i < 2
    ensures |t| == 256
  {
    Plus(PointDot([MatrixEntry(Rho(d), i, 0), MatrixEntry(Rho(d), i, 1)], NoiseNtt(Sigma(d))), NttOf(NoiseOf(3, Sigma(d), 2 + i)))
  }

  /** Row i of A^T r + e1; the nonces are 0 and 1 for r, 2 and 3 for e1. */
  ghost function CipherRow(rho: seq<uint8>, coins: seq<uint8>, i: uint8): (u: seq<int>)
    requires Sampled(rho) && i < 2
    ensures |u| == 256
  {
    Plus(InvNttOf(PointDot([MatrixEntry(rho, 0, i), MatrixEntry(rho, 1, i)], NoiseNtt(coins))), NoiseOf(2, coins, 2 + i))
  }

  /** A vector of two polynomials read from fields of twelve bits. */
  ghost function KeyFields(b: seq<uint8>): (t: seq<seq<int>>)
    requires |b| >= 768
    ensures Vec2(t)
  {
    [seq(256, p requires 0 <= p < 256 => KeyField(b, 0, p)), seq(256, p requires 0 <= p < 256 => KeyField(b, 1, p))]
  }

  /** t r + e2 + m; the nonce of e2 is 4, a message bit counts 1665. */
  ghost function CipherLast(pk: seq<uint8>, m: seq<uint8>, coins: seq<uint8>): (v: seq<int>)
    requires |pk| >= 768 && |m| == 32
    ensures |v| == 256
  {
    Plus(Plus(InvNttOf(PointDot(KeyFields(pk), NoiseNtt(coins))), NoiseOf(2, coins, 4)),
         seq(256, p requires 0 <= p < 256 => 1665 * FieldAt(m, p, 1)))
  }

  // ---- The primitives of the code are those of the standard ----

  lemma OutputIs(m: seq<uint8>, r: nat, dom: bv8, k: nat)
    requires IsRate(r)
    ensures Output(Octets(m), r, dom)(k) == SpongeByte(m, r, dom, k)
  {
    hide OutputByte, Blocks, AbsorbBlocks, SqueezeByte, Octets, Number, Zero;
    SpongeTheorem(Octets(m), r, dom, k);
  }

  lemma PrefixIs(m: seq<uint8>, r: nat, dom: bv8, n: nat)
    requires IsRate(r)
    ensures Prefix(Output(Octets(m), r, dom), n) == SpongeBytes(m, r, dom, 0, n)
  {
    hide Output, SpongeByte;
    forall k | 0 <= k < n ensures Output(Octets(m), r, dom)(k) == SpongeByte(m, r, dom, k) { OutputIs(m, r, dom, k); }
  }

  /** The first half of the digest is published, the second half is the noise seed. */
  lemma SeedsAre(d: seq<uint8>)
    ensures PublicSeed(ShakeSymmetric(), d) == Rho(d) && NoiseSeed(ShakeSymmetric(), d) == Sigma(d)
  {
    hide Output, SpongeByte, Octets;
    PrefixIs(d + [2], 72, 0x06, 64);
    assert Prefix(ShakeSymmetric().g(d + [2]), 64) == SpongeBytes(d + [2], 72, 0x06, 0, 64);
  }

  lemma Noise1Is(s: seq<uint8>, b: uint8)
    ensures Noise1(ShakePrf, s, b) == NoiseOf(3, s, b)
  {
    hide Output, SpongeByte, Octets, CbdSpec, SpongeBytes, Prefix;
    PrefixIs(s + [b], 136, 0x1F, 192);
  }

  lemma Noise2Is(s: seq<uint8>, b: uint8)
    ensures Noise2(ShakePrf, s, b) == NoiseOf(2, s, b)
  {
    hide Output, SpongeByte, Octets, CbdSpec, SpongeBytes, Prefix;
    PrefixIs(s + [b], 136, 0x1F, 128);
  }

  lemma SameSample(f: Stream, g: Stream)
    requires Enough(f) && forall k: nat :: f(k) == g(k)
    ensures Enough(g) && Sample(f) == Sample(g)
  {
    hide Accept;
    var n: nat :| |Accept(Prefix(f, n))| >= 256;
    assert Prefix(f, n) == Prefix(g, n);
    SampleIs(f, n);
    SampleIs(g, n);
  }

  lemma EntryIs(rho: seq<uint8>, i: uint8, j: uint8)
    requires Sampled(rho) && i < 2 && j < 2
    ensures Enough(ShakeXof(rho, j, i)) && Sample(ShakeXof(rho, j, i)) == MatrixEntry(rho, i, j)
  {
    hide Enough, Sample, SpongeByte, Output, Octets;
    forall k: nat ensures XofOf(rho, j, i)(k) == ShakeXof(rho, j, i)(k) { OutputIs(rho + [j, i], 168, 0x1F, k); }
    SameSample(XofOf(rho, j, i), ShakeXof(rho, j, i));
  }

  /** Rows of A, and of its transpose. */
  lemma RowIs(rho: seq<uint8>, i: uint8)
    requires Sampled(rho) && i < 2
    ensures EnoughForMatrix(ShakeXof, rho)
    ensures MatrixRow(ShakeXof, rho, false, i) == [MatrixEntry(rho, i, 0), MatrixEntry(rho, i, 1)]
    ensures MatrixRow(ShakeXof, rho, true, i) == [MatrixEntry(rho, 0, i), MatrixEntry(rho, 1, i)]
  {
    hide Enough, Sample, ShakeXof, MatrixEntry, Sampled;
    EntryIs(rho, 0, 0);
    EntryIs(rho, 0, 1);
    EntryIs(rho, 1, 0);
    EntryIs(rho, 1, 1);
  }

  // ---- Serialized vectors, field by field ----

  lemma CongMod(a: int, b: int)
    requires Cong(a, b)
    ensures a % Q == b % Q
  {
  }

  lemma VecToBytesFields(v: PolyVec, i: nat, p: nat)
    requires Reduced(v) && i < 2 && p < 256
    ensures KeyField(VecToBytes(v), i, p) == v[i][p] % Q
  {
    hide FieldAt, Bounded, ToBytesSpec;
    var b := VecToBytes(v);
    ToBytesFields(v[i], p);
    if i == 0 {
      assert b[0..384] == ToBytesSpec(v[0]);
      FieldSlice(b, 0, 384, 12 * p, 12);
    } else {
      assert b[384..768] == ToBytesSpec(v[1]);
      FieldSlice(b, 384, 768, 12 * p, 12);
    }
  }

  lemma FromBytesSlice(b: seq<uint8>, lo: nat, p: nat)
    requires lo + 384 <= |b| && p < 256
    ensures FromBytesSpec(b[lo..lo + 384])[p] == FieldAt(b, 8 * lo + 12 * p, 12)
  {
    hide *;
    FromBytesFields(b[lo..lo + 384], p);
    FieldSlice(b, lo, lo + 384, 12 * p, 12);
  }

  lemma VecFromBytesFields(b: seq<uint8>, i: nat, p: nat)
    requires |b| == 768 && i < 2 && p < 256
    ensures VecFromBytes(b)[i][p] == KeyField(b, i, p)
  {
    hide FieldAt, FromBytesSpec;
    if i == 0 {
      assert b[0..384] == b[..384];
      FromBytesSlice(b, 0, p);
    } else {
      assert b[384..768] == b[384..];
      FromBytesSlice(b, 384, p);
    }
  }

  lemma VecCompressFields(v: PolyVec, i: nat, p: nat)
    requires Reduced(v) && i < 2 && p < 256
    ensures CipherField(VecCompress(v), i, p) == RoundScaled(v[i][p] % Q, 1024)
  {
    hide FieldAt, Bounded, PolyCompress10Spec, RoundScaled;
    var b := VecCompress(v);
    CompressTenFields(v[i], p);
    if i == 0 {
      assert b[0..320] == PolyCompress10Spec(v[0]);
      FieldSlice(b, 0, 320, 10 * p, 10);
    } else {
      assert b[320..640] == PolyCompress10Spec(v[1]);
      FieldSlice(b, 320, 640, 10 * p, 10);
    }
  }

  lemma DecompressSlice(b: seq<uint8>, lo: nat, p: nat)
    requires lo + 320 <= |b| && p < 256
    ensures Nearest(PolyDecompress10Spec(b[lo..lo + 320])[p], Q * FieldAt(b, 8 * lo + 10 * p, 10), 1024)
  {
    hide *;
    DecompressTenFields(b[lo..lo + 320], p);
    FieldSlice(b, lo, lo + 320, 10 * p, 10);
  }

  lemma VecDecompressFields(b: seq<uint8>, i: nat, p: nat)
    requires |b| == 640 && i < 2 && p < 256
    ensures Nearest(VecDecompress(b)[i][p], Q * CipherField(b, i, p), 1024)
  {
    hide FieldAt, PolyDecompress10Spec, Nearest;
    if i == 0 {
      assert b[0..320] == b[..320];
      DecompressSlice(b, 0, p);
    } else {
      assert b[320..640] == b[320..];
      DecompressSlice(b, 320, p);
    }
  }

  lemma KeyFieldsAre(b: seq<uint8>)
    requires |b| >= 768
    ensures VecFromBytes(b[..768]) == KeyFields(b)
  {
    hide FieldAt, VecFromBytes;
    var v, t := VecFromBytes(b[..768]), KeyFields(b);
    forall p | 0 <= p < 256 ensures v[0][p] == t[0][p] && v[1][p] == t[1][p] {
      VecFromBytesFields(b[..768], 0, p);
      VecFromBytesFields(b[..768], 1, p);
      FieldSlice(b, 0, 768, 12 * p, 12);
      FieldSlice(b, 0, 768, 12 * (256 + p), 12);
    }
    assert v[0] == t[0] && v[1] == t[1];
  }

  // ---- Key generation ----

  lemma SecretIs(d: seq<uint8>)
    ensures CongVec(SecretHat(ShakeSymmetric(), d), NoiseNtt(Sigma(d)))
    ensures Reduced(SecretHat(ShakeSymmetric(), d))
  {
    hide CongSeq, NttOf, Noise1, NoiseOf, Sigma, SecretHat, ShakePrf, NoiseSeed, PublicSeed;
    SeedsAre(d);
    KeyHatsCorrect(ShakeSymmetric(), d);
    Noise1Is(Sigma(d), 0);
    Noise1Is(Sigma(d), 1);
  }

  lemma SecretField(d: seq<uint8>, i: nat, p: nat)
    requires i < 2 && p < 256
    ensures KeyField(SecretKey(ShakeSymmetric(), d), i, p) == NttOf(NoiseOf(3, Sigma(d), i))[p] % Q
  {
    hide FieldAt, NttOf, NoiseOf, Sigma, SecretHat, VecToBytes, Cong, Reduced, ShakeSymmetric;
    SecretIs(d);
    var v := SecretHat(ShakeSymmetric(), d);
    VecToBytesFields(v, i, p);
    assert Cong(v[i][p], NoiseNtt(Sigma(d))[i][p]);
    CongMod(v[i][p], NoiseNtt(Sigma(d))[i][p]);
  }

  /** One row of the public key, in the standard's terms. */
  lemma PublicRowIs(d: seq<uint8>, i: uint8)
    requires Sampled(Rho(d)) && i < 2
    ensures EnoughForMatrix(ShakeXof, PublicSeed(ShakeSymmetric(), d))
    ensures Bounded(PublicKeyVec(ShakeSymmetric(), d)[i], 1664) && CongSeq(PublicKeyVec(ShakeSymmetric(), d)[i], KeyRow(d, i))
  {
    hide Bounded, CongSeq, NttOf, NoiseOf, Sigma, Rho, SecretHat, PublicRow, PointDot, Plus, PublicSeed, NoiseSeed, VecNttSpec,
         Noise1, ShakePrf, ShakeXof, MatrixRow, MatrixEntry, EnoughForMatrix, Reduced, Sampled;
    var sym := ShakeSymmetric();
    SeedsAre(d);
    SecretIs(d);
    RowIs(Rho(d), 0);
    RowIs(Rho(d), 1);
    KeyHatsCorrect(sym, d);
    Noise1Is(Sigma(d), 2);
    Noise1Is(Sigma(d), 3);
    var row, sHat, eHat := MatrixRow(ShakeXof, Rho(d), false, i), SecretHat(sym, d), KeyNoiseHat(sym, d)[i];
    assert PublicKeyVec(sym, d)[i] == PublicRow(row, sHat, eHat);
    PublicRowCorrect(row, sHat, eHat);
    CongSeqRefl(row[0]);
    CongSeqRefl(row[1]);
    PointDotCong(row, row, sHat, NoiseNtt(Sigma(d)));
    PlusCong(PointDot(row, sHat), PointDot(row, NoiseNtt(Sigma(d))), eHat, NttOf(NoiseOf(3, Sigma(d), 2 + i)));
    CongSeqTrans(PublicRow(row, sHat, eHat), Plus(PointDot(row, sHat), eHat), KeyRow(d, i));
  }

  lemma PublicField(d: seq<uint8>, i: uint8, p: nat)
    requires Sampled(Rho(d)) && i < 2 && p < 256
    ensures EnoughForMatrix(ShakeXof, PublicSeed(ShakeSymmetric(), d))
    ensures KeyField(PublicKey(ShakeSymmetric(), d), i, p) == KeyRow(d, i)[p] % Q
  {
    hide FieldAt, VecToBytes, Cong, Bounded, EnoughForMatrix, PublicSeed, PublicKeyVec, KeyRow, Sampled, Rho;
    PublicRowIs(d, 0);
    PublicRowIs(d, 1);
    var pk, v := PublicKey(ShakeSymmetric(), d), PublicKeyVec(ShakeSymmetric(), d);
    BoundedReduced(v);
    VecToBytesFields(v, i, p);
    assert pk[0..768] == VecToBytes(v);
    FieldSlice(pk, 0, 768, 12 * (256 * i + p), 12);
    assert Cong(v[i][p], KeyRow(d, i)[p]);
    CongMod(v[i][p], KeyRow(d, i)[p]);
  }

  /** The public key for coins d: A s + e in fields of twelve bits, then the first half of the digest. */
  ghost predicate IsPublicKey(pk: seq<uint8>, d: seq<uint8>)
    requires Sampled(Rho(d))
  {
    && |pk| == 800
    && (forall i: uint8, p: nat :: i < 2 && p < 256 ==> KeyField(pk, i, p) == KeyRow(d, i)[p] % Q)
    && (forall k :: 0 <= k < 32 ==> pk[768 + k] == SpongeByte(d + [2], 72, 0x06, k))
  }

  /** The secret key: the transform of s, whose noise comes from the second half of the digest. */
  ghost predicate IsSecretKey(sk: seq<uint8>, d: seq<uint8>) {
    |sk| == 768 && forall i: uint8, p: nat :: i < 2 && p < 256 ==> KeyField(sk, i, p) == NttOf(NoiseOf(3, Sigma(d), i))[p] % Q
  }

  lemma PublicFields(d: seq<uint8>)
    requires Sampled(Rho(d))
    ensures EnoughForMatrix(ShakeXof, PublicSeed(ShakeSymmetric(), d)) && IsPublicKey(PublicKey(ShakeSymmetric(), d), d)
  {
    hide KeyField, VecToBytes, EnoughForMatrix, PublicSeed, PublicKeyVec, KeyRow, SpongeByte, Sampled, ShakeXof;
    PublicField(d, 0, 0);
    SeedsAre(d);
    forall i: uint8, p: nat | i < 2 && p < 256 ensures KeyField(PublicKey(ShakeSymmetric(), d), i, p) == KeyRow(d, i)[p] % Q {
      PublicField(d, i, p);
    }
  }

  lemma SecretFields(d: seq<uint8>)
    ensures IsSecretKey(SecretKey(ShakeSymmetric(), d), d)
  {
    hide KeyField, SecretKey, NttOf, NoiseOf, Sigma, ShakeSymmetric;
    forall i: uint8, p: nat | i < 2 && p < 256
      ensures KeyField(SecretKey(ShakeSymmetric(), d), i, p) == NttOf(NoiseOf(3, Sigma(d), i))[p] % Q
    {
      SecretField(d, i, p);
    }
  }

  /** Algorithm 13. */
  lemma KeyGeneration(d: seq<uint8>)
    requires |d| == 32 && Sampled(Rho(d))
    ensures EnoughForMatrix(ShakeXof, PublicSeed(ShakeSymmetric(), d))
    ensures IsPublicKey(PublicKey(ShakeSymmetric(), d), d) && IsSecretKey(SecretKey(ShakeSymmetric(), d), d)
  {
    hide *;
    PublicFields(d);
    SecretFields(d);
  }

  // ---- Encryption ----

  lemma EncryptionHatIs(coins: seq<uint8>)
    ensures CongVec(EncryptionHat(ShakeSymmetric(), coins), NoiseNtt(coins))
    ensures Reduced(EncryptionHat(ShakeSymmetric(), coins))
  {
    hide CongSeq, NttOf, Noise1, NoiseOf, VecNttSpec, ShakePrf, Reduced;
    NoiseVec1Bounded(ShakePrf, coins, 0);
    TransformCorrect(NoiseVec1(ShakePrf, coins, 0), 3);
    Noise1Is(coins, 0);
    Noise1Is(coins, 1);
  }

  lemma CipherRowIs(rho: seq<uint8>, coins: seq<uint8>, i: uint8)
    requires Sampled(rho) && i < 2
    ensures EnoughForMatrix(ShakeXof, rho)
    ensures CongSeq(EncryptVec(ShakeSymmetric(), rho, coins)[i], CipherRow(rho, coins, i))
    ensures Reduced(EncryptVec(ShakeSymmetric(), rho, coins))
  {
    hide Bounded, CongSeq, InvNttOf, NttOf, NoiseOf, EncryptionHat, EncryptVec, PointDot, Plus, Noise2, ShakePrf, ShakeXof, MatrixRow,
         MatrixEntry, EnoughForMatrix, Reduced, Sampled;
    var sym := ShakeSymmetric();
    RowIs(rho, 0);
    RowIs(rho, 1);
    EncryptionHatIs(coins);
    Noise2Is(coins, 2);
    Noise2Is(coins, 3);
    EncryptVecCorrect(sym, rho, coins);
    BoundedReduced(EncryptVec(sym, rho, coins));
    var row, rHat, e := MatrixRow(ShakeXof, rho, true, i), EncryptionHat(sym, coins), NoiseOf(2, coins, 2 + i);
    CongSeqRefl(row[0]);
    CongSeqRefl(row[1]);
    PointDotCong(row, row, rHat, NoiseNtt(coins));
    InvNttOfCong(PointDot(row, rHat), PointDot(row, NoiseNtt(coins)));
    CongSeqRefl(e);
    PlusCong(InvNttOf(PointDot(row, rHat)), InvNttOf(PointDot(row, NoiseNtt(coins))), e, e);
    CongSeqTrans(EncryptVec(sym, rho, coins)[i], Plus(InvNttOf(PointDot(row, rHat)), e), CipherRow(rho, coins, i));
  }

  lemma CipherLastIs(pk: seq<uint8>, m: seq<uint8>, coins: seq<uint8>)
    requires |pk| == 800 && |m| == 32
    ensures CongSeq(EncryptPoly(ShakeSymmetric(), VecOf(pk), m, coins), CipherLast(pk, m, coins))
    ensures Bounded(EncryptPoly(ShakeSymmetric(), VecOf(pk), m, coins), 3328)
  {
    hide Bounded, CongSeq, InvNttOf, NttOf, NoiseOf, EncryptionHat, PointDot, Plus, Noise2, ShakePrf, FromMsgSpec, CipherPoly, VecFromBytes,
         KeyFields, Reduced, FieldAt;
    var rHat, t, e2, k := EncryptionHat(ShakeSymmetric(), coins), VecOf(pk), NoiseOf(2, coins, 4), FromMsgSpec(m);
    KeyFieldsAre(pk);
    EncryptionHatIs(coins);
    Noise2Is(coins, 4);
    FromMsgIs(m);
    FromMsgBounded(m);
    Noise2Bounded(ShakePrf, coins, 4);
    CipherPolyCorrect(t, rHat, e2, k);
    CongSeqRefl(t[0]);
    CongSeqRefl(t[1]);
    PointDotCong(t, t, rHat, NoiseNtt(coins));
    var p, p' := InvNttOf(PointDot(t, rHat)), InvNttOf(PointDot(t, NoiseNtt(coins)));
    InvNttOfCong(PointDot(t, rHat), PointDot(t, NoiseNtt(coins)));
    CongSeqRefl(e2);
    CongSeqRefl(k);
    PlusCong(p, p', e2, e2);
    PlusCong(Plus(p, e2), Plus(p', e2), k, k);
    var v := EncryptPoly(ShakeSymmetric(), t, m, coins);
    CongSeqTrans(v, Plus(Plus(p, e2), k), CipherLast(pk, m, coins));
    InvNtt.BoundedWeaken(v, 1664, 3328);
  }

  lemma FromMsgIs(m: seq<uint8>)
    requires |m| == 32
    ensures FromMsgSpec(m) == seq(256, p requires 0 <= p < 256 => 1665 * FieldAt(m, p, 1))
  {
    hide FromMsgSpec, FieldAt;
    forall p | 0 <= p < 256 ensures FromMsgSpec(m)[p] == 1665 * FieldAt(m, p, 1) { FromMsgFields(m, p); }
  }

  /** The ciphertext for a key, a message and coins: both parts scaled to 1024 and 16 steps, rounded. */
  ghost predicate IsCiphertext(c: seq<uint8>, pk: seq<uint8>, m: seq<uint8>, coins: seq<uint8>)
    requires |pk| == 800 && |m| == 32 && Sampled(pk[768..])
  {
    && |c| == 768
    && (forall i: uint8, p: nat :: i < 2 && p < 256 ==> CipherField(c, i, p) == RoundScaled(CipherRow(pk[768..], coins, i)[p] % Q, 1024))
    && (forall p: nat :: p < 256 ==> LastField(c, p) == RoundScaled(CipherLast(pk, m, coins)[p] % Q, 16))
  }

  lemma CipherFieldIs(pk: seq<uint8>, m: seq<uint8>, coins: seq<uint8>, i: uint8, p: nat)
    requires |pk| == 800 && |m| == 32 && Sampled(pk[768..]) && i < 2 && p < 256
    ensures EnoughForMatrix(ShakeXof, SeedOf(pk))
    ensures CipherField(Encrypt(ShakeSymmetric(), pk, m, coins), i, p) == RoundScaled(CipherRow(pk[768..], coins, i)[p] % Q, 1024)
  {
    hide FieldAt, VecCompress, PolyCompressSpec, Cong, Reduced, EnoughForMatrix, EncryptVec, EncryptPoly, CipherRow, Sampled, RoundScaled;
    var rho := pk[768..];
    CipherRowIs(rho, coins, i);
    var u, v := EncryptVec(ShakeSymmetric(), rho, coins), EncryptPoly(ShakeSymmetric(), VecOf(pk), m, coins);
    var c := Encrypt(ShakeSymmetric(), pk, m, coins);
    VecCompressFields(u, i, p);
    CiphertextParts(u, v);
    assert c[0..640] == VecCompress(u);
    FieldSlice(c, 0, 640, 10 * (256 * i + p), 10);
    assert Cong(u[i][p], CipherRow(rho, coins, i)[p]);
    CongMod(u[i][p], CipherRow(rho, coins, i)[p]);
  }

  lemma LastFieldIs(pk: seq<uint8>, m: seq<uint8>, coins: seq<uint8>, p: nat)
    requires |pk| == 800 && |m| == 32 && EnoughForMatrix(ShakeXof, SeedOf(pk)) && p < 256
    ensures LastField(Encrypt(ShakeSymmetric(), pk, m, coins), p) == RoundScaled(CipherLast(pk, m, coins)[p] % Q, 16)
  {
    hide FieldAt, VecCompress, PolyCompressSpec, Cong, Bounded, EnoughForMatrix, EncryptVec, EncryptPoly, CipherLast, RoundScaled, VecOf;
    CipherLastIs(pk, m, coins);
    var u, v := EncryptVec(ShakeSymmetric(), SeedOf(pk), coins), EncryptPoly(ShakeSymmetric(), VecOf(pk), m, coins);
    var c := Encrypt(ShakeSymmetric(), pk, m, coins);
    CompressFourFields(v, p);
    CiphertextParts(u, v);
    assert c[640..768] == PolyCompressSpec(v);
    FieldSlice(c, 640, 768, 4 * p, 4);
    assert Cong(v[p], CipherLast(pk, m, coins)[p]);
    CongMod(v[p], CipherLast(pk, m, coins)[p]);
  }

  /** Algorithm 14. */
  lemma Encryption(pk: seq<uint8>, m: seq<uint8>, coins: seq<uint8>)
    requires |pk| == 800 && |m| == |coins| == 32 && Sampled(pk[768..])
    ensures EnoughForMatrix(ShakeXof, SeedOf(pk)) && IsCiphertext(Encrypt(ShakeSymmetric(), pk, m, coins), pk, m, coins)
  {
    hide CipherField, LastField, Encrypt, EnoughForMatrix, CipherRow, CipherLast, Sampled, RoundScaled, SeedOf, ShakeXof;
    CipherFieldIs(pk, m, coins, 0, 0);
    forall i: uint8, p: nat | i < 2 && p < 256
      ensures CipherField(Encrypt(ShakeSymmetric(), pk, m, coins), i, p) == RoundScaled(CipherRow(pk[768..], coins, i)[p] % Q, 1024)
    {
      CipherFieldIs(pk, m, coins, i, p);
    }
    forall p: nat | p < 256
      ensures LastField(Encrypt(ShakeSymmetric(), pk, m, coins), p) == RoundScaled(CipherLast(pk, m, coins)[p] % Q, 16)
    {
      LastFieldIs(pk, m, coins, p);
    }
  }

  // ---- Decryption ----

  /** u and v are a ciphertext scaled back: q * t / 1024 and q * t / 16, rounded. */
  ghost predicate Decompressed(c: seq<uint8>, u: PolyVec, v: Poly)
    requires |c| == 768
  {
    && (forall i: uint8, p: nat :: i < 2 && p < 256 ==> Nearest(u[i][p], Q * CipherField(c, i, p), 1024))
    && (forall p: nat :: p < 256 ==> Nearest(v[p], Q * LastField(c, p), 16))
  }

  /** v - s u, for the transformed secret vector in the key. */
  ghost function Difference(sk: seq<uint8>, u: PolyVec, v: Poly): (w: seq<int>)
    requires |sk| == 768
    ensures |w| == 256
  {
    Minus(v, InvNttOf(PointDot(KeyFields(sk), VecNttOf(u))))
  }

  lemma DifferenceIs(u: PolyVec, v: Poly, sk: seq<uint8>)
    requires |sk| == 768 && Bounded(u[0], 3329) && Bounded(u[1], 3329) && Bounded(v, 3329) && Reduced(VecNttSpec(u))
    ensures Bounded(DecryptPoly(u, v, VecFromBytes(sk)), 1664)
    ensures CongSeq(DecryptPoly(u, v, VecFromBytes(sk)), Difference(sk, u, v))
  {
    hide PointDot, CongSeq, Bounded, Reduced, MaskedProduct, InvNttOf, NttOf, ReduceSpec, SubSpec, Minus, PolyNttSpec, VecFromBytes, KeyFields,
         FieldAt;
    var sHat, uHat := VecFromBytes(sk), VecNttSpec(u);
    assert sk[..768] == sk;
    KeyFieldsAre(sk);
    var mp, p := MaskedProduct(sHat, uHat), InvNttOf(PointDot(sHat, VecNttOf(u)));
    TransformCorrect(u, 3329);
    CongSeqRefl(sHat[0]);
    CongSeqRefl(sHat[1]);
    PointDotCong(sHat, sHat, uHat, VecNttOf(u));
    InvNttOfCong(PointDot(sHat, uHat), PointDot(sHat, VecNttOf(u)));
    MaskedProductCorrect(sHat, uHat);
    CongSeqTrans(mp, InvNttOf(PointDot(sHat, uHat)), p);
    AddCorrect(v, mp, 3329, 3328);
    CongSeqRefl(v);
    PlusCong(v, v, mp, p);
    ReduceCorrect(SubSpec(v, mp));
    CongSeqTrans(DecryptPoly(u, v, sHat), Minus(v, mp), Minus(v, p));
  }

  lemma DecompressedIs(c: seq<uint8>)
    requires |c| == 768
    ensures Decompressed(c, VecDecompress(c[..640]), PolyDecompressSpec(c[640..]))
  {
    hide CipherField, LastField, Nearest, VecDecompress, PolyDecompressSpec;
    var u, v := VecDecompress(c[..640]), PolyDecompressSpec(c[640..]);
    forall i: uint8, p: nat | i < 2 && p < 256 ensures Nearest(u[i][p], Q * CipherField(c, i, p), 1024) {
      VecDecompressFields(c[..640], i, p);
      CipherFieldSlice(c, i, p);
    }
    forall p: nat | p < 256 ensures Nearest(v[p], Q * LastField(c, p), 16) {
      DecompressFourFields(c[640..], p);
      LastFieldSlice(c, p);
    }
  }

  lemma CipherFieldSlice(c: seq<uint8>, i: nat, p: nat)
    requires |c| == 768 && i < 2 && p < 256
    ensures CipherField(c[..640], i, p) == CipherField(c, i, p)
  {
    hide FieldAt;
    FieldSlice(c, 0, 640, 10 * (256 * i + p), 10);
  }

  lemma LastFieldSlice(c: seq<uint8>, p: nat)
    requires |c| == 768 && p < 256
    ensures FieldAt(c[640..], 4 * p, 4) == LastField(c, p)
  {
    hide FieldAt;
    assert c[640..] == c[640..768];
    FieldSlice(c, 640, 768, 4 * p, 4);
  }

  /** Algorithm 15: message bit p is coefficient p of v - s u scaled to two steps, rounded. */
  lemma Decryption(c: seq<uint8>, sk: seq<uint8>) returns (u: PolyVec, v: Poly)
    requires |c| == |sk| == 768
    ensures Decompressed(c, u, v)
    ensures forall p: nat :: p < 256 ==> FieldAt(Decrypt(c, sk), p, 1) == RoundScaled(Difference(sk, u, v)[p] % Q, 2)
  {
    hide Decompressed, Difference, VecDecompress, PolyDecompressSpec, DecryptPoly, VecFromBytes, ToMsgSpec, FieldAt, RoundScaled, Cong, Bounded,
         Reduced, VecNttSpec;
    u, v := VecDecompress(c[..640]), PolyDecompressSpec(c[640..]);
    DecompressedIs(c);
    VecDecompressBounded(c[..640]);
    DecompressBounded4(c[640..]);
    DecompressedReduced(c[..640]);
    DifferenceIs(u, v, sk);
    var w := DecryptPoly(u, v, VecFromBytes(sk));
    forall p: nat | p < 256 ensures FieldAt(Decrypt(c, sk), p, 1) == RoundScaled(Difference(sk, u, v)[p] % Q, 2) {
      ToMsgFields(w, p);
      assert Cong(w[p], Difference(sk, u, v)[p]);
      CongMod(w[p], Difference(sk, u, v)[p]);
    }
  }
}
