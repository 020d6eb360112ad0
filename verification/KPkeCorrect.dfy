/** Decryption inverts encryption up to an explicit noise polynomial. */
module KPkeCorrect {
  import opened Words
  import opened ModQ
  import opened Bits
  import opened Transform
  import opened Poly
  import opened RqAlgebra
  import opened RingProduct
  import opened Packing
  import opened Compress
  import opened KyberSymmetric
  import opened Sampling
  import opened KPke
  import InvNtt

  // ---- Scalar products ----

  /** Two sequences of 256 integers. */
  ghost predicate Vec2(v: seq<seq<int>>) {
    |v| == 2 && |v[0]| == |v[1]| == 256
  }

  ghost predicate CongVec(x: seq<seq<int>>, y: seq<seq<int>>)
    requires Vec2(x) && Vec2(y)
  {
    CongSeq(x[0], y[0]) && CongSeq(x[1], y[1])
  }

  ghost function VecPlus(x: seq<seq<int>>, y: seq<seq<int>>): (r: seq<seq<int>>)
    requires Vec2(x) && Vec2(y)
    ensures Vec2(r)
  {
    [Plus(x[0], y[0]), Plus(x[1], y[1])]
  }

  ghost function VecMinus(x: seq<seq<int>>, y: seq<seq<int>>): (r: seq<seq<int>>)
    requires Vec2(x) && Vec2(y)
    ensures Vec2(r)
  {
    [Minus(x[0], y[0]), Minus(x[1], y[1])]
  }

  ghost function MakeVec2(a: seq<int>, b: seq<int>): (r: seq<seq<int>>)
    requires |a| == |b| == 256
    ensures Vec2(r) && r[0] == a && r[1] == b
  {
    [a, b]
  }

  ghost function VecNttOf(x: seq<seq<int>>): (r: seq<seq<int>>)
    requires Vec2(x)
    ensures Vec2(r)
  {
    MakeVec2(NttOf(x[0]), NttOf(x[1]))
  }

  ghost function VecInvNttOf(x: seq<seq<int>>): (r: seq<seq<int>>)
    requires Vec2(x)
    ensures Vec2(r)
  {
    MakeVec2(InvNttOf(x[0]), InvNttOf(x[1]))
  }

  lemma PointDotCong(x: seq<seq<int>>, x': seq<seq<int>>, y: seq<seq<int>>, y': seq<seq<int>>)
    requires Vec2(x) && Vec2(x') && Vec2(y) && Vec2(y') && CongVec(x, x') && CongVec(y, y')
    ensures CongSeq(PointDot(x, y), PointDot(x', y'))
  {
    hide CongSeq, PointMul, Plus;
    PointMulCong(x[0], x'[0], y[0], y'[0]);
    PointMulCong(x[1], x'[1], y[1], y'[1]);
    PlusCong(PointMul(x[0], y[0]), PointMul(x'[0], y'[0]), PointMul(x[1], y[1]), PointMul(x'[1], y'[1]));
  }

  /** x . (y + z) = x . y + x . z, pointwise. */
  lemma PointDotPlus(x: seq<seq<int>>, y: seq<seq<int>>, z: seq<seq<int>>)
    requires Vec2(x) && Vec2(y) && Vec2(z)
    ensures PointDot(x, VecPlus(y, z)) == Plus(PointDot(x, y), PointDot(x, z))
    ensures PointDot(VecPlus(y, z), x) == Plus(PointDot(y, x), PointDot(z, x))
  {
    hide PointMul, Plus;
    PointMulDistributive(x[0], y[0], z[0]);
    PointMulDistributive(x[1], y[1], z[1]);
    PlusExchange(PointMul(x[0], y[0]), PointMul(x[0], z[0]), PointMul(x[1], y[1]), PointMul(x[1], z[1]));
    PlusExchange(PointMul(y[0], x[0]), PointMul(z[0], x[0]), PointMul(y[1], x[1]), PointMul(z[1], x[1]));
  }

  /** (a s) r = s (a r). */
  lemma MoveSecret(a: seq<int>, s: seq<int>, r: seq<int>)
    requires |a| == |s| == |r| == 256
    ensures PointMul(PointMul(a, s), r) == PointMul(s, PointMul(a, r))
  {
    hide PointMul;
    PointMulCommutative(a, s);
    PointMulAssociative(s, a, r);
  }

  /** (A s) . r = s . (A^T r). */
  lemma MatrixSwap(a0: seq<seq<int>>, a1: seq<seq<int>>, s: seq<seq<int>>, r: seq<seq<int>>)
    requires Vec2(a0) && Vec2(a1) && Vec2(s) && Vec2(r)
    ensures PointDot([PointDot(a0, s), PointDot(a1, s)], r)
         == PointDot(s, [PointDot([a0[0], a1[0]], r), PointDot([a0[1], a1[1]], r)])
  {
    hide PointMul, Plus;
    PointMulDistributive(r[0], PointMul(a0[0], s[0]), PointMul(a0[1], s[1]));
    PointMulDistributive(r[1], PointMul(a1[0], s[0]), PointMul(a1[1], s[1]));
    MoveSecret(a0[0], s[0], r[0]);
    MoveSecret(a0[1], s[1], r[0]);
    MoveSecret(a1[0], s[0], r[1]);
    MoveSecret(a1[1], s[1], r[1]);
    PlusExchange(PointMul(s[0], PointMul(a0[0], r[0])), PointMul(s[1], PointMul(a0[1], r[0])),
                 PointMul(s[0], PointMul(a1[0], r[1])), PointMul(s[1], PointMul(a1[1], r[1])));
    PointMulDistributive(s[0], PointMul(a0[0], r[0]), PointMul(a1[0], r[1]));
    PointMulDistributive(s[1], PointMul(a0[1], r[0]), PointMul(a1[1], r[1]));
  }

  /** The scalar product in the ring is the inverse transform of the pointwise one. */
  lemma RqDotTransform(x: seq<seq<int>>, y: seq<seq<int>>)
    requires Vec2(x) && Vec2(y)
    ensures CongSeq(InvNttOf(PointDot(VecNttOf(x), VecNttOf(y))), RqDot(x, y))
  {
    hide NttOf, InvNttOf, PointDot, RqDot, CongSeq;
    CongSeqRefl(NttOf(x[0]));
    CongSeqRefl(NttOf(x[1]));
    CongSeqRefl(NttOf(y[0]));
    CongSeqRefl(NttOf(y[1]));
    PointDotOfTransforms(VecNttOf(x), VecNttOf(y), x, y);
  }

  lemma RqDotPlus(s: seq<seq<int>>, x: seq<seq<int>>, y: seq<seq<int>>)
    requires Vec2(s) && Vec2(x) && Vec2(y)
    ensures CongSeq(RqDot(s, VecPlus(x, y)), Plus(RqDot(s, x), RqDot(s, y)))
  {
    hide NttOf, InvNttOf, PointDot, RqDot, CongSeq, Plus;
    var sh, xh, yh := VecNttOf(s), VecNttOf(x), VecNttOf(y);
    NttOfPlus(x[0], y[0]);
    NttOfPlus(x[1], y[1]);
    assert VecNttOf(VecPlus(x, y)) == VecPlus(xh, yh);
    PointDotPlus(sh, xh, yh);
    InvNttOfPlus(PointDot(sh, xh), PointDot(sh, yh));
    RqDotTransform(s, x);
    RqDotTransform(s, y);
    RqDotTransform(s, VecPlus(x, y));
    PlusCong(InvNttOf(PointDot(sh, xh)), RqDot(s, x), InvNttOf(PointDot(sh, yh)), RqDot(s, y));
    var p := InvNttOf(PointDot(sh, VecPlus(xh, yh)));
    CongSeqSym(p, RqDot(s, VecPlus(x, y)));
    CongSeqTrans(RqDot(s, VecPlus(x, y)), p, Plus(RqDot(s, x), RqDot(s, y)));
  }

  lemma RqDotCong(s: seq<seq<int>>, x: seq<seq<int>>, y: seq<seq<int>>)
    requires Vec2(s) && Vec2(x) && Vec2(y) && CongVec(x, y)
    ensures CongSeq(RqDot(s, x), RqDot(s, y))
  {
    hide NttOf, InvNttOf, PointDot, RqDot, CongSeq;
    var sh, xh, yh := VecNttOf(s), VecNttOf(x), VecNttOf(y);
    NttOfCong(x[0], y[0]);
    NttOfCong(x[1], y[1]);
    CongSeqRefl(sh[0]);
    CongSeqRefl(sh[1]);
    PointDotCong(sh, sh, xh, yh);
    InvNttOfCong(PointDot(sh, xh), PointDot(sh, yh));
    RqDotTransform(s, x);
    RqDotTransform(s, y);
    var p, q := InvNttOf(PointDot(sh, xh)), InvNttOf(PointDot(sh, yh));
    CongSeqSym(p, RqDot(s, x));
    CongSeqTrans(RqDot(s, x), p, q);
    CongSeqTrans(RqDot(s, x), q, RqDot(s, y));
  }

  // ---- The routines compute what their names say, modulo q ----

  /** A row of t = A s + e. */
  lemma PublicRowCorrect(row: PolyVec, sHat: PolyVec, eHat: Poly)
    requires Reduced(sHat) && Bounded(eHat, 1664)
    ensures Bounded(PublicRow(row, sHat, eHat), 1664)
    ensures CongSeq(PublicRow(row, sHat, eHat), Plus(PointDot(row, sHat), eHat))
  {
    hide AccSpec, PointDot, CongSeq, Bounded, Reduced, TomontSpec, AddSpec, ReduceSpec, Scale, Plus;
    var g, d := AccSpec(row, sHat), PointDot(row, sHat);
    AccCorrect(row, sHat);
    TomontCorrect(g, d);
    var t := TomontSpec(g);
    AddCorrect(t, eHat, 3328, 1664);
    CongSeqRefl(eHat);
    PlusCong(t, d, eHat, eHat);
    ReduceCorrect(AddSpec(t, eHat));
    CongSeqTrans(PublicRow(row, sHat, eHat), Plus(t, eHat), Plus(d, eHat));
  }

  lemma MaskedProductCorrect(row: PolyVec, rHat: PolyVec)
    requires Reduced(rHat)
    ensures Bounded(MaskedProduct(row, rHat), 3328)
    ensures CongSeq(MaskedProduct(row, rHat), InvNttOf(PointDot(row, rHat)))
  {
    hide AccSpec, PointDot, CongSeq, Bounded, Reduced, PolyInvNttSpec, InvNttOf, Scale;
    AccCorrect(row, rHat);
    InvNtt.BoundedWeaken(AccSpec(row, rHat), 1664, 0x3FFF);
    InvNttOfProduct(AccSpec(row, rHat), PointDot(row, rHat));
  }

  /** Adding noise to a product and reducing. */
  lemma AddReduceCorrect(x: Poly, y: Poly, p: seq<int>, bound: int, noise: int)
    requires Bounded(x, bound) && Bounded(y, noise) && bound + noise <= 0x7FFF && CongSeq(x, p)
    ensures Bounded(AddSpec(x, y), bound + noise) && CongSeq(AddSpec(x, y), Plus(p, y))
    ensures Bounded(ReduceSpec(AddSpec(x, y)), 1664) && CongSeq(ReduceSpec(AddSpec(x, y)), Plus(p, y))
  {
    hide CongSeq, Bounded, ReduceSpec, Plus, AddSpec;
    AddCorrect(x, y, bound, noise);
    CongSeqRefl(y);
    CongSeqLength(x, p);
    PlusCong(x, p, y, y);
    ReduceCorrect(AddSpec(x, y));
    CongSeqTrans(ReduceSpec(AddSpec(x, y)), AddSpec(x, y), Plus(p, y));
  }

  lemma CipherVecCorrect(row0: PolyVec, row1: PolyVec, rHat: PolyVec, e1: PolyVec)
    requires Reduced(rHat) && Bounded(e1[0], 2) && Bounded(e1[1], 2)
    ensures Bounded(CipherVec(row0, row1, rHat, e1)[0], 1664) && Bounded(CipherVec(row0, row1, rHat, e1)[1], 1664)
    ensures CongVec(CipherVec(row0, row1, rHat, e1), VecPlus(VecInvNttOf([PointDot(row0, rHat), PointDot(row1, rHat)]), e1))
  {
    hide PointDot, CongSeq, Bounded, Reduced, MaskedProduct, InvNttOf, ReduceSpec, AddSpec, Plus;
    MaskedProductCorrect(row0, rHat);
    MaskedProductCorrect(row1, rHat);
    AddReduceCorrect(MaskedProduct(row0, rHat), e1[0], InvNttOf(PointDot(row0, rHat)), 3328, 2);
    AddReduceCorrect(MaskedProduct(row1, rHat), e1[1], InvNttOf(PointDot(row1, rHat)), 3328, 2);
  }

  lemma CipherPolyCorrect(t: PolyVec, rHat: PolyVec, e2: Poly, k: Poly)
    requires Reduced(rHat) && Bounded(e2, 2) && Bounded(k, 1665)
    ensures Bounded(CipherPoly(t, rHat, e2, k), 1664)
    ensures CongSeq(CipherPoly(t, rHat, e2, k), Plus(Plus(InvNttOf(PointDot(t, rHat)), e2), k))
  {
    hide PointDot, CongSeq, Bounded, Reduced, MaskedProduct, InvNttOf, ReduceSpec, AddSpec, Plus;
    var p := InvNttOf(PointDot(t, rHat));
    MaskedProductCorrect(t, rHat);
    AddReduceCorrect(MaskedProduct(t, rHat), e2, p, 3328, 2);
    AddReduceCorrect(AddSpec(MaskedProduct(t, rHat), e2), k, Plus(p, e2), 3330, 1665);
  }

  /** Decryption subtracts s . u from v. */
  lemma DecryptPolyCorrect(u: PolyVec, v: Poly, sHat: PolyVec, s: seq<seq<int>>)
    requires Vec2(s) && CongVec(sHat, VecNttOf(s))
    requires Bounded(u[0], 3329) && Bounded(u[1], 3329) && Bounded(v, 3329) && Reduced(VecNttSpec(u))
    ensures Bounded(DecryptPoly(u, v, sHat), 1664)
    ensures CongSeq(DecryptPoly(u, v, sHat), Minus(v, RqDot(s, u)))
  {
    hide PointDot, CongSeq, Bounded, Reduced, MaskedProduct, InvNttOf, NttOf, ReduceSpec, SubSpec, AddSpec, Plus, Minus, RqDot, PolyNttSpec;
    var uHat := VecNttSpec(u);
    var mp := MaskedProduct(sHat, uHat);
    PolyNttCorrect(u[0], 3329);
    PolyNttCorrect(u[1], 3329);
    PointDotOfTransforms(sHat, uHat, s, u);
    MaskedProductCorrect(sHat, uHat);
    CongSeqTrans(mp, InvNttOf(PointDot(sHat, uHat)), RqDot(s, u));
    AddCorrect(v, mp, 3329, 3328);
    CongSeqRefl(v);
    PlusCong(v, v, mp, RqDot(s, u));
    ReduceCorrect(SubSpec(v, mp));
    CongSeqTrans(DecryptPoly(u, v, sHat), Minus(v, mp), Minus(v, RqDot(s, u)));
  }

  // ---- The noise ----

  /** Public key t = A s + e multiplied by r: s . (A^T r) + e . r. */
  lemma KeyProduct(a0: seq<seq<int>>, a1: seq<seq<int>>, t: seq<seq<int>>, sHat: seq<seq<int>>, eHat: seq<seq<int>>,
                   rHat: seq<seq<int>>, s: seq<seq<int>>, e: seq<seq<int>>, r: seq<seq<int>>)
    requires Vec2(a0) && Vec2(a1) && Vec2(t) && Vec2(sHat) && Vec2(eHat) && Vec2(rHat) && Vec2(s) && Vec2(e) && Vec2(r)
    requires CongVec(sHat, VecNttOf(s)) && CongVec(eHat, VecNttOf(e)) && CongVec(rHat, VecNttOf(r))
    requires CongVec(t, VecPlus([PointDot(a0, sHat), PointDot(a1, sHat)], eHat))
    ensures var u := VecInvNttOf([PointDot([a0[0], a1[0]], rHat), PointDot([a0[1], a1[1]], rHat)]);
            CongSeq(InvNttOf(PointDot(t, rHat)), Plus(RqDot(s, u), RqDot(e, r)))
  {
    hide PointDot, CongSeq, InvNttOf, NttOf, Plus, RqDot;
    var as' := [PointDot(a0, sHat), PointDot(a1, sHat)];
    var ar := [PointDot([a0[0], a1[0]], rHat), PointDot([a0[1], a1[1]], rHat)];
    var u := VecInvNttOf(ar);
    CongSeqRefl(rHat[0]);
    CongSeqRefl(rHat[1]);
    PointDotCong(t, VecPlus(as', eHat), rHat, rHat);
    PointDotPlus(rHat, as', eHat);
    MatrixSwap(a0, a1, sHat, rHat);
    InvNttOfCong(PointDot(t, rHat), Plus(PointDot(sHat, ar), PointDot(eHat, rHat)));
    InvNttOfPlus(PointDot(sHat, ar), PointDot(eHat, rHat));
    PointDotOfTransforms(eHat, rHat, e, r);
    InverseRight(ar[0]);
    InverseRight(ar[1]);
    CongSeqSym(NttOf(u[0]), ar[0]);
    CongSeqSym(NttOf(u[1]), ar[1]);
    PointDotOfTransforms(sHat, ar, s, u);
    PlusCong(InvNttOf(PointDot(sHat, ar)), RqDot(s, u), InvNttOf(PointDot(eHat, rHat)), RqDot(e, r));
    CongSeqTrans(InvNttOf(PointDot(t, rHat)), Plus(InvNttOf(PointDot(sHat, ar)), InvNttOf(PointDot(eHat, rHat))),
                 Plus(RqDot(s, u), RqDot(e, r)));
  }

  /** e . r + e2 + dv - s . (e1 + du). */
  ghost function Noise(s: seq<seq<int>>, e: seq<seq<int>>, r: seq<seq<int>>, e1: seq<seq<int>>, e2: seq<int>,
                       du: seq<seq<int>>, dv: seq<int>): (n: seq<int>)
    requires Vec2(s) && Vec2(e) && Vec2(r) && Vec2(e1) && Vec2(du) && |e2| == |dv| == 256
    ensures |n| == 256
  {
    Minus(Plus(Plus(RqDot(e, r), e2), dv), RqDot(s, VecPlus(e1, du)))
  }

  /** Splitting s . u' for u' congruent to w + e1 + du. */
  lemma SecretProduct(s: seq<seq<int>>, u: seq<seq<int>>, w: seq<seq<int>>, e1: seq<seq<int>>, d: seq<seq<int>>)
    requires Vec2(s) && Vec2(u) && Vec2(w) && Vec2(e1) && Vec2(d)
    requires CongVec(u, VecPlus(w, e1))
    ensures CongSeq(RqDot(s, d), Plus(RqDot(s, w), RqDot(s, VecPlus(e1, VecMinus(d, u)))))
  {
    hide CongSeq, Plus, Minus, RqDot;
    var du := VecMinus(d, u);
    PlusMinus(u[0], d[0]);
    PlusMinus(u[1], d[1]);
    CongSeqRefl(du[0]);
    CongSeqRefl(du[1]);
    PlusCong(u[0], VecPlus(w, e1)[0], du[0], du[0]);
    PlusCong(u[1], VecPlus(w, e1)[1], du[1], du[1]);
    PlusAssociative(w[0], e1[0], du[0]);
    PlusAssociative(w[1], e1[1], du[1]);
    var d' := VecPlus(w, VecPlus(e1, du));
    RqDotCong(s, d, d');
    RqDotPlus(s, w, VecPlus(e1, du));
    CongSeqTrans(RqDot(s, d), RqDot(s, d'), Plus(RqDot(s, w), RqDot(s, VecPlus(e1, du))));
  }

  lemma PlusMinus(u: seq<int>, d: seq<int>)
    requires |u| == |d|
    ensures Plus(u, Minus(d, u)) == d
  {
  }

  /** What is left of v' - s . u' once the common product cancels. */
  lemma NoiseRemains(x: seq<int>, er: seq<int>, e2: seq<int>, k: seq<int>, v: seq<int>, v': seq<int>, y: seq<int>)
    requires |x| == |er| == |e2| == |k| == |v| == |v'| == |y|
    requires CongSeq(v, Plus(Plus(Plus(x, er), e2), k))
    ensures CongSeq(Minus(v', Plus(x, y)), Plus(k, Minus(Plus(Plus(er, e2), Minus(v', v)), y)))
  {
    hide Cong;
    forall i | 0 <= i < |x|
      ensures Cong(Minus(v', Plus(x, y))[i], Plus(k, Minus(Plus(Plus(er, e2), Minus(v', v)), y))[i])
    {
      assert Cong(v[i], Plus(Plus(Plus(x, er), e2), k)[i]);
      NoiseCoefficient(x[i], er[i], e2[i], k[i], v[i], v'[i], y[i]);
    }
  }

  lemma NoiseCoefficient(x: int, er: int, e2: int, k: int, v: int, v': int, y: int)
    requires Cong(v, x + er + e2 + k)
    ensures Cong(v' - (x + y), k + (er + e2 + (v' - v) - y))
  {
  }

  // ---- Serialization in between ----

  lemma VecRoundTrip(p: PolyVec)
    requires Reduced(p)
    ensures CongVec(VecFromBytes(VecToBytes(p)), p)
  {
    hide ToBytesSpec, FromBytesSpec, Bounded, CongSeq;
    var b := VecToBytes(p);
    assert b[..384] == ToBytesSpec(p[0]) && b[384..] == ToBytesSpec(p[1]);
    PolyRoundTrip(p[0]);
    PolyRoundTrip(p[1]);
  }

  lemma PolyRoundTrip(a: Poly)
    requires Bounded(a, 3328)
    ensures CongSeq(FromBytesSpec(ToBytesSpec(a)), a)
  {
    hide ToBytesSpec, FromBytesSpec, Bounded;
    FromBytesToBytes(a);
  }

  lemma PublicKeyParts(sym: Symmetric, coins: seq<uint8>)
    requires EnoughForMatrix(sym.xof, PublicSeed(sym, coins))
    ensures VecOf(PublicKey(sym, coins)) == VecFromBytes(VecToBytes(PublicKeyVec(sym, coins)))
    ensures SeedOf(PublicKey(sym, coins)) == PublicSeed(sym, coins)
  {
    hide VecFromBytes, VecToBytes, PublicKeyVec, PublicSeed, EnoughForMatrix;
    var b := VecToBytes(PublicKeyVec(sym, coins));
    assert PublicKey(sym, coins)[..768] == b;
  }

  lemma CiphertextParts(u: PolyVec, v: Poly)
    ensures Ciphertext(u, v)[..640] == VecCompress(u) && Ciphertext(u, v)[640..] == PolyCompressSpec(v)
  {
    hide VecCompress, PolyCompressSpec;
  }

  lemma FromMsgBounded(m: seq<uint8>)
    requires |m| == 32
    ensures Bounded(FromMsgSpec(m), 1665)
  {
  }

  lemma DecompressBounded4(b: seq<uint8>)
    requires |b| == 128
    ensures Bounded(PolyDecompressSpec(b), 3329)
  {
  }

  // ---- The theorem ----

  ghost function KeySecret(sym: Symmetric, coins: seq<uint8>): PolyVec {
    NoiseVec1(sym.prf, NoiseSeed(sym, coins), 0)
  }

  ghost function KeyNoise(sym: Symmetric, coins: seq<uint8>): PolyVec {
    NoiseVec1(sym.prf, NoiseSeed(sym, coins), 2)
  }

  /** The vector that encryption reads from the public key. */
  ghost function ReceivedKey(sym: Symmetric, keyCoins: seq<uint8>): PolyVec
    requires EnoughForMatrix(sym.xof, PublicSeed(sym, keyCoins))
  {
    VecFromBytes(VecToBytes(PublicKeyVec(sym, keyCoins)))
  }

  /** What compressing u changes. */
  ghost function VecError(u: PolyVec): (d: seq<seq<int>>)
    ensures Vec2(d)
  {
    VecMinus(VecDecompress(VecCompress(u)), u)
  }

  ghost function PolyError(v: Poly): (d: seq<int>)
    ensures |d| == 256
  {
    Minus(PolyDecompressSpec(PolyCompressSpec(v)), v)
  }

  /** The noise of one encryption under one key. */
  ghost function DecryptionNoise(sym: Symmetric, keyCoins: seq<uint8>, m: seq<uint8>, coins: seq<uint8>): (n: seq<int>)
    requires EnoughForMatrix(sym.xof, PublicSeed(sym, keyCoins)) && |m| == 32
    ensures |n| == 256
  {
    Noise(KeySecret(sym, keyCoins), KeyNoise(sym, keyCoins), NoiseVec1(sym.prf, coins, 0),
          NoiseVec2(sym.prf, coins, 2), Noise2(sym.prf, coins, 4),
          VecError(EncryptVec(sym, PublicSeed(sym, keyCoins), coins)),
          PolyError(EncryptPoly(sym, ReceivedKey(sym, keyCoins), m, coins)))
  }

  /** gen_at generates the transpose of gen_a. */
  lemma Transposed(xof: Xof, seed: seq<uint8>)
    requires EnoughForMatrix(xof, seed)
    ensures var a0, a1 := MatrixRow(xof, seed, false, 0), MatrixRow(xof, seed, false, 1);
            && MatrixRow(xof, seed, true, 0) == [a0[0], a1[0]]
            && MatrixRow(xof, seed, true, 1) == [a0[1], a1[1]]
  {
    hide Entry;
  }

  lemma TransformCorrect(v: PolyVec, bound: int)
    requires Bounded(v[0], bound) && Bounded(v[1], bound) && bound <= 3329
    ensures CongVec(VecNttSpec(v), VecNttOf(v))
    ensures Bounded(VecNttSpec(v)[0], 1664) && Bounded(VecNttSpec(v)[1], 1664) && Reduced(VecNttSpec(v))
  {
    hide Bounded, PolyNttSpec, NttOf, CongSeq, Reduced;
    TransformReduced(v, bound);
    PolyNttCorrect(v[0], bound);
    PolyNttCorrect(v[1], bound);
  }

  /** A x, or A^T x, in the transform domain. */
  ghost function MatrixProduct(xof: Xof, seed: seq<uint8>, transposed: bool, x: PolyVec): (y: seq<seq<int>>)
    requires EnoughForMatrix(xof, seed)
    ensures Vec2(y)
  {
    MakeVec2(PointDot(MatrixRow(xof, seed, transposed, 0), x), PointDot(MatrixRow(xof, seed, transposed, 1), x))
  }

  ghost function KeyNoiseHat(sym: Symmetric, coins: seq<uint8>): PolyVec {
    VecNttSpec(KeyNoise(sym, coins))
  }

  lemma KeyHatsCorrect(sym: Symmetric, coins: seq<uint8>)
    ensures CongVec(SecretHat(sym, coins), VecNttOf(KeySecret(sym, coins)))
    ensures CongVec(KeyNoiseHat(sym, coins), VecNttOf(KeyNoise(sym, coins)))
    ensures Bounded(KeyNoiseHat(sym, coins)[0], 1664) && Bounded(KeyNoiseHat(sym, coins)[1], 1664)
  {
    hide Bounded, VecNttSpec, VecNttOf, CongSeq, Reduced, NoiseVec1, NoiseSeed;
    NoiseVec1Bounded(sym.prf, NoiseSeed(sym, coins), 0);
    NoiseVec1Bounded(sym.prf, NoiseSeed(sym, coins), 2);
    TransformCorrect(KeySecret(sym, coins), 3);
    TransformCorrect(KeyNoise(sym, coins), 3);
  }

  /** A s + e in the transform domain. */
  ghost function KeyTarget(sym: Symmetric, coins: seq<uint8>): (t: seq<seq<int>>)
    requires EnoughForMatrix(sym.xof, PublicSeed(sym, coins))
    ensures Vec2(t)
  {
    VecPlus(MatrixProduct(sym.xof, PublicSeed(sym, coins), false, SecretHat(sym, coins)), KeyNoiseHat(sym, coins))
  }

  /** The key that encryption reads is A s + e. */
  lemma ReceivedKeyCorrect(sym: Symmetric, coins: seq<uint8>)
    requires EnoughForMatrix(sym.xof, PublicSeed(sym, coins))
    ensures CongVec(ReceivedKey(sym, coins), KeyTarget(sym, coins))
  {
    hide Bounded, VecNttSpec, CongSeq, Reduced, MatrixRow, PointDot, Plus, VecToBytes, VecFromBytes, PublicRow, NoiseVec1;
    hide PublicSeed, NoiseSeed, SecretHat;
    var seed, sHat, eHat := PublicSeed(sym, coins), SecretHat(sym, coins), KeyNoiseHat(sym, coins);
    KeyHatsCorrect(sym, coins);
    PublicRowCorrect(MatrixRow(sym.xof, seed, false, 0), sHat, eHat[0]);
    PublicRowCorrect(MatrixRow(sym.xof, seed, false, 1), sHat, eHat[1]);
    var p := PublicKeyVec(sym, coins);
    BoundedReduced(p);
    VecRoundTrip(p);
    CongVecTrans(ReceivedKey(sym, coins), p, KeyTarget(sym, coins));
  }

  lemma BoundedReduced(p: PolyVec)
    requires Bounded(p[0], 1664) && Bounded(p[1], 1664)
    ensures Reduced(p)
  {
  }

  lemma CongVecTrans(x: seq<seq<int>>, y: seq<seq<int>>, z: seq<seq<int>>)
    requires Vec2(x) && Vec2(y) && Vec2(z) && CongVec(x, y) && CongVec(y, z)
    ensures CongVec(x, z)
  {
    hide CongSeq;
    CongSeqTrans(x[0], y[0], z[0]);
    CongSeqTrans(x[1], y[1], z[1]);
  }

  lemma NoiseVec1Bounded(prf: (seq<uint8>, uint8) -> Stream, seed: seq<uint8>, nonce: uint8)
    requires nonce < 255
    ensures Bounded(NoiseVec1(prf, seed, nonce)[0], 3) && Bounded(NoiseVec1(prf, seed, nonce)[1], 3)
  {
    hide Bounded;
  }

  lemma NoiseVec2Bounded(prf: (seq<uint8>, uint8) -> Stream, seed: seq<uint8>, nonce: uint8)
    requires nonce < 255
    ensures Bounded(NoiseVec2(prf, seed, nonce)[0], 2) && Bounded(NoiseVec2(prf, seed, nonce)[1], 2)
  {
    hide Bounded;
  }

  /** The product A^T r that both ciphertext parts contain. */
  ghost function Common(sym: Symmetric, seed: seq<uint8>, coins: seq<uint8>): (w: seq<seq<int>>)
    requires EnoughForMatrix(sym.xof, seed)
    ensures Vec2(w)
  {
    VecInvNttOf(MatrixProduct(sym.xof, seed, true, EncryptionHat(sym, coins)))
  }

  /** A^T r + e1. */
  ghost function VecTarget(sym: Symmetric, seed: seq<uint8>, coins: seq<uint8>): (t: seq<seq<int>>)
    requires EnoughForMatrix(sym.xof, seed)
    ensures Vec2(t)
  {
    VecPlus(Common(sym, seed, coins), NoiseVec2(sym.prf, coins, 2))
  }

  lemma EncryptVecCorrect(sym: Symmetric, seed: seq<uint8>, coins: seq<uint8>)
    requires EnoughForMatrix(sym.xof, seed)
    ensures CongVec(EncryptVec(sym, seed, coins), VecTarget(sym, seed, coins))
    ensures Bounded(EncryptVec(sym, seed, coins)[0], 1664) && Bounded(EncryptVec(sym, seed, coins)[1], 1664)
  {
    hide Bounded, CongSeq, Reduced, MatrixRow, PointDot, Plus, InvNttOf, CipherVec, NoiseVec2, EncryptionHat;
    NoiseVec2Bounded(sym.prf, coins, 2);
    CipherVecCorrect(MatrixRow(sym.xof, seed, true, 0), MatrixRow(sym.xof, seed, true, 1), EncryptionHat(sym, coins),
                     NoiseVec2(sym.prf, coins, 2));
  }

  /** s . (A^T r) + e . r. */
  ghost function Shared(sym: Symmetric, keyCoins: seq<uint8>, coins: seq<uint8>): (p: seq<int>)
    requires EnoughForMatrix(sym.xof, PublicSeed(sym, keyCoins))
    ensures |p| == 256
  {
    Plus(RqDot(KeySecret(sym, keyCoins), Common(sym, PublicSeed(sym, keyCoins), coins)),
         RqDot(KeyNoise(sym, keyCoins), NoiseVec1(sym.prf, coins, 0)))
  }

  lemma SharedCorrect(sym: Symmetric, keyCoins: seq<uint8>, coins: seq<uint8>)
    requires EnoughForMatrix(sym.xof, PublicSeed(sym, keyCoins))
    ensures CongSeq(InvNttOf(PointDot(ReceivedKey(sym, keyCoins), EncryptionHat(sym, coins))), Shared(sym, keyCoins, coins))
  {
    hide Bounded, CongSeq, Reduced, MatrixRow, PointDot, Plus, InvNttOf, NttOf, NoiseVec1, RqDot;
    hide SecretHat, KeySecret, KeyNoise, ReceivedKey, KeyNoiseHat, VecNttSpec, PublicSeed;
    var s, e, r := KeySecret(sym, keyCoins), KeyNoise(sym, keyCoins), NoiseVec1(sym.prf, coins, 0);
    var seed := PublicSeed(sym, keyCoins);
    var a0, a1 := MatrixRow(sym.xof, seed, false, 0), MatrixRow(sym.xof, seed, false, 1);
    KeyHatsCorrect(sym, keyCoins);
    ReceivedKeyCorrect(sym, keyCoins);
    NoiseVec1Bounded(sym.prf, coins, 0);
    TransformCorrect(r, 3);
    Transposed(sym.xof, seed);
    KeyProduct(a0, a1, ReceivedKey(sym, keyCoins), SecretHat(sym, keyCoins), KeyNoiseHat(sym, keyCoins),
               EncryptionHat(sym, coins), s, e, r);
  }

  /** v = s . (A^T r) + e . r + e2 + k. */
  lemma EncryptPolyCorrect(sym: Symmetric, keyCoins: seq<uint8>, m: seq<uint8>, coins: seq<uint8>)
    requires EnoughForMatrix(sym.xof, PublicSeed(sym, keyCoins)) && |m| == 32
    ensures var v := EncryptPoly(sym, ReceivedKey(sym, keyCoins), m, coins);
            && Bounded(v, 1664)
            && CongSeq(v, Plus(Plus(Shared(sym, keyCoins, coins), Noise2(sym.prf, coins, 4)), FromMsgSpec(m)))
  {
    hide Bounded, CongSeq, Reduced, PointDot, Plus, InvNttOf, CipherPoly, Noise2, FromMsgSpec, ReceivedKey, Shared, PublicSeed;
    hide EncryptionHat;
    var rHat, t := EncryptionHat(sym, coins), ReceivedKey(sym, keyCoins);
    var p, p' := InvNttOf(PointDot(t, rHat)), Shared(sym, keyCoins, coins);
    var e2, k := Noise2(sym.prf, coins, 4), FromMsgSpec(m);
    SharedCorrect(sym, keyCoins, coins);
    FromMsgBounded(m);
    Noise2Bounded(sym.prf, coins, 4);
    CipherPolyCorrect(t, rHat, e2, k);
    CongSeqRefl(e2);
    CongSeqRefl(k);
    PlusCong(p, p', e2, e2);
    PlusCong(Plus(p, e2), Plus(p', e2), k, k);
    CongSeqTrans(EncryptPoly(sym, t, m, coins), Plus(Plus(p, e2), k), Plus(Plus(p', e2), k));
  }

  lemma Noise2Bounded(prf: (seq<uint8>, uint8) -> Stream, seed: seq<uint8>, nonce: uint8)
    ensures Bounded(Noise2(prf, seed, nonce), 2)
  {
    hide Bounded;
  }

  lemma SecretKeyCorrect(sym: Symmetric, coins: seq<uint8>)
    ensures CongVec(VecFromBytes(SecretKey(sym, coins)), VecNttOf(KeySecret(sym, coins)))
  {
    hide Bounded, CongSeq, Reduced, SecretHat, VecFromBytes, VecToBytes, VecNttOf, KeySecret, KeyNoise, KeyNoiseHat, CongVec;
    VecRoundTrip(SecretHat(sym, coins));
    KeyHatsCorrect(sym, coins);
    CongVecTrans(VecFromBytes(SecretKey(sym, coins)), SecretHat(sym, coins), VecNttOf(KeySecret(sym, coins)));
  }

  lemma VecDecompressBounded(b: seq<uint8>)
    requires |b| == 640
    ensures Bounded(VecDecompress(b)[0], 3329) && Bounded(VecDecompress(b)[1], 3329)
  {
    hide PolyDecompress10Spec, Bounded;
    DecompressBounded(b[..320]);
    DecompressBounded(b[320..]);
  }

  /** v' - s . u' is the message plus noise when v contains s . w, and u is w + e1. */
  lemma DecryptNoise(mp: seq<int>, s: seq<seq<int>>, u: seq<seq<int>>, u': seq<seq<int>>, w: seq<seq<int>>, e1: seq<seq<int>>,
                     v: seq<int>, v': seq<int>, er: seq<int>, e2: seq<int>, k: seq<int>)
    requires Vec2(s) && Vec2(u) && Vec2(u') && Vec2(w) && Vec2(e1)
    requires |v| == |v'| == |er| == |e2| == |k| == 256
    requires CongVec(u, VecPlus(w, e1)) && CongSeq(v, Plus(Plus(Plus(RqDot(s, w), er), e2), k))
    requires CongSeq(mp, Minus(v', RqDot(s, u')))
    ensures CongSeq(mp, Plus(k, Minus(Plus(Plus(er, e2), Minus(v', v)), RqDot(s, VecPlus(e1, VecMinus(u', u))))))
  {
    hide CongSeq, Plus, Minus, RqDot, VecPlus, VecMinus;
    var x, y := RqDot(s, w), RqDot(s, VecPlus(e1, VecMinus(u', u)));
    SecretProduct(s, u, w, e1, u');
    CongSeqRefl(v');
    PlusCong(v', v', RqDot(s, u'), Plus(x, y));
    CongSeqTrans(mp, Minus(v', RqDot(s, u')), Minus(v', Plus(x, y)));
    NoiseRemains(x, er, e2, k, v, v', y);
    CongSeqTrans(mp, Minus(v', Plus(x, y)), Plus(k, Minus(Plus(Plus(er, e2), Minus(v', v)), y)));
  }

  /** The polynomial that decryption recovers from the two uncompressed ciphertext parts. */
  ghost function Recovered(sym: Symmetric, keyCoins: seq<uint8>, m: seq<uint8>, coins: seq<uint8>): Poly
    requires EnoughForMatrix(sym.xof, PublicSeed(sym, keyCoins)) && |m| == 32
  {
    DecryptedPoly(Ciphertext(EncryptVec(sym, PublicSeed(sym, keyCoins), coins), EncryptPoly(sym, ReceivedKey(sym, keyCoins), m, coins)),
                  SecretKey(sym, keyCoins))
  }

  lemma RecoveredIs(sym: Symmetric, keyCoins: seq<uint8>, m: seq<uint8>, coins: seq<uint8>)
    requires EnoughForMatrix(sym.xof, PublicSeed(sym, keyCoins)) && |m| == 32
    ensures EnoughForMatrix(sym.xof, SeedOf(PublicKey(sym, keyCoins)))
    ensures DecryptedPoly(Encrypt(sym, PublicKey(sym, keyCoins), m, coins), SecretKey(sym, keyCoins))
         == Recovered(sym, keyCoins, m, coins)
  {
    hide EncryptVec, EncryptPoly, Ciphertext, SecretKey, PublicKey, PublicSeed, DecryptedPoly, EnoughForMatrix, VecOf, SeedOf;
    PublicKeyParts(sym, keyCoins);
  }

  lemma RecoveredCorrect(sym: Symmetric, keyCoins: seq<uint8>, m: seq<uint8>, coins: seq<uint8>)
    requires EnoughForMatrix(sym.xof, PublicSeed(sym, keyCoins)) && |m| == 32
    ensures Bounded(Recovered(sym, keyCoins, m, coins), 1664)
    ensures CongSeq(Recovered(sym, keyCoins, m, coins), Plus(FromMsgSpec(m), DecryptionNoise(sym, keyCoins, m, coins)))
  {
    hide Bounded, CongSeq, Reduced, Plus, Minus, RqDot, VecPlus, VecMinus, EncryptVec, EncryptPoly, Ciphertext, SecretKey;
    hide PublicSeed, ReceivedKey, KeySecret, KeyNoise, NoiseVec1, NoiseVec2, Noise2, FromMsgSpec, Common, VecNttOf;
    hide VecCompress, VecDecompress, PolyCompressSpec, PolyDecompressSpec, VecFromBytes, DecryptPoly, VecNttSpec, EnoughForMatrix;
    var s, seed := KeySecret(sym, keyCoins), PublicSeed(sym, keyCoins);
    var u, v := EncryptVec(sym, seed, coins), EncryptPoly(sym, ReceivedKey(sym, keyCoins), m, coins);
    var u', v' := VecDecompress(VecCompress(u)), PolyDecompressSpec(PolyCompressSpec(v));
    CiphertextParts(u, v);
    EncryptVecCorrect(sym, seed, coins);
    EncryptPolyCorrect(sym, keyCoins, m, coins);
    SecretKeyCorrect(sym, keyCoins);
    VecDecompressBounded(VecCompress(u));
    DecompressBounded4(PolyCompressSpec(v));
    DecompressedReduced(VecCompress(u));
    var sk := VecFromBytes(SecretKey(sym, keyCoins));
    DecryptPolyCorrect(u', v', sk, s);
    DecryptNoise(DecryptPoly(u', v', sk), s, u, u', Common(sym, seed, coins), NoiseVec2(sym.prf, coins, 2), v, v',
                 RqDot(KeyNoise(sym, keyCoins), NoiseVec1(sym.prf, coins, 0)), Noise2(sym.prf, coins, 4), FromMsgSpec(m));
  }

  /** The polynomial given to poly_tomsg is 1665 m plus the noise, modulo q. */
  lemma DecryptedPolyTheorem(sym: Symmetric, keyCoins: seq<uint8>, m: seq<uint8>, coins: seq<uint8>)
    requires EnoughForMatrix(sym.xof, PublicSeed(sym, keyCoins)) && |m| == 32
    ensures EnoughForMatrix(sym.xof, SeedOf(PublicKey(sym, keyCoins)))
    ensures var mp := DecryptedPoly(Encrypt(sym, PublicKey(sym, keyCoins), m, coins), SecretKey(sym, keyCoins));
            Bounded(mp, 1664) && CongSeq(mp, Plus(FromMsgSpec(m), DecryptionNoise(sym, keyCoins, m, coins)))
  {
    hide *;
    RecoveredIs(sym, keyCoins, m, coins);
    RecoveredCorrect(sym, keyCoins, m, coins);
  }

  // ---- When decryption returns the message ----

  /** The representative of x modulo q in [-1664, 1664]. */
  function Centred(x: int): (r: int)
    ensures -1664 <= r <= 1664 && Cong(r, x)
  {
    (x + 1664) % Q - 1664
  }

  function MessageBit(m: seq<uint8>, p: nat): nat
    requires |m| == 32 && p < 256
  {
    m[p / 8] / Pow2(p % 8) % 2
  }

  /** The noise that a message bit survives. */
  predicate Tolerated(bit: nat, noise: int) {
    -832 <= noise <= if bit == 1 then 831 else 832
  }

  lemma BitDecision(c: int16, bit: nat, noise: int)
    requires -1664 <= c <= 1664 && bit < 2 && Cong(c, BitCoefficient(bit) as int + noise)
    ensures MsgBit(c) == bit <==> Tolerated(bit, Centred(noise))
  {
    hide MsgBit;
    MsgBitRounds(c);
    var w := Centred(noise);
    CongCentred(c, BitCoefficient(bit) as int + noise, BitCoefficient(bit) as int + w, noise, w);
    var d := (c as int - BitCoefficient(bit) as int - w) / Q;
    assert c as int == BitCoefficient(bit) as int + w + Q * d;
  }

  lemma CongCentred(c: int, x: int, y: int, noise: int, w: int)
    requires Cong(c, x) && Cong(w, noise) && x - noise == y - w
    ensures Cong(c, y)
  {
    hide Cong;
    var k := CongTo(c, x);
    var m := CongTo(w, noise);
    CongFrom(c, y, k - m);
  }

  /** Decrypting an encryption of m, under keys and with coins of any seeds. */
  ghost function DecryptEncrypt(sym: Symmetric, keyCoins: seq<uint8>, m: seq<uint8>, coins: seq<uint8>): seq<uint8>
    requires EnoughForMatrix(sym.xof, PublicSeed(sym, keyCoins)) && |m| == 32
  {
    PublicKeyParts(sym, keyCoins);
    Decrypt(Encrypt(sym, PublicKey(sym, keyCoins), m, coins), SecretKey(sym, keyCoins))
  }

  /** indcpa_dec returns the encrypted message exactly when the noise at every coefficient is tolerated by its bit. */
  lemma DecryptionTheorem(sym: Symmetric, keyCoins: seq<uint8>, m: seq<uint8>, coins: seq<uint8>)
    requires EnoughForMatrix(sym.xof, PublicSeed(sym, keyCoins)) && |m| == 32
    ensures DecryptEncrypt(sym, keyCoins, m, coins) == m
       <==> forall p :: 0 <= p < 256 ==> Tolerated(MessageBit(m, p), Centred(DecryptionNoise(sym, keyCoins, m, coins)[p]))
  {
    hide Decrypt, Encrypt, PublicKey, SecretKey, DecryptionNoise, Centred, MessageBit, SeedOf, PublicSeed, EnoughForMatrix,
         Tolerated, ToMsgSpec, DecryptedPoly, Bounded, CongSeq, Plus, FromMsgSpec;
    DecryptedPolyTheorem(sym, keyCoins, m, coins);
    DecisionsDecide(DecryptedPoly(Encrypt(sym, PublicKey(sym, keyCoins), m, coins), SecretKey(sym, keyCoins)), m,
                    DecryptionNoise(sym, keyCoins, m, coins));
    DecryptIs(Encrypt(sym, PublicKey(sym, keyCoins), m, coins), SecretKey(sym, keyCoins));
  }

  lemma DecryptIs(c: seq<uint8>, sk: seq<uint8>)
    requires |c| == 768 && |sk| == 768
    ensures Decrypt(c, sk) == ToMsgSpec(DecryptedPoly(c, sk))
  {
    hide ToMsgSpec, DecryptedPoly;
  }

  lemma DecisionsDecide(mp: Poly, m: seq<uint8>, noise: seq<int>)
    requires |m| == 32 && |noise| == 256 && Bounded(mp, 1664) && CongSeq(mp, Plus(FromMsgSpec(m), noise))
    ensures ToMsgSpec(mp) == m <==> forall p :: 0 <= p < 256 ==> Tolerated(MessageBit(m, p), Centred(noise[p]))
  {
    hide MsgBit, MsgByte, Tolerated, Centred, Pow2, BitCoefficient, Cong, ToMsgSpec;
    forall p | 0 <= p < 256 ensures MsgBit(mp[p]) == MessageBit(m, p) <==> Tolerated(MessageBit(m, p), Centred(noise[p])) {
      assert Cong(mp[p], Plus(FromMsgSpec(m), noise)[p]);
      BitDecision(mp[p], MessageBit(m, p), noise[p]);
    }
    if forall p :: 0 <= p < 256 ==> MsgBit(mp[p]) == MessageBit(m, p) {
      ToMsgFromBits(mp, m);
    }
    if ToMsgSpec(mp) == m {
      forall p | 0 <= p < 256 ensures MsgBit(mp[p]) == MessageBit(m, p) { DecodedBit(mp, p); }
    }
  }

  lemma DecodedBit(mp: Poly, p: nat)
    requires p < 256
    ensures MessageBit(ToMsgSpec(mp), p) == MsgBit(mp[p])
  {
    hide MsgBit, MsgByte, Pow2;
    MsgByteBit(mp, p / 8, 8, p % 8);
  }

  /** The three operations one after the other, on the Keccak state: the message comes back exactly when the noise is tolerated. */
  method RoundTrip(keyCoins: seq<uint8>, m: seq<uint8>, coins: seq<uint8>) returns (d: array<uint8>)
    requires |keyCoins| == |m| == |coins| == 32
    requires EnoughForMatrix(ShakeXof, PublicSeed(ShakeSymmetric(), keyCoins))
    ensures d[..] == m
       <==> forall p :: 0 <= p < 256 ==>
              Tolerated(MessageBit(m, p), Centred(DecryptionNoise(ShakeSymmetric(), keyCoins, m, coins)[p]))
  {
    hide *;
    var pk, sk, c := new uint8[800], new uint8[768], new uint8[768];
    KeyPair(pk, sk, keyCoins);
    ShakeMessage(keyCoins, m, coins);
    Enc(c, m, pk, coins);
    d := Dec(c, sk);
    DecryptionTheorem(ShakeSymmetric(), keyCoins, m, coins);
  }

  lemma ShakeMessage(keyCoins: seq<uint8>, m: seq<uint8>, coins: seq<uint8>)
    requires EnoughForMatrix(ShakeXof, PublicSeed(ShakeSymmetric(), keyCoins)) && |m| == 32
    ensures ShakeSymmetric().xof == ShakeXof
    ensures EnoughForMatrix(ShakeXof, SeedOf(PublicKey(ShakeSymmetric(), keyCoins)))
    ensures DecryptEncrypt(ShakeSymmetric(), keyCoins, m, coins)
         == Decrypt(Encrypt(ShakeSymmetric(), PublicKey(ShakeSymmetric(), keyCoins), m, coins), SecretKey(ShakeSymmetric(), keyCoins))
  {
    hide PublicKey, SecretKey, SeedOf, PublicSeed, EnoughForMatrix, Encrypt, Decrypt;
    PublicKeyParts(ShakeSymmetric(), keyCoins);
  }

  /** Decryption succeeds whenever the centred noise stays in [-832, 831]. */
  lemma DecryptionSucceeds(sym: Symmetric, keyCoins: seq<uint8>, m: seq<uint8>, coins: seq<uint8>)
    requires EnoughForMatrix(sym.xof, PublicSeed(sym, keyCoins)) && |m| == 32
    requires forall p :: 0 <= p < 256 ==> -832 <= Centred(DecryptionNoise(sym, keyCoins, m, coins)[p]) <= 831
    ensures DecryptEncrypt(sym, keyCoins, m, coins) == m
  {
    hide DecryptEncrypt, DecryptionNoise, Centred, MessageBit, PublicSeed, EnoughForMatrix;
    DecryptionTheorem(sym, keyCoins, m, coins);
  }

  /** The part of the noise due to compression is small: at most 2 in u and 104 in v, modulo q. */
  lemma CompressionErrors(u: PolyVec, v: Poly)
    requires Bounded(u[0], 3328) && Bounded(u[1], 3328) && Bounded(v, 3328)
    ensures forall i, p :: 0 <= i < 2 && 0 <= p < 256 ==> CentredAbs(VecError(u)[i][p]) <= 2
    ensures forall p :: 0 <= p < 256 ==> CentredAbs(PolyError(v)[p]) <= 104
  {
    hide PolyCompress10Spec, PolyDecompress10Spec, PolyCompressSpec, PolyDecompressSpec, Compress4, Decompress4, Compress10,
         Decompress10, CentredAbs;
    var b := VecCompress(u);
    assert b[..320] == PolyCompress10Spec(u[0]) && b[320..] == PolyCompress10Spec(u[1]);
    forall i, p | 0 <= i < 2 && 0 <= p < 256 ensures CentredAbs(VecError(u)[i][p]) <= 2 {
      DecompressCompress10(u[i], p);
      Compress10Error(u[i][p]);
    }
    DecompressCompress4(v);
    forall p | 0 <= p < 256 ensures CentredAbs(PolyError(v)[p]) <= 104 {
      Compress4Error(v[p]);
    }
  }
}
