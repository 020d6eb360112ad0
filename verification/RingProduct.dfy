/** The polynomial routines as arithmetic in Z_q[X]/(X^256 + 1): transform, multiply pointwise, transform back. */
module RingProduct {
  import opened Words
  import opened ModQ
  import opened Reduce
  import opened Ring
  import opened Transform
  import opened Ntt
  import opened InvNtt
  import opened Basemul
  import opened Poly
  import opened RqAlgebra

  /** The product in Z_q[X]/(X^256 + 1): the schoolbook convolution with X^256 = -1. */
  ghost function RqMul(f: seq<int>, g: seq<int>): (h: seq<int>)
    requires |f| == |g| == 256
    ensures |h| == 256
  {
    MulMod(f, g, -1)
  }

  /** Scalar products of vectors of two, in Z_q[X]/(X^256 + 1) and in the transform domain. */
  ghost function RqDot(a: seq<seq<int>>, b: seq<seq<int>>): (h: seq<int>)
    requires |a| == |b| == 2 && |a[0]| == |a[1]| == |b[0]| == |b[1]| == 256
    ensures |h| == 256
  {
    Plus(RqMul(a[0], b[0]), RqMul(a[1], b[1]))
  }

  ghost function PointDot(a: seq<seq<int>>, b: seq<seq<int>>): (h: seq<int>)
    requires |a| == |b| == 2 && |a[0]| == |a[1]| == |b[0]| == |b[1]| == 256
    ensures |h| == 256
  {
    Plus(PointMul(a[0], b[0]), PointMul(a[1], b[1]))
  }

  lemma ReduceCorrect(a: Poly)
    ensures Bounded(ReduceSpec(a), 1664) && CongSeq(ReduceSpec(a), a)
  {
    hide BarrettReduce, Cong;
    forall i | 0 <= i < 256 ensures -1664 <= ReduceSpec(a)[i] <= 1664 && Cong(ReduceSpec(a)[i], a[i]) {
      BarrettReduceCorrect(a[i]);
    }
  }

  /** Additions that stay within 16 bits are exact. */
  lemma AddCorrect(a: Poly, b: Poly, m: int, n: int)
    requires Bounded(a, m) && Bounded(b, n) && m + n <= 0x7FFF
    ensures AddSpec(a, b) == Plus(a, b) && Bounded(AddSpec(a, b), m + n)
    ensures SubSpec(a, b) == Minus(a, b) && Bounded(SubSpec(a, b), m + n)
  {
    hide ToInt16;
  }

  lemma PolyNttCorrect(f: Poly, bound: int)
    requires Bounded(f, bound) && bound <= 0x7FFF - 7 * 3328
    ensures Bounded(PolyNttSpec(f), 1664) && CongSeq(PolyNttSpec(f), NttOf(f))
  {
    hide Bounded, CongSeq, NttSpec, NttOf, ReduceSpec;
    NttCorrect(f, bound);
    ReduceCorrect(NttSpec(f));
    CongSeqTrans(PolyNttSpec(f), NttSpec(f), NttOf(f));
  }

  lemma CancelR(a: int, x: int)
    requires Cong(a, MONT_R * (MONT_R_INV * x))
    ensures Cong(a, x)
  {
    CongUnit(MONT_R * MONT_R_INV, x);
    hide Cong;
    assert MONT_R * (MONT_R_INV * x) == (MONT_R * MONT_R_INV) * x;
    CongTrans(a, (MONT_R * MONT_R_INV) * x, x);
  }

  /** The R of the inverse transform cancels the R^-1 of a product. */
  lemma InvNttOfProduct(g: Poly, h: seq<int>)
    requires Bounded(g, 0x3FFF) && |h| == 256 && CongSeq(g, Scale(MONT_R_INV, h))
    ensures Bounded(PolyInvNttSpec(g), 3328) && CongSeq(PolyInvNttSpec(g), InvNttOf(h))
  {
    hide Bounded, CongSeq, InvNttSpec, InvNttOf, Scale;
    var u := InvNttOf(h);
    InvNttCorrect(g);
    InvNttOfCong(g, Scale(MONT_R_INV, h));
    InvNttOfScale(MONT_R_INV, h);
    ScaleCong(MONT_R, InvNttOf(g), Scale(MONT_R_INV, u));
    CongSeqTrans(InvNttSpec(g), Scale(MONT_R, InvNttOf(g)), Scale(MONT_R, Scale(MONT_R_INV, u)));
    CancelRSeq(InvNttSpec(g), u);
  }

  /** `invntt` after `ntt`, with the reduction between them, multiplies by R = 2^16 modulo q. */
  lemma InvNttAfterNtt(f: Poly)
    requires Bounded(f, 3328)
    ensures Bounded(PolyInvNttSpec(PolyNttSpec(f)), 3328)
    ensures CongSeq(PolyInvNttSpec(PolyNttSpec(f)), Scale(MONT_R, f))
  {
    hide Bounded, CongSeq, NttOf, PolyNttSpec, InvNttSpec, InvNttOf, Scale;
    var g := PolyNttSpec(f);
    PolyNttCorrect(f, 3328);
    BoundedWeaken(g, 1664, 0x3FFF);
    InvNttCorrect(g);
    InvNttOfCong(g, NttOf(f));
    InverseLeft(f);
    CongSeqTrans(InvNttOf(g), InvNttOf(NttOf(f)), f);
    ScaleCong(MONT_R, InvNttOf(g), f);
    CongSeqTrans(InvNttSpec(g), Scale(MONT_R, InvNttOf(g)), Scale(MONT_R, f));
  }

  lemma CancelRSeq(a: seq<int>, x: seq<int>)
    requires CongSeq(a, Scale(MONT_R, Scale(MONT_R_INV, x)))
    ensures CongSeq(a, x)
  {
    hide Cong;
    forall i | 0 <= i < |a| ensures Cong(a[i], x[i]) {
      assert Cong(a[i], Scale(MONT_R, Scale(MONT_R_INV, x))[i]);
      CancelR(a[i], x[i]);
    }
  }

  /** poly_tomont removes the factor R^-1 of a product. */
  lemma TomontCorrect(g: Poly, h: seq<int>)
    requires |h| == 256 && CongSeq(g, Scale(MONT_R_INV, h))
    ensures Bounded(TomontSpec(g), 3328) && CongSeq(TomontSpec(g), h)
  {
    hide Cong, FqmulTwiddle;
    forall i | 0 <= i < 256 ensures -3328 <= TomontSpec(g)[i] <= 3328 && Cong(TomontSpec(g)[i], h[i]) {
      assert Cong(g[i], Scale(MONT_R_INV, h)[i]);
      TomontCoefficient(g[i], h[i]);
    }
  }

  lemma TomontCoefficient(a: int16, x: int)
    requires Cong(a, MONT_R_INV * x)
    ensures -Q < FqmulTwiddle(MONT_R2, a) < Q && Cong(FqmulTwiddle(MONT_R2, a), x)
  {
    hide Cong, FqmulTwiddle, MontgomeryReduce;
    var c := MONT_R2 * MONT_R_INV;
    FqmulTwiddleIs(MONT_R2, a);
    MontgomeryReduceCorrect(MONT_R2 * a);
    CongScale(c, a, MONT_R_INV * x);
    TomontFactor();
    CongUnit(c * MONT_R_INV, x);
    assert MONT_R2 * a * MONT_R_INV == c * a;
    assert c * (MONT_R_INV * x) == c * MONT_R_INV * x;
    CongTrans(FqmulTwiddle(MONT_R2, a), c * a, c * MONT_R_INV * x);
    CongTrans(FqmulTwiddle(MONT_R2, a), c * MONT_R_INV * x, x);
  }

  lemma TomontFactor()
    ensures Cong(MONT_R2 * MONT_R_INV * MONT_R_INV, 1)
  {
  }

  lemma AccCorrect(a: PolyVec, b: PolyVec)
    requires Reduced(b)
    ensures Bounded(AccSpec(a, b), 1664) && CongSeq(AccSpec(a, b), Scale(MONT_R_INV, PointDot(a, b)))
  {
    hide Bounded, CongSeq, BasemulSpec, ReduceSpec, AddSpec, PointMul, Scale, Plus;
    var x, y := BasemulSpec(a[0], b[0]), BasemulSpec(a[1], b[1]);
    var u, v := PointMul(a[0], b[0]), PointMul(a[1], b[1]);
    BasemulCorrect(a[0], b[0]);
    BasemulCorrect(a[1], b[1]);
    AddCorrect(x, y, 6656, 6656);
    ReduceCorrect(AddSpec(x, y));
    PlusCong(x, Scale(MONT_R_INV, u), y, Scale(MONT_R_INV, v));
    ScalePlus(MONT_R_INV, u, v);
    CongSeqTrans(AccSpec(a, b), AddSpec(x, y), Scale(MONT_R_INV, Plus(u, v)));
  }

  /** The pointwise product of transforms is the transform of the product; so its inverse transform is the product. */
  lemma PointMulOfTransforms(x: seq<int>, y: seq<int>, f: seq<int>, g: seq<int>)
    requires |f| == |g| == 256 && CongSeq(x, NttOf(f)) && CongSeq(y, NttOf(g))
    ensures CongSeq(InvNttOf(PointMul(x, y)), RqMul(f, g))
  {
    hide CongSeq, NttOf, InvNttOf, PointMul, MulMod;
    var p, h := PointMul(NttOf(f), NttOf(g)), MulMod(f, g, -1);
    CongSeqLength(x, NttOf(f));
    CongSeqLength(y, NttOf(g));
    PointMulCong(x, NttOf(f), y, NttOf(g));
    NttMul(f, g);
    CongSeqSym(NttOf(h), p);
    CongSeqTrans(PointMul(x, y), p, NttOf(h));
    InvNttOfCong(PointMul(x, y), NttOf(h));
    InverseLeft(h);
    CongSeqTrans(InvNttOf(PointMul(x, y)), InvNttOf(NttOf(h)), h);
  }

  lemma CongSeqLength(x: seq<int>, y: seq<int>)
    requires CongSeq(x, y)
    ensures |x| == |y|
  {
  }

  lemma PointDotOfTransforms(x: seq<seq<int>>, y: seq<seq<int>>, f: seq<seq<int>>, g: seq<seq<int>>)
    requires |x| == |y| == 2 && |x[0]| == |x[1]| == |y[0]| == |y[1]| == 256
    requires |f| == |g| == 2 && |f[0]| == |f[1]| == |g[0]| == |g[1]| == 256
    requires CongSeq(x[0], NttOf(f[0])) && CongSeq(x[1], NttOf(f[1]))
    requires CongSeq(y[0], NttOf(g[0])) && CongSeq(y[1], NttOf(g[1]))
    ensures CongSeq(InvNttOf(PointDot(x, y)), RqDot(f, g))
  {
    hide CongSeq, NttOf, InvNttOf, PointMul, RqMul, Plus;
    PointMulOfTransforms(x[0], y[0], f[0], g[0]);
    PointMulOfTransforms(x[1], y[1], f[1], g[1]);
    InvNttOfPlus(PointMul(x[0], y[0]), PointMul(x[1], y[1]));
    PlusCong(InvNttOf(PointMul(x[0], y[0])), RqMul(f[0], g[0]), InvNttOf(PointMul(x[1], y[1])), RqMul(f[1], g[1]));
  }

  /**
   Transforming two polynomials with coefficients below q, multiplying with basemul, reducing and transforming back
   gives their product modulo X^256 + 1 and q: the Montgomery factors R^-1 and R cancel.
   */
  lemma ProductTheorem(a: Poly, b: Poly)
    requires Bounded(a, 3328) && Bounded(b, 3328)
    ensures Bounded(PolyNttSpec(b), 3328)
    ensures CongSeq(PolyInvNttSpec(ReduceSpec(BasemulSpec(PolyNttSpec(a), PolyNttSpec(b)))), RqMul(a, b))
  {
    hide Bounded, CongSeq, NttOf, PolyNttSpec, PolyInvNttSpec, ReduceSpec, BasemulSpec, PointMul, Scale, InvNttOf, RqMul;
    var x, y := PolyNttSpec(a), PolyNttSpec(b);
    PolyNttCorrect(a, 3328);
    PolyNttCorrect(b, 3328);
    BoundedWeaken(y, 1664, 3328);
    var p := BasemulSpec(x, y);
    var g := ReduceSpec(p);
    BasemulCorrect(x, y);
    ReduceCorrect(p);
    BoundedWeaken(g, 1664, 0x3FFF);
    CongSeqTrans(g, p, Scale(MONT_R_INV, PointMul(x, y)));
    InvNttOfProduct(g, PointMul(x, y));
    PointMulOfTransforms(x, y, a, b);
    CongSeqTrans(PolyInvNttSpec(g), InvNttOf(PointMul(x, y)), RqMul(a, b));
  }

  /** The vector form, with the accumulating product of polyvec.c. */
  lemma ScalarProductTheorem(a: PolyVec, b: PolyVec)
    requires Reduced(a) && Reduced(b)
    ensures Reduced(VecNttSpec(b))
    ensures CongSeq(PolyInvNttSpec(AccSpec(VecNttSpec(a), VecNttSpec(b))), RqDot(a, b))
  {
    hide Bounded, CongSeq, NttOf, PolyNttSpec, PolyInvNttSpec, AccSpec, PointDot, Scale, InvNttOf, RqDot;
    var x, y := VecNttSpec(a), VecNttSpec(b);
    PolyNttCorrect(a[0], 3328);
    PolyNttCorrect(a[1], 3328);
    PolyNttCorrect(b[0], 3328);
    PolyNttCorrect(b[1], 3328);
    BoundedWeaken(y[0], 1664, 3328);
    BoundedWeaken(y[1], 1664, 3328);
    AccCorrect(x, y);
    BoundedWeaken(AccSpec(x, y), 1664, 0x3FFF);
    InvNttOfProduct(AccSpec(x, y), PointDot(x, y));
    PointDotOfTransforms(x, y, a, b);
    CongSeqTrans(PolyInvNttSpec(AccSpec(x, y)), InvNttOf(PointDot(x, y)), RqDot(a, b));
  }
}
