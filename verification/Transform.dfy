/**
 The number-theoretic transform as mathematics: residues of a polynomial modulo X^256 + 1 along a binary tree
 of moduli X^n - Modulus(k), from the root X^256 + 1 (node 1) down to 128 quadratics (nodes 128 to 255).
 */
module Transform {
  import opened Arithmetic
  import opened ModQ
  import opened Ring
  import opened Zetas

  /** Degree of the modulus at node k. */
  function NodeLen(k: nat): nat
    requires 1 <= k < 256
  {
    if k < 2 then 256 else if k < 4 then 128 else if k < 8 then 64 else if k < 16 then 32
    else if k < 32 then 16 else if k < 64 then 8 else if k < 128 then 4 else 2
  }

  lemma NodeChildren(k: nat)
    requires 1 <= k < 128
    ensures NodeLen(2 * k) == NodeLen(2 * k + 1) && 2 * NodeLen(2 * k) == NodeLen(k) && NodeLen(2 * k) % 2 == 0
    ensures LayerStart(2 * k) == LayerStart(2 * k + 1) == 2 * LayerStart(k)
  {
  }

  lemma NodeLeaf(k: nat)
    requires 128 <= k < 256
    ensures NodeLen(k) == 2
  {
  }

  /** The polynomial at node k: fold the parent's polynomial by X^n = Modulus(k). */
  ghost function Residue(f: seq<int>, k: nat): (r: seq<int>)
    requires |f| == 256 && 1 <= k < 256
    ensures |r| == NodeLen(k)
  {
    if k == 1 then f else Fold(Residue(f, k / 2), Modulus(k))
  }

  /** All leaf residues in tree order, two coefficients each. */
  ghost function NttOf(f: seq<int>): (r: seq<int>)
    requires |f| == 256
    ensures |r| == 256
  {
    seq(256, p requires 0 <= p < 256 => Residue(f, 128 + p / 2)[p % 2])
  }

  /** Product of residues, leaf by leaf: each pair is multiplied modulo X^2 - Modulus(leaf). */
  ghost function PointMul(x: seq<int>, y: seq<int>): (r: seq<int>)
    requires |x| == |y| == 256
    ensures |r| == 256
  {
    seq(256, p requires 0 <= p < 256 =>
      if p % 2 == 0 then x[p] * y[p] + Modulus(128 + p / 2) * (x[p + 1] * y[p + 1])
      else x[p - 1] * y[p] + x[p] * y[p - 1])
  }

  ghost function Scale(c: int, f: seq<int>): (r: seq<int>)
    ensures |r| == |f|
  {
    seq(|f|, i requires 0 <= i < |f| => c * f[i])
  }

  /** Undoes two folds up to a factor of two, given w = -1 / z. */
  ghost function Unfold(x: seq<int>, y: seq<int>, w: int): (r: seq<int>)
    requires |x| == |y|
    ensures |r| == 2 * |x|
  {
    seq(2 * |x|, j requires 0 <= j < 2 * |x| => if j < |x| then x[j] + y[j] else w * (y[j - |x|] - x[j - |x|]))
  }

  /** From the leaves below node k back up to node k. */
  ghost function Gather(g: seq<int>, k: nat): (r: seq<int>)
    requires |g| == 256 && 1 <= k < 256
    ensures |r| == NodeLen(k)
    decreases 256 - k, |g|
  {
    if k >= 128 then g[2 * (k - 128)..2 * (k - 128) + 2]
    else
      NodeChildren(k);
      Unfold(Gather(g, 2 * k), Gather(g, 2 * k + 1), ZetaVal(Mirror(k)))
  }

  /** 3303 is the inverse of 128 modulo q. */
  ghost function InvNttOf(g: seq<int>): (r: seq<int>)
    requires |g| == 256
    ensures |r| == 256
  {
    Scale(3303, Gather(g, 1))
  }

  // ---- What a residue is ----

  lemma NegativeSquare(z: int)
    ensures (-z) * (-z) == z * z
  {
  }

  lemma ModulusSquare(k: nat)
    requires 2 <= k < 256
    ensures Cong(Modulus(k) * Modulus(k), Modulus(k / 2))
  {
    ZetaSquare(k / 2);
    hide ZetaVal, Cong;
    var z := ZetaVal(k / 2);
    NegativeSquare(z);
  }

  lemma RemainderStep(f: seq<int>, j: nat, n: nat, z: int, c: int, a: int, b: int)
    requires n > 0 && Cong(z * z, c)
    requires Cong(a, Remainder(f, j, 2 * n, c)) && Cong(b, Remainder(f, j + n, 2 * n, c))
    ensures Cong(a + z * b, Remainder(f, j, n, z))
  {
    hide Cong;
    var d := z * z;
    CongSym(d, c);
    RemainderFold(f, j, n, z);
    RemainderCong(f, j, 2 * n, c, d);
    RemainderCong(f, j + n, 2 * n, c, d);
    CongTrans(a, Remainder(f, j, 2 * n, c), Remainder(f, j, 2 * n, d));
    CongTrans(b, Remainder(f, j + n, 2 * n, c), Remainder(f, j + n, 2 * n, d));
    CongScale(z, b, Remainder(f, j + n, 2 * n, d));
    CongAdd(a, Remainder(f, j, 2 * n, d), z * b, z * Remainder(f, j + n, 2 * n, d));
  }

  /** Repeated folding computes the remainder of f modulo X^n - Modulus(k), for every node. */
  lemma {:induction false} ResidueIsRemainder(f: seq<int>, k: nat, j: nat)
    requires |f| == 256 && 1 <= k < 256 && j < NodeLen(k)
    ensures Cong(Residue(f, k)[j], Remainder(f, j, NodeLen(k), Modulus(k)))
  {
    hide Cong, Modulus;
    if k == 1 {
      ModulusRoot();
      assert Remainder(f, j, 256, -1) == f[j] + -1 * Remainder(f, j + 256, 256, -1);
      CongRefl(f[j]);
    } else {
      var n, p := NodeLen(k), k / 2;
      assert NodeLen(p) == 2 * n;
      hide NodeLen, Remainder;
      ResidueIsRemainder(f, p, j);
      ResidueIsRemainder(f, p, j + n);
      ModulusSquare(k);
      RemainderStep(f, j, n, Modulus(k), Modulus(p), Residue(f, p)[j], Residue(f, p)[j + n]);
    }
  }

  /** Taking residues turns the product modulo X^256 + 1 into the product at every node. */
  lemma {:induction false} ResidueMul(f: seq<int>, g: seq<int>, k: nat)
    requires |f| == |g| == 256 && 1 <= k < 256
    ensures CongSeq(Residue(MulMod(f, g, -1), k), MulMod(Residue(f, k), Residue(g, k), Modulus(k)))
  {
    hide Cong, MulMod, Modulus, Fold;
    if k == 1 {
      ModulusRoot();
      CongSeqRefl(MulMod(f, g, -1));
    } else {
      var p, z := k / 2, Modulus(k);
      var rf, rg := Residue(f, p), Residue(g, p);
      var h := Residue(MulMod(f, g, -1), p);
      ResidueMul(f, g, p);
      ModulusSquare(k);
      CongSym(z * z, Modulus(p));
      CongSeqRefl(rf);
      CongSeqRefl(rg);
      MulModCong(rf, rf, rg, rg, Modulus(p), z * z);
      CongSeqTrans(h, MulMod(rf, rg, Modulus(p)), MulMod(rf, rg, z * z));
      FoldCong(h, MulMod(rf, rg, z * z), z);
      FoldMul(rf, rg, z);
    }
  }

  lemma ModulusRoot()
    ensures Modulus(1) == -1
  {
  }

  lemma QuadraticProduct(x: seq<int>, y: seq<int>, c: int)
    requires |x| == |y| == 2
    ensures MulMod(x, y, c)[0] == x[0] * y[0] + c * (x[1] * y[1])
    ensures MulMod(x, y, c)[1] == x[0] * y[1] + x[1] * y[0]
  {
    assert Conv(x, y, c, 0, 1) == Conv(x, y, c, 0, 0) + x[0] * y[0];
    assert Conv(x, y, c, 0, 2) == Conv(x, y, c, 0, 1) + x[1] * (c * y[1]);
    assert Conv(x, y, c, 1, 1) == Conv(x, y, c, 1, 0) + x[0] * y[1];
    assert Conv(x, y, c, 1, 2) == Conv(x, y, c, 1, 1) + x[1] * y[0];
    assert x[1] * (c * y[1]) == c * (x[1] * y[1]);
  }

  lemma PointMulAt(x: seq<int>, y: seq<int>, i: nat)
    requires |x| == |y| == 256 && i < 128
    ensures PointMul(x, y)[2 * i] == x[2 * i] * y[2 * i] + Modulus(128 + i) * (x[2 * i + 1] * y[2 * i + 1])
    ensures PointMul(x, y)[2 * i + 1] == x[2 * i] * y[2 * i + 1] + x[2 * i + 1] * y[2 * i]
  {
    hide Modulus;
  }

  lemma NttOfAt(f: seq<int>, i: nat)
    requires |f| == 256 && i < 128
    ensures NttOf(f)[2 * i] == Residue(f, 128 + i)[0] && NttOf(f)[2 * i + 1] == Residue(f, 128 + i)[1]
  {
    hide Residue;
  }

  /** The transform is a ring homomorphism from Z_q[X]/(X^256 + 1) to the product of the 128 quadratic rings. */
  lemma NttMul(f: seq<int>, g: seq<int>)
    requires |f| == |g| == 256
    ensures CongSeq(NttOf(MulMod(f, g, -1)), PointMul(NttOf(f), NttOf(g)))
  {
    hide Cong, Residue, Modulus, MulMod, NttOf, PointMul;
    forall p | 0 <= p < 256
      ensures Cong(NttOf(MulMod(f, g, -1))[p], PointMul(NttOf(f), NttOf(g))[p])
    {
      var i, k := p / 2, 128 + p / 2;
      ResidueMul(f, g, k);
      QuadraticProduct(Residue(f, k), Residue(g, k), Modulus(k));
      NttOfAt(f, i);
      NttOfAt(g, i);
      NttOfAt(MulMod(f, g, -1), i);
      PointMulAt(NttOf(f), NttOf(g), i);
      assert p == 2 * i || p == 2 * i + 1;
    }
  }

  lemma CongSeqRefl(f: seq<int>)
    ensures CongSeq(f, f)
  {
  }

  lemma CongSeqTrans(f: seq<int>, g: seq<int>, h: seq<int>)
    requires CongSeq(f, g) && CongSeq(g, h)
    ensures CongSeq(f, h)
  {
    forall i | 0 <= i < |f| ensures Cong(f[i], h[i]) { CongTrans(f[i], g[i], h[i]); }
  }

  // ---- The inverse ----

  /** Folding an unfolded pair by z and by -z gives back twice the pair. */
  lemma UnfoldThenFold(x: int, y: int, z: int, w: int)
    requires Cong(z * w, -1)
    ensures Cong((x + y) + z * (w * (y - x)), 2 * x)
    ensures Cong((x + y) + (-z) * (w * (y - x)), 2 * y)
  {
    var d := y - x;
    CongScale(d, z * w, -1);
    assert d * (z * w) == z * (w * d) && (-z) * (w * d) == -(z * (w * d));
  }

  lemma SumAndDifference(a: int, t: int, s: int, x: int, y: int)
    requires Cong(x, s * (a + t)) && Cong(y, s * (a - t))
    ensures Cong(x + y, 2 * s * a)
    ensures Cong(y - x, -2 * (s * t))
  {
    hide Cong;
    var p, q := s * a, s * t;
    assert s * (a + t) == p + q && s * (a - t) == p - q;
    assert 2 * s * a == 2 * p;
    CongAdd(x, p + q, y, p - q);
    CongAdd(y, p - q, x, p + q);
  }

  lemma UnfoldProduct(w: int, s: int, z: int, b: int)
    requires Cong(z * w, -1)
    ensures Cong(w * (-2 * (s * (z * b))), 2 * s * b)
  {
    var e := -2 * (s * b);
    CongScale(e, z * w, -1);
    hide Cong;
    assert w * (-2 * (s * (z * b))) == e * (z * w);
    assert e * -1 == 2 * s * b;
  }

  /** Unfolding two folds gives back twice the coefficients, with any common factor s. */
  lemma FoldThenUnfold(a: int, b: int, z: int, w: int, s: int, x: int, y: int)
    requires Cong(z * w, -1)
    requires Cong(x, s * (a + z * b)) && Cong(y, s * (a + (-z) * b))
    ensures Cong(x + y, 2 * s * a)
    ensures Cong(w * (y - x), 2 * s * b)
  {
    hide *;
    var t := z * b;
    assert (-z) * b == -t;
    SumAndDifference(a, t, s, x, y);
    CongScale(w, y - x, -2 * (s * t));
    UnfoldProduct(w, s, z, b);
    CongTrans(w * (y - x), w * (-2 * (s * t)), 2 * s * b);
  }

  lemma ScaledFoldAt(s: int, f: seq<int>, z: int, i: nat)
    requires i < |f| / 2
    ensures Scale(s, Fold(f, z))[i] == s * (f[i] + z * f[i + |f| / 2])
  {
  }

  lemma UnfoldFolds(r: seq<int>, x: seq<int>, y: seq<int>, z: int, w: int, s: int)
    requires |r| == 2 * |x| && Cong(z * w, -1)
    requires CongSeq(x, Scale(s, Fold(r, z))) && CongSeq(y, Scale(s, Fold(r, -z)))
    ensures CongSeq(Unfold(x, y, w), Scale(2 * s, r))
  {
    hide Cong, Fold;
    var n := |x|;
    forall i | 0 <= i < n
      ensures Cong(x[i] + y[i], 2 * s * r[i]) && Cong(w * (y[i] - x[i]), 2 * s * r[i + n])
    {
      hide Scale;
      ScaledFoldAt(s, r, z, i);
      ScaledFoldAt(s, r, -z, i);
      FoldThenUnfold(r[i], r[i + n], z, w, s, x[i], y[i]);
    }
    UnfoldedCong(r, x, y, w, s);
  }

  lemma UnfoldedCong(r: seq<int>, x: seq<int>, y: seq<int>, w: int, s: int)
    requires |r| == 2 * |x| == 2 * |y|
    requires forall i :: 0 <= i < |x| ==> Cong(x[i] + y[i], 2 * s * r[i]) && Cong(w * (y[i] - x[i]), 2 * s * r[i + |x|])
    ensures CongSeq(Unfold(x, y, w), Scale(2 * s, r))
  {
    hide Cong;
    var n := |x|;
    forall j | 0 <= j < 2 * n
      ensures Cong(Unfold(x, y, w)[j], Scale(2 * s, r)[j])
    {
      if j >= n { assert Cong(w * (y[j - n] - x[j - n]), 2 * s * r[j - n + n]); }
    }
  }

  lemma FoldScaled(a: int, b: int, z: int, s: int, u: int, v: int, t: int)
    requires Cong(a, s * u) && Cong(b, s * v) && Cong(u + z * v, 2 * t)
    ensures Cong(a + z * b, 2 * s * t)
  {
    hide Cong;
    CongScale(z, b, s * v);
    CongAdd(a, s * u, z * b, z * (s * v));
    CongScale(s, u + z * v, 2 * t);
    assert s * u + z * (s * v) == s * (u + z * v);
    assert s * (2 * t) == 2 * s * t;
    CongTrans(a + z * b, s * (u + z * v), 2 * s * t);
  }

  lemma ScaledUnfoldAt(r: seq<int>, x: seq<int>, y: seq<int>, w: int, s: int, j: nat)
    requires |r| == 2 * |x| == 2 * |y| && j < |x| && CongSeq(r, Scale(s, Unfold(x, y, w)))
    ensures Cong(r[j], s * (x[j] + y[j])) && Cong(r[j + |x|], s * (w * (y[j] - x[j])))
  {
    hide Cong;
    assert Cong(r[j], Scale(s, Unfold(x, y, w))[j]) && Cong(r[j + |x|], Scale(s, Unfold(x, y, w))[j + |x|]);
  }

  lemma FoldUnfoldAt(r: seq<int>, x: seq<int>, y: seq<int>, z: int, w: int, s: int, j: nat)
    requires |r| == 2 * |x| == 2 * |y| && j < |x| && Cong(z * w, -1) && CongSeq(r, Scale(s, Unfold(x, y, w)))
    ensures Cong(r[j] + z * r[j + |x|], 2 * s * x[j]) && Cong(r[j] + (-z) * r[j + |x|], 2 * s * y[j])
  {
    hide *;
    var u, v := x[j] + y[j], w * (y[j] - x[j]);
    ScaledUnfoldAt(r, x, y, w, s, j);
    UnfoldThenFold(x[j], y[j], z, w);
    FoldScaled(r[j], r[j + |x|], z, s, u, v, x[j]);
    FoldScaled(r[j], r[j + |x|], -z, s, u, v, y[j]);
  }

  lemma FoldsUnfold(r: seq<int>, x: seq<int>, y: seq<int>, z: int, w: int, s: int)
    requires |r| == 2 * |x| == 2 * |y| && Cong(z * w, -1)
    requires CongSeq(r, Scale(s, Unfold(x, y, w)))
    ensures CongSeq(Fold(r, z), Scale(2 * s, x))
    ensures CongSeq(Fold(r, -z), Scale(2 * s, y))
  {
    hide Cong, Unfold;
    forall j | 0 <= j < |x|
      ensures Cong(Fold(r, z)[j], Scale(2 * s, x)[j]) && Cong(Fold(r, -z)[j], Scale(2 * s, y)[j])
    {
      FoldUnfoldAt(r, x, y, z, w, s, j);
    }
  }

  lemma ScaleOne(f: seq<int>)
    ensures Scale(1, f) == f
  {
  }

  lemma RootNode()
    ensures NodeLen(1) == 256 && LayerStart(1) == 1
  {
  }

  lemma GatherStep(g: seq<int>, k: nat)
    requires |g| == 256 && 1 <= k < 128
    ensures NodeLen(2 * k) == NodeLen(2 * k + 1)
    ensures Gather(g, k) == Unfold(Gather(g, 2 * k), Gather(g, 2 * k + 1), ZetaVal(Mirror(k)))
  {
    NodeChildren(k);
    hide NodeLen, Unfold, ZetaVal, Mirror;
  }

  lemma ResidueStep(f: seq<int>, k: nat)
    requires |f| == 256 && 1 <= k < 128
    ensures Residue(f, 2 * k) == Fold(Residue(f, k), ZetaVal(k))
    ensures Residue(f, 2 * k + 1) == Fold(Residue(f, k), -ZetaVal(k))
  {
    hide NodeLen, Fold, ZetaVal;
  }

  lemma GatherLeaf(g: seq<int>, i: nat)
    requires |g| == 256 && i < 128
    ensures Gather(g, 128 + i) == [g[2 * i], g[2 * i + 1]]
  {
  }

  /** Gathering the transform of f gives f times the number of leaves passed. */
  lemma {:induction false} GatherNtt(f: seq<int>, k: nat)
    requires |f| == 256 && 1 <= k < 256
    ensures CongSeq(Gather(NttOf(f), k), Scale(NodeLen(k) / 2, Residue(f, k)))
    decreases 256 - k
  {
    hide *;
    var g, r := NttOf(f), Residue(f, k);
    if k >= 128 {
      NodeLeaf(k);
      NttOfAt(f, k - 128);
      GatherLeaf(g, k - 128);
      assert Gather(g, k) == r;
      CongSeqRefl(r);
      ScaleOne(r);
    } else {
      NodeChildren(k);
      GatherNtt(f, 2 * k);
      GatherNtt(f, 2 * k + 1);
      ZetaFacts(k);
      GatherStep(g, k);
      ResidueStep(f, k);
      UnfoldFolds(r, Gather(g, 2 * k), Gather(g, 2 * k + 1), ZetaVal(k), ZetaVal(Mirror(k)), NodeLen(2 * k) / 2);
    }
  }

  /** Transforming gathered leaves gives the leaves times the number of nodes in the layer. */
  lemma {:induction false} NttGather(g: seq<int>, k: nat)
    requires |g| == 256 && 1 <= k < 256
    ensures CongSeq(Residue(Gather(g, 1), k), Scale(LayerStart(k), Gather(g, k)))
  {
    hide *;
    RootNode();
    var f := Gather(g, 1);
    if k == 1 {
      ResidueRoot(f);
      CongSeqRefl(f);
      ScaleOne(f);
    } else {
      var p := k / 2;
      assert k == 2 * p || k == 2 * p + 1;
      NodeChildren(p);
      NttGather(g, p);
      ZetaFacts(p);
      GatherStep(g, p);
      ResidueStep(f, p);
      FoldsUnfold(Residue(f, p), Gather(g, 2 * p), Gather(g, 2 * p + 1), ZetaVal(p), ZetaVal(Mirror(p)), LayerStart(p));
    }
  }

  lemma ResidueRoot(f: seq<int>)
    requires |f| == 256
    ensures Residue(f, 1) == f && NodeLen(1) == 256
  {
  }

  /** 3303 is the inverse of 128 modulo q. */
  lemma UnscaleAt(x: int, y: int)
    requires Cong(x, 128 * y)
    ensures Cong(3303 * x, y)
  {
    hide Cong;
    CongScale(3303, x, 128 * y);
    CongFrom(3303 * (128 * y), y, 127 * y);
    CongTrans(3303 * x, 3303 * (128 * y), y);
  }

  lemma Unscale(x: seq<int>, y: seq<int>)
    requires CongSeq(x, Scale(128, y))
    ensures CongSeq(Scale(3303, x), y)
  {
    hide Cong;
    forall i | 0 <= i < |x| ensures Cong(Scale(3303, x)[i], y[i]) {
      assert Cong(x[i], Scale(128, y)[i]);
      UnscaleAt(x[i], y[i]);
    }
  }

  /** The inverse transform undoes the transform. */
  lemma InverseLeft(f: seq<int>)
    requires |f| == 256
    ensures CongSeq(InvNttOf(NttOf(f)), f)
  {
    hide Scale, Gather, CongSeq, NttOf;
    ResidueRoot(f);
    GatherNtt(f, 1);
    Unscale(Gather(NttOf(f), 1), f);
  }

  lemma ScaledTerm(c: int, a: int, z: int, b: int)
    ensures c * a + z * (c * b) == c * (a + z * b)
  {
    Distribute(c, a, z * b);
    Exchange(c, z, b);
  }

  lemma FoldScale(c: int, r: seq<int>, z: int)
    ensures Fold(Scale(c, r), z) == Scale(c, Fold(r, z))
  {
    var n := |r| / 2;
    forall j | 0 <= j < n ensures Fold(Scale(c, r), z)[j] == Scale(c, Fold(r, z))[j] {
      ScaledTerm(c, r[j], z, r[j + n]);
    }
  }

  lemma {:induction false} ResidueScale(c: int, f: seq<int>, k: nat)
    requires |f| == 256 && 1 <= k < 256
    ensures Residue(Scale(c, f), k) == Scale(c, Residue(f, k))
  {
    hide Modulus, NodeLen, Fold, Scale;
    if k > 1 {
      ResidueScale(c, f, k / 2);
      FoldScale(c, Residue(f, k / 2), Modulus(k));
    }
  }

  /** The transform undoes the inverse transform: every leaf sequence is a transform modulo q. */
  lemma InverseRight(g: seq<int>)
    requires |g| == 256
    ensures CongSeq(NttOf(InvNttOf(g)), g)
  {
    hide Cong, Residue, NttOf, Gather, Scale;
    var f := Gather(g, 1);
    forall p | 0 <= p < 256 ensures Cong(NttOf(Scale(3303, f))[p], g[p]) {
      var i, k := p / 2, 128 + p / 2;
      NttGather(g, k);
      ResidueScale(3303, f, k);
      NttOfAt(Scale(3303, f), i);
      Unscale(Residue(f, k), Gather(g, k));
      GatherLeaf(g, i);
      assert p == 2 * i || p == 2 * i + 1;
    }
  }
}
