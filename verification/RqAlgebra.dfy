/** The transform domain as a commutative ring, and the transforms as linear maps between it and Z_q[X]/(X^256 + 1). */
module RqAlgebra {
  import opened Arithmetic
  import opened ModQ
  import opened Ring
  import opened Zetas
  import opened Transform

  ghost function Plus(x: seq<int>, y: seq<int>): (r: seq<int>)
    requires |x| == |y|
    ensures |r| == |x|
  {
    seq(|x|, i requires 0 <= i < |x| => x[i] + y[i])
  }

  ghost function Minus(x: seq<int>, y: seq<int>): (r: seq<int>)
    requires |x| == |y|
    ensures |r| == |x|
  {
    seq(|x|, i requires 0 <= i < |x| => x[i] - y[i])
  }

  lemma PlusAssociative(x: seq<int>, y: seq<int>, z: seq<int>)
    requires |x| == |y| == |z|
    ensures Plus(Plus(x, y), z) == Plus(x, Plus(y, z))
  {
  }

  /** (a + b) + (c + d) = (a + c) + (b + d). */
  lemma PlusExchange(a: seq<int>, b: seq<int>, c: seq<int>, d: seq<int>)
    requires |a| == |b| == |c| == |d|
    ensures Plus(Plus(a, b), Plus(c, d)) == Plus(Plus(a, c), Plus(b, d))
  {
  }

  lemma PlusCong(x: seq<int>, x': seq<int>, y: seq<int>, y': seq<int>)
    requires CongSeq(x, x') && CongSeq(y, y') && |x| == |y|
    ensures CongSeq(Plus(x, y), Plus(x', y')) && CongSeq(Minus(x, y), Minus(x', y'))
  {
    hide Cong;
    forall i | 0 <= i < |x|
      ensures Cong(Plus(x, y)[i], Plus(x', y')[i]) && Cong(Minus(x, y)[i], Minus(x', y')[i])
    {
      CongAdd(x[i], x'[i], y[i], y'[i]);
    }
  }

  lemma ScaleCong(c: int, x: seq<int>, y: seq<int>)
    requires CongSeq(x, y)
    ensures CongSeq(Scale(c, x), Scale(c, y))
  {
    hide Cong;
    forall i | 0 <= i < |x| ensures Cong(Scale(c, x)[i], Scale(c, y)[i]) { CongScale(c, x[i], y[i]); }
  }

  lemma CongSeqSym(x: seq<int>, y: seq<int>)
    requires CongSeq(x, y)
    ensures CongSeq(y, x)
  {
    forall i | 0 <= i < |x| ensures Cong(y[i], x[i]) { CongSym(x[i], y[i]); }
  }

  // ---- The pointwise product is a commutative ring product ----

  /** Two sequences that agree on all pairs agree. */
  lemma ByPairs(x: seq<int>, y: seq<int>)
    requires |x| == |y| == 256
    requires forall i :: 0 <= i < 128 ==> x[2 * i] == y[2 * i] && x[2 * i + 1] == y[2 * i + 1]
    ensures x == y
  {
    forall p | 0 <= p < 256 ensures x[p] == y[p] {
      var i := p / 2;
      assert x[2 * i] == y[2 * i] && x[2 * i + 1] == y[2 * i + 1];
      assert p == 2 * i || p == 2 * i + 1;
    }
  }

  lemma PointMulCommutative(x: seq<int>, y: seq<int>)
    requires |x| == |y| == 256
    ensures PointMul(x, y) == PointMul(y, x)
  {
    hide PointMul, Modulus;
    forall i | 0 <= i < 128
      ensures PointMul(x, y)[2 * i] == PointMul(y, x)[2 * i] && PointMul(x, y)[2 * i + 1] == PointMul(y, x)[2 * i + 1]
    {
      PointMulAt(x, y, i);
      PointMulAt(y, x, i);
    }
    ByPairs(PointMul(x, y), PointMul(y, x));
  }

  lemma QuadraticAssociative(x0: int, x1: int, y0: int, y1: int, z0: int, z1: int, c: int)
    ensures (x0 * y0 + c * (x1 * y1)) * z0 + c * ((x0 * y1 + x1 * y0) * z1)
         == x0 * (y0 * z0 + c * (y1 * z1)) + c * (x1 * (y0 * z1 + y1 * z0))
  {
    DistributeRight(x0 * y0, c * (x1 * y1), z0);
    DistributeRight(x0 * y1, x1 * y0, z1);
    Distribute(c, (x0 * y1) * z1, (x1 * y0) * z1);
    Distribute(x0, y0 * z0, c * (y1 * z1));
    Distribute(x1, y0 * z1, y1 * z0);
    Distribute(c, x1 * (y0 * z1), x1 * (y1 * z0));
    Associate(x0, y0, z0);
    Associate(x1, y0, z1);
    Associate(x0, y1, z1);
    Associate(x1, y1, z0);
    Associate(c, x1 * y1, z0);
    Exchange(x0, c, y1 * z1);
  }

  lemma QuadraticAssociativeHigh(x0: int, x1: int, y0: int, y1: int, z0: int, z1: int, c: int)
    ensures (x0 * y0 + c * (x1 * y1)) * z1 + (x0 * y1 + x1 * y0) * z0
         == x0 * (y0 * z1 + y1 * z0) + x1 * (y0 * z0 + c * (y1 * z1))
  {
    DistributeRight(x0 * y0, c * (x1 * y1), z1);
    DistributeRight(x0 * y1, x1 * y0, z0);
    Distribute(x0, y0 * z1, y1 * z0);
    Distribute(x1, y0 * z0, c * (y1 * z1));
    Associate(x0, y0, z1);
    Associate(x0, y1, z0);
    Associate(x1, y0, z0);
    Associate(x1, y1, z1);
    Associate(c, x1 * y1, z1);
    Exchange(x1, c, y1 * z1);
  }

  lemma PointMulAssociative(x: seq<int>, y: seq<int>, z: seq<int>)
    requires |x| == |y| == |z| == 256
    ensures PointMul(PointMul(x, y), z) == PointMul(x, PointMul(y, z))
  {
    hide PointMul, Modulus;
    var u, v := PointMul(x, y), PointMul(y, z);
    forall i | 0 <= i < 128
      ensures PointMul(u, z)[2 * i] == PointMul(x, v)[2 * i] && PointMul(u, z)[2 * i + 1] == PointMul(x, v)[2 * i + 1]
    {
      PointMulAt(x, y, i);
      PointMulAt(y, z, i);
      PointMulAt(u, z, i);
      PointMulAt(x, v, i);
      QuadraticAssociative(x[2 * i], x[2 * i + 1], y[2 * i], y[2 * i + 1], z[2 * i], z[2 * i + 1], Modulus(128 + i));
      QuadraticAssociativeHigh(x[2 * i], x[2 * i + 1], y[2 * i], y[2 * i + 1], z[2 * i], z[2 * i + 1], Modulus(128 + i));
    }
    ByPairs(PointMul(u, z), PointMul(x, v));
  }

  lemma QuadraticDistributive(x0: int, x1: int, y0: int, y1: int, z0: int, z1: int, c: int)
    ensures x0 * (y0 + z0) + c * (x1 * (y1 + z1)) == (x0 * y0 + c * (x1 * y1)) + (x0 * z0 + c * (x1 * z1))
    ensures x0 * (y1 + z1) + x1 * (y0 + z0) == (x0 * y1 + x1 * y0) + (x0 * z1 + x1 * z0)
  {
  }

  lemma PointMulDistributive(x: seq<int>, y: seq<int>, z: seq<int>)
    requires |x| == |y| == |z| == 256
    ensures PointMul(x, Plus(y, z)) == Plus(PointMul(x, y), PointMul(x, z))
    ensures PointMul(Plus(y, z), x) == Plus(PointMul(y, x), PointMul(z, x))
  {
    hide PointMul, Modulus;
    var s := Plus(y, z);
    var r := Plus(PointMul(x, y), PointMul(x, z));
    forall i | 0 <= i < 128
      ensures PointMul(x, s)[2 * i] == r[2 * i] && PointMul(x, s)[2 * i + 1] == r[2 * i + 1]
    {
      PointMulAt(x, y, i);
      PointMulAt(x, z, i);
      PointMulAt(x, s, i);
      QuadraticDistributive(x[2 * i], x[2 * i + 1], y[2 * i], y[2 * i + 1], z[2 * i], z[2 * i + 1], Modulus(128 + i));
    }
    ByPairs(PointMul(x, s), r);
    PointMulCommutative(x, s);
    PointMulCommutative(x, y);
    PointMulCommutative(x, z);
  }

  lemma QuadraticCong(x0: int, x1: int, y0: int, y1: int, u0: int, u1: int, v0: int, v1: int, c: int)
    requires Cong(x0, u0) && Cong(x1, u1) && Cong(y0, v0) && Cong(y1, v1)
    ensures Cong(x0 * y0 + c * (x1 * y1), u0 * v0 + c * (u1 * v1))
    ensures Cong(x0 * y1 + x1 * y0, u0 * v1 + u1 * v0)
  {
    hide Cong;
    CongMul(x0, u0, y0, v0);
    CongMul(x1, u1, y1, v1);
    CongMul(x0, u0, y1, v1);
    CongMul(x1, u1, y0, v0);
    CongScale(c, x1 * y1, u1 * v1);
    CongAdd(x0 * y0, u0 * v0, c * (x1 * y1), c * (u1 * v1));
    CongAdd(x0 * y1, u0 * v1, x1 * y0, u1 * v0);
  }

  lemma PointMulCong(x: seq<int>, x': seq<int>, y: seq<int>, y': seq<int>)
    requires |x| == |y| == 256 && CongSeq(x, x') && CongSeq(y, y')
    ensures CongSeq(PointMul(x, y), PointMul(x', y'))
  {
    hide PointMul, Modulus, Cong;
    forall p | 0 <= p < 256 ensures Cong(PointMul(x, y)[p], PointMul(x', y')[p]) {
      var i := p / 2;
      PointMulAt(x, y, i);
      PointMulAt(x', y', i);
      QuadraticCong(x[2 * i], x[2 * i + 1], y[2 * i], y[2 * i + 1],
                    x'[2 * i], x'[2 * i + 1], y'[2 * i], y'[2 * i + 1], Modulus(128 + i));
      assert p == 2 * i || p == 2 * i + 1;
    }
  }

  // ---- The transforms are linear and respect congruence ----

  lemma FoldPlus(x: seq<int>, y: seq<int>, z: int)
    requires |x| == |y|
    ensures Fold(Plus(x, y), z) == Plus(Fold(x, z), Fold(y, z))
  {
    var n := |x| / 2;
    forall j | 0 <= j < n ensures Fold(Plus(x, y), z)[j] == Plus(Fold(x, z), Fold(y, z))[j] {
      Distribute(z, x[j + n], y[j + n]);
    }
  }

  lemma {:induction false} ResiduePlus(f: seq<int>, g: seq<int>, k: nat)
    requires |f| == |g| == 256 && 1 <= k < 256
    ensures Residue(Plus(f, g), k) == Plus(Residue(f, k), Residue(g, k))
  {
    hide Modulus, NodeLen, Plus, Fold;
    if k > 1 {
      ResiduePlus(f, g, k / 2);
      FoldPlus(Residue(f, k / 2), Residue(g, k / 2), Modulus(k));
    }
  }

  lemma NttOfPlus(f: seq<int>, g: seq<int>)
    requires |f| == |g| == 256
    ensures NttOf(Plus(f, g)) == Plus(NttOf(f), NttOf(g))
  {
    hide Residue, NttOf, Plus;
    forall i | 0 <= i < 128
      ensures NttOf(Plus(f, g))[2 * i] == Plus(NttOf(f), NttOf(g))[2 * i]
      ensures NttOf(Plus(f, g))[2 * i + 1] == Plus(NttOf(f), NttOf(g))[2 * i + 1]
    {
      NttOfAt(Plus(f, g), i);
      NttOfAt(f, i);
      NttOfAt(g, i);
      ResiduePlus(f, g, 128 + i);
      NodeLeaf(128 + i);
      PlusAt(NttOf(f), NttOf(g), 2 * i);
      PlusAt(NttOf(f), NttOf(g), 2 * i + 1);
      PlusAt(Residue(f, 128 + i), Residue(g, 128 + i), 0);
      PlusAt(Residue(f, 128 + i), Residue(g, 128 + i), 1);
    }
    ByPairs(NttOf(Plus(f, g)), Plus(NttOf(f), NttOf(g)));
  }

  lemma PlusAt(x: seq<int>, y: seq<int>, i: nat)
    requires |x| == |y| && i < |x|
    ensures Plus(x, y)[i] == x[i] + y[i]
  {
  }

  lemma {:induction false} ResidueCong(f: seq<int>, g: seq<int>, k: nat)
    requires |f| == |g| == 256 && 1 <= k < 256 && CongSeq(f, g)
    ensures CongSeq(Residue(f, k), Residue(g, k))
  {
    hide Cong, Modulus, Fold;
    if k > 1 {
      ResidueCong(f, g, k / 2);
      FoldCong(Residue(f, k / 2), Residue(g, k / 2), Modulus(k));
    }
  }

  lemma NttOfCong(f: seq<int>, g: seq<int>)
    requires |f| == |g| == 256 && CongSeq(f, g)
    ensures CongSeq(NttOf(f), NttOf(g))
  {
    hide Cong, Residue, NttOf;
    forall p | 0 <= p < 256 ensures Cong(NttOf(f)[p], NttOf(g)[p]) {
      var i := p / 2;
      ResidueCong(f, g, 128 + i);
      NodeLeaf(128 + i);
      NttOfAt(f, i);
      NttOfAt(g, i);
      assert p == 2 * i || p == 2 * i + 1;
    }
  }

  lemma UnfoldPlus(x: seq<int>, y: seq<int>, u: seq<int>, v: seq<int>, w: int)
    requires |x| == |y| == |u| == |v|
    ensures Unfold(Plus(x, u), Plus(y, v), w) == Plus(Unfold(x, y, w), Unfold(u, v, w))
  {
    var n := |x|;
    var l, r := Unfold(Plus(x, u), Plus(y, v), w), Plus(Unfold(x, y, w), Unfold(u, v, w));
    forall j | 0 <= j < 2 * n ensures l[j] == r[j] {
      if j >= n {
        Distribute(w, y[j - n] - x[j - n], v[j - n] - u[j - n]);
        assert (y[j - n] + v[j - n]) - (x[j - n] + u[j - n]) == (y[j - n] - x[j - n]) + (v[j - n] - u[j - n]);
      }
    }
  }

  lemma {:induction false} GatherPlus(f: seq<int>, g: seq<int>, k: nat)
    requires |f| == |g| == 256 && 1 <= k < 256
    ensures Gather(Plus(f, g), k) == Plus(Gather(f, k), Gather(g, k))
    decreases 256 - k
  {
    if k >= 128 {
      GatherLeaf(f, k - 128);
      GatherLeaf(g, k - 128);
      GatherLeaf(Plus(f, g), k - 128);
      hide Gather, NodeLen;
    } else {
      hide *;
      GatherPlus(f, g, 2 * k);
      GatherPlus(f, g, 2 * k + 1);
      GatherStep(f, k);
      GatherStep(g, k);
      GatherStep(Plus(f, g), k);
      UnfoldPlus(Gather(f, 2 * k), Gather(f, 2 * k + 1), Gather(g, 2 * k), Gather(g, 2 * k + 1), ZetaVal(Mirror(k)));
    }
  }

  lemma ScalePlus(c: int, x: seq<int>, y: seq<int>)
    requires |x| == |y|
    ensures Scale(c, Plus(x, y)) == Plus(Scale(c, x), Scale(c, y))
  {
    forall i | 0 <= i < |x| ensures Scale(c, Plus(x, y))[i] == Plus(Scale(c, x), Scale(c, y))[i] {
      Distribute(c, x[i], y[i]);
    }
  }

  lemma InvNttOfPlus(f: seq<int>, g: seq<int>)
    requires |f| == |g| == 256
    ensures InvNttOf(Plus(f, g)) == Plus(InvNttOf(f), InvNttOf(g))
  {
    hide Gather, Scale, Plus;
    RootNode();
    GatherPlus(f, g, 1);
    ScalePlus(3303, Gather(f, 1), Gather(g, 1));
  }

  lemma UnfoldScale(c: int, x: seq<int>, y: seq<int>, w: int)
    requires |x| == |y|
    ensures Unfold(Scale(c, x), Scale(c, y), w) == Scale(c, Unfold(x, y, w))
  {
    var n := |x|;
    var l, r := Unfold(Scale(c, x), Scale(c, y), w), Scale(c, Unfold(x, y, w));
    forall j | 0 <= j < 2 * n ensures l[j] == r[j] {
      if j < n {
        Distribute(c, x[j], y[j]);
      } else {
        var a, b := y[j - n], x[j - n];
        assert c * a - c * b == c * (a - b);
        Exchange(w, c, a - b);
      }
    }
  }

  lemma {:induction false} GatherScale(c: int, g: seq<int>, k: nat)
    requires |g| == 256 && 1 <= k < 256
    ensures Gather(Scale(c, g), k) == Scale(c, Gather(g, k))
    decreases 256 - k
  {
    if k >= 128 {
      GatherLeaf(g, k - 128);
      GatherLeaf(Scale(c, g), k - 128);
      hide Gather, NodeLen;
    } else {
      hide *;
      GatherScale(c, g, 2 * k);
      GatherScale(c, g, 2 * k + 1);
      GatherStep(g, k);
      GatherStep(Scale(c, g), k);
      UnfoldScale(c, Gather(g, 2 * k), Gather(g, 2 * k + 1), ZetaVal(Mirror(k)));
    }
  }

  lemma ScaleScale(c: int, d: int, x: seq<int>)
    ensures Scale(c, Scale(d, x)) == Scale(d, Scale(c, x))
  {
    forall i | 0 <= i < |x| ensures Scale(c, Scale(d, x))[i] == Scale(d, Scale(c, x))[i] {
      Exchange(c, d, x[i]);
    }
  }

  lemma InvNttOfScale(c: int, g: seq<int>)
    requires |g| == 256
    ensures InvNttOf(Scale(c, g)) == Scale(c, InvNttOf(g))
  {
    hide Gather, Scale;
    RootNode();
    GatherScale(c, g, 1);
    ScaleScale(3303, c, Gather(g, 1));
  }

  lemma UnfoldCong(x: seq<int>, y: seq<int>, u: seq<int>, v: seq<int>, w: int)
    requires |x| == |y| && CongSeq(x, u) && CongSeq(y, v)
    ensures CongSeq(Unfold(x, y, w), Unfold(u, v, w))
  {
    hide Cong;
    var n := |x|;
    forall j | 0 <= j < 2 * n ensures Cong(Unfold(x, y, w)[j], Unfold(u, v, w)[j]) {
      var i := if j < n then j else j - n;
      CongAdd(x[i], u[i], y[i], v[i]);
      CongAdd(y[i], v[i], x[i], u[i]);
      CongScale(w, y[i] - x[i], v[i] - u[i]);
    }
  }

  lemma {:induction false} GatherCong(f: seq<int>, g: seq<int>, k: nat)
    requires |f| == |g| == 256 && 1 <= k < 256 && CongSeq(f, g)
    ensures CongSeq(Gather(f, k), Gather(g, k))
    decreases 256 - k
  {
    if k >= 128 {
      GatherLeaf(f, k - 128);
      GatherLeaf(g, k - 128);
      hide Gather, NodeLen, Cong;
    } else {
      hide *;
      GatherCong(f, g, 2 * k);
      GatherCong(f, g, 2 * k + 1);
      GatherStep(f, k);
      GatherStep(g, k);
      UnfoldCong(Gather(f, 2 * k), Gather(f, 2 * k + 1), Gather(g, 2 * k), Gather(g, 2 * k + 1), ZetaVal(Mirror(k)));
    }
  }

  lemma InvNttOfCong(f: seq<int>, g: seq<int>)
    requires |f| == |g| == 256 && CongSeq(f, g)
    ensures CongSeq(InvNttOf(f), InvNttOf(g))
  {
    hide Gather, Scale, CongSeq;
    GatherCong(f, g, 1);
    ScaleCong(3303, Gather(f, 1), Gather(g, 1));
  }
}
