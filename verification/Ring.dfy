/** Polynomials modulo X^n - c, as coefficient sequences over the integers; X^256 + 1 is the case n = 256, c = -1. */
module Ring {
  import opened Arithmetic
  import opened ModQ

  /** Coefficient of X^m of a polynomial after reduction by X^n = c, for exponents -n <= m < n. */
  ghost function Wrap(g: seq<int>, c: int, m: int): int
    requires -|g| <= m < |g|
  {
    if m >= 0 then g[m] else c * g[m + |g|]
  }

  /** The first m terms of the convolution sum for the coefficient of X^k. */
  ghost function Conv(f: seq<int>, g: seq<int>, c: int, k: nat, m: nat): int
    requires m <= |f| == |g| && k < |f|
  {
    if m == 0 then 0 else Conv(f, g, c, k, m - 1) + f[m - 1] * Wrap(g, c, k - (m - 1))
  }

  /** Schoolbook product of f and g modulo X^n - c, where n is their common length. */
  ghost function MulMod(f: seq<int>, g: seq<int>, c: int): (h: seq<int>)
    requires |f| == |g|
    ensures |h| == |f|
  {
    seq(|f|, k requires 0 <= k < |f| => Conv(f, g, c, k, |f|))
  }

  /** Reduction from X^2n - z^2 to X^n - z: the upper half is folded down with X^n = z. */
  ghost function Fold(f: seq<int>, z: int): (h: seq<int>)
    ensures |h| == |f| / 2
  {
    var n := |f| / 2;
    seq(n, j requires 0 <= j < n => f[j] + z * f[j + n])
  }

  /** Coefficient j of f modulo X^n - c, by Horner's rule: f[j] + c * f[j + n] + c^2 * f[j + 2n] + ... */
  ghost function Remainder(f: seq<int>, j: nat, n: nat, c: int): int
    requires n > 0
    decreases |f| - j
  {
    if j >= |f| then 0 else f[j] + c * Remainder(f, j + n, n, c)
  }

  // ---- Folding is a ring homomorphism ----

  /** The product of a + z b and x + z y, as the four terms that a convolution modulo X^2n - z^2 adds up. */
  lemma FoldAbove(a: int, b: int, x: int, y: int, z: int)
    ensures a * x + z * (a * y) + b * (z * z * y) + z * (b * x) == (a + z * b) * (x + z * y)
  {
    var p, q := z * b, z * y;
    Distribute(x + q, a, p);
    Distribute(a, x, q);
    Distribute(p, x, q);
    assert a * q == z * (a * y);
    assert p * x == z * (b * x);
    assert p * q == b * (z * z * y);
  }

  lemma FoldBelow(a: int, b: int, x: int, y: int, z: int)
    ensures a * (z * z * y) + z * (a * x) + b * (z * z * x) + z * (b * (z * z * y)) == (a + z * b) * (z * (x + z * y))
  {
    var w := z * z * y;
    FoldAbove(a, b, w, x, z);
    Distribute(z, x, z * y);
    assert z * (z * y) == w;
  }

  lemma FoldTerm(f: seq<int>, g: seq<int>, z: int, k: nat, i: nat)
    requires |f| == |g| == 2 * (|f| / 2)
    requires k < |f| / 2 && i < |f| / 2
    ensures var n := |f| / 2; var c := z * z;
            f[i] * Wrap(g, c, k - i) + z * (f[i] * Wrap(g, c, k + n - i))
            + f[n + i] * Wrap(g, c, k - (n + i)) + z * (f[n + i] * Wrap(g, c, k + n - (n + i)))
            == Fold(f, z)[i] * Wrap(Fold(g, z), z, k - i)
  {
    var n := |f| / 2;
    if k >= i {
      FoldAbove(f[i], f[n + i], g[k - i], g[k - i + n], z);
    } else {
      FoldBelow(f[i], f[n + i], g[k - i + n], g[k - i + 2 * n], z);
    }
  }

  /** Partial sums for coefficients k and k + n, combined as folding combines them. */
  ghost function ConvFolded(f: seq<int>, g: seq<int>, z: int, c: int, k: nat, m: nat): int
    requires m <= |f| == |g| && k + |f| / 2 < |f|
  {
    Conv(f, g, c, k, m) + z * Conv(f, g, c, k + |f| / 2, m)
  }

  lemma ConvFoldedStep(f: seq<int>, g: seq<int>, z: int, c: int, k: nat, m: nat)
    requires m < |f| == |g| && k + |f| / 2 < |f|
    ensures ConvFolded(f, g, z, c, k, m + 1)
            == ConvFolded(f, g, z, c, k, m) + f[m] * Wrap(g, c, k - m) + z * (f[m] * Wrap(g, c, k + |f| / 2 - m))
  {
    Distribute(z, Conv(f, g, c, k + |f| / 2, m), f[m] * Wrap(g, c, k + |f| / 2 - m));
  }

  /** The sums over both halves of f against one sum for the folded factors. */
  lemma {:induction false} FoldConv(f: seq<int>, g: seq<int>, z: int, c: int, k: nat, m: nat)
    requires |f| == |g| == 2 * (|f| / 2) && c == z * z
    requires k < |f| / 2 && m <= |f| / 2
    ensures ConvFolded(f, g, z, c, k, m) + ConvFolded(f, g, z, c, k, |f| / 2 + m)
            == Conv(Fold(f, z), Fold(g, z), z, k, m) + ConvFolded(f, g, z, c, k, |f| / 2)
  {
    if m > 0 {
      FoldConv(f, g, z, c, k, m - 1);
      FoldTerm(f, g, z, k, m - 1);
      ConvFoldedStep(f, g, z, c, k, m - 1);
      ConvFoldedStep(f, g, z, c, k, |f| / 2 + m - 1);
      hide Fold, Wrap, ConvFolded;
    } else {
      Distribute(z, 0, 0);
    }
  }

  lemma FoldMul(f: seq<int>, g: seq<int>, z: int)
    requires |f| == |g| == 2 * (|f| / 2)
    ensures Fold(MulMod(f, g, z * z), z) == MulMod(Fold(f, z), Fold(g, z), z)
  {
    var n, c := |f| / 2, z * z;
    var h := MulMod(f, g, c);
    forall k | 0 <= k < n
      ensures Fold(h, z)[k] == MulMod(Fold(f, z), Fold(g, z), z)[k]
    {
      FoldConv(f, g, z, c, k, n);
      assert h[k] == Conv(f, g, c, k, n + n) && h[k + n] == Conv(f, g, c, k + n, n + n);
    }
  }

  /** Folding a remainder modulo X^2n - z^2 gives the remainder modulo X^n - z. */
  lemma {:induction false} RemainderFold(f: seq<int>, j: nat, n: nat, z: int)
    requires n > 0
    ensures Remainder(f, j, n, z) == Remainder(f, j, 2 * n, z * z) + z * Remainder(f, j + n, 2 * n, z * z)
    decreases |f| - j
  {
    if j < |f| {
      RemainderFold(f, j + n, n, z);
      var c, tail := z * z, Remainder(f, j + 2 * n, 2 * n, z * z);
      assert Remainder(f, j, 2 * n, c) == f[j] + c * tail;
      assert c * tail == z * (z * tail);
      Distribute(z, Remainder(f, j + n, 2 * n, c), z * tail);
    }
  }

  // ---- Everything respects congruence modulo q ----

  lemma {:induction false} ConvCong(f: seq<int>, f': seq<int>, g: seq<int>, g': seq<int>, c: int, c': int, k: nat, m: nat)
    requires CongSeq(f, f') && CongSeq(g, g') && Cong(c, c')
    requires m <= |f| == |g| && k < |f|
    ensures Cong(Conv(f, g, c, k, m), Conv(f', g', c', k, m))
  {
    if m > 0 {
      ConvCong(f, f', g, g', c, c', k, m - 1);
      var i := k - (m - 1);
      var w, w' := Wrap(g, c, i), Wrap(g', c', i);
      if i < 0 { CongMul(c, c', g[i + |g|], g'[i + |g|]); }
      CongMul(f[m - 1], f'[m - 1], w, w');
      CongAdd(Conv(f, g, c, k, m - 1), Conv(f', g', c', k, m - 1), f[m - 1] * w, f'[m - 1] * w');
    }
  }

  lemma MulModCong(f: seq<int>, f': seq<int>, g: seq<int>, g': seq<int>, c: int, c': int)
    requires CongSeq(f, f') && CongSeq(g, g') && Cong(c, c') && |f| == |g|
    ensures CongSeq(MulMod(f, g, c), MulMod(f', g', c'))
  {
    forall k | 0 <= k < |f|
      ensures Cong(MulMod(f, g, c)[k], MulMod(f', g', c')[k])
    {
      ConvCong(f, f', g, g', c, c', k, |f|);
    }
  }

  lemma FoldCong(f: seq<int>, g: seq<int>, z: int)
    requires CongSeq(f, g)
    ensures CongSeq(Fold(f, z), Fold(g, z))
  {
    var n := |f| / 2;
    forall j | 0 <= j < n
      ensures Cong(Fold(f, z)[j], Fold(g, z)[j])
    {
      CongScale(z, f[j + n], g[j + n]);
      CongAdd(f[j], g[j], z * f[j + n], z * g[j + n]);
    }
  }

  lemma {:induction false} RemainderCong(f: seq<int>, j: nat, n: nat, c: int, c': int)
    requires n > 0 && Cong(c, c')
    ensures Cong(Remainder(f, j, n, c), Remainder(f, j, n, c'))
    decreases |f| - j
  {
    if j < |f| {
      RemainderCong(f, j + n, n, c, c');
      CongMul(c, c', Remainder(f, j + n, n, c), Remainder(f, j + n, n, c'));
    }
  }
}
