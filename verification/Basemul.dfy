/** Multiplication in the transform domain: basemul of ntt.c, poly_basemul_montgomery of poly.c. */
module Basemul {
  import opened Arithmetic
  import opened Words
  import opened ModQ
  import opened Reduce
  import opened Zetas
  import opened Transform
  import opened Ntt

  /** Any 16-bit value may meet a value below q: the product stays in the range of montgomery_reduce. */
  lemma ReducedDomain(a: int16, b: int)
    requires -3328 <= b <= 3328
    ensures MontgomeryDomain(a * b)
  {
    ProductBound(a, b, 0x8000, 3328);
  }

  function FqmulReduced(a: int16, b: int): int16
    requires -3328 <= b <= 3328
  {
    ReducedDomain(a, b);
    Fqmul(a, b)
  }

  lemma FqmulReducedCorrect(a: int16, b: int)
    requires -3328 <= b <= 3328
    ensures -Q < FqmulReduced(a, b) < Q && Cong(FqmulReduced(a, b), a * b * MONT_R_INV)
  {
    ReducedDomain(a, b);
    hide MontgomeryReduce, Cong;
    MontgomeryReduceCorrect(a * b);
  }

  function BasemulLow(a0: int16, a1: int16, b0: int, b1: int, zeta: Twiddle): int16
    requires -3328 <= b0 <= 3328 && -3328 <= b1 <= 3328
  {
    ToInt16(FqmulTwiddle(zeta, FqmulReduced(a1, b1)) as int + FqmulReduced(a0, b0))
  }

  function BasemulHigh(a0: int16, a1: int16, b0: int, b1: int): int16
    requires -3328 <= b0 <= 3328 && -3328 <= b1 <= 3328
  {
    ToInt16(FqmulReduced(a0, b1) as int + FqmulReduced(a1, b0))
  }

  /** basemul on the pairs at offset `at`; `b` is the factor whose coefficients are below q. */
  method Basemul(r: array<int16>, a: array<int16>, b: array<int16>, at: nat, zeta: Twiddle)
    requires at + 1 < r.Length == a.Length == b.Length && r != a && r != b
    requires -3328 <= b[at] <= 3328 && -3328 <= b[at + 1] <= 3328
    modifies r
    ensures r[at] == BasemulLow(a[at], a[at + 1], b[at], b[at + 1], zeta)
    ensures r[at + 1] == BasemulHigh(a[at], a[at + 1], b[at], b[at + 1])
    ensures forall i :: 0 <= i < r.Length && i != at && i != at + 1 ==> r[i] == old(r[i])
  {
    hide FqmulReduced, FqmulTwiddle, ToInt16;
    r[at] := FqmulReduced(a[at + 1], b[at + 1]);
    r[at] := FqmulTwiddle(zeta, r[at]);
    r[at] := ToInt16(r[at] as int + FqmulReduced(a[at], b[at]));
    r[at + 1] := FqmulReduced(a[at], b[at + 1]);
    r[at + 1] := ToInt16(r[at + 1] as int + FqmulReduced(a[at + 1], b[at]));
  }

  /** The twiddle factor of pair i: table entries 64 to 127, each used for two pairs with opposite signs. */
  function PairZeta(i: nat): Twiddle
    requires i < 128
  {
    if i % 2 == 0 then Zeta(64 + i / 2) else -Zeta(64 + i / 2)
  }

  /** Coefficient p of the product of two transformed polynomials, with a factor R^-1. */
  function BasemulAt(a: seq<int16>, b: seq<int16>, p: nat): int16
    requires |a| == |b| == 256 && Bounded(b, 3328) && p < 256
  {
    if p % 2 == 0 then BasemulLow(a[p], a[p + 1], b[p], b[p + 1], PairZeta(p / 2))
    else BasemulHigh(a[p - 1], a[p], b[p - 1], b[p])
  }

  ghost function BasemulSpec(a: seq<int16>, b: seq<int16>): (r: seq<int16>)
    requires |a| == |b| == 256 && Bounded(b, 3328)
    ensures |r| == 256
  {
    seq(256, p requires 0 <= p < 256 => BasemulAt(a, b, p))
  }

  /** poly_basemul_montgomery: 64 steps of two pairs each, the second with the twiddle factor negated. */
  method PolyBasemul(r: array<int16>, a: array<int16>, b: array<int16>)
    requires r.Length == a.Length == b.Length == 256 && r != a && r != b
    requires Bounded(b[..], 3328)
    modifies r
    ensures r[..] == BasemulSpec(a[..], b[..])
  {
    hide BasemulLow, BasemulHigh, Zeta;
    ghost var s, t := a[..], b[..];
    var i := 0;
    while i < 64
      invariant 0 <= i <= 64
      invariant a[..] == s && b[..] == t
      invariant forall p :: 0 <= p < 4 * i ==> r[p] == BasemulAt(s, t, p)
    {
      assert t[4 * i] == b[4 * i] && t[4 * i + 1] == b[4 * i + 1] && t[4 * i + 2] == b[4 * i + 2] && t[4 * i + 3] == b[4 * i + 3];
      PairZetas(i);
      Basemul(r, a, b, 4 * i, Zeta(64 + i));
      Basemul(r, a, b, 4 * i + 2, -Zeta(64 + i));
      i := i + 1;
    }
  }

  lemma PairZetas(i: nat)
    requires i < 64
    ensures PairZeta(2 * i) == Zeta(64 + i) && PairZeta(2 * i + 1) == -Zeta(64 + i)
  {
    hide Zeta;
  }

  // ---- What the product computes ----

  lemma PairZetaValue(i: nat)
    requires i < 128
    ensures Cong(PairZeta(i) * MONT_R_INV, Modulus(128 + i))
  {
    hide Zeta, ZetaVal;
    ZetaFacts(64 + i / 2);
  }

  lemma FqmulPairZeta(i: nat, x: int16)
    requires i < 128
    ensures -Q < FqmulTwiddle(PairZeta(i), x) < Q && Cong(FqmulTwiddle(PairZeta(i), x), Modulus(128 + i) * x)
  {
    hide Zeta, MontgomeryReduce, PairZeta, Modulus, Cong;
    var z := PairZeta(i);
    FqmulTwiddleIs(z, x);
    MontgomeryReduceCorrect(z * x);
    PairZetaValue(i);
    CongScale(x, z * MONT_R_INV, Modulus(128 + i));
    Associate(z, x, MONT_R_INV);
    Exchange(x, z, MONT_R_INV);
    CongTrans(FqmulTwiddle(z, x), x * (z * MONT_R_INV), x * Modulus(128 + i));
  }

  lemma BasemulLowCorrect(a0: int16, a1: int16, b0: int, b1: int, i: nat)
    requires -3328 <= b0 <= 3328 && -3328 <= b1 <= 3328 && i < 128
    ensures var r, c := BasemulLow(a0, a1, b0, b1, PairZeta(i)), Modulus(128 + i);
            -6656 <= r <= 6656 && Cong(r, MONT_R_INV * (a0 * b0 + c * (a1 * b1)))
  {
    hide Cong, Modulus, PairZeta, FqmulReduced, FqmulTwiddle, ToInt16;
    var c, u, v := Modulus(128 + i), FqmulReduced(a1, b1), FqmulReduced(a0, b0);
    var w := FqmulTwiddle(PairZeta(i), u);
    FqmulReducedCorrect(a1, b1);
    FqmulReducedCorrect(a0, b0);
    FqmulPairZeta(i, u);
    CongScale(c, u, a1 * b1 * MONT_R_INV);
    CongTrans(w, c * u, c * (a1 * b1 * MONT_R_INV));
    CongAdd(w, c * (a1 * b1 * MONT_R_INV), v, a0 * b0 * MONT_R_INV);
    PullFactor(c, a0 * b0, a1 * b1);
  }

  lemma PullFactor(c: int, x: int, y: int)
    ensures c * (y * MONT_R_INV) + x * MONT_R_INV == MONT_R_INV * (x + c * y)
  {
    Associate(c, y, MONT_R_INV);
  }

  lemma BasemulHighCorrect(a0: int16, a1: int16, b0: int, b1: int)
    requires -3328 <= b0 <= 3328 && -3328 <= b1 <= 3328
    ensures var r := BasemulHigh(a0, a1, b0, b1);
            -6656 <= r <= 6656 && Cong(r, MONT_R_INV * (a0 * b1 + a1 * b0))
  {
    hide Cong, FqmulReduced, ToInt16;
    var u, v := FqmulReduced(a0, b1), FqmulReduced(a1, b0);
    FqmulReducedCorrect(a0, b1);
    FqmulReducedCorrect(a1, b0);
    CongAdd(u, a0 * b1 * MONT_R_INV, v, a1 * b0 * MONT_R_INV);
    PullFactor(1, a0 * b1, a1 * b0);
  }

  /** The products of transformed polynomials, pair by pair, times R^-1; each coefficient stays within 2q. */
  lemma BasemulCorrect(a: seq<int16>, b: seq<int16>)
    requires |a| == |b| == 256 && Bounded(b, 3328)
    ensures Bounded(BasemulSpec(a, b), 6656)
    ensures CongSeq(BasemulSpec(a, b), Scale(MONT_R_INV, PointMul(a, b)))
  {
    hide Cong, BasemulLow, BasemulHigh, PairZeta, Modulus, PointMul;
    forall p | 0 <= p < 256
      ensures -6656 <= BasemulSpec(a, b)[p] <= 6656
      ensures Cong(BasemulSpec(a, b)[p], Scale(MONT_R_INV, PointMul(a, b))[p])
    {
      var i := p / 2;
      PointMulAt(a, b, i);
      if p == 2 * i {
        BasemulLowCorrect(a[p], a[p + 1], b[p], b[p + 1], i);
      } else {
        assert p == 2 * i + 1;
        BasemulHighCorrect(a[p - 1], a[p], b[p - 1], b[p]);
      }
    }
  }
}
