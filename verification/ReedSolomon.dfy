/** Reed-Solomon error correction of qrcodegen.c. Polynomials are byte sequences, highest power first. */
module ReedSolomon {
  import opened GF256

  // ---- Polynomials over the field ----

  function Zeros(n: nat): (r: seq<bv8>)
    ensures |r| == n
  {
    seq(n, i => 0)
  }

  function Xor(p: seq<bv8>, r: seq<bv8>): (s: seq<bv8>)
    requires |p| == |r|
    ensures |s| == |p|
  {
    seq(|p|, i requires 0 <= i < |p| => Add(p[i], r[i]))
  }

  function Scale(p: seq<bv8>, c: bv8): (s: seq<bv8>)
    ensures |s| == |p|
  {
    seq(|p|, i requires 0 <= i < |p| => Mul(p[i], c))
  }

  /** The value at x. */
  ghost function Eval(p: seq<bv8>, x: bv8): bv8 {
    if p == [] then 0 else Add(Mul(Eval(p[..|p| - 1], x), x), p[|p| - 1])
  }

  /** The product of two polynomials, the second not empty. */
  ghost function PolyMul(q: seq<bv8>, g: seq<bv8>): (r: seq<bv8>)
    requires |g| > 0
    ensures |r| == |q| + |g| - 1
  {
    if q == [] then Zeros(|g| - 1)
    else Xor(PolyMul(q[..|q| - 1], g) + [0], Zeros(|q| - 1) + Scale(g, q[|q| - 1]))
  }

  function Power(x: bv8, n: nat): bv8 {
    if n == 0 then 1 else Mul(Power(x, n - 1), x)
  }

  /** The i-th power of 2, a generator of the field. */
  function Root(i: nat): bv8 {
    Power(2, i)
  }

  /** (x - r^0) (x - r^1) ... (x - r^(n - 1)). */
  ghost function RootProduct(x: bv8, n: nat): bv8 {
    if n == 0 then 1 else Mul(RootProduct(x, n - 1), Add(x, Root(n - 1)))
  }

  // ---- Evaluation is a ring homomorphism ----

  lemma {:induction false} EvalZeros(n: nat, x: bv8)
    ensures Eval(Zeros(n), x) == 0
  {
    hide Mul, Add;
    if n > 0 {
      assert Zeros(n)[..n - 1] == Zeros(n - 1);
      EvalZeros(n - 1, x);
      MulZeroLeft(x);
      AddZero(0);
    }
  }

  lemma EvalSnoc(p: seq<bv8>, c: bv8, x: bv8)
    ensures Eval(p + [c], x) == Add(Mul(Eval(p, x), x), c)
  {
    assert (p + [c])[..|p|] == p;
  }

  lemma {:induction false} EvalXor(p: seq<bv8>, r: seq<bv8>, x: bv8)
    requires |p| == |r|
    ensures Eval(Xor(p, r), x) == Add(Eval(p, x), Eval(r, x))
  {
    hide Mul, Add;
    if p == [] {
      AddZero(0);
    } else {
      var n := |p| - 1;
      EvalXor(p[..n], r[..n], x);
      assert Xor(p, r)[..n] == Xor(p[..n], r[..n]);
      MulAddLeft(Eval(p[..n], x), Eval(r[..n], x), x);
      AddExchange(Mul(Eval(p[..n], x), x), Mul(Eval(r[..n], x), x), p[n], r[n]);
    }
  }

  /** (u v) w = (u w) v. */
  lemma MulSwap(u: bv8, v: bv8, w: bv8)
    ensures Mul(Mul(u, v), w) == Mul(Mul(u, w), v)
  {
    hide *;
    MulAssociative(u, v, w);
    MulCommutative(v, w);
    MulAssociative(u, w, v);
  }

  lemma {:induction false} EvalScale(p: seq<bv8>, c: bv8, x: bv8)
    ensures Eval(Scale(p, c), x) == Mul(Eval(p, x), c)
  {
    hide Mul, Add;
    if p == [] {
      MulZeroLeft(c);
    } else {
      var n := |p| - 1;
      EvalScale(p[..n], c, x);
      assert Scale(p, c)[..n] == Scale(p[..n], c);
      MulSwap(Eval(p[..n], x), c, x);
      MulAddLeft(Mul(Eval(p[..n], x), x), p[n], c);
    }
  }

  lemma {:induction false} EvalHead(a: bv8, p: seq<bv8>, x: bv8)
    ensures Eval([a] + p, x) == Add(Mul(a, Power(x, |p|)), Eval(p, x))
  {
    hide Mul, Add;
    if p == [] {
      assert [a] + p == [] + [a];
      EvalSnoc([], a, x);
      MulZeroLeft(x);
      MulCommutative(a, 1);
      MulOne(a);
      AddZero(a);
    } else {
      var n := |p| - 1;
      EvalHead(a, p[..n], x);
      assert ([a] + p)[..n + 1] == [a] + p[..n];
      var u, v := Mul(a, Power(x, n)), Eval(p[..n], x);
      MulAddLeft(u, v, x);
      MulAssociative(a, Power(x, n), x);
      AddAssociative(Mul(u, x), Mul(v, x), p[n]);
    }
  }

  lemma {:induction false} EvalShift(n: nat, p: seq<bv8>, x: bv8)
    ensures Eval(Zeros(n) + p, x) == Eval(p, x)
  {
    hide Mul, Add;
    if p == [] {
      assert Zeros(n) + p == Zeros(n);
      EvalZeros(n, x);
    } else {
      EvalShift(n, p[..|p| - 1], x);
      assert (Zeros(n) + p)[..n + |p| - 1] == Zeros(n) + p[..|p| - 1];
    }
  }

  lemma {:induction false} EvalPolyMul(q: seq<bv8>, g: seq<bv8>, x: bv8)
    requires |g| > 0
    ensures Eval(PolyMul(q, g), x) == Mul(Eval(q, x), Eval(g, x))
  {
    hide Mul, Add, Xor, Scale, Zeros;
    if q == [] {
      EvalZeros(|g| - 1, x);
      MulZeroLeft(Eval(g, x));
    } else {
      var n := |q| - 1;
      var r, c := PolyMul(q[..n], g), q[n];
      EvalPolyMul(q[..n], g, x);
      EvalXor(r + [0], Zeros(n) + Scale(g, c), x);
      EvalSnoc(r, 0, x);
      AddZero(Mul(Eval(r, x), x));
      EvalShift(n, Scale(g, c), x);
      EvalScale(g, c, x);
      var u, v := Eval(q[..n], x), Eval(g, x);
      MulSwap(u, v, x);
      MulCommutative(v, c);
      MulAddLeft(Mul(u, x), c, v);
    }
  }

  // ---- The generator polynomial ----

  function DivisorStep(r: seq<bv8>, root: bv8): (s: seq<bv8>)
    ensures |s| == |r|
  {
    seq(|r|, j requires 0 <= j < |r| => Add(Mul(r[j], root), if j + 1 < |r| then r[j + 1] else 0))
  }

  function DivisorSteps(degree: nat, i: nat): (r: seq<bv8>)
    requires degree > 0
    ensures |r| == degree
  {
    if i == 0 then Zeros(degree - 1) + [1] else DivisorStep(DivisorSteps(degree, i - 1), Root(i - 1))
  }

  /** The generator polynomial of the given degree without its leading one. */
  function Divisor(degree: nat): (r: seq<bv8>)
    requires degree > 0
    ensures |r| == degree
  {
    DivisorSteps(degree, degree)
  }

  /** reedSolomonComputeDivisor. */
  method ComputeDivisor(degree: nat, result: array<bv8>)
    requires 1 <= degree <= 30 && degree <= result.Length
    modifies result
    ensures result[..] == Divisor(degree) + old(result[degree..])
  {
    hide Mul, Add, Power, DivisorStep;
    ghost var was := result[..];
    for i := 0 to degree
      invariant forall j :: 0 <= j < result.Length ==> result[j] == if j < i then 0 else was[j]
    {
      result[i] := 0;
    }
    result[degree - 1] := 1;
    var root: bv8 := 1;
    RootNext(0);
    assert result[..degree] == DivisorSteps(degree, 0);
    for i := 0 to degree
      invariant result[..degree] == DivisorSteps(degree, i) && result[degree..] == was[degree..]
      invariant root == Root(i)
    {
      ghost var r := result[..];
      for j := 0 to degree
        invariant forall k :: 0 <= k < result.Length ==> result[k] == if k < j then DivisorStep(r[..degree], root)[k] else r[k]
      {
        DivisorStepAt(r[..degree], root, j);
        result[j] := ReedSolomonMultiply(result[j], root);
        if j + 1 < degree {
          result[j] := Add(result[j], result[j + 1]);
        }
      }
      root := ReedSolomonMultiply(root, 2);
      RootNext(i);
    }
  }

  lemma DivisorStepAt(r: seq<bv8>, root: bv8, j: nat)
    requires j < |r|
    ensures DivisorStep(r, root)[j] == if j + 1 < |r| then Add(Mul(r[j], root), r[j + 1]) else Mul(r[j], root)
  {
    hide Mul, Add;
    AddZero(Mul(r[j], root));
  }

  lemma RootNext(i: nat)
    ensures Root(i + 1) == Mul(Root(i), 2) && Root(0) == 1
  {
    hide Mul;
  }

  /** One step multiplies the polynomial by (x - root); its leading coefficient is shifted out. */
  lemma DivisorStepEval(r: seq<bv8>, c: bv8, x: bv8)
    requires |r| > 0
    ensures Eval(DivisorStep(r, c), x) == Add(Mul(Eval(r, x), Add(x, c)), Mul(r[0], Power(x, |r|)))
  {
    hide Mul, Add, Eval, Power;
    var n := |r|;
    var e, t := Eval(r, x), r[1..];
    assert DivisorStep(r, c) == Xor(Scale(r, c), t + [0]);
    EvalXor(Scale(r, c), t + [0], x);
    EvalScale(r, c, x);
    EvalSnoc(t, 0, x);
    AddZero(Mul(Eval(t, x), x));
    assert r == [r[0]] + t;
    EvalHead(r[0], t, x);
    PowerNext(x, n - 1);
    hide Xor, Scale, DivisorStep;
    DivisorAlgebra(e, Mul(r[0], Power(x, n - 1)), Eval(t, x), x, c);
    MulAssociative(r[0], Power(x, n - 1), x);
  }

  lemma PowerNext(x: bv8, n: nat)
    ensures Power(x, n + 1) == Mul(Power(x, n), x)
  {
  }

  lemma DivisorAlgebra(e: bv8, h: bv8, t: bv8, x: bv8, c: bv8)
    requires e == Add(h, t)
    ensures Add(Mul(e, c), Mul(t, x)) == Add(Mul(e, Add(x, c)), Mul(h, x))
  {
    hide *;
    AddSelf(h);
    AddAssociative(h, h, t);
    AddZero(t);
    MulAddLeft(h, e, x);
    MulAddRight(e, x, c);
    AddCommutative(Mul(h, x), Mul(e, x));
    AddAssociative(Mul(e, c), Mul(e, x), Mul(h, x));
    AddCommutative(Mul(e, c), Mul(e, x));
  }

  /** The partial products are monic of degree i, so nothing is lost before the last step. */
  lemma {:induction false} DivisorShape(degree: nat, i: nat)
    requires i < degree
    ensures DivisorSteps(degree, i)[degree - 1 - i] == 1
    ensures forall j :: 0 <= j < degree - 1 - i ==> DivisorSteps(degree, i)[j] == 0
  {
    hide Mul, Add, Power, DivisorStep, Root;
    if i > 0 {
      DivisorShape(degree, i - 1);
      var r, c := DivisorSteps(degree, i - 1), Root(i - 1);
      MulZeroLeft(c);
      AddZero(0);
      AddZero(1);
      DivisorStepAt(r, c, degree - 1 - i);
      forall j | 0 <= j < degree - 1 - i ensures DivisorStep(r, c)[j] == 0 { DivisorStepAt(r, c, j); }
    }
  }

  lemma {:induction false} PartialProduct(degree: nat, i: nat, x: bv8)
    requires i < degree
    ensures Eval(DivisorSteps(degree, i), x) == RootProduct(x, i)
  {
    hide Mul, Add, Power, DivisorStep, Eval;
    if i == 0 {
      EvalSnoc(Zeros(degree - 1), 1, x);
      EvalZeros(degree - 1, x);
      MulZeroLeft(x);
      AddZero(1);
    } else {
      PartialProduct(degree, i - 1, x);
      DivisorShape(degree, i - 1);
      var r := DivisorSteps(degree, i - 1);
      DivisorStepEval(r, Root(i - 1), x);
      MulZeroLeft(Power(x, degree));
      AddZero(Mul(Eval(r, x), Add(x, Root(i - 1))));
    }
  }

  /** The computed divisor with its leading one is (x - 2^0) (x - 2^1) ... (x - 2^(degree - 1)), at every x. */
  lemma DivisorIsProduct(degree: nat, x: bv8)
    requires degree > 0
    ensures Eval([1] + Divisor(degree), x) == RootProduct(x, degree)
  {
    hide Mul, Add, Power, DivisorStep, Eval;
    var r, d := DivisorSteps(degree, degree - 1), Divisor(degree);
    PartialProduct(degree, degree - 1, x);
    DivisorShape(degree, degree - 1);
    DivisorStepEval(r, Root(degree - 1), x);
    EvalHead(1, d, x);
    var p, m := Mul(1, Power(x, degree)), RootProduct(x, degree);
    AddCommutative(m, p);
    AddAssociative(p, p, m);
    AddSelf(p);
    AddZero(m);
  }

  lemma {:induction false} RootVanishes(k: nat, n: nat)
    requires k < n
    ensures RootProduct(Root(k), n) == 0
  {
    hide Mul, Add, Power;
    if k == n - 1 {
      AddSelf(Root(k));
      MulZero(RootProduct(Root(k), n - 1));
    } else {
      RootVanishes(k, n - 1);
      MulZeroLeft(Add(Root(k), Root(n - 1)));
    }
  }

  // ---- Division ----

  /** Brings down the next data byte b: the new leading coefficient is cancelled by a multiple of the divisor. */
  function RemainderStep(r: seq<bv8>, b: bv8, gen: seq<bv8>): (s: seq<bv8>)
    requires |r| == |gen| > 0
    ensures |s| == |r|
  {
    Xor(r[1..] + [0], Scale(gen, Add(b, r[0])))
  }

  function Remainder(data: seq<bv8>, gen: seq<bv8>): (r: seq<bv8>)
    requires |gen| > 0
    ensures |r| == |gen|
  {
    if data == [] then Zeros(|gen|) else RemainderStep(Remainder(data[..|data| - 1], gen), data[|data| - 1], gen)
  }

  ghost function Quotient(data: seq<bv8>, gen: seq<bv8>): (q: seq<bv8>)
    requires |gen| > 0
    ensures |q| == |data|
  {
    if data == [] then []
    else Quotient(data[..|data| - 1], gen) + [Add(data[|data| - 1], Remainder(data[..|data| - 1], gen)[0])]
  }

  /**
   reedSolomonComputeRemainder. Data and result may be stretches of one array, as in addEccAndInterleave,
   as long as they do not overlap.
   */
  method ComputeRemainder(data: array<bv8>, from: nat, dataLen: nat, generator: array<bv8>, degree: nat, result: array<bv8>, at: nat)
    requires 1 <= degree <= 30 && degree <= generator.Length
    requires from + dataLen <= data.Length && at + degree <= result.Length
    requires generator != result && generator != data
    requires data == result ==> from + dataLen <= at || at + degree <= from
    modifies result
    ensures result[at..at + degree] == Remainder(old(data[from..from + dataLen]), generator[..degree])
    ensures result[..at] == old(result[..at]) && result[at + degree..] == old(result[at + degree..])
  {
    hide Mul, Add, RemainderStep;
    ghost var was, gen, dat := result[..], generator[..degree], data[from..from + dataLen];
    for i := 0 to degree
      invariant forall j :: 0 <= j < result.Length ==> result[j] == if at <= j < at + i then 0 else was[j]
    {
      result[at + i] := 0;
    }
    assert result[at..at + degree] == Zeros(degree);
    for i := 0 to dataLen
      invariant result[at..at + degree] == Remainder(dat[..i], gen)
      invariant result[..at] == was[..at] && result[at + degree..] == was[at + degree..]
    {
      assert data[from + i] == dat[i] by {
        if data == result {
          if from + i < at { assert result[from + i] == result[..at][from + i]; }
          else { assert result[from + i] == result[at + degree..][from + i - at - degree]; }
        }
      }
      BringDown(data[from + i], generator, degree, result, at);
      assert dat[..i + 1][..i] == dat[..i];
    }
    assert dat[..dataLen] == dat;
  }

  /** One round of the division. */
  method BringDown(b: bv8, generator: array<bv8>, degree: nat, result: array<bv8>, at: nat)
    requires 1 <= degree <= generator.Length && at + degree <= result.Length && generator != result
    modifies result
    ensures result[at..at + degree] == RemainderStep(old(result[at..at + degree]), b, generator[..degree])
    ensures result[..at] == old(result[..at]) && result[at + degree..] == old(result[at + degree..])
  {
    hide Mul, Add, Xor, Scale;
    ghost var r := result[at..at + degree];
    var factor := Add(b, result[at]);
    ShiftLeft(result, at, degree);
    result[at + degree - 1] := 0;
    assert result[at..at + degree] == r[1..] + [0];
    AddMultiple(generator, degree, factor, result, at);
  }

  method AddMultiple(generator: array<bv8>, degree: nat, factor: bv8, result: array<bv8>, at: nat)
    requires degree <= generator.Length && at + degree <= result.Length && generator != result
    modifies result
    ensures result[at..at + degree] == Xor(old(result[at..at + degree]), Scale(generator[..degree], factor))
    ensures result[..at] == old(result[..at]) && result[at + degree..] == old(result[at + degree..])
  {
    hide Mul, Add;
    for j := 0 to degree
      invariant forall k :: 0 <= k < result.Length ==>
        result[k] == if at <= k < at + j then Add(old(result[k]), Mul(generator[k - at], factor)) else old(result[k])
    {
      var m := ReedSolomonMultiply(generator[j], factor);
      result[at + j] := Add(result[at + j], m);
    }
  }

  /** memmove by one place to the left. */
  method ShiftLeft(result: array<bv8>, at: nat, degree: nat)
    requires degree > 0 && at + degree <= result.Length
    modifies result
    ensures forall k :: 0 <= k < result.Length ==>
      result[k] == if at <= k < at + degree - 1 then old(result[k + 1]) else old(result[k])
  {
    for i := 0 to degree - 1
      invariant forall k :: 0 <= k < result.Length ==> result[k] == if at <= k < at + i then old(result[k + 1]) else old(result[k])
    {
      result[at + i] := result[at + i + 1];
    }
  }

  lemma DivisionStart(data: seq<bv8>, gen: seq<bv8>)
    requires |gen| > 0 && |data| == 0
    ensures data + Remainder(data, gen) == PolyMul(Quotient(data, gen), [1] + gen)
  {
  }

  /** One more byte of data: a step of the remainder, and one more coefficient of the quotient. */
  lemma DivisionNext(d: seq<bv8>, b: bv8, gen: seq<bv8>)
    requires |gen| > 0
    ensures Remainder(d + [b], gen) == RemainderStep(Remainder(d, gen), b, gen)
    ensures var f := Add(b, Remainder(d, gen)[0]);
            PolyMul(Quotient(d + [b], gen), [1] + gen) == Xor(PolyMul(Quotient(d, gen), [1] + gen) + [0], Zeros(|d|) + Scale([1] + gen, f))
  {
    hide Add, RemainderStep, Scale, Xor;
    assert (d + [b])[..|d|] == d;
    var q, f := Quotient(d, gen), Add(b, Remainder(d, gen)[0]);
    assert Quotient(d + [b], gen) == q + [f];
    assert (q + [f])[..|q|] == q;
  }

  /** Data followed by its remainder is a multiple of the divisor: the loop is polynomial long division. */
  lemma {:induction false} DivisionTheorem(data: seq<bv8>, gen: seq<bv8>)
    requires |gen| > 0
    ensures data + Remainder(data, gen) == PolyMul(Quotient(data, gen), [1] + gen)
  {
    hide *;
    if |data| == 0 {
      DivisionStart(data, gen);
    } else {
      var d, b := data[..|data| - 1], data[|data| - 1];
      DivisionTheorem(d, gen);
      DivisionNext(d, b, gen);
      DivisionStep(d, Remainder(d, gen), b, gen);
      assert data == d + [b];
    }
  }

  lemma DivisionStep(d: seq<bv8>, r: seq<bv8>, b: bv8, gen: seq<bv8>)
    requires |r| == |gen| > 0
    ensures d + [b] + RemainderStep(r, b, gen) == Xor(d + r + [0], Zeros(|d|) + Scale([1] + gen, Add(b, r[0])))
  {
    var f, n := Add(b, r[0]), |d|;
    var left, right := d + [b] + RemainderStep(r, b, gen), Xor(d + r + [0], Zeros(n) + Scale([1] + gen, f));
    MulOne(f);
    AddCommutative(b, r[0]);
    AddAssociative(r[0], r[0], b);
    AddSelf(r[0]);
    AddZero(b);
    hide Mul, Add;
    assert right[n] == Add(r[0], Mul(1, f));
    forall i | 0 <= i < |left| ensures left[i] == right[i] {
      if i < n {
        AddZero(d[i]);
        assert right[i] == Add(d[i], 0);
      } else if i > n {
        assert (r[1..] + [0])[i - n - 1] == (d + r + [0])[i];
      }
    }
  }

  /** Every codeword block vanishes at 2^0, ..., 2^(degree - 1). */
  lemma CodewordVanishes(data: seq<bv8>, degree: nat, k: nat)
    requires k < degree
    ensures Eval(data + Remainder(data, Divisor(degree)), Root(k)) == 0
  {
    hide *;
    var gen := Divisor(degree);
    DivisionTheorem(data, gen);
    EvalPolyMul(Quotient(data, gen), [1] + gen, Root(k));
    DivisorIsProduct(degree, Root(k));
    RootVanishes(k, degree);
    MulZero(Eval(Quotient(data, gen), Root(k)));
  }

  /** The error correction bytes are the only ones that make a multiple of the divisor. */
  lemma RemainderUnique(data: seq<bv8>, ecc: seq<bv8>, gen: seq<bv8>, q: seq<bv8>)
    requires |ecc| == |gen| > 0 && |q| == |data|
    requires data + ecc == PolyMul(q, [1] + gen)
    ensures ecc == Remainder(data, gen)
  {
    hide PolyMul, Remainder, Quotient;
    DivisionTheorem(data, gen);
    var p := Quotient(data, gen);
    assert PolyMul(q, [1] + gen)[..|data|] == data == PolyMul(p, [1] + gen)[..|data|];
    LeadingCoefficients(q, p, gen);
    assert (data + ecc)[|data|..] == ecc && (data + Remainder(data, gen))[|data|..] == Remainder(data, gen);
  }

  lemma {:induction false} LeadingCoefficients(q: seq<bv8>, p: seq<bv8>, gen: seq<bv8>)
    requires |q| == |p| && |gen| > 0
    requires PolyMul(q, [1] + gen)[..|q|] == PolyMul(p, [1] + gen)[..|q|]
    ensures q == p
  {
    if q != [] {
      var n := |q| - 1;
      var u, v := PolyMul(q[..n], [1] + gen), PolyMul(p[..n], [1] + gen);
      LeadingStep(q, gen);
      LeadingStep(p, gen);
      assert u[..n] == PolyMul(q, [1] + gen)[..n + 1][..n] == v[..n];
      LeadingCoefficients(q[..n], p[..n], gen);
      assert PolyMul(q, [1] + gen)[n] == PolyMul(q, [1] + gen)[..n + 1][n];
      AddCancel(u[n], q[n], p[n]);
      assert q == q[..n] + [q[n]] && p == p[..n] + [p[n]];
    }
  }

  lemma LeadingStep(q: seq<bv8>, gen: seq<bv8>)
    requires |q| > 0 && |gen| > 0
    ensures var n := |q| - 1;
            var u := PolyMul(q[..n], [1] + gen);
            && PolyMul(q, [1] + gen)[..n] == u[..n]
            && PolyMul(q, [1] + gen)[n] == Add(u[n], q[n])
  {
    var n := |q| - 1;
    var u, g := PolyMul(q[..n], [1] + gen), [1] + gen;
    assert PolyMul(q, g) == Xor(u + [0], Zeros(n) + Scale(g, q[n]));
    hide PolyMul;
    LeadingXor(u, gen, n, q[n]);
  }

  lemma LeadingXor(u: seq<bv8>, gen: seq<bv8>, n: nat, c: bv8)
    requires |gen| > 0 && |u| == n + |gen|
    ensures Xor(u + [0], Zeros(n) + Scale([1] + gen, c))[..n] == u[..n]
    ensures Xor(u + [0], Zeros(n) + Scale([1] + gen, c))[n] == Add(u[n], c)
  {
    var z := Zeros(n) + Scale([1] + gen, c);
    MulOne(c);
    hide Mul, Add;
    assert z[n] == Mul(1, c);
    forall i | 0 <= i < n ensures Xor(u + [0], z)[i] == u[i] { AddZero(u[i]); }
  }

  lemma AddCancel(u: bv8, a: bv8, b: bv8)
    requires Add(u, a) == Add(u, b)
    ensures a == b
  {
    AddAssociative(u, u, a);
    AddAssociative(u, u, b);
    AddSelf(u);
    AddZero(a);
    AddZero(b);
  }

  // ---- A word that vanishes at all roots ----

  lemma MulTwo(x: bv8)
    ensures Mul(x, 2) == Double(x)
  {
    assert Double(1) == 2;
    MulDoubleRight(x, 1);
    MulCommutative(x, 1);
    MulOne(x);
  }

  function RootValue(i: nat): bv8
    requires i < 30
  {
    match i
    case 0 => 1 case 1 => 2 case 2 => 4 case 3 => 8 case 4 => 16 case 5 => 32 case 6 => 64 case 7 => 128
    case 8 => 29 case 9 => 58 case 10 => 116 case 11 => 232 case 12 => 205 case 13 => 135 case 14 => 19
    case 15 => 38 case 16 => 76 case 17 => 152 case 18 => 45 case 19 => 90 case 20 => 180 case 21 => 117
    case 22 => 234 case 23 => 201 case 24 => 143 case 25 => 3 case 26 => 6 case 27 => 12 case 28 => 24
    case _ => 48
  }

  lemma RootValueNext(i: nat)
    requires i < 29
    ensures RootValue(i + 1) == Double(RootValue(i)) != 1
  {
    match i
    case 0 => case 1 => case 2 => case 3 => case 4 => case 5 => case 6 => case 7 => case 8 => case 9 =>
    case 10 => case 11 => case 12 => case 13 => case 14 => case 15 => case 16 => case 17 => case 18 => case 19 =>
    case 20 => case 21 => case 22 => case 23 => case 24 => case 25 => case 26 => case 27 => case _ =>
  }

  lemma {:induction false} RootIsValue(i: nat)
    requires i < 30
    ensures Root(i) == RootValue(i) && (i > 0 ==> Root(i) != 1)
  {
    hide Mul, Double, RootValue, Root;
    if i == 0 {
      RootNext(0);
      assert RootValue(0) == 1 by { RootValueStart(); }
    } else {
      RootIsValue(i - 1);
      RootNext(i - 1);
      MulTwo(Root(i - 1));
      RootValueNext(i - 1);
    }
  }

  lemma RootValueStart()
    ensures RootValue(0) == 1
  {
  }

  lemma {:induction false} RootSum(i: nat, d: nat)
    ensures Root(i + d) == Mul(Root(i), Root(d))
  {
    hide *;
    RootNext(0);
    if d == 0 {
      MulCommutative(Root(i), 1);
      MulOne(Root(i));
    } else {
      RootSum(i, d - 1);
      RootNext(i + d - 1);
      RootNext(d - 1);
      MulAssociative(Root(i), Root(d - 1), 2);
    }
  }

  lemma {:induction false} RootNonZero(i: nat)
    ensures Root(i) != 0
  {
    hide *;
    RootNext(0);
    if i > 0 {
      RootNonZero(i - 1);
      RootNext(i - 1);
      if Mul(Root(i - 1), 2) == 0 { NoZeroDivisors(Root(i - 1), 2); }
    }
  }

  lemma AddCancels(a: bv8, b: bv8)
    requires Add(a, b) == 0
    ensures a == b
  {
  }

  /** The first thirty powers of 2 are distinct. */
  lemma RootsDistinct(i: nat, j: nat)
    requires i < j < 30
    ensures Add(Root(i), Root(j)) != 0
  {
    hide *;
    var a, c := Root(i), Root(j - i);
    RootSum(i, j - i);
    RootIsValue(j - i);
    RootNonZero(i);
    if Add(a, Root(j)) == 0 {
      MulCommutative(a, 1);
      MulOne(a);
      MulAddRight(a, 1, c);
      NoZeroDivisors(a, Add(1, c));
      AddCancels(1, c);
    }
  }

  /** The quotient of p by (x - a), by Horner's rule. */
  ghost function Horner(p: seq<bv8>, a: bv8): (q: seq<bv8>)
    requires |p| > 0
    ensures |q| == |p| - 1
  {
    seq(|p| - 1, i requires 0 <= i < |p| - 1 => Eval(p[..i + 1], a))
  }

  lemma HornerSnoc(p: seq<bv8>, a: bv8)
    requires |p| > 1
    ensures Horner(p, a) == Horner(p[..|p| - 1], a) + [Eval(p[..|p| - 1], a)]
  {
    hide Eval;
    var q, n := p[..|p| - 1], |p| - 1;
    forall i | 0 <= i < n ensures Horner(p, a)[i] == (Horner(q, a) + [Eval(q, a)])[i] {
      assert q[..i + 1] == p[..i + 1];
    }
  }

  /** p(x) = q(x) (x - a) + p(a). */
  lemma {:induction false} HornerDivides(p: seq<bv8>, a: bv8, x: bv8)
    requires |p| > 0
    ensures Eval(p, x) == Add(Mul(Eval(Horner(p, a), x), Add(x, a)), Eval(p, a))
  {
    hide Mul, Add;
    if |p| == 1 {
      assert p == [] + [p[0]];
      EvalSnoc([], p[0], x);
      EvalSnoc([], p[0], a);
      MulZeroLeft(x);
      MulZeroLeft(a);
      MulZeroLeft(Add(x, a));
      AddZero(p[0]);
      AddZero(0);
    } else {
      hide Eval, Horner;
      var q, c := p[..|p| - 1], p[|p| - 1];
      assert p == q + [c];
      HornerDivides(q, a, x);
      HornerSnoc(p, a);
      EvalSnoc(q, c, x);
      EvalSnoc(q, c, a);
      EvalSnoc(Horner(q, a), Eval(q, a), x);
      HornerAlgebra(Eval(Horner(q, a), x), Eval(q, a), x, a, c);
    }
  }

  lemma HornerAlgebra(e: bv8, t: bv8, x: bv8, a: bv8, c: bv8)
    ensures Add(Mul(Add(Mul(e, Add(x, a)), t), x), c) == Add(Mul(Add(Mul(e, x), t), Add(x, a)), Add(Mul(t, a), c))
  {
    hide *;
    var s := Add(x, a);
    MulAddLeft(Mul(e, s), t, x);
    MulSwap(e, s, x);
    MulAddLeft(Mul(e, x), t, s);
    MulAddRight(t, x, a);
    SumAlgebra(Mul(Mul(e, x), s), Mul(t, x), Mul(t, a), c);
  }

  lemma SumAlgebra(u: bv8, v: bv8, w: bv8, c: bv8)
    ensures Add(Add(u, v), c) == Add(Add(u, Add(v, w)), Add(w, c))
  {
  }

  /** A polynomial is zero if all the values met by Horner's rule are. */
  lemma HornerZero(p: seq<bv8>, a: bv8)
    requires |p| > 0 && Eval(p, a) == 0 && Horner(p, a) == Zeros(|p| - 1)
    ensures p == Zeros(|p|)
  {
    forall i | 0 <= i < |p| ensures p[i] == 0 {
      HornerValue(p, a, i);
      HornerValue(p, a, i + 1);
      assert p[..i + 1] == p[..i] + [p[i]];
      EvalSnoc(p[..i], p[i], a);
      hide Mul, Add, Eval;
      MulZeroLeft(a);
      AddZero(p[i]);
    }
  }

  lemma HornerValue(p: seq<bv8>, a: bv8, i: nat)
    requires |p| > 0 && Eval(p, a) == 0 && Horner(p, a) == Zeros(|p| - 1) && i <= |p|
    ensures Eval(p[..i], a) == 0
  {
    if 0 < i < |p| {
      assert Horner(p, a)[i - 1] == 0;
    } else if i == |p| {
      assert p[..i] == p;
    }
  }

  /** A polynomial with n coefficients that vanishes at n of the roots is zero. */
  lemma {:induction false} VanishesEverywhere(p: seq<bv8>)
    requires |p| <= 30 && forall k :: 0 <= k < |p| ==> Eval(p, Root(k)) == 0
    ensures p == Zeros(|p|)
    decreases |p|
  {
    hide Eval, Root, Mul, Add, Horner;
    if |p| > 0 {
      var n := |p| - 1;
      var a := Root(n);
      var q := Horner(p, a);
      forall k | 0 <= k < n ensures Eval(q, Root(k)) == 0 {
        HornerDivides(p, a, Root(k));
        AddZero(Mul(Eval(q, Root(k)), Add(Root(k), a)));
        RootsDistinct(k, n);
        NoZeroDivisors(Eval(q, Root(k)), Add(Root(k), a));
      }
      VanishesEverywhere(q);
      HornerZero(p, a);
    }
  }

  lemma XorCompletions(data: seq<bv8>, u: seq<bv8>, v: seq<bv8>)
    requires |u| == |v|
    ensures Xor(data + u, data + v) == Zeros(|data|) + Xor(u, v)
  {
    forall i | 0 <= i < |data| ensures Add(data[i], data[i]) == 0 { AddSelf(data[i]); }
    hide Add;
  }

  lemma XorZero(u: seq<bv8>, v: seq<bv8>)
    requires |u| == |v| && Xor(u, v) == Zeros(|u|)
    ensures u == v
  {
    forall i | 0 <= i < |u| ensures u[i] == v[i] {
      assert Xor(u, v)[i] == 0;
      AddCancels(u[i], v[i]);
    }
  }

  /** Of all completions of the data by `degree` bytes only the remainder vanishes at 2^0, ..., 2^(degree - 1). */
  lemma OnlyCompletion(data: seq<bv8>, ecc: seq<bv8>, degree: nat)
    requires 1 <= degree <= 30 && |ecc| == degree
    ensures (forall k :: 0 <= k < degree ==> Eval(data + ecc, Root(k)) == 0) <==> ecc == Remainder(data, Divisor(degree))
  {
    hide *;
    var rem := Remainder(data, Divisor(degree));
    forall k | 0 <= k < degree ensures Eval(data + rem, Root(k)) == 0 { CodewordVanishes(data, degree, k); }
    if forall k :: 0 <= k < degree ==> Eval(data + ecc, Root(k)) == 0 {
      forall k | 0 <= k < degree ensures Eval(Xor(ecc, rem), Root(k)) == 0 {
        XorCompletions(data, ecc, rem);
        EvalXor(data + ecc, data + rem, Root(k));
        EvalShift(|data|, Xor(ecc, rem), Root(k));
        AddZero(0);
      }
      VanishesEverywhere(Xor(ecc, rem));
      XorZero(ecc, rem);
    }
  }
}
