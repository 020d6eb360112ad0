/** The field GF(2^8) of the QR Code error correction: bytes as polynomials over GF(2) modulo 0x11D. */
module GF256 {

  function Half(y: bv8): (h: bv8)
    ensures y != 0 ==> h < y
  {
    y >> 1
  }

  predicate Odd(y: bv8) {
    y & 1 != 0
  }

  /** Carry-less product: the product of two polynomials over GF(2), coefficients in the bits of a and y. */
  function CarryLess(a: bv16, y: bv8): bv16
    decreases y
  {
    if y == 0 then 0 else Add16(Shl16(CarryLess(a, Half(y))), if Odd(y) then a else 0)
  }

  function Shl16(a: bv16): bv16 {
    a << 1
  }

  function Add16(a: bv16, b: bv16): bv16 {
    a ^ b
  }

  function Wide(z: bv8): bv16 {
    z as bv16
  }

  /** z is the remainder of the polynomial p modulo 0x11D: z + p is a multiple of 0x11D and z has degree below 8. */
  ghost predicate IsRemainder(p: bv16, z: bv8) {
    exists q: bv8 :: p == Add16(Wide(z), CarryLess(0x11D, q))
  }

  /** Addition in the field. */
  function Add(a: bv8, b: bv8): bv8 {
    a ^ b
  }

  function Shl(a: bv8): bv8 {
    a << 1
  }

  predicate High(a: bv8) {
    a & 0x80 != 0
  }

  /** Multiplication by the polynomial X, reduced. */
  function Double(a: bv8): bv8 {
    if High(a) then Add(Shl(a), 0x1D) else Shl(a)
  }

  /** The product in the field, by doubling and adding along the bits of y. */
  function Mul(x: bv8, y: bv8): bv8
    decreases y
  {
    if y == 0 then 0 else Add(Double(Mul(x, Half(y))), if Odd(y) then x else 0)
  }

  /** reedSolomonMultiply: Russian peasant multiplication. */
  method ReedSolomonMultiply(x: bv8, y: bv8) returns (z: bv8)
    ensures z == Mul(x, y)
  {
    hide *;
    z := 0;
    MulZero(x);
    ShiftedOut(y);
    var i := 7;
    while i >= 0
      invariant -1 <= i <= 7 && z == Mul(x, Shifted(y, i + 1))
    {
      ghost var w := z;
      z := (((z as bv16 << 1) ^ ((z >> 7) as bv16 * 0x11D)) & 0xFF) as bv8;
      DoubleStep(w);
      ghost var v := z;
      z := z ^ (((y >> i) & 1) * x);
      AddStep(v, y, i, x);
      ShiftTwice(y, i);
      MulBits(x, Shifted(y, i));
      i := i - 1;
    }
    ShiftNone(y);
  }

  ghost function Shifted(y: bv8, i: nat): bv8
    requires i <= 8
  {
    y >> i
  }

  lemma MulZero(x: bv8)
    ensures Mul(x, 0) == 0
  {
  }

  lemma MulBits(x: bv8, y: bv8)
    ensures Mul(x, y) == Add(Double(Mul(x, Half(y))), if Odd(y) then x else 0)
  {
    hide Add;
    MulZero(x);
    AddZero(0);
  }

  lemma AddZero(a: bv8)
    ensures Add(a, 0) == Add(0, a) == a
  {
  }

  lemma ShiftedOut(y: bv8)
    ensures Shifted(y, 8) == 0
  {
  }

  lemma ShiftNone(y: bv8)
    ensures Shifted(y, 0) == y
  {
  }

  lemma ShiftTwice(y: bv8, i: nat)
    requires i < 8
    ensures Half(Shifted(y, i)) == Shifted(y, i + 1)
  {
    if i == 0 {} else if i == 1 {} else if i == 2 {} else if i == 3 {} else if i == 4 {} else if i == 5 {} else if i == 6 {} else {}
  }

  lemma DoubleStep(z: bv8)
    ensures (((z as bv16 << 1) ^ ((z >> 7) as bv16 * 0x11D)) & 0xFF) as bv8 == Double(z)
  {
  }

  lemma AddStep(z: bv8, y: bv8, i: nat, x: bv8)
    requires i < 8
    ensures z ^ (((y >> i) & 1) * x) == Add(z, if Odd(Shifted(y, i)) then x else 0)
  {
    var b := y >> i;
    assert b & 1 == 0 || b & 1 == 1;
  }

  // ---- The product is the carry-less product modulo 0x11D ----

  /** The quotient gains a bit when doubling overflows. */
  lemma DoubleQuotient(z: bv8)
    ensures Wide(Double(z)) == Add16(Shl16(Wide(z)), if High(z) then 0x11D else 0)
  {
  }

  lemma Shl16Add(a: bv16, b: bv16)
    ensures Shl16(Add16(a, b)) == Add16(Shl16(a), Shl16(b))
  {
  }

  lemma Add16Commutative(a: bv16, b: bv16)
    ensures Add16(a, b) == Add16(b, a)
  {
  }

  lemma Add16Associative(a: bv16, b: bv16, c: bv16)
    ensures Add16(Add16(a, b), c) == Add16(a, Add16(b, c))
  {
  }

  lemma Add16Cancel(a: bv16, d: bv16)
    ensures Add16(Add16(a, d), d) == a
  {
  }

  /** 2 (z + c) + e = ((2 z + d) + e) + (2 c + d). */
  lemma ShiftStep(z: bv16, c: bv16, d: bv16, e: bv16)
    ensures Add16(Shl16(Add16(z, c)), e) == Add16(Add16(Add16(Shl16(z), d), e), Add16(Shl16(c), d))
  {
    hide *;
    var y, x := Shl16(z), Shl16(c);
    Shl16Add(z, c);
    Add16Associative(y, d, e);
    Add16Commutative(d, e);
    Add16Associative(y, e, d);
    Add16Associative(Add16(y, e), d, Add16(x, d));
    Add16Commutative(x, d);
    Add16Associative(d, d, x);
    Add16Commutative(Add16(d, d), x);
    Add16Associative(x, d, d);
    Add16Cancel(x, d);
    Add16Associative(y, e, x);
    Add16Commutative(e, x);
    Add16Associative(y, x, e);
  }

  lemma Widen(z: bv8, x: bv8)
    ensures Wide(Add(z, x)) == Add16(Wide(z), Wide(x))
  {
  }

  function Append(t: bv8, b: bool): bv8 {
    (t << 1) | (if b then 1 else 0)
  }

  lemma AppendParts(t: bv8, b: bool)
    requires t < 0x80
    ensures Half(Append(t, b)) == t && Odd(Append(t, b)) == b && (Append(t, b) == 0 ==> t == 0 && !b)
  {
  }

  lemma CarryLessAppend(a: bv16, t: bv8, b: bool)
    requires t < 0x80
    ensures CarryLess(a, Append(t, b)) == Add16(Shl16(CarryLess(a, t)), if b then a else 0)
  {
    hide Append, Half, Odd, Add16, Shl16;
    Add16Zero();
    AppendParts(t, b);
  }

  /** A quotient has fewer bits than the multiplier, because the first doubling never overflows. */
  ghost predicate Fits(q: bv8, y: bv8) {
    if y == 0 then q == 0 else q < y
  }

  lemma FitsAppend(y: bv8, q: bv8, b: bool)
    requires y != 0 && Fits(q, Half(y)) && (Half(y) == 0 ==> !b)
    ensures q < 0x80 && Fits(Append(q, b), y)
  {
  }

  lemma MulQuotientStep(x: bv8, y: bv8, p: bv8)
    requires y != 0 && p < 0x80
    requires CarryLess(Wide(x), Half(y)) == Add16(Wide(Mul(x, Half(y))), CarryLess(0x11D, p))
    ensures CarryLess(Wide(x), y) == Add16(Wide(Mul(x, y)), CarryLess(0x11D, Append(p, High(Mul(x, Half(y))))))
  {
    hide Double, Half, Odd, Append, Add, Add16, Shl16, High, Wide;
    var z := Mul(x, Half(y));
    var e: bv8 := if Odd(y) then x else 0;
    CarryLessAppend(0x11D, p, High(z));
    DoubleQuotient(z);
    Widen(Double(z), e);
    WideZero();
    hide Mul, CarryLess;
    ShiftStep(Wide(z), CarryLess(0x11D, p), if High(z) then 0x11D else 0, Wide(e));
  }

  lemma WideZero()
    ensures Wide(0) == 0
  {
  }

  lemma {:induction false} MulQuotient(x: bv8, y: bv8) returns (q: bv8)
    ensures CarryLess(Wide(x), y) == Add16(Wide(Mul(x, y)), CarryLess(0x11D, q)) && Fits(q, y)
    decreases y
  {
    hide Double, Half, Odd, Append, Add, Add16, Shl16, High, Wide, Fits;
    FitsZero();
    WideZero();
    Add16Zero();
    HighZero();
    if y == 0 {
      q := 0;
    } else {
      var p := MulQuotient(x, Half(y));
      q := Append(p, High(Mul(x, Half(y))));
      FitsAppend(y, p, High(Mul(x, Half(y))));
      MulQuotientStep(x, y, p);
    }
  }

  lemma FitsZero()
    ensures Fits(0, 0)
  {
  }

  lemma HighZero()
    ensures !High(0)
  {
  }

  lemma Add16Zero()
    ensures Add16(0, 0) == 0 && Shl16(0) == 0
  {
  }

  /** reedSolomonMultiply computes the product of polynomials over GF(2) modulo X^8 + X^4 + X^3 + X^2 + 1. */
  lemma MulIsRemainder(x: bv8, y: bv8)
    ensures IsRemainder(CarryLess(Wide(x), y), Mul(x, y))
  {
    hide CarryLess, Mul, Add16, Wide, Fits;
    var q := MulQuotient(x, y);
  }

  // ---- Ring laws ----

  lemma AddCommutative(a: bv8, b: bv8)
    ensures Add(a, b) == Add(b, a)
  {
  }

  lemma AddAssociative(a: bv8, b: bv8, c: bv8)
    ensures Add(Add(a, b), c) == Add(a, Add(b, c))
  {
  }

  lemma AddExchange(a: bv8, b: bv8, c: bv8, d: bv8)
    ensures Add(Add(a, b), Add(c, d)) == Add(Add(a, c), Add(b, d))
  {
    hide Add;
    AddAssociative(a, b, Add(c, d));
    AddAssociative(b, c, d);
    AddCommutative(b, c);
    AddAssociative(c, b, d);
    AddAssociative(a, c, Add(b, d));
  }

  lemma AddSelf(a: bv8)
    ensures Add(a, a) == 0
  {
  }

  lemma DoubleAdd(a: bv8, b: bv8)
    ensures Double(Add(a, b)) == Add(Double(a), Double(b))
  {
    ShlAdd(a, b);
    HighAdd(a, b);
    hide Shl, High, Add;
    var x, y, c := Shl(a), Shl(b), 0x1D;
    AddExchange(x, c, y, c);
    AddExchange(x, 0, y, c);
    AddExchange(x, c, y, 0);
    AddSelf(c);
    AddZero(x);
    AddZero(y);
    AddZero(c);
    AddZero(Add(x, y));
  }

  lemma ShlAdd(a: bv8, b: bv8)
    ensures Shl(Add(a, b)) == Add(Shl(a), Shl(b))
  {
  }

  lemma HighAdd(a: bv8, b: bv8)
    ensures High(Add(a, b)) <==> High(a) != High(b)
  {
  }

  lemma DoubleZero()
    ensures Double(0) == 0
  {
  }

  /** The product distributes over addition. */
  lemma {:induction false} MulAddLeft(a: bv8, b: bv8, y: bv8)
    ensures Mul(Add(a, b), y) == Add(Mul(a, y), Mul(b, y))
    decreases y
  {
    hide Double, Add, Half, Odd;
    AddZero(0);
    if y != 0 {
      MulAddLeft(a, b, Half(y));
      var u, v := Mul(a, Half(y)), Mul(b, Half(y));
      DoubleAdd(u, v);
      AddExchange(Double(u), Double(v), if Odd(y) then a else 0, if Odd(y) then b else 0);
    }
  }

  lemma {:induction false} MulDouble(x: bv8, y: bv8)
    ensures Mul(Double(x), y) == Double(Mul(x, y))
    decreases y
  {
    hide Double, Add, Half, Odd;
    DoubleZero();
    if y != 0 {
      MulDouble(x, Half(y));
      DoubleAdd(Double(Mul(x, Half(y))), if Odd(y) then x else 0);
    }
  }

  lemma {:induction false} MulOne(y: bv8)
    ensures Mul(1, y) == y
    decreases y
  {
    hide Double, Add, Half, Odd;
    if y != 0 {
      MulOne(Half(y));
      Halves(y);
    }
  }

  lemma Halves(y: bv8)
    ensures Add(Double(Half(y)), if Odd(y) then 1 else 0) == y
  {
  }

  lemma {:induction false} MulZeroLeft(y: bv8)
    ensures Mul(0, y) == 0
    decreases y
  {
    hide Double, Add, Half, Odd;
    DoubleZero();
    AddZero(0);
    if y != 0 { MulZeroLeft(Half(y)); }
  }

  lemma {:induction false} MulCommutative(x: bv8, y: bv8)
    ensures Mul(x, y) == Mul(y, x)
    decreases x
  {
    MulZeroLeft(y);
    if x == 0 {
      MulZero(y);
    } else {
      hide Double, Add, Half, Odd;
      MulCommutative(Half(x), y);
      Halves(x);
      MulAddLeft(Double(Half(x)), if Odd(x) then 1 else 0, y);
      MulDouble(Half(x), y);
      MulOne(y);
    }
  }

  lemma MulAddRight(x: bv8, a: bv8, b: bv8)
    ensures Mul(x, Add(a, b)) == Add(Mul(x, a), Mul(x, b))
  {
    hide *;
    MulCommutative(x, Add(a, b));
    MulCommutative(x, a);
    MulCommutative(x, b);
    MulAddLeft(a, b, x);
  }

  lemma MulDoubleRight(x: bv8, y: bv8)
    ensures Mul(x, Double(y)) == Double(Mul(x, y))
  {
    hide *;
    MulCommutative(x, Double(y));
    MulCommutative(x, y);
    MulDouble(y, x);
  }

  lemma {:induction false} MulAssociative(x: bv8, y: bv8, z: bv8)
    ensures Mul(Mul(x, y), z) == Mul(x, Mul(y, z))
    decreases z
  {
    hide Double, Add, Half, Odd;
    MulZero(x);
    if z != 0 {
      MulAssociative(x, y, Half(z));
      var w := Mul(y, Half(z));
      MulAddRight(x, Double(w), if Odd(z) then y else 0);
      MulDoubleRight(x, w);
    }
  }

  // ---- A product is zero only if a factor is ----

  /** Doubling the left factor in place of the sum. */
  lemma MulShift(x: bv8, y: bv8)
    ensures Mul(x, y) == Add(Mul(Double(x), Half(y)), if Odd(y) then x else 0)
  {
    hide *;
    MulBits(x, y);
    MulDouble(x, Half(y));
  }

  /** x if y has the bit in place k, else nothing. */
  function Pick(y: bv8, k: bv8, x: bv8): bv8 {
    if y & k != 0 then x else 0
  }

  /** The product with all eight steps written out. */
  function Expanded(x: bv8, y: bv8): bv8 {
    var x1 := Double(x);
    var x2 := Double(x1);
    var x3 := Double(x2);
    var x4 := Double(x3);
    var x5 := Double(x4);
    var x6 := Double(x5);
    var x7 := Double(x6);
    Add(Add(Add(Add(Add(Add(Add(Pick(y, 128, x7), Pick(y, 64, x6)), Pick(y, 32, x5)), Pick(y, 16, x4)),
                    Pick(y, 8, x3)), Pick(y, 4, x2)), Pick(y, 2, x1)), Pick(y, 1, x))
  }

  /** Bit i of y is the lowest bit of y halved i times. */
  lemma HalvedBits(y: bv8)
    ensures var y2 := Half(Half(y)); var y4 := Half(Half(y2)); var y6 := Half(Half(y4));
            && Odd(y) == (y & 1 != 0) && Odd(Half(y)) == (y & 2 != 0)
            && Odd(y2) == (y & 4 != 0) && Odd(Half(y2)) == (y & 8 != 0)
            && Odd(y4) == (y & 16 != 0) && Odd(Half(y4)) == (y & 32 != 0)
            && Odd(y6) == (y & 64 != 0) && Odd(Half(y6)) == (y & 128 != 0) && Half(Half(y6)) == 0
  {
  }

  lemma MulExpanded(x: bv8, y: bv8)
    ensures Mul(x, y) == Expanded(x, y)
  {
    HalvedBits(y);
    hide Mul, Add, Double, Half, Odd;
    var x1, y1 := Double(x), Half(y);
    var x2, y2 := Double(x1), Half(y1);
    var x3, y3 := Double(x2), Half(y2);
    var x4, y4 := Double(x3), Half(y3);
    var x5, y5 := Double(x4), Half(y4);
    var x6, y6 := Double(x5), Half(y5);
    var x7, y7 := Double(x6), Half(y6);
    MulShift(x, y);
    MulShift(x1, y1);
    MulShift(x2, y2);
    MulShift(x3, y3);
    MulShift(x4, y4);
    MulShift(x5, y5);
    MulShift(x6, y6);
    MulShift(x7, y7);
    MulZero(Double(x7));
    AddZero(Pick(y, 128, x7));
  }

  /** No sum of the eight multiples x, x X, ..., x X^7 is zero: a fact about bits, found by the solver. */
  lemma SumNonZero(x: bv8, x1: bv8, x2: bv8, x3: bv8, x4: bv8, x5: bv8, x6: bv8, x7: bv8, y: bv8)
    requires x != 0 && y != 0
    requires x1 == if x & 0x80 != 0 then (x << 1) ^ 0x1D else x << 1
    requires x2 == if x1 & 0x80 != 0 then (x1 << 1) ^ 0x1D else x1 << 1
    requires x3 == if x2 & 0x80 != 0 then (x2 << 1) ^ 0x1D else x2 << 1
    requires x4 == if x3 & 0x80 != 0 then (x3 << 1) ^ 0x1D else x3 << 1
    requires x5 == if x4 & 0x80 != 0 then (x4 << 1) ^ 0x1D else x4 << 1
    requires x6 == if x5 & 0x80 != 0 then (x5 << 1) ^ 0x1D else x5 << 1
    requires x7 == if x6 & 0x80 != 0 then (x6 << 1) ^ 0x1D else x6 << 1
    ensures Add(Add(Add(Add(Add(Add(Add(Pick(y, 128, x7), Pick(y, 64, x6)), Pick(y, 32, x5)), Pick(y, 16, x4)),
                            Pick(y, 8, x3)), Pick(y, 4, x2)), Pick(y, 2, x1)), Pick(y, 1, x)) != 0
  {
  }

  lemma DoubleIs(a: bv8)
    ensures Double(a) == if a & 0x80 != 0 then (a << 1) ^ 0x1D else a << 1
  {
  }

  lemma ExpandedNonZero(x: bv8, y: bv8)
    requires x != 0 && y != 0
    ensures Expanded(x, y) != 0
  {
    hide Double, Pick, Add;
    var x1 := Double(x);
    var x2 := Double(x1);
    var x3 := Double(x2);
    var x4 := Double(x3);
    var x5 := Double(x4);
    var x6 := Double(x5);
    var x7 := Double(x6);
    DoubleIs(x);
    DoubleIs(x1);
    DoubleIs(x2);
    DoubleIs(x3);
    DoubleIs(x4);
    DoubleIs(x5);
    DoubleIs(x6);
    SumNonZero(x, x1, x2, x3, x4, x5, x6, x7, y);
  }

  /** The field has no zero divisors: 0x11D is irreducible. */
  lemma NoZeroDivisors(x: bv8, y: bv8)
    requires Mul(x, y) == 0
    ensures x == 0 || y == 0
  {
    hide *;
    MulExpanded(x, y);
    if x != 0 && y != 0 { ExpandedNonZero(x, y); }
  }
}
