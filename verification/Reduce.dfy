/** Modular reductions of reduce.c. */
module Reduce {
  import opened Arithmetic
  import opened Words
  import opened ModQ

  const QINV: int := -3327
  const MONT_R: int := 0x1_0000
  /** Inverse of 2^16 modulo q. */
  const MONT_R_INV: int := 169

  /** The documented input range of montgomery_reduce. */
  predicate MontgomeryDomain(a: int) {
    -Q * 0x8000 <= a < Q * 0x8000
  }

  function MontgomeryReduce(a: int): (r: int16)
    requires MontgomeryDomain(a)
  {
    var t := ToInt16(ToInt16(a) * QINV);
    ToInt16((a - t * Q) / 0x1_0000)
  }

  /** The shift by 16 drops only zero bits and neither conversion of the last line wraps. */
  lemma MontgomeryExact(a: int) returns (t: int16)
    requires MontgomeryDomain(a)
    ensures -Q < MontgomeryReduce(a) < Q
    ensures MontgomeryReduce(a) * MONT_R == a - t * Q
  {
    var r := MontgomeryReduce(a);
    var low := ToInt16(a);
    t := ToInt16(low * QINV);
    assert r == ToInt16((a - t * Q) / 0x1_0000);
    hide ToInt16;
    var m := ToInt16Wraps(a);
    var n := ToInt16Wraps(low * QINV);
    var e := -m - n * Q + low * 169;
    assert a - t * Q == 0x1_0000 * e;
    DivUnique(a - t * Q, 0x1_0000, e, 0);
    assert -Q < e < Q;
  }

  /** The result is a * R^-1 modulo q, in both readings. */
  lemma MontgomeryReduceCorrect(a: int)
    requires MontgomeryDomain(a)
    ensures -Q < MontgomeryReduce(a) < Q
    ensures Cong(MontgomeryReduce(a) * MONT_R, a)
    ensures Cong(MontgomeryReduce(a), a * MONT_R_INV)
  {
    var t := MontgomeryExact(a);
    MontgomeryFromExact(MontgomeryReduce(a), a, t);
  }

  lemma MontgomeryFromExact(r: int, a: int, t: int)
    requires r * MONT_R == a - t * Q
    ensures Cong(r * MONT_R, a)
    ensures Cong(r, a * MONT_R_INV)
  {
    hide Cong;
    CongFrom(r * MONT_R, a, -t);
    CongFrom(r, a * MONT_R_INV, -3327 * r - t * MONT_R_INV);
  }

  function BarrettReduce(a: int16): (r: int16) {
    var v := ToInt16((0x400_0000 + Q / 2) / Q);
    var t := ToInt16((v * a + 0x200_0000) / 0x400_0000);
    ToInt16(a - ToInt16(t * Q))
  }

  /** Dividing by q through the approximation 20159 / 2^26 misses the centred quotient by less than one. */
  lemma BarrettQuotient(a: int16, t: int)
    requires t == (20159 * a + 0x200_0000) / 0x400_0000
    ensures -10 <= t <= 10
    ensures -1664 <= a - Q * t <= 1664
  {
    Euclid(20159 * a + 0x200_0000, 0x400_0000);
    assert 20159 * (a - Q * t) == (20159 * a - 0x400_0000 * t) - 447 * t;
  }

  lemma BarrettIs(a: int16, t: int)
    requires t == (20159 * a + 0x200_0000) / 0x400_0000 && -10 <= t <= 10 && -1664 <= a - Q * t <= 1664
    ensures BarrettReduce(a) == a - Q * t
  {
    hide ToInt16;
    assert ToInt16((0x400_0000 + Q / 2) / Q) == 20159;
  }

  /** For every 16-bit input the result is the centred representative. */
  lemma BarrettReduceCorrect(a: int16)
    ensures -1664 <= BarrettReduce(a) <= 1664
    ensures Cong(BarrettReduce(a), a)
  {
    var t := (20159 * a + 0x200_0000) / 0x400_0000;
    BarrettQuotient(a, t);
    BarrettIs(a, t);
    hide BarrettReduce, Cong;
    CongFrom(a - Q * t, a, -t);
  }
}
