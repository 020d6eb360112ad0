/** Bitwise operations of C on non-negative integers. Shifts and masks 2^k - 1 are written with *, / and %. */
module Bits {
  import opened Arithmetic

  function Pow2(k: nat): (r: nat)
    ensures r > 0
  {
    if k == 0 then 1 else 2 * Pow2(k - 1)
  }

  /** Bit j of x. */
  function Bit(x: nat, j: nat): (b: nat)
    ensures b < 2
  {
    if j == 0 then x % 2 else Bit(x / 2, j - 1)
  }

  function Or(a: nat, b: nat): nat {
    if a == 0 && b == 0 then 0
    else (if a % 2 == 1 || b % 2 == 1 then 1 else 0) + 2 * Or(a / 2, b / 2)
  }

  function And(a: nat, b: nat): nat {
    if a == 0 || b == 0 then 0
    else (if a % 2 == 1 && b % 2 == 1 then 1 else 0) + 2 * And(a / 2, b / 2)
  }

  lemma {:induction false} OrZero(b: nat)
    ensures Or(0, b) == b && Or(b, 0) == b
  {
    if b > 0 { OrZero(b / 2); }
  }

  /** Or of bit fields that do not overlap is their sum. */
  lemma {:induction false} OrDisjoint(a: nat, b: nat, k: nat)
    requires a < Pow2(k)
    ensures Or(a, b * Pow2(k)) == a + b * Pow2(k)
  {
    if k == 0 {
      OrZero(b);
    } else {
      var c := b * Pow2(k - 1);
      Exchange(b, 2, Pow2(k - 1));
      OrDisjoint(a / 2, b, k - 1);
      if a == 0 && c == 0 { } else {
        assert Or(a, 2 * c) == (if a % 2 == 1 || (2 * c) % 2 == 1 then 1 else 0) + 2 * Or(a / 2, (2 * c) / 2);
      }
    }
  }
}
