/** The twiddle factors of ntt.c and the algebra that makes them twiddle factors. */
module Zetas {
  import opened Arithmetic
  import opened ModQ
  import opened Reduce

  /** Table entries are centred residues. */
  type Twiddle = z: int | -1664 <= z <= 1664

  /** The table zetas[128]: powers of 17 in bit-reversed order, in Montgomery form. */
  function Zeta(k: nat): Twiddle
    requires k < 128
  {
    match k
    case 0 => -1044 case 1 => -758 case 2 => -359 case 3 => -1517 case 4 => 1493 case 5 => 1422
    case 6 => 287 case 7 => 202 case 8 => -171 case 9 => 622 case 10 => 1577 case 11 => 182
    case 12 => 962 case 13 => -1202 case 14 => -1474 case 15 => 1468 case 16 => 573 case 17 => -1325
    case 18 => 264 case 19 => 383 case 20 => -829 case 21 => 1458 case 22 => -1602 case 23 => -130
    case 24 => -681 case 25 => 1017 case 26 => 732 case 27 => 608 case 28 => -1542 case 29 => 411
    case 30 => -205 case 31 => -1571 case 32 => 1223 case 33 => 652 case 34 => -552 case 35 => 1015
    case 36 => -1293 case 37 => 1491 case 38 => -282 case 39 => -1544 case 40 => 516 case 41 => -8
    case 42 => -320 case 43 => -666 case 44 => -1618 case 45 => -1162 case 46 => 126 case 47 => 1469
    case 48 => -853 case 49 => -90 case 50 => -271 case 51 => 830 case 52 => 107 case 53 => -1421
    case 54 => -247 case 55 => -951 case 56 => -398 case 57 => 961 case 58 => -1508 case 59 => -725
    case 60 => 448 case 61 => -1065 case 62 => 677 case 63 => -1275 case 64 => -1103 case 65 => 430
    case 66 => 555 case 67 => 843 case 68 => -1251 case 69 => 871 case 70 => 1550 case 71 => 105
    case 72 => 422 case 73 => 587 case 74 => 177 case 75 => -235 case 76 => -291 case 77 => -460
    case 78 => 1574 case 79 => 1653 case 80 => -246 case 81 => 778 case 82 => 1159 case 83 => -147
    case 84 => -777 case 85 => 1483 case 86 => -602 case 87 => 1119 case 88 => -1590 case 89 => 644
    case 90 => -872 case 91 => 349 case 92 => 418 case 93 => 329 case 94 => -156 case 95 => -75
    case 96 => 817 case 97 => 1097 case 98 => 603 case 99 => 610 case 100 => 1322 case 101 => -1285
    case 102 => -1465 case 103 => 384 case 104 => -1215 case 105 => -136 case 106 => 1218 case 107 => -1335
    case 108 => -874 case 109 => 220 case 110 => -1187 case 111 => -1659 case 112 => -1185 case 113 => -1530
    case 114 => -1278 case 115 => 794 case 116 => -1510 case 117 => -854 case 118 => -870 case 119 => 478
    case 120 => -108 case 121 => -308 case 122 => 996 case 123 => 991 case 124 => 958 case 125 => -1460
    case 126 => 1522 case _ => 1628
  }

  /** The low bits of i in reverse order, the lowest one weighing `top`, a power of two. */
  function BitRev(i: nat, top: nat): nat {
    if top == 0 then 0 else (if i % 2 == 1 then top else 0) + BitRev(i / 2, top / 2)
  }

  function BitRev7(i: nat): nat {
    BitRev(i, 64)
  }

  function Pow17(e: nat): int {
    if e == 0 then 1 else 17 * Pow17(e - 1)
  }

  /** The power of 17 that entry k of the table stands for, out of Montgomery form. */
  function ZetaVal(k: nat): int
    requires k < 128
  {
    Pow17(BitRev7(k))
  }

  /** Node k of the transform tree holds polynomials modulo X^n - Modulus(k); the root is X^256 + 1. */
  function Modulus(k: nat): int
    requires 1 <= k < 256
  {
    if k == 1 then -1 else if k % 2 == 0 then ZetaVal(k / 2) else -ZetaVal(k / 2)
  }

  /** Index of the first node in the layer of node k. */
  function LayerStart(k: nat): nat
    requires 1 <= k < 256
  {
    if k < 2 then 1 else if k < 4 then 2 else if k < 8 then 4 else if k < 16 then 8
    else if k < 32 then 16 else if k < 64 then 32 else if k < 128 then 64 else 128
  }

  /** Index of the twiddle factor that the inverse transform uses at node k: the layer read backwards. */
  function Mirror(k: nat): (m: nat)
    requires 1 <= k < 128
    ensures 1 <= m < 128
  {
    3 * LayerStart(k) - 1 - k
  }

  // ---- Powers of 17 ----

  lemma {:induction false} Pow17Add(d: nat, e: nat)
    ensures Pow17(d + e) == Pow17(d) * Pow17(e)
  {
    if d > 0 {
      Pow17Add(d - 1, e);
    }
  }

  lemma Pow17Square(e: nat, x: int, y: int)
    requires Cong(Pow17(e), x) && Cong(x * x, y)
    ensures Cong(Pow17(2 * e), y)
  {
    Pow17Add(e, e);
    CongMul(Pow17(e), x, Pow17(e), x);
    CongTrans(Pow17(2 * e), x * x, y);
  }

  /** 17 is a 256th root of unity: its 128th power is -1. */
  lemma PowersOf17()
    ensures Cong(Pow17(1), 17) && Cong(Pow17(2), 289) && Cong(Pow17(4), 296) && Cong(Pow17(8), 1062)
    ensures Cong(Pow17(16), 2642) && Cong(Pow17(32), 2580) && Cong(Pow17(64), 1729) && Cong(Pow17(128), -1)
  {
    Pow17Square(1, 17, 289);
    Pow17Square(2, 289, 296);
    Pow17Square(4, 296, 1062);
    Pow17Square(8, 1062, 2642);
    Pow17Square(16, 2642, 2580);
    Pow17Square(32, 2580, 1729);
    Pow17Square(64, 1729, -1);
  }

  // ---- Bit reversal ----

  predicate PowerOfTwo(h: nat) {
    h == 1 || (h % 2 == 0 && h > 0 && PowerOfTwo(h / 2))
  }

  lemma BitRevStep(i: nat, top: nat)
    requires top > 0
    ensures BitRev(i, 2 * top) == (if i % 2 == 1 then 2 * top else 0) + BitRev(i / 2, top)
  {
    DivUnique(2 * top, 2, top, 0);
  }

  /** Halving a power of two h, and a number c below 2 h. */
  lemma HalfPower(h: nat, m: nat)
    requires PowerOfTwo(h) && h > 1 && m > 0
    ensures h == 2 * (h / 2) && PowerOfTwo(h / 2) && h * m == 2 * (h / 2 * m) && h / 2 * m > 0
  {
    Associate(2, h / 2, m);
    MulMonotone(1, h / 2, m);
  }

  lemma {:induction false} BitRevZero(top: nat)
    ensures BitRev(0, top) == 0
  {
    if top > 0 { BitRevZero(top / 2); }
  }

  lemma {:induction false} BitRevDouble(j: nat, top: nat)
    requires j < 2 * top && PowerOfTwo(top)
    ensures BitRev(j, 2 * top) == 2 * BitRev(j, top)
  {
    if top == 1 {
      BitRevZero(1);
    } else {
      var half := top / 2;
      HalfPower(top, 1);
      Euclid(j, 2);
      BitRevDouble(j / 2, half);
      BitRevStep(j, top);
      BitRevStep(j, half);
    }
  }

  lemma BitRevOne(m: nat)
    requires m > 0
    ensures BitRev(0, m) == 0 && BitRev(1, m) == m
  {
    BitRevZero(m);
    BitRevZero(m / 2);
  }

  /** A further high bit of the argument adds its reversed weight. */
  lemma {:induction false} BitRevTop(h: nat, b: nat, m: nat)
    requires PowerOfTwo(h) && b < h && m > 0
    ensures BitRev(h + b, h * m) == BitRev(b, h * m) + m
  {
    hide BitRev, PowerOfTwo;
    if h == 1 {
      BitRevOne(m);
    } else {
      var g, c := h / 2, h + b;
      HalfPower(h, m);
      Euclid(b, 2);
      DivUnique(c, 2, g + b / 2, b % 2);
      BitRevTop(g, b / 2, m);
      BitRevStep(b, g * m);
      BitRevStep(c, g * m);
    }
  }

  /** Complementing the low bits complements the reversal. */
  lemma {:induction false} BitRevComplement(h: nat, b: nat, m: nat)
    requires PowerOfTwo(h) && b < h && m > 0
    ensures BitRev(b, h * m) + BitRev(h - 1 - b, h * m) == 2 * (h * m) - 2 * m
  {
    hide BitRev, PowerOfTwo;
    if h == 1 {
      BitRevOne(m);
    } else {
      var g, c := h / 2, h - 1 - b;
      HalfPower(h, m);
      Euclid(b, 2);
      DivUnique(c, 2, g - 1 - b / 2, 1 - b % 2);
      BitRevComplement(g, b / 2, m);
      BitRevStep(b, g * m);
      BitRevStep(c, g * m);
    }
  }

  /** The weight of the top bit of k after reversal. */
  function TopWeight(k: nat): nat
    requires 1 <= k < 128
  {
    if k < 2 then 64 else if k < 4 then 32 else if k < 8 then 16 else if k < 16 then 8
    else if k < 32 then 4 else if k < 64 then 2 else 1
  }

  lemma LayerStartPower(k: nat)
    requires 1 <= k < 128
    ensures PowerOfTwo(LayerStart(k)) && LayerStart(k) * TopWeight(k) == 64
  {
    assert PowerOfTwo(4);
    assert PowerOfTwo(16);
    assert PowerOfTwo(64);
  }

  /** Reversed indices within a layer add up to 128 when one is the mirror of the other. */
  lemma BitRevMirror(k: nat)
    requires 1 <= k < 128
    ensures BitRev7(k) + BitRev7(Mirror(k)) == 128
  {
    hide BitRev, LayerStart, TopWeight, PowerOfTwo;
    var h, m := LayerStart(k), TopWeight(k);
    LayerBounds(k);
    LayerStartPower(k);
    BitRevComplement(h, k - h, m);
    BitRevTop(h, k - h, m);
    BitRevTop(h, Mirror(k) - h, m);
  }

  lemma LayerBounds(k: nat)
    requires 1 <= k < 256
    ensures LayerStart(k) <= k < 2 * LayerStart(k)
  {
  }

  // ---- The table against the powers ----

  function LayerRoot(k: nat): int {
    if k < 2 then 1729 else if k < 4 then 2580 else if k < 8 then 2642 else if k < 16 then 1062
    else if k < 32 then 296 else if k < 64 then 289 else 17
  }

  lemma ZetaLayerLow(k: nat)
    requires 1 <= k < 64
    ensures Cong(Zeta(k), Zeta(k - LayerStart(k)) * LayerRoot(k))
  {
  }

  lemma ZetaLayerHigh(k: nat)
    requires 64 <= k < 96
    ensures Cong(Zeta(k), Zeta(k - 64) * 17)
  {
  }

  lemma ZetaLayerTop(k: nat)
    requires 96 <= k < 112
    ensures Cong(Zeta(k), Zeta(k - 64) * 17)
  {
  }

  lemma ZetaLayerLast(k: nat)
    requires 112 <= k < 128
    ensures Cong(Zeta(k), Zeta(k - 64) * 17)
  {
  }

  lemma ZetaLayer6(k: nat)
    requires 64 <= k < 128
    ensures Cong(Zeta(k), Zeta(k - 64) * 17)
  {
    hide *;
    if k < 96 { ZetaLayerHigh(k); } else if k < 112 { ZetaLayerTop(k); } else { ZetaLayerLast(k); }
  }

  lemma PowerStep(z: int, w: int, c: int, u: int, p: int)
    requires Cong(z, w * c) && Cong(w * MONT_R_INV, u) && Cong(p, c)
    ensures Cong(z * MONT_R_INV, u * p)
  {
    CongSym(p, c);
    CongScale(MONT_R_INV, z, w * c);
    CongMul(w * MONT_R_INV, u, c, p);
    Associate(w, c, MONT_R_INV);
    Exchange(c, w, MONT_R_INV);
    CongTrans(z * MONT_R_INV, w * MONT_R_INV * c, u * p);
  }

  lemma ZetaValStep(k: nat)
    requires 1 <= k < 128
    ensures LayerStart(k) <= k
    ensures ZetaVal(k) == ZetaVal(k - LayerStart(k)) * Pow17(TopWeight(k)) && Cong(Pow17(TopWeight(k)), LayerRoot(k))
  {
    PowersOf17();
    hide Pow17, BitRev, Cong, PowerOfTwo;
    var h, m := LayerStart(k), TopWeight(k);
    LayerStartPower(k);
    BitRevTop(h, k - h, m);
    Pow17Add(BitRev7(k - h), m);
  }

  /** Every table entry is the power of 17 with bit-reversed exponent, times R. */
  lemma {:induction false} ZetaIsPower(k: nat)
    requires k < 128
    ensures Cong(Zeta(k) * MONT_R_INV, ZetaVal(k))
  {
    hide Zeta, ZetaVal, Cong;
    if k == 0 {
      ZetaZero();
    } else {
      var h := LayerStart(k);
      ZetaIsPower(k - h);
      if k < 64 { ZetaLayerLow(k); } else { ZetaLayer6(k); }
      ZetaValStep(k);
      PowerStep(Zeta(k), Zeta(k - h), LayerRoot(k), ZetaVal(k - h), Pow17(TopWeight(k)));
    }
  }

  lemma ZetaZero()
    ensures Cong(Zeta(0) * MONT_R_INV, ZetaVal(0))
  {
    BitRevZero(64);
  }

  lemma BitRevChildren(j: nat)
    requires j < 64
    ensures 2 * BitRev7(2 * j) == BitRev7(j)
    ensures 2 * BitRev7(2 * j + 1) == BitRev7(j) + 128
  {
    BitRevDouble(j, 32);
    DivUnique(2 * j, 2, j, 0);
    DivUnique(2 * j + 1, 2, j, 1);
  }

  /** Adding 128 to the exponent of 17 negates the power. */
  lemma Pow17Negate(e: nat)
    ensures Cong(Pow17(e + 128), -Pow17(e))
  {
    hide Pow17;
    PowersOf17();
    Pow17Add(e, 128);
    CongScale(Pow17(e), Pow17(128), -1);
  }

  lemma ZetaSquare(k: nat)
    requires 1 <= k < 128
    ensures Cong(ZetaVal(k) * ZetaVal(k), Modulus(k))
  {
    hide Pow17, BitRev, Cong;
    Pow17Add(BitRev7(k), BitRev7(k));
    if k == 1 {
      BitRevMirror(1);
      PowersOf17();
    } else {
      var j := k / 2;
      BitRevChildren(j);
      if k % 2 == 1 {
        Pow17Negate(BitRev7(j));
      } else {
        CongRefl(ZetaVal(j));
      }
    }
  }

  /** What the transforms need of the table: the value, the square, and the inverse up to sign. */
  lemma ZetaFacts(k: nat)
    requires 1 <= k < 128
    ensures Cong(Zeta(k) * MONT_R_INV, ZetaVal(k))
    ensures Cong(ZetaVal(k) * ZetaVal(k), Modulus(k))
    ensures Cong(ZetaVal(k) * ZetaVal(Mirror(k)), -1)
  {
    hide Zeta, Pow17, BitRev, Cong;
    ZetaIsPower(k);
    ZetaSquare(k);
    BitRevMirror(k);
    PowersOf17();
    Pow17Add(BitRev7(k), BitRev7(Mirror(k)));
  }

  /** The moduli at the leaves, as section 4.3 of FIPS 203 lists them. */
  lemma LeafModulus(i: nat)
    requires i < 128
    ensures Cong(Modulus(128 + i), Pow17(2 * BitRev7(i) + 1))
  {
    hide Pow17, BitRev, Cong;
    var j := i / 2;
    BitRevTop(64, j, 1);
    BitRevChildren(j);
    assert ZetaVal(64 + j) == Pow17(BitRev7(j) + 1);
    CongRefl(ZetaVal(64 + j));
    if i % 2 == 1 {
      Pow17Negate(BitRev7(j) + 1);
      CongSym(Pow17(BitRev7(j) + 1 + 128), -Pow17(BitRev7(j) + 1));
    }
  }
}
