/** Centred binomial sampling of cbd.c: bit counts computed in parallel bit fields of one word. */
module Cbd {
  import opened Arithmetic
  import opened Words
  import opened Bits

  // ---- The definition: differences of bit counts (section 4.2.2 of FIPS 203) ----

  /** Bit p of a byte string, least significant bit of each byte first. */
  function BitAt(buf: seq<uint8>, p: nat): (b: nat)
    requires p / 8 < |buf|
    ensures b < 2
  {
    Bit(buf[p / 8], p % 8)
  }

  /** Number of ones among the n bits from position p. */
  function Ones(buf: seq<uint8>, p: nat, n: nat): (k: nat)
    requires n > 0 ==> (p + n - 1) / 8 < |buf|
    ensures k <= n
  {
    if n == 0 then 0 else Ones(buf, p, n - 1) + BitAt(buf, p + n - 1)
  }

  /** Coefficient i: ones in its first eta bits minus ones in the next eta. */
  function CbdCoefficient(buf: seq<uint8>, eta: nat, i: nat): (c: int)
    requires eta > 0 && (2 * eta * (i + 1) - 1) / 8 < |buf|
    ensures Abs(c) <= eta
  {
    assert 2 * eta * (i + 1) == 2 * eta * i + 2 * eta;
    Ones(buf, 2 * eta * i, eta) - Ones(buf, 2 * eta * i + eta, eta)
  }

  function CbdSpec(eta: nat, buf: seq<uint8>): (f: seq<int16>)
    requires eta == 2 || eta == 3
    requires |buf| == 64 * eta
    ensures |f| == 256 && Bounded(f, eta)
  {
    seq(256, i requires 0 <= i < 256 => CbdCoefficient(buf, eta, i))
  }

  // ---- The words ----

  function Load32(buf: seq<uint8>, at: nat): nat
    requires at + 4 <= |buf|
  {
    Or(Or(Or(buf[at], buf[at + 1] as int * 0x100), buf[at + 2] as int * 0x1_0000), buf[at + 3] as int * 0x100_0000)
  }

  function Load24(buf: seq<uint8>, at: nat): nat
    requires at + 3 <= |buf|
  {
    Or(Or(buf[at], buf[at + 1] as int * 0x100), buf[at + 2] as int * 0x1_0000)
  }

  /** All two-bit fields of t replaced by their bit counts at once. */
  function PairCounts(t: nat): nat {
    And(t, 0x5555_5555) + And(t / 2, 0x5555_5555)
  }

  function TripleCounts(t: nat): nat {
    And(t, 0x24_9249) + And(t / 2, 0x24_9249) + And(t / 4, 0x24_9249)
  }

  function Cbd2Coefficient(t: nat, j: nat): int16 {
    PairCounts(t) / Pow2(4 * j) % 4 - PairCounts(t) / Pow2(4 * j + 2) % 4
  }

  function Cbd3Coefficient(t: nat, j: nat): int16 {
    TripleCounts(t) / Pow2(6 * j) % 8 - TripleCounts(t) / Pow2(6 * j + 3) % 8
  }

  method Cbd2(r: array<int16>, buf: seq<uint8>)
    requires r.Length == 256 && |buf| == 128
    modifies r
    ensures r[..] == CbdSpec(2, buf)
  {
    hide Cbd2Coefficient, CbdCoefficient, Load32;
    for i := 0 to 32
      invariant forall p :: 0 <= p < 8 * i ==> r[p] == CbdCoefficient(buf, 2, p)
    {
      var t := Load32(buf, 4 * i);
      for j := 0 to 8
        invariant forall p :: 0 <= p < 8 * i + j ==> r[p] == CbdCoefficient(buf, 2, p)
      {
        Cbd2Correct(buf, i, j);
        r[8 * i + j] := Cbd2Coefficient(t, j);
      }
    }
  }

  method Cbd3(r: array<int16>, buf: seq<uint8>)
    requires r.Length == 256 && |buf| == 192
    modifies r
    ensures r[..] == CbdSpec(3, buf)
  {
    hide Cbd3Coefficient, CbdCoefficient, Load24;
    for i := 0 to 64
      invariant forall p :: 0 <= p < 4 * i ==> r[p] == CbdCoefficient(buf, 3, p)
    {
      var t := Load24(buf, 3 * i);
      for j := 0 to 4
        invariant forall p :: 0 <= p < 4 * i + j ==> r[p] == CbdCoefficient(buf, 3, p)
      {
        Cbd3Correct(buf, i, j);
        r[4 * i + j] := Cbd3Coefficient(t, j);
      }
    }
  }

  // ---- No carry crosses a field ----

  /** The mask with n ones, w bits apart. */
  function SpacedOnes(w: nat, n: nat): nat {
    if n == 0 then 0 else 1 + Pow2(w) * SpacedOnes(w, n - 1)
  }

  lemma Eighth(t: nat)
    ensures (t / 4) / 2 == t / 8 && (t / 2) / 4 == t / 8
  {
    DivDiv(t, 4);
    Euclid(t, 8);
    Euclid(t, 4);
    DivUnique(t / 4, 2, t / 8, t / 4 - 2 * (t / 8));
  }

  lemma Swapped(t: nat)
    ensures (t / 2) / 8 == (t / 8) / 2 && (t / 4) / 8 == (t / 8) / 4
  {
    var q := t / 8;
    Euclid(t, 8);
    Euclid(t, 4);
    Euclid(q, 2);
    Euclid(q, 4);
    DivDiv(t, 8);
    DivUnique(t, 16, q / 2, t - 16 * (q / 2));
    DivUnique(t / 4, 8, q / 4, t / 4 - 8 * (q / 4));
  }

  lemma AndSpaced2(x: nat, m: nat)
    ensures And(x, 1 + 4 * m) == x % 2 + 4 * And(x / 4, m)
  {
    AndEven(x / 2, m);
    if x > 0 { assert (1 + 4 * m) / 2 == 2 * m; }
  }

  lemma AndEven(x: nat, m: nat)
    ensures And(x, 2 * m) == 2 * And(x / 2, m)
  {
  }

  lemma AndSpaced3(x: nat, m: nat)
    ensures And(x, 1 + 8 * m) == x % 2 + 8 * And(x / 8, m)
  {
    AndEven(x / 2, 2 * m);
    AndEven(x / 4, m);
    DivDiv(x, 2);
    Eighth(x);
    if x > 0 { assert (1 + 8 * m) / 2 == 4 * m; }
  }

  /** The parallel sum over n fields of two bits. */
  function PairSum(t: nat, n: nat): nat {
    And(t, SpacedOnes(2, n)) + And(t / 2, SpacedOnes(2, n))
  }

  lemma PairSumStep(t: nat, n: nat)
    requires n > 0
    ensures PairSum(t, n) == 4 * PairSum(t / 4, n - 1) + (t % 2 + t / 2 % 2)
  {
    var m := SpacedOnes(2, n - 1);
    assert Pow2(2) == 4;
    assert SpacedOnes(2, n) == 1 + 4 * m;
    hide SpacedOnes, And;
    AndSpaced2(t, m);
    AndSpaced2(t / 2, m);
    DivDiv(t, 4);
    Eighth(t);
  }

  lemma LowField(s: nat, m: nat, d: nat, c: nat)
    requires c < m && s == m * d + c
    ensures s / Pow2(0) % m == c
  {
    DivUnique(s, m, d, c);
  }

  lemma LowBits3(t: nat)
    ensures Bit(t, 0) == t % 2 && Bit(t, 1) == t / 2 % 2 && Bit(t, 2) == t / 4 % 2
  {
    DivDiv(t, 2);
    assert Bit(t, 2) == Bit(t / 2, 1) == Bit((t / 2) / 2, 0);
  }

  /** Field k of the pair counts is the number of ones in field k. */
  lemma {:induction false} PairField(t: nat, n: nat, k: nat)
    requires k < n
    ensures PairSum(t, n) / Pow2(2 * k) % 4 == Bit(t, 2 * k) + Bit(t, 2 * k + 1)
  {
    hide PairSum;
    var c, d := t % 2 + t / 2 % 2, PairSum(t / 4, n - 1);
    PairSumStep(t, n);
    if k == 0 {
      LowField(PairSum(t, n), 4, d, c);
      LowBits3(t);
    } else {
      hide Bit, Pow2;
      DivUnique(PairSum(t, n), 4, d, c);
      PairField(t / 4, n - 1, k - 1);
      FieldShift(PairSum(t, n), 2 * k);
      BitTwo(t, 2 * k);
      BitTwo(t, 2 * k + 1);
    }
  }

  lemma FieldShift(s: nat, p: nat)
    requires p >= 2
    ensures s / Pow2(p) == (s / 4) / Pow2(p - 2)
  {
    DivDiv(s, Pow2(p - 1));
    DivDiv(s / 2, Pow2(p - 2));
    DivDiv(s, 2);
  }

  lemma BitTwo(t: nat, p: nat)
    requires p >= 2
    ensures Bit(t, p) == Bit(t / 4, p - 2)
  {
    DivDiv(t, 2);
  }

  function TripleSum(t: nat, n: nat): nat {
    And(t, SpacedOnes(3, n)) + And(t / 2, SpacedOnes(3, n)) + And(t / 4, SpacedOnes(3, n))
  }

  lemma TripleSumStep(t: nat, n: nat)
    requires n > 0
    ensures TripleSum(t, n) == 8 * TripleSum(t / 8, n - 1) + (t % 2 + t / 2 % 2 + t / 4 % 2)
  {
    var m := SpacedOnes(3, n - 1);
    assert Pow2(3) == 8;
    assert SpacedOnes(3, n) == 1 + 8 * m;
    hide SpacedOnes, And;
    AndSpaced3(t, m);
    AndSpaced3(t / 2, m);
    AndSpaced3(t / 4, m);
    Swapped(t);
  }

  lemma {:induction false} TripleField(t: nat, n: nat, k: nat)
    requires k < n
    ensures TripleSum(t, n) / Pow2(3 * k) % 8 == Bit(t, 3 * k) + Bit(t, 3 * k + 1) + Bit(t, 3 * k + 2)
  {
    hide TripleSum;
    var c, d := t % 2 + t / 2 % 2 + t / 4 % 2, TripleSum(t / 8, n - 1);
    TripleSumStep(t, n);
    if k == 0 {
      LowField(TripleSum(t, n), 8, d, c);
      LowBits3(t);
    } else {
      hide Bit, Pow2;
      DivUnique(TripleSum(t, n), 8, d, c);
      TripleField(t / 8, n - 1, k - 1);
      FieldShift3(TripleSum(t, n), 3 * k);
      BitThree(t, 3 * k);
      BitThree(t, 3 * k + 1);
      BitThree(t, 3 * k + 2);
    }
  }

  lemma FieldShift3(s: nat, p: nat)
    requires p >= 3
    ensures s / Pow2(p) == (s / 8) / Pow2(p - 3)
  {
    FieldShift(s, p);
    DivDiv(s / 4, Pow2(p - 3));
    Eighth(s);
  }

  lemma BitThree(t: nat, p: nat)
    requires p >= 3
    ensures Bit(t, p) == Bit(t / 8, p - 3)
  {
    BitTwo(t, p);
    Eighth(t);
  }

  // ---- Bits of the loaded words are bits of the bytes ----

  lemma {:induction false} BitConcat(x: nat, y: nat, w: nat, p: nat)
    requires x < Pow2(w)
    ensures Bit(x + y * Pow2(w), p) == if p < w then Bit(x, p) else Bit(y, p - w)
  {
    if w > 0 {
      var c := y * Pow2(w - 1);
      assert y * Pow2(w) == 2 * c;
      assert (x + 2 * c) % 2 == x % 2 && (x + 2 * c) / 2 == x / 2 + c;
      if p > 0 { BitConcat(x / 2, y, w - 1, p - 1); }
    }
  }

  /** The bits of two words set side by side. */
  lemma BitSideBySide(x: nat, y: nat, w: nat, d: nat, p: nat)
    requires x < d == Pow2(w)
    ensures Or(x, y * d) == x + y * d
    ensures Bit(x + y * d, p) == if p < w then Bit(x, p) else Bit(y, p - w)
  {
    hide *;
    OrDisjoint(x, y, w);
    BitConcat(x, y, w, p);
  }

  lemma ByteWidths()
    ensures Pow2(8) == 0x100 && Pow2(16) == 0x1_0000 && Pow2(24) == 0x100_0000
  {
  }

  /** Bit p of the concatenation of the first n of four bytes. */
  lemma Bytes2Bit(x: uint8, y: uint8, p: nat)
    ensures Or(x, y as int * 0x100) == x + y as int * 0x100 < 0x1_0000
    ensures Bit(x + y as int * 0x100, p) == if p < 8 then Bit(x, p) else Bit(y, p - 8)
  {
    hide Or, Bit;
    ByteWidths();
    hide Pow2;
    BitSideBySide(x, y, 8, 0x100, p);
  }

  lemma Bytes3Bit(x: uint8, y: uint8, z: uint8, p: nat)
    ensures Or(x + y as int * 0x100, z as int * 0x1_0000) == x + y as int * 0x100 + z as int * 0x1_0000 < 0x100_0000
    ensures Bit(x + y as int * 0x100 + z as int * 0x1_0000, p)
         == if p < 8 then Bit(x, p) else if p < 16 then Bit(y, p - 8) else Bit(z, p - 16)
  {
    hide Or, Bit;
    ByteWidths();
    hide Pow2;
    Bytes2Bit(x, y, p);
    BitSideBySide(x + y as int * 0x100, z, 16, 0x1_0000, p);
  }

  lemma Bytes4Bit(x: uint8, y: uint8, z: uint8, u: uint8, p: nat)
    ensures Or(x + y as int * 0x100 + z as int * 0x1_0000, u as int * 0x100_0000)
         == x + y as int * 0x100 + z as int * 0x1_0000 + u as int * 0x100_0000
    ensures Bit(x + y as int * 0x100 + z as int * 0x1_0000 + u as int * 0x100_0000, p)
         == if p < 8 then Bit(x, p) else if p < 16 then Bit(y, p - 8) else if p < 24 then Bit(z, p - 16) else Bit(u, p - 24)
  {
    hide Or, Bit;
    ByteWidths();
    hide Pow2;
    Bytes3Bit(x, y, z, p);
    BitSideBySide(x + y as int * 0x100 + z as int * 0x1_0000, u, 24, 0x100_0000, p);
  }

  lemma Load24Bit(buf: seq<uint8>, at: nat, p: nat)
    requires at + 3 <= |buf| && p < 24
    ensures Bit(Load24(buf, at), p) == Bit(buf[at + p / 8], p % 8)
  {
    hide Or, Bit;
    var x, y, z := buf[at], buf[at + 1], buf[at + 2];
    Bytes2Bit(x, y, p);
    Bytes3Bit(x, y, z, p);
    assert Load24(buf, at) == x + y as int * 0x100 + z as int * 0x1_0000;
    hide Load24;
    assert p / 8 == (if p < 8 then 0 else if p < 16 then 1 else 2) && p % 8 == p - 8 * (p / 8);
  }

  lemma Load32Bit(buf: seq<uint8>, at: nat, p: nat)
    requires at + 4 <= |buf| && p < 32
    ensures Bit(Load32(buf, at), p) == Bit(buf[at + p / 8], p % 8)
  {
    hide Or, Bit;
    var x, y, z, u := buf[at], buf[at + 1], buf[at + 2], buf[at + 3];
    Bytes2Bit(x, y, p);
    Bytes3Bit(x, y, z, p);
    Bytes4Bit(x, y, z, u, p);
    assert Load32(buf, at) == x + y as int * 0x100 + z as int * 0x1_0000 + u as int * 0x100_0000;
    hide Load32;
    assert p / 8 == (if p < 8 then 0 else if p < 16 then 1 else if p < 24 then 2 else 3) && p % 8 == p - 8 * (p / 8);
  }

  lemma Mask2()
    ensures SpacedOnes(2, 16) == 0x5555_5555
  {
    assert Pow2(2) == 4;
    assert SpacedOnes(2, 4) == 0x55;
    assert SpacedOnes(2, 8) == 0x5555;
    assert SpacedOnes(2, 12) == 0x55_5555;
  }

  lemma Mask3()
    ensures SpacedOnes(3, 8) == 0x24_9249
  {
    assert Pow2(3) == 8;
    assert SpacedOnes(3, 4) == 0x249;
  }

  lemma PairMask(t: nat)
    ensures PairCounts(t) == PairSum(t, 16)
  {
    hide And, SpacedOnes;
    Mask2();
  }

  lemma TripleMask(t: nat)
    ensures TripleCounts(t) == TripleSum(t, 8)
  {
    hide And, SpacedOnes;
    Mask3();
  }

  /** Field k of the word, k pairs of bits into it. */
  lemma PairOnes(buf: seq<uint8>, i: nat, k: nat)
    requires |buf| == 128 && i < 32 && k < 16
    ensures PairCounts(Load32(buf, 4 * i)) / Pow2(2 * k) % 4 == Ones(buf, 32 * i + 2 * k, 2)
  {
    hide *;
    var t := Load32(buf, 4 * i);
    PairMask(t);
    PairField(t, 16, k);
    Load32Bits(buf, i, 2 * k);
    Load32Bits(buf, i, 2 * k + 1);
    OnesTwo(buf, 32 * i + 2 * k);
  }

  /** cbd2: every coefficient is the difference of two counts of two bits. */
  lemma Cbd2Correct(buf: seq<uint8>, i: nat, j: nat)
    requires |buf| == 128 && i < 32 && j < 8
    ensures Cbd2Coefficient(Load32(buf, 4 * i), j) == CbdCoefficient(buf, 2, 8 * i + j)
  {
    hide Load32, PairCounts, Ones, Pow2;
    PairOnes(buf, i, 2 * j);
    PairOnes(buf, i, 2 * j + 1);
    assert 2 * (2 * j) == 4 * j && 2 * (2 * j + 1) == 4 * j + 2;
    assert 4 * (8 * i + j) == 32 * i + 4 * j;
  }

  lemma Load32Bits(buf: seq<uint8>, i: nat, k: nat)
    requires |buf| == 128 && i < 32 && k < 32
    ensures Bit(Load32(buf, 4 * i), k) == BitAt(buf, 32 * i + k)
  {
    hide Load32, Bit;
    Load32Bit(buf, 4 * i, k);
    assert (32 * i + k) / 8 == 4 * i + k / 8 && (32 * i + k) % 8 == k % 8;
  }

  lemma OnesTwo(buf: seq<uint8>, p: nat)
    requires (p + 1) / 8 < |buf|
    ensures Ones(buf, p, 2) == BitAt(buf, p) + BitAt(buf, p + 1)
  {
    hide BitAt;
    assert Ones(buf, p, 1) == Ones(buf, p, 0) + BitAt(buf, p);
  }

  lemma OnesThree(buf: seq<uint8>, p: nat)
    requires (p + 2) / 8 < |buf|
    ensures Ones(buf, p, 3) == BitAt(buf, p) + BitAt(buf, p + 1) + BitAt(buf, p + 2)
  {
    hide BitAt;
    OnesTwo(buf, p);
  }

  lemma TripleOnes(buf: seq<uint8>, i: nat, k: nat)
    requires |buf| == 192 && i < 64 && k < 8
    ensures TripleCounts(Load24(buf, 3 * i)) / Pow2(3 * k) % 8 == Ones(buf, 24 * i + 3 * k, 3)
  {
    hide *;
    var t := Load24(buf, 3 * i);
    TripleMask(t);
    TripleField(t, 8, k);
    Load24Bits(buf, i, 3 * k);
    Load24Bits(buf, i, 3 * k + 1);
    Load24Bits(buf, i, 3 * k + 2);
    OnesThree(buf, 24 * i + 3 * k);
  }

  /** cbd3: every coefficient is the difference of two counts of three bits. */
  lemma Cbd3Correct(buf: seq<uint8>, i: nat, j: nat)
    requires |buf| == 192 && i < 64 && j < 4
    ensures Cbd3Coefficient(Load24(buf, 3 * i), j) == CbdCoefficient(buf, 3, 4 * i + j)
  {
    hide Load24, TripleCounts, Ones, Pow2;
    TripleOnes(buf, i, 2 * j);
    TripleOnes(buf, i, 2 * j + 1);
    assert 3 * (2 * j) == 6 * j && 3 * (2 * j + 1) == 6 * j + 3;
    assert 6 * (4 * i + j) == 24 * i + 6 * j;
  }

  lemma Load24Bits(buf: seq<uint8>, i: nat, k: nat)
    requires |buf| == 192 && i < 64 && k < 24
    ensures Bit(Load24(buf, 3 * i), k) == BitAt(buf, 24 * i + k)
  {
    hide Load24, Bit;
    Load24Bit(buf, 3 * i, k);
    assert (24 * i + k) / 8 == 3 * i + k / 8 && (24 * i + k) % 8 == k % 8;
  }
}
