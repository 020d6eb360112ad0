/** Byte strings read as consecutive bit fields (algorithms 3 and 6 of FIPS 203), and the packing routines in these terms. */
module Fields {
  import opened Arithmetic
  import opened Words
  import opened ModQ
  import opened Bits
  import opened Cbd
  import opened Poly
  import opened Packing
  import opened Compress
  import opened Sampling

  /** The n bits from position p as a number, least significant bit first. */
  function FieldAt(b: seq<uint8>, p: nat, n: nat): nat
    requires n > 0 ==> (p + n - 1) / 8 < |b|
  {
    if n == 0 then 0 else FieldAt(b, p, n - 1) + BitAt(b, p + n - 1) * Pow2(n - 1)
  }

  // ---- Fields and bytes ----

  lemma {:induction false} PowSum(n: nat, m: nat)
    ensures Pow2(n + m) == Pow2(n) * Pow2(m)
  {
    if n > 0 {
      PowSum(n - 1, m);
      Associate(2, Pow2(n - 1), Pow2(m));
    }
  }

  /** A field of n + m bits is a field of n bits with one of m bits above it. */
  lemma {:induction false} FieldSplit(b: seq<uint8>, p: nat, n: nat, m: nat)
    requires n + m > 0 ==> (p + n + m - 1) / 8 < |b|
    ensures FieldAt(b, p, n + m) == FieldAt(b, p, n) + Pow2(n) * FieldAt(b, p + n, m)
  {
    hide BitAt, Pow2;
    if m > 0 {
      FieldSplit(b, p, n, m - 1);
      PowSum(n, m - 1);
      var low, bit := FieldAt(b, p + n, m - 1), BitAt(b, p + n + m - 1);
      assert FieldAt(b, p, n + m) == FieldAt(b, p, n + m - 1) + bit * Pow2(n + m - 1);
      assert FieldAt(b, p + n, m) == low + bit * Pow2(m - 1);
      Exchange(bit, Pow2(n), Pow2(m - 1));
      Distribute(Pow2(n), low, bit * Pow2(m - 1));
    }
  }

  lemma BitSlice(b: seq<uint8>, lo: nat, hi: nat, q: nat)
    requires lo <= hi <= |b| && q / 8 < hi - lo
    ensures BitAt(b[lo..hi], q) == BitAt(b, 8 * lo + q)
  {
    hide Bit;
    Euclid(q, 8);
    DivUnique(8 * lo + q, 8, lo + q / 8, q % 8);
  }

  /** A slice of whole bytes holds the same fields. */
  lemma {:induction false} FieldSlice(b: seq<uint8>, lo: nat, hi: nat, p: nat, n: nat)
    requires lo <= hi <= |b| && (n > 0 ==> (p + n - 1) / 8 < hi - lo)
    ensures FieldAt(b[lo..hi], p, n) == FieldAt(b, 8 * lo + p, n)
  {
    hide BitAt, Pow2;
    if n > 0 {
      FieldSlice(b, lo, hi, p, n - 1);
      BitSlice(b, lo, hi, p + n - 1);
    }
  }

  /** x without its s low bits. */
  function Shifted(x: nat, s: nat): nat {
    DivNonNegative(x, Pow2(s));
    x / Pow2(s)
  }

  lemma {:induction false} BitShift(x: nat, s: nat, j: nat)
    ensures Bit(x, s + j) == Bit(Shifted(x, s), j)
  {
    if s > 0 {
      BitShift(x / 2, s - 1, j);
      DivDiv(x, Pow2(s - 1));
    }
  }

  /** One more bit of a field of a number. */
  lemma TopBit(x: nat, s: nat, n: nat)
    ensures Shifted(x, s) % Pow2(n + 1) == Shifted(x, s) % Pow2(n) + Bit(x, s + n) * Pow2(n)
  {
    var y := Shifted(x, s);
    BitShift(x, s, n);
    BitShift(y, n, 0);
    assert Bit(x, s + n) == y / Pow2(n) % 2;
    assert Pow2(n + 1) == 2 * Pow2(n);
    hide *;
    RemainderDoubled(y, Pow2(n));
  }

  lemma {:induction false} FieldShifted(b: seq<uint8>, k: nat, s: nat, n: nat)
    requires k < |b| && s + n <= 8
    ensures FieldAt(b, 8 * k + s, n) == Shifted(b[k], s) % Pow2(n)
  {
    hide Shifted, Bit, BitAt;
    if n > 0 {
      hide Pow2;
      FieldShifted(b, k, s, n - 1);
      BitOfByte(b, k, s + (n - 1));
      TopBit(b[k], s, n - 1);
    }
  }

  /** Bits s to s + n - 1 of byte k. */
  lemma FieldInByte(b: seq<uint8>, k: nat, s: nat, n: nat)
    requires k < |b| && s + n <= 8
    ensures FieldAt(b, 8 * k + s, n) == b[k] / Pow2(s) % Pow2(n)
  {
    hide FieldAt, Pow2;
    FieldShifted(b, k, s, n);
  }

  lemma BitOfByte(b: seq<uint8>, k: nat, j: nat)
    requires k < |b| && j < 8
    ensures (8 * k + j) / 8 == k && BitAt(b, 8 * k + j) == Bit(b[k], j)
  {
    hide Bit;
    DivUnique(8 * k + j, 8, k, j);
  }

  lemma BytePowers()
    ensures Pow2(0) == 1 && Pow2(1) == 2 && Pow2(2) == 4 && Pow2(3) == 8 && Pow2(4) == 16 && Pow2(5) == 32 && Pow2(6) == 64
    ensures Pow2(7) == 128 && Pow2(8) == 0x100
  {
  }

  /** A field that ends m bits into byte k + 1; lo, hi and last are the powers of two that cut it out. */
  lemma FieldAcross(b: seq<uint8>, k: nat, s: nat, m: nat, lo: nat, hi: nat, last: nat)
    requires k + 1 < |b| && s < 8 && 0 < m <= 8 && lo == Pow2(s) && hi == Pow2(8 - s) && last == Pow2(m)
    ensures FieldAt(b, 8 * k + s, 8 - s + m) == b[k] / lo + hi * (b[k + 1] % last)
  {
    hide *;
    FieldSplit(b, 8 * k + s, 8 - s, m);
    UpperField(b, k, s, lo);
    assert 8 * k + s + (8 - s) == 8 * (k + 1) + 0;
    LowerField(b, k + 1, m, last);
  }

  lemma UpperField(b: seq<uint8>, k: nat, s: nat, lo: nat)
    requires k < |b| && s < 8 && lo == Pow2(s)
    ensures FieldAt(b, 8 * k + s, 8 - s) == b[k] / lo
  {
    hide *;
    FieldInByte(b, k, s, 8 - s);
    PowSum(s, 8 - s);
    BytePowers();
    UpperBits(b[k], lo, Pow2(8 - s));
  }

  lemma LowerField(b: seq<uint8>, k: nat, m: nat, last: nat)
    requires k < |b| && m <= 8 && last == Pow2(m)
    ensures FieldAt(b, 8 * k + 0, m) == b[k] % last
  {
    hide *;
    FieldInByte(b, k, 0, m);
    BytePowers();
  }

  lemma UpperBits(x: int, lo: int, hi: int)
    requires 0 <= x < lo * hi && lo > 0 && hi > 0
    ensures x / lo % hi == x / lo
  {
    var y := x / lo;
    DivNonNegative(x, lo);
    Euclid(x, lo);
    if y >= hi { MulMonotone(hi, y, lo); }
    DivUnique(y, hi, 0, y);
  }

  // ---- Twelve bits ----

  lemma TwelveField(b: seq<uint8>, m: nat, j: nat)
    requires |b| == 384 && m < 128 && j < 2
    ensures FieldAt(b, 24 * m + 12 * j, 12) == FromByte(b[3 * m], b[3 * m + 1], b[3 * m + 2], j)
  {
    hide *;
    var k := 3 * m;
    FromByteSum(b[k], b[k + 1], b[k + 2]);
    BytePowers();
    if j == 0 {
      FieldAcross(b, k, 0, 4, 1, 256, 16);
      assert 24 * m + 12 * j == 8 * k + 0;
    } else {
      FieldAcross(b, k + 1, 4, 8, 16, 16, 256);
      assert 24 * m + 12 * j == 8 * (k + 1) + 4;
    }
  }

  /** poly_frombytes reads the fields of twelve bits in order. */
  lemma FromBytesFields(b: seq<uint8>, i: nat)
    requires |b| == 384 && i < 256
    ensures FromBytesSpec(b)[i] == FieldAt(b, 12 * i, 12)
  {
    hide *;
    var m, j := i / 2, i % 2;
    Euclid(i, 2);
    FromBytesAt(b, m);
    TwelveField(b, m, j);
    assert 24 * m + 12 * j == 12 * i;
  }

  /** poly_tobytes writes the canonical residues of the coefficients as fields of twelve bits. */
  lemma ToBytesFields(a: Poly, i: nat)
    requires Bounded(a, 3328) && i < 256
    ensures FieldAt(ToBytesSpec(a), 12 * i, 12) == a[i] % Q
  {
    hide *;
    FromBytesToBytes(a);
    FromBytesFields(ToBytesSpec(a), i);
  }

  // ---- Compressed coefficients ----

  /** r is a / n rounded to the nearest integer, halves upwards. */
  predicate Nearest(r: int, a: int, n: int) {
    -n < 2 * (n * r - a) <= n
  }

  lemma TenField(b: seq<uint8>, m: nat, j: nat)
    requires |b| == 320 && m < 64 && j < 4
    ensures FieldAt(b, 40 * m + 10 * j, 10) == TenBits(b[5 * m], b[5 * m + 1], b[5 * m + 2], b[5 * m + 3], b[5 * m + 4], j)
  {
    hide *;
    var k := 5 * m;
    var a0, a1, a2, a3, a4 := b[k], b[k + 1], b[k + 2], b[k + 3], b[k + 4];
    BytePowers();
    if j == 0 {
      TenBits0(a0, a1, a2, a3, a4);
      FieldAcross(b, k, 0, 2, 1, 256, 4);
      assert 40 * m + 10 * j == 8 * k + 0;
    } else if j == 1 {
      TenBits1(a0, a1, a2, a3, a4);
      FieldAcross(b, k + 1, 2, 4, 4, 64, 16);
      assert 40 * m + 10 * j == 8 * (k + 1) + 2;
    } else if j == 2 {
      TenBits2(a0, a1, a2, a3, a4);
      FieldAcross(b, k + 2, 4, 6, 16, 16, 64);
      assert 40 * m + 10 * j == 8 * (k + 2) + 4;
    } else {
      TenBits3(a0, a1, a2, a3, a4);
      FieldAcross(b, k + 3, 6, 8, 64, 4, 256);
      assert 40 * m + 10 * j == 8 * (k + 3) + 6;
    }
  }

  /** polyvec_decompress reads fields of ten bits; t becomes q * t / 1024, rounded. */
  lemma DecompressTenFields(b: seq<uint8>, i: nat)
    requires |b| == 320 && i < 256
    ensures FieldAt(b, 10 * i, 10) < 1024 && PolyDecompress10Spec(b)[i] == Decompress10(FieldAt(b, 10 * i, 10))
    ensures Nearest(PolyDecompress10Spec(b)[i], Q * FieldAt(b, 10 * i, 10), 1024)
  {
    hide *;
    var m, j := i / 4, i % 4;
    Euclid(i, 4);
    Decompress10At(b, m, j);
    TenField(b, m, j);
    assert 40 * m + 10 * j == 10 * i;
    DecompressTenNearest(FieldAt(b, 10 * i, 10));
  }

  lemma DecompressTenNearest(t: nat)
    requires t < 1024
    ensures Nearest(Decompress10(t), Q * t, 1024)
  {
    hide Decompress10;
    var d := Decompress10Is(t);
  }

  lemma DecompressFourNearest(t: nat)
    requires t < 16
    ensures Nearest(Decompress4(t), Q * t, 16)
  {
    hide Decompress4;
    var d := Decompress4Is(t);
  }

  /** polyvec_compress writes 1024 * x / q, rounded, modulo 1024, as fields of ten bits. */
  lemma CompressTenFields(a: Poly, i: nat)
    requires Bounded(a, 3328) && i < 256
    ensures FieldAt(PolyCompress10Spec(a), 10 * i, 10) == RoundScaled(a[i] % Q, 1024)
  {
    hide Compress10, Decompress10, PolyCompress10Spec, PolyDecompress10Spec, FieldAt, Nearest, RoundScaled;
    var t := FieldAt(PolyCompress10Spec(a), 10 * i, 10);
    DecompressTenFields(PolyCompress10Spec(a), i);
    DecompressCompress10(a, i);
    Compress10Inverse(t);
    Compress10Inverse(Compress10(a[i]));
    Compress10Rounds(a[i]);
  }

  /** poly_decompress reads fields of four bits; t becomes q * t / 16, rounded. */
  lemma DecompressFourFields(b: seq<uint8>, i: nat)
    requires |b| == 128 && i < 256
    ensures FieldAt(b, 4 * i, 4) < 16 && PolyDecompressSpec(b)[i] == Decompress4(FieldAt(b, 4 * i, 4))
    ensures Nearest(PolyDecompressSpec(b)[i], Q * FieldAt(b, 4 * i, 4), 16)
  {
    hide *;
    var m := i / 2;
    Decompress4At(b, m);
    BytePowers();
    if i == 2 * m {
      FieldInByte(b, m, 0, 4);
    } else {
      FieldInByte(b, m, 4, 4);
      UpperBits(b[m], 16, 16);
    }
    DecompressFourNearest(FieldAt(b, 4 * i, 4));
  }

  lemma CompressFourFields(a: Poly, i: nat)
    requires Bounded(a, 3328) && i < 256
    ensures FieldAt(PolyCompressSpec(a), 4 * i, 4) == RoundScaled(a[i] % Q, 16)
  {
    hide Compress4, Decompress4, PolyCompressSpec, PolyDecompressSpec, FieldAt, Nearest, RoundScaled;
    var t := FieldAt(PolyCompressSpec(a), 4 * i, 4);
    DecompressFourFields(PolyCompressSpec(a), i);
    DecompressCompress4(a);
    Compress4Inverse(t);
    Compress4Inverse(Compress4(a[i]));
    Compress4Rounds(a[i]);
  }

  // ---- Messages ----

  lemma BitField(m: seq<uint8>, p: nat)
    requires p / 8 < |m|
    ensures FieldAt(m, p, 1) == m[p / 8] / Pow2(p % 8) % 2
  {
    hide *;
    BytePowers();
    Euclid(p, 8);
    FieldInByte(m, p / 8, p % 8, 1);
  }

  /** poly_frommsg: 1665 for every bit that is one. */
  lemma FromMsgFields(m: seq<uint8>, p: nat)
    requires |m| == 32 && p < 256
    ensures FromMsgSpec(m)[p] == 1665 * FieldAt(m, p, 1)
  {
    hide FieldAt, Pow2;
    BitField(m, p);
  }

  /** poly_tomsg: 2 * x / q rounded, modulo 2. */
  lemma ToMsgFields(a: Poly, p: nat)
    requires Bounded(a, 1664) && p < 256
    ensures FieldAt(ToMsgSpec(a), p, 1) == RoundScaled(a[p] % Q, 2)
  {
    hide MsgByte, FieldAt, Pow2, MsgBit, RoundScaled;
    BitField(ToMsgSpec(a), p);
    MsgByteBit(a, p / 8, 8, p % 8);
    MsgBitRounds(a[p]);
    RoundToBit(a[p]);
  }

  lemma RoundToBit(c: int)
    requires -1664 <= c <= 1664
    ensures RoundScaled(c % Q, 2) == if c < -832 || 832 < c then 1 else 0
  {
    var x := c % Q;
    assert x == if c < 0 then c + Q else c;
  }

  // ---- Rejection sampling ----

  /** A candidate is kept when it is below q. */
  function Kept(d: nat): seq<int16> {
    if d < Q then [d] else []
  }

  /** Of the first n fields of twelve bits, those below q, in order. */
  function FieldsBelow(b: seq<uint8>, n: nat): seq<int16>
    requires 3 * n <= 2 * |b|
  {
    if n == 0 then [] else FieldsBelow(b, n - 1) + Kept(FieldAt(b, 12 * (n - 1), 12))
  }

  lemma TripleFields(b: seq<uint8>, k: nat)
    requires k + 3 <= |b|
    ensures Accept3(b[k], b[k + 1], b[k + 2]) == Kept(FieldAt(b, 8 * k, 12)) + Kept(FieldAt(b, 8 * k + 12, 12))
  {
    hide *;
    BytePowers();
    FieldAcross(b, k, 0, 4, 1, 256, 16);
    FieldAcross(b, k + 1, 4, 8, 16, 16, 256);
    Accept3Is(b[k], b[k + 1], b[k + 2]);
  }

  lemma BelowNone(b: seq<uint8>)
    ensures Accept(b[..3 * 0]) == FieldsBelow(b, 2 * 0)
  {
    hide FieldAt;
    AcceptNone(b);
  }

  lemma AcceptTriple(b: seq<uint8>, n: nat)
    requires n > 0 && 3 * n <= |b|
    ensures Accept(b[..3 * n]) == Accept(b[..3 * n - 3]) + (Kept(FieldAt(b, 24 * n - 24, 12)) + Kept(FieldAt(b, 24 * n - 12, 12)))
  {
    hide *;
    AcceptStep(b, 3 * n - 3);
    TripleFields(b, 3 * n - 3);
  }

  lemma BelowStep(b: seq<uint8>, n: nat)
    requires n > 0 && 3 * n <= |b|
    ensures FieldsBelow(b, 2 * n)
         == FieldsBelow(b, 2 * n - 2) + (Kept(FieldAt(b, 24 * n - 24, 12)) + Kept(FieldAt(b, 24 * n - 12, 12)))
  {
    hide FieldAt, Kept;
    assert FieldsBelow(b, 2 * n - 1) == FieldsBelow(b, 2 * n - 2) + Kept(FieldAt(b, 12 * (2 * n - 2), 12));
  }

  /** Rejection sampling keeps the fields below q of all complete triples of bytes. */
  lemma {:induction false} AcceptFields(b: seq<uint8>, n: nat)
    requires 3 * n <= |b|
    ensures Accept(b[..3 * n]) == FieldsBelow(b, 2 * n)
  {
    hide *;
    if n == 0 {
      BelowNone(b);
    } else {
      AcceptFields(b, n - 1);
      assert 3 * (n - 1) == 3 * n - 3 && 2 * (n - 1) == 2 * n - 2;
      AcceptTriple(b, n);
      BelowStep(b, n);
    }
  }

  lemma Accept3Is(c0: uint8, c1: uint8, c2: uint8)
    ensures Accept3(c0, c1, c2) == Kept(c0 + c1 % 16 * 0x100) + Kept(c1 / 16 + c2 * 16)
  {
  }
}
