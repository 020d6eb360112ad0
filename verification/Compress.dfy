/** Lossy compression of poly.c (4 bits) and polyvec.c (10 bits), with its byte layout. */
module Compress {
  import opened Arithmetic
  import opened Words
  import opened ModQ
  import opened Bits
  import opened Poly
  import opened Packing

  // ---- One coefficient ----

  /** Multiply-and-shift in wrapping 32-bit arithmetic, as in poly_compress. */
  function Compress4(c: int16): (t: nat)
    ensures t < 16
  {
    var u := ToInt16(c + (if c < 0 then Q else 0));
    ToUint32(ToUint32(ToUint32(u * 16) + 1665) * 80635) / 0x1000_0000 % 16
  }

  /** Multiply-and-shift in 64-bit arithmetic, as in polyvec_compress. */
  function Compress10(c: int16): (t: nat)
    ensures t < 1024
  {
    (Canonical(c) * 1024 + 1665) * 1290167 / 0x1_0000_0000 % 1024
  }

  function Decompress4(t: nat): int16
    requires t < 16
  {
    (t * Q + 8) / 16
  }

  function Decompress10(t: nat): int16
    requires t < 1024
  {
    (t * Q + 512) / 1024
  }

  /** n * x / q rounded to the nearest integer, modulo n (section 4.2.1 of FIPS 203, with n = 2^d). */
  function RoundScaled(x: nat, n: nat): nat
    requires n > 0
  {
    (2 * n * x + Q) / (2 * Q) % n
  }

  /** Distance from zero modulo q. */
  function CentredAbs(x: int): nat {
    Abs((x + 1664) % Q - 1664)
  }

  /** Rounding quotient t and positive remainder w of p / q: p + 1665 = q * t + w. */
  lemma RoundingParts(p: int, n: int) returns (t: int, w: int)
    requires 0 <= p < Q * n
    ensures t == (2 * p + Q) / (2 * Q)
    ensures p + 1665 == Q * t + w && 1 <= w <= Q && 0 <= t <= n
  {
    t := (2 * p + Q) / (2 * Q);
    w := p + 1665 - Q * t;
    Euclid(2 * p + Q, 2 * Q);
  }

  lemma Compress4Shape(c: int16, x: int)
    requires -Q < c < Q && x == (if c < 0 then c + Q else c)
    ensures Compress4(c) == ToUint32((x * 16 + 1665) * 80635) / 0x1000_0000 % 16
  {
    assert ToInt16(c + (if c < 0 then Q else 0)) == x;
    hide ToInt16, ToUint32;
    ToUint32Is(x * 16, 0);
    ToUint32Is(x * 16 + 1665, 0);
  }

  /** The 32-bit product wraps only when the quotient is 16, which the final mask removes anyway. */
  lemma Compress4Quotient(x: int, t: int, w: int)
    requires 0 <= x < Q && x * 16 + 1665 == Q * t + w && 1 <= w <= Q && 0 <= t <= 16
    ensures ToUint32((x * 16 + 1665) * 80635) / 0x1000_0000 % 16 == t % 16
  {
    var d, r := (x * 16 + 1665) * 80635, 80635 * w - 1541 * t;
    assert d == 0x1000_0000 * t + r && 0 <= r < 0x1000_0000;
    if t == 16 {
      DivUnique(d, 0x1_0000_0000, 1, r);
      DivUnique(r, 0x1000_0000, 0, r);
    } else {
      DivUnique(d, 0x1_0000_0000, 0, d);
      DivUnique(d, 0x1000_0000, t, r);
    }
  }

  /** The quotient t behind a compressed coefficient: n * x / q + 1/2 = t + (2w - 1) / 2q. */
  lemma Compress4Parts(c: int16) returns (x: int, t: int, w: int)
    requires -Q < c < Q
    ensures x == (if c < 0 then c + Q else c) == c % Q
    ensures 16 * x + 1665 == Q * t + w && 1 <= w <= Q && 0 <= t <= 16
    ensures t == (2 * 16 * x + Q) / (2 * Q) && Compress4(c) == t % 16
  {
    hide Compress4, ToUint32;
    x := if c < 0 then c + Q else c;
    t, w := RoundingParts(16 * x, 16);
    Compress4Shape(c, x);
    Compress4Quotient(x, t, w);
  }

  /** The multiply-and-shift form is rounding of 16 * x / q for every coefficient below q. */
  lemma Compress4Rounds(c: int16)
    requires -Q < c < Q
    ensures Compress4(c) == RoundScaled(c % Q, 16)
  {
    hide Compress4;
    var x, t, w := Compress4Parts(c);
  }

  /** The one remainder that could round the wrong way does not occur for large quotients. */
  lemma RemainderOne(x: int, t: int)
    requires 1024 * x + 1665 == Q * t + 1 && t <= 1024
    ensures t <= 896
  {
    var y := x - 3 * t;
    assert 256 * (4 * y - t) == t - 1664;
  }

  lemma Compress10Quotient(x: int, t: int, w: int)
    requires 0 <= x < Q && x * 1024 + 1665 == Q * t + w && 1 <= w <= Q && 0 <= t <= 1024
    ensures (x * 1024 + 1665) * 1290167 / 0x1_0000_0000 == t
  {
    if w == 1 { RemainderOne(x, t); }
    var d, r := (x * 1024 + 1665) * 1290167, 1290167 * w - 1353 * t;
    assert d == 0x1_0000_0000 * t + r && 0 <= r < 0x1_0000_0000;
    DivUnique(d, 0x1_0000_0000, t, r);
  }

  lemma Compress10Parts(c: int16) returns (x: int, t: int, w: int)
    requires -Q < c < Q
    ensures x == (if c < 0 then c + Q else c) == c % Q
    ensures 1024 * x + 1665 == Q * t + w && 1 <= w <= Q && 0 <= t <= 1024
    ensures t == (2 * 1024 * x + Q) / (2 * Q) && Compress10(c) == t % 1024
  {
    CanonicalResidue(c);
    x := Canonical(c);
    assert Compress10(c) == (x * 1024 + 1665) * 1290167 / 0x1_0000_0000 % 1024;
    hide Compress10, Canonical;
    t, w := RoundingParts(1024 * x, 1024);
    Compress10Quotient(x, t, w);
  }

  lemma Compress10Rounds(c: int16)
    requires -Q < c < Q
    ensures Compress10(c) == RoundScaled(c % Q, 1024)
  {
    hide Compress10;
    var x, t, w := Compress10Parts(c);
  }

  // ---- Compression undoes decompression ----

  lemma DecompressedRounds(v: int, n: int, x: int, d: int)
    requires (n == 16 || n == 1024) && 0 <= v < n && n * x == Q * v + n / 2 - d && 0 <= d < n
    ensures (2 * n * x + Q) / (2 * Q) == v
  {
    assert 2 * n * x == 2 * (n * x);
    DivUnique(2 * n * x + Q, 2 * Q, v, Q + n - 2 * d);
  }

  /** Decompression rounds up: the remainder d is what it drops. */
  lemma Decompress4Is(v: nat) returns (d: nat)
    requires v < 16
    ensures 16 * Decompress4(v) == Q * v + 8 - d && d < 16
  {
    d := (v * Q + 8) % 16;
    Euclid(v * Q + 8, 16);
  }

  lemma Compress4Inverse(v: nat)
    requires v < 16
    ensures Compress4(Decompress4(v)) == v
  {
    hide Compress4, Decompress4;
    var x: int := Decompress4(v);
    var d := Decompress4Is(v);
    var y, t, w := Compress4Parts(x);
    DecompressedRounds(v, 16, x, d);
  }

  /** Decompression rounds up: the remainder d is what it drops. */
  lemma Decompress10Is(v: nat) returns (d: nat)
    requires v < 1024
    ensures 1024 * Decompress10(v) == Q * v + 512 - d && d < 1024
  {
    d := (v * Q + 512) % 1024;
    Euclid(v * Q + 512, 1024);
  }

  lemma Compress10Inverse(v: nat)
    requires v < 1024
    ensures Compress10(Decompress10(v)) == v
  {
    hide Compress10, Decompress10;
    var x: int := Decompress10(v);
    var d := Decompress10Is(v);
    var y, t, w := Compress10Parts(x);
    DecompressedRounds(v, 1024, x, d);
  }

  // ---- Decompression after compression moves a coefficient only a little ----

  lemma CentredClose(z: int, e: int)
    requires 0 <= e <= 1664
    requires -e <= z <= e || -e <= z + Q <= e || -e <= z - Q <= e
    ensures CentredAbs(z) <= e
  {
  }

  lemma Compress4Error(c: int16)
    requires -Q < c < Q
    ensures CentredAbs(Decompress4(Compress4(c)) as int - c) <= 104
  {
    hide Compress4, Decompress4, CentredAbs;
    var x, t, w := Compress4Parts(c);
    var d := Decompress4Is(t % 16);
    var y: int := Decompress4(t % 16);
    var z := if t == 16 then y + Q else y;
    assert 16 * z == Q * t + 8 - d;
    assert -104 <= z - x <= 104;
    CentredClose(y - c, 104);
  }

  lemma Compress10Error(c: int16)
    requires -Q < c < Q
    ensures CentredAbs(Decompress10(Compress10(c)) as int - c) <= 2
  {
    hide Compress10, Decompress10, CentredAbs;
    var x, t, w := Compress10Parts(c);
    var d := Decompress10Is(t % 1024);
    var y: int := Decompress10(t % 1024);
    var z := if t == 1024 then y + Q else y;
    assert 1024 * z == Q * t + 512 - d;
    assert -2 <= z - x <= 2;
    CentredClose(y - c, 2);
  }

  // ---- Four bits per coefficient ----

  function PolyCompressSpec(a: Poly): (r: seq<uint8>)
    ensures |r| == 128
  {
    seq(128, i requires 0 <= i < 128 => Or(Compress4(a[2 * i]), Compress4(a[2 * i + 1]) * 16) % 0x100)
  }

  function PolyDecompressSpec(b: seq<uint8>): Poly
    requires |b| == 128
  {
    seq(256, i requires 0 <= i < 256 => Decompress4(if i % 2 == 0 then b[i / 2] % 16 else b[i / 2] / 16))
  }

  lemma Nibbles(lo: nat, hi: nat)
    requires lo < 16 && hi < 16
    ensures var b := Or(lo, hi * 16) % 0x100; b == lo + hi * 16 && b % 16 == lo && b / 16 == hi
  {
    assert Pow2(4) == 16;
    OrDisjoint(lo, hi, 4);
    hide Or, Pow2;
    DivUnique(lo + hi * 16, 16, hi, lo);
  }

  lemma Compress4At(a: Poly, m: nat)
    requires m < 128
    ensures PolyCompressSpec(a)[m] == Compress4(a[2 * m]) + Compress4(a[2 * m + 1]) * 16
    ensures PolyCompressSpec(a)[m] % 16 == Compress4(a[2 * m]) && PolyCompressSpec(a)[m] / 16 == Compress4(a[2 * m + 1])
  {
    hide Compress4, Or;
    Nibbles(Compress4(a[2 * m]), Compress4(a[2 * m + 1]));
  }

  lemma Decompress4At(b: seq<uint8>, m: nat)
    requires |b| == 128 && m < 128
    ensures PolyDecompressSpec(b)[2 * m] == Decompress4(b[m] % 16)
    ensures PolyDecompressSpec(b)[2 * m + 1] == Decompress4(b[m] / 16)
  {
    hide Decompress4;
    DivUnique(2 * m, 2, m, 0);
    DivUnique(2 * m + 1, 2, m, 1);
  }

  lemma DecompressCompress4(a: Poly)
    ensures forall i :: 0 <= i < 256 ==> PolyDecompressSpec(PolyCompressSpec(a))[i] == Decompress4(Compress4(a[i]))
  {
    hide *;
    forall i | 0 <= i < 256 ensures PolyDecompressSpec(PolyCompressSpec(a))[i] == Decompress4(Compress4(a[i])) {
      var m := i / 2;
      Compress4At(a, m);
      Decompress4At(PolyCompressSpec(a), m);
      assert i == 2 * m || i == 2 * m + 1;
    }
  }

  /** Compressing a decompressed polynomial gives the bytes back, for every string of 128 bytes. */
  lemma CompressDecompress4(b: seq<uint8>)
    requires |b| == 128
    ensures PolyCompressSpec(PolyDecompressSpec(b)) == b
  {
    hide *;
    var a := PolyDecompressSpec(b);
    forall i | 0 <= i < 128 ensures PolyCompressSpec(a)[i] == b[i] {
      Decompress4At(b, i);
      Compress4Inverse(b[i] % 16);
      Compress4Inverse(b[i] / 16);
      Compress4At(a, i);
      Euclid(b[i], 16);
    }
  }

  /** poly_compress, writing at offset `at`: eight coefficients to four bytes in every step. */
  method PolyCompress(r: array<uint8>, at: nat, a: array<int16>)
    requires a.Length == 256 && at + 128 <= r.Length
    modifies r
    ensures r[..] == old(r[..at]) + PolyCompressSpec(a[..]) + old(r[at + 128..])
  {
    hide Compress4, Or;
    ghost var was := r[..];
    var t := new nat[8];
    for i := 0 to 32
      invariant forall p :: 0 <= p < r.Length ==>
        r[p] == if at <= p < at + 4 * i then PolyCompressSpec(a[..])[p - at] else was[p]
    {
      for j := 0 to 8
        invariant forall k :: 0 <= k < j ==> t[k] == Compress4(a[8 * i + k])
        modifies t
      {
        t[j] := Compress4(a[8 * i + j]);
      }
      for j := 0 to 4
        invariant forall p :: 0 <= p < r.Length ==>
          r[p] == if at <= p < at + 4 * i + j then PolyCompressSpec(a[..])[p - at] else was[p]
        modifies r
      {
        r[at + 4 * i + j] := Or(t[2 * j], t[2 * j + 1] * 16) % 0x100;
      }
    }
  }

  method PolyDecompress(r: array<int16>, b: array<uint8>, at: nat)
    requires r.Length == 256 && at + 128 <= b.Length
    modifies r
    ensures r[..] == PolyDecompressSpec(b[at..at + 128])
  {
    hide Decompress4;
    for i := 0 to 128
      invariant forall p :: 0 <= p < 2 * i ==> r[p] == PolyDecompressSpec(b[at..at + 128])[p]
    {
      r[2 * i] := Decompress4(b[at + i] % 16);
      r[2 * i + 1] := Decompress4(b[at + i] / 16);
    }
  }

  // ---- Ten bits per coefficient ----

  /** Byte i of the five bytes that hold four ten-bit values. */
  function TenByte(t0: nat, t1: nat, t2: nat, t3: nat, i: nat): uint8 {
    if i == 0 then t0 % 0x100
    else if i == 1 then Or(t0 / 0x100, t1 * 4) % 0x100
    else if i == 2 then Or(t1 / 64, t2 * 16) % 0x100
    else if i == 3 then Or(t2 / 16, t3 * 64) % 0x100
    else t3 / 4 % 0x100
  }

  /** Ten-bit value j of the four held in five bytes. */
  function TenBits(a0: uint8, a1: uint8, a2: uint8, a3: uint8, a4: uint8, j: nat): (t: nat)
    ensures t < 1024
  {
    (if j == 0 then Or(a0, a1 * 0x100)
     else if j == 1 then Or(a1 / 4, a2 * 64)
     else if j == 2 then Or(a2 / 16, a3 * 16)
     else Or(a3 / 64, a4 * 4)) % 0x1_0000 % 1024
  }

  lemma SmallPowers()
    ensures Pow2(2) == 4 && Pow2(4) == 16 && Pow2(6) == 64 && Pow2(8) == 0x100
  {
  }

  /** The low byte of two fields set side by side: the second one loses what does not fit. */
  lemma CarryByte(low: nat, t: nat, m: nat, n: nat)
    requires (m == 4 && n == 64) || (m == 16 && n == 16) || (m == 64 && n == 4)
    requires low < m
    ensures (low + t * m) % 0x100 == low + t % n * m
  {
    Euclid(t, n);
    if m == 4 {
      DivUnique(low + t * 4, 0x100, t / 64, low + t % 64 * 4);
    } else if m == 16 {
      DivUnique(low + t * 16, 0x100, t / 16, low + t % 16 * 16);
    } else {
      DivUnique(low + t * 64, 0x100, t / 4, low + t % 4 * 64);
    }
  }

  lemma TenByteSums(t0: nat, t1: nat, t2: nat, t3: nat)
    requires t0 < 1024 && t1 < 1024 && t2 < 1024 && t3 < 1024
    ensures TenByte(t0, t1, t2, t3, 0) == t0 % 0x100
    ensures TenByte(t0, t1, t2, t3, 1) == t0 / 0x100 + t1 % 64 * 4
    ensures TenByte(t0, t1, t2, t3, 2) == t1 / 64 + t2 % 16 * 16
    ensures TenByte(t0, t1, t2, t3, 3) == t2 / 16 + t3 % 4 * 64
    ensures TenByte(t0, t1, t2, t3, 4) == t3 / 4
  {
    hide Or, Pow2;
    SmallPowers();
    OrDisjoint(t0 / 0x100, t1, 2);
    OrDisjoint(t1 / 64, t2, 4);
    OrDisjoint(t2 / 16, t3, 6);
    CarryByte(t0 / 0x100, t1, 4, 64);
    CarryByte(t1 / 64, t2, 16, 16);
    CarryByte(t2 / 16, t3, 64, 4);
    DivUnique(t3 / 4, 0x100, 0, t3 / 4);
  }

  lemma LowTen(x: nat, q: nat, r: nat)
    requires x == 1024 * q + r && r < 1024 && x < 0x1_0000
    ensures x % 0x1_0000 % 1024 == r
  {
    DivUnique(x, 0x1_0000, 0, x);
    DivUnique(x, 1024, q, r);
  }

  lemma TenBits0(a0: uint8, a1: uint8, a2: uint8, a3: uint8, a4: uint8)
    ensures TenBits(a0, a1, a2, a3, a4, 0) == a0 + a1 % 4 * 0x100
  {
    hide Or, Pow2;
    SmallPowers();
    OrDisjoint(a0, a1, 8);
    Euclid(a1, 4);
    LowTen(a0 + a1 * 0x100, a1 / 4, a0 + a1 % 4 * 0x100);
  }

  lemma TenBits1(a0: uint8, a1: uint8, a2: uint8, a3: uint8, a4: uint8)
    ensures TenBits(a0, a1, a2, a3, a4, 1) == a1 / 4 + a2 % 16 * 64
  {
    hide Or, Pow2;
    SmallPowers();
    OrDisjoint(a1 / 4, a2, 6);
    Euclid(a2, 16);
    LowTen(a1 / 4 + a2 * 64, a2 / 16, a1 / 4 + a2 % 16 * 64);
  }

  lemma TenBits2(a0: uint8, a1: uint8, a2: uint8, a3: uint8, a4: uint8)
    ensures TenBits(a0, a1, a2, a3, a4, 2) == a2 / 16 + a3 % 64 * 16
  {
    hide Or, Pow2;
    SmallPowers();
    OrDisjoint(a2 / 16, a3, 4);
    Euclid(a3, 64);
    LowTen(a2 / 16 + a3 * 16, a3 / 64, a2 / 16 + a3 % 64 * 16);
  }

  lemma TenBits3(a0: uint8, a1: uint8, a2: uint8, a3: uint8, a4: uint8)
    ensures TenBits(a0, a1, a2, a3, a4, 3) == a3 / 64 + a4 * 4
  {
    hide Or, Pow2;
    SmallPowers();
    OrDisjoint(a3 / 64, a4, 2);
    LowTen(a3 / 64 + a4 * 4, 0, a3 / 64 + a4 * 4);
  }

  lemma TenBitsSums(a0: uint8, a1: uint8, a2: uint8, a3: uint8, a4: uint8)
    ensures TenBits(a0, a1, a2, a3, a4, 0) == a0 + a1 % 4 * 0x100
    ensures TenBits(a0, a1, a2, a3, a4, 1) == a1 / 4 + a2 % 16 * 64
    ensures TenBits(a0, a1, a2, a3, a4, 2) == a2 / 16 + a3 % 64 * 16
    ensures TenBits(a0, a1, a2, a3, a4, 3) == a3 / 64 + a4 * 4
  {
    hide *;
    TenBits0(a0, a1, a2, a3, a4);
    TenBits1(a0, a1, a2, a3, a4);
    TenBits2(a0, a1, a2, a3, a4);
    TenBits3(a0, a1, a2, a3, a4);
  }

  lemma TenUnpack(t0: nat, t1: nat, t2: nat, t3: nat, a0: uint8, a1: uint8, a2: uint8, a3: uint8, a4: uint8)
    requires t0 < 1024 && t1 < 1024 && t2 < 1024 && t3 < 1024
    requires a0 == TenByte(t0, t1, t2, t3, 0) && a1 == TenByte(t0, t1, t2, t3, 1) && a2 == TenByte(t0, t1, t2, t3, 2)
    requires a3 == TenByte(t0, t1, t2, t3, 3) && a4 == TenByte(t0, t1, t2, t3, 4)
    ensures TenBits(a0, a1, a2, a3, a4, 0) == t0 && TenBits(a0, a1, a2, a3, a4, 1) == t1
    ensures TenBits(a0, a1, a2, a3, a4, 2) == t2 && TenBits(a0, a1, a2, a3, a4, 3) == t3
  {
    hide TenByte, TenBits;
    TenByteSums(t0, t1, t2, t3);
    TenBitsSums(a0, a1, a2, a3, a4);
    DivUnique(a1, 4, t1 % 64, t0 / 0x100);
    DivUnique(a2, 16, t2 % 16, t1 / 64);
    DivUnique(a3, 64, t3 % 4, t2 / 16);
  }

  lemma TenPack(a0: uint8, a1: uint8, a2: uint8, a3: uint8, a4: uint8)
    ensures var t0, t1 := TenBits(a0, a1, a2, a3, a4, 0), TenBits(a0, a1, a2, a3, a4, 1);
            var t2, t3 := TenBits(a0, a1, a2, a3, a4, 2), TenBits(a0, a1, a2, a3, a4, 3);
            && TenByte(t0, t1, t2, t3, 0) == a0 && TenByte(t0, t1, t2, t3, 1) == a1 && TenByte(t0, t1, t2, t3, 2) == a2
            && TenByte(t0, t1, t2, t3, 3) == a3 && TenByte(t0, t1, t2, t3, 4) == a4
  {
    hide TenByte, TenBits;
    TenBitsSums(a0, a1, a2, a3, a4);
    var t0, t1 := TenBits(a0, a1, a2, a3, a4, 0), TenBits(a0, a1, a2, a3, a4, 1);
    var t2, t3 := TenBits(a0, a1, a2, a3, a4, 2), TenBits(a0, a1, a2, a3, a4, 3);
    TenByteSums(t0, t1, t2, t3);
    DivUnique(t0, 0x100, a1 % 4, a0);
    DivUnique(t1, 64, a2 % 16, a1 / 4);
    DivUnique(t2, 16, a3 % 64, a2 / 16);
    DivUnique(t3, 4, a4, a3 / 64);
  }

  function PolyCompress10Spec(a: Poly): (r: seq<uint8>)
    ensures |r| == 320
  {
    seq(320, i requires 0 <= i < 320 =>
      TenByte(Compress10(a[4 * (i / 5)]), Compress10(a[4 * (i / 5) + 1]),
              Compress10(a[4 * (i / 5) + 2]), Compress10(a[4 * (i / 5) + 3]), i % 5))
  }

  function PolyDecompress10Spec(b: seq<uint8>): Poly
    requires |b| == 320
  {
    seq(256, i requires 0 <= i < 256 =>
      Decompress10(TenBits(b[5 * (i / 4)], b[5 * (i / 4) + 1], b[5 * (i / 4) + 2],
                           b[5 * (i / 4) + 3], b[5 * (i / 4) + 4], i % 4)))
  }

  lemma Compress10At(a: Poly, m: nat, i: nat)
    requires m < 64 && i < 5
    ensures PolyCompress10Spec(a)[5 * m + i]
         == TenByte(Compress10(a[4 * m]), Compress10(a[4 * m + 1]), Compress10(a[4 * m + 2]), Compress10(a[4 * m + 3]), i)
  {
    hide Compress10, TenByte;
    DivUnique(5 * m + i, 5, m, i);
  }

  lemma Decompress10At(b: seq<uint8>, m: nat, j: nat)
    requires |b| == 320 && m < 64 && j < 4
    ensures PolyDecompress10Spec(b)[4 * m + j] == Decompress10(TenBits(b[5 * m], b[5 * m + 1], b[5 * m + 2], b[5 * m + 3], b[5 * m + 4], j))
  {
    hide Decompress10, TenBits;
    DivUnique(4 * m + j, 4, m, j);
  }

  lemma DecompressCompress10(a: Poly, i: nat)
    requires i < 256
    ensures PolyDecompress10Spec(PolyCompress10Spec(a))[i] == Decompress10(Compress10(a[i]))
  {
    hide *;
    var m, j, b := i / 4, i % 4, PolyCompress10Spec(a);
    Compress10At(a, m, 0);
    Compress10At(a, m, 1);
    Compress10At(a, m, 2);
    Compress10At(a, m, 3);
    Compress10At(a, m, 4);
    TenUnpack(Compress10(a[4 * m]), Compress10(a[4 * m + 1]), Compress10(a[4 * m + 2]), Compress10(a[4 * m + 3]),
              b[5 * m], b[5 * m + 1], b[5 * m + 2], b[5 * m + 3], b[5 * m + 4]);
    Decompress10At(b, m, j);
  }

  /** Compressing a decompressed polynomial gives the bytes back, for every string of 320 bytes. */
  lemma CompressDecompress10(b: seq<uint8>)
    requires |b| == 320
    ensures PolyCompress10Spec(PolyDecompress10Spec(b)) == b
  {
    hide *;
    var a := PolyDecompress10Spec(b);
    forall i | 0 <= i < 320 ensures PolyCompress10Spec(a)[i] == b[i] {
      var m, j := i / 5, i % 5;
      var a0, a1, a2, a3, a4 := b[5 * m], b[5 * m + 1], b[5 * m + 2], b[5 * m + 3], b[5 * m + 4];
      Decompress10At(b, m, 0);
      Decompress10At(b, m, 1);
      Decompress10At(b, m, 2);
      Decompress10At(b, m, 3);
      Compress10Inverse(TenBits(a0, a1, a2, a3, a4, 0));
      Compress10Inverse(TenBits(a0, a1, a2, a3, a4, 1));
      Compress10Inverse(TenBits(a0, a1, a2, a3, a4, 2));
      Compress10Inverse(TenBits(a0, a1, a2, a3, a4, 3));
      Compress10At(a, m, j);
      TenPack(a0, a1, a2, a3, a4);
    }
  }

  /** The body of polyvec_compress for one polynomial: four coefficients to five bytes in every step. */
  method PolyCompress10(r: array<uint8>, at: nat, a: array<int16>)
    requires a.Length == 256 && at + 320 <= r.Length
    modifies r
    ensures r[..] == old(r[..at]) + PolyCompress10Spec(a[..]) + old(r[at + 320..])
  {
    hide Compress10, TenByte, PolyCompress10Spec;
    ghost var was := r[..];
    ghost var spec := PolyCompress10Spec(a[..]);
    var t := new nat[4];
    for j := 0 to 64
      invariant forall p :: 0 <= p < r.Length ==> r[p] == if at <= p < at + 5 * j then spec[p - at] else was[p]
    {
      for k := 0 to 4
        invariant forall p :: 0 <= p < k ==> t[p] == Compress10(a[4 * j + p])
        modifies t
      {
        t[k] := Compress10(a[4 * j + k]);
      }
      for i := 0 to 5
        invariant forall p :: 0 <= p < r.Length ==> r[p] == if at <= p < at + 5 * j + i then spec[p - at] else was[p]
        modifies r
      {
        Compress10At(a[..], j, i);
        r[at + 5 * j + i] := TenByte(t[0], t[1], t[2], t[3], i);
      }
    }
  }

  method PolyDecompress10(r: array<int16>, b: array<uint8>, at: nat)
    requires r.Length == 256 && at + 320 <= b.Length
    modifies r
    ensures r[..] == PolyDecompress10Spec(b[at..at + 320])
  {
    hide Decompress10, TenBits, PolyDecompress10Spec;
    ghost var s := b[at..at + 320];
    for j := 0 to 64
      invariant forall p :: 0 <= p < 4 * j ==> r[p] == PolyDecompress10Spec(s)[p]
    {
      var a0, a1, a2, a3, a4 := b[at + 5 * j], b[at + 5 * j + 1], b[at + 5 * j + 2], b[at + 5 * j + 3], b[at + 5 * j + 4];
      for k := 0 to 4
        invariant forall p :: 0 <= p < 4 * j + k ==> r[p] == PolyDecompress10Spec(s)[p]
      {
        Decompress10At(s, j, k);
        r[4 * j + k] := Decompress10(TenBits(a0, a1, a2, a3, a4, k));
      }
    }
  }
}
