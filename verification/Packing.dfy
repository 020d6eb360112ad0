/** Serialization of polynomials: poly_tobytes, poly_frombytes, poly_frommsg, poly_tomsg of poly.c. */
module Packing {
  import opened Arithmetic
  import opened Words
  import opened ModQ
  import opened Bits
  import opened Poly

  // ---- Twelve-bit coefficients ----

  /** A coefficient as uint16, with q added when it is negative. */
  function Canonical(c: int16): uint16 {
    (c % 0x1_0000 + (if c < 0 then Q else 0)) % 0x1_0000
  }

  lemma CanonicalResidue(c: int16)
    requires -Q < c < Q
    ensures Canonical(c) == c % Q
  {
  }

  /** Byte i of the three bytes that hold two coefficients. */
  function ToByte(t0: uint16, t1: uint16, i: nat): uint8
    requires i < 3
  {
    if i == 0 then t0 % 0x100 else if i == 1 then Or(t0 / 0x100, t1 * 16) % 0x100 else t1 / 16 % 0x100
  }

  /** Coefficient j of the two held in three bytes. */
  function FromByte(a0: uint8, a1: uint8, a2: uint8, j: nat): int16
    requires j < 2
  {
    if j == 0 then Or(a0, a1 * 0x100) % 0x1000 else Or(a1 / 16, a2 * 16) % 0x1000
  }

  lemma ToByteMiddle(t0: uint16, t1: uint16)
    requires t0 < 0x1000
    ensures ToByte(t0, t1, 1) == t0 / 0x100 + t1 % 16 * 16
  {
    assert Pow2(4) == 16;
    OrDisjoint(t0 / 0x100, t1, 4);
    hide Or, Pow2;
    DivUnique(t0 / 0x100 + t1 * 16, 0x100, t1 / 16, t0 / 0x100 + t1 % 16 * 16);
  }

  lemma FromByteSum(a0: uint8, a1: uint8, a2: uint8)
    ensures FromByte(a0, a1, a2, 0) == a0 + a1 % 16 * 0x100
    ensures FromByte(a0, a1, a2, 1) == a1 / 16 + a2 * 16
  {
    assert Pow2(8) == 0x100 && Pow2(4) == 16;
    OrDisjoint(a0, a1, 8);
    OrDisjoint(a1 / 16, a2, 4);
    hide Or, Pow2;
    DivUnique(a0 + a1 * 0x100, 0x1000, a1 / 16, a0 + a1 % 16 * 0x100);
    DivUnique(a1 / 16 + a2 * 16, 0x1000, 0, a1 / 16 + a2 * 16);
  }

  lemma Unpack12(t0: uint16, t1: uint16)
    requires t0 < 0x1000 && t1 < 0x1000
    ensures FromByte(ToByte(t0, t1, 0), ToByte(t0, t1, 1), ToByte(t0, t1, 2), 0) == t0
    ensures FromByte(ToByte(t0, t1, 0), ToByte(t0, t1, 1), ToByte(t0, t1, 2), 1) == t1
  {
    var a0, a1, a2 := ToByte(t0, t1, 0), ToByte(t0, t1, 1), ToByte(t0, t1, 2);
    ToByteMiddle(t0, t1);
    FromByteSum(a0, a1, a2);
    assert a0 == t0 % 0x100 && a2 == t1 / 16 by { DivUnique(t1 / 16, 0x100, 0, t1 / 16); }
    hide ToByte, FromByte;
    DivUnique(a1, 16, t1 % 16, t0 / 0x100);
  }

  lemma Pack12(a0: uint8, a1: uint8, a2: uint8)
    ensures var t0, t1 := FromByte(a0, a1, a2, 0), FromByte(a0, a1, a2, 1);
            && 0 <= t0 < 0x1000 && 0 <= t1 < 0x1000
            && ToByte(t0, t1, 0) == a0 && ToByte(t0, t1, 1) == a1 && ToByte(t0, t1, 2) == a2
  {
    FromByteSum(a0, a1, a2);
    hide FromByte;
    var t0, t1 := FromByte(a0, a1, a2, 0), FromByte(a0, a1, a2, 1);
    ToByteMiddle(t0, t1);
    DivUnique(t0, 0x100, a1 % 16, a0);
    DivUnique(t1, 16, a2, a1 / 16);
    assert ToByte(t0, t1, 0) == t0 % 0x100 && ToByte(t0, t1, 2) == t1 / 16 % 0x100;
  }

  function ToBytesSpec(a: Poly): (r: seq<uint8>)
    ensures |r| == 384
  {
    seq(384, i requires 0 <= i < 384 => ToByte(Canonical(a[2 * (i / 3)]), Canonical(a[2 * (i / 3) + 1]), i % 3))
  }

  function FromBytesSpec(b: seq<uint8>): Poly
    requires |b| == 384
  {
    seq(256, i requires 0 <= i < 256 => FromByte(b[3 * (i / 2)], b[3 * (i / 2) + 1], b[3 * (i / 2) + 2], i % 2))
  }

  lemma ToBytesAt(a: Poly, m: nat)
    requires m < 128
    ensures var t0, t1 := Canonical(a[2 * m]), Canonical(a[2 * m + 1]);
            && ToBytesSpec(a)[3 * m] == ToByte(t0, t1, 0) && ToBytesSpec(a)[3 * m + 1] == ToByte(t0, t1, 1)
            && ToBytesSpec(a)[3 * m + 2] == ToByte(t0, t1, 2)
  {
    hide ToByte, Canonical;
    assert (3 * m) / 3 == m && (3 * m + 1) / 3 == m && (3 * m + 2) / 3 == m;
  }

  lemma FromBytesAt(b: seq<uint8>, m: nat)
    requires |b| == 384 && m < 128
    ensures FromBytesSpec(b)[2 * m] == FromByte(b[3 * m], b[3 * m + 1], b[3 * m + 2], 0)
    ensures FromBytesSpec(b)[2 * m + 1] == FromByte(b[3 * m], b[3 * m + 1], b[3 * m + 2], 1)
  {
    hide FromByte;
    assert (2 * m) / 2 == m && (2 * m + 1) / 2 == m;
  }

  /** Deserializing a serialized polynomial gives the canonical residues of its coefficients. */
  lemma FromBytesToBytes(a: Poly)
    requires Bounded(a, 3328)
    ensures forall i :: 0 <= i < 256 ==> FromBytesSpec(ToBytesSpec(a))[i] == a[i] % Q
  {
    forall i | 0 <= i < 256 ensures FromBytesSpec(ToBytesSpec(a))[i] == a[i] % Q {
      hide ToByte, FromByte, Canonical, ToBytesSpec, FromBytesSpec;
      var m := i / 2;
      CanonicalResidue(a[2 * m]);
      CanonicalResidue(a[2 * m + 1]);
      Unpack12(Canonical(a[2 * m]), Canonical(a[2 * m + 1]));
      ToBytesAt(a, m);
      FromBytesAt(ToBytesSpec(a), m);
      assert i == 2 * m || i == 2 * m + 1;
    }
  }

  /** Serializing a deserialized polynomial gives the bytes back, for every string of 384 bytes. */
  lemma ToBytesFromBytes(b: seq<uint8>)
    requires |b| == 384
    ensures ToBytesSpec(FromBytesSpec(b)) == b
  {
    hide ToByte, FromByte, Canonical, ToBytesSpec, FromBytesSpec;
    var a := FromBytesSpec(b);
    forall i | 0 <= i < 384 ensures ToBytesSpec(a)[i] == b[i] {
      var m := i / 3;
      Pack12(b[3 * m], b[3 * m + 1], b[3 * m + 2]);
      FromBytesAt(b, m);
      CanonicalNonnegative(a[2 * m]);
      CanonicalNonnegative(a[2 * m + 1]);
      ToBytesAt(a, m);
      assert i == 3 * m || i == 3 * m + 1 || i == 3 * m + 2;
    }
  }

  lemma CanonicalNonnegative(c: int16)
    requires c >= 0
    ensures Canonical(c) == c
  {
  }

  /** poly_tobytes, writing at offset `at` of the buffer. */
  method PolyToBytes(r: array<uint8>, at: nat, a: array<int16>)
    requires a.Length == 256 && at + 384 <= r.Length
    modifies r
    ensures r[..] == old(r[..at]) + ToBytesSpec(a[..]) + old(r[at + 384..])
  {
    hide ToByte, Canonical;
    ghost var was := r[..];
    for i := 0 to 128
      invariant forall j :: 0 <= j < r.Length ==>
        r[j] == if at <= j < at + 3 * i then ToBytesSpec(a[..])[j - at] else was[j]
    {
      var t0, t1 := Canonical(a[2 * i]), Canonical(a[2 * i + 1]);
      r[at + 3 * i] := ToByte(t0, t1, 0);
      r[at + 3 * i + 1] := ToByte(t0, t1, 1);
      r[at + 3 * i + 2] := ToByte(t0, t1, 2);
    }
  }

  method PolyFromBytes(r: array<int16>, b: array<uint8>, at: nat)
    requires r.Length == 256 && at + 384 <= b.Length
    modifies r
    ensures r[..] == FromBytesSpec(b[at..at + 384])
  {
    hide FromByte;
    for i := 0 to 128
      invariant forall j :: 0 <= j < 2 * i ==> r[j] == FromBytesSpec(b[at..at + 384])[j]
    {
      r[2 * i] := FromByte(b[at + 3 * i], b[at + 3 * i + 1], b[at + 3 * i + 2], 0);
      r[2 * i + 1] := FromByte(b[at + 3 * i], b[at + 3 * i + 1], b[at + 3 * i + 2], 1);
    }
  }

  // ---- Messages: one bit per coefficient ----

  /** The coefficient for a message bit: (q + 1) / 2 or 0. */
  function BitCoefficient(bit: nat): int16 {
    if bit == 1 then 1665 else 0
  }

  function FromMsgSpec(m: seq<uint8>): Poly
    requires |m| == 32
  {
    seq(256, i requires 0 <= i < 256 => BitCoefficient(m[i / 8] / Pow2(i % 8) % 2))
  }

  method PolyFromMsg(r: array<int16>, msg: seq<uint8>)
    requires r.Length == 256 && |msg| == 32
    modifies r
    ensures r[..] == FromMsgSpec(msg)
  {
    hide Pow2;
    for i := 0 to 32
      invariant forall p :: 0 <= p < 8 * i ==> r[p] == FromMsgSpec(msg)[p]
    {
      for j := 0 to 8
        invariant forall p :: 0 <= p < 8 * i + j ==> r[p] == FromMsgSpec(msg)[p]
      {
        r[8 * i + j] := 0;
        if msg[i] / Pow2(j) % 2 == 1 {
          r[8 * i + j] := 1665;
        }
      }
    }
  }

  /** The decision of poly_tomsg on one coefficient, in wrapping 32-bit arithmetic. */
  function MsgBit(c: int16): (t: nat)
    ensures t < 2
  {
    ToUint32(ToUint32(ToUint32(ToUint32(c) * 2) + 1665) * 80635) / 0x1000_0000 % 2
  }

  /** The 32-bit words of poly_tomsg: only a negative product wraps around. */
  lemma MsgWords(c: int16, d: int)
    requires -1664 <= c <= 1664 && d == 2 * c + 1665
    ensures MsgBit(c) == (d * 80635 + (if d < 0 then 0x1_0000_0000 else 0)) / 0x1000_0000 % 2
  {
    hide ToUint32;
    var w := if d < 0 then 0x1_0000_0000 else 0;
    ToUint32Is(c, if c < 0 then -1 else 0);
    ToUint32Is(ToUint32(c) * 2, if c < 0 then 1 else 0);
    ToUint32Is(ToUint32(ToUint32(c) * 2) + 1665, if c < 0 && d >= 0 then 1 else 0);
    ToUint32Is((d + w) * 80635, if d < 0 then 80634 else 0);
  }

  /** On centred residues the bit is one exactly outside [-832, 832]. */
  lemma MsgBitRounds(c: int16)
    requires -1664 <= c <= 1664
    ensures MsgBit(c) == 1 <==> c < -832 || 832 < c
  {
    var d := 2 * c + 1665;
    var e := d * 80635;
    MsgWords(c, d);
    hide ToUint32, MsgBit;
    if d < 0 {
      DivUnique(e + 0x1_0000_0000, 0x1000_0000, 15, e + 0x1000_0000);
    } else if d < 3330 {
      DivUnique(e, 0x1000_0000, 0, e);
    } else {
      DivUnique(e, 0x1000_0000, 1, e - 0x1000_0000);
    }
  }

  /** The n low bits of message byte i that poly_tomsg has collected. */
  function MsgByte(a: Poly, i: nat, n: nat): (r: nat)
    requires i < 32 && n <= 8
    ensures r < Pow2(n)
  {
    if n == 0 then 0 else MsgByte(a, i, n - 1) + MsgBit(a[8 * i + n - 1]) * Pow2(n - 1)
  }

  function ToMsgSpec(a: Poly): (m: seq<uint8>)
    ensures |m| == 32
  {
    assert Pow2(8) == 0x100;
    seq(32, i requires 0 <= i < 32 => MsgByte(a, i, 8))
  }

  method PolyToMsg(a: array<int16>) returns (msg: array<uint8>)
    requires a.Length == 256
    ensures fresh(msg) && msg[..] == ToMsgSpec(a[..])
  {
    hide MsgBit, Or, Pow2;
    msg := new uint8[32];
    for i := 0 to 32
      invariant forall p :: 0 <= p < i ==> msg[p] == ToMsgSpec(a[..])[p]
    {
      msg[i] := 0;
      for j := 0 to 8
        invariant msg[i] == MsgByte(a[..], i, j)
        invariant forall p :: 0 <= p < i ==> msg[p] == ToMsgSpec(a[..])[p]
      {
        var t := MsgBit(a[8 * i + j]);
        OrDisjoint(msg[i], t, j);
        PowByte(j + 1);
        assert MsgByte(a[..], i, j + 1) == msg[i] + t * Pow2(j);
        msg[i] := Or(msg[i], t * Pow2(j));
      }
    }
  }

  lemma {:induction false} PowByte(n: nat)
    requires n <= 8
    ensures Pow2(n) <= 0x100
    decreases 8 - n
  {
    if n == 8 {
      assert Pow2(8) == 0x100;
    } else {
      PowByte(n + 1);
    }
  }

  lemma MsgByteStep(a: Poly, i: nat, n: nat)
    requires i < 32 && 0 < n <= 8
    ensures MsgByte(a, i, n) == MsgByte(a, i, n - 1) + MsgBit(a[8 * i + n - 1]) * Pow2(n - 1)
    ensures Pow2(n) == 2 * Pow2(n - 1)
  {
    hide MsgBit;
  }

  /** When the decoded bits are the bits of a message, the decoded bytes are its bytes. */
  lemma {:induction false} MsgByteFromBits(a: Poly, m: seq<uint8>, i: nat, n: nat)
    requires |m| == 32 && i < 32 && n <= 8
    requires forall p :: 0 <= p < 256 ==> MsgBit(a[p]) == m[p / 8] / Pow2(p % 8) % 2
    ensures MsgByte(a, i, n) == m[i] % Pow2(n)
  {
    hide MsgBit;
    if n > 0 {
      MsgByteFromBits(a, m, i, n - 1);
      hide MsgByte, Pow2;
      var p := 8 * i + n - 1;
      DivUnique(p, 8, i, n - 1);
      MsgByteStep(a, i, n);
      RemainderDoubled(m[i], Pow2(n - 1));
    }
  }

  lemma ToMsgFromBits(a: Poly, m: seq<uint8>)
    requires |m| == 32
    requires forall p :: 0 <= p < 256 ==> MsgBit(a[p]) == m[p / 8] / Pow2(p % 8) % 2
    ensures ToMsgSpec(a) == m
  {
    hide MsgBit, MsgByte;
    assert Pow2(8) == 0x100;
    forall i | 0 <= i < 32 ensures ToMsgSpec(a)[i] == m[i] {
      MsgByteFromBits(a, m, i, 8);
    }
  }

  /** Conversely every decoded bit can be read off the decoded bytes. */
  lemma {:induction false} MsgByteBit(a: Poly, i: nat, n: nat, j: nat)
    requires i < 32 && j < n <= 8
    ensures MsgByte(a, i, n) / Pow2(j) % 2 == MsgBit(a[8 * i + j])
  {
    MsgByteStep(a, i, n);
    hide *;
    var low, t := MsgByte(a, i, n - 1), MsgBit(a[8 * i + n - 1]);
    if j == n - 1 {
      TopBitIs(MsgByte(a, i, n), low, t, Pow2(j));
    } else {
      MsgByteBit(a, i, n - 1, j);
      PowSplit(n - 1, j);
      HighBitIrrelevant(MsgByte(a, i, n), low, t, Pow2(n - 1), Pow2(n - 2 - j), Pow2(j));
    }
  }

  lemma {:induction false} PowSplit(n: nat, j: nat)
    requires j < n
    ensures Pow2(n) == 2 * (Pow2(n - 1 - j) * Pow2(j))
  {
    if j > 0 {
      PowSplit(n - 1, j - 1);
      Exchange(Pow2(n - 1 - j), 2, Pow2(j - 1));
    }
  }

  /** A bit t above place p leaves the bits below it as they are. */
  lemma HighBitIrrelevant(x: nat, low: nat, t: nat, p: nat, e: nat, d: nat)
    requires d > 0 && x == low + t * p && p == 2 * (e * d)
    ensures x / d % 2 == low / d % 2
  {
    Exchange(t, 2, e * d);
    Associate(t, e, d);
    EvenMultiple(low, d, t * e);
    Exchange(d, 2, t * e);
  }

  lemma TopBitIs(x: nat, low: nat, t: nat, p: nat)
    requires low < p && t < 2 && x == low + t * p
    ensures x / p % 2 == t
  {
    DivUnique(x, p, t, low);
  }
}
