/** The bit stream as ISO/IEC 18004 section 7.4 lays it out, field by field: an account of Segments and Encode by positions and values. */
module StreamFormat {
  import opened Arithmetic
  import opened Bits
  import opened Grid
  import opened BitBuffer
  import opened Segments
  import opened SegmentStream
  import opened FunctionModules
  import opened Encode

  // ---- Bytes ----

  lemma HalfOfByte(b: bv8)
    ensures (b >> 1) as int == b as int / 2 && (b & 1 != 0) == (b as int % 2 == 1)
  {
    var h := b >> 1;
    SmallHalf(b);
    DoubledByte(h);
    if b & 1 == 0 { assert b == h << 1; } else { assert b == (h << 1) | 1; }
  }

  lemma SmallHalf(b: bv8)
    ensures (b >> 1) as int < 128
  {
  }

  lemma GetBitShift(b: bv8, k: nat)
    requires 0 < k < 8
    ensures GetBit(b, k) == GetBit(b >> 1, k - 1)
  {
    match k case 1 => case 2 => case 3 => case 4 => case 5 => case 6 => case _ =>
  }

  /** getBit takes the bit of weight 2^k. */
  lemma {:induction false} GetBitValue(b: bv8, k: nat)
    requires k < 8
    ensures GetBit(b, k) == (b as int / Pow2(k) % 2 == 1)
  {
    HalfOfByte(b);
    if k > 0 {
      GetBitShift(b, k);
      GetBitValue(b >> 1, k - 1);
      hide GetBit;
      DivDiv(b as int, Pow2(k - 1));
    }
  }

  /** Bit i of a byte string is bit 7 - i % 8, by weight, of byte i / 8: most significant bits first. */
  lemma BitOfValue(data: seq<bv8>, i: nat)
    requires i < 8 * |data|
    ensures BitOf(data, i) == (data[i / 8] as int / Pow2(7 - i % 8) % 2 == 1)
  {
    GetBitValue(data[i / 8], 7 - i % 8);
  }

  lemma ByteFieldBit(data: seq<bv8>, k: nat, i: nat)
    requires k < |data| && i < 8
    ensures ByteBits(data)[8 * k + i] == ValueBits(data[k] as int, 8)[i]
  {
    hide Pow2, ValueBits, BitOf;
    DivUnique(8 * k + i, 8, k, i);
    BitOfValue(data, 8 * k + i);
    ValueBitIs(data[k] as int, 8, i);
  }

  /** Byte mode: eight bits for every byte, with its value. */
  lemma ByteField(data: seq<bv8>, k: nat)
    requires k < |data|
    ensures ByteBits(data)[8 * k..8 * k + 8] == ValueBits(data[k] as int, 8)
  {
    hide Pow2, ValueBits, BitOf;
    var field := ByteBits(data)[8 * k..8 * k + 8];
    forall i | 0 <= i < 8 ensures field[i] == ValueBits(data[k] as int, 8)[i] { ByteFieldBit(data, k, i); }
  }

  // ---- Digits ----

  lemma NumericPosition(d: seq<Decimal>, k: nat)
    requires 3 * k <= |d|
    ensures |NumericBits(d[..3 * k])| == 10 * k && NumericBits(d) == NumericBits(d[..3 * k]) + NumericBits(d[3 * k..])
  {
    hide NumericBits, NumericSize;
    assert d == d[..3 * k] + d[3 * k..];
    NumericSplit(d[..3 * k], d[3 * k..]);
    NumericLength(d[..3 * k]);
    ThreesSize(k);
  }

  lemma ThreesSize(k: nat)
    ensures NumericSize(3 * k) == 10 * k
  {
    DivUnique(3 * k * 10 + 2, 3, 10 * k, 2);
  }

  lemma NumericAt(d: seq<Decimal>, k: nat)
    requires 3 * k + 3 <= |d|
    ensures NumericBits(d[3 * k..])
         == ValueBits(100 * d[3 * k] as int + 10 * d[3 * k + 1] as int + d[3 * k + 2], 10) + NumericBits(d[3 * k + 3..])
  {
    hide NumericBits, ValueBits;
    var rest := d[3 * k..];
    assert rest[3..] == d[3 * k + 3..];
    NumericStep(rest, d[3 * k + 3..]);
  }

  /** Digits 3 k to 3 k + 2 are the decimal number in bits 10 k to 10 k + 9. */
  lemma NumericGroup(d: seq<Decimal>, k: nat)
    requires 3 * k + 3 <= |d|
    ensures 10 * k + 10 <= |NumericBits(d)|
    ensures NumericBits(d)[10 * k..10 * k + 10] == ValueBits(100 * d[3 * k] as int + 10 * d[3 * k + 1] as int + d[3 * k + 2], 10)
  {
    NumericPosition(d, k);
    NumericAt(d, k);
    var v := 100 * d[3 * k] as int + 10 * d[3 * k + 1] as int + d[3 * k + 2];
    hide *;
    MiddlePart(NumericBits(d), NumericBits(d[..3 * k]), ValueBits(v, 10), NumericBits(d[3 * k + 3..]), 10 * k);
  }

  lemma MiddlePart(b: seq<bool>, x: seq<bool>, y: seq<bool>, z: seq<bool>, n: nat)
    requires b == x + (y + z) && |x| == n
    ensures n + |y| <= |b| && b[n..n + |y|] == y
  {
  }

  lemma NumericShort(d: seq<Decimal>)
    requires |d| < 3
    ensures NumericBits(d) == if |d| == 0 then [] else if |d| == 1 then ValueBits(d[0], 4) else ValueBits(10 * d[0] as int + d[1], 7)
  {
    hide ValueBits;
  }

  lemma SecondPart(b: seq<bool>, x: seq<bool>, y: seq<bool>, n: nat)
    requires b == x + y && |x| == n
    ensures n <= |b| && b[n..] == y
  {
  }

  /** Two digits left over take seven bits, one takes four. */
  lemma NumericEnd(d: seq<Decimal>, q: nat)
    requires 3 * q <= |d| < 3 * q + 3
    ensures 10 * q <= |NumericBits(d)|
    ensures NumericBits(d)[10 * q..]
         == if |d| == 3 * q then [] else if |d| == 3 * q + 1 then ValueBits(d[3 * q], 4)
            else ValueBits(10 * d[3 * q] as int + d[3 * q + 1], 7)
  {
    NumericPosition(d, q);
    hide *;
    var rest := d[3 * q..];
    NumericShort(rest);
    SecondPart(NumericBits(d), NumericBits(d[..3 * q]), NumericBits(rest), 10 * q);
  }

  // ---- Characters of the alphanumeric set ----

  lemma AlphanumericPosition(d: seq<Base45>, k: nat)
    requires 2 * k <= |d|
    ensures |AlphanumericBits(d[..2 * k])| == 11 * k && AlphanumericBits(d) == AlphanumericBits(d[..2 * k]) + AlphanumericBits(d[2 * k..])
  {
    hide AlphanumericBits, AlphanumericSize;
    assert d == d[..2 * k] + d[2 * k..];
    AlphanumericSplit(d[..2 * k], d[2 * k..]);
    AlphanumericLength(d[..2 * k]);
    PairsSize(k);
  }

  lemma PairsSize(k: nat)
    ensures AlphanumericSize(2 * k) == 11 * k
  {
    DivUnique(2 * k * 11 + 1, 2, 11 * k, 1);
  }

  lemma AlphanumericAt(d: seq<Base45>, k: nat)
    requires 2 * k + 2 <= |d|
    ensures AlphanumericBits(d[2 * k..])
         == ValueBits(45 * d[2 * k] as int + d[2 * k + 1], 11) + AlphanumericBits(d[2 * k + 2..])
  {
    hide AlphanumericBits, ValueBits;
    var rest := d[2 * k..];
    assert rest[2..] == d[2 * k + 2..];
    AlphanumericStep(rest, d[2 * k + 2..]);
  }

  /** Characters 2 k and 2 k + 1 are a number to base 45 in bits 11 k to 11 k + 10. */
  lemma AlphanumericGroup(d: seq<Base45>, k: nat)
    requires 2 * k + 2 <= |d|
    ensures 11 * k + 11 <= |AlphanumericBits(d)|
    ensures AlphanumericBits(d)[11 * k..11 * k + 11] == ValueBits(45 * d[2 * k] as int + d[2 * k + 1], 11)
  {
    AlphanumericPosition(d, k);
    AlphanumericAt(d, k);
    var v := 45 * d[2 * k] as int + d[2 * k + 1];
    hide *;
    MiddlePart(AlphanumericBits(d), AlphanumericBits(d[..2 * k]), ValueBits(v, 11), AlphanumericBits(d[2 * k + 2..]), 11 * k);
  }

  /** A single character left over takes six bits. */
  lemma AlphanumericEnd(d: seq<Base45>, q: nat)
    requires 2 * q <= |d| < 2 * q + 2
    ensures 11 * q <= |AlphanumericBits(d)|
    ensures AlphanumericBits(d)[11 * q..] == if |d| == 2 * q then [] else ValueBits(d[2 * q], 6)
  {
    AlphanumericPosition(d, q);
    var rest := d[2 * q..];
    SecondPart(AlphanumericBits(d), AlphanumericBits(d[..2 * q]), AlphanumericBits(rest), 11 * q);
    hide ValueBits;
  }

  /** The value of a character: digits, then letters, then nine others (table 5 of the standard). */
  function CharValue(c: char): int {
    if '0' <= c <= '9' then c as int - '0' as int
    else if 'A' <= c <= 'Z' then 10 + (c as int - 'A' as int)
    else match c
      case ' ' => 36 case '$' => 37 case '%' => 38 case '*' => 39 case '+' => 40 case '-' => 41
      case '.' => 42 case '/' => 43 case ':' => 44 case _ => -1
  }

  lemma CharsetHead(k: nat)
    requires k < 36
    ensures ALPHANUMERIC_CHARSET[k] == "0123456789ABCDEFGHIJKLMNOPQRSTUVWXYZ"[k]
  {
    var t := "0123456789ABCDEFGHIJKLMNOPQRSTUVWXYZ";
    assert ALPHANUMERIC_CHARSET[..36] == t;
    assert ALPHANUMERIC_CHARSET[k] == t[k];
  }

  lemma CharOfDigit(k: Base45)
    requires k < 10
    ensures CharValue(CharOf(k)) == k
  {
    CharsetHead(k);
    hide ALPHANUMERIC_CHARSET;
    match k case 0 => case 1 => case 2 => case 3 => case 4 => case 5 => case 6 => case 7 => case 8 => case _ =>
  }

  lemma CharOfLetter(k: Base45)
    requires 10 <= k <= 22
    ensures CharValue(CharOf(k)) == k
  {
    CharsetHead(k);
    hide ALPHANUMERIC_CHARSET;
    match k
    case 10 => case 11 => case 12 => case 13 => case 14 => case 15 => case 16 => case 17 => case 18 => case 19 =>
    case 20 => case 21 => case _ =>
  }

  lemma CharOfLaterLetter(k: Base45)
    requires 23 <= k <= 35
    ensures CharValue(CharOf(k)) == k
  {
    CharsetHead(k);
    hide ALPHANUMERIC_CHARSET;
    match k
    case 23 => case 24 => case 25 => case 26 => case 27 => case 28 => case 29 => case 30 => case 31 => case 32 =>
    case 33 => case 34 => case _ =>
  }

  lemma CharOfOther(k: Base45)
    requires 36 <= k
    ensures CharValue(CharOf(k)) == k
  {
    match k case 36 => case 37 => case 38 => case 39 => case 40 => case 41 => case 42 => case 43 => case _ =>
  }

  lemma CharOfValue(k: Base45)
    ensures CharValue(CharOf(k)) == k
  {
    hide CharValue, CharOf;
    if k < 10 { CharOfDigit(k); } else if k < 23 { CharOfLetter(k); } else if k < 36 { CharOfLaterLetter(k); } else { CharOfOther(k); }
  }

  lemma ValueOnce(c: char, d: char)
    requires CharValue(c) == CharValue(d) >= 0
    ensures c == d
  {
  }

  /** The character set is exactly that table, and a character's number is its value there. */
  lemma CharsetValues(c: char)
    ensures InCharset(c) <==> CharValue(c) >= 0
    ensures InCharset(c) ==> CharIndex(c) == CharValue(c)
  {
    if InCharset(c) {
      var k := CharIndex(c);
      CharOfValue(k);
    }
    if CharValue(c) >= 0 {
      ValueRange(c);
      var k: Base45 := CharValue(c);
      CharOfValue(k);
      ValueOnce(c, CharOf(k));
    }
    hide CharValue;
  }

  lemma ValueRange(c: char)
    ensures CharValue(c) < 45
  {
  }

  // ---- Headers ----

  /** Width of the count field by version group (table 3 of the standard). */
  function CountWidth(mode: Mode, version: nat): nat {
    match mode
    case Numeric => if version <= 9 then 10 else if version <= 26 then 12 else 14
    case Alphanumeric => if version <= 9 then 9 else if version <= 26 then 11 else 13
    case Byte => if version <= 9 then 8 else 16
    case Kanji => if version <= 9 then 8 else if version <= 26 then 10 else 12
    case Eci => 0
  }

  lemma CountWidths(mode: Mode, version: nat)
    requires VersionOk(version)
    ensures NumCharCountBits(mode, version) == CountWidth(mode, version)
  {
    DivUnique(version + 7, 17, if version <= 9 then 0 else if version <= 26 then 1 else 2,
              if version <= 9 then version + 7 else if version <= 26 then version - 10 else version - 27);
  }

  /** Mode indicators (table 2 of the standard). */
  function ModeIndicator(mode: Mode): seq<bool> {
    match mode
    case Numeric => [false, false, false, true]
    case Alphanumeric => [false, false, true, false]
    case Byte => [false, true, false, false]
    case Kanji => [true, false, false, false]
    case Eci => [false, true, true, true]
  }

  lemma FourBits(v: nat)
    ensures ValueBits(v, 4) == [v / 8 % 2 == 1, v / 4 % 2 == 1, v / 2 % 2 == 1, v % 2 == 1]
  {
    var b := ValueBits(v, 4);
    ValueBitIs(v, 4, 0);
    ValueBitIs(v, 4, 1);
    ValueBitIs(v, 4, 2);
    ValueBitIs(v, 4, 3);
    assert Pow2(0) == 1 && Pow2(1) == 2 && Pow2(2) == 4 && Pow2(3) == 8;
    hide ValueBits;
    assert b == [b[0], b[1], b[2], b[3]];
  }

  lemma ModeBitsAre(mode: Mode)
    ensures ValueBits(ModeBits(mode), 4) == ModeIndicator(mode)
  {
    FourBits(ModeBits(mode));
    hide ValueBits;
  }

  /** Each segment: four bits of mode, the count in the width its version prescribes, then the payload. */
  lemma SegmentLayout(s: Segment, version: nat)
    requires SegmentOk(s) && VersionOk(version) && s.numChars < Pow2(NumCharCountBits(s.mode, version))
    ensures s.numChars < Pow2(CountWidth(s.mode, version))
    ensures SegmentBits(s, version) == ModeIndicator(s.mode) + ValueBits(s.numChars, CountWidth(s.mode, version)) + Payload(s)
  {
    ModeBitsAre(s.mode);
    CountWidths(s.mode, version);
    hide ValueBits, ModeIndicator, CountWidth, NumCharCountBits, ModeBits;
  }

  // ---- The end of the stream ----

  /** The two pad bytes 11101100 and 00010001. */
  const PADDING: seq<bool> := [true, true, true, false, true, true, false, false, false, false, false, true, false, false, false, true]

  /** Where padding starts: after at most four zero bits, at the next whole byte. */
  function PadStart(used: nat, capacity: nat): nat {
    var t := if used + 4 <= capacity then used + 4 else capacity;
    (t + 7) / 8 * 8
  }

  lemma FirstPadByte()
    ensures ValueBits(0xEC, 8) == [true, true, true, false, true, true, false, false]
  {
  }

  lemma SecondPadByte()
    ensures ValueBits(0x11, 8) == [false, false, false, true, false, false, false, true]
  {
  }

  /** Bit i of padding that begins with the given pad byte. */
  function PadBit(i: nat, pad: nat): bool {
    PADDING[(i + (if pad == 0xEC then 0 else 8)) % 16]
  }

  lemma PadBitFirst(i: nat, pad: nat)
    requires i < 8 && (pad == 0xEC || pad == 0x11)
    ensures ValueBits(pad, 8)[i] == PadBit(i, pad)
  {
    FirstPadByte();
    SecondPadByte();
    hide ValueBits;
    if pad == 0xEC {
      match i case 0 => case 1 => case 2 => case 3 => case 4 => case 5 => case 6 => case _ =>
    } else {
      match i case 0 => case 1 => case 2 => case 3 => case 4 => case 5 => case 6 => case _ =>
    }
  }

  lemma PadBitNext(i: nat, pad: nat)
    requires i >= 8 && (pad == 0xEC || pad == 0x11)
    ensures PadBit(i, pad) == PadBit(i - 8, OtherPad(pad))
  {
    hide PADDING;
    Euclid(i + 8, 16);
    DivUnique(i - 8, 16, (i + 8) / 16 - 1, (i + 8) % 16);
  }

  lemma {:induction false} PadBitsAt(len: nat, capacity: nat, pad: nat, i: nat)
    requires len + i < capacity && len % 8 == 0 && capacity % 8 == 0 && (pad == 0xEC || pad == 0x11)
    ensures i < |PadBits(len, capacity, pad)| && PadBits(len, capacity, pad)[i] == PadBit(i, pad)
    decreases capacity - len
  {
    PadLength(len, capacity, pad);
    PadStep(len, capacity, pad);
    hide PadBit, ValueBits, PadBits;
    if i >= 8 {
      PadBitsAt(len + 8, capacity, OtherPad(pad), i - 8);
      PadBitNext(i, pad);
    } else {
      PadBitFirst(i, pad);
    }
  }

  lemma RoundUp(x: nat)
    ensures x + (8 - x % 8) % 8 == (x + 7) / 8 * 8
  {
    Euclid(x, 8);
    if x % 8 > 0 { DivUnique(x + 7, 8, x / 8 + 1, x % 8 - 1); }
  }

  lemma PadStartIs(used: nat, capacity: nat)
    requires used <= capacity
    ensures var t := TerminatorBits(used, capacity); PadStart(used, capacity) == used + t + (8 - (used + t) % 8) % 8
  {
    RoundUp(used + TerminatorBits(used, capacity));
  }

  lemma ZerosJoin(a: nat, b: nat)
    ensures Zeros(a) + Zeros(b) == Zeros(a + b)
  {
  }

  lemma TailShape(used: nat, capacity: nat)
    requires used <= capacity && capacity % 8 == 0
    ensures var start := PadStart(used, capacity);
            && used <= start <= capacity && start % 8 == 0
            && Tail(used, capacity) == Zeros(start - used) + PadBits(start, capacity, 0xEC)
  {
    PadStartIs(used, capacity);
    FillFits(used, capacity);
    hide PadBits, PadStart;
    var t := TerminatorBits(used, capacity);
    ZerosJoin(t, (8 - (used + t) % 8) % 8);
  }

  /** Zeros up to PadStart, and from there the two pad bytes in turn, up to the capacity. */
  lemma TailBits(used: nat, capacity: nat, i: nat)
    requires used <= capacity && capacity % 8 == 0 && used + i < capacity
    ensures i < |Tail(used, capacity)|
    ensures var p := used + i; Tail(used, capacity)[i] == (p >= PadStart(used, capacity) && PADDING[(p - PadStart(used, capacity)) % 16])
  {
    TailShape(used, capacity);
    TailLength(used, capacity);
    var start := PadStart(used, capacity);
    if used + i >= start { PadBitsAt(start, capacity, 0xEC, used + i - start); }
    hide PADDING, PadBits, Tail, PadStart;
  }

  // ---- Lengths ----

  /** Payload bits for n characters, or the overflow mark: ten bits for three digits and eleven for two characters, rounded up. */
  lemma SegmentLengths(mode: Mode, n: nat)
    ensures var r := CalcSegmentBitLength(mode, n);
            match mode
            case Numeric => if n <= 9830 then 10 * n <= 3 * r < 10 * n + 3 else r == -1
            case Alphanumeric => if n <= 5957 then 11 * n <= 2 * r < 11 * n + 2 else r == -1
            case Byte => r == if n <= 4095 then 8 * n else -1
            case Kanji => r == if n <= 2520 then 13 * n else -1
            case Eci => r == if n == 0 then 24 else -1
  {
    Euclid(n * 10 + 2, 3);
    Euclid(n * 11 + 1, 2);
  }

  /** The buffer for a version: one byte for the size, and no more bytes than the modules need. */
  lemma BufferLeast(v: nat)
    requires VersionOk(v)
    ensures 8 * (BufferLen(v) - 2) < (4 * v + 17) * (4 * v + 17) <= 8 * (BufferLen(v) - 1)
  {
    var n := SizeOf(v);
    assert n == 4 * v + 17;
    hide SizeOf;
    var k := n * n;
    assert k == (4 * v + 17) * (4 * v + 17);
    Euclid(k + 7, 8);
  }
}
