/** Segments of qrcodegen.c: text in numeric, alphanumeric and byte mode as bits, and parsing it back. */
module Segments {
  import opened Arithmetic
  import opened Bits
  import opened Grid
  import opened BitBuffer

  datatype Mode = Numeric | Alphanumeric | Byte | Kanji | Eci

  function ModeBits(mode: Mode): (m: nat)
    ensures 0 < m < 16
  {
    match mode case Numeric => 1 case Alphanumeric => 2 case Byte => 4 case Kanji => 8 case Eci => 7
  }

  /** numCharCountBits: the width of the count field, by version group. */
  function NumCharCountBits(mode: Mode, version: nat): (n: nat)
    requires 1 <= version <= 40
    ensures n <= 16
  {
    var i := (version + 7) / 17;
    match mode
    case Numeric => if i == 0 then 10 else if i == 1 then 12 else 14
    case Alphanumeric => if i == 0 then 9 else if i == 1 then 11 else 13
    case Byte => if i == 0 then 8 else 16
    case Kanji => if i == 0 then 8 else if i == 1 then 10 else 12
    case Eci => 0
  }

  const LENGTH_OVERFLOW: int := -1
  const INT16_MAX: int := 32767

  /** Three digits take ten bits, two take seven, one takes four. */
  function NumericSize(n: nat): nat {
    (n * 10 + 2) / 3
  }

  /** Two characters take eleven bits, one takes six. */
  function AlphanumericSize(n: nat): nat {
    (n * 11 + 1) / 2
  }

  /** Number of payload bits for n characters; for an ECI designator, the most it can take. */
  function BitCount(mode: Mode, n: nat): nat {
    match mode
    case Numeric => NumericSize(n)
    case Alphanumeric => AlphanumericSize(n)
    case Byte => n * 8
    case Kanji => n * 13
    case Eci => 24
  }

  lemma SizesGrow(m: nat, n: nat)
    requires m <= n
    ensures NumericSize(m) <= NumericSize(n) && AlphanumericSize(m) <= AlphanumericSize(n)
  {
    Euclid(m * 10 + 2, 3);
    Euclid(n * 10 + 2, 3);
    Euclid(m * 11 + 1, 2);
    Euclid(n * 11 + 1, 2);
  }

  lemma NumericSizes(n: nat)
    ensures NumericSize(0) == 0 && NumericSize(1) == 4 && NumericSize(2) == 7
    ensures NumericSize(n + 3) == NumericSize(n) + 10
    ensures n % 3 == 0 ==> NumericSize(n + 1) == NumericSize(n) + 4 && NumericSize(n + 2) == NumericSize(n) + 7
  {
    var q, r := NumericSize(n), (n * 10 + 2) % 3;
    Euclid(n * 10 + 2, 3);
    DivUnique((n + 3) * 10 + 2, 3, q + 10, r);
    if n % 3 == 0 {
      var k := n / 3;
      DivUnique(n * 10 + 2, 3, 10 * k, 2);
      DivUnique((n + 1) * 10 + 2, 3, 10 * k + 4, 0);
      DivUnique((n + 2) * 10 + 2, 3, 10 * k + 7, 1);
    }
  }

  lemma AlphanumericSizes(n: nat)
    ensures AlphanumericSize(0) == 0 && AlphanumericSize(1) == 6
    ensures AlphanumericSize(n + 2) == AlphanumericSize(n) + 11
    ensures n % 2 == 0 ==> AlphanumericSize(n + 1) == AlphanumericSize(n) + 6
  {
    var q, r := AlphanumericSize(n), (n * 11 + 1) % 2;
    Euclid(n * 11 + 1, 2);
    DivUnique((n + 2) * 11 + 1, 2, q + 11, r);
    if n % 2 == 0 {
      var k := n / 2;
      DivUnique(n * 11 + 1, 2, 11 * k, 1);
      DivUnique((n + 1) * 11 + 1, 2, 11 * k + 6, 0);
    }
  }

  /** calcSegmentBitLength. */
  function CalcSegmentBitLength(mode: Mode, numChars: nat): int {
    if numChars > INT16_MAX then LENGTH_OVERFLOW
    else if mode == Eci && numChars > 0 then LENGTH_OVERFLOW
    else
      var result := BitCount(mode, numChars);
      if result > INT16_MAX then LENGTH_OVERFLOW else result
  }

  /** A segment: its mode, its number of characters, and bitLength bits of data. */
  datatype Segment = Segment(mode: Mode, numChars: nat, data: seq<bv8>, bitLength: nat)

  predicate SegmentOk(s: Segment) {
    s.numChars <= INT16_MAX && s.bitLength <= INT16_MAX && s.bitLength <= 8 * |s.data|
  }

  function Payload(s: Segment): seq<bool>
    requires SegmentOk(s)
  {
    FirstBits(s.data, s.bitLength)
  }

  lemma Widths()
    ensures Pow2(4) == 16 && Pow2(6) == 64 && Pow2(7) == 128 && Pow2(8) == 256 && Pow2(9) == 512 && Pow2(10) == 1024
    ensures Pow2(11) == 2048 && Pow2(12) == 4096 && Pow2(13) == 8192 && Pow2(14) == 16384 && Pow2(16) == 65536
  {
    assert Pow2(8) == 16 * Pow2(4);
    assert Pow2(12) == 16 * Pow2(8);
  }

  lemma TakeDrop(x: seq<bool>, y: seq<bool>)
    ensures (x + y)[..|x|] == x && (x + y)[|x|..] == y
  {
  }

  lemma JoinBits(x: seq<bool>, y: seq<bool>, z: seq<bool>)
    ensures (x + y) + z == x + (y + z)
  {
  }

  // ---- Numeric mode ----

  type Decimal = d: nat | d < 10

  /** Three digits in ten bits; two left over in seven, one in four. */
  function NumericBits(d: seq<Decimal>): seq<bool> {
    if |d| == 0 then []
    else if |d| == 1 then ValueBits(d[0], 4)
    else if |d| == 2 then ValueBits(Tens(d[0], d[1]), 7)
    else ValueBits(Three(d[0], d[1], d[2]), 10) + NumericBits(d[3..])
  }

  function Three(a: Decimal, b: Decimal, c: Decimal): (v: nat)
    ensures v < 1000
  {
    100 * a as nat + 10 * b as nat + c
  }

  function Tens(a: Decimal, b: Decimal): (v: nat)
    ensures v < 100
  {
    10 * a as nat + b
  }

  lemma DropAppend<T>(a: seq<T>, b: seq<T>, k: nat)
    requires k <= |a|
    ensures (a + b)[k..] == a[k..] + b && (a + b)[..k] == a[..k]
  {
  }

  lemma {:induction false} NumericLength(d: seq<Decimal>)
    ensures |NumericBits(d)| == NumericSize(|d|)
  {
    hide NumericSize, ValueBits;
    if |d| >= 3 {
      NumericLength(d[3..]);
      NumericSizes(|d| - 3);
    } else {
      NumericSizes(0);
    }
  }

  lemma NumericStep(d: seq<Decimal>, rest: seq<Decimal>)
    requires |d| >= 3 && rest == d[3..]
    ensures NumericBits(d) == ValueBits(Three(d[0], d[1], d[2]), 10) + NumericBits(rest)
  {
    hide ValueBits, Three;
  }

  lemma {:induction false} NumericSplit(a: seq<Decimal>, b: seq<Decimal>)
    requires |a| % 3 == 0
    ensures NumericBits(a + b) == NumericBits(a) + NumericBits(b)
  {
    if |a| == 0 {
      assert a + b == b;
    } else {
      hide *;
      Euclid(|a|, 3);
      DivUnique(|a| - 3, 3, |a| / 3 - 1, 0);
      var v := Three(a[0], a[1], a[2]);
      NumericSplit(a[3..], b);
      DropAppend(a, b, 3);
      NumericStep(a, a[3..]);
      NumericStep(a + b, a[3..] + b);
      JoinBits(ValueBits(v, 10), NumericBits(a[3..]), NumericBits(b));
    }
  }

  /** n digits read from a bit string. */
  function ParseNumeric(b: seq<bool>, n: nat): seq<Decimal>
    requires |b| >= NumericSize(n)
  {
    NumericSizes(if n >= 3 then n - 3 else 0);
    if n == 0 then []
    else if n == 1 then [BitsValue(b[..4]) % 10]
    else if n == 2 then Untens(BitsValue(b[..7]))
    else Unthree(BitsValue(b[..10])) + ParseNumeric(b[10..], n - 3)
  }

  function Unthree(v: nat): seq<Decimal> {
    [v / 100 % 10, v / 10 % 10, v % 10]
  }

  function Untens(v: nat): seq<Decimal> {
    [v / 10 % 10, v % 10]
  }

  lemma UntensTens(a: Decimal, b: Decimal)
    ensures Untens(Tens(a, b)) == [a, b]
  {
  }

  lemma UnthreeThree(a: Decimal, b: Decimal, c: Decimal)
    ensures Unthree(Three(a, b, c)) == [a, b, c]
  {
    var v := Three(a, b, c);
    DivUnique(v, 100, a, 10 * b as nat + c);
    DivUnique(v, 10, 10 * a as nat + b, c);
  }

  lemma ParseNumericStep(x: seq<bool>, b: seq<bool>, n: nat)
    requires |x| == 10 && |b| >= NumericSize(n)
    ensures |x + b| >= NumericSize(n + 3) && ParseNumeric(x + b, n + 3) == Unthree(BitsValue(x)) + ParseNumeric(b, n)
  {
    hide BitsValue, Unthree, NumericSize;
    NumericSizes(n);
    TakeDrop(x, b);
  }

  lemma ParseShort(d: seq<Decimal>)
    requires |d| < 3
    ensures ParseNumeric(NumericBits(d), |d|) == d
  {
    Widths();
    hide ValueBits, Pow2, BitsValue, Tens, Untens;
    if |d| == 1 {
      ValueRoundTrip(d[0], 4);
      TakeDrop(ValueBits(d[0], 4), []);
      assert ValueBits(d[0], 4) + [] == ValueBits(d[0], 4);
    } else if |d| == 2 {
      var v := Tens(d[0], d[1]);
      ValueRoundTrip(v, 7);
      UntensTens(d[0], d[1]);
      TakeDrop(ValueBits(v, 7), []);
      assert ValueBits(v, 7) + [] == ValueBits(v, 7);
    }
  }

  lemma FirstThree(d: seq<Decimal>, rest: seq<Decimal>)
    requires |d| >= 3 && rest == d[3..]
    ensures [d[0], d[1], d[2]] + rest == d
  {
  }

  lemma {:induction false} ParseNumericBits(d: seq<Decimal>)
    ensures |NumericBits(d)| == NumericSize(|d|)
    ensures ParseNumeric(NumericBits(d), |d|) == d
  {
    NumericLength(d);
    if |d| < 3 {
      ParseShort(d);
    } else {
      Widths();
      hide *;
      var rest, v := d[3..], Three(d[0], d[1], d[2]);
      NumericStep(d, rest);
      ParseNumericBits(rest);
      ValueRoundTrip(v, 10);
      ParseNumericStep(ValueBits(v, 10), NumericBits(rest), |rest|);
      UnthreeThree(d[0], d[1], d[2]);
      FirstThree(d, rest);
    }
  }

  /** Digit characters and their values. */
  predicate IsNumeric(text: string) {
    forall i :: 0 <= i < |text| ==> '0' <= text[i] <= '9'
  }

  function Digits(text: string): (d: seq<Decimal>)
    requires IsNumeric(text)
    ensures |d| == |text|
  {
    seq(|text|, i requires 0 <= i < |text| => text[i] as int - '0' as int)
  }

  function DigitText(d: seq<Decimal>): string {
    seq(|d|, i requires 0 <= i < |d| => ('0' as int + d[i]) as char)
  }

  lemma DigitTextDigits(text: string)
    requires IsNumeric(text)
    ensures DigitText(Digits(text)) == text
  {
  }

  // ---- Alphanumeric mode ----

  type Base45 = d: nat | d < 45

  /** Two characters in eleven bits, one left over in six. */
  function AlphanumericBits(d: seq<Base45>): seq<bool> {
    if |d| == 0 then []
    else if |d| == 1 then ValueBits(d[0], 6)
    else ValueBits(Two(d[0], d[1]), 11) + AlphanumericBits(d[2..])
  }

  function Two(a: Base45, b: Base45): (v: nat)
    ensures v < 2025
  {
    45 * a as nat + b
  }

  function Untwo(v: nat): seq<Base45> {
    [v / 45 % 45, v % 45]
  }

  lemma UntwoTwo(a: Base45, b: Base45)
    ensures Untwo(Two(a, b)) == [a, b]
  {
    DivUnique(Two(a, b), 45, a, b);
  }

  lemma {:induction false} AlphanumericLength(d: seq<Base45>)
    ensures |AlphanumericBits(d)| == AlphanumericSize(|d|)
  {
    hide AlphanumericSize, ValueBits;
    if |d| >= 2 {
      AlphanumericLength(d[2..]);
      AlphanumericSizes(|d| - 2);
    } else {
      AlphanumericSizes(0);
    }
  }

  lemma AlphanumericStep(d: seq<Base45>, rest: seq<Base45>)
    requires |d| >= 2 && rest == d[2..]
    ensures AlphanumericBits(d) == ValueBits(Two(d[0], d[1]), 11) + AlphanumericBits(rest)
  {
    hide ValueBits, Two;
  }

  lemma {:induction false} AlphanumericSplit(a: seq<Base45>, b: seq<Base45>)
    requires |a| % 2 == 0
    ensures AlphanumericBits(a + b) == AlphanumericBits(a) + AlphanumericBits(b)
  {
    if |a| == 0 {
      assert a + b == b;
    } else {
      hide *;
      Euclid(|a|, 2);
      DivUnique(|a| - 2, 2, |a| / 2 - 1, 0);
      AlphanumericSplit(a[2..], b);
      DropAppend(a, b, 2);
      AlphanumericStep(a, a[2..]);
      AlphanumericStep(a + b, a[2..] + b);
      JoinBits(ValueBits(Two(a[0], a[1]), 11), AlphanumericBits(a[2..]), AlphanumericBits(b));
    }
  }

  function ParseAlphanumeric(b: seq<bool>, n: nat): seq<Base45>
    requires |b| >= AlphanumericSize(n)
  {
    AlphanumericSizes(if n >= 2 then n - 2 else 0);
    if n == 0 then []
    else if n == 1 then [BitsValue(b[..6]) % 45]
    else Untwo(BitsValue(b[..11])) + ParseAlphanumeric(b[11..], n - 2)
  }

  lemma ParseAlphanumericStep(x: seq<bool>, b: seq<bool>, n: nat)
    requires |x| == 11 && |b| >= AlphanumericSize(n)
    ensures |x + b| >= AlphanumericSize(n + 2)
    ensures ParseAlphanumeric(x + b, n + 2) == Untwo(BitsValue(x)) + ParseAlphanumeric(b, n)
  {
    hide BitsValue, Untwo, AlphanumericSize;
    AlphanumericSizes(n);
    TakeDrop(x, b);
  }

  lemma ParseSingle(a: Base45)
    ensures ParseAlphanumeric(ValueBits(a, 6), 1) == [a]
  {
    Widths();
    hide ValueBits, Pow2, BitsValue;
    ValueRoundTrip(a, 6);
    assert ValueBits(a, 6)[..6] == ValueBits(a, 6);
  }

  lemma FirstTwo(d: seq<Base45>, rest: seq<Base45>)
    requires |d| >= 2 && rest == d[2..]
    ensures [d[0], d[1]] + rest == d
  {
  }

  lemma {:induction false} ParseAlphanumericBits(d: seq<Base45>)
    ensures |AlphanumericBits(d)| == AlphanumericSize(|d|)
    ensures ParseAlphanumeric(AlphanumericBits(d), |d|) == d
  {
    AlphanumericLength(d);
    if |d| == 1 {
      ParseSingle(d[0]);
    } else if |d| >= 2 {
      Widths();
      hide *;
      var rest, v := d[2..], Two(d[0], d[1]);
      AlphanumericStep(d, rest);
      ParseAlphanumericBits(rest);
      ValueRoundTrip(v, 11);
      ParseAlphanumericStep(ValueBits(v, 11), AlphanumericBits(rest), |rest|);
      UntwoTwo(d[0], d[1]);
      FirstTwo(d, rest);
    }
  }

  const ALPHANUMERIC_CHARSET: string := "0123456789ABCDEFGHIJKLMNOPQRSTUVWXYZ $%*+-./:"

  /** The index of the first occurrence of c from position i, as strchr finds it. */
  function IndexFrom(s: string, c: char, i: nat): (k: nat)
    requires i <= |s| && c in s[i..]
    ensures i <= k < |s| && s[k] == c
    decreases |s| - i
  {
    if s[i] == c then i else IndexFrom(s, c, i + 1)
  }

  predicate InCharset(c: char) {
    c in ALPHANUMERIC_CHARSET
  }

  predicate IsAlphanumeric(text: string) {
    forall i :: 0 <= i < |text| ==> InCharset(text[i])
  }

  function CharIndex(c: char): (k: Base45)
    requires InCharset(c)
    ensures CharOf(k) == c
  {
    StartOf(ALPHANUMERIC_CHARSET);
    IndexFrom(ALPHANUMERIC_CHARSET, c, 0)
  }

  lemma StartOf(s: string)
    ensures s[0..] == s
  {
  }

  function CharOf(k: Base45): char {
    ALPHANUMERIC_CHARSET[k]
  }

  function CharValues(text: string): (d: seq<Base45>)
    requires IsAlphanumeric(text)
    ensures |d| == |text|
  {
    seq(|text|, i requires 0 <= i < |text| => CharIndex(text[i]))
  }

  function CharText(d: seq<Base45>): string {
    seq(|d|, i requires 0 <= i < |d| => CharOf(d[i]))
  }

  lemma CharTextValues(text: string)
    requires IsAlphanumeric(text)
    ensures CharText(CharValues(text)) == text
  {
    hide CharIndex, CharOf, InCharset;
  }

  // ---- Byte mode ----

  function ByteBits(data: seq<bv8>): seq<bool> {
    FirstBits(data, 8 * |data|)
  }

  /** A byte from eight bits, most significant first. */
  function ByteFrom(b: seq<bool>): bv8
    requires |b| == 8
  {
    OrBit(OrBit(OrBit(OrBit(OrBit(OrBit(OrBit(OrBit(0, 7, b[0]), 6, b[1]), 5, b[2]), 4, b[3]), 3, b[4]), 2, b[5]), 1, b[6]), 0, b[7])
  }

  function ParseBytes(b: seq<bool>, n: nat): seq<bv8>
    requires |b| >= 8 * n
  {
    seq(n, i requires 0 <= i < n => ByteFrom(b[8 * i..8 * i + 8]))
  }

  lemma ByteFromBits(x: bv8, b: seq<bool>)
    requires |b| == 8 && forall i :: 0 <= i < 8 ==> b[i] == GetBit(x, 7 - i)
    ensures ByteFrom(b) == x
  {
    assert b[0] == GetBit(x, 7) && b[1] == GetBit(x, 6) && b[2] == GetBit(x, 5) && b[3] == GetBit(x, 4);
    assert b[4] == GetBit(x, 3) && b[5] == GetBit(x, 2) && b[6] == GetBit(x, 1) && b[7] == GetBit(x, 0);
  }

  lemma ParseByteBits(data: seq<bv8>)
    ensures ParseBytes(ByteBits(data), |data|) == data
  {
    hide ByteFrom, GetBit;
    forall i | 0 <= i < |data| ensures ParseBytes(ByteBits(data), |data|)[i] == data[i] {
      var b := ByteBits(data)[8 * i..8 * i + 8];
      forall k | 0 <= k < 8 ensures b[k] == GetBit(data[i], 7 - k) {
        assert (8 * i + k) / 8 == i && (8 * i + k) % 8 == k;
      }
      ByteFromBits(data[i], b);
    }
  }
}
