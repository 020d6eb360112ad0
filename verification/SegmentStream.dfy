/** Making segments, laying them out as one bit stream, and parsing the stream back. */
module SegmentStream {
  import opened Arithmetic
  import opened Bits
  import opened BitBuffer
  import opened Segments

  // ---- What a segment is made from ----

  datatype Content = Digits10(digits: seq<Decimal>) | Chars45(chars: seq<Base45>) | Bytes(bytes: seq<bv8>)

  function ModeOf(c: Content): (m: Mode)
    ensures m != Kanji && m != Eci
  {
    match c case Digits10(_) => Numeric case Chars45(_) => Alphanumeric case Bytes(_) => Byte
  }

  function CountOf(c: Content): nat {
    match c case Digits10(d) => |d| case Chars45(d) => |d| case Bytes(d) => |d|
  }

  function BitsOf(c: Content): seq<bool> {
    match c case Digits10(d) => NumericBits(d) case Chars45(d) => AlphanumericBits(d) case Bytes(d) => ByteBits(d)
  }

  /** calcSegmentBitLength is the exact number of payload bits, or the overflow mark when that or the count is too large. */
  lemma BitsOfLength(c: Content)
    ensures |BitsOf(c)| == BitCount(ModeOf(c), CountOf(c))
    ensures CalcSegmentBitLength(ModeOf(c), CountOf(c))
         == if CountOf(c) <= INT16_MAX && |BitsOf(c)| <= INT16_MAX then |BitsOf(c)| else LENGTH_OVERFLOW
  {
    hide NumericBits, AlphanumericBits, NumericSize, AlphanumericSize;
    match c
    case Digits10(d) => NumericLength(d);
    case Chars45(d) => AlphanumericLength(d);
    case Bytes(_) =>
  }

  /** The segment was made from the content. */
  ghost predicate MadeFrom(s: Segment, c: Content) {
    SegmentOk(s) && s.mode == ModeOf(c) && s.numChars == CountOf(c) && Payload(s) == BitsOf(c)
  }

  // ---- The makers ----

  /** memset of the bytes that will be used. */
  method ClearBuffer(buf: array<bv8>, n: nat)
    requires n <= buf.Length
    modifies buf
    ensures forall i :: 0 <= i < buf.Length ==> buf[i] == if i < n then 0 else old(buf[i])
  {
    for i := 0 to n
      invariant forall k :: 0 <= k < buf.Length ==> buf[k] == if k < i then 0 else old(buf[k])
    {
      buf[i] := 0;
    }
  }

  lemma BytesMade(data: seq<bv8>, s: Segment)
    requires CalcSegmentBitLength(Byte, |data|) != LENGTH_OVERFLOW
    requires s == Segment(Byte, |data|, data, CalcSegmentBitLength(Byte, |data|))
    ensures MadeFrom(s, Bytes(data))
  {
    hide FirstBits;
  }

  /** qrcodegen_makeBytes. */
  method MakeBytes(data: seq<bv8>, buf: array<bv8>) returns (result: Segment)
    requires CalcSegmentBitLength(Byte, |data|) != LENGTH_OVERFLOW && |data| <= buf.Length
    modifies buf
    ensures MadeFrom(result, Bytes(data)) && result.bitLength == CalcSegmentBitLength(Byte, |data|)
  {
    for i := 0 to |data|
      invariant buf[..i] == data[..i]
    {
      buf[i] := data[i];
    }
    result := Segment(Byte, |data|, buf[..|data|], CalcSegmentBitLength(Byte, |data|));
    BytesMade(data, result);
  }

  /** The number spelled by some digits. */
  function Accumulated(d: seq<nat>, base: nat): nat {
    if d == [] then 0 else base * Accumulated(d[..|d| - 1], base) + d[|d| - 1]
  }

  lemma AccumulatedNext(d: seq<nat>, base: nat, from: nat, i: nat)
    requires from <= i < |d|
    ensures Accumulated(d[from..i + 1], base) == base * Accumulated(d[from..i], base) + d[i]
  {
    assert d[from..i + 1][..i - from] == d[from..i];
  }

  lemma AccumulatedFew(g: seq<nat>, base: nat)
    ensures |g| == 0 ==> Accumulated(g, base) == 0
    ensures |g| == 1 ==> Accumulated(g, base) == g[0]
    ensures |g| == 2 ==> Accumulated(g, base) == base * g[0] + g[1]
    ensures |g| == 3 ==> Accumulated(g, base) == base * (base * g[0] + g[1]) + g[2]
  {
    if |g| > 0 { AccumulatedFew(g[..|g| - 1], base); }
  }

  // ---- Numeric ----

  /** The scan has read i digits; whole groups of three are in the buffer. */
  ghost predicate NumericState(d: seq<Decimal>, i: nat, buf: seq<bv8>, len: nat, acc: nat, count: nat) {
    i <= |d| && count == i % 3 && acc == Accumulated(d[i - count..i], 10)
    && Holds(buf, NumericBits(d[..i - count])) && len == |NumericBits(d[..i - count])|
  }

  lemma Adjoining<T>(d: seq<T>, j: nat, k: nat)
    requires j <= k <= |d|
    ensures d[..k] == d[..j] + d[j..k]
  {
  }

  lemma NumericStart(d: seq<Decimal>, buf: seq<bv8>)
    requires Holds(buf, [])
    ensures NumericState(d, 0, buf, 0, 0, 0)
  {
    assert d[..0] == [] && d[0..0] == [];
  }

  /** A digit that does not complete a group. */
  lemma NumericDigit(d: seq<Decimal>, i: nat, buf: seq<bv8>, len: nat, acc: nat, count: nat)
    requires NumericState(d, i, buf, len, acc, count) && i < |d| && count < 2
    ensures NumericState(d, i + 1, buf, len, acc * 10 + d[i], count + 1)
  {
    hide Holds, NumericBits, Accumulated;
    AccumulatedNext(d, 10, i - count, i);
    Euclid(i, 3);
    DivUnique(i + 1, 3, i / 3, count + 1);
  }

  lemma FullGroup(g: seq<Decimal>)
    requires |g| == 3
    ensures Accumulated(g, 10) < Pow2(10) && NumericBits(g) == ValueBits(Accumulated(g, 10), 10)
  {
    hide ValueBits, Pow2, Accumulated, NumericBits;
    Widths();
    AccumulatedFew(g, 10);
    ThreeDigits(g);
  }

  lemma PartGroup(g: seq<Decimal>)
    requires 1 <= |g| < 3
    ensures Accumulated(g, 10) < Pow2(3 * |g| + 1) && NumericBits(g) == ValueBits(Accumulated(g, 10), 3 * |g| + 1)
  {
    hide ValueBits, Pow2, Accumulated, NumericBits;
    Widths();
    AccumulatedFew(g, 10);
    FewDigits(g);
    if |g| == 1 {} else {}
  }

  lemma ThreeDigits(g: seq<Decimal>)
    requires |g| == 3
    ensures NumericBits(g) == ValueBits(10 * (10 * g[0] as nat + g[1]) + g[2], 10)
  {
    NumericStep(g, []);
    assert NumericBits([]) == [];
    hide ValueBits, NumericBits;
    var b := ValueBits(Three(g[0], g[1], g[2]), 10);
    assert b + [] == b;
  }

  lemma FewDigits(g: seq<Decimal>)
    ensures |g| == 1 ==> NumericBits(g) == ValueBits(g[0], 4)
    ensures |g| == 2 ==> NumericBits(g) == ValueBits(10 * g[0] as nat + g[1], 7)
  {
    hide ValueBits;
  }

  /** A digit that completes a group, which is then appended. */
  lemma NumericGroup(d: seq<Decimal>, i: nat, buf: seq<bv8>, len: nat, acc: nat)
    requires NumericState(d, i, buf, len, acc, 2) && i < |d|
    ensures var v := acc * 10 + d[i];
            && v < Pow2(10) && len + 10 <= NumericSize(|d|)
            && NumericBits(d[..i - 2]) + ValueBits(v, 10) == NumericBits(d[..i + 1])
            && len == |NumericBits(d[..i - 2])| && Holds(buf, NumericBits(d[..i - 2]))
            && len + 10 == |NumericBits(d[..i + 1])| && (i + 1) % 3 == 0
  {
    hide ValueBits, Pow2, Holds, NumericBits, Accumulated, NumericSize;
    var front, g := d[..i - 2], d[i - 2..i + 1];
    Euclid(i, 3);
    DivUnique(i + 1, 3, i / 3 + 1, 0);
    DivUnique(i - 2, 3, i / 3, 0);
    AccumulatedNext(d, 10, i - 2, i);
    FullGroup(g);
    Adjoining(d, i - 2, i + 1);
    NumericSplit(front, g);
    NumericLength(d[..i + 1]);
    SizesGrow(i + 1, |d|);
  }

  lemma NumericAfterGroup(d: seq<Decimal>, i: nat, buf: seq<bv8>, len: nat)
    requires i <= |d| && i % 3 == 0 && Holds(buf, NumericBits(d[..i])) && len == |NumericBits(d[..i])|
    ensures NumericState(d, i, buf, len, 0, 0)
  {
    hide Holds, NumericBits;
    assert d[i..i] == [];
  }

  lemma NumericLast(d: seq<Decimal>, front: seq<Decimal>, g: seq<Decimal>)
    requires d == front + g && |front| % 3 == 0 && 1 <= |g| < 3
    ensures Accumulated(g, 10) < Pow2(3 * |g| + 1) && |NumericBits(front)| + (3 * |g| + 1) == NumericSize(|d|)
    ensures NumericBits(front) + ValueBits(Accumulated(g, 10), 3 * |g| + 1) == NumericBits(d)
  {
    hide *;
    PartGroup(g);
    NumericSplit(front, g);
    NumericLength(front);
    NumericSizes(|front|);
    if |g| == 1 {} else {}
  }

  lemma NumericOpen(d: seq<Decimal>, buf: seq<bv8>, len: nat, acc: nat, count: nat)
    requires NumericState(d, |d|, buf, len, acc, count) && count > 0
    ensures count < 3 && (|d| - count) % 3 == 0
    ensures acc == Accumulated(d[|d| - count..|d|], 10) && len == |NumericBits(d[..|d| - count])|
    ensures Holds(buf, NumericBits(d[..|d| - count]))
  {
    hide Accumulated, NumericBits, Holds;
    Euclid(|d|, 3);
    DivUnique(|d| - count, 3, |d| / 3, 0);
  }

  lemma Rejoin<T>(d: seq<T>, k: nat)
    requires k <= |d|
    ensures d == d[..k] + d[k..|d|]
  {
  }

  /** One or two digits remain. */
  lemma NumericRest(d: seq<Decimal>, buf: seq<bv8>, len: nat, acc: nat, count: nat)
    requires NumericState(d, |d|, buf, len, acc, count) && count > 0
    ensures count <= |d| && acc < Pow2(3 * count + 1) && len + (3 * count + 1) == NumericSize(|d|)
    ensures NumericBits(d[..|d| - count]) + ValueBits(acc, 3 * count + 1) == NumericBits(d)
    ensures Holds(buf, NumericBits(d[..|d| - count])) && len == |NumericBits(d[..|d| - count])|
  {
    NumericOpen(d, buf, len, acc, count);
    hide *;
    Rejoin(d, |d| - count);
    NumericLast(d, d[..|d| - count], d[|d| - count..|d|]);
  }

  /** qrcodegen_makeNumeric. */
  method MakeNumeric(digits: string, buf: array<bv8>) returns (result: Segment)
    requires IsNumeric(digits) && CalcSegmentBitLength(Numeric, |digits|) != LENGTH_OVERFLOW
    requires (CalcSegmentBitLength(Numeric, |digits|) + 7) / 8 <= buf.Length
    modifies buf
    ensures MadeFrom(result, Digits10(Digits(digits))) && result.bitLength == CalcSegmentBitLength(Numeric, |digits|)
  {
    hide NumericBits, Holds, ValueBits, Pow2, NumericState, NumericSize;
    ghost var d := Digits(digits);
    var limit := (CalcSegmentBitLength(Numeric, |digits|) + 7) / 8;
    ClearBuffer(buf, limit);
    ZerosHold(buf[..limit]);
    NumericStart(d, buf[..limit]);
    var bitLength: nat := 0;
    var accumData: nat, accumCount: nat := 0, 0;
    for i := 0 to |digits|
      invariant accumCount < 3 && NumericState(d, i, buf[..limit], bitLength, accumData, accumCount)
    {
      ghost var before := accumData;
      accumData := accumData * 10 + (digits[i] as int - '0' as int);
      accumCount := accumCount + 1;
      if accumCount == 3 {
        NumericGroup(d, i, buf[..limit], bitLength, before);
        bitLength := AppendBits(accumData, 10, buf, limit, bitLength, NumericBits(d[..i - 2]));
        NumericAfterGroup(d, i + 1, buf[..limit], bitLength);
        accumData := 0;
        accumCount := 0;
      } else {
        NumericDigit(d, i, buf[..limit], bitLength, before, accumCount - 1);
      }
    }
    if accumCount > 0 {
      bitLength := NumericTail(d, accumData, accumCount, buf, limit, bitLength);
    } else {
      NumericWhole(d, buf[..limit], bitLength, accumData);
    }
    NumericLength(d);
    HoldsFirst(buf[..limit], NumericBits(d));
    result := Segment(Numeric, |digits|, buf[..limit], bitLength);
  }

  method NumericTail(ghost d: seq<Decimal>, acc: nat, count: nat, buf: array<bv8>, ghost limit: nat, bitLength: nat) returns (newLen: nat)
    requires limit <= buf.Length && NumericSize(|d|) <= 8 * limit
    requires 0 < count < 3 && NumericState(d, |d|, buf[..limit], bitLength, acc, count)
    modifies buf
    ensures Holds(buf[..limit], NumericBits(d)) && newLen == |NumericBits(d)|
  {
    hide NumericBits, Holds, ValueBits, Pow2, NumericState, NumericSize;
    NumericRest(d, buf[..limit], bitLength, acc, count);
    NumericLength(d);
    newLen := AppendBits(acc, count * 3 + 1, buf, limit, bitLength, NumericBits(d[..|d| - count]));
  }

  lemma NumericWhole(d: seq<Decimal>, buf: seq<bv8>, len: nat, acc: nat)
    requires NumericState(d, |d|, buf, len, acc, 0)
    ensures Holds(buf, NumericBits(d)) && len == |NumericBits(d)|
  {
    hide NumericBits, Holds;
    assert d[..|d|] == d;
  }

  // ---- Alphanumeric ----

  ghost predicate AlphanumericState(d: seq<Base45>, i: nat, buf: seq<bv8>, len: nat, acc: nat, count: nat) {
    i <= |d| && count == i % 2 && acc == Accumulated(d[i - count..i], 45)
    && Holds(buf, AlphanumericBits(d[..i - count])) && len == |AlphanumericBits(d[..i - count])|
  }

  lemma AlphanumericStart(d: seq<Base45>, buf: seq<bv8>)
    requires Holds(buf, [])
    ensures AlphanumericState(d, 0, buf, 0, 0, 0)
  {
    assert d[..0] == [] && d[0..0] == [];
  }

  lemma AlphanumericFirst(d: seq<Base45>, i: nat, buf: seq<bv8>, len: nat, acc: nat)
    requires AlphanumericState(d, i, buf, len, acc, 0) && i < |d|
    ensures AlphanumericState(d, i + 1, buf, len, acc * 45 + d[i], 1)
  {
    hide Holds, AlphanumericBits, Accumulated;
    AccumulatedNext(d, 45, i, i);
    Euclid(i, 2);
    DivUnique(i + 1, 2, i / 2, 1);
  }

  lemma PairGroup(g: seq<Base45>)
    requires |g| == 2
    ensures Accumulated(g, 45) < Pow2(11) && AlphanumericBits(g) == ValueBits(Accumulated(g, 45), 11)
  {
    hide ValueBits, Pow2, Accumulated, AlphanumericBits;
    Widths();
    AccumulatedFew(g, 45);
    TwoChars(g);
  }

  lemma SingleGroup(g: seq<Base45>)
    requires |g| == 1
    ensures Accumulated(g, 45) < Pow2(6) && AlphanumericBits(g) == ValueBits(Accumulated(g, 45), 6)
  {
    hide ValueBits, Pow2, Accumulated, AlphanumericBits;
    Widths();
    AccumulatedFew(g, 45);
    OneChar(g);
  }

  lemma TwoChars(g: seq<Base45>)
    requires |g| == 2
    ensures AlphanumericBits(g) == ValueBits(45 * g[0] as nat + g[1], 11)
  {
    AlphanumericStep(g, []);
    assert AlphanumericBits([]) == [];
    hide ValueBits, AlphanumericBits;
    var b := ValueBits(Two(g[0], g[1]), 11);
    assert b + [] == b;
  }

  lemma OneChar(g: seq<Base45>)
    requires |g| == 1
    ensures AlphanumericBits(g) == ValueBits(g[0], 6)
  {
    hide ValueBits;
  }

  lemma AlphanumericPair(d: seq<Base45>, i: nat, buf: seq<bv8>, len: nat, acc: nat)
    requires AlphanumericState(d, i, buf, len, acc, 1) && i < |d|
    ensures var v := acc * 45 + d[i];
            && v < Pow2(11) && len + 11 <= AlphanumericSize(|d|)
            && AlphanumericBits(d[..i - 1]) + ValueBits(v, 11) == AlphanumericBits(d[..i + 1])
            && len == |AlphanumericBits(d[..i - 1])| && Holds(buf, AlphanumericBits(d[..i - 1]))
            && len + 11 == |AlphanumericBits(d[..i + 1])| && (i + 1) % 2 == 0
  {
    hide ValueBits, Pow2, Holds, AlphanumericBits, Accumulated, AlphanumericSize;
    var front, g := d[..i - 1], d[i - 1..i + 1];
    Euclid(i, 2);
    DivUnique(i + 1, 2, i / 2 + 1, 0);
    DivUnique(i - 1, 2, i / 2, 0);
    AccumulatedNext(d, 45, i - 1, i);
    PairGroup(g);
    Adjoining(d, i - 1, i + 1);
    AlphanumericSplit(front, g);
    AlphanumericLength(d[..i + 1]);
    SizesGrow(i + 1, |d|);
  }

  lemma AlphanumericAfterPair(d: seq<Base45>, i: nat, buf: seq<bv8>, len: nat)
    requires i <= |d| && i % 2 == 0 && Holds(buf, AlphanumericBits(d[..i])) && len == |AlphanumericBits(d[..i])|
    ensures AlphanumericState(d, i, buf, len, 0, 0)
  {
    hide Holds, AlphanumericBits;
    assert d[i..i] == [];
  }

  lemma AlphanumericOpen(d: seq<Base45>, buf: seq<bv8>, len: nat, acc: nat)
    requires AlphanumericState(d, |d|, buf, len, acc, 1)
    ensures |d| > 0 && (|d| - 1) % 2 == 0 && Holds(buf, AlphanumericBits(d[..|d| - 1]))
    ensures acc == Accumulated(d[|d| - 1..|d|], 45) && len == |AlphanumericBits(d[..|d| - 1])|
  {
    hide Accumulated, AlphanumericBits, Holds;
    Euclid(|d|, 2);
    DivUnique(|d| - 1, 2, |d| / 2, 0);
  }

  lemma AlphanumericLast(d: seq<Base45>, front: seq<Base45>, g: seq<Base45>)
    requires d == front + g && |front| % 2 == 0 && |g| == 1
    ensures Accumulated(g, 45) < Pow2(6) && |AlphanumericBits(front)| + 6 == AlphanumericSize(|d|)
    ensures AlphanumericBits(front) + ValueBits(Accumulated(g, 45), 6) == AlphanumericBits(d)
  {
    hide *;
    SingleGroup(g);
    AlphanumericSplit(front, g);
    AlphanumericLength(front);
    AlphanumericSizes(|front|);
  }

  /** One character remains. */
  lemma AlphanumericRest(d: seq<Base45>, buf: seq<bv8>, len: nat, acc: nat)
    requires AlphanumericState(d, |d|, buf, len, acc, 1)
    ensures |d| > 0 && acc < Pow2(6) && len + 6 == AlphanumericSize(|d|)
    ensures AlphanumericBits(d[..|d| - 1]) + ValueBits(acc, 6) == AlphanumericBits(d)
    ensures Holds(buf, AlphanumericBits(d[..|d| - 1])) && len == |AlphanumericBits(d[..|d| - 1])|
  {
    AlphanumericOpen(d, buf, len, acc);
    hide *;
    Rejoin(d, |d| - 1);
    AlphanumericLast(d, d[..|d| - 1], d[|d| - 1..|d|]);
  }

  method AlphanumericTail(ghost d: seq<Base45>, acc: nat, buf: array<bv8>, ghost limit: nat, bitLength: nat) returns (newLen: nat)
    requires limit <= buf.Length && AlphanumericSize(|d|) <= 8 * limit
    requires AlphanumericState(d, |d|, buf[..limit], bitLength, acc, 1)
    modifies buf
    ensures Holds(buf[..limit], AlphanumericBits(d)) && newLen == |AlphanumericBits(d)|
  {
    hide AlphanumericBits, Holds, ValueBits, Pow2, AlphanumericState, AlphanumericSize;
    AlphanumericRest(d, buf[..limit], bitLength, acc);
    AlphanumericLength(d);
    newLen := AppendBits(acc, 6, buf, limit, bitLength, AlphanumericBits(d[..|d| - 1]));
  }

  lemma AlphanumericWhole(d: seq<Base45>, buf: seq<bv8>, len: nat, acc: nat)
    requires AlphanumericState(d, |d|, buf, len, acc, 0)
    ensures Holds(buf, AlphanumericBits(d)) && len == |AlphanumericBits(d)|
  {
    hide AlphanumericBits, Holds;
    assert d[..|d|] == d;
  }

  /** qrcodegen_makeAlphanumeric. */
  method MakeAlphanumeric(text: string, buf: array<bv8>) returns (result: Segment)
    requires IsAlphanumeric(text) && CalcSegmentBitLength(Alphanumeric, |text|) != LENGTH_OVERFLOW
    requires (CalcSegmentBitLength(Alphanumeric, |text|) + 7) / 8 <= buf.Length
    modifies buf
    ensures MadeFrom(result, Chars45(CharValues(text))) && result.bitLength == CalcSegmentBitLength(Alphanumeric, |text|)
  {
    hide AlphanumericBits, Holds, ValueBits, Pow2, AlphanumericState, AlphanumericSize, CharIndex, InCharset;
    ghost var d := CharValues(text);
    var limit := (CalcSegmentBitLength(Alphanumeric, |text|) + 7) / 8;
    ClearBuffer(buf, limit);
    ZerosHold(buf[..limit]);
    AlphanumericStart(d, buf[..limit]);
    var bitLength: nat := 0;
    var accumData: nat, accumCount: nat := 0, 0;
    for i := 0 to |text|
      invariant accumCount < 2 && AlphanumericState(d, i, buf[..limit], bitLength, accumData, accumCount)
    {
      ghost var before := accumData;
      accumData := accumData * 45 + CharIndex(text[i]);
      accumCount := accumCount + 1;
      if accumCount == 2 {
        AlphanumericPair(d, i, buf[..limit], bitLength, before);
        bitLength := AppendBits(accumData, 11, buf, limit, bitLength, AlphanumericBits(d[..i - 1]));
        AlphanumericAfterPair(d, i + 1, buf[..limit], bitLength);
        accumData := 0;
        accumCount := 0;
      } else {
        AlphanumericFirst(d, i, buf[..limit], bitLength, before);
      }
    }
    if accumCount > 0 {
      bitLength := AlphanumericTail(d, accumData, buf, limit, bitLength);
    } else {
      AlphanumericWhole(d, buf[..limit], bitLength, accumData);
    }
    AlphanumericLength(d);
    HoldsFirst(buf[..limit], AlphanumericBits(d));
    result := Segment(Alphanumeric, |text|, buf[..limit], bitLength);
  }
}
