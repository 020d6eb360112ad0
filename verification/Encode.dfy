/** The data bit stream of a QR Code and the choice of version and level: qrcodegen_encodeSegmentsAdvanced of qrcodegen.c. */
module Encode {
  import opened Arithmetic
  import opened Bits
  import opened Grid
  import opened BitBuffer
  import opened Segments
  import opened SegmentStream
  import opened FunctionModules
  import opened Versions

  // ---- The stream ----

  /** Mode indicator and character count. */
  function Header(mode: Mode, n: nat, version: nat): seq<bool>
    requires VersionOk(version)
  {
    ValueBits(ModeBits(mode), 4) + ValueBits(n, NumCharCountBits(mode, version))
  }

  predicate SegmentsOk(segs: seq<Segment>) {
    forall i :: 0 <= i < |segs| ==> SegmentOk(segs[i])
  }

  function SegmentBits(s: Segment, version: nat): seq<bool>
    requires SegmentOk(s) && VersionOk(version)
  {
    Header(s.mode, s.numChars, version) + Payload(s)
  }

  /** All segments one after the other. */
  function StreamBits(segs: seq<Segment>, version: nat): seq<bool>
    requires SegmentsOk(segs) && VersionOk(version)
  {
    if segs == [] then [] else StreamBits(segs[..|segs| - 1], version) + SegmentBits(segs[|segs| - 1], version)
  }

  /** Every count fits its field. */
  predicate CountsFit(segs: seq<Segment>, version: nat)
    requires VersionOk(version)
  {
    forall i :: 0 <= i < |segs| ==> segs[i].numChars < Pow2(NumCharCountBits(segs[i].mode, version))
  }

  /** getTotalBits as a property of the stream: its length, or an overflow mark. */
  function TotalBits(segs: seq<Segment>, version: nat): int
    requires SegmentsOk(segs) && VersionOk(version)
  {
    if CountsFit(segs, version) && |StreamBits(segs, version)| <= INT16_MAX then |StreamBits(segs, version)| else LENGTH_OVERFLOW
  }

  lemma {:induction false} StreamGrows(segs: seq<Segment>, version: nat, i: nat)
    requires SegmentsOk(segs) && VersionOk(version) && i <= |segs|
    ensures |StreamBits(segs[..i], version)| <= |StreamBits(segs, version)|
    decreases |segs|
  {
    hide SegmentBits, SegmentOk;
    if i < |segs| {
      StreamGrows(segs[..|segs| - 1], version, i);
      assert segs[..|segs| - 1][..i] == segs[..i];
    } else {
      assert segs[..i] == segs;
    }
  }

  lemma StreamNext(segs: seq<Segment>, version: nat, i: nat)
    requires SegmentsOk(segs) && VersionOk(version) && i < |segs|
    ensures StreamBits(segs[..i + 1], version) == StreamBits(segs[..i], version) + SegmentBits(segs[i], version)
  {
    hide SegmentBits, SegmentOk;
    assert segs[..i + 1][..i] == segs[..i];
  }

  lemma SegmentLength(s: Segment, version: nat)
    requires SegmentOk(s) && VersionOk(version)
    ensures |SegmentBits(s, version)| == 4 + NumCharCountBits(s.mode, version) + s.bitLength
  {
    hide ValueBits, NumCharCountBits;
  }

  /** getTotalBits. */
  method GetTotalBits(segs: seq<Segment>, version: nat) returns (result: int)
    requires SegmentsOk(segs) && VersionOk(version)
    ensures result == TotalBits(segs, version)
  {
    hide SegmentBits, NumCharCountBits, Pow2, StreamBits, SegmentOk;
    result := 0;
    StreamNone(segs, version);
    for i := 0 to |segs|
      invariant CountsFit(segs[..i], version) && result == |StreamBits(segs[..i], version)| <= INT16_MAX
    {
      var ccbits := NumCharCountBits(segs[i].mode, version);
      StreamNext(segs, version, i);
      SegmentLength(segs[i], version);
      StreamGrows(segs, version, i + 1);
      if segs[i].numChars >= Pow2(ccbits) {
        return LENGTH_OVERFLOW;
      }
      result := result + (4 + ccbits + segs[i].bitLength);
      if result > INT16_MAX {
        return LENGTH_OVERFLOW;
      }
    }
    assert segs[..|segs|] == segs;
  }

  lemma StreamNone(segs: seq<Segment>, version: nat)
    requires SegmentsOk(segs) && VersionOk(version)
    ensures StreamBits(segs[..0], version) == []
  {
  }

  // ---- Terminator and padding ----

  function Zeros(n: nat): (b: seq<bool>)
    ensures |b| == n
  {
    seq(n, _ => false)
  }

  function TerminatorBits(used: nat, capacity: nat): nat
    requires used <= capacity
  {
    if capacity - used > 4 then 4 else capacity - used
  }

  function OtherPad(pad: nat): nat {
    if pad == 0xEC then 0x11 else 0xEC
  }

  /** The alternating pad bytes 0xEC and 0x11 from length len up to the capacity. */
  function PadBits(len: nat, capacity: nat, pad: nat): seq<bool>
    decreases capacity - len
  {
    if len >= capacity then [] else ValueBits(pad, 8) + PadBits(len + 8, capacity, OtherPad(pad))
  }

  /** What follows the segments: terminator, padding to a byte, pad bytes. */
  function Tail(used: nat, capacity: nat): seq<bool>
    requires used <= capacity
  {
    var t := TerminatorBits(used, capacity);
    var fill := (8 - (used + t) % 8) % 8;
    Zeros(t) + Zeros(fill) + PadBits(used + t + fill, capacity, 0xEC)
  }

  lemma {:induction false} PadLength(len: nat, capacity: nat, pad: nat)
    requires len <= capacity && len % 8 == 0 && capacity % 8 == 0
    ensures |PadBits(len, capacity, pad)| == capacity - len
    decreases capacity - len
  {
    hide ValueBits;
    if len < capacity { PadLength(len + 8, capacity, OtherPad(pad)); }
  }

  lemma FillFits(used: nat, capacity: nat)
    requires used <= capacity && capacity % 8 == 0
    ensures var t := TerminatorBits(used, capacity);
            var fill := (8 - (used + t) % 8) % 8;
            0 <= fill < 8 && (used + t + fill) % 8 == 0 && used + t + fill <= capacity
  {
    var t := TerminatorBits(used, capacity);
    var b := (used + t) % 8;
    Euclid(used + t, 8);
    Euclid(capacity, 8);
    if b > 0 { DivUnique(used + t + (8 - b), 8, (used + t) / 8 + 1, 0); }
  }

  /** Exactly the capacity is written. */
  lemma TailLength(used: nat, capacity: nat)
    requires used <= capacity && capacity % 8 == 0
    ensures used + |Tail(used, capacity)| == capacity
  {
    hide PadBits;
    FillFits(used, capacity);
    var t := TerminatorBits(used, capacity);
    PadLength(used + t + (8 - (used + t) % 8) % 8, capacity, 0xEC);
  }

  /** The tail cannot be taken for another segment. */
  predicate EndsStream(b: seq<bool>) {
    |b| < 4 || b[..4] == [false, false, false, false]
  }

  lemma TailEnds(used: nat, capacity: nat)
    requires used <= capacity && capacity % 8 == 0
    ensures EndsStream(Tail(used, capacity))
  {
    TailLength(used, capacity);
    hide PadBits;
  }

  // ---- Parsing ----

  function ContentBits(c: Content, version: nat): seq<bool>
    requires VersionOk(version)
  {
    Header(ModeOf(c), CountOf(c), version) + BitsOf(c)
  }

  function ModeFrom(m: nat): (r: Mode)
    requires m == 1 || m == 2 || m == 4
    ensures r != Kanji && r != Eci && ModeBits(r) == m
  {
    if m == 1 then Numeric else if m == 2 then Alphanumeric else Byte
  }

  function ParsePayload(mode: Mode, b: seq<bool>, n: nat): Content
    requires mode != Kanji && mode != Eci && |b| >= BitCount(mode, n)
  {
    if mode == Numeric then Digits10(ParseNumeric(b, n))
    else if mode == Alphanumeric then Chars45(ParseAlphanumeric(b, n))
    else Bytes(ParseBytes(b, n))
  }

  /** A reader of the stream: mode, count, payload, until a terminator or the end. */
  function Parse(b: seq<bool>, version: nat): seq<Content>
    requires VersionOk(version)
    decreases |b|
  {
    if |b| < 4 then []
    else
      var m := BitsValue(b[..4]);
      if m != 1 && m != 2 && m != 4 then []
      else
        var h := 4 + NumCharCountBits(ModeFrom(m), version);
        if |b| < h then []
        else
          var n := BitsValue(b[4..h]);
          var len := BitCount(ModeFrom(m), n);
          if |b| < h + len then []
          else [ParsePayload(ModeFrom(m), b[h..h + len], n)] + Parse(b[h + len..], version)
  }

  lemma ParsePayloadBits(c: Content)
    ensures |BitsOf(c)| == BitCount(ModeOf(c), CountOf(c)) && ParsePayload(ModeOf(c), BitsOf(c), CountOf(c)) == c
  {
    BitsOfLength(c);
    hide NumericBits, AlphanumericBits, ByteBits, ParseNumeric, ParseAlphanumeric, ParseBytes;
    match c
    case Digits10(d) => ParseNumericBits(d);
    case Chars45(d) => ParseAlphanumericBits(d);
    case Bytes(d) => ParseByteBits(d);
  }

  /** The parts of a content followed by more bits. */
  lemma ContentParts(c: Content, version: nat, rest: seq<bool>)
    requires VersionOk(version)
    ensures var b, h := ContentBits(c, version) + rest, 4 + NumCharCountBits(ModeOf(c), version);
            && |b| == h + |BitsOf(c)| + |rest|
            && b[..4] == ValueBits(ModeBits(ModeOf(c)), 4)
            && b[4..h] == ValueBits(CountOf(c), NumCharCountBits(ModeOf(c), version))
            && b[h..h + |BitsOf(c)|] == BitsOf(c) && b[h + |BitsOf(c)|..] == rest
  {
    hide ValueBits, BitsOf, NumCharCountBits;
  }

  lemma ParseContent(c: Content, version: nat, rest: seq<bool>)
    requires VersionOk(version) && CountOf(c) < Pow2(NumCharCountBits(ModeOf(c), version))
    ensures Parse(ContentBits(c, version) + rest, version) == [c] + Parse(rest, version)
  {
    hide ValueBits, BitsOf, NumCharCountBits, ContentBits, ParsePayload, BitCount, BitsValue, Pow2;
    ContentParts(c, version, rest);
    Widths();
    ValueRoundTrip(ModeBits(ModeOf(c)), 4);
    ValueRoundTrip(CountOf(c), NumCharCountBits(ModeOf(c), version));
    ParsePayloadBits(c);
  }

  function ContentStream(cs: seq<Content>, version: nat): seq<bool>
    requires VersionOk(version)
  {
    if cs == [] then [] else ContentBits(cs[0], version) + ContentStream(cs[1..], version)
  }

  lemma ParseEnd(b: seq<bool>, version: nat)
    requires VersionOk(version) && EndsStream(b)
    ensures Parse(b, version) == []
  {
    if |b| >= 4 {
      ZerosValue(4);
      assert b[..4] == Zeros(4);
    }
  }

  lemma {:induction false} ZerosValue(n: nat)
    ensures BitsValue(Zeros(n)) == 0
  {
    if n > 0 {
      ZerosValue(n - 1);
      assert Zeros(n)[..n - 1] == Zeros(n - 1);
    }
  }

  /** Parsing the stream, whatever ends it, gives back what was put in. */
  lemma {:induction false} ParseStream(cs: seq<Content>, version: nat, tail: seq<bool>)
    requires VersionOk(version) && EndsStream(tail)
    requires forall i :: 0 <= i < |cs| ==> CountOf(cs[i]) < Pow2(NumCharCountBits(ModeOf(cs[i]), version))
    ensures Parse(ContentStream(cs, version) + tail, version) == cs
  {
    hide Parse, ContentBits, NumCharCountBits, Pow2, EndsStream, CountOf, ModeOf;
    if cs == [] {
      ParseEnd(tail, version);
      assert ContentStream(cs, version) + tail == tail;
    } else {
      var rest := ContentStream(cs[1..], version);
      ParseStream(cs[1..], version, tail);
      ParseContent(cs[0], version, rest + tail);
      JoinBits(ContentBits(cs[0], version), rest, tail);
      assert cs == [cs[0]] + cs[1..];
    }
  }

  /** Segment i was made from content i. */
  ghost predicate AllMadeFrom(segs: seq<Segment>, cs: seq<Content>) {
    |segs| == |cs| && forall i :: 0 <= i < |segs| ==> MadeFrom(segs[i], cs[i])
  }

  lemma {:induction false} ContentSnoc(cs: seq<Content>, c: Content, version: nat)
    requires VersionOk(version)
    ensures ContentStream(cs + [c], version) == ContentStream(cs, version) + ContentBits(c, version)
  {
    hide ContentBits;
    if cs == [] {
      assert cs + [c] == [c] && [c][1..] == [];
      assert ContentStream([c], version) == ContentBits(c, version) + [];
    } else {
      ContentSnoc(cs[1..], c, version);
      assert (cs + [c])[1..] == cs[1..] + [c];
      JoinBits(ContentBits(cs[0], version), ContentStream(cs[1..], version), ContentBits(c, version));
    }
  }

  lemma {:induction false} StreamIsContent(segs: seq<Segment>, cs: seq<Content>, version: nat)
    requires SegmentsOk(segs) && VersionOk(version) && AllMadeFrom(segs, cs)
    ensures StreamBits(segs, version) == ContentStream(cs, version)
    decreases |segs|
  {
    hide ContentBits, SegmentBits, SegmentOk, MadeFrom;
    if segs == [] {
      assert cs == [];
    } else {
      var n := |segs| - 1;
      StreamIsContent(segs[..n], cs[..n], version);
      ContentSnoc(cs[..n], cs[n], version);
      assert cs[..n] + [cs[n]] == cs;
      SegmentIsContent(segs[n], cs[n], version);
    }
  }

  lemma SegmentIsContent(s: Segment, c: Content, version: nat)
    requires SegmentOk(s) && MadeFrom(s, c) && VersionOk(version)
    ensures SegmentBits(s, version) == ContentBits(c, version)
  {
    hide Header, BitsOf;
  }

  /** The data bits of a whole code, parsed, give back every character of every segment. */
  lemma DataRoundTrip(segs: seq<Segment>, cs: seq<Content>, version: nat, capacity: nat)
    requires SegmentsOk(segs) && VersionOk(version) && AllMadeFrom(segs, cs) && CountsFit(segs, version)
    requires |StreamBits(segs, version)| <= capacity && capacity % 8 == 0
    ensures Parse(StreamBits(segs, version) + Tail(|StreamBits(segs, version)|, capacity), version) == cs
  {
    hide Parse, StreamBits, Tail, EndsStream, Pow2, NumCharCountBits, SegmentOk;
    StreamIsContent(segs, cs, version);
    TailEnds(|StreamBits(segs, version)|, capacity);
    forall i | 0 <= i < |cs| ensures CountOf(cs[i]) < Pow2(NumCharCountBits(ModeOf(cs[i]), version)) {
      assert MadeFrom(segs[i], cs[i]);
    }
    ParseStream(cs, version, Tail(|StreamBits(segs, version)|, capacity));
  }

  // ---- The choice of version and level ----

  predicate Fits(segs: seq<Segment>, version: nat, ecl: nat)
    requires SegmentsOk(segs) && VersionOk(version) && ecl < 4
  {
    TotalBits(segs, version) != LENGTH_OVERFLOW && TotalBits(segs, version) <= 8 * NumDataCodewords(version, ecl)
  }

  /** The level reached by going through the levels up to i and taking each one that fits. */
  function Boosted(segs: seq<Segment>, version: nat, ecl: nat, i: nat): (r: nat)
    requires SegmentsOk(segs) && VersionOk(version) && ecl < 4 && i <= 4
    ensures r < 4
  {
    if i <= 1 then ecl else if Fits(segs, version, i - 1) then i - 1 else Boosted(segs, version, ecl, i - 1)
  }

  /** Boosting keeps the fit, never lowers the level, and leaves no higher level that fits. */
  lemma {:induction false} BoostedFits(segs: seq<Segment>, version: nat, ecl: nat, i: nat)
    requires SegmentsOk(segs) && VersionOk(version) && ecl < 4 && i <= 4 && Fits(segs, version, ecl)
    ensures Fits(segs, version, Boosted(segs, version, ecl, i))
    ensures i == 4 ==> Boosted(segs, version, ecl, i) >= ecl
    ensures ecl < i ==> Boosted(segs, version, ecl, i) >= ecl
    ensures forall e: nat :: Boosted(segs, version, ecl, i) < e < i ==> !Fits(segs, version, e)
  {
    hide Fits;
    if i > 1 { BoostedFits(segs, version, ecl, i - 1); }
  }

  /** The data bits of the code. */
  function DataBits(segs: seq<Segment>, version: nat, ecl: nat): seq<bool>
    requires SegmentsOk(segs) && VersionOk(version) && ecl < 4 && Fits(segs, version, ecl)
  {
    StreamBits(segs, version) + Tail(|StreamBits(segs, version)|, 8 * NumDataCodewords(version, ecl))
  }

  /** The least version in a range with a fit is v. */
  ghost predicate LeastFit(segs: seq<Segment>, ecl: nat, low: nat, v: nat)
    requires SegmentsOk(segs) && ecl < 4 && 1 <= low && VersionOk(v)
  {
    low <= v && Fits(segs, v, ecl) && forall u: nat :: low <= u < v ==> !Fits(segs, u, ecl)
  }

  method ChooseVersion(segs: seq<Segment>, ecl: nat, minVersion: nat, maxVersion: nat) returns (ok: bool, version: nat)
    requires SegmentsOk(segs) && ecl < 4 && 1 <= minVersion <= maxVersion <= 40
    ensures ok ==> VersionOk(version) && version <= maxVersion && LeastFit(segs, ecl, minVersion, version)
    ensures !ok ==> forall v: nat :: minVersion <= v <= maxVersion ==> !Fits(segs, v, ecl)
  {
    hide TotalBits, NumDataCodewords, SegmentOk;
    version := minVersion;
    while true
      invariant minVersion <= version <= maxVersion
      invariant forall v: nat :: minVersion <= v < version ==> !Fits(segs, v, ecl)
      decreases maxVersion - version
    {
      var dataCapacityBits := NumDataCodewords(version, ecl) * 8;
      var dataUsedBits := GetTotalBits(segs, version);
      if dataUsedBits != LENGTH_OVERFLOW && dataUsedBits <= dataCapacityBits {
        return true, version;
      }
      if version >= maxVersion {
        return false, version;
      }
      version := version + 1;
    }
  }

  method BoostLevel(segs: seq<Segment>, version: nat, ecl: nat, boostEcl: bool) returns (level: nat)
    requires SegmentsOk(segs) && VersionOk(version) && ecl < 4 && Fits(segs, version, ecl)
    ensures level == if boostEcl then Boosted(segs, version, ecl, 4) else ecl
  {
    hide TotalBits, NumDataCodewords, SegmentOk;
    level := ecl;
    var dataUsedBits := GetTotalBits(segs, version);
    for i := 1 to 4
      invariant level == if boostEcl then Boosted(segs, version, ecl, i) else ecl
    {
      if boostEcl && dataUsedBits <= NumDataCodewords(version, i) * 8 {
        level := i;
      }
    }
  }

  // ---- Writing the bits ----

  /** qrcodegen_BUFFER_LEN_FOR_VERSION. */
  function BufferLen(version: nat): nat
    requires VersionOk(version)
  {
    (SizeOf(version) * SizeOf(version) + 7) / 8 + 1
  }

  method AppendPayload(s: Segment, buffer: array<bv8>, ghost limit: nat, start: nat, ghost bits: seq<bool>) returns (bitLen: nat)
    requires SegmentOk(s) && limit <= buffer.Length && Holds(buffer[..limit], bits)
    requires start == |bits| && start + s.bitLength <= 8 * limit
    modifies buffer
    ensures Holds(buffer[..limit], bits + Payload(s)) && bitLen == start + s.bitLength
    ensures buffer[limit..] == old(buffer[limit..])
  {
    hide Holds, ValueBits, Pow2;
    bitLen := start;
    ghost var p := Payload(s);
    assert bits + p[..0] == bits;
    for j := 0 to s.bitLength
      invariant Holds(buffer[..limit], bits + p[..j]) && bitLen == start + j
      invariant buffer[limit..] == old(buffer[limit..])
    {
      var bit := if BitOf(s.data, j) then 1 else 0;
      OneBit(bit);
      bitLen := AppendBits(bit, 1, buffer, limit, bitLen, bits + p[..j]);
      assert (bits + p[..j]) + [p[j]] == bits + p[..j + 1];
    }
    assert p[..s.bitLength] == p;
  }

  lemma OneBit(bit: nat)
    requires bit < 2
    ensures bit < Pow2(1) && ValueBits(bit, 1) == [bit == 1]
  {
    assert ValueBits(bit / 2, 0) == [];
  }

  lemma SegmentParts(s: Segment, version: nat, bits: seq<bool>)
    requires SegmentOk(s) && VersionOk(version)
    ensures ((bits + ValueBits(ModeBits(s.mode), 4)) + ValueBits(s.numChars, NumCharCountBits(s.mode, version))) + Payload(s)
         == bits + SegmentBits(s, version)
  {
    hide ValueBits, NumCharCountBits, Payload, ModeBits;
    JoinBits(bits, ValueBits(ModeBits(s.mode), 4), ValueBits(s.numChars, NumCharCountBits(s.mode, version)));
    JoinBits(bits, Header(s.mode, s.numChars, version), Payload(s));
  }

  method AppendSegment(s: Segment, version: nat, buffer: array<bv8>, ghost limit: nat, start: nat, ghost bits: seq<bool>)
    returns (bitLen: nat)
    requires SegmentOk(s) && VersionOk(version) && s.numChars < Pow2(NumCharCountBits(s.mode, version))
    requires limit <= buffer.Length && Holds(buffer[..limit], bits)
    requires start == |bits| && start + |SegmentBits(s, version)| <= 8 * limit
    modifies buffer
    ensures Holds(buffer[..limit], bits + SegmentBits(s, version)) && bitLen == start + |SegmentBits(s, version)|
    ensures buffer[limit..] == old(buffer[limit..])
  {
    Widths();
    SegmentLength(s, version);
    hide Holds, ValueBits, Pow2, NumCharCountBits, SegmentOk, Payload, SegmentBits, Header, ModeBits;
    SegmentParts(s, version, bits);
    var ccbits := NumCharCountBits(s.mode, version);
    ghost var m, n := ValueBits(ModeBits(s.mode), 4), ValueBits(s.numChars, ccbits);
    bitLen := AppendBits(ModeBits(s.mode), 4, buffer, limit, start, bits);
    bitLen := AppendBits(s.numChars, ccbits, buffer, limit, bitLen, bits + m);
    bitLen := AppendPayload(s, buffer, limit, bitLen, bits + m + n);
  }

  lemma {:induction false} ZeroValue(n: nat)
    ensures ValueBits(0, n) == Zeros(n) && 0 < Pow2(n)
  {
    if n > 0 {
      ZeroValue(n - 1);
      assert Zeros(n) == Zeros(n - 1) + [false];
    }
  }

  method AppendZeros(n: nat, buffer: array<bv8>, ghost limit: nat, start: nat, ghost bits: seq<bool>) returns (bitLen: nat)
    requires n <= 16 && limit <= buffer.Length && Holds(buffer[..limit], bits) && start == |bits| && start + n <= 8 * limit
    modifies buffer
    ensures Holds(buffer[..limit], bits + Zeros(n)) && bitLen == start + n
    ensures buffer[limit..] == old(buffer[limit..])
  {
    hide Holds, ValueBits, Pow2;
    ZeroValue(n);
    bitLen := AppendBits(0, n, buffer, limit, start, bits);
  }

  lemma NextByte(n: nat, capacity: nat)
    requires n < capacity && n % 8 == 0 && capacity % 8 == 0
    ensures n + 8 <= capacity && (n + 8) % 8 == 0
  {
    Euclid(n, 8);
    Euclid(capacity, 8);
    DivUnique(n + 8, 8, n / 8 + 1, 0);
  }

  /** Pad bytes until the capacity is reached. */
  method AppendPadding(buffer: array<bv8>, ghost limit: nat, start: nat, capacity: nat, ghost bits: seq<bool>) returns (bitLen: nat)
    requires limit <= buffer.Length && Holds(buffer[..limit], bits) && start == |bits| <= capacity <= 8 * limit
    requires start % 8 == 0 && capacity % 8 == 0
    modifies buffer
    ensures Holds(buffer[..limit], bits + PadBits(start, capacity, 0xEC)) && bitLen == capacity
    ensures buffer[limit..] == old(buffer[limit..])
  {
    Widths();
    hide Holds, ValueBits, Pow2, PadBits;
    bitLen := start;
    var padByte := 0xEC;
    ghost var all, done := bits + PadBits(start, capacity, 0xEC), bits;
    while bitLen < capacity
      invariant |done| == bitLen <= capacity && bitLen % 8 == 0 && (padByte == 0xEC || padByte == 0x11)
      invariant Holds(buffer[..limit], done) && all == done + PadBits(bitLen, capacity, padByte)
      invariant buffer[limit..] == old(buffer[limit..])
    {
      NextByte(bitLen, capacity);
      PadStep(bitLen, capacity, padByte);
      JoinBits(done, ValueBits(padByte, 8), PadBits(bitLen + 8, capacity, OtherPad(padByte)));
      bitLen := AppendBits(padByte, 8, buffer, limit, bitLen, done);
      done := done + ValueBits(padByte, 8);
      padByte := OtherPad(padByte);
    }
    PadStep(bitLen, capacity, padByte);
    assert done + [] == done;
  }

  lemma PadStep(len: nat, capacity: nat, pad: nat)
    ensures PadBits(len, capacity, pad) == if len >= capacity then [] else ValueBits(pad, 8) + PadBits(len + 8, capacity, OtherPad(pad))
  {
    hide ValueBits;
  }

  lemma TailParts(s: seq<bool>, capacity: nat)
    requires |s| <= capacity && capacity % 8 == 0
    ensures var t := TerminatorBits(|s|, capacity);
            var fill := (8 - (|s| + t) % 8) % 8;
            ((s + Zeros(t)) + Zeros(fill)) + PadBits(|s| + t + fill, capacity, 0xEC) == s + Tail(|s|, capacity)
  {
    hide PadBits, Zeros;
    var t := TerminatorBits(|s|, capacity);
    var fill := (8 - (|s| + t) % 8) % 8;
    JoinBits(s, Zeros(t), Zeros(fill));
    JoinBits(s, Zeros(t) + Zeros(fill), PadBits(|s| + t + fill, capacity, 0xEC));
  }

  /** All segments, one after the other, into a cleared buffer. */
  method WriteSegments(segs: seq<Segment>, version: nat, buffer: array<bv8>, ghost limit: nat) returns (bitLen: nat)
    requires SegmentsOk(segs) && VersionOk(version) && CountsFit(segs, version)
    requires limit <= buffer.Length && Holds(buffer[..limit], []) && |StreamBits(segs, version)| <= 8 * limit
    modifies buffer
    ensures Holds(buffer[..limit], StreamBits(segs, version)) && bitLen == |StreamBits(segs, version)|
    ensures buffer[limit..] == old(buffer[limit..])
  {
    hide Holds, StreamBits, SegmentBits, SegmentOk, Pow2, NumCharCountBits;
    bitLen := 0;
    StreamNone(segs, version);
    for i := 0 to |segs|
      invariant bitLen == |StreamBits(segs[..i], version)| && Holds(buffer[..limit], StreamBits(segs[..i], version))
      invariant buffer[limit..] == old(buffer[limit..])
    {
      StreamNext(segs, version, i);
      StreamGrows(segs, version, i + 1);
      bitLen := AppendSegment(segs[i], version, buffer, limit, bitLen, StreamBits(segs[..i], version));
    }
    assert segs[..|segs|] == segs;
  }

  /** Terminator, zeros up to a byte, and pad bytes up to the capacity. */
  method WriteTail(buffer: array<bv8>, ghost limit: nat, start: nat, capacity: nat, ghost s: seq<bool>) returns (bitLen: nat)
    requires limit <= buffer.Length && Holds(buffer[..limit], s) && start == |s| <= capacity <= 8 * limit && capacity % 8 == 0
    modifies buffer
    ensures Holds(buffer[..limit], s + Tail(|s|, capacity)) && bitLen == capacity
    ensures buffer[limit..] == old(buffer[limit..])
  {
    hide Holds, Tail, PadBits, Zeros;
    FillFits(start, capacity);
    TailParts(s, capacity);
    var terminatorBits := capacity - start;
    if terminatorBits > 4 {
      terminatorBits := 4;
    }
    bitLen := AppendZeros(terminatorBits, buffer, limit, start, s);
    ghost var s1 := s + Zeros(terminatorBits);
    var fill := (8 - bitLen % 8) % 8;
    bitLen := AppendZeros(fill, buffer, limit, bitLen, s1);
    bitLen := AppendPadding(buffer, limit, bitLen, capacity, s1 + Zeros(fill));
  }

  lemma FitsMeans(segs: seq<Segment>, version: nat, ecl: nat)
    requires SegmentsOk(segs) && VersionOk(version) && ecl < 4 && Fits(segs, version, ecl)
    ensures CountsFit(segs, version) && |StreamBits(segs, version)| <= 8 * NumDataCodewords(version, ecl)
    ensures DataBits(segs, version, ecl)
         == StreamBits(segs, version) + Tail(|StreamBits(segs, version)|, 8 * NumDataCodewords(version, ecl))
  {
    hide CountsFit, StreamBits, NumDataCodewords, Tail, SegmentOk;
  }

  /** The data codewords of the code: the buffer is cleared, then the data bits fill exactly the capacity. */
  method WriteData(segs: seq<Segment>, version: nat, ecl: nat, buffer: array<bv8>)
    requires SegmentsOk(segs) && VersionOk(version) && ecl < 4 && Fits(segs, version, ecl)
    requires buffer.Length >= BufferLen(version)
    modifies buffer
    ensures 0 <= NumDataCodewords(version, ecl) <= buffer.Length
    ensures FirstBits(buffer[..], 8 * NumDataCodewords(version, ecl)) == DataBits(segs, version, ecl)
    ensures buffer[BufferLen(version)..] == old(buffer[BufferLen(version)..])
  {
    hide *;
    CapacityFits(version, ecl);
    FitsMeans(segs, version, ecl);
    var limit := BufferLen(version);
    var capacity := NumDataCodewords(version, ecl) * 8;
    ghost var s := StreamBits(segs, version);
    TailLength(|s|, capacity);
    ClearBuffer(buffer, limit);
    ZerosHold(buffer[..limit]);
    assert buffer[limit..] == old(buffer[limit..]);
    var bitLen := WriteSegments(segs, version, buffer, limit);
    bitLen := WriteTail(buffer, limit, bitLen, capacity, s);
    HoldsFirst(buffer[..limit], s + Tail(|s|, capacity));
    PrefixBits(buffer[..], limit, capacity);
    assert buffer[..][..limit] == buffer[..limit];
  }

  lemma PrefixBits(b: seq<bv8>, limit: nat, n: nat)
    requires limit <= |b| && n <= 8 * limit
    ensures FirstBits(b[..limit], n) == FirstBits(b, n)
  {
    hide GetBit;
  }

  /** The data codewords fit the buffer of a version. */
  lemma CapacityFits(version: nat, ecl: nat)
    requires VersionOk(version) && ecl < 4
    ensures 0 <= NumDataCodewords(version, ecl) <= RawCodewords(version) < BufferLen(version)
  {
    LayoutValid(version, ecl);
    RawBelowArea(version);
  }

  lemma RawBelowArea(v: nat)
    requires VersionOk(v)
    ensures RawDataModules(v) <= SizeOf(v) * SizeOf(v)
  {
    var a := v / 7 + 2;
    assert (25 * a - 10) * a >= 55 by { assert (25 * a - 10) * a == 25 * (a * a) - 10 * a; assert a * a >= 2 * a; }
    assert SizeOf(v) * SizeOf(v) == 16 * (v * v) + 136 * v + 289;
    assert (16 * v + 128) * v == 16 * (v * v) + 128 * v;
  }
}
