/** Text to QR Code and back: qrcodegen_encodeText of qrcodegen.c. */
module EncodeText {
  import opened Arithmetic
  import opened Bits
  import opened Grid
  import opened BitBuffer
  import opened Segments
  import opened SegmentStream
  import opened Encode
  import opened StreamFormat
  import opened FunctionModules
  import opened Versions
  import opened MaskChoice
  import opened Symbol

  /** The characters of a C string: non-zero bytes. */
  predicate IsText(text: string) {
    forall i :: 0 <= i < |text| ==> 0 < text[i] as int < 256
  }

  function CharByte(c: char): (b: bv8)
    requires c as int < 256
    ensures b as int == c as int
  {
    ByteOf(c as int)
  }

  function ByteChar(b: bv8): char {
    b as int as char
  }

  lemma ByteCharByte(c: char)
    requires c as int < 256
    ensures ByteChar(CharByte(c)) == c
  {
    hide ByteOf, CharByte;
  }

  function TextBytes(text: string): (d: seq<bv8>)
    requires IsText(text)
    ensures |d| == |text|
  {
    seq(|text|, i requires 0 <= i < |text| => CharByte(text[i]))
  }

  /** The one segment of a text: the first of the three modes that can hold it. */
  function TextContent(text: string): (c: Content)
    requires IsText(text)
    ensures CountOf(c) == |text| && ModeOf(c) == TextMode(text)
  {
    if IsNumeric(text) then Digits10(Digits(text))
    else if IsAlphanumeric(text) then Chars45(CharValues(text))
    else Bytes(TextBytes(text))
  }

  function TextMode(text: string): (m: Mode)
    ensures m != Kanji && m != Eci
  {
    if IsNumeric(text) then Numeric else if IsAlphanumeric(text) then Alphanumeric else Byte
  }

  function ContentText(c: Content): string {
    match c
    case Digits10(d) => DigitText(d)
    case Chars45(d) => CharText(d)
    case Bytes(d) => seq(|d|, i requires 0 <= i < |d| => ByteChar(d[i]))
  }

  /** The text of all segments read. */
  function AllText(cs: seq<Content>): string {
    if cs == [] then "" else ContentText(cs[0]) + AllText(cs[1..])
  }

  function TextContents(text: string): seq<Content>
    requires IsText(text)
  {
    if text == "" then [] else [TextContent(text)]
  }

  /** The mode can hold the text: digits only, characters of table 5 of the standard only, or any characters. */
  predicate CanHold(mode: Mode, text: string) {
    match mode
    case Numeric => forall i :: 0 <= i < |text| ==> '0' <= text[i] <= '9'
    case Alphanumeric => forall i :: 0 <= i < |text| ==> CharValue(text[i]) >= 0
    case Byte => true
    case Kanji => false
    case Eci => false
  }

  /** Bits of a segment of n characters. */
  function SegmentSize(mode: Mode, n: nat, version: nat): nat
    requires VersionOk(version)
  {
    4 + CountWidth(mode, version) + BitCount(mode, n)
  }

  lemma HoldIs(text: string)
    ensures CanHold(Numeric, text) <==> IsNumeric(text)
    ensures CanHold(Alphanumeric, text) <==> IsAlphanumeric(text)
  {
    hide CharValue, InCharset, CharIndex;
    forall i | 0 <= i < |text| ensures InCharset(text[i]) <==> CharValue(text[i]) >= 0 { CharsetValues(text[i]); }
  }

  lemma SizesOrdered(n: nat, version: nat)
    requires VersionOk(version) && n > 0
    ensures SegmentSize(Numeric, n, version) < SegmentSize(Alphanumeric, n, version) < SegmentSize(Byte, n, version)
  {
    Euclid(n * 10 + 2, 3);
    Euclid(n * 11 + 1, 2);
  }

  /** The mode chosen for a text holds it, and any other mode that does takes more bits, in every version. */
  lemma ModeShortest(text: string, mode: Mode, version: nat)
    requires text != "" && VersionOk(version) && CanHold(mode, text)
    ensures CanHold(TextMode(text), text)
    ensures mode != TextMode(text) ==> SegmentSize(TextMode(text), |text|, version) < SegmentSize(mode, |text|, version)
  {
    HoldIs(text);
    SizesOrdered(|text|, version);
    hide CanHold, SegmentSize, IsNumeric, IsAlphanumeric;
    assert mode.Numeric? || mode.Alphanumeric? || mode.Byte? by { OnlyThree(mode, text); }
    if !IsNumeric(text) && !IsAlphanumeric(text) { AnyBytes(text); }
  }

  lemma OnlyThree(mode: Mode, text: string)
    requires CanHold(mode, text)
    ensures mode.Numeric? || mode.Alphanumeric? || mode.Byte?
  {
  }

  lemma AnyBytes(text: string)
    ensures CanHold(Byte, text)
  {
  }

  lemma TextBack(text: string)
    requires IsText(text)
    ensures AllText(TextContents(text)) == text
  {
    hide CharIndex, CharOf, InCharset, CharByte, ByteChar;
    if text != "" {
      if IsNumeric(text) {
        DigitTextDigits(text);
      } else if IsAlphanumeric(text) {
        CharTextValues(text);
      } else {
        forall i | 0 <= i < |text| ensures ByteChar(TextBytes(text)[i]) == text[i] { ByteCharByte(text[i]); }
        assert ContentText(Bytes(TextBytes(text))) == text;
      }
      assert ContentText(TextContent(text)) == text;
      assert [TextContent(text)][1..] == [];
      assert text + "" == text;
    }
  }

  /** The text fits a version and level: its length fits the count field, and header and payload fit the capacity. */
  predicate TextFits(text: string, v: nat, e: nat)
    requires VersionOk(v) && e < 4
  {
    text == ""
    || (|text| < Pow2(NumCharCountBits(TextMode(text), v))
        && 4 + NumCharCountBits(TextMode(text), v) + BitCount(TextMode(text), |text|) <= 8 * NumDataCodewords(v, e))
  }

  lemma Capacity(v: nat, e: nat)
    requires VersionOk(v) && e < 4
    ensures 72 <= 8 * NumDataCodewords(v, e) <= 23648
  {
    LayoutValid(v, e);
    hide EccPerBlock, NumBlocks, RawCodewords;
  }

  lemma NothingFits(v: nat, e: nat)
    requires VersionOk(v) && e < 4
    ensures Fits([], v, e)
  {
    Capacity(v, e);
    hide NumDataCodewords;
  }

  lemma OneFits(s: Segment, text: string, v: nat, e: nat)
    requires IsText(text) && text != "" && MadeFrom(s, TextContent(text)) && VersionOk(v) && e < 4
    ensures Fits([s], v, e) <==> TextFits(text, v, e)
  {
    var c := TextContent(text);
    Capacity(v, e);
    BitsOfLength(c);
    SegmentLength(s, v);
    OneStream(s, v);
    hide NumDataCodewords, NumCharCountBits, Pow2, BitCount, BitsOf, SegmentBits, StreamBits, TextContent, TextMode, FirstBits;
    assert s.bitLength == |Payload(s)|;
  }

  lemma OneStream(s: Segment, v: nat)
    requires SegmentOk(s) && VersionOk(v)
    ensures StreamBits([s], v) == SegmentBits(s, v)
  {
    hide SegmentBits;
    StreamNext([s], v, 0);
    StreamNone([s], v);
    assert [s][..1] == [s];
  }

  /** A payload that overflows, or does not fit the buffer of the largest version, fits no version. */
  lemma TooLong(text: string, maxVersion: nat, v: nat, e: nat)
    requires text != "" && VersionOk(v) && v <= maxVersion <= 40 && e < 4
    requires var n := CalcSegmentBitLength(TextMode(text), |text|); n == LENGTH_OVERFLOW || n > 8 * BufferLen(maxVersion)
    ensures !TextFits(text, v, e)
  {
    Capacity(v, e);
    CapacityFits(v, e);
    BufferGrows(v, maxVersion);
    hide NumDataCodewords, BufferLen, RawCodewords, NumCharCountBits, Pow2;
  }

  /** The segment of a text, with its bits in the buffer, if they fit it. */
  method MakeText(text: string, buf: array<bv8>, bufLen: nat) returns (ok: bool, seg: Segment)
    requires IsText(text) && bufLen <= buf.Length
    modifies buf
    ensures ok ==> MadeFrom(seg, TextContent(text))
    ensures var bits := CalcSegmentBitLength(TextMode(text), |text|); !ok ==> (bits == LENGTH_OVERFLOW || bits > 8 * bufLen)
  {
    hide MadeFrom, InCharset, CharIndex;
    seg := Segment(Byte, 0, [], 0);
    var numeric, alphanumeric := IsNumeric(text), IsAlphanumeric(text);
    if numeric {
      ok := BufferHolds(Numeric, |text|, bufLen);
      if ok {
        seg := MakeNumeric(text, buf);
      }
    } else if alphanumeric {
      ok := BufferHolds(Alphanumeric, |text|, bufLen);
      if ok {
        seg := MakeAlphanumeric(text, buf);
      }
    } else {
      ok := |text| <= bufLen;
      if ok {
        ok, seg := MakeTextBytes(text, buf);
      }
    }
  }

  /** qrcodegen_calcSegmentBufferSize, compared with a buffer length; an overflow is larger than any buffer. */
  method BufferHolds(mode: Mode, n: nat, bufLen: nat) returns (ok: bool)
    ensures var bits := CalcSegmentBitLength(mode, n);
            ok <==> bits != LENGTH_OVERFLOW && (bits + 7) / 8 <= bufLen
    ensures var bits := CalcSegmentBitLength(mode, n); !ok ==> (bits == LENGTH_OVERFLOW || bits > 8 * bufLen)
  {
    var temp := CalcSegmentBitLength(mode, n);
    ok := temp != LENGTH_OVERFLOW && (temp + 7) / 8 <= bufLen;
  }

  /** The byte branch: the copy comes before the length check. */
  method MakeTextBytes(text: string, buf: array<bv8>) returns (ok: bool, seg: Segment)
    requires IsText(text) && |text| <= buf.Length
    modifies buf
    ensures ok <==> CalcSegmentBitLength(Byte, |text|) != LENGTH_OVERFLOW
    ensures ok ==> MadeFrom(seg, Bytes(TextBytes(text)))
  {
    hide CharByte;
    for i := 0 to |text|
      invariant buf[..i] == TextBytes(text)[..i]
    {
      buf[i] := CharByte(text[i]);
    }
    var bitLength := CalcSegmentBitLength(Byte, |text|);
    ok := bitLength != LENGTH_OVERFLOW;
    seg := Segment(Byte, |text|, buf[..|text|], if ok then bitLength else 0);
  }

  /** The symbol in q holds the text: a reader given the modules and nothing else finds every character. */
  ghost predicate HoldsText(text: string, q: seq<bv8>) {
    IsGrid(q) && AllText(ReadSymbol(Size(q), Modules(q))) == text
  }

  /** Version, level and mask as a reader finds them in q. */
  ghost predicate HasParameters(q: seq<bv8>, v: nat, e: nat, m: nat) {
    IsGrid(q) && ReadVersion(Size(q)) == v && ReadLevel(Size(q), Modules(q)) == e && ReadMask(Size(q), Modules(q)) == m
  }

  /** The mask of the symbol in q was requested, or it is the first with the least penalty for the codewords in q. */
  ghost predicate MaskChosen(requested: int, q: seq<bv8>, v: nat, e: nat, m: nat)
    requires HasParameters(q, v, e, m)
  {
    MaskOk(requested, v, e, Codewords(v, Modules(q), m), m)
  }

  lemma SymbolHolds(text: string, segs: seq<Segment>, q: seq<bv8>, v: nat, e: nat, m: nat)
    requires IsText(text) && IsSymbol(segs, q, v, e, m) && AllMadeFrom(segs, TextContents(text))
    ensures HoldsText(text, q) && HasParameters(q, v, e, m)
    ensures forall r :: MaskOk(r, v, e, SymbolCodewords(segs, v, e), m) ==> MaskChosen(r, q, v, e, m)
  {
    ReadParameters(segs, q, v, e, m);
    CodewordsRead(segs, q, v, e, m);
    EncodedTheorem(segs, TextContents(text), q, v, e, m);
    TextBack(text);
    hide IsGrid, Modules, ReadSymbol, ReadVersion, ReadLevel, ReadMask, AllText, TextContents, Fits, AllMadeFrom, SymbolCodewords, Finished,
         SegmentsOk, Codewords, MaskOk;
  }

  lemma SegmentsFit(text: string, segs: seq<Segment>, v: nat, e: nat)
    requires IsText(text) && SegmentsOk(segs) && AllMadeFrom(segs, TextContents(text)) && VersionOk(v) && e < 4
    ensures Fits(segs, v, e) <==> TextFits(text, v, e)
  {
    hide Fits, NumCharCountBits, NumDataCodewords, Pow2, TextMode, TextContent, BitCount, MadeFrom;
    if text == "" {
      NothingFits(v, e);
      assert segs == [];
    } else {
      assert segs == [segs[0]];
      OneFits(segs[0], text, v, e);
    }
  }

  /** No level above e fits the text. */
  predicate HighestFit(text: string, v: nat, e: nat)
    requires VersionOk(v)
  {
    forall i: nat :: e < i < 4 ==> !TextFits(text, v, i)
  }

  lemma LevelHighest(text: string, segs: seq<Segment>, v: nat, ecl: nat, boostEcl: bool)
    requires IsText(text) && SegmentsOk(segs) && AllMadeFrom(segs, TextContents(text)) && VersionOk(v) && ecl < 4
    requires Fits(segs, v, ecl)
    ensures ecl <= LevelFor(segs, v, ecl, boostEcl)
    ensures if boostEcl then HighestFit(text, v, LevelFor(segs, v, ecl, boostEcl)) else LevelFor(segs, v, ecl, boostEcl) == ecl
  {
    hide Fits, TextFits, Boosted, SegmentsOk, AllMadeFrom, TextContents, IsText;
    BoostedFits(segs, v, ecl, 4);
    forall i: nat | i < 4 ensures Fits(segs, v, i) <==> TextFits(text, v, i) { SegmentsFit(text, segs, v, i); }
  }

  /** qrcodegen_encodeText: succeeds exactly when some version in the range fits, takes the least, and loses nothing. */
  method EncodeText(text: string, tempBuffer: array<bv8>, qrcode: array<bv8>, ecl: nat, minVersion: nat, maxVersion: nat,
                    mask: int, boostEcl: bool)
    returns (ok: bool, ghost version: nat, ghost level: nat, ghost chosen: nat)
    requires IsText(text) && ecl < 4 && 1 <= minVersion <= maxVersion <= 40 && -1 <= mask < 8
    requires tempBuffer != qrcode && BufferLen(maxVersion) <= tempBuffer.Length && BufferLen(maxVersion) <= qrcode.Length
    modifies tempBuffer, qrcode
    ensures !ok ==> qrcode[0] == 0 && forall v: nat :: minVersion <= v <= maxVersion ==> !TextFits(text, v, ecl)
    ensures ok ==> minVersion <= version <= maxVersion && HoldsText(text, qrcode[..])
    ensures ok ==> HasParameters(qrcode[..], version, level, chosen) && MaskChosen(mask, qrcode[..], version, level, chosen)
    ensures ok ==> TextFits(text, version, level) && TextFits(text, version, ecl)
    ensures ok ==> forall v: nat :: minVersion <= v < version ==> !TextFits(text, v, ecl)
    ensures ok ==> ecl <= level < 4 && if boostEcl then HighestFit(text, version, level) else level == ecl
  {
    hide IsText, TextFits, HighestFit, HoldsText, HasParameters, MaskChosen, IsSymbol, SegmentsOk, Fits, AllMadeFrom, TextContents,
         LevelFor, MaskOk, SymbolCodewords, MadeFrom, TextContent, CalcSegmentBitLength, TextMode;
    version, level, chosen := 0, 0, 0;
    var segs: seq<Segment> := [];
    if |text| > 0 {
      var seg: Segment;
      ok, seg := MakeText(text, tempBuffer, BufferLen(maxVersion));
      if !ok {
        qrcode[0] := 0;
        forall v: nat | minVersion <= v <= maxVersion ensures !TextFits(text, v, ecl) { TooLong(text, maxVersion, v, ecl); }
        return;
      }
      segs := [seg];
    }
    MadeSegments(text, segs);
    ok, version, level, chosen := EncodeSegmentsAdvanced(segs, ecl, minVersion, maxVersion, mask, boostEcl, tempBuffer, qrcode);
    forall v: nat | minVersion <= v <= maxVersion ensures Fits(segs, v, ecl) <==> TextFits(text, v, ecl) {
      SegmentsFit(text, segs, v, ecl);
    }
    if ok {
      SymbolHolds(text, segs, qrcode[..], version, level, chosen);
      SymbolFits(segs, qrcode[..], version, level, chosen);
      SegmentsFit(text, segs, version, level);
      LevelHighest(text, segs, version, ecl, boostEcl);
    }
  }

  lemma SymbolFits(segs: seq<Segment>, q: seq<bv8>, v: nat, e: nat, m: nat)
    requires IsSymbol(segs, q, v, e, m)
    ensures SegmentsOk(segs) && VersionOk(v) && e < 4 && Fits(segs, v, e)
  {
  }

  lemma MadeSegments(text: string, segs: seq<Segment>)
    requires IsText(text) && if text == "" then segs == [] else |segs| == 1 && MadeFrom(segs[0], TextContent(text))
    ensures SegmentsOk(segs) && AllMadeFrom(segs, TextContents(text))
  {
    hide TextContent;
  }
}
