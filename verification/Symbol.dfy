/** A whole QR Code: qrcodegen_encodeSegmentsAdvanced from segments to modules, and reading the segments back. */
module Symbol {
  import opened Arithmetic
  import opened Grid
  import opened BitBuffer
  import opened Segments
  import opened SegmentStream
  import opened Encode
  import opened FunctionModules
  import opened Versions
  import opened Interleave
  import opened Zigzag
  import opened RoomCount
  import opened LightModules
  import opened Masking
  import opened MaskChoice

  // ---- Bits and bytes ----

  lemma ByteFromGets(b: seq<bool>, i: nat)
    requires |b| == 8 && i < 8
    ensures GetBit(ByteFrom(b), 7 - i) == b[i]
  {
    hide OrBit, GetBit;
    var x1 := OrBit(0, 7, b[0]);
    var x2 := OrBit(x1, 6, b[1]);
    var x3 := OrBit(x2, 5, b[2]);
    var x4 := OrBit(x3, 4, b[3]);
    var x5 := OrBit(x4, 3, b[4]);
    var x6 := OrBit(x5, 2, b[5]);
    var x7 := OrBit(x6, 1, b[6]);
    ZeroBit(7 - i);
    OrBitGet(0, 7, b[0], 7 - i);
    OrBitGet(x1, 6, b[1], 7 - i);
    OrBitGet(x2, 5, b[2], 7 - i);
    OrBitGet(x3, 4, b[3], 7 - i);
    OrBitGet(x4, 3, b[4], 7 - i);
    OrBitGet(x5, 2, b[5], 7 - i);
    OrBitGet(x6, 1, b[6], 7 - i);
    OrBitGet(x7, 0, b[7], 7 - i);
  }

  /** Packing bits into bytes and taking the bits of the bytes gives the bits. */
  lemma ByteBitsParse(b: seq<bool>, n: nat)
    requires |b| == 8 * n
    ensures |ParseBytes(b, n)| == n && ByteBits(ParseBytes(b, n)) == b
  {
    hide ByteFrom, GetBit;
    var data := ParseBytes(b, n);
    forall i | 0 <= i < 8 * n ensures ByteBits(data)[i] == b[i] {
      var k := i / 8;
      ByteFromGets(b[8 * k..8 * k + 8], i % 8);
    }
  }

  /** The first bits determine the first bytes. */
  lemma FirstBytes(buffer: seq<bv8>, b: seq<bool>, n: nat)
    requires n <= |buffer| && FirstBits(buffer, 8 * n) == b
    ensures buffer[..n] == ParseBytes(b, n)
  {
    hide GetBit, ByteFrom, ParseBytes;
    ParseByteBits(buffer[..n]);
    assert ByteBits(buffer[..n]) == b;
  }

  /** Bits packed into whole bytes; up to seven at the end are left over. */
  function Packed(b: seq<bool>): (data: seq<bv8>)
    ensures |data| == |b| / 8
  {
    ParseBytes(b, |b| / 8)
  }

  // ---- The symbol ----

  lemma SizesOk(v: nat)
    requires VersionOk(v)
    ensures SizeOk(SizeOf(v))
  {
  }

  /** Function modules and codewords, not masked yet. */
  ghost function Drawing(v: nat, codewords: seq<bv8>): (g: seq<bool>)
    requires VersionOk(v)
    ensures |g| == SizeOf(v) * SizeOf(v)
  {
    SizesOk(v);
    var f := FunctionMask(v);
    LitGrid(v, Drawn(SizeOf(v), f, f, codewords, Steps(SizeOf(v))))
  }

  /** The finished symbol with mask m. */
  ghost function Finished(v: nat, e: nat, codewords: seq<bv8>, m: nat): (g: seq<bool>)
    requires VersionOk(v) && e < 4 && m < 8
    ensures |g| == SizeOf(v) * SizeOf(v)
  {
    SizesOk(v);
    Candidate(SizeOf(v), FunctionMask(v), Drawing(v, codewords), e, m)
  }

  // ---- Reading a symbol ----

  /** The codewords of a grid: undo the mask, scan the modules that are not function modules, pack the bits. */
  ghost function Codewords(v: nat, g: seq<bool>, m: nat): (c: seq<bv8>)
    requires VersionOk(v) && m < 8 && |g| == SizeOf(v) * SizeOf(v)
  {
    SizesOk(v);
    var n, f := SizeOf(v), FunctionMask(v);
    Packed(Read(n, f, Masked(n, f, g, m), Steps(n)))
  }

  /** The data of the blocks below i, taken out of the codewords. */
  ghost function Gathered(l: Layout, codewords: seq<bv8>, i: nat): seq<bv8>
    requires Valid(l) && |codewords| == l.rawCodewords && i <= l.numBlocks
  {
    if i == 0 then []
    else Gathered(l, codewords, i - 1) + Deinterleaved(l, codewords, i - 1)[..BlockLen(l, i - 1)]
  }

  lemma {:induction false} GatheredJoined(l: Layout, data: seq<bv8>, i: nat)
    requires Valid(l) && |data| == DataLen(l) && i <= l.numBlocks
    ensures Gathered(l, Interleaved(l, data), i) == Joined(l, data, i)
  {
    hide DataLen, Interleaved, Deinterleaved, BlockLen, Block, BlockEcc;
    if i > 0 {
      GatheredJoined(l, data, i - 1);
      DeinterleaveInterleave(l, data, i - 1);
      var block, ecc := Block(l, data, i - 1), BlockEcc(l, data, i - 1);
      assert (block + ecc)[..|block|] == block;
    }
  }

  /** What a reader finds in a grid of version v with block layout l and mask m. */
  ghost function Decoded(v: nat, l: Layout, g: seq<bool>, m: nat): seq<Content>
    requires VersionOk(v) && Valid(l) && m < 8 && |g| == SizeOf(v) * SizeOf(v)
  {
    var c := Codewords(v, g, m);
    if |c| != l.rawCodewords then [] else Parse(ByteBits(Gathered(l, c, l.numBlocks)), v)
  }

  /** Grids that agree wherever the mask f has no mark. */
  ghost predicate SameData(f: seq<bool>, g: seq<bool>, h: seq<bool>) {
    |f| == |g| == |h| && forall c :: 0 <= c < |f| && !f[c] ==> g[c] == h[c]
  }

  lemma {:induction false} ReadSame(n: nat, f: seq<bool>, g: seq<bool>, h: seq<bool>, t: nat)
    requires SizeOk(n) && |f| == n * n && SameData(f, g, h) && t <= Steps(n)
    ensures Read(n, f, g, t) == Read(n, f, h, t)
  {
    hide Visited, Steps, Filled;
    if t > 0 { ReadSame(n, f, g, h, t - 1); }
  }

  lemma LitSame(v: nat, g: seq<bool>)
    requires VersionOk(v) && |g| == SizeOf(v) * SizeOf(v)
    ensures SameData(FunctionMask(v), LitGrid(v, g), g)
  {
    hide Lit, IsFunction;
    var n, f := SizeOf(v), FunctionMask(v);
    forall c | 0 <= c < n * n && !f[c] ensures LitGrid(v, g)[c] == g[c] {
      RowOfCell(c, n);
      LitUnmarked(v, g[c], c % n, c / n);
    }
  }

  /** Taking the mask off a finished symbol gives back every codeword module. */
  lemma UnmaskedSame(v: nat, g: seq<bool>, e: nat, m: nat)
    requires VersionOk(v) && e < 4 && m < 8 && |g| == SizeOf(v) * SizeOf(v) && SizeOk(SizeOf(v))
    ensures var n, f := SizeOf(v), FunctionMask(v); SameData(f, Masked(n, f, Candidate(n, f, g, e, m), m), g)
  {
    hide Masked, Candidate, FunctionMask, FormatIndex;
    var n, f := SizeOf(v), FunctionMask(v);
    SameGrid(n, g);
    RoundRestores(n, f, g, g, e, m);
    FunctionMaskFormat(v);
  }

  /** Scanned bits pack into the bytes they came from, if fewer than eight are left over. */
  lemma PackedBits(bits: seq<bool>, data: seq<bv8>)
    requires |bits| / 8 == |data| && forall k :: 0 <= k < 8 * |data| ==> bits[k] == BitOf(data, k)
    ensures Packed(bits) == data
  {
    ParseByteBits(data);
    hide GetBit, ByteFrom;
    var whole := ByteBits(data);
    forall i | 0 <= i < |data| ensures ParseBytes(bits, |data|)[i] == ParseBytes(whole, |data|)[i] {
      assert bits[8 * i..8 * i + 8] == whole[8 * i..8 * i + 8];
    }
  }

  lemma ScanPacked(v: nat, codewords: seq<bv8>)
    requires VersionOk(v) && |codewords| == RawCodewords(v)
    ensures SizeOk(SizeOf(v))
    ensures var n, f := SizeOf(v), FunctionMask(v);
            Packed(Read(n, f, Drawn(n, f, f, codewords, Steps(n)), Steps(n))) == codewords
  {
    hide Read, Drawn, Steps, FunctionMask, RawDataModules, Packed, BitOf;
    SizesOk(v);
    RoomTheorem(v);
    var n, f := SizeOf(v), FunctionMask(v);
    forall k | 0 <= k < 8 * |codewords|
      ensures Read(n, f, Drawn(n, f, f, codewords, Steps(n)), Steps(n))[k] == BitOf(codewords, k)
    {
      ReadDrawn(n, f, f, codewords, k);
    }
    PackedBits(Read(n, f, Drawn(n, f, f, codewords, Steps(n)), Steps(n)), codewords);
  }

  /** The codewords read from a finished symbol are the ones that were drawn. */
  lemma CodewordsOfFinished(v: nat, e: nat, codewords: seq<bv8>, m: nat)
    requires VersionOk(v) && e < 4 && m < 8 && |codewords| == RawCodewords(v)
    ensures Codewords(v, Finished(v, e, codewords, m), m) == codewords
  {
    SizesOk(v);
    var n, f := SizeOf(v), FunctionMask(v);
    var drawn := Drawn(n, f, f, codewords, Steps(n));
    var lit := LitGrid(v, drawn);
    hide Read, Drawn, Steps, FunctionMask, RawCodewords, Packed, Masked, Candidate, LitGrid, SameData;
    LitSame(v, drawn);
    UnmaskedSame(v, lit, e, m);
    ReadSame(n, f, lit, drawn, Steps(n));
    ReadSame(n, f, Masked(n, f, Candidate(n, f, lit, e, m), m), lit, Steps(n));
    ScanPacked(v, codewords);
  }

  lemma DecodedData(v: nat, e: nat, l: Layout, data: seq<bv8>, m: nat)
    requires VersionOk(v) && e < 4 && m < 8 && Valid(l) && l.rawCodewords == RawCodewords(v) && |data| == DataLen(l)
    ensures Decoded(v, l, Finished(v, e, Interleaved(l, data), m), m) == Parse(ByteBits(data), v)
  {
    hide Finished, Codewords, Gathered, Parse, Interleaved, DataLen, RawCodewords, ByteBits, Joined;
    CodewordsOfFinished(v, e, Interleaved(l, data), m);
    GatheredJoined(l, data, l.numBlocks);
    BlocksJoin(l, data, l.numBlocks);
  }

  /** The data codewords. */
  function DataBytes(segs: seq<Segment>, v: nat, e: nat): (d: seq<bv8>)
    requires SegmentsOk(segs) && VersionOk(v) && e < 4 && Fits(segs, v, e)
  {
    Packed(DataBits(segs, v, e))
  }

  lemma DataBytesAre(segs: seq<Segment>, v: nat, e: nat)
    requires SegmentsOk(segs) && VersionOk(v) && e < 4 && Fits(segs, v, e)
    ensures |DataBytes(segs, v, e)| == NumDataCodewords(v, e) && ByteBits(DataBytes(segs, v, e)) == DataBits(segs, v, e)
  {
    hide StreamBits, Tail, NumDataCodewords, ByteBits, ParseBytes, SegmentOk;
    FitsMeans(segs, v, e);
    TailLength(|StreamBits(segs, v)|, 8 * NumDataCodewords(v, e));
    ByteBitsParse(DataBits(segs, v, e), NumDataCodewords(v, e));
  }

  /** Reading the finished symbol gives back the contents of all segments, in order and character by character. */
  lemma SymbolTheorem(segs: seq<Segment>, cs: seq<Content>, v: nat, e: nat, m: nat)
    requires SegmentsOk(segs) && VersionOk(v) && e < 4 && m < 8 && Fits(segs, v, e) && AllMadeFrom(segs, cs)
    ensures |DataBytes(segs, v, e)| == DataLen(LayoutOf(v, e))
    ensures var l := LayoutOf(v, e); Decoded(v, l, Finished(v, e, Interleaved(l, DataBytes(segs, v, e)), m), m) == cs
  {
    hide *;
    DataBytesAre(segs, v, e);
    DecodedData(v, e, LayoutOf(v, e), DataBytes(segs, v, e), m);
    FitsMeans(segs, v, e);
    DataRoundTrip(segs, cs, v, 8 * NumDataCodewords(v, e));
  }

  // ---- The encoder ----

  lemma BufferGrows(v: nat, w: nat)
    requires VersionOk(v) && VersionOk(w) && v <= w
    ensures BufferLen(v) <= BufferLen(w)
  {
    MulMonotone(SizeOf(v), SizeOf(w), SizeOf(v));
    MulMonotone(SizeOf(v), SizeOf(w), SizeOf(w));
  }

  /** The data codewords become the interleaved codewords, drawn with the function modules. */
  method DrawSymbol(v: nat, l: Layout, tempBuffer: array<bv8>, qrcode: array<bv8>, ghost data: seq<bv8>)
    requires VersionOk(v) && Valid(l) && l.rawCodewords == RawCodewords(v) && |data| == DataLen(l)
    requires tempBuffer != qrcode && BufferLen(v) <= tempBuffer.Length && BufferLen(v) <= qrcode.Length
    requires l.rawCodewords <= tempBuffer.Length && l.rawCodewords <= qrcode.Length
    requires qrcode[..DataLen(l)] == data
    modifies tempBuffer, qrcode
    ensures IsGrid(qrcode[..]) && Size(qrcode[..]) == SizeOf(v) && Modules(qrcode[..]) == Drawing(v, Interleaved(l, data))
    ensures IsGrid(tempBuffer[..]) && Size(tempBuffer[..]) == SizeOf(v) && Modules(tempBuffer[..]) == FunctionMask(v)
  {
    SizesOk(v);
    RoomTheorem(v);
    hide FunctionMask, LitGrid, Drawn, Interleaved, DataLen, Valid, Modules, Room, IsGrid;
    AddEccAndInterleave(qrcode, l, tempBuffer);
    InitializeFunctionModules(v, qrcode);
    DrawCodewords(tempBuffer[..l.rawCodewords], qrcode);
    DrawLightFunctionModules(qrcode, v);
    InitializeFunctionModules(v, tempBuffer);
  }

  /** The codewords of a symbol. */
  function SymbolCodewords(segs: seq<Segment>, v: nat, e: nat): (c: seq<bv8>)
    requires SegmentsOk(segs) && VersionOk(v) && e < 4 && Fits(segs, v, e)
    ensures |c| == RawCodewords(v)
  {
    DataBytesAre(segs, v, e);
    Interleaved(LayoutOf(v, e), DataBytes(segs, v, e))
  }

  /** The level after boosting, if that was asked for. */
  function LevelFor(segs: seq<Segment>, v: nat, ecl: nat, boostEcl: bool): (e: nat)
    requires SegmentsOk(segs) && VersionOk(v) && ecl < 4
    ensures e < 4
  {
    if boostEcl then Boosted(segs, v, ecl, 4) else ecl
  }

  /** q is the symbol of the segments in version v at level e with mask m. */
  ghost predicate IsSymbol(segs: seq<Segment>, q: seq<bv8>, v: nat, e: nat, m: nat) {
    SegmentsOk(segs) && VersionOk(v) && e < 4 && m < 8 && Fits(segs, v, e)
    && IsGrid(q) && Size(q) == SizeOf(v) && Modules(q) == Finished(v, e, SymbolCodewords(segs, v, e), m)
  }

  /** The mask was requested, or it is the first with the least penalty score. */
  ghost predicate MaskOk(requested: int, v: nat, e: nat, codewords: seq<bv8>, m: nat)
    requires VersionOk(v) && e < 4
  {
    SizesOk(v);
    if requested == MASK_AUTO then FirstBest(SizeOf(v), FunctionMask(v), Drawing(v, codewords), e, m, 8) else m == requested
  }

  /** Version, level and mask chosen; tempBuffer and qrcode as they are before masking. */
  method DrawData(segs: seq<Segment>, v: nat, e: nat, tempBuffer: array<bv8>, qrcode: array<bv8>)
    requires SegmentsOk(segs) && VersionOk(v) && e < 4 && Fits(segs, v, e)
    requires tempBuffer != qrcode && BufferLen(v) <= tempBuffer.Length && BufferLen(v) <= qrcode.Length
    modifies tempBuffer, qrcode
    ensures IsGrid(qrcode[..]) && Size(qrcode[..]) == SizeOf(v) && Modules(qrcode[..]) == Drawing(v, SymbolCodewords(segs, v, e))
    ensures IsGrid(tempBuffer[..]) && Size(tempBuffer[..]) == SizeOf(v) && Modules(tempBuffer[..]) == FunctionMask(v)
  {
    hide *;
    ghost var data := DataBytes(segs, v, e);
    CapacityFits(v, e);
    DataBytesAre(segs, v, e);
    SymbolCodewordsAre(segs, v, e);
    WriteData(segs, v, e, qrcode);
    WrittenBytes(segs, v, e, qrcode[..]);
    DrawSymbol(v, LayoutOf(v, e), tempBuffer, qrcode, data);
  }

  lemma SymbolCodewordsAre(segs: seq<Segment>, v: nat, e: nat)
    requires SegmentsOk(segs) && VersionOk(v) && e < 4 && Fits(segs, v, e)
    ensures |DataBytes(segs, v, e)| == DataLen(LayoutOf(v, e))
    ensures SymbolCodewords(segs, v, e) == Interleaved(LayoutOf(v, e), DataBytes(segs, v, e))
  {
    DataBytesAre(segs, v, e);
    hide DataBytes, LayoutOf, Interleaved, RawCodewords, NumDataCodewords;
  }

  lemma WrittenBytes(segs: seq<Segment>, v: nat, e: nat, buffer: seq<bv8>)
    requires SegmentsOk(segs) && VersionOk(v) && e < 4 && Fits(segs, v, e) && 0 <= NumDataCodewords(v, e) <= |buffer|
    requires FirstBits(buffer, 8 * NumDataCodewords(v, e)) == DataBits(segs, v, e)
    ensures buffer[..NumDataCodewords(v, e)] == DataBytes(segs, v, e)
  {
    hide DataBits, NumDataCodewords, ParseBytes, FirstBits;
    FirstBytes(buffer, DataBits(segs, v, e), NumDataCodewords(v, e));
  }

  /** qrcodegen_encodeSegmentsAdvanced. */
  method EncodeSegmentsAdvanced(segs: seq<Segment>, ecl: nat, minVersion: nat, maxVersion: nat, mask: int, boostEcl: bool,
                                tempBuffer: array<bv8>, qrcode: array<bv8>)
    returns (ok: bool, ghost version: nat, ghost level: nat, ghost chosen: nat)
    requires SegmentsOk(segs) && ecl < 4 && 1 <= minVersion <= maxVersion <= 40 && -1 <= mask < 8
    requires tempBuffer != qrcode && BufferLen(maxVersion) <= tempBuffer.Length && BufferLen(maxVersion) <= qrcode.Length
    modifies tempBuffer, qrcode
    ensures !ok ==> qrcode[0] == 0 && forall v: nat :: minVersion <= v <= maxVersion ==> !Fits(segs, v, ecl)
    ensures ok ==> version <= maxVersion && IsSymbol(segs, qrcode[..], version, level, chosen)
    ensures ok ==> LeastFit(segs, ecl, minVersion, version) && level == LevelFor(segs, version, ecl, boostEcl)
    ensures ok ==> MaskOk(mask, version, level, SymbolCodewords(segs, version, level), chosen)
  {
    hide SegmentsOk, Fits, DataBits, SymbolCodewords, IsGrid, Modules, FunctionMask, Drawing, Candidate, FirstBest, Boosted, CandidateScore;
    version, level, chosen := 0, 0, 0;
    var v: nat, e: nat, m: int;
    ok, v := ChooseVersion(segs, ecl, minVersion, maxVersion);
    if !ok {
      qrcode[0] := 0;
      return;
    }
    e := BoostLevel(segs, v, ecl, boostEcl);
    BoostedFits(segs, v, ecl, 4);
    BufferGrows(v, maxVersion);
    DrawData(segs, v, e, tempBuffer, qrcode);
    m := MaskAndFormat(tempBuffer, qrcode, e, mask);
    version, level, chosen := v, e, m;
  }

  /** The version of a grid, from its size. */
  function ReadVersion(n: nat): (v: nat)
    requires SizeOk(n)
    ensures VersionOk(v) && SizeOf(v) == n
  {
    (n - 17) / 4
  }

  /** What a reader finds in a grid: version, level and mask are taken from the size and from the format modules. */
  ghost function ReadSymbol(n: nat, g: seq<bool>): seq<Content>
    requires SizeOk(n) && |g| == n * n
  {
    var v := ReadVersion(n);
    Decoded(v, LayoutOf(v, ReadLevel(n, g)), g, ReadMask(n, g))
  }

  lemma ReadParameters(segs: seq<Segment>, q: seq<bv8>, v: nat, e: nat, m: nat)
    requires IsSymbol(segs, q, v, e, m)
    ensures SizeOk(Size(q)) && |Modules(q)| == Size(q) * Size(q)
    ensures ReadVersion(Size(q)) == v && ReadLevel(Size(q), Modules(q)) == e && ReadMask(Size(q), Modules(q)) == m
  {
    hide Drawing, FormatBits, Formatted, FunctionMask, Masked, ReadLevel, ReadMask, Modules, SymbolCodewords, SegmentsOk, Fits;
    SizesOk(v);
    FormatRead(SizeOf(v), Masked(SizeOf(v), FunctionMask(v), Drawing(v, SymbolCodewords(segs, v, e)), m), e, m);
  }

  /** Reading what the encoder produced gives back every character of every segment. */
  lemma EncodedTheorem(segs: seq<Segment>, cs: seq<Content>, q: seq<bv8>, v: nat, e: nat, m: nat)
    requires IsSymbol(segs, q, v, e, m) && AllMadeFrom(segs, cs)
    ensures SizeOk(Size(q)) && |Modules(q)| == Size(q) * Size(q)
    ensures ReadSymbol(Size(q), Modules(q)) == cs
  {
    hide Decoded, Finished, AllMadeFrom, Fits, DataBytes, SymbolCodewords, LayoutOf, SegmentsOk, IsGrid, Modules, ReadVersion, ReadLevel, ReadMask;
    ReadParameters(segs, q, v, e, m);
    SymbolTheorem(segs, cs, v, e, m);
    SymbolCodewordsAre(segs, v, e);
  }

  /** The codewords can be read off the symbol as well. */
  lemma CodewordsRead(segs: seq<Segment>, q: seq<bv8>, v: nat, e: nat, m: nat)
    requires IsSymbol(segs, q, v, e, m)
    ensures |Modules(q)| == SizeOf(v) * SizeOf(v) && Codewords(v, Modules(q), m) == SymbolCodewords(segs, v, e)
  {
    hide Codewords, Finished, SymbolCodewords, Modules, SegmentsOk, Fits;
    CodewordsOfFinished(v, e, SymbolCodewords(segs, v, e), m);
  }
}
