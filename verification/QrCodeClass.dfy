/** The C++ version, qrcodegen.cpp: a growing bit buffer, and modules kept apart from the marks of the function modules. */
module QrCodeClass {
  import opened Arithmetic
  import opened Bits
  import opened Grid
  import opened BitBuffer
  import opened Segments
  import opened Encode
  import opened FunctionModules
  import opened Versions
  import opened Zigzag
  import opened Masking
  import opened MaskChoice
  import RoomCount
  import opened Symbol

  // ---- The bit buffer ----

  class GrowingBits {
    var bits: seq<bool>

    constructor ()
      ensures bits == []
    {
      bits := [];
    }

    /** BitBuffer::appendBits; false stands for the exception on a value or width out of range. */
    method AppendBits(val: nat, len: nat) returns (ok: bool)
      modifies this
      ensures ok <==> len <= 31 && val < Pow2(len)
      ensures bits == if ok then old(bits) + ValueBits(val, len) else old(bits)
    {
      hide Pow2;
      ok := len <= 31 && val < Pow2(len);
      if !ok {
        return;
      }
      ghost var field := ValueBits(val, len);
      assert bits + field[..0] == bits;
      for k := 0 to len
        invariant bits == old(bits) + field[..k]
      {
        var i := len - 1 - k;
        ValueBitIs(val, len, k);
        bits := bits + [val / Pow2(i) % 2 == 1];
      }
      assert field[..len] == field;
    }
  }

  /** The segments one after the other. */
  method AppendSegments(segs: seq<Segment>, version: nat, bb: GrowingBits)
    requires SegmentsOk(segs) && VersionOk(version) && CountsFit(segs, version) && bb.bits == []
    modifies bb
    ensures bb.bits == StreamBits(segs, version)
  {
    Widths();
    hide StreamBits, SegmentBits, SegmentOk, Pow2, NumCharCountBits, ValueBits, Payload, ModeBits;
    StreamNone(segs, version);
    for k := 0 to |segs|
      invariant bb.bits == StreamBits(segs[..k], version)
    {
      var s := segs[k];
      StreamNext(segs, version, k);
      SegmentParts(s, version, bb.bits);
      var ok := bb.AppendBits(ModeBits(s.mode), 4);
      ok := bb.AppendBits(s.numChars, NumCharCountBits(s.mode, version));
      bb.bits := bb.bits + Payload(s);
    }
    assert segs[..|segs|] == segs;
  }

  /** Pad bytes up to the capacity. */
  method AppendPadBytes(bb: GrowingBits, capacity: nat)
    requires |bb.bits| <= capacity && capacity % 8 == 0 && |bb.bits| % 8 == 0
    modifies bb
    ensures bb.bits == old(bb.bits) + PadBits(|old(bb.bits)|, capacity, 0xEC)
  {
    Widths();
    hide PadBits, Pow2, ValueBits;
    var padByte := 0xEC;
    ghost var all := bb.bits + PadBits(|bb.bits|, capacity, 0xEC);
    while |bb.bits| < capacity
      invariant |bb.bits| <= capacity && |bb.bits| % 8 == 0 && (padByte == 0xEC || padByte == 0x11)
      invariant all == bb.bits + PadBits(|bb.bits|, capacity, padByte)
      decreases capacity - |bb.bits|
    {
      NextByte(|bb.bits|, capacity);
      PadStep(|bb.bits|, capacity, padByte);
      JoinBits(bb.bits, ValueBits(padByte, 8), PadBits(|bb.bits| + 8, capacity, OtherPad(padByte)));
      var ok := bb.AppendBits(padByte, 8);
      padByte := OtherPad(padByte);
    }
    PadStep(|bb.bits|, capacity, padByte);
    assert bb.bits + [] == bb.bits;
  }

  /** Terminator, zeros up to a byte, and pad bytes. */
  method AppendTail(bb: GrowingBits, capacity: nat)
    requires |bb.bits| <= capacity && capacity % 8 == 0
    modifies bb
    ensures bb.bits == old(bb.bits) + Tail(|old(bb.bits)|, capacity)
  {
    hide Tail, PadBits, Zeros, Pow2, ValueBits;
    ghost var s := bb.bits;
    FillFits(|s|, capacity);
    TailParts(s, capacity);
    var t := if capacity - |bb.bits| < 4 then capacity - |bb.bits| else 4;
    ZeroValue(t);
    var ok := bb.AppendBits(0, t);
    var fill := (8 - |bb.bits| % 8) % 8;
    ZeroValue(fill);
    ok := bb.AppendBits(0, fill);
    AppendPadBytes(bb, capacity);
  }

  /** Bits packed into bytes, the first bit of each byte highest. */
  method PackBits(bits: seq<bool>) returns (bytes: seq<bv8>)
    requires |bits| % 8 == 0
    ensures bytes == Packed(bits)
  {
    hide Holds, OrBit, ParseBytes;
    var packed := new bv8[|bits| / 8](_ => 0);
    ZerosHold(packed[..]);
    assert bits[..0] == [];
    for i := 0 to |bits|
      invariant Holds(packed[..], bits[..i])
    {
      ghost var was := packed[..];
      HoldsNext(was, bits[..i], bits[i]);
      assert bits[..i] + [bits[i]] == bits[..i + 1];
      packed[i / 8] := OrBit(packed[i / 8], 7 - i % 8, bits[i]);
      assert packed[..] == was[i / 8 := OrBit(was[i / 8], 7 - i % 8, bits[i])];
    }
    assert bits[..|bits|] == bits;
    HoldsFirst(packed[..], bits);
    FirstBytes(packed[..], bits, |bits| / 8);
    bytes := packed[..];
    assert bytes[..|bits| / 8] == bytes;
  }

  /** The data codewords as QrCode::encodeSegments computes them: the same as those of the C version. */
  method DataCodewords(segs: seq<Segment>, version: nat, ecl: nat) returns (codewords: seq<bv8>)
    requires SegmentsOk(segs) && VersionOk(version) && ecl < 4 && Fits(segs, version, ecl)
    ensures codewords == DataBytes(segs, version, ecl)
  {
    hide *;
    FitsMeans(segs, version, ecl);
    DataBytesPacked(segs, version, ecl);
    TailLength(|StreamBits(segs, version)|, 8 * NumDataCodewords(version, ecl));
    var bb := new GrowingBits();
    AppendSegments(segs, version, bb);
    AppendTail(bb, NumDataCodewords(version, ecl) * 8);
    codewords := PackBits(bb.bits);
  }

  lemma DataBytesPacked(segs: seq<Segment>, v: nat, e: nat)
    requires SegmentsOk(segs) && VersionOk(v) && e < 4 && Fits(segs, v, e)
    ensures DataBytes(segs, v, e) == Packed(DataBits(segs, v, e))
  {
    hide DataBits, Packed;
  }

  // ---- Modules and marks ----

  ghost predicate IsSquare(n: nat, rows: seq<seq<bool>>) {
    |rows| == n && forall y :: 0 <= y < n ==> |rows[y]| == n
  }

  lemma InsideRow(n: nat, c: nat)
    requires c < n * n
    ensures n > 0 && 0 <= c / n < n && 0 <= c % n < n
  {
    RowOfCell(c, n);
  }

  ghost function CellIn(n: nat, rows: seq<seq<bool>>, c: nat): bool
    requires IsSquare(n, rows) && c < n * n
  {
    InsideRow(n, c);
    rows[c / n][c % n]
  }

  /** The rows one after the other. */
  ghost function Flat(n: nat, rows: seq<seq<bool>>): (g: seq<bool>)
    requires IsSquare(n, rows)
    ensures |g| == n * n
  {
    seq(n * n, c requires 0 <= c < n * n => CellIn(n, rows, c))
  }

  lemma FlatAt(n: nat, rows: seq<seq<bool>>, x: nat, y: nat)
    requires IsSquare(n, rows) && x < n && y < n
    ensures CellOf(n, x, y) < n * n && Flat(n, rows)[CellOf(n, x, y)] == rows[y][x]
  {
    DivUnique(y * n + x, n, y, x);
  }

  lemma FlatSet(n: nat, rows: seq<seq<bool>>, x: nat, y: nat, dark: bool)
    requires IsSquare(n, rows) && x < n && y < n
    ensures var r := rows[y := rows[y][x := dark]];
            IsSquare(n, r) && Flat(n, r) == Flat(n, rows)[CellOf(n, x, y) := dark]
  {
    var r := rows[y := rows[y][x := dark]];
    var k := CellOf(n, x, y);
    DivUnique(k, n, y, x);
    forall c | 0 <= c < n * n ensures Flat(n, r)[c] == Flat(n, rows)[k := dark][c] {
      InsideRow(n, c);
      if c / n == y && c % n == x { assert c == c / n * n + c % n; }
    }
  }

  class QrCode {
    const version: nat
    const size: nat
    var modules: seq<seq<bool>>
    var isFunction: seq<seq<bool>>

    ghost predicate Valid()
      reads this
    {
      VersionOk(version) && size == SizeOf(version) && SizeOk(size) && IsSquare(size, modules) && IsSquare(size, isFunction)
    }

    constructor (version: nat, modules: seq<seq<bool>>, isFunction: seq<seq<bool>>)
      requires VersionOk(version) && IsSquare(SizeOf(version), modules) && IsSquare(SizeOf(version), isFunction)
      ensures Valid() && this.version == version && this.modules == modules && this.isFunction == isFunction
    {
      this.version := version;
      this.size := SizeOf(version);
      this.modules := modules;
      this.isFunction := isFunction;
      SizesOk(version);
    }

    /** t steps of the scan are done. */
    ghost predicate Drawing(was: seq<bool>, data: seq<bv8>, t: nat, i: nat)
      reads this
    {
      Valid() && |was| == size * size && t <= Steps(size)
      && Flat(size, modules) == Drawn(size, Flat(size, isFunction), was, data, t)
      && BitIndex(size, Flat(size, isFunction), |data|, t, i)
    }

    method DrawCell(ghost was: seq<bool>, data: seq<bv8>, x: nat, y: nat, ghost t: nat, start: nat) returns (i: nat)
      requires Drawing(was, data, t, start) && t < Steps(size)
      requires x < size && y < size && Visited(size, t) == CellOf(size, x, y)
      modifies this`modules
      ensures Drawing(was, data, t + 1, i)
    {
      hide Visited, Drawn, BitIndex, Flat, Steps, GetBit, CellOf, IsSquare;
      i := start;
      DrawStep(size, Flat(size, isFunction), was, data, t, i);
      SquareRow(size, isFunction, y);
      SquareRow(size, modules, y);
      FlatAt(size, isFunction, x, y);
      if !isFunction[y][x] && i < |data| * 8 {
        var dark := GetBit(data[i / 8], 7 - i % 8);
        FlatSet(size, modules, x, y, dark);
        modules := modules[y := modules[y][x := dark]];
        i := i + 1;
      }
    }

    /** QrCode::drawCodewords; false stands for the exception on a wrong number of codewords. */
    method DrawCodewords(data: seq<bv8>) returns (ok: bool)
      requires Valid() && Flat(size, isFunction) == FunctionMask(version)
      modifies this`modules
      ensures Valid() && (ok <==> |data| == RawCodewords(version))
      ensures !ok ==> modules == old(modules)
      ensures ok ==> Flat(size, modules) == Drawn(size, Flat(size, isFunction), old(Flat(size, modules)), data, Steps(size))
    {
      hide Drawn, BitIndex, Flat, Step, Steps, Pairs, Upward, BeforePair, Right, Visited, CellOf, IsSquare, FunctionMask, Room, RawDataModules;
      ok := |data| == RawCodewords(version);
      if !ok {
        return;
      }
      RoomCount.RoomTheorem(version);
      ghost var was := Flat(size, modules);
      var i: nat := 0;
      var right: int := size - 1;
      ghost var p: nat := 0;
      StartScan(size, Flat(size, isFunction), was, data);
      StepCounts(size, 0, 0);
      AtPair(size, p, right);
      while right >= 1
        invariant BeforePair(size, p, right) && p <= Pairs(size) && (right >= 1 <==> p < Pairs(size))
        invariant Drawing(was, data, Step(size, p, 0, 0), i)
        decreases right
      {
        AtPair(size, p, right);
        if right == 6 {
          right := 5;
        }
        for vert := 0 to size
          invariant Drawing(was, data, Step(size, p, vert, 0), i)
        {
          var upward := Upward(right);
          var y := if upward then size - 1 - vert else vert;
          StepCounts(size, p, vert);
          StepIs(size, p, vert, 0);
          StepIs(size, p, vert, 1);
          i := DrawCell(was, data, right, y, Step(size, p, vert, 0), i);
          i := DrawCell(was, data, right - 1, y, Step(size, p, vert, 1), i);
        }
        StepCounts(size, p, 0);
        right := right - 2;
        p := p + 1;
        AtPair(size, p, right);
      }
      StepCounts(size, p, 0);
      AllBitsDrawn(size, Flat(size, isFunction), |data|, i);
      assert i == |data| * 8;
    }

    /** QrCode::applyMask; false stands for the exception on a mask number out of range. */
    method ApplyMask(msk: int) returns (ok: bool)
      requires Valid()
      modifies this`modules
      ensures Valid() && (ok <==> 0 <= msk <= 7)
      ensures !ok ==> modules == old(modules)
      ensures ok ==> Flat(size, modules) == Masked(size, Flat(size, isFunction), old(Flat(size, modules)), msk)
    {
      hide Invert, Flat, MaskedUpTo, Masked, IsSquare, CellOf, RowStart;
      ok := 0 <= msk <= 7;
      if !ok {
        return;
      }
      ghost var f, was := Flat(size, isFunction), Flat(size, modules);
      RowStarts(size, 0);
      NoneMasked(size, f, was, msk);
      for y := 0 to size
        invariant Valid() && MaskedUpTo(size, f, was, Flat(size, modules), msk, RowStart(size, y))
      {
        RowStarts(size, y);
        for x := 0 to size
          invariant Valid() && MaskedUpTo(size, f, was, Flat(size, modules), msk, RowStart(size, y) + x)
        {
          MaskOne(f, was, msk, x, y);
        }
      }
      RowStarts(size, size);
      AllMasked(size, f, was, Flat(size, modules), msk);
    }

    method MaskOne(ghost f: seq<bool>, ghost was: seq<bool>, msk: nat, x: nat, y: nat)
      requires Valid() && x < size && y < size && msk < 8 && f == Flat(size, isFunction) && |was| == size * size
      requires MaskedUpTo(size, f, was, Flat(size, modules), msk, CellOf(size, x, y))
      modifies this`modules
      ensures Valid() && MaskedUpTo(size, f, was, Flat(size, modules), msk, CellOf(size, x, y) + 1)
    {
      hide Invert, Flat, MaskedUpTo, Masked, IsSquare, CellOf;
      ghost var g := Flat(size, modules);
      SquareRow(size, isFunction, y);
      SquareRow(size, modules, y);
      FlatAt(size, isFunction, x, y);
      FlatAt(size, modules, x, y);
      MaskCell(size, f, was, g, msk, x, y);
      var invert := Invert(msk, x, y);
      var dark := modules[y][x] != (invert && !isFunction[y][x]);
      FlatSet(size, modules, x, y, dark);
      if f[CellOf(size, x, y)] { assert g[CellOf(size, x, y) := dark] == g; }
      modules := modules[y := modules[y][x := dark]];
    }
  }

  lemma AllBitsDrawn(n: nat, f: seq<bool>, len: nat, i: nat)
    requires SizeOk(n) && |f| == n * n && 8 * len <= Room(n, f) && BitIndex(n, f, len, Steps(n), i)
    ensures i == len * 8
  {
  }

  lemma SquareRow(n: nat, rows: seq<seq<bool>>, y: nat)
    requires IsSquare(n, rows) && y < n
    ensures |rows| == n && |rows[y]| == n
  {
  }

  // ---- The C and the C++ version agree ----

  /** What the scan draws on unmarked modules does not depend on the function modules. */
  lemma {:induction false} DrawnSame(n: nat, f: seq<bool>, g: seq<bool>, h: seq<bool>, data: seq<bv8>, t: nat)
    requires SizeOk(n) && |f| == n * n && SameData(f, g, h) && t <= Steps(n)
    ensures SameData(f, Drawn(n, f, g, data, t), Drawn(n, f, h, data, t))
  {
    hide Visited, Steps, Filled, BitOf;
    if t > 0 { DrawnSame(n, f, g, h, data, t - 1); }
  }

  /**
   * The C version draws on the grid that marks the function modules dark, and takes those marks from the grid itself;
   * the C++ version draws on any grid that is light elsewhere, with separate marks. The finished codeword modules are equal.
   */
  lemma VersionsAgree(n: nat, f: seq<bool>, g: seq<bool>, data: seq<bv8>, e: nat, m: nat, x: nat, y: nat)
    requires SizeOk(n) && |f| == |g| == n * n && e < 4 && m < 8 && x < n && y < n && FormatInside(n, f)
    requires forall c :: 0 <= c < n * n && !f[c] ==> !g[c]
    ensures CellOf(n, x, y) < n * n
    ensures !f[CellOf(n, x, y)] ==>
      Candidate(n, f, Drawn(n, f, f, data, Steps(n)), e, m)[CellOf(n, x, y)]
      == Candidate(n, f, Drawn(n, f, g, data, Steps(n)), e, m)[CellOf(n, x, y)]
  {
    hide Drawn, Candidate, Steps, Invert, FormatInside;
    DrawnSame(n, f, f, g, data, Steps(n));
    CandidateUnmarked(n, f, Drawn(n, f, f, data, Steps(n)), e, m, x, y);
    CandidateUnmarked(n, f, Drawn(n, f, g, data, Steps(n)), e, m, x, y);
  }
}
