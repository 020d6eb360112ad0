/** Splitting data into blocks, appending error correction, and interleaving: addEccAndInterleave of qrcodegen.c and .cpp. */
module Interleave {
  import opened Arithmetic
  import opened ReedSolomon

  /** The numbers that fix how codewords are laid out. */
  datatype Layout = Layout(numBlocks: nat, eccLen: nat, rawCodewords: nat)

  ghost predicate Valid(l: Layout) {
    0 < l.numBlocks && 1 <= l.eccLen <= 30 && l.eccLen <= l.rawCodewords / l.numBlocks
  }

  function ShortLen(l: Layout): nat
    requires Valid(l)
  {
    l.rawCodewords / l.numBlocks - l.eccLen
  }

  /** Blocks below this number are short; the others hold one more data byte. */
  function NumShort(l: Layout): (n: nat)
    requires Valid(l)
    ensures 1 <= n <= l.numBlocks
  {
    l.numBlocks - l.rawCodewords % l.numBlocks
  }

  /** Data codewords that come before the extra bytes of the long blocks. */
  function ShortArea(l: Layout): nat
    requires Valid(l)
  {
    ShortLen(l) * l.numBlocks
  }

  function EccArea(l: Layout): nat {
    l.eccLen * l.numBlocks
  }

  function DataLen(l: Layout): (n: nat)
    requires Valid(l)
    ensures n == ShortArea(l) + (l.numBlocks - NumShort(l)) && n + EccArea(l) == l.rawCodewords
  {
    DistributeRight(l.rawCodewords / l.numBlocks - l.eccLen, l.eccLen, l.numBlocks);
    l.rawCodewords - EccArea(l)
  }

  function BlockLen(l: Layout, i: nat): nat
    requires Valid(l)
  {
    ShortLen(l) + (if i < NumShort(l) then 0 else 1)
  }

  /** Where block i starts in the data. */
  function BlockStart(l: Layout, i: nat): nat
    requires Valid(l)
  {
    if i == 0 then 0 else BlockStart(l, i - 1) + BlockLen(l, i - 1)
  }

  lemma {:induction false} BlockStartIs(l: Layout, i: nat)
    requires Valid(l) && i <= l.numBlocks
    ensures BlockStart(l, i) == ShortLen(l) * i + (if i <= NumShort(l) then 0 else i - NumShort(l))
  {
    hide ShortLen, NumShort;
    if i > 0 {
      BlockStartIs(l, i - 1);
      assert ShortLen(l) * i == ShortLen(l) * (i - 1) + ShortLen(l);
    }
  }

  /** The blocks use up the data. */
  lemma BlocksEnd(l: Layout)
    requires Valid(l)
    ensures BlockStart(l, l.numBlocks) == DataLen(l)
  {
    hide ShortLen, NumShort, DataLen;
    BlockStartIs(l, l.numBlocks);
  }

  lemma {:induction false} BlockStartGrows(l: Layout, i: nat, j: nat)
    requires Valid(l) && i <= j
    ensures BlockStart(l, i) <= BlockStart(l, j)
  {
    if i < j { BlockStartGrows(l, i, j - 1); }
  }

  lemma BlockFits(l: Layout, i: nat)
    requires Valid(l) && i < l.numBlocks
    ensures BlockStart(l, i) + BlockLen(l, i) <= DataLen(l)
  {
    hide BlockLen, DataLen;
    BlocksEnd(l);
    BlockStartGrows(l, i + 1, l.numBlocks);
    assert BlockStart(l, i + 1) == BlockStart(l, i) + BlockLen(l, i);
  }

  function Block(l: Layout, data: seq<bv8>, i: nat): (b: seq<bv8>)
    requires Valid(l) && i < l.numBlocks && |data| == DataLen(l)
    ensures |b| == BlockLen(l, i)
  {
    BlockFits(l, i);
    data[BlockStart(l, i)..BlockStart(l, i) + BlockLen(l, i)]
  }

  function BlockEcc(l: Layout, data: seq<bv8>, i: nat): (b: seq<bv8>)
    requires Valid(l) && i < l.numBlocks && |data| == DataLen(l)
    ensures |b| == l.eccLen
  {
    Remainder(Block(l, data, i), Divisor(l.eccLen))
  }

  // ---- Where every codeword goes ----

  /** A codeword: byte `index` of the data or of the error correction of a block. */
  datatype Codeword = Data(block: nat, index: nat) | Ecc(block: nat, index: nat)

  predicate IsCodeword(l: Layout, c: Codeword)
    requires Valid(l)
  {
    c.block < l.numBlocks && c.index < (if c.Data? then BlockLen(l, c.block) else l.eccLen)
  }

  /** The index of a codeword in the interleaved sequence. */
  function Position(l: Layout, c: Codeword): nat
    requires Valid(l) && IsCodeword(l, c)
  {
    if c.Ecc? then DataLen(l) + c.block + c.index * l.numBlocks
    else if c.index < ShortLen(l) then c.block + c.index * l.numBlocks
    else c.block - NumShort(l) + c.index * l.numBlocks
  }

  function Div(p: nat, b: nat): nat
    requires b > 0
  {
    p / b
  }

  function Mod(p: nat, b: nat): nat
    requires b > 0
  {
    p % b
  }

  /** The codeword at an index of the interleaved sequence. */
  function At(l: Layout, p: nat): Codeword
    requires Valid(l) && p < l.rawCodewords
  {
    if p < ShortArea(l) then Data(Mod(p, l.numBlocks), Div(p, l.numBlocks))
    else if p < DataLen(l) then Data(p - ShortArea(l) + NumShort(l), ShortLen(l))
    else Ecc(Mod(p - DataLen(l), l.numBlocks), Div(p - DataLen(l), l.numBlocks))
  }

  /** A cell (i, j) with i < b and j < n has an index below n b. */
  lemma CellIndex(i: int, j: int, b: int, n: int)
    requires 0 <= i < b && 0 <= j < n
    ensures 0 <= i + j * b < n * b && (i + j * b) / b == j && (i + j * b) % b == i
  {
    DivUnique(i + j * b, b, j, i);
    CellInTable(n, b, i, j);
  }

  lemma IndexCell(p: int, b: int, n: int)
    requires 0 <= p < n * b && b > 0
    ensures 0 <= p / b < n && 0 <= p % b < b && p % b + p / b * b == p
  {
    Euclid(p, b);
    DivNonNegative(p, b);
    if p / b >= n { MulMonotone(n, p / b, b); }
  }

  /** Every codeword has its own index below rawCodewords. */
  lemma PositionAt(l: Layout, c: Codeword)
    requires Valid(l) && IsCodeword(l, c)
    ensures Position(l, c) < l.rawCodewords && At(l, Position(l, c)) == c
  {
    var b, s := l.numBlocks, ShortLen(l);
    var d := DataLen(l);
    assert ShortArea(l) == s * b && EccArea(l) == l.eccLen * b;
    hide ShortLen, NumShort, DataLen, ShortArea, EccArea;
    if c.Ecc? {
      CellIndex(c.block, c.index, b, l.eccLen);
    } else if c.index < s {
      CellIndex(c.block, c.index, b, s);
    }
  }

  /** Every index below rawCodewords is taken by a codeword. */
  lemma AtPosition(l: Layout, p: nat)
    requires Valid(l) && p < l.rawCodewords
    ensures IsCodeword(l, At(l, p)) && Position(l, At(l, p)) == p
  {
    var b, s := l.numBlocks, ShortLen(l);
    var d := DataLen(l);
    assert ShortArea(l) == s * b && EccArea(l) == l.eccLen * b;
    hide ShortLen, NumShort, DataLen, ShortArea, EccArea;
    if p < s * b {
      IndexCell(p, b, s);
    } else if p >= d {
      IndexCell(p - d, b, l.eccLen);
    }
  }

  /** The order in the symbol: data before error correction, then by place within the block, then by block. */
  predicate Precedes(c: Codeword, d: Codeword) {
    (c.Data? && d.Ecc?) || (c.Data? == d.Data? && (c.index < d.index || (c.index == d.index && c.block < d.block)))
  }

  /** Codewords are placed in that order. */
  lemma CodewordOrder(l: Layout, c: Codeword, d: Codeword)
    requires Valid(l) && IsCodeword(l, c) && IsCodeword(l, d) && Precedes(c, d)
    ensures Position(l, c) < Position(l, d)
  {
    var b := l.numBlocks;
    LastBefore(l, c);
    if c.Data? == d.Data? && c.index < d.index {
      MulMonotone(c.index + 1, d.index, b);
      DistributeRight(c.index, 1, b);
    }
    if d.Ecc? { MulNonNegative(d.index, b); }
    hide DataLen, ShortLen, NumShort, BlockLen, Valid;
  }

  /** Data codewords end before the error correction begins. */
  lemma LastBefore(l: Layout, c: Codeword)
    requires Valid(l) && IsCodeword(l, c)
    ensures c.Data? ==> Position(l, c) < DataLen(l) && (c.index >= ShortLen(l) ==> c.index == ShortLen(l) && c.block >= NumShort(l))
  {
    hide DataLen, ShortLen, NumShort;
    if c.Data? {
      if c.index < ShortLen(l) {
        MulMonotone(c.index + 1, ShortLen(l), l.numBlocks);
        DistributeRight(c.index, 1, l.numBlocks);
      }
    }
  }

  /** Later blocks are no shorter, and none is more than one byte longer than another. */
  lemma BlockLengths(l: Layout, i: nat, j: nat)
    requires Valid(l) && i <= j < l.numBlocks
    ensures BlockLen(l, i) <= BlockLen(l, j) <= BlockLen(l, i) + 1
  {
  }

  function Value(l: Layout, data: seq<bv8>, c: Codeword): bv8
    requires Valid(l) && IsCodeword(l, c) && |data| == DataLen(l)
  {
    if c.Data? then Block(l, data, c.block)[c.index] else BlockEcc(l, data, c.block)[c.index]
  }

  /** The interleaved codewords. */
  function Interleaved(l: Layout, data: seq<bv8>): (r: seq<bv8>)
    requires Valid(l) && |data| == DataLen(l)
    ensures |r| == l.rawCodewords
  {
    seq(l.rawCodewords, p requires 0 <= p < l.rawCodewords => CodewordAt(l, data, p))
  }

  function CodewordAt(l: Layout, data: seq<bv8>, p: nat): bv8
    requires Valid(l) && |data| == DataLen(l) && p < l.rawCodewords
  {
    AtPosition(l, p);
    Value(l, data, At(l, p))
  }

  // ---- The C version: one buffer for the data and, behind it, each block's error correction in turn ----

  /** Order of processing: block by block, data before error correction. */
  ghost predicate Before(c: Codeword, block: nat, ecc: bool, index: nat) {
    c.block < block || (c.block == block && (if ecc then c.Data? || c.index < index else c.Data? && c.index < index))
  }

  ghost predicate Placed(l: Layout, data: seq<bv8>, result: seq<bv8>, block: nat, ecc: bool, index: nat)
    requires Valid(l) && |data| == DataLen(l)
  {
    |result| >= l.rawCodewords
    && forall p :: 0 <= p < l.rawCodewords && Before(At(l, p), block, ecc, index) ==> result[p] == CodewordAt(l, data, p)
  }

  /** Writing the next codeword to its place. */
  lemma PlaceNext(l: Layout, data: seq<bv8>, result: seq<bv8>, c: Codeword)
    requires Valid(l) && |data| == DataLen(l) && IsCodeword(l, c)
    requires Placed(l, data, result, c.block, c.Ecc?, c.index)
    ensures Position(l, c) < |result|
    ensures Placed(l, data, result[Position(l, c) := Value(l, data, c)], c.block, c.Ecc?, c.index + 1)
  {
    hide At, Position, Value, IsCodeword, Valid, DataLen;
    PositionAt(l, c);
    var k := Position(l, c);
    var r := result[k := Value(l, data, c)];
    forall p | 0 <= p < l.rawCodewords && Before(At(l, p), c.block, c.Ecc?, c.index + 1)
      ensures r[p] == CodewordAt(l, data, p)
    {
      AtPosition(l, p);
    }
  }

  lemma PositionNext(l: Layout, c: Codeword)
    requires Valid(l) && IsCodeword(l, c) && IsCodeword(l, c.(index := c.index + 1))
    ensures Position(l, c.(index := c.index + 1)) == Position(l, c) + l.numBlocks
         - (if c.Data? && c.index + 1 == ShortLen(l) then NumShort(l) else 0)
  {
    hide ShortLen, NumShort, DataLen;
    assert (c.index + 1) * l.numBlocks == c.index * l.numBlocks + l.numBlocks;
  }

  /** The data bytes of one block. */
  method CopyData(l: Layout, ghost was: seq<bv8>, data: array<bv8>, from: nat, i: nat, result: array<bv8>)
    requires Valid(l) && i < l.numBlocks && |was| == DataLen(l) && from == BlockStart(l, i)
    requires DataLen(l) <= data.Length && data[..DataLen(l)] == was && data != result && l.rawCodewords <= result.Length
    requires Placed(l, was, result[..], i, false, 0)
    modifies result
    ensures Placed(l, was, result[..], i, false, BlockLen(l, i))
    ensures result[l.rawCodewords..] == old(result[l.rawCodewords..])
  {
    hide Placed, Position, Value, DataLen, ShortLen, NumShort, BlockStart;
    var datLen, shortLen := BlockLen(l, i), ShortLen(l);
    var k: int := i;
    for j := 0 to datLen
      invariant Placed(l, was, result[..], i, false, j)
      invariant k == if j == 0 then i else Position(l, Data(i, j - 1)) + l.numBlocks
      invariant result[l.rawCodewords..] == old(result[l.rawCodewords..])
    {
      if j == shortLen {
        k := k - NumShort(l);
      }
      ghost var c := Data(i, j);
      StartOfBlock(l, i);
      if j > 0 { PositionNext(l, Data(i, j - 1)); }
      PlaceNext(l, was, result[..], c);
      PositionAt(l, c);
      ValueData(l, was, i, j);
      BlockFits(l, i);
      assert data[..DataLen(l)][from + j] == data[from + j];
      result[k] := data[from + j];
      k := k + l.numBlocks;
    }
  }

  lemma ValueData(l: Layout, data: seq<bv8>, i: nat, j: nat)
    requires Valid(l) && i < l.numBlocks && |data| == DataLen(l) && j < BlockLen(l, i)
    ensures BlockStart(l, i) + j < |data| && Value(l, data, Data(i, j)) == data[BlockStart(l, i) + j]
  {
    hide BlockLen, BlockStart, DataLen;
    BlockFits(l, i);
  }

  lemma StartOfBlock(l: Layout, i: nat)
    requires Valid(l) && i < l.numBlocks && BlockLen(l, i) > 0
    ensures Position(l, Data(i, 0)) == if ShortLen(l) == 0 then i - NumShort(l) else i
  {
    hide ShortLen, NumShort;
  }

  /** The error correction bytes of one block. */
  method CopyEcc(l: Layout, ghost was: seq<bv8>, data: array<bv8>, dataLen: nat, i: nat, result: array<bv8>)
    requires Valid(l) && i < l.numBlocks && |was| == DataLen(l) == dataLen && data != result
    requires dataLen + l.eccLen <= data.Length && data[dataLen..dataLen + l.eccLen] == BlockEcc(l, was, i)
    requires l.rawCodewords <= result.Length && Placed(l, was, result[..], i, true, 0)
    modifies result
    ensures Placed(l, was, result[..], i, true, l.eccLen)
    ensures result[l.rawCodewords..] == old(result[l.rawCodewords..])
  {
    hide Placed, Position, DataLen, BlockEcc, Block;
    var k: int := dataLen + i;
    for j := 0 to l.eccLen
      invariant Placed(l, was, result[..], i, true, j)
      invariant k == if j == 0 then dataLen + i else Position(l, Ecc(i, j - 1)) + l.numBlocks
      invariant result[l.rawCodewords..] == old(result[l.rawCodewords..])
    {
      ghost var c := Ecc(i, j);
      StartOfEcc(l, i);
      if j > 0 { PositionNext(l, Ecc(i, j - 1)); }
      PlaceNext(l, was, result[..], c);
      PositionAt(l, c);
      assert data[dataLen + j] == data[dataLen..dataLen + l.eccLen][j];
      result[k] := data[dataLen + j];
      k := k + l.numBlocks;
    }
  }

  lemma StartOfEcc(l: Layout, i: nat)
    requires Valid(l) && i < l.numBlocks
    ensures Position(l, Ecc(i, 0)) == DataLen(l) + i
  {
    hide DataLen;
  }

  /** After the data of a block comes its error correction, and then the next block. */
  lemma NextPhase(l: Layout, data: seq<bv8>, result: seq<bv8>, i: nat)
    requires Valid(l) && |data| == DataLen(l) && i < l.numBlocks
    ensures Placed(l, data, result, i, false, BlockLen(l, i)) ==> Placed(l, data, result, i, true, 0)
    ensures Placed(l, data, result, i, true, l.eccLen) ==> Placed(l, data, result, i + 1, false, 0)
  {
    hide At, DataLen, BlockLen, CodewordAt;
    forall p | 0 <= p < l.rawCodewords ensures IsCodeword(l, At(l, p)) { AtPosition(l, p); }
  }

  lemma AllPlaced(l: Layout, data: seq<bv8>, result: seq<bv8>)
    requires Valid(l) && |data| == DataLen(l) && Placed(l, data, result, l.numBlocks, false, 0)
    ensures result[..l.rawCodewords] == Interleaved(l, data)
  {
    hide At, DataLen, BlockLen, CodewordAt;
    forall p | 0 <= p < l.rawCodewords ensures Before(At(l, p), l.numBlocks, false, 0) { AtPosition(l, p); }
  }

  lemma NonePlaced(l: Layout, data: seq<bv8>, result: seq<bv8>)
    requires Valid(l) && |data| == DataLen(l) && |result| >= l.rawCodewords
    ensures Placed(l, data, result, 0, false, 0)
  {
    hide At, DataLen, CodewordAt;
  }

  /** One round of the loop: the block's bytes, then its error correction computed behind the data. */
  method PlaceBlock(l: Layout, ghost was: seq<bv8>, data: array<bv8>, dataLen: nat, dat: nat, i: nat, rsdiv: array<bv8>, result: array<bv8>)
    requires Valid(l) && i < l.numBlocks && |was| == DataLen(l) == dataLen && l.rawCodewords <= data.Length
    requires data != result && rsdiv != data && rsdiv != result && l.rawCodewords <= result.Length
    requires data[..dataLen] == was && dat == BlockStart(l, i)
    requires rsdiv.Length == 30 && rsdiv[..l.eccLen] == Divisor(l.eccLen)
    requires Placed(l, was, result[..], i, false, 0)
    modifies data, result
    ensures data[..dataLen] == was && Placed(l, was, result[..], i + 1, false, 0)
    ensures result[l.rawCodewords..] == old(result[l.rawCodewords..])
  {
    hide *;
    BlockFits(l, i);
    ScratchFits(l);
    var datLen := BlockLen(l, i);
    SliceOfTake(data[..], dat, dat + datLen, dataLen);
    ComputeRemainder(data, dat, datLen, rsdiv, l.eccLen, data, dataLen);
    assert data[..dataLen] == was;
    EccOfBlock(l, was, i);
    CopyData(l, was, data, dat, i, result);
    NextPhase(l, was, result[..], i);
    CopyEcc(l, was, data, dataLen, i, result);
    NextPhase(l, was, result[..], i);
  }

  lemma SliceOfTake(s: seq<bv8>, a: nat, b: nat, n: nat)
    requires a <= b <= n <= |s|
    ensures s[..n][a..b] == s[a..b]
  {
  }

  lemma EccOfBlock(l: Layout, data: seq<bv8>, i: nat)
    requires Valid(l) && i < l.numBlocks && |data| == DataLen(l)
    ensures BlockStart(l, i) + BlockLen(l, i) <= |data|
    ensures BlockEcc(l, data, i) == Remainder(data[BlockStart(l, i)..BlockStart(l, i) + BlockLen(l, i)], Divisor(l.eccLen))
  {
    hide DataLen, BlockLen, BlockStart, Remainder, Divisor;
    BlockFits(l, i);
  }

  /** addEccAndInterleave: the scratch area behind the data is overwritten, the data never. */
  method AddEccAndInterleave(data: array<bv8>, l: Layout, result: array<bv8>)
    requires Valid(l) && l.rawCodewords <= data.Length && l.rawCodewords <= result.Length && data != result
    modifies data, result
    ensures data[..DataLen(l)] == old(data[..DataLen(l)])
    ensures result[..l.rawCodewords] == Interleaved(l, old(data[..DataLen(l)]))
    ensures result[l.rawCodewords..] == old(result[l.rawCodewords..])
  {
    hide Placed, DataLen, Remainder, Divisor, BlockStart, BlockLen, Interleaved;
    var dataLen := DataLen(l);
    ScratchFits(l);
    ghost var was := data[..dataLen];
    var rsdiv := new bv8[30];
    ComputeDivisor(l.eccLen, rsdiv);
    var dat := 0;
    FirstBlock(l);
    NonePlaced(l, was, result[..]);
    for i := 0 to l.numBlocks
      invariant dat == BlockStart(l, i) && data[..dataLen] == was
      invariant rsdiv[..l.eccLen] == Divisor(l.eccLen)
      invariant Placed(l, was, result[..], i, false, 0)
      invariant result[l.rawCodewords..] == old(result[l.rawCodewords..])
    {
      PlaceBlock(l, was, data, dataLen, dat, i, rsdiv, result);
      NextBlockStart(l, i);
      dat := dat + BlockLen(l, i);
    }
    AllPlaced(l, was, result[..]);
  }

  lemma FirstBlock(l: Layout)
    requires Valid(l)
    ensures BlockStart(l, 0) == 0
  {
  }

  lemma NextBlockStart(l: Layout, i: nat)
    requires Valid(l)
    ensures BlockStart(l, i + 1) == BlockStart(l, i) + BlockLen(l, i)
  {
  }

  lemma ScratchFits(l: Layout)
    requires Valid(l)
    ensures DataLen(l) + l.eccLen <= l.rawCodewords && 1 <= l.eccLen <= 30 && 0 < l.numBlocks
  {
    var e, b := l.eccLen, l.numBlocks;
    Distribute(e, b - 1, 1);
    MulNonNegative(e, b - 1);
  }

  // ---- Reading the blocks back ----

  /** The bytes of block i and of its error correction, picked out of the interleaved sequence. */
  function Deinterleaved(l: Layout, c: seq<bv8>, i: nat): seq<bv8>
    requires Valid(l) && |c| == l.rawCodewords && i < l.numBlocks
  {
    seq(BlockLen(l, i), j requires 0 <= j < BlockLen(l, i) => Taken(l, c, Data(i, j)))
    + seq(l.eccLen, j requires 0 <= j < l.eccLen => Taken(l, c, Ecc(i, j)))
  }

  function Taken(l: Layout, c: seq<bv8>, w: Codeword): bv8
    requires Valid(l) && |c| == l.rawCodewords && IsCodeword(l, w)
  {
    PositionAt(l, w);
    c[Position(l, w)]
  }

  lemma TakenIs(l: Layout, data: seq<bv8>, w: Codeword)
    requires Valid(l) && |data| == DataLen(l) && IsCodeword(l, w)
    ensures Taken(l, Interleaved(l, data), w) == Value(l, data, w)
  {
    hide Position, At, DataLen, Value, IsCodeword;
    PositionAt(l, w);
  }

  /** De-interleaving recovers every block followed by its error correction. */
  lemma DeinterleaveInterleave(l: Layout, data: seq<bv8>, i: nat)
    requires Valid(l) && |data| == DataLen(l) && i < l.numBlocks
    ensures Deinterleaved(l, Interleaved(l, data), i) == Block(l, data, i) + BlockEcc(l, data, i)
  {
    hide Taken, Interleaved, DataLen, BlockLen, Block, BlockEcc;
    var c := Interleaved(l, data);
    forall j | 0 <= j < BlockLen(l, i) ensures Taken(l, c, Data(i, j)) == Block(l, data, i)[j] { TakenIs(l, data, Data(i, j)); }
    forall j | 0 <= j < l.eccLen ensures Taken(l, c, Ecc(i, j)) == BlockEcc(l, data, i)[j] { TakenIs(l, data, Ecc(i, j)); }
  }

  /** Each recovered block is a Reed-Solomon codeword. */
  lemma BlockVanishes(l: Layout, data: seq<bv8>, i: nat, k: nat)
    requires Valid(l) && |data| == DataLen(l) && i < l.numBlocks && k < l.eccLen
    ensures Eval(Deinterleaved(l, Interleaved(l, data), i), Root(k)) == 0
  {
    hide Eval, Deinterleaved, Interleaved, Block, DataLen, Root;
    DeinterleaveInterleave(l, data, i);
    CodewordVanishes(Block(l, data, i), l.eccLen, k);
  }

  /** The first n blocks together. */
  function Joined(l: Layout, data: seq<bv8>, n: nat): seq<bv8>
    requires Valid(l) && |data| == DataLen(l) && n <= l.numBlocks
  {
    if n == 0 then [] else Joined(l, data, n - 1) + Block(l, data, n - 1)
  }

  /** The blocks together are the data. */
  lemma {:induction false} BlocksJoin(l: Layout, data: seq<bv8>, n: nat)
    requires Valid(l) && |data| == DataLen(l) && n <= l.numBlocks
    ensures BlockStart(l, n) <= |data| && Joined(l, data, n) == data[..BlockStart(l, n)]
    ensures n == l.numBlocks ==> Joined(l, data, n) == data
  {
    hide DataLen, BlockLen;
    if n > 0 {
      BlocksJoin(l, data, n - 1);
      BlockFits(l, n - 1);
    }
    BlocksEnd(l);
  }

  // ---- The C++ version: padded blocks, read row by row ----

  function PaddedBlock(l: Layout, data: seq<bv8>, i: nat): (b: seq<bv8>)
    requires Valid(l) && i < l.numBlocks && |data| == DataLen(l)
    ensures |b| == ShortLen(l) + 1 + l.eccLen
  {
    Block(l, data, i) + (if i < NumShort(l) then [0] else []) + BlockEcc(l, data, i)
  }

  /** Number of bytes output before column j of row t. */
  function RowPlace(l: Layout, t: nat, j: nat): int
    requires Valid(l) && j <= l.numBlocks
  {
    t * l.numBlocks
    + (if t < ShortLen(l) then j
       else if t == ShortLen(l) then if j < NumShort(l) then 0 else j - NumShort(l)
       else j - NumShort(l))
  }

  predicate Skipped(l: Layout, t: nat, j: nat)
    requires Valid(l)
  {
    t == ShortLen(l) && j < NumShort(l)
  }

  /** The codeword in row t of padded block j. */
  function RowCodeword(l: Layout, t: nat, j: nat): Codeword
    requires Valid(l)
  {
    if t <= ShortLen(l) then Data(j, t) else Ecc(j, t - ShortLen(l) - 1)
  }

  lemma RowCell(l: Layout, data: seq<bv8>, t: nat, j: nat)
    requires Valid(l) && |data| == DataLen(l) && t < ShortLen(l) + 1 + l.eccLen && j < l.numBlocks && !Skipped(l, t, j)
    ensures 0 <= RowPlace(l, t, j) < l.rawCodewords && RowPlace(l, t, j + 1) == RowPlace(l, t, j) + 1
    ensures PaddedBlock(l, data, j)[t] == Interleaved(l, data)[RowPlace(l, t, j)]
  {
    hide Block, BlockEcc, At, ShortLen, NumShort, DataLen;
    var s, c := ShortLen(l), RowCodeword(l, t, j);
    assert IsCodeword(l, c);
    PositionAt(l, c);
    RowPosition(l, t, j);
    hide Position, RowPlace;
    assert PaddedBlock(l, data, j)[t] == Value(l, data, c);
  }

  lemma RowPosition(l: Layout, t: nat, j: nat)
    requires Valid(l) && t < ShortLen(l) + 1 + l.eccLen && j < l.numBlocks && !Skipped(l, t, j)
    ensures IsCodeword(l, RowCodeword(l, t, j)) && Position(l, RowCodeword(l, t, j)) == RowPlace(l, t, j)
  {
    var s, b := ShortLen(l), l.numBlocks;
    assert ShortArea(l) == s * b;
    hide ShortLen, NumShort, DataLen, ShortArea;
    if t > s { assert (t - s - 1) * b == t * b - s * b - b; }
  }

  lemma RowEnds(l: Layout, t: nat)
    requires Valid(l)
    ensures RowPlace(l, t, l.numBlocks) == RowPlace(l, t + 1, 0) && RowPlace(l, 0, 0) == 0
    ensures RowPlace(l, ShortLen(l) + 1 + l.eccLen, 0) == l.rawCodewords
  {
    var s, b := ShortLen(l), l.numBlocks;
    var d := DataLen(l);
    assert ShortArea(l) == s * b && EccArea(l) == l.eccLen * b;
    hide ShortLen, NumShort, DataLen, ShortArea, EccArea;
    assert (t + 1) * b == t * b + b;
    assert (s + 1 + l.eccLen) * b == s * b + b + l.eccLen * b;
  }

  method PadBlocks(data: seq<bv8>, l: Layout) returns (blocks: seq<seq<bv8>>)
    requires Valid(l) && |data| == DataLen(l)
    ensures |blocks| == l.numBlocks && forall j :: 0 <= j < l.numBlocks ==> blocks[j] == PaddedBlock(l, data, j)
  {
    hide DataLen, Remainder, Divisor, BlockStart, BlockLen, PaddedBlock;
    blocks := [];
    var rsDiv := Divisor(l.eccLen);
    var k := 0;
    FirstBlock(l);
    for i := 0 to l.numBlocks
      invariant k == BlockStart(l, i)
      invariant |blocks| == i && forall j :: 0 <= j < i ==> blocks[j] == PaddedBlock(l, data, j)
    {
      BlockFits(l, i);
      NextBlockStart(l, i);
      var dat := data[k..k + BlockLen(l, i)];
      k := k + |dat|;
      PaddedBlockIs(l, data, i, dat, Remainder(dat, rsDiv));
      var ecc := Remainder(dat, rsDiv);
      if i < NumShort(l) {
        dat := dat + [0];
      }
      dat := dat + ecc;
      blocks := blocks + [dat];
    }
  }

  /** The C++ version gives the same sequence as the C version; ok is false where it throws on a wrong data length. */
  method AddEccAndInterleaveRows(data: seq<bv8>, l: Layout) returns (ok: bool, result: seq<bv8>)
    requires Valid(l)
    ensures ok <==> |data| == DataLen(l)
    ensures result == if ok then Interleaved(l, data) else []
  {
    hide *;
    ok, result := |data| == DataLen(l), [];
    if !ok {
      return;
    }
    var blocks := PadBlocks(data, l);
    ghost var full := Interleaved(l, data);
    RowEnds(l, 0);
    var rows := |blocks[0]|;
    for t := 0 to rows
      invariant 0 <= RowPlace(l, t, 0) <= |full| && result == full[..RowPlace(l, t, 0)]
    {
      for j := 0 to |blocks|
        invariant 0 <= RowPlace(l, t, j) <= |full| && result == full[..RowPlace(l, t, j)]
      {
        if !Skipped(l, t, j) {
          RowCell(l, data, t, j);
          result := result + [blocks[j][t]];
        } else {
          SkippedCell(l, t, j);
        }
      }
      RowEnds(l, t);
    }
  }

  lemma PaddedBlockIs(l: Layout, data: seq<bv8>, i: nat, dat: seq<bv8>, ecc: seq<bv8>)
    requires Valid(l) && i < l.numBlocks && |data| == DataLen(l)
    requires dat == Block(l, data, i) && ecc == BlockEcc(l, data, i)
    ensures PaddedBlock(l, data, i) == (if i < NumShort(l) then dat + [0] else dat) + ecc
  {
    hide Block, BlockEcc, DataLen;
  }

  lemma SkippedCell(l: Layout, t: nat, j: nat)
    requires Valid(l) && j < l.numBlocks && Skipped(l, t, j)
    ensures RowPlace(l, t, j + 1) == RowPlace(l, t, j)
  {
    hide ShortLen, NumShort;
  }
}
