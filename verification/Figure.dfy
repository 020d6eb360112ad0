/** What a finished symbol looks like, module by module: finder, timing and alignment patterns as pictures, and where the words go. */
module Figure {
  import opened BitBuffer
  import opened Arithmetic
  import opened Grid
  import opened FunctionModules
  import opened RoomCount
  import opened Zigzag
  import opened LightModules
  import opened Masking
  import opened MaskChoice
  import opened Symbol

  // ---- Modules by column and row ----

  /** Whether the module in column x and row y of a finished symbol is dark. */
  ghost predicate ModuleDark(v: nat, e: nat, codewords: seq<bv8>, m: nat, x: int, y: int)
    requires VersionOk(v) && e < 4 && m < 8 && 0 <= x < SizeOf(v) && 0 <= y < SizeOf(v)
  {
    CellInside(SizeOf(v), x, y);
    Finished(v, e, codewords, m)[y * SizeOf(v) + x]
  }

  /** Rows and columns of the format information. */
  predicate FormatArea(n: int, x: int, y: int) {
    (y == 8 && x != 6 && (x < 9 || x >= n - 8)) || (x == 8 && y != 6 && (y < 9 || y >= n - 8))
  }

  lemma FormatCellInArea(n: nat, k: nat)
    requires SizeOk(n) && k < 31
    ensures FormatArea(n, FormatCell(n, k).0, FormatCell(n, k).1)
  {
  }

  lemma NotFormat(n: nat, x: nat, y: nat, k: nat, c: nat)
    requires SizeOk(n) && c % n == x && c / n == y && k < 31 && !FormatArea(n, x, y)
    ensures FormatIndex(n, k) != c
  {
    FormatCellInArea(n, k);
    var d := FormatCell(n, k);
    DivUnique(FormatIndex(n, k), n, d.1, d.0);
    hide FormatCell, FormatIndex;
  }

  lemma CellMasks(v: nat, c: nat, x: nat, y: nat)
    requires VersionOk(v) && c < SizeOf(v) * SizeOf(v) && c % SizeOf(v) == x && c / SizeOf(v) == y
    ensures FunctionMask(v)[c] == IsFunction(v, x, y)
    ensures forall g: seq<bool> :: |g| == SizeOf(v) * SizeOf(v) ==> LitGrid(v, g)[c] == Lit(v, g[c], x, y)
  {
    hide IsFunction, Lit;
  }

  lemma CellNotFormat(v: nat, x: nat, y: nat, c: nat)
    requires VersionOk(v) && SizeOk(SizeOf(v)) && SizeOf(v) > 0 && c % SizeOf(v) == x && c / SizeOf(v) == y
    ensures forall k :: 0 <= k < 31 && !FormatArea(SizeOf(v), x, y) ==> FormatIndex(SizeOf(v), k) != c
  {
    hide *;
    forall k | 0 <= k < 31 && !FormatArea(SizeOf(v), x, y) ensures FormatIndex(SizeOf(v), k) != c { NotFormat(SizeOf(v), x, y, k, c); }
  }

  lemma CellIndex(v: nat, x: nat, y: nat) returns (c: nat)
    requires VersionOk(v) && x < SizeOf(v) && y < SizeOf(v)
    ensures SizeOk(SizeOf(v)) && SizeOf(v) > 0 && c < SizeOf(v) * SizeOf(v) && c % SizeOf(v) == x && c / SizeOf(v) == y
    ensures c == y * SizeOf(v) + x
  {
    c := y * SizeOf(v) + x;
    CellInside(SizeOf(v), x, y);
    DivUnique(c, SizeOf(v), y, x);
  }

  lemma ModuleOfCell(v: nat, e: nat, codewords: seq<bv8>, m: nat, x: nat, y: nat, c: nat)
    requires VersionOk(v) && e < 4 && m < 8 && x < SizeOf(v) && y < SizeOf(v)
    requires SizeOk(SizeOf(v)) && c < SizeOf(v) * SizeOf(v) && c == y * SizeOf(v) + x
    ensures ModuleDark(v, e, codewords, m, x, y) == Finished(v, e, codewords, m)[c]
  {
    hide Finished;
  }

  /** The index c of a cell, with all that is known of it. */
  lemma CellFacts(v: nat, e: nat, codewords: seq<bv8>, m: nat, x: nat, y: nat) returns (c: nat)
    requires VersionOk(v) && e < 4 && m < 8 && x < SizeOf(v) && y < SizeOf(v)
    ensures SizeOk(SizeOf(v)) && c < SizeOf(v) * SizeOf(v) && FunctionMask(v)[c] == IsFunction(v, x, y)
    ensures ModuleDark(v, e, codewords, m, x, y) == Finished(v, e, codewords, m)[c]
    ensures forall g: seq<bool> :: |g| == SizeOf(v) * SizeOf(v) ==> LitGrid(v, g)[c] == Lit(v, g[c], x, y)
    ensures forall k :: 0 <= k < 31 && !FormatArea(SizeOf(v), x, y) ==> FormatIndex(SizeOf(v), k) != c
  {
    hide *;
    c := CellIndex(v, x, y);
    ModuleOfCell(v, e, codewords, m, x, y, c);
    CellMasks(v, c, x, y);
    CellNotFormat(v, x, y, c);
  }

  lemma DrawnMark(v: nat, codewords: seq<bv8>, c: nat)
    requires VersionOk(v) && SizeOk(SizeOf(v)) && c < SizeOf(v) * SizeOf(v) && FunctionMask(v)[c]
    ensures var n, f := SizeOf(v), FunctionMask(v); Drawn(n, f, f, codewords, Steps(n))[c]
  {
    hide FunctionMask, Drawn, Steps;
    MarkedUnchanged(SizeOf(v), FunctionMask(v), FunctionMask(v), codewords, Steps(SizeOf(v)), c);
  }

  lemma FinishedIs(v: nat, e: nat, codewords: seq<bv8>, m: nat)
    requires VersionOk(v) && e < 4 && m < 8
    ensures SizeOk(SizeOf(v)) && |Drawing(v, codewords)| == |FunctionMask(v)| == SizeOf(v) * SizeOf(v)
    ensures Finished(v, e, codewords, m) == Candidate(SizeOf(v), FunctionMask(v), Drawing(v, codewords), e, m)
    ensures var n, f := SizeOf(v), FunctionMask(v); Drawing(v, codewords) == LitGrid(v, Drawn(n, f, f, codewords, Steps(n)))
  {
    SizesOk(v);
    hide FunctionMask, LitGrid, Drawn, Steps, Candidate;
  }

  /** A function module outside the format information is what the light modules leave of a dark one. */
  lemma FunctionModule(v: nat, e: nat, codewords: seq<bv8>, m: nat, x: nat, y: nat)
    requires VersionOk(v) && e < 4 && m < 8 && x < SizeOf(v) && y < SizeOf(v)
    requires IsFunction(v, x, y) && !FormatArea(SizeOf(v), x, y)
    ensures ModuleDark(v, e, codewords, m, x, y) == Lit(v, true, x, y)
  {
    hide *;
    var n, f := SizeOf(v), FunctionMask(v);
    var c := CellFacts(v, e, codewords, m, x, y);
    FinishedIs(v, e, codewords, m);
    CandidateMarked(n, f, Drawing(v, codewords), e, m, c);
    DrawnMark(v, codewords, c);
  }

  // ---- Where alignment patterns are ----

  lemma AlignEnds(v: nat)
    requires VersionOk(v) && v > 1
    ensures 2 <= NumAlign(v) && AlignPos(v, 0) == 6 && AlignPos(v, NumAlign(v) - 1) == SizeOf(v) - 7
  {
  }

  lemma AlignFirst(v: nat)
    requires VersionOk(v) && 0 < NumAlign(v)
    ensures AlignPos(v, 0) == 6
  {
  }

  lemma AlignEven(v: nat, i: nat)
    requires VersionOk(v) && i < NumAlign(v)
    ensures AlignPos(v, i) % 2 == 0
  {
    if i > 0 { EvenLess(v * 4 + 10, NumAlign(v) - 1 - i, (v * 8 + NumAlign(v) * 3 + 5) / (NumAlign(v) * 4 - 4)); }
  }

  lemma EvenLess(p: int, k: int, h: int)
    requires p % 2 == 0
    ensures (p - k * (h * 2)) % 2 == 0
  {
    Associate(k, h, 2);
    DivUnique(p - k * (h * 2), 2, p / 2 - k * h, 0);
  }

  /** Near the upper or left border only the first position, near the others only the last. */
  lemma AlignNear(v: nat, i: nat, x: int)
    requires VersionOk(v) && i < NumAlign(v) && AlignPos(v, i) - 2 <= x <= AlignPos(v, i) + 2
    ensures x <= 15 ==> i == 0
    ensures x >= SizeOf(v) - 16 ==> i == NumAlign(v) - 1
    ensures 4 <= x <= SizeOf(v) - 5
  {
    AlignEnds(v);
    hide AlignPos, NumAlign;
    if i > 0 { AlignFar(v, 0, i); }
    if i < NumAlign(v) - 1 { AlignFar(v, i, NumAlign(v) - 1); }
  }

  lemma RingIndices(v: nat, x: int, y: int) returns (i: nat, j: nat)
    requires VersionOk(v) && RingsBefore(v, x, y, NumAlign(v), 0)
    ensures i < NumAlign(v) && j < NumAlign(v) && RingOf(v, x, y, i, j) && !Corner(v, i, j)
    ensures AlignPos(v, i) - 1 <= x <= AlignPos(v, i) + 1 && AlignPos(v, j) - 1 <= y <= AlignPos(v, j) + 1
  {
    hide AlignPos, NumAlign;
    i, j :| i < NumAlign(v) && j < NumAlign(v) && Earlier(i, j, NumAlign(v), 0) && RingOf(v, x, y, i, j);
  }

  /** No ring touches a finder pattern. */
  lemma NoRingInCorner(v: nat, x: int, y: int)
    requires VersionOk(v)
    requires (x <= 15 && y <= 15) || (x >= SizeOf(v) - 16 && y <= 15) || (x <= 15 && y >= SizeOf(v) - 16)
    ensures !RingsBefore(v, x, y, NumAlign(v), 0)
  {
    if RingsBefore(v, x, y, NumAlign(v), 0) {
      var i, j := RingIndices(v, x, y);
      AlignNear(v, i, x);
      AlignNear(v, j, y);
      hide AlignPos, NumAlign, RingsBefore;
    }
  }

  // ---- Finder patterns ----

  /** The upper left finder pattern and its separator. */
  const FINDER: seq<string> := [
    "#######.",
    "#.....#.",
    "#.###.#.",
    "#.###.#.",
    "#.###.#.",
    "#.....#.",
    "#######.",
    "........"]

  predicate FinderDark(x: nat, y: nat)
    requires x < 8 && y < 8
  {
    FINDER[y][x] == '#'
  }

  lemma FinderRow(x: nat, y: nat)
    requires x < 8 && y < 8
    ensures FinderDark(x, y) == !(Dist(x - 3, y - 3) == 2 || Dist(x - 3, y - 3) == 4)
  {
    match y case 0 => case 1 => case 2 => case 3 => case 4 => case 5 => case 6 => case _ =>
  }

  /** The distance does not change when a pattern is mirrored. */
  lemma DistMirror(a: int, b: int)
    ensures Dist(-a, b) == Dist(a, b) == Dist(a, -b)
  {
  }

  /** A light finder module by its distance from the three centres. */
  lemma FindersAre(n: nat, x: int, y: int)
    ensures FindersBefore(n, x, y, 5, -4)
       <==> (var a, b, c := Dist(x - 3, y - 3), Dist(x - (n - 4), y - 3), Dist(x - 3, y - (n - 4));
             a == 2 || a == 4 || b == 2 || b == 4 || c == 2 || c == 4)
  {
  }

  lemma FarFromCentre(a: int, b: int)
    requires a > 4 || a < -4 || b > 4 || b < -4
    ensures Dist(a, b) > 4
  {
  }

  lemma SeparatorLight(x: nat, y: nat)
    requires x < 8 && y < 8 && (x == 7 || y == 7)
    ensures !FinderDark(x, y)
  {
    FinderRow(x, y);
    hide FinderDark;
  }

  /** A module outside all rings and version blocks. */
  lemma LitPlain(v: nat, x: int, y: int)
    requires VersionOk(v) && !RingsBefore(v, x, y, NumAlign(v), 0) && (v < 7 || VersionIndex(SizeOf(v), x, y) == 18)
    ensures Lit(v, true, x, y) == !(FindersBefore(SizeOf(v), x, y, 5, -4) || TimingBefore(x, y, SizeOf(v) - 6))
  {
    hide RingsBefore, CentresBefore, FindersBefore, TimingBefore, VersionIndex, NumAlign, DigitOf, VersionBits;
  }

  /** Version blocks keep out of the finder corners, and timing patterns reach no further than the separators. */
  lemma CornerFacts(v: nat, x: nat, y: nat)
    requires VersionOk(v) && x < 8 && y < 8
    ensures var n := SizeOf(v);
            && n >= 21 && VersionIndex(n, x, y) == VersionIndex(n, n - 1 - x, y) == VersionIndex(n, x, n - 1 - y) == 18
            && (TimingBefore(x, y, n - 6) || TimingBefore(n - 1 - x, y, n - 6) || TimingBefore(x, n - 1 - y, n - 6) ==> x == 7 || y == 7)
  {
  }

  lemma FinderDistances(n: int, x: nat, y: nat)
    requires n >= 21 && x < 8 && y < 8
    ensures FindersBefore(n, x, y, 5, -4) == FindersBefore(n, n - 1 - x, y, 5, -4) == FindersBefore(n, x, n - 1 - y, 5, -4)
            == !FinderDark(x, y)
  {
    FinderRow(x, y);
    FindersAre(n, x, y);
    FindersAre(n, n - 1 - x, y);
    FindersAre(n, x, n - 1 - y);
    Mirrored(n, x, y);
    hide FinderDark, FindersBefore, Dist;
  }

  lemma Mirrored(n: int, x: nat, y: nat)
    requires n >= 21 && x < 8 && y < 8
    ensures Dist(n - 1 - x - (n - 4), y - 3) == Dist(x - 3, n - 1 - y - (n - 4)) == Dist(x - 3, y - 3)
    ensures Dist(x - (n - 4), y - 3) > 4 && Dist(x - 3, y - (n - 4)) > 4
    ensures Dist(n - 1 - x - 3, y - 3) > 4 && Dist(n - 1 - x - 3, y - (n - 4)) > 4
    ensures Dist(x - 3, n - 1 - y - 3) > 4 && Dist(x - (n - 4), n - 1 - y - 3) > 4
  {
    DistMirror(x - 3, y - 3);
    assert n - 1 - x - (n - 4) == -(x - 3) && n - 1 - y - (n - 4) == -(y - 3);
    FarFromCentre(x - (n - 4), y - 3);
    FarFromCentre(x - 3, y - (n - 4));
    FarFromCentre(n - 1 - x - 3, y - 3);
    FarFromCentre(n - 1 - x - 3, y - (n - 4));
    FarFromCentre(x - 3, n - 1 - y - 3);
    FarFromCentre(x - (n - 4), n - 1 - y - 3);
    hide Dist;
  }

  lemma FinderLeft(v: nat, x: nat, y: nat)
    requires VersionOk(v) && x < 8 && y < 8
    ensures Lit(v, true, x, y) == FinderDark(x, y)
  {
    hide *;
    CornerFacts(v, x, y);
    FinderDistances(SizeOf(v), x, y);
    NoRingInCorner(v, x, y);
    LitPlain(v, x, y);
    if x == 7 || y == 7 { SeparatorLight(x, y); }
  }

  lemma FinderRight(v: nat, x: nat, y: nat)
    requires VersionOk(v) && x < 8 && y < 8
    ensures Lit(v, true, SizeOf(v) - 1 - x, y) == FinderDark(x, y)
  {
    hide *;
    CornerFacts(v, x, y);
    FinderDistances(SizeOf(v), x, y);
    NoRingInCorner(v, SizeOf(v) - 1 - x, y);
    LitPlain(v, SizeOf(v) - 1 - x, y);
    if x == 7 || y == 7 { SeparatorLight(x, y); }
  }

  lemma FinderBelow(v: nat, x: nat, y: nat)
    requires VersionOk(v) && x < 8 && y < 8
    ensures Lit(v, true, x, SizeOf(v) - 1 - y) == FinderDark(x, y)
  {
    hide *;
    CornerFacts(v, x, y);
    FinderDistances(SizeOf(v), x, y);
    NoRingInCorner(v, x, SizeOf(v) - 1 - y);
    LitPlain(v, x, SizeOf(v) - 1 - y);
    if x == 7 || y == 7 { SeparatorLight(x, y); }
  }

  lemma FinderMarked(v: nat, x: nat, y: nat)
    requires VersionOk(v) && x < 8 && y < 8
    ensures var n := SizeOf(v);
            && n >= 21 && IsFunction(v, x, y) && !FormatArea(n, x, y) && IsFunction(v, n - 1 - x, y) && !FormatArea(n, n - 1 - x, y)
            && IsFunction(v, x, n - 1 - y) && !FormatArea(n, x, n - 1 - y)
  {
    hide Aligned;
  }

  /** The three finder patterns with their separators, mirrored into three corners. */
  lemma FinderFigure(v: nat, e: nat, codewords: seq<bv8>, m: nat, x: nat, y: nat)
    requires VersionOk(v) && e < 4 && m < 8 && x < 8 && y < 8
    ensures ModuleDark(v, e, codewords, m, x, y) == FinderDark(x, y)
    ensures ModuleDark(v, e, codewords, m, SizeOf(v) - 1 - x, y) == FinderDark(x, y)
    ensures ModuleDark(v, e, codewords, m, x, SizeOf(v) - 1 - y) == FinderDark(x, y)
  {
    hide *;
    FinderMarked(v, x, y);
    var n := SizeOf(v);
    FunctionModule(v, e, codewords, m, x, y);
    FinderLeft(v, x, y);
    FunctionModule(v, e, codewords, m, n - 1 - x, y);
    FinderRight(v, x, y);
    FunctionModule(v, e, codewords, m, x, n - 1 - y);
    FinderBelow(v, x, y);
  }

  // ---- Timing patterns ----

  /** Within the ring of pattern (i, j) only its centre is dark. */
  lemma CentreInRing(v: nat, x: int, y: int, i: nat, j: nat)
    requires VersionOk(v) && i < NumAlign(v) && j < NumAlign(v) && RingOf(v, x, y, i, j)
    ensures RingsBefore(v, x, y, NumAlign(v), 0)
    ensures CentresBefore(v, x, y, NumAlign(v), 0) <==> x == AlignPos(v, i) && y == AlignPos(v, j)
  {
    hide AlignPos, NumAlign;
    assert Earlier(i, j, NumAlign(v), 0);
    if CentresBefore(v, x, y, NumAlign(v), 0) {
      var a: nat, b: nat :| a < NumAlign(v) && b < NumAlign(v) && Earlier(a, b, NumAlign(v), 0) && CentreOf(v, x, y, a, b);
      RingOnce(v, x, y, i, j, a, b);
    }
    if x == AlignPos(v, i) && y == AlignPos(v, j) { assert CentreOf(v, x, y, i, j); }
  }

  lemma TimingRing(v: nat, x: int, i: nat, j: nat)
    requires VersionOk(v) && i < NumAlign(v) && j < NumAlign(v) && RingOf(v, x, 6, i, j)
    requires AlignPos(v, i) - 1 <= x <= AlignPos(v, i) + 1 && AlignPos(v, j) - 1 <= 6 <= AlignPos(v, j) + 1
    ensures CentresBefore(v, x, 6, NumAlign(v), 0) == (x % 2 == 0)
  {
    hide *;
    AlignNear(v, j, 6);
    AlignNear(v, i, x);
    AlignEven(v, i);
    AlignFirst(v);
    CentreInRing(v, x, 6, i, j);
  }

  lemma TimingRingColumn(v: nat, y: int, i: nat, j: nat)
    requires VersionOk(v) && i < NumAlign(v) && j < NumAlign(v) && RingOf(v, 6, y, i, j)
    requires AlignPos(v, i) - 1 <= 6 <= AlignPos(v, i) + 1 && AlignPos(v, j) - 1 <= y <= AlignPos(v, j) + 1
    ensures CentresBefore(v, 6, y, NumAlign(v), 0) == (y % 2 == 0)
  {
    hide *;
    AlignNear(v, i, 6);
    AlignNear(v, j, y);
    AlignEven(v, j);
    AlignFirst(v);
    CentreInRing(v, 6, y, i, j);
  }

  lemma NoVersionOnTiming(n: int, t: int)
    requires n >= 21 && 8 <= t < n - 8
    ensures VersionIndex(n, t, 6) == 18 && VersionIndex(n, 6, t) == 18
  {
  }

  lemma LitRing(v: nat, x: int, y: int)
    requires VersionOk(v) && RingsBefore(v, x, y, NumAlign(v), 0) && (v < 7 || VersionIndex(SizeOf(v), x, y) == 18)
    ensures Lit(v, true, x, y) == CentresBefore(v, x, y, NumAlign(v), 0)
  {
    hide RingsBefore, CentresBefore, FindersBefore, TimingBefore, VersionIndex, NumAlign, DigitOf, VersionBits;
  }

  lemma NoFinderOnTiming(n: int, t: int)
    requires n >= 21 && 8 <= t < n - 8
    ensures !FindersBefore(n, t, 6, 5, -4) && !FindersBefore(n, 6, t, 5, -4)
  {
    FindersAre(n, t, 6);
    FindersAre(n, 6, t);
    FarFromCentre(t - 3, 3);
    FarFromCentre(t - (n - 4), 3);
    FarFromCentre(t - 3, 6 - (n - 4));
    FarFromCentre(3, t - 3);
    FarFromCentre(6 - (n - 4), t - 3);
    FarFromCentre(3, t - (n - 4));
    hide FindersBefore, Dist;
  }

  lemma TimingAlternates(n: int, t: int)
    requires n >= 21 && 8 <= t < n - 8
    ensures TimingBefore(t, 6, n - 6) == (t % 2 == 1) && TimingBefore(6, t, n - 6) == (t % 2 == 1)
  {
  }

  lemma TimingLit(v: nat, t: int)
    requires VersionOk(v) && SizeOf(v) >= 21 && 8 <= t < SizeOf(v) - 8
    ensures Lit(v, true, t, 6) == (t % 2 == 0) && Lit(v, true, 6, t) == (t % 2 == 0)
  {
    hide *;
    var n := SizeOf(v);
    NoVersionOnTiming(n, t);
    NoFinderOnTiming(n, t);
    TimingAlternates(n, t);
    if RingsBefore(v, t, 6, NumAlign(v), 0) {
      var i, j := RingIndices(v, t, 6);
      TimingRing(v, t, i, j);
      LitRing(v, t, 6);
    } else {
      LitPlain(v, t, 6);
    }
    if RingsBefore(v, 6, t, NumAlign(v), 0) {
      var i, j := RingIndices(v, 6, t);
      TimingRingColumn(v, t, i, j);
      LitRing(v, 6, t);
    } else {
      LitPlain(v, 6, t);
    }
  }

  lemma TimingMarked(v: nat, t: int)
    requires VersionOk(v) && 8 <= t < SizeOf(v) - 8
    ensures SizeOf(v) >= 21 && IsFunction(v, t, 6) && IsFunction(v, 6, t)
    ensures !FormatArea(SizeOf(v), t, 6) && !FormatArea(SizeOf(v), 6, t)
  {
    hide Aligned;
  }

  /** The timing patterns in row 6 and column 6 alternate between the finder patterns, dark at even places. */
  lemma TimingFigure(v: nat, e: nat, codewords: seq<bv8>, m: nat, t: nat)
    requires VersionOk(v) && e < 4 && m < 8 && 8 <= t < SizeOf(v) - 8
    ensures ModuleDark(v, e, codewords, m, t, 6) == ModuleDark(v, e, codewords, m, 6, t) == (t % 2 == 0)
  {
    hide *;
    TimingMarked(v, t);
    FunctionModule(v, e, codewords, m, t, 6);
    FunctionModule(v, e, codewords, m, 6, t);
    TimingLit(v, t);
  }

  // ---- Alignment patterns ----

  const ALIGNMENT: seq<string> := [
    "#####",
    "#...#",
    "#.#.#",
    "#...#",
    "#####"]

  predicate AlignmentDark(dx: int, dy: int)
    requires -2 <= dx <= 2 && -2 <= dy <= 2
  {
    ALIGNMENT[dy + 2][dx + 2] == '#'
  }

  lemma AlignmentRow(dx: int, dy: int)
    requires -2 <= dx <= 2 && -2 <= dy <= 2
    ensures AlignmentDark(dx, dy) == ((dx == 0 && dy == 0) || dx == -2 || dx == 2 || dy == -2 || dy == 2)
  {
    match dy + 2 case 0 => case 1 => case 2 => case 3 => case _ =>
  }

  /** Two positions within four modules of each other are one. */
  lemma AlignClose(v: nat, i: nat, a: nat)
    requires VersionOk(v) && i < NumAlign(v) && a < NumAlign(v) && -11 <= AlignPos(v, i) - AlignPos(v, a) <= 11
    ensures i == a
  {
    hide AlignPos, NumAlign;
    if i < a { AlignFar(v, i, a); }
    if a < i { AlignFar(v, a, i); }
  }

  lemma OutsideRings(v: nat, i: nat, j: nat, x: int, y: int)
    requires VersionOk(v) && i < NumAlign(v) && j < NumAlign(v)
    requires -2 <= x - AlignPos(v, i) <= 2 && -2 <= y - AlignPos(v, j) <= 2
    requires !(-1 <= x - AlignPos(v, i) <= 1 && -1 <= y - AlignPos(v, j) <= 1)
    ensures !RingsBefore(v, x, y, NumAlign(v), 0)
  {
    hide *;
    if RingsBefore(v, x, y, NumAlign(v), 0) {
      var a, b := RingIndices(v, x, y);
      AlignClose(v, i, a);
      AlignClose(v, j, b);
    }
  }

  /** Patterns away from the corners keep away from everything but the timing patterns. */
  lemma AlignmentApart(v: nat, i: nat, j: nat, x: int, y: int)
    requires VersionOk(v) && i < NumAlign(v) && j < NumAlign(v) && !Corner(v, i, j)
    requires -2 <= x - AlignPos(v, i) <= 2 && -2 <= y - AlignPos(v, j) <= 2
    ensures var n := SizeOf(v);
            && 4 <= x < n - 4 && 4 <= y < n - 4 && !(x < 16 && y < 16) && !(x >= n - 16 && y < 16) && !(x < 16 && y >= n - 16)
  {
    AlignNear(v, i, x);
    AlignNear(v, j, y);
    hide AlignPos, NumAlign;
  }

  lemma ApartPlain(n: int, x: int, y: int)
    requires n >= 21 && 4 <= x < n - 4 && 4 <= y < n - 4
    requires !(x < 16 && y < 16) && !(x >= n - 16 && y < 16) && !(x < 16 && y >= n - 16)
    ensures !FindersBefore(n, x, y, 5, -4) && VersionIndex(n, x, y) == 18 && !FormatArea(n, x, y)
  {
    FindersAre(n, x, y);
    FarFromCentre(x - 3, y - 3);
    FarFromCentre(x - (n - 4), y - 3);
    FarFromCentre(x - 3, y - (n - 4));
    hide FindersBefore, Dist;
  }

  lemma EvenOffset(a: int, d: int)
    requires a % 2 == 0 && (d == -2 || d == 2)
    ensures (a + d) % 2 == 0
  {
  }

  /** On the edge of a pattern the timing patterns are dark. */
  lemma EdgeTiming(v: nat, i: nat, j: nat, dx: int, dy: int)
    requires VersionOk(v) && i < NumAlign(v) && j < NumAlign(v) && -2 <= dx <= 2 && -2 <= dy <= 2
    requires dx == -2 || dx == 2 || dy == -2 || dy == 2
    ensures !TimingBefore(AlignPos(v, i) + dx, AlignPos(v, j) + dy, SizeOf(v) - 6)
  {
    AlignEven(v, i);
    AlignEven(v, j);
    AlignNear(v, i, AlignPos(v, i) + dx);
    AlignNear(v, j, AlignPos(v, j) + dy);
    AlignEnds(v);
    hide AlignPos, NumAlign;
    if dx == -2 || dx == 2 { EvenOffset(AlignPos(v, i), dx); }
    if dy == -2 || dy == 2 { EvenOffset(AlignPos(v, j), dy); }
  }

  lemma AlignmentMarked(v: nat, i: nat, j: nat, x: int, y: int)
    requires VersionOk(v) && i < NumAlign(v) && j < NumAlign(v) && !Corner(v, i, j)
    requires -2 <= x - AlignPos(v, i) <= 2 && -2 <= y - AlignPos(v, j) <= 2
    ensures SizeOf(v) >= 21 && IsFunction(v, x, y)
    ensures -1 <= x - AlignPos(v, i) <= 1 && -1 <= y - AlignPos(v, j) <= 1 ==> RingOf(v, x, y, i, j)
  {
    hide AlignPos, NumAlign;
    assert AlignCovers(v, x, y, i, j);
  }

  lemma AlignmentLit(v: nat, i: nat, j: nat, dx: int, dy: int)
    requires VersionOk(v) && i < NumAlign(v) && j < NumAlign(v) && !Corner(v, i, j) && -2 <= dx <= 2 && -2 <= dy <= 2
    ensures Lit(v, true, AlignPos(v, i) + dx, AlignPos(v, j) + dy) == AlignmentDark(dx, dy)
  {
    hide *;
    var n, x, y := SizeOf(v), AlignPos(v, i) + dx, AlignPos(v, j) + dy;
    AlignmentRow(dx, dy);
    AlignmentApart(v, i, j, x, y);
    AlignmentMarked(v, i, j, x, y);
    ApartPlain(n, x, y);
    if -1 <= dx <= 1 && -1 <= dy <= 1 {
      CentreInRing(v, x, y, i, j);
      LitRing(v, x, y);
    } else {
      OutsideRings(v, i, j, x, y);
      LitPlain(v, x, y);
      EdgeTiming(v, i, j, dx, dy);
    }
  }

  /** The alignment pattern around every pair of positions except the three in finder corners. */
  lemma AlignmentFigure(v: nat, e: nat, codewords: seq<bv8>, m: nat, i: nat, j: nat, dx: int, dy: int)
    requires VersionOk(v) && e < 4 && m < 8 && i < NumAlign(v) && j < NumAlign(v) && !Corner(v, i, j)
    requires -2 <= dx <= 2 && -2 <= dy <= 2
    ensures 0 <= AlignPos(v, i) + dx < SizeOf(v) && 0 <= AlignPos(v, j) + dy < SizeOf(v)
    ensures ModuleDark(v, e, codewords, m, AlignPos(v, i) + dx, AlignPos(v, j) + dy) == AlignmentDark(dx, dy)
  {
    hide *;
    var n, x, y := SizeOf(v), AlignPos(v, i) + dx, AlignPos(v, j) + dy;
    AlignmentApart(v, i, j, x, y);
    AlignmentMarked(v, i, j, x, y);
    ApartPlain(n, x, y);
    FunctionModule(v, e, codewords, m, x, y);
    AlignmentLit(v, i, j, dx, dy);
  }

  // ---- Version information ----

  lemma VersionCell(v: nat, k: nat)
    requires VersionOk(v) && v >= 7 && k < 18
    ensures var n, a, b := SizeOf(v), SizeOf(v) - 11 + k % 3, k / 3;
            && n >= 45 && 0 <= a < n && b < n && VersionIndex(n, a, b) == k && VersionIndex(n, b, a) == k
            && IsFunction(v, a, b) && IsFunction(v, b, a) && !FormatArea(n, a, b) && !FormatArea(n, b, a)
            && Lit(v, true, a, b) == Lit(v, true, b, a) == DigitOf(VersionBits(v), k)
  {
    Euclid(k, 3);
    hide Aligned, DigitOf, VersionBits, RingsBefore, CentresBefore, FindersBefore, TimingBefore;
  }

  /** From version 7 on: bit k of the version word in column size - 11 + k % 3 of row k / 3, and mirrored. */
  lemma VersionFigure(v: nat, e: nat, codewords: seq<bv8>, m: nat, k: nat)
    requires VersionOk(v) && v >= 7 && e < 4 && m < 8 && k < 18
    ensures 0 <= SizeOf(v) - 11 + k % 3 < SizeOf(v) && 0 <= k / 3 < SizeOf(v)
    ensures ModuleDark(v, e, codewords, m, SizeOf(v) - 11 + k % 3, k / 3) == DigitOf(VersionBits(v), k)
    ensures ModuleDark(v, e, codewords, m, k / 3, SizeOf(v) - 11 + k % 3) == DigitOf(VersionBits(v), k)
  {
    hide *;
    VersionCell(v, k);
    FunctionModule(v, e, codewords, m, SizeOf(v) - 11 + k % 3, k / 3);
    FunctionModule(v, e, codewords, m, k / 3, SizeOf(v) - 11 + k % 3);
  }

  // ---- Format information ----

  lemma FormatModule(v: nat, e: nat, codewords: seq<bv8>, m: nat, k: nat)
    requires VersionOk(v) && e < 4 && m < 8 && k < 31 && SizeOk(SizeOf(v))
    ensures var c := FormatCell(SizeOf(v), k); ModuleDark(v, e, codewords, m, c.0, c.1) == FormatValue(FormatBits(e, m), k)
  {
    var n := SizeOf(v);
    FinishedIs(v, e, codewords, m);
    FormattedAt(n, Masked(n, FunctionMask(v), Drawing(v, codewords), m), FormatBits(e, m), k, 31);
    hide Formatted, Masked, FunctionMask, Drawing, FormatBits, FormatCell, FormatValue, Finished;
  }

  lemma SizeLarge(v: nat)
    requires VersionOk(v)
    ensures SizeOf(v) >= 21
  {
  }

  lemma FormatCells(n: nat, i: nat, bits: bv16)
    requires i < 15
    ensures SizeOk(n) ==> FormatCell(n, i) == (if i < 8 then 8 else if i == 8 then 7 else 14 - i, if i < 6 then i else if i < 8 then i + 1 else 8)
    ensures SizeOk(n) ==> FormatCell(n, 15 + i) == (if i < 8 then n - 1 - i else 8, if i < 8 then 8 else n - 15 + i)
    ensures SizeOk(n) ==> FormatCell(n, 30) == (8, n - 8)
    ensures FormatValue(bits, i) == FormatValue(bits, 15 + i) == FormatBit(bits, i) && FormatValue(bits, 30)
  {
    hide FormatBit;
  }

  /**
   The two copies of the format word, lowest bit first. One runs down column 8 from the top and then along row 8 to the left,
   leaving out column and row 6; the other along row 8 from the right and then down column 8. One module is always dark.
   */
  lemma FormatFigure(v: nat, e: nat, codewords: seq<bv8>, m: nat, i: nat)
    requires VersionOk(v) && e < 4 && m < 8 && i < 15
    ensures SizeOf(v) >= 21
    ensures var x, y := if i < 8 then 8 else if i == 8 then 7 else 14 - i, if i < 6 then i else if i < 8 then i + 1 else 8;
            ModuleDark(v, e, codewords, m, x, y) == FormatBit(FormatBits(e, m), i)
    ensures var x, y := if i < 8 then SizeOf(v) - 1 - i else 8, if i < 8 then 8 else SizeOf(v) - 15 + i;
            ModuleDark(v, e, codewords, m, x, y) == FormatBit(FormatBits(e, m), i)
    ensures ModuleDark(v, e, codewords, m, 8, SizeOf(v) - 8)
  {
    hide *;
    FormatCells(SizeOf(v), i, FormatBits(e, m));
    SizesOk(v);
    SizeLarge(v);
    FormatModule(v, e, codewords, m, i);
    FormatModule(v, e, codewords, m, 15 + i);
    FormatModule(v, e, codewords, m, 30);
  }

  // ---- Codewords ----

  /** The cell of step t after the whole scan: the bit drawn there, or light where bits have run out. */
  lemma DrawnCell(n: nat, f: seq<bool>, codewords: seq<bv8>, t: nat)
    requires SizeOk(n) && |f| == n * n && t < Steps(n) && !f[Visited(n, t)]
    ensures Drawn(n, f, f, codewords, Steps(n))[Visited(n, t)] == (Filled(n, f, t) < 8 * |codewords| && BitOf(codewords, Filled(n, f, t)))
  {
    StaysDrawn(n, f, f, codewords, t, Steps(n));
    hide Visited, Filled, BitOf, Steps, Drawn;
    if !Writes(n, f, codewords, t) { NeverDrawn(n, f, f, codewords, t, Steps(n)); }
  }

  lemma MaskedCell(n: nat, f: seq<bool>, g: seq<bool>, e: nat, m: nat, c: nat, x: nat, y: nat)
    requires SizeOk(n) && |f| == |g| == n * n && e < 4 && m < 8 && FormatInside(n, f) && c < n * n && !f[c]
    requires c % n == x && c / n == y
    ensures Candidate(n, f, g, e, m)[c] == (g[c] != TileDark(m, x, y))
  {
    PatternIsTile(m, x, y);
    FormatUnmarked(n, f, Masked(n, f, g, m), FormatBits(e, m), 31);
    hide Formatted, FormatBits, FormatInside, Invert, TileDark;
  }

  lemma LitCell(v: nat, g: seq<bool>, c: nat)
    requires VersionOk(v) && |g| == SizeOf(v) * SizeOf(v) && c < |g| && !FunctionMask(v)[c]
    ensures LitGrid(v, g)[c] == g[c]
  {
    hide FunctionMask, LitGrid;
    LitSame(v, g);
  }

  /**
   The module that step t of the scan visits, if it is not a function module: the k-th bit of the codewords, where k counts the
   modules of this kind before it, exclusive-or the pattern of the mask. Where bits have run out the pattern stands alone.
   */
  lemma CodewordFigure(v: nat, e: nat, codewords: seq<bv8>, m: nat, t: nat)
    requires VersionOk(v) && e < 4 && m < 8 && SizeOk(SizeOf(v)) && t < Steps(SizeOf(v))
    requires !FunctionMask(v)[Visited(SizeOf(v), t)]
    ensures ColumnAt(SizeOf(v), t) < SizeOf(v) && RowAt(SizeOf(v), t) < SizeOf(v)
    ensures var n, k := SizeOf(v), Filled(SizeOf(v), FunctionMask(v), t);
            ModuleDark(v, e, codewords, m, ColumnAt(n, t), RowAt(n, t))
            == ((k < 8 * |codewords| && BitOf(codewords, k)) != TileDark(m, ColumnAt(n, t), RowAt(n, t)))
  {
    hide *;
    var n, f := SizeOf(v), FunctionMask(v);
    var c := Visited(n, t);
    PlaceOfStep(n, t);
    FinishedIs(v, e, codewords, m);
    FunctionMaskFormat(v);
    ModuleOfCell(v, e, codewords, m, ColumnAt(n, t), RowAt(n, t), c);
    MaskedCell(n, f, Drawing(v, codewords), e, m, c, ColumnAt(n, t), RowAt(n, t));
    LitCell(v, Drawn(n, f, f, codewords, Steps(n)), c);
    DrawnCell(n, f, codewords, t);
  }

  lemma PlaceOfStep(n: nat, t: nat)
    requires SizeOk(n) && t < Steps(n)
    ensures ColumnAt(n, t) == Visited(n, t) % n && RowAt(n, t) == Visited(n, t) / n
    ensures ColumnAt(n, t) < n && RowAt(n, t) < n && Visited(n, t) == RowAt(n, t) * n + ColumnAt(n, t)
  {
    var c := Visited(n, t);
    assert ColumnAt(n, t) == c % n && RowAt(n, t) == c / n;
    hide *;
    RowOfCell(c, n);
    Euclid(c, n);
  }

  // ---- Nothing else is a function module ----

  predicate InFinder(n: int, x: int, y: int) {
    (x < 8 && y < 8) || (x >= n - 8 && y < 8) || (x < 8 && y >= n - 8)
  }

  predicate InTiming(n: int, x: int, y: int) {
    (y == 6 && 8 <= x < n - 8) || (x == 6 && 8 <= y < n - 8)
  }

  predicate InVersion(n: int, x: int, y: int) {
    (n - 11 <= x < n - 8 && 0 <= y < 6) || (0 <= x < 6 && n - 11 <= y < n - 8)
  }

  /** The figures above cover the function modules and nothing else. */
  lemma FunctionAreas(v: nat, x: nat, y: nat)
    requires VersionOk(v) && x < SizeOf(v) && y < SizeOf(v)
    ensures var n := SizeOf(v);
            IsFunction(v, x, y) <==> InFinder(n, x, y) || InTiming(n, x, y) || FormatArea(n, x, y) || Aligned(v, x, y)
                                     || (v >= 7 && InVersion(n, x, y))
  {
    hide Aligned;
  }
}
