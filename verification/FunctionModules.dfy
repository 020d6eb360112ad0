/** Marking the function modules: initializeFunctionModules of qrcodegen.c. */
module FunctionModules {
  import opened Arithmetic
  import opened Grid

  predicate VersionOk(v: int) {
    1 <= v <= 40
  }

  function SizeOf(v: nat): nat {
    4 * v + 17
  }

  // ---- Alignment pattern positions ----

  function NumAlign(v: nat): nat {
    if v == 1 then 0 else v / 7 + 2
  }

  function AlignStep(v: nat): nat
    requires VersionOk(v) && v > 1
  {
    (v * 8 + NumAlign(v) * 3 + 5) / (NumAlign(v) * 4 - 4) * 2
  }

  /** Centre of alignment pattern row or column i. */
  function AlignPos(v: nat, i: nat): int
    requires VersionOk(v) && i < NumAlign(v)
  {
    if i == 0 then 6 else v * 4 + 10 - (NumAlign(v) - 1 - i) * AlignStep(v)
  }

  /** Half a step, for a + 2 pattern rows. */
  lemma HalfStepRange(v: nat, a: nat, s: int)
    requires 7 * a <= v < 7 * a + 7 && 1 < v <= 40 && s == (8 * v + 3 * a + 11) / (4 * a + 4)
    ensures s >= 6 && a * (2 * s) <= 4 * v - 8
  {
    Euclid(8 * v + 3 * a + 11, 4 * a + 4);
    if a == 0 {} else if a == 1 {} else if a == 2 {} else if a == 3 {} else if a == 4 {} else {}
  }

  lemma StepRange(v: nat)
    requires VersionOk(v) && v > 1
    ensures AlignStep(v) >= 12 && (NumAlign(v) - 2) * AlignStep(v) <= 4 * v - 8
  {
    Euclid(v, 7);
    HalfStepRange(v, v / 7, (8 * v + 3 * (v / 7) + 11) / (4 * (v / 7) + 4));
  }

  /** Alignment patterns stay inside the grid. */
  lemma AlignInside(v: nat, i: nat)
    requires VersionOk(v) && i < NumAlign(v)
    ensures 2 <= AlignPos(v, i) <= SizeOf(v) - 3
  {
    if i > 0 {
      StepRange(v);
      ProductBetween(NumAlign(v) - 2, NumAlign(v) - 1 - i, AlignStep(v));
    }
  }

  lemma ProductBetween(a: int, m: int, s: int)
    requires 0 <= m <= a && s >= 0
    ensures 0 <= m * s <= a * s
  {
    MulNonNegative(m, s);
    MulMonotone(m, a, s);
  }

  /** getAlignmentPatternPositions. */
  method GetAlignmentPatternPositions(v: nat, result: array<int>) returns (numAlign: nat)
    requires VersionOk(v) && result.Length == 7
    modifies result
    ensures numAlign == NumAlign(v) <= 7
    ensures forall i :: 0 <= i < numAlign ==> result[i] == AlignPos(v, i)
  {
    if v == 1 {
      return 0;
    }
    numAlign := v / 7 + 2;
    var step := (v * 8 + numAlign * 3 + 5) / (numAlign * 4 - 4) * 2;
    var i, pos := numAlign - 1, v * 4 + 10;
    while i >= 1
      invariant 0 <= i < numAlign && pos == v * 4 + 10 - (numAlign - 1 - i) * step
      invariant forall k :: i < k < numAlign ==> result[k] == AlignPos(v, k)
    {
      result[i] := pos;
      assert (numAlign - 1 - (i - 1)) * step == (numAlign - 1 - i) * step + step;
      i, pos := i - 1, pos - step;
    }
    result[0] := 6;
  }

  // ---- The positions as a table ----

  /** Centres of the alignment patterns: table E.1 of ISO/IEC 18004. */
  function AlignTable(v: nat): seq<int> {
    match v
    case 1 => [] case 2 => [6, 18] case 3 => [6, 22] case 4 => [6, 26] case 5 => [6, 30] case 6 => [6, 34]
    case 7 => [6, 22, 38] case 8 => [6, 24, 42] case 9 => [6, 26, 46] case 10 => [6, 28, 50] case 11 => [6, 30, 54]
    case 12 => [6, 32, 58] case 13 => [6, 34, 62] case 14 => [6, 26, 46, 66] case 15 => [6, 26, 48, 70]
    case 16 => [6, 26, 50, 74] case 17 => [6, 30, 54, 78] case 18 => [6, 30, 56, 82] case 19 => [6, 30, 58, 86]
    case 20 => [6, 34, 62, 90] case 21 => [6, 28, 50, 72, 94] case 22 => [6, 26, 50, 74, 98]
    case 23 => [6, 30, 54, 78, 102] case 24 => [6, 28, 54, 80, 106] case 25 => [6, 32, 58, 84, 110]
    case 26 => [6, 30, 58, 86, 114] case 27 => [6, 34, 62, 90, 118] case 28 => [6, 26, 50, 74, 98, 122]
    case 29 => [6, 30, 54, 78, 102, 126] case 30 => [6, 26, 52, 78, 104, 130] case 31 => [6, 30, 56, 82, 108, 134]
    case 32 => [6, 34, 60, 86, 112, 138] case 33 => [6, 30, 58, 86, 114, 142] case 34 => [6, 34, 62, 90, 118, 146]
    case 35 => [6, 30, 54, 78, 102, 126, 150] case 36 => [6, 24, 50, 76, 102, 128, 154]
    case 37 => [6, 28, 54, 80, 106, 132, 158] case 38 => [6, 32, 58, 84, 110, 136, 162]
    case 39 => [6, 26, 54, 82, 110, 138, 166] case 40 => [6, 30, 58, 86, 114, 142, 170] case _ => []
  }

  lemma AlignStepIs(v: nat, a: int, h: int)
    requires VersionOk(v) && v > 1 && a == v / 7 + 2 && (4 * a - 4) * h <= 8 * v + 3 * a + 5 < (4 * a - 4) * h + (4 * a - 4)
    ensures NumAlign(v) == a && AlignStep(v) == 2 * h
  {
    DivUnique(8 * v + 3 * a + 5, 4 * a - 4, h, 8 * v + 3 * a + 5 - (4 * a - 4) * h);
  }

  /** The positions counted from the last one back. */
  lemma AlignBack(v: nat)
    requires VersionOk(v) && v > 1
    ensures var a, p, s := NumAlign(v), 4 * v + 10, AlignStep(v);
            && 2 <= a <= 7 && AlignPos(v, 0) == 6 && AlignPos(v, a - 1) == p
            && (a > 2 ==> AlignPos(v, a - 2) == p - s) && (a > 3 ==> AlignPos(v, a - 3) == p - 2 * s)
            && (a > 4 ==> AlignPos(v, a - 4) == p - 3 * s) && (a > 5 ==> AlignPos(v, a - 5) == p - 4 * s)
            && (a > 6 ==> AlignPos(v, a - 6) == p - 5 * s)
  {
    hide AlignStep;
  }

  lemma AlignTable0(v: nat)
    requires 2 <= v <= 9
    ensures |AlignTable(v)| == NumAlign(v)
    ensures forall i :: 0 <= i < NumAlign(v) ==> AlignPos(v, i) == AlignTable(v)[i]
  {
    AlignBack(v);
    hide AlignPos, AlignStep, NumAlign;
    match v
    case 2 => AlignStepIs(2, 2, 6); case 3 => AlignStepIs(3, 2, 8); case 4 => AlignStepIs(4, 2, 10); case 5 => AlignStepIs(5, 2, 12);
    case 6 => AlignStepIs(6, 2, 14); case 7 => AlignStepIs(7, 3, 8); case 8 => AlignStepIs(8, 3, 9); case _ => AlignStepIs(9, 3, 10);
  }

  lemma AlignTable1(v: nat)
    requires 10 <= v <= 14
    ensures |AlignTable(v)| == NumAlign(v)
    ensures forall i :: 0 <= i < NumAlign(v) ==> AlignPos(v, i) == AlignTable(v)[i]
  {
    AlignBack(v);
    hide AlignPos, AlignStep, NumAlign;
    match v
    case 10 => AlignStepIs(10, 3, 11); case 11 => AlignStepIs(11, 3, 12); case 12 => AlignStepIs(12, 3, 13);
    case 13 => AlignStepIs(13, 3, 14); case _ => AlignStepIs(14, 4, 10);
  }

  lemma AlignTable2(v: nat)
    requires 15 <= v <= 19
    ensures |AlignTable(v)| == NumAlign(v)
    ensures forall i :: 0 <= i < NumAlign(v) ==> AlignPos(v, i) == AlignTable(v)[i]
  {
    AlignBack(v);
    hide AlignPos, AlignStep, NumAlign;
    match v
    case 15 => AlignStepIs(15, 4, 11); case 16 => AlignStepIs(16, 4, 12); case 17 => AlignStepIs(17, 4, 12);
    case 18 => AlignStepIs(18, 4, 13); case _ => AlignStepIs(19, 4, 14);
  }

  lemma AlignTable3(v: nat)
    requires 20 <= v <= 23
    ensures |AlignTable(v)| == NumAlign(v)
    ensures forall i :: 0 <= i < NumAlign(v) ==> AlignPos(v, i) == AlignTable(v)[i]
  {
    AlignBack(v);
    hide AlignPos, AlignStep, NumAlign;
    match v
    case 20 => AlignStepIs(20, 4, 14); case 21 => AlignStepIs(21, 5, 11); case 22 => AlignStepIs(22, 5, 12);
    case _ => AlignStepIs(23, 5, 12);
  }

  lemma AlignTable4(v: nat)
    requires 24 <= v <= 27
    ensures |AlignTable(v)| == NumAlign(v)
    ensures forall i :: 0 <= i < NumAlign(v) ==> AlignPos(v, i) == AlignTable(v)[i]
  {
    AlignBack(v);
    hide AlignPos, AlignStep, NumAlign;
    match v
    case 24 => AlignStepIs(24, 5, 13); case 25 => AlignStepIs(25, 5, 13); case 26 => AlignStepIs(26, 5, 14);
    case _ => AlignStepIs(27, 5, 14);
  }

  lemma AlignTable5(v: nat)
    requires 28 <= v <= 31
    ensures |AlignTable(v)| == NumAlign(v)
    ensures forall i :: 0 <= i < NumAlign(v) ==> AlignPos(v, i) == AlignTable(v)[i]
  {
    AlignBack(v);
    hide AlignPos, AlignStep, NumAlign;
    match v
    case 28 => AlignStepIs(28, 6, 12); case 29 => AlignStepIs(29, 6, 12); case 30 => AlignStepIs(30, 6, 13);
    case _ => AlignStepIs(31, 6, 13);
  }

  lemma AlignTable6(v: nat)
    requires 32 <= v <= 34
    ensures |AlignTable(v)| == NumAlign(v)
    ensures forall i :: 0 <= i < NumAlign(v) ==> AlignPos(v, i) == AlignTable(v)[i]
  {
    AlignBack(v);
    hide AlignPos, AlignStep, NumAlign;
    match v
    case 32 => AlignStepIs(32, 6, 13); case 33 => AlignStepIs(33, 6, 14); case _ => AlignStepIs(34, 6, 14);
  }

  lemma AlignTable7(v: nat)
    requires 35 <= v <= 36
    ensures |AlignTable(v)| == NumAlign(v)
    ensures forall i :: 0 <= i < NumAlign(v) ==> AlignPos(v, i) == AlignTable(v)[i]
  {
    AlignBack(v);
    hide AlignPos, AlignStep, NumAlign;
    match v
    case 35 => AlignStepIs(35, 7, 12); case _ => AlignStepIs(36, 7, 13);
  }

  lemma AlignTable8(v: nat)
    requires 37 <= v <= 38
    ensures |AlignTable(v)| == NumAlign(v)
    ensures forall i :: 0 <= i < NumAlign(v) ==> AlignPos(v, i) == AlignTable(v)[i]
  {
    AlignBack(v);
    hide AlignPos, AlignStep, NumAlign;
    match v
    case 37 => AlignStepIs(37, 7, 13); case _ => AlignStepIs(38, 7, 13);
  }

  lemma AlignTable9(v: nat)
    requires 39 <= v <= 40
    ensures |AlignTable(v)| == NumAlign(v)
    ensures forall i :: 0 <= i < NumAlign(v) ==> AlignPos(v, i) == AlignTable(v)[i]
  {
    AlignBack(v);
    hide AlignPos, AlignStep, NumAlign;
    match v
    case 39 => AlignStepIs(39, 7, 14); case _ => AlignStepIs(40, 7, 14);
  }

  /** For all versions the computed positions are those of the table. */
  lemma AlignPositions(v: nat)
    requires VersionOk(v)
    ensures |AlignTable(v)| == NumAlign(v) && forall i :: 0 <= i < NumAlign(v) ==> AlignPos(v, i) == AlignTable(v)[i]
  {
    hide NumAlign, AlignPos, AlignTable;
    if v == 1 { NoAlign(); } else if v <= 9 { AlignTable0(v); } else if v <= 14 { AlignTable1(v); } else if v <= 19 { AlignTable2(v); }
    else if v <= 23 { AlignTable3(v); } else if v <= 27 { AlignTable4(v); } else if v <= 31 { AlignTable5(v); }
    else if v <= 34 { AlignTable6(v); } else if v <= 36 { AlignTable7(v); } else if v <= 38 { AlignTable8(v); } else { AlignTable9(v); }
  }

  lemma NoAlign()
    ensures NumAlign(1) == 0 && AlignTable(1) == []
  {
  }

  // ---- The marks ----

  predicate InRect(x: int, y: int, left: int, top: int, width: int, height: int) {
    left <= x < left + width && top <= y < top + height
  }

  /** The alignment pattern with indices i and j covers (x, y); the three finder corners have none. */
  predicate AlignCovers(v: nat, x: int, y: int, i: nat, j: nat)
    requires VersionOk(v) && i < NumAlign(v) && j < NumAlign(v)
  {
    var last := NumAlign(v) - 1;
    !((i == 0 && j == 0) || (i == 0 && j == last) || (i == last && j == 0))
    && InRect(x, y, AlignPos(v, i) - 2, AlignPos(v, j) - 2, 5, 5)
  }

  /** Some alignment pattern covers (x, y). */
  ghost predicate Aligned(v: nat, x: int, y: int)
    requires VersionOk(v)
  {
    exists i: nat, j: nat :: i < NumAlign(v) && j < NumAlign(v) && AlignCovers(v, x, y, i, j)
  }

  /** Timing patterns, finder patterns with format bits, alignment patterns and version blocks. */
  ghost predicate IsFunction(v: nat, x: int, y: int)
    requires VersionOk(v)
  {
    var n := SizeOf(v);
    || x == 6 || y == 6
    || InRect(x, y, 0, 0, 9, 9) || InRect(x, y, n - 8, 0, 8, 9) || InRect(x, y, 0, n - 8, 9, 8)
    || Aligned(v, x, y)
    || (v >= 7 && (InRect(x, y, n - 11, 0, 3, 6) || InRect(x, y, 0, n - 11, 6, 3)))
  }

  ghost function FunctionMask(v: nat): (f: seq<bool>)
    requires VersionOk(v)
    ensures |f| == SizeOf(v) * SizeOf(v)
  {
    seq(SizeOf(v) * SizeOf(v), c requires 0 <= c < SizeOf(v) * SizeOf(v) => IsFunction(v, c % SizeOf(v), c / SizeOf(v)))
  }

  lemma MaskCellIs(v: nat, x: nat, y: nat)
    requires VersionOk(v) && x < SizeOf(v) && y < SizeOf(v)
    ensures y * SizeOf(v) + x < |FunctionMask(v)| && (FunctionMask(v)[y * SizeOf(v) + x] <==> IsFunction(v, x, y))
  {
    hide IsFunction;
    var n := SizeOf(v);
    CellInside(n, x, y);
    DivUnique(y * n + x, n, y, x);
  }

  /** The grid was with a rectangle filled in. */
  ghost predicate FilledIn(n: nat, was: seq<bool>, g: seq<bool>, left: int, top: int, width: int, height: int) {
    n > 0 && |was| == |g| == n * n
    && forall c :: 0 <= c < n * n ==> (g[c] <==> was[c] || InRect(c % n, c / n, left, top, width, height))
  }

  /** The first dy rows of the rectangle and dx cells of the next one are filled in. */
  ghost predicate PartlyFilled(n: nat, was: seq<bool>, g: seq<bool>, left: int, top: int, width: int, dy: int, dx: int) {
    n > 0 && |was| == |g| == n * n
    && forall c :: 0 <= c < n * n ==>
      (g[c] <==> was[c] || InRect(c % n, c / n, left, top, width, dy) || InRect(c % n, c / n, left, top + dy, dx, 1))
  }

  lemma FillCell(n: nat, was: seq<bool>, g: seq<bool>, left: int, top: int, width: int, dy: nat, dx: nat)
    requires PartlyFilled(n, was, g, left, top, width, dy, dx)
    requires 0 <= left + dx < n && 0 <= top + dy < n
    ensures PartlyFilled(n, was, g[CellOf(n, left + dx, top + dy) := true], left, top, width, dy, dx + 1)
  {
    var x, y := left + dx, top + dy;
    var k := CellOf(n, x, y);
    DivUnique(k, n, y, x);
    forall c | 0 <= c < n * n
      ensures g[k := true][c] <==> was[c] || InRect(c % n, c / n, left, top, width, dy) || InRect(c % n, c / n, left, y, dx + 1, 1)
    {
      if c % n == x && c / n == y { assert c == c / n * n + c % n; }
    }
  }

  lemma FillRow(n: nat, was: seq<bool>, g: seq<bool>, left: int, top: int, width: nat, dy: nat)
    ensures PartlyFilled(n, was, g, left, top, width, dy, width) ==> PartlyFilled(n, was, g, left, top, width, dy + 1, 0)
    ensures PartlyFilled(n, was, g, left, top, width, dy, 0) ==> FilledIn(n, was, g, left, top, width, dy)
  {
  }

  lemma FillStart(n: nat, was: seq<bool>, left: int, top: int, width: nat)
    requires n > 0 && |was| == n * n
    ensures PartlyFilled(n, was, was, left, top, width, 0, 0)
  {
  }

  /** fillRectangle. */
  method FillRectangle(left: int, top: int, width: nat, height: nat, q: array<bv8>)
    requires IsGrid(q[..]) && 0 <= left && left + width <= Size(q[..]) && 0 <= top && top + height <= Size(q[..])
    modifies q
    ensures IsGrid(q[..]) && Size(q[..]) == old(Size(q[..]))
    ensures FilledIn(Size(q[..]), old(Modules(q[..])), Modules(q[..]), left, top, width, height)
  {
    hide PartlyFilled, FilledIn, Modules, CellOf, IsGrid;
    GridArea(q[..]);
    var n := Size(q[..]);
    ghost var was := Modules(q[..]);
    FillStart(n, was, left, top, width);
    for dy := 0 to height
      invariant IsGrid(q[..]) && Size(q[..]) == n && PartlyFilled(n, was, Modules(q[..]), left, top, width, dy, 0)
    {
      for dx := 0 to width
        invariant IsGrid(q[..]) && Size(q[..]) == n && PartlyFilled(n, was, Modules(q[..]), left, top, width, dy, dx)
      {
        FillCell(n, was, Modules(q[..]), left, top, width, dy, dx);
        SetModule(q, left + dx, top + dy, true);
      }
      FillRow(n, was, Modules(q[..]), left, top, width, dy);
    }
    FillRow(n, was, Modules(q[..]), left, top, width, height);
  }

  // ---- Marking step by step ----

  lemma RowOfCell(c: nat, n: nat)
    requires 0 <= c < n * n
    ensures n > 0 && 0 <= c % n < n && 0 <= c / n < n
  {
    Euclid(c, n);
    DivNonNegative(c, n);
    if c / n >= n { MulMonotone(n, c / n, n); }
  }

  /** An alignment pattern before indices (i, j) covers (x, y). */
  ghost predicate AlignedBefore(v: nat, x: int, y: int, i: nat, j: nat)
    requires VersionOk(v)
  {
    exists a: nat, b: nat ::
      a < NumAlign(v) && b < NumAlign(v) && (a < i || (a == i && b < j)) && AlignCovers(v, x, y, a, b)
  }

  ghost predicate AlignedUpTo(v: nat, was: seq<bool>, g: seq<bool>, i: nat, j: nat)
    requires VersionOk(v)
  {
    var n := SizeOf(v);
    |was| == |g| == n * n && forall c :: 0 <= c < n * n ==> (g[c] <==> was[c] || AlignedBefore(v, c % n, c / n, i, j))
  }

  lemma AlignNext(v: nat, was: seq<bool>, g: seq<bool>, h: seq<bool>, i: nat, j: nat)
    requires VersionOk(v) && i < NumAlign(v) && j < NumAlign(v) && AlignedUpTo(v, was, g, i, j)
    requires var last := NumAlign(v) - 1;
             if (i == 0 && j == 0) || (i == 0 && j == last) || (i == last && j == 0) then h == g
             else FilledIn(SizeOf(v), g, h, AlignPos(v, i) - 2, AlignPos(v, j) - 2, 5, 5)
    ensures AlignedUpTo(v, was, h, i, j + 1)
  {
    var n := SizeOf(v);
    hide AlignPos, InRect;
    forall c | 0 <= c < n * n ensures h[c] <==> was[c] || AlignedBefore(v, c % n, c / n, i, j + 1) {
      AlignedNext(v, c % n, c / n, i, j);
    }
  }

  lemma AlignedNext(v: nat, x: int, y: int, i: nat, j: nat)
    requires VersionOk(v) && i < NumAlign(v) && j < NumAlign(v)
    ensures AlignedBefore(v, x, y, i, j + 1) <==> AlignedBefore(v, x, y, i, j) || AlignCovers(v, x, y, i, j)
  {
    hide AlignCovers;
  }

  lemma AlignRowDone(v: nat, was: seq<bool>, g: seq<bool>, i: nat)
    requires VersionOk(v)
    ensures AlignedUpTo(v, was, g, i, NumAlign(v)) ==> AlignedUpTo(v, was, g, i + 1, 0)
  {
    hide AlignCovers;
  }

  /** The loop over alignment patterns. */
  method FillAlignment(v: nat, q: array<bv8>)
    requires VersionOk(v) && IsGrid(q[..]) && Size(q[..]) == SizeOf(v)
    modifies q
    ensures IsGrid(q[..]) && Size(q[..]) == SizeOf(v)
    ensures AlignedUpTo(v, old(Modules(q[..])), Modules(q[..]), NumAlign(v), 0)
  {
    hide AlignedUpTo, FilledIn, Modules, AlignPos;
    ghost var was := Modules(q[..]);
    var alignPatPos := new int[7];
    var numAlign := GetAlignmentPatternPositions(v, alignPatPos);
    AlignStart(v, was);
    for i := 0 to numAlign
      invariant IsGrid(q[..]) && Size(q[..]) == SizeOf(v) && AlignedUpTo(v, was, Modules(q[..]), i, 0)
      invariant forall k :: 0 <= k < numAlign ==> alignPatPos[k] == AlignPos(v, k)
    {
      for j := 0 to numAlign
        invariant IsGrid(q[..]) && Size(q[..]) == SizeOf(v) && AlignedUpTo(v, was, Modules(q[..]), i, j)
        invariant forall k :: 0 <= k < numAlign ==> alignPatPos[k] == AlignPos(v, k)
      {
        ghost var g := Modules(q[..]);
        AlignInside(v, i);
        AlignInside(v, j);
        if !((i == 0 && j == 0) || (i == 0 && j == numAlign - 1) || (i == numAlign - 1 && j == 0)) {
          FillRectangle(alignPatPos[i] - 2, alignPatPos[j] - 2, 5, 5, q);
        }
        AlignNext(v, was, g, Modules(q[..]), i, j);
      }
      AlignRowDone(v, was, Modules(q[..]), i);
    }
  }

  lemma AlignStart(v: nat, was: seq<bool>)
    requires VersionOk(v) && |was| == SizeOf(v) * SizeOf(v)
    ensures AlignedUpTo(v, was, was, 0, 0)
  {
    hide AlignCovers;
  }

  function SizeByte(v: nat): (b: bv8)
    requires VersionOk(v)
    ensures b as int == SizeOf(v)
  {
    ByteOf(SizeOf(v))
  }

  /** All modules light. */
  method ClearGrid(v: nat, q: array<bv8>)
    requires VersionOk(v) && q.Length > (SizeOf(v) * SizeOf(v) + 7) / 8
    modifies q
    ensures IsGrid(q[..]) && Size(q[..]) == SizeOf(v)
    ensures forall c :: 0 <= c < |Modules(q[..])| ==> !Modules(q[..])[c]
  {
    hide SizeByte, Modules;
    var n := SizeOf(v);
    var end := (n * n + 7) / 8 + 1;
    for i := 0 to end
      invariant forall k :: 0 <= k < i ==> q[k] == 0
    {
      q[i] := 0;
    }
    q[0] := SizeByte(v);
    ClearedIs(v, q[..]);
  }

  lemma ClearedIs(v: nat, q: seq<bv8>)
    requires VersionOk(v) && |q| > (SizeOf(v) * SizeOf(v) + 7) / 8 && q[0] == SizeByte(v)
    requires forall k :: 1 <= k <= (SizeOf(v) * SizeOf(v) + 7) / 8 ==> q[k] == 0
    ensures IsGrid(q) && Size(q) == SizeOf(v)
    ensures forall c :: 0 <= c < |Modules(q)| ==> !Modules(q)[c]
  {
    hide SizeByte, GetBit;
    NoBits();
    assert IsGrid(q);
    forall c | 0 <= c < |Modules(q)| ensures !Modules(q)[c] {
      assert q[c / 8 + 1] == 0;
    }
  }

  lemma NoBits()
    ensures forall k :: 0 <= k < 8 ==> !GetBit(0, k)
  {
  }

  lemma MaskIs(v: nat, g0: seq<bool>, g1: seq<bool>, g2: seq<bool>, g3: seq<bool>, g4: seq<bool>, g5: seq<bool>,
               g6: seq<bool>, g7: seq<bool>, g8: seq<bool>)
    requires VersionOk(v) && |g0| == SizeOf(v) * SizeOf(v) && forall c :: 0 <= c < |g0| ==> !g0[c]
    requires var n := SizeOf(v);
             && FilledIn(n, g0, g1, 6, 0, 1, n) && FilledIn(n, g1, g2, 0, 6, n, 1)
             && FilledIn(n, g2, g3, 0, 0, 9, 9) && FilledIn(n, g3, g4, n - 8, 0, 8, 9) && FilledIn(n, g4, g5, 0, n - 8, 9, 8)
             && AlignedUpTo(v, g5, g6, NumAlign(v), 0)
             && (if v >= 7 then FilledIn(n, g6, g7, n - 11, 0, 3, 6) && FilledIn(n, g7, g8, 0, n - 11, 6, 3) else g8 == g6)
    ensures g8 == FunctionMask(v)
  {
    var n := SizeOf(v);
    forall c | 0 <= c < n * n ensures g8[c] == FunctionMask(v)[c] {
      hide Aligned, AlignedBefore;
      RowOfCell(c, n);
      AllAligned(v, c % n, c / n);
      assert InRect(c % n, c / n, 6, 0, 1, n) <==> c % n == 6;
      assert InRect(c % n, c / n, 0, 6, n, 1) <==> c / n == 6;
    }
  }

  lemma AllAligned(v: nat, x: int, y: int)
    requires VersionOk(v)
    ensures AlignedBefore(v, x, y, NumAlign(v), 0) <==> Aligned(v, x, y)
  {
    hide AlignCovers;
  }

  /** initializeFunctionModules. */
  method InitializeFunctionModules(v: nat, q: array<bv8>)
    requires VersionOk(v) && q.Length > (SizeOf(v) * SizeOf(v) + 7) / 8
    modifies q
    ensures IsGrid(q[..]) && Size(q[..]) == SizeOf(v) && Modules(q[..]) == FunctionMask(v)
  {
    hide AlignedUpTo, FilledIn, Modules, FunctionMask;
    var n := SizeOf(v);
    ClearGrid(v, q);
    ghost var g0 := Modules(q[..]);
    FillRectangle(6, 0, 1, n, q);
    ghost var g1 := Modules(q[..]);
    FillRectangle(0, 6, n, 1, q);
    ghost var g2 := Modules(q[..]);
    FillRectangle(0, 0, 9, 9, q);
    ghost var g3 := Modules(q[..]);
    FillRectangle(n - 8, 0, 8, 9, q);
    ghost var g4 := Modules(q[..]);
    FillRectangle(0, n - 8, 9, 8, q);
    ghost var g5 := Modules(q[..]);
    FillAlignment(v, q);
    ghost var g6 := Modules(q[..]);
    ghost var g7 := g6;
    if v >= 7 {
      FillRectangle(n - 11, 0, 3, 6, q);
      g7 := Modules(q[..]);
      FillRectangle(0, n - 11, 6, 3, q);
    }
    MaskIs(v, g0, g1, g2, g3, g4, g5, g6, g7, Modules(q[..]));
  }
}
