/** Drawing the light function modules and the version information: drawLightFunctionModules of qrcodegen.c. */
module LightModules {
  import opened Arithmetic
  import opened Bits
  import opened Grid
  import opened FunctionModules
  import opened RoomCount

  // ---- One module at a time ----

  /** The cell (x, y) of the grid, if there is one, is dark or light; all others are as they were. */
  ghost predicate OneSet(n: nat, was: seq<bool>, g: seq<bool>, x: int, y: int, dark: bool) {
    n > 0 && |was| == |g| == n * n
    && forall c :: 0 <= c < n * n ==> g[c] == if c % n == x && c / n == y then dark else was[c]
  }

  lemma SetIs(n: nat, g: seq<bool>, x: nat, y: nat, dark: bool)
    requires n > 0 && |g| == n * n && x < n && y < n
    ensures y * n + x < n * n && OneSet(n, g, g[y * n + x := dark], x, y, dark)
  {
    CellInside(n, x, y);
    var k := y * n + x;
    DivUnique(k, n, y, x);
    forall c | 0 <= c < n * n && c % n == x && c / n == y ensures c == k { assert c == c / n * n + c % n; }
  }

  /** setModuleBounded. */
  method SetOne(q: array<bv8>, x: nat, y: nat, dark: bool)
    requires IsGrid(q[..]) && x < Size(q[..]) && y < Size(q[..])
    modifies q
    ensures IsGrid(q[..]) && Size(q[..]) == old(Size(q[..]))
    ensures OneSet(Size(q[..]), old(Modules(q[..])), Modules(q[..]), x, y, dark)
  {
    hide Modules, OneSet;
    SetIs(Size(q[..]), Modules(q[..]), x, y, dark);
    SetModule(q, x, y, dark);
  }

  /** setModuleUnbounded. */
  method SetModuleUnbounded(q: array<bv8>, x: int, y: int, dark: bool)
    requires IsGrid(q[..])
    modifies q
    ensures IsGrid(q[..]) && Size(q[..]) == old(Size(q[..]))
    ensures OneSet(Size(q[..]), old(Modules(q[..])), Modules(q[..]), x, y, dark)
  {
    hide Modules;
    var n := Size(q[..]);
    ghost var was := Modules(q[..]);
    if 0 <= x < n && 0 <= y < n {
      SetOne(q, x, y, dark);
    } else {
      forall c | 0 <= c < n * n ensures 0 <= c % n < n && 0 <= c / n < n { RowOfCell(c, n); }
    }
  }

  // ---- Timing patterns ----

  predicate TimingBefore(x: int, y: int, i: int) {
    (x == 6 && 7 <= y < i && y % 2 == 1) || (y == 6 && 7 <= x < i && x % 2 == 1)
  }

  ghost predicate TimingDrawn(n: nat, was: seq<bool>, g: seq<bool>, i: int) {
    n > 0 && |was| == |g| == n * n
    && forall c :: 0 <= c < n * n ==> (g[c] <==> was[c] && !TimingBefore(c % n, c / n, i))
  }

  lemma TimingNext(n: nat, was: seq<bool>, g: seq<bool>, g1: seq<bool>, g2: seq<bool>, i: nat)
    requires TimingDrawn(n, was, g, i) && i >= 7 && i % 2 == 1
    requires OneSet(n, g, g1, 6, i, false) && OneSet(n, g1, g2, i, 6, false)
    ensures TimingDrawn(n, was, g2, i + 2)
  {
  }

  lemma TimingNone(n: nat, was: seq<bool>)
    requires n > 0 && |was| == n * n
    ensures TimingDrawn(n, was, was, 7)
  {
  }

  method DrawTiming(q: array<bv8>)
    requires IsGrid(q[..])
    modifies q
    ensures IsGrid(q[..]) && Size(q[..]) == old(Size(q[..]))
    ensures TimingDrawn(Size(q[..]), old(Modules(q[..])), Modules(q[..]), Size(q[..]) - 6)
  {
    hide Modules, OneSet, TimingDrawn;
    var n := Size(q[..]);
    ghost var was := Modules(q[..]);
    TimingNone(n, was);
    var i := 7;
    while i < n - 7
      invariant 7 <= i <= n - 6 && i % 2 == 1 && IsGrid(q[..]) && Size(q[..]) == n
      invariant TimingDrawn(n, was, Modules(q[..]), i)
    {
      ghost var g := Modules(q[..]);
      SetOne(q, 6, i, false);
      ghost var g1 := Modules(q[..]);
      SetOne(q, i, 6, false);
      TimingNext(n, was, g, g1, Modules(q[..]), i);
      i := i + 2;
    }
  }

  // ---- Finder patterns ----

  function Dist(a: int, b: int): nat {
    if Abs(b) > Abs(a) then Abs(b) else Abs(a)
  }

  /** A light module of the pattern centred at (cx, cy), in a row before dy or in row dy before column dx. */
  predicate FinderBefore(x: int, y: int, cx: int, cy: int, dy: int, dx: int) {
    var a, b := x - cx, y - cy;
    (Dist(a, b) == 2 || Dist(a, b) == 4) && (b < dy || (b == dy && a < dx))
  }

  predicate FindersBefore(n: nat, x: int, y: int, dy: int, dx: int) {
    FinderBefore(x, y, 3, 3, dy, dx) || FinderBefore(x, y, n - 4, 3, dy, dx) || FinderBefore(x, y, 3, n - 4, dy, dx)
  }

  ghost predicate FindersDrawn(n: nat, was: seq<bool>, g: seq<bool>, dy: int, dx: int) {
    n > 0 && |was| == |g| == n * n
    && forall c :: 0 <= c < n * n ==> (g[c] <==> was[c] && !FindersBefore(n, c % n, c / n, dy, dx))
  }

  lemma FinderNext(x: int, y: int, cx: int, cy: int, dy: int, dx: int)
    requires -4 <= dy <= 4 && -4 <= dx <= 4
    ensures FinderBefore(x, y, cx, cy, dy, dx + 1)
       <==> FinderBefore(x, y, cx, cy, dy, dx) || ((Dist(dx, dy) == 2 || Dist(dx, dy) == 4) && x == cx + dx && y == cy + dy)
    ensures FinderBefore(x, y, cx, cy, dy, 5) <==> FinderBefore(x, y, cx, cy, dy + 1, -4)
    ensures !FinderBefore(x, y, cx, cy, -4, -4)
  {
  }

  lemma FindersNext(n: nat, was: seq<bool>, g: seq<bool>, g1: seq<bool>, g2: seq<bool>, g3: seq<bool>, dy: int, dx: int)
    requires -4 <= dy <= 4 && -4 <= dx <= 4 && FindersDrawn(n, was, g, dy, dx)
    requires if Dist(dx, dy) == 2 || Dist(dx, dy) == 4
             then OneSet(n, g, g1, 3 + dx, 3 + dy, false) && OneSet(n, g1, g2, n - 4 + dx, 3 + dy, false)
               && OneSet(n, g2, g3, 3 + dx, n - 4 + dy, false)
             else g3 == g
    ensures FindersDrawn(n, was, g3, dy, dx + 1)
  {
    hide FinderBefore, Dist;
    forall c | 0 <= c < n * n ensures g3[c] <==> was[c] && !FindersBefore(n, c % n, c / n, dy, dx + 1) {
      FinderNext(c % n, c / n, 3, 3, dy, dx);
      FinderNext(c % n, c / n, n - 4, 3, dy, dx);
      FinderNext(c % n, c / n, 3, n - 4, dy, dx);
    }
  }

  lemma FindersRow(n: nat, was: seq<bool>, g: seq<bool>, dy: int)
    requires -4 <= dy <= 4
    ensures FindersDrawn(n, was, g, dy, 5) ==> FindersDrawn(n, was, g, dy + 1, -4)
    ensures n > 0 && |was| == n * n ==> FindersDrawn(n, was, was, -4, -4)
  {
    hide FinderBefore;
    if n > 0 {
      forall c { FinderNext(c % n, c / n, 3, 3, dy, 0); }
      forall c { FinderNext(c % n, c / n, n - 4, 3, dy, 0); }
      forall c { FinderNext(c % n, c / n, 3, n - 4, dy, 0); }
    }
  }

  method DrawFinders(q: array<bv8>)
    requires IsGrid(q[..])
    modifies q
    ensures IsGrid(q[..]) && Size(q[..]) == old(Size(q[..]))
    ensures FindersDrawn(Size(q[..]), old(Modules(q[..])), Modules(q[..]), 5, -4)
  {
    hide Modules, OneSet, FindersDrawn;
    var n := Size(q[..]);
    ghost var was := Modules(q[..]);
    FindersRow(n, was, was, -4);
    for dy := -4 to 5
      invariant IsGrid(q[..]) && Size(q[..]) == n && FindersDrawn(n, was, Modules(q[..]), dy, -4)
    {
      for dx := -4 to 5
        invariant IsGrid(q[..]) && Size(q[..]) == n && FindersDrawn(n, was, Modules(q[..]), dy, dx)
      {
        ghost var g := Modules(q[..]);
        ghost var g1, g2 := g, g;
        var dist := Abs(dx);
        if Abs(dy) > dist {
          dist := Abs(dy);
        }
        if dist == 2 || dist == 4 {
          SetModuleUnbounded(q, 3 + dx, 3 + dy, false);
          g1 := Modules(q[..]);
          SetModuleUnbounded(q, n - 4 + dx, 3 + dy, false);
          g2 := Modules(q[..]);
          SetModuleUnbounded(q, 3 + dx, n - 4 + dy, false);
        }
        FindersNext(n, was, g, g1, g2, Modules(q[..]), dy, dx);
      }
      FindersRow(n, was, Modules(q[..]), dy);
    }
  }

  // ---- Alignment patterns ----

  /** Inside the ring of the pattern centred at (cx, cy), in a row before dy or in row dy before column dx. */
  predicate RingBefore(x: int, y: int, cx: int, cy: int, dy: int, dx: int) {
    -1 <= x - cx <= 1 && -1 <= y - cy <= 1 && (y - cy < dy || (y - cy == dy && x - cx < dx))
  }

  ghost predicate RingDrawn(n: nat, was: seq<bool>, g: seq<bool>, cx: int, cy: int, dy: int, dx: int) {
    n > 0 && |was| == |g| == n * n
    && forall c :: 0 <= c < n * n ==>
      (g[c] <==> if RingBefore(c % n, c / n, cx, cy, dy, dx) then c % n == cx && c / n == cy else was[c])
  }

  lemma RingNext(n: nat, was: seq<bool>, g: seq<bool>, h: seq<bool>, cx: int, cy: int, dy: int, dx: int)
    requires -1 <= dy <= 1 && -1 <= dx <= 1 && RingDrawn(n, was, g, cx, cy, dy, dx)
    requires OneSet(n, g, h, cx + dx, cy + dy, dx == 0 && dy == 0)
    ensures RingDrawn(n, was, h, cx, cy, dy, dx + 1)
  {
  }

  lemma RingRow(n: nat, was: seq<bool>, g: seq<bool>, cx: int, cy: int, dy: int)
    requires -1 <= dy <= 1
    ensures RingDrawn(n, was, g, cx, cy, dy, 2) ==> RingDrawn(n, was, g, cx, cy, dy + 1, -1)
    ensures n > 0 && |was| == n * n ==> RingDrawn(n, was, was, cx, cy, -1, -1)
  {
  }

  method DrawRing(q: array<bv8>, cx: int, cy: int)
    requires IsGrid(q[..]) && 1 <= cx < Size(q[..]) - 1 && 1 <= cy < Size(q[..]) - 1
    modifies q
    ensures IsGrid(q[..]) && Size(q[..]) == old(Size(q[..]))
    ensures RingDrawn(Size(q[..]), old(Modules(q[..])), Modules(q[..]), cx, cy, 2, -1)
  {
    hide Modules, OneSet, RingDrawn;
    var n := Size(q[..]);
    ghost var was := Modules(q[..]);
    RingRow(n, was, was, cx, cy, -1);
    for dy := -1 to 2
      invariant IsGrid(q[..]) && Size(q[..]) == n && RingDrawn(n, was, Modules(q[..]), cx, cy, dy, -1)
    {
      for dx := -1 to 2
        invariant IsGrid(q[..]) && Size(q[..]) == n && RingDrawn(n, was, Modules(q[..]), cx, cy, dy, dx)
      {
        ghost var g := Modules(q[..]);
        SetOne(q, cx + dx, cy + dy, dx == 0 && dy == 0);
        RingNext(n, was, g, Modules(q[..]), cx, cy, dy, dx);
      }
      RingRow(n, was, Modules(q[..]), cx, cy, dy);
    }
  }

  predicate Corner(v: nat, i: nat, j: nat) {
    var last := NumAlign(v) - 1;
    (i == 0 && j == 0) || (i == 0 && j == last) || (i == last && j == 0)
  }

  /** The inner three by three modules of pattern (i, j). */
  predicate RingOf(v: nat, x: int, y: int, i: nat, j: nat)
    requires VersionOk(v) && i < NumAlign(v) && j < NumAlign(v)
  {
    !Corner(v, i, j) && InRect(x, y, AlignPos(v, i) - 1, AlignPos(v, j) - 1, 3, 3)
  }

  predicate CentreOf(v: nat, x: int, y: int, i: nat, j: nat)
    requires VersionOk(v) && i < NumAlign(v) && j < NumAlign(v)
  {
    !Corner(v, i, j) && x == AlignPos(v, i) && y == AlignPos(v, j)
  }

  predicate Earlier(a: nat, b: nat, i: nat, j: nat) {
    a < i || (a == i && b < j)
  }

  ghost predicate RingsBefore(v: nat, x: int, y: int, i: nat, j: nat)
    requires VersionOk(v)
  {
    exists a: nat, b: nat :: a < NumAlign(v) && b < NumAlign(v) && Earlier(a, b, i, j) && RingOf(v, x, y, a, b)
  }

  ghost predicate CentresBefore(v: nat, x: int, y: int, i: nat, j: nat)
    requires VersionOk(v)
  {
    exists a: nat, b: nat :: a < NumAlign(v) && b < NumAlign(v) && Earlier(a, b, i, j) && CentreOf(v, x, y, a, b)
  }

  ghost predicate RingsDrawn(v: nat, was: seq<bool>, g: seq<bool>, i: nat, j: nat)
    requires VersionOk(v)
  {
    var n := SizeOf(v);
    |was| == |g| == n * n
    && forall c :: 0 <= c < n * n ==>
      (g[c] <==> if RingsBefore(v, c % n, c / n, i, j) then CentresBefore(v, c % n, c / n, i, j) else was[c])
  }

  /** Rings of different patterns do not meet. */
  lemma RingOnce(v: nat, x: int, y: int, i: nat, j: nat, a: nat, b: nat)
    requires VersionOk(v) && i < NumAlign(v) && j < NumAlign(v) && a < NumAlign(v) && b < NumAlign(v)
    requires RingOf(v, x, y, i, j) && CentreOf(v, x, y, a, b)
    ensures a == i && b == j
  {
    hide AlignPos, NumAlign;
    if a < i { AlignFar(v, a, i); }
    if i < a { AlignFar(v, i, a); }
    if b < j { AlignFar(v, b, j); }
    if j < b { AlignFar(v, j, b); }
  }

  lemma RingsNext(v: nat, x: int, y: int, i: nat, j: nat)
    requires VersionOk(v) && i < NumAlign(v) && j < NumAlign(v)
    ensures RingsBefore(v, x, y, i, j + 1) <==> RingsBefore(v, x, y, i, j) || RingOf(v, x, y, i, j)
    ensures CentresBefore(v, x, y, i, j + 1) <==> CentresBefore(v, x, y, i, j) || CentreOf(v, x, y, i, j)
    ensures RingOf(v, x, y, i, j) ==> !CentresBefore(v, x, y, i, j)
    ensures CentreOf(v, x, y, i, j) ==> RingOf(v, x, y, i, j)
  {
    if RingOf(v, x, y, i, j) && CentresBefore(v, x, y, i, j) {
      var a: nat, b: nat :| a < NumAlign(v) && b < NumAlign(v) && Earlier(a, b, i, j) && CentreOf(v, x, y, a, b);
      RingOnce(v, x, y, i, j, a, b);
    }
    assert CentreOf(v, x, y, i, j) ==> RingOf(v, x, y, i, j);
    hide RingOf, CentreOf, NumAlign;
  }

  lemma RingsStep(v: nat, was: seq<bool>, g: seq<bool>, h: seq<bool>, i: nat, j: nat)
    requires VersionOk(v) && i < NumAlign(v) && j < NumAlign(v) && RingsDrawn(v, was, g, i, j)
    requires if Corner(v, i, j) then h == g else RingDrawn(SizeOf(v), g, h, AlignPos(v, i), AlignPos(v, j), 2, -1)
    ensures RingsDrawn(v, was, h, i, j + 1)
  {
    var n := SizeOf(v);
    hide AlignPos, NumAlign, RingsBefore, CentresBefore;
    forall c | 0 <= c < n * n
      ensures h[c] <==> if RingsBefore(v, c % n, c / n, i, j + 1) then CentresBefore(v, c % n, c / n, i, j + 1) else was[c]
    {
      RingsNext(v, c % n, c / n, i, j);
    }
  }

  lemma RingsRow(v: nat, was: seq<bool>, g: seq<bool>, i: nat)
    requires VersionOk(v)
    ensures RingsDrawn(v, was, g, i, NumAlign(v)) ==> RingsDrawn(v, was, g, i + 1, 0)
    ensures |was| == SizeOf(v) * SizeOf(v) ==> RingsDrawn(v, was, was, 0, 0)
  {
    hide RingOf, CentreOf, NumAlign;
    forall x: int, y: int
      ensures RingsBefore(v, x, y, i, NumAlign(v)) <==> RingsBefore(v, x, y, i + 1, 0)
      ensures CentresBefore(v, x, y, i, NumAlign(v)) <==> CentresBefore(v, x, y, i + 1, 0)
    {
    }
  }

  method DrawRings(v: nat, q: array<bv8>)
    requires VersionOk(v) && IsGrid(q[..]) && Size(q[..]) == SizeOf(v)
    modifies q
    ensures IsGrid(q[..]) && Size(q[..]) == SizeOf(v)
    ensures RingsDrawn(v, old(Modules(q[..])), Modules(q[..]), NumAlign(v), 0)
  {
    hide Modules, RingDrawn, RingsDrawn, AlignPos;
    ghost var was := Modules(q[..]);
    var alignPatPos := new int[7];
    var numAlign := GetAlignmentPatternPositions(v, alignPatPos);
    RingsRow(v, was, was, 0);
    for i := 0 to numAlign
      invariant IsGrid(q[..]) && Size(q[..]) == SizeOf(v) && RingsDrawn(v, was, Modules(q[..]), i, 0)
      invariant forall k :: 0 <= k < numAlign ==> alignPatPos[k] == AlignPos(v, k)
    {
      for j := 0 to numAlign
        invariant IsGrid(q[..]) && Size(q[..]) == SizeOf(v) && RingsDrawn(v, was, Modules(q[..]), i, j)
        invariant forall k :: 0 <= k < numAlign ==> alignPatPos[k] == AlignPos(v, k)
      {
        ghost var g := Modules(q[..]);
        AlignInside(v, i);
        AlignInside(v, j);
        if !((i == 0 && j == 0) || (i == 0 && j == numAlign - 1) || (i == numAlign - 1 && j == 0)) {
          DrawRing(q, alignPatPos[i], alignPatPos[j]);
        }
        RingsStep(v, was, g, Modules(q[..]), i, j);
      }
      RingsRow(v, was, Modules(q[..]), i);
    }
  }

  // ---- Version information ----

  function VersionStep(rem: bv32): bv32 {
    (rem << 1) ^ ((rem >> 11) * 0x1F25)
  }

  /** i steps of dividing by the generator polynomial 0x1F25. */
  function VersionRemainder(v: bv32, i: nat): bv32 {
    if i == 0 then v else VersionStep(VersionRemainder(v, i - 1))
  }

  lemma StepBelow(rem: bv32)
    requires rem < 0x1000
    ensures VersionStep(rem) < 0x1000
  {
  }

  lemma {:induction false} RemainderBelow(v: bv32, i: nat)
    requires v < 0x1000
    ensures VersionRemainder(v, i) < 0x1000
  {
    hide VersionStep;
    if i > 0 {
      RemainderBelow(v, i - 1);
      StepBelow(VersionRemainder(v, i - 1));
    }
  }

  /** The version in the high six bits, its remainder in the low twelve. */
  ghost function VersionBits(v: nat): nat
    requires VersionOk(v)
  {
    v * 4096 + VersionRemainder(v as bv32, 12) as nat
  }

  /** The remainder has twelve bits, so the two fields do not overlap. */
  lemma VersionBitsFit(v: nat)
    requires VersionOk(v)
    ensures VersionBits(v) / 4096 == v && VersionBits(v) < 262144
  {
    hide VersionRemainder;
    RemainderBelow(v as bv32, 12);
    DivUnique(VersionBits(v), 4096, v, VersionRemainder(v as bv32, 12) as nat);
  }

  /** The number of the version bit at (x, y); 18 where there is none. */
  function VersionIndex(n: nat, x: int, y: int): (k: nat)
    ensures k <= 18
  {
    if InRect(x, y, n - 11, 0, 3, 6) then 3 * y + (x - (n - 11))
    else if InRect(x, y, 0, n - 11, 6, 3) then 3 * x + (y - (n - 11))
    else 18
  }

  predicate DigitOf(bits: nat, k: nat) {
    bits / Pow2(k) % 2 == 1
  }

  ghost predicate VersionDrawn(n: nat, was: seq<bool>, g: seq<bool>, bits: nat, k: nat) {
    n > 0 && |was| == |g| == n * n && k <= 18
    && forall c :: 0 <= c < n * n ==>
      (g[c] <==> if VersionIndex(n, c % n, c / n) < k then DigitOf(bits, VersionIndex(n, c % n, c / n)) else was[c])
  }

  lemma VersionIndexIs(n: nat, x: int, y: int, i: nat, j: nat)
    requires i < 6 && j < 3 && n >= 21
    ensures VersionIndex(n, x, y) == 3 * i + j <==> (x == n - 11 + j && y == i) || (x == i && y == n - 11 + j)
  {
  }

  lemma VersionNext(n: nat, was: seq<bool>, g: seq<bool>, g1: seq<bool>, g2: seq<bool>, bits: nat, i: nat, j: nat)
    requires n >= 21 && i < 6 && j < 3 && VersionDrawn(n, was, g, bits, 3 * i + j)
    requires OneSet(n, g, g1, n - 11 + j, i, DigitOf(bits, 3 * i + j))
    requires OneSet(n, g1, g2, i, n - 11 + j, DigitOf(bits, 3 * i + j))
    ensures VersionDrawn(n, was, g2, bits, 3 * i + j + 1)
  {
    hide VersionIndex, DigitOf;
    forall c | 0 <= c < n * n
      ensures g2[c] <==> if VersionIndex(n, c % n, c / n) < 3 * i + j + 1 then DigitOf(bits, VersionIndex(n, c % n, c / n)) else was[c]
    {
      VersionIndexIs(n, c % n, c / n, i, j);
    }
  }

  lemma VersionNone(n: nat, was: seq<bool>, bits: nat)
    requires n > 0 && |was| == n * n
    ensures VersionDrawn(n, was, was, bits, 0) && bits / Pow2(0) == bits
  {
  }

  method ComputeVersionBits(v: nat) returns (bits: nat)
    requires VersionOk(v)
    ensures bits == VersionBits(v)
  {
    hide VersionStep;
    var rem: bv32 := v as bv32;
    for i := 0 to 12
      invariant rem == VersionRemainder(v as bv32, i)
    {
      rem := VersionStep(rem);
    }
    bits := v * 4096 + rem as nat;
  }

  /** Two copies of the version bits, lowest bit first. */
  method DrawVersion(v: nat, q: array<bv8>)
    requires VersionOk(v) && IsGrid(q[..]) && Size(q[..]) == SizeOf(v)
    modifies q
    ensures IsGrid(q[..]) && Size(q[..]) == SizeOf(v)
    ensures VersionDrawn(SizeOf(v), old(Modules(q[..])), Modules(q[..]), VersionBits(v), 18)
  {
    hide Modules, OneSet, VersionDrawn, VersionBits, Pow2, DigitOf;
    ghost var was := Modules(q[..]);
    var bits := ComputeVersionBits(v);
    ghost var all := VersionBits(v);
    var qrsize := SizeOf(v);
    VersionNone(qrsize, was, all);
    for i := 0 to 6
      invariant IsGrid(q[..]) && Size(q[..]) == qrsize && bits == all / Pow2(3 * i)
      invariant VersionDrawn(qrsize, was, Modules(q[..]), all, 3 * i)
    {
      for j := 0 to 3
        invariant IsGrid(q[..]) && Size(q[..]) == qrsize && bits == all / Pow2(3 * i + j)
        invariant VersionDrawn(qrsize, was, Modules(q[..]), all, 3 * i + j)
      {
        var k := qrsize - 11 + j;
        ghost var g := Modules(q[..]);
        DigitNext(all, 3 * i + j);
        SetOne(q, k, i, bits % 2 == 1);
        ghost var g1 := Modules(q[..]);
        SetOne(q, i, k, bits % 2 == 1);
        VersionNext(qrsize, was, g, g1, Modules(q[..]), all, i, j);
        bits := bits / 2;
      }
    }
  }

  lemma DigitNext(bits: nat, k: nat)
    ensures DigitOf(bits, k) <==> bits / Pow2(k) % 2 == 1
    ensures bits / Pow2(k) / 2 == bits / Pow2(k + 1)
  {
    var d, q := Pow2(k), bits / Pow2(k);
    var r := bits % d;
    assert bits == d * q + r;
    assert d * q == d * (2 * (q / 2)) + d * (q % 2);
    assert bits == (2 * d) * (q / 2) + (d * (q % 2) + r) by { assert d * (2 * (q / 2)) == (2 * d) * (q / 2); }
    assert 0 <= d * (q % 2) <= d;
    DivUnique(bits, 2 * d, q / 2, d * (q % 2) + r);
  }

  // ---- All of them ----

  /** What the function module at (x, y) becomes, and any other module stays. */
  ghost predicate Lit(v: nat, was: bool, x: int, y: int)
    requires VersionOk(v)
  {
    var n := SizeOf(v);
    if v >= 7 && VersionIndex(n, x, y) < 18 then DigitOf(VersionBits(v), VersionIndex(n, x, y))
    else if RingsBefore(v, x, y, NumAlign(v), 0) then CentresBefore(v, x, y, NumAlign(v), 0)
    else was && !FindersBefore(n, x, y, 5, -4) && !TimingBefore(x, y, n - 6)
  }

  ghost function LitGrid(v: nat, g: seq<bool>): (r: seq<bool>)
    requires VersionOk(v) && |g| == SizeOf(v) * SizeOf(v)
    ensures |r| == |g|
  {
    seq(|g|, c requires 0 <= c < |g| => Lit(v, g[c], c % SizeOf(v), c / SizeOf(v)))
  }

  lemma LitIs(v: nat, g0: seq<bool>, g1: seq<bool>, g2: seq<bool>, g3: seq<bool>, g4: seq<bool>)
    requires VersionOk(v) && TimingDrawn(SizeOf(v), g0, g1, SizeOf(v) - 6) && FindersDrawn(SizeOf(v), g1, g2, 5, -4)
    requires RingsDrawn(v, g2, g3, NumAlign(v), 0)
    requires if v >= 7 then VersionDrawn(SizeOf(v), g3, g4, VersionBits(v), 18) else g4 == g3
    ensures g4 == LitGrid(v, g0)
  {
    hide RingsBefore, CentresBefore, FindersBefore, TimingBefore, VersionIndex, DigitOf, VersionBits;
    forall c | 0 <= c < |g0| ensures g4[c] == LitGrid(v, g0)[c] { }
  }

  /** drawLightFunctionModules. */
  method DrawLightFunctionModules(q: array<bv8>, v: nat)
    requires VersionOk(v) && IsGrid(q[..]) && Size(q[..]) == SizeOf(v)
    modifies q
    ensures IsGrid(q[..]) && Size(q[..]) == SizeOf(v) && Modules(q[..]) == LitGrid(v, old(Modules(q[..])))
  {
    hide Modules, TimingDrawn, FindersDrawn, RingsDrawn, VersionDrawn, LitGrid, VersionBits;
    ghost var g0 := Modules(q[..]);
    DrawTiming(q);
    ghost var g1 := Modules(q[..]);
    DrawFinders(q);
    ghost var g2 := Modules(q[..]);
    DrawRings(v, q);
    ghost var g3 := Modules(q[..]);
    if v >= 7 {
      DrawVersion(v, q);
    }
    LitIs(v, g0, g1, g2, g3, Modules(q[..]));
  }

  /** Only function modules are drawn. */
  lemma LitUnmarked(v: nat, was: bool, x: int, y: int)
    requires VersionOk(v) && 0 <= x < SizeOf(v) && 0 <= y < SizeOf(v) && !IsFunction(v, x, y)
    ensures Lit(v, was, x, y) <==> was
  {
    if RingsBefore(v, x, y, NumAlign(v), 0) { RingsAligned(v, x, y); }
    if FindersBefore(SizeOf(v), x, y, 5, -4) { FindersInside(SizeOf(v), x, y); }
    hide RingsBefore, CentresBefore, Aligned, FindersBefore;
  }

  lemma RingsAligned(v: nat, x: int, y: int)
    requires VersionOk(v) && RingsBefore(v, x, y, NumAlign(v), 0)
    ensures Aligned(v, x, y)
  {
    hide AlignPos, NumAlign;
    var a: nat, b: nat :| a < NumAlign(v) && b < NumAlign(v) && Earlier(a, b, NumAlign(v), 0) && RingOf(v, x, y, a, b);
    assert AlignCovers(v, x, y, a, b);
  }

  lemma FindersInside(n: nat, x: int, y: int)
    requires FindersBefore(n, x, y, 5, -4) && 0 <= x < n && 0 <= y < n
    ensures InRect(x, y, 0, 0, 9, 9) || InRect(x, y, n - 8, 0, 8, 9) || InRect(x, y, 0, n - 8, 9, 8)
  {
  }
}
