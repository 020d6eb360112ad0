/** The zigzag scan that draws codewords: drawCodewords of qrcodegen.c and qrcodegen.cpp. */
module Zigzag {
  import opened Arithmetic
  import opened Grid
  import opened BitBuffer

  // ---- The scan order ----

  /** Number of column pairs. */
  function Pairs(n: nat): nat
    requires SizeOk(n)
  {
    (n - 1) / 2
  }

  /** Right column of column pair p; column 6 is skipped. */
  function Right(n: nat, p: nat): int
    requires SizeOk(n) && p < Pairs(n)
  {
    if n - 1 - 2 * p > 6 then n - 1 - 2 * p else n - 2 - 2 * p
  }

  predicate Upward(right: int) {
    (right + 1) / 2 % 2 == 0
  }

  /** Column and row visited in pair p at the vertical counter v and side j. */
  function ScanX(n: nat, p: nat, j: nat): (x: nat)
    requires SizeOk(n) && p < Pairs(n) && j < 2
    ensures x < n && x != 6
  {
    Right(n, p) - j
  }

  function ScanY(n: nat, p: nat, v: nat): (y: nat)
    requires SizeOk(n) && p < Pairs(n) && v < n
    ensures y < n
  {
    if Upward(Right(n, p)) then n - 1 - v else v
  }

  /** When a cell outside column 6 is visited: its column pair, vertical counter and side. */
  function PairOf(n: nat, x: nat): (p: nat)
    requires SizeOk(n) && x < n && x != 6
    ensures p < Pairs(n)
  {
    if x > 6 then (n - 1 - x - x % 2) / 2 else (n - 2 - x - (x + 1) % 2) / 2
  }

  function SideOf(x: nat): (j: nat)
    ensures j < 2
  {
    if x > 6 then x % 2 else (x + 1) % 2
  }

  function VerticalOf(n: nat, x: nat, y: nat): (v: nat)
    requires SizeOk(n) && x < n && x != 6 && y < n
    ensures v < n
  {
    if Upward(Right(n, PairOf(n, x))) then n - 1 - y else y
  }

  /** Every cell outside column 6 is visited, and only at its own time. */
  lemma ScanVisits(n: nat, x: nat, y: nat)
    requires SizeOk(n) && x < n && x != 6 && y < n
    ensures ScanX(n, PairOf(n, x), SideOf(x)) == x && ScanY(n, PairOf(n, x), VerticalOf(n, x, y)) == y
  {
    hide Upward;
  }

  lemma ScanOnce(n: nat, p: nat, v: nat, j: nat)
    requires SizeOk(n) && p < Pairs(n) && v < n && j < 2
    ensures var x, y := ScanX(n, p, j), ScanY(n, p, v);
            PairOf(n, x) == p && SideOf(x) == j && VerticalOf(n, x, y) == v
  {
    PairAndSide(n, p, j);
    hide Upward, Right, Pairs, PairOf, SideOf;
  }

  lemma PairAndSide(n: nat, p: nat, j: nat)
    requires SizeOk(n) && p < Pairs(n) && j < 2
    ensures PairOf(n, ScanX(n, p, j)) == p && SideOf(ScanX(n, p, j)) == j
  {
    if j == 0 {} else {}
  }

  // ---- Scan steps numbered from zero ----

  /** The number of a step: pair p has 2 n steps, two for each v. */
  function Step(n: nat, p: nat, v: nat, j: nat): nat {
    2 * (p * n + v) + j
  }

  function Steps(n: nat): nat
    requires SizeOk(n)
  {
    2 * (Pairs(n) * n)
  }

  /** The step that visits a cell. */
  function StepOf(n: nat, x: nat, y: nat): nat
    requires SizeOk(n) && x < n && x != 6 && y < n
  {
    Step(n, PairOf(n, x), VerticalOf(n, x, y), SideOf(x))
  }

  /** The cell visited at a step. */
  function Visited(n: nat, t: nat): (c: nat)
    requires SizeOk(n) && t < Steps(n)
    ensures c < n * n
  {
    StepParts(n, t);
    CellOf(n, ScanX(n, t / 2 / n, t % 2), ScanY(n, t / 2 / n, t / 2 % n))
  }

  lemma StepParts(n: nat, t: nat)
    requires SizeOk(n) && t < Steps(n)
    ensures 0 <= t / 2 / n && t / 2 / n < Pairs(n) && 0 <= t / 2 % n < n
    ensures t == Step(n, t / 2 / n, t / 2 % n, t % 2)
  {
    hide Pairs;
    var w, h := t / 2, Pairs(n);
    Euclid(w, n);
    DivNonNegative(w, n);
    HalfBound(t, h * n);
    RowBound(w / n, w % n, h, n);
  }

  lemma HalfBound(t: nat, m: int)
    requires t < 2 * m
    ensures t / 2 < m && t == 2 * (t / 2) + t % 2
  {
  }

  lemma RowBound(p: int, v: int, h: int, n: int)
    requires 0 < n && 0 <= v && p * n + v < h * n
    ensures p < h
  {
    if p >= h { MulMonotone(h, p, n); }
  }

  lemma StepIs(n: nat, p: nat, v: nat, j: nat)
    requires SizeOk(n) && p < Pairs(n) && v < n && j < 2
    ensures Step(n, p, v, j) < Steps(n)
    ensures Visited(n, Step(n, p, v, j)) == CellOf(n, ScanX(n, p, j), ScanY(n, p, v))
  {
    var w, t := p * n + v, Step(n, p, v, j);
    CellInTable(Pairs(n), n, v, p);
    hide Pairs, ScanX, ScanY, CellOf;
    assert t / 2 == w && t % 2 == j;
    DivUnique(w, n, p, v);
  }

  // ---- The order of the scan, cell by cell ----

  function RowOf(n: nat, c: nat): nat
    requires n > 0
  {
    DivNonNegative(c, n);
    c / n
  }

  ghost function RowAt(n: nat, t: nat): nat
    requires SizeOk(n) && t < Steps(n)
  {
    RowOf(n, Visited(n, t))
  }

  ghost function ColumnAt(n: nat, t: nat): nat
    requires SizeOk(n) && t < Steps(n)
  {
    Visited(n, t) % n
  }

  /** The direction alternates from column pair to column pair, upward first. */
  lemma UpwardAlternates(n: nat, p: nat)
    requires SizeOk(n) && p < Pairs(n)
    ensures Upward(Right(n, p)) <==> p % 2 == 0
  {
    Euclid(n, 4);
    var k := n / 4;
    DivUnique(Right(n, p) + 1, 2, 2 * k - p, if n - 1 - 2 * p > 6 then 1 else 0);
    var q: int := p;
    ParityShift(-q, k);
  }

  /** Step v of column pair p is in row n - 1 - v where p is even, and in row v where p is odd. */
  lemma ScanRows(n: nat, p: nat, v: nat, j: nat)
    requires SizeOk(n) && p < Pairs(n) && v < n && j < 2
    ensures Step(n, p, v, j) < Steps(n) && ColumnAt(n, Step(n, p, v, j)) == Right(n, p) - j
    ensures RowAt(n, Step(n, p, v, j)) == if p % 2 == 0 then n - 1 - v else v
  {
    StepIs(n, p, v, j);
    UpwardAlternates(n, p);
    hide Right, Upward, Pairs, Visited, CellOf, Steps, Step;
    CellParts(n, ScanX(n, p, j), ScanY(n, p, v));
  }

  lemma CellParts(n: nat, x: nat, y: nat)
    requires x < n && y < n
    ensures CellOf(n, x, y) / n == y && CellOf(n, x, y) % n == x
  {
    DivUnique(y * n + x, n, y, x);
  }

  /** Two columns to the left, column 6 left out. */
  lemma RightNext(n: nat, p: nat)
    requires SizeOk(n) && p < Pairs(n)
    ensures p == 0 ==> Right(n, p) == n - 1
    ensures p + 1 < Pairs(n) ==> Right(n, p + 1) == if Right(n, p) == 8 then 5 else Right(n, p) - 2
  {
  }

  lemma PairRemainder(n: nat, p: nat, v: nat)
    requires n > 0
    ensures v < n ==> (2 * (p * n + v)) % (2 * n) == 2 * v
  {
    if v < n {
      Associate(2, n, p);
      DivUnique(2 * (p * n + v), 2 * n, p, 2 * v);
    }
  }

  lemma Parity(a: int)
    ensures (2 * a) % 2 == 0 && (2 * a + 1) % 2 == 1
  {
  }

  /** Step t is the last one of a pair of columns. */
  predicate EndsPair(n: nat, t: nat)
    requires n > 0
  {
    (t + 1) % (2 * n) == 0
  }

  lemma StepNext(n: nat, p: nat, v: nat)
    requires SizeOk(n) && p < Pairs(n) && v < n
    ensures Step(n, p, v, 0) + 1 == Step(n, p, v, 1) && Step(n, p, v, 0) % 2 == 0 && Step(n, p, v, 1) % 2 == 1
    ensures EndsPair(n, Step(n, p, v, 1)) <==> v + 1 == n
    ensures v + 1 < n ==> Step(n, p, v, 1) + 1 == Step(n, p, v + 1, 0)
    ensures v + 1 == n ==> Step(n, p, v, 1) + 1 == Step(n, p + 1, 0, 0)
    ensures v + 1 == n && Step(n, p + 1, 0, 0) < Steps(n) ==> p + 1 < Pairs(n)
  {
    PairRemainder(n, p, v + 1);
    PairRemainder(n, p + 1, 0);
    DistributeRight(p, 1, n);
    Parity(p * n + v);
    hide Pairs;
    if v + 1 == n && Step(n, p + 1, 0, 0) < Steps(n) { RowBound(p + 1, 0, Pairs(n), n); }
  }

  /** Step t + 1 seen from step t. */
  ghost predicate Follows(n: nat, t: nat)
    requires SizeOk(n) && t + 1 < Steps(n)
  {
    if t % 2 == 0 then RowAt(n, t + 1) == RowAt(n, t) && ColumnAt(n, t + 1) == ColumnAt(n, t) - 1
    else if !EndsPair(n, t) then
      ColumnAt(n, t + 1) == ColumnAt(n, t) + 1 && (RowAt(n, t + 1) == RowAt(n, t) - 1 || RowAt(n, t + 1) == RowAt(n, t) + 1)
    else RowAt(n, t + 1) == RowAt(n, t) && ColumnAt(n, t + 1) == if ColumnAt(n, t) == 7 then 5 else ColumnAt(n, t) - 1
  }

  lemma ScanOrderAt(n: nat, p: nat, v: nat, j: nat, t: nat)
    requires SizeOk(n) && p < Pairs(n) && v < n && j < 2 && t == Step(n, p, v, j) && t + 1 < Steps(n)
    ensures Follows(n, t)
  {
    hide Step, Steps, Pairs, Right, RowAt, ColumnAt, EndsPair;
    StepNext(n, p, v);
    ScanRows(n, p, v, 0);
    ScanRows(n, p, v, 1);
    if j == 1 {
      if v + 1 < n {
        ScanRows(n, p, v + 1, 0);
      } else {
        ScanRows(n, p + 1, 0, 0);
        RightNext(n, p);
      }
    }
  }

  /** The scan starts in the lower right corner. */
  lemma ScanStarts(n: nat)
    requires SizeOk(n)
    ensures 0 < Steps(n) && RowAt(n, 0) == n - 1 && ColumnAt(n, 0) == n - 1
  {
    FirstStep(n);
    hide *;
    ScanRows(n, 0, 0, 0);
    RightNext(n, 0);
  }

  lemma FirstStep(n: nat)
    requires SizeOk(n)
    ensures 0 < n && 0 < Pairs(n) && Step(n, 0, 0, 0) == 0
  {
  }

  /**
   From one step to the next: to the left neighbour, then one row on and back to the right column, and at the end of a pair
   of columns on to the next column on the left in the same row, column 6 left out.
   */
  lemma ScanOrder(n: nat, t: nat)
    requires SizeOk(n) && t + 1 < Steps(n)
    ensures Follows(n, t)
  {
    StepParts(n, t);
    ScanOrderAt(n, t / 2 / n, t / 2 % n, t % 2, t);
  }

  // ---- What the scan draws ----

  /** Number of unmarked cells among the first t visited. */
  ghost function Filled(n: nat, mask: seq<bool>, t: nat): (k: nat)
    requires SizeOk(n) && |mask| == n * n && t <= Steps(n)
    ensures k <= t
  {
    if t == 0 then 0 else Filled(n, mask, t - 1) + (if mask[Visited(n, t - 1)] then 0 else 1)
  }

  /** Unmarked cells outside column 6. */
  ghost function Room(n: nat, mask: seq<bool>): nat
    requires SizeOk(n) && |mask| == n * n
  {
    Filled(n, mask, Steps(n))
  }

  /** Whether the scan writes the cell visited at step t. */
  ghost predicate Writes(n: nat, mask: seq<bool>, data: seq<bv8>, t: nat)
    requires SizeOk(n) && |mask| == n * n && t < Steps(n)
  {
    !mask[Visited(n, t)] && Filled(n, mask, t) < 8 * |data|
  }

  /** The grid after the first t steps: the k-th unmarked cell visited takes bit k. */
  ghost function Drawn(n: nat, mask: seq<bool>, was: seq<bool>, data: seq<bv8>, t: nat): (g: seq<bool>)
    requires SizeOk(n) && |mask| == |was| == n * n && t <= Steps(n)
    ensures |g| == n * n
  {
    if t == 0 then was
    else
      var g := Drawn(n, mask, was, data, t - 1);
      if Writes(n, mask, data, t - 1) then g[Visited(n, t - 1) := BitOf(data, Filled(n, mask, t - 1))] else g
  }

  lemma VisitedOnce(n: nat, s: nat, t: nat)
    requires SizeOk(n) && s < Steps(n) && t < Steps(n) && Visited(n, s) == Visited(n, t)
    ensures s == t
  {
    hide *;
    var x, y := VisitedCell(n, s);
    var u, v := VisitedCell(n, t);
    CellUnique(n, x, y, u, v);
  }

  lemma CellUnique(n: nat, x: nat, y: nat, u: nat, v: nat)
    requires x < n && y < n && u < n && v < n && CellOf(n, x, y) == CellOf(n, u, v)
    ensures x == u && y == v
  {
    var c := CellOf(n, x, y);
    assert c == y * n + x && c == v * n + u;
    hide *;
    DivUnique(c, n, y, x);
    DivUnique(c, n, v, u);
  }

  /** The column and row of the cell visited at step t lead back to t. */
  lemma VisitedCell(n: nat, t: nat) returns (x: nat, y: nat)
    requires SizeOk(n) && t < Steps(n)
    ensures x < n && x != 6 && y < n && Visited(n, t) == CellOf(n, x, y) && StepOf(n, x, y) == t
  {
    StepParts(n, t);
    var p, v, j := t / 2 / n, t / 2 % n, t % 2;
    x, y := ScanX(n, p, j), ScanY(n, p, v);
    hide Pairs, Right, Upward, ScanX, ScanY, PairOf, SideOf, VerticalOf, Step, Steps, CellOf;
    ScanOnce(n, p, v, j);
  }

  /** Conversely, every cell outside column 6 is the one visited at its step. */
  lemma CellVisited(n: nat, x: nat, y: nat)
    requires SizeOk(n) && x < n && x != 6 && y < n
    ensures StepOf(n, x, y) < Steps(n) && Visited(n, StepOf(n, x, y)) == CellOf(n, x, y)
  {
    hide *;
    ScanVisits(n, x, y);
    StepOfIs(n, x, y);
    StepIs(n, PairOf(n, x), VerticalOf(n, x, y), SideOf(x));
  }

  lemma StepOfIs(n: nat, x: nat, y: nat)
    requires SizeOk(n) && x < n && x != 6 && y < n
    ensures StepOf(n, x, y) == Step(n, PairOf(n, x), VerticalOf(n, x, y), SideOf(x))
  {
    hide Step, PairOf, VerticalOf, SideOf;
  }

  /** A cell not visited yet is as it was; so the grid being drawn can serve as its own mask. */
  lemma {:induction false} NotYetDrawn(n: nat, mask: seq<bool>, was: seq<bool>, data: seq<bv8>, t: nat, c: nat)
    requires SizeOk(n) && |mask| == |was| == n * n && t <= Steps(n) && c < n * n
    requires forall s :: 0 <= s < t ==> Visited(n, s) != c
    ensures Drawn(n, mask, was, data, t)[c] == was[c]
  {
    hide Visited, Filled, BitOf, Steps;
    if t > 0 { NotYetDrawn(n, mask, was, data, t - 1, c); }
  }

  lemma NotVisitedBefore(n: nat, t: nat)
    requires SizeOk(n) && t < Steps(n)
    ensures forall s :: 0 <= s < t ==> Visited(n, s) != Visited(n, t)
  {
    hide *;
    forall s | 0 <= s < t ensures Visited(n, s) != Visited(n, t) { if Visited(n, s) == Visited(n, t) { VisitedOnce(n, s, t); } }
  }

  /** A cell that its step does not write stays as it was. */
  lemma {:induction false} NeverDrawn(n: nat, mask: seq<bool>, was: seq<bool>, data: seq<bv8>, s: nat, t: nat)
    requires SizeOk(n) && |mask| == |was| == n * n && s < t <= Steps(n) && !Writes(n, mask, data, s)
    ensures Drawn(n, mask, was, data, t)[Visited(n, s)] == was[Visited(n, s)]
  {
    hide Visited, Filled, BitOf, Steps;
    if s < t - 1 {
      NeverDrawn(n, mask, was, data, s, t - 1);
      if Visited(n, s) == Visited(n, t - 1) { VisitedOnce(n, s, t - 1); }
    } else {
      NotVisitedBefore(n, s);
      NotYetDrawn(n, mask, was, data, s, Visited(n, s));
    }
  }

  lemma NextUndrawn(n: nat, mask: seq<bool>, was: seq<bool>, data: seq<bv8>, t: nat)
    requires SizeOk(n) && |mask| == |was| == n * n && t < Steps(n)
    ensures Drawn(n, mask, was, data, t)[Visited(n, t)] == was[Visited(n, t)]
  {
    hide Visited, Drawn, Steps;
    forall s | 0 <= s < t ensures Visited(n, s) != Visited(n, t) {
      if Visited(n, s) == Visited(n, t) { VisitedOnce(n, s, t); }
    }
    NotYetDrawn(n, mask, was, data, t, Visited(n, t));
  }

  /** Marked cells never change. */
  lemma {:induction false} MarkedUnchanged(n: nat, mask: seq<bool>, was: seq<bool>, data: seq<bv8>, t: nat, c: nat)
    requires SizeOk(n) && |mask| == |was| == n * n && t <= Steps(n) && c < n * n && mask[c]
    ensures Drawn(n, mask, was, data, t)[c] == was[c]
  {
    hide Visited, Filled, BitOf, Steps;
    if t > 0 { MarkedUnchanged(n, mask, was, data, t - 1, c); }
  }

  /** Neither do cells of column 6. */
  lemma ColumnSixUnchanged(n: nat, mask: seq<bool>, was: seq<bool>, data: seq<bv8>, t: nat, y: nat)
    requires SizeOk(n) && |mask| == |was| == n * n && t <= Steps(n) && y < n
    ensures Drawn(n, mask, was, data, t)[CellOf(n, 6, y)] == was[CellOf(n, 6, y)]
  {
    hide Visited, Drawn, Steps, StepOf, CellOf;
    var c := CellOf(n, 6, y);
    forall s | 0 <= s < t ensures Visited(n, s) != c {
      var u, v := VisitedCell(n, s);
      if Visited(n, s) == c { CellUnique(n, u, v, 6, y); }
    }
    NotYetDrawn(n, mask, was, data, t, c);
  }

  /** What a cell received at its step stays. */
  lemma {:induction false} StaysDrawn(n: nat, mask: seq<bool>, was: seq<bool>, data: seq<bv8>, s: nat, t: nat)
    requires SizeOk(n) && |mask| == |was| == n * n && s < t <= Steps(n)
    ensures Writes(n, mask, data, s) ==> Drawn(n, mask, was, data, t)[Visited(n, s)] == BitOf(data, Filled(n, mask, s))
  {
    hide Visited, Filled, BitOf, Steps;
    if s < t - 1 {
      StaysDrawn(n, mask, was, data, s, t - 1);
      if Visited(n, s) == Visited(n, t - 1) { VisitedOnce(n, s, t - 1); }
    }
  }

  // ---- Reading back ----

  /** The modules of the unmarked cells, in the order of the scan. */
  ghost function Read(n: nat, mask: seq<bool>, g: seq<bool>, t: nat): (b: seq<bool>)
    requires SizeOk(n) && |mask| == |g| == n * n && t <= Steps(n)
    ensures |b| == Filled(n, mask, t)
  {
    if t == 0 then []
    else if mask[Visited(n, t - 1)] then Read(n, mask, g, t - 1)
    else Read(n, mask, g, t - 1) + [g[Visited(n, t - 1)]]
  }

  lemma {:induction false} ReadDrawnUpTo(n: nat, mask: seq<bool>, was: seq<bool>, data: seq<bv8>, t: nat, k: nat)
    requires SizeOk(n) && |mask| == |was| == n * n && t <= Steps(n)
    requires k < Filled(n, mask, t) && k < 8 * |data|
    ensures Read(n, mask, Drawn(n, mask, was, data, Steps(n)), t)[k] == BitOf(data, k)
  {
    hide Visited, BitOf, Steps, Drawn;
    if k < Filled(n, mask, t - 1) {
      ReadDrawnUpTo(n, mask, was, data, t - 1, k);
    } else {
      StaysDrawn(n, mask, was, data, t - 1, Steps(n));
    }
  }

  /** With room for all the bits, scanning the drawn grid again reads the codewords back. */
  lemma ReadDrawn(n: nat, mask: seq<bool>, was: seq<bool>, data: seq<bv8>, k: nat)
    requires SizeOk(n) && |mask| == |was| == n * n
    requires k < 8 * |data| <= Room(n, mask)
    ensures Read(n, mask, Drawn(n, mask, was, data, Steps(n)), Steps(n))[k] == BitOf(data, k)
  {
    hide Drawn, Read, Filled, BitOf, Steps;
    ReadDrawnUpTo(n, mask, was, data, Steps(n), k);
  }

  // ---- The loops ----

  /** The bit index is the room used so far, or stays at the end of the data. */
  ghost predicate BitIndex(n: nat, mask: seq<bool>, dataLen: nat, t: nat, i: nat)
    requires SizeOk(n) && |mask| == n * n && t <= Steps(n)
  {
    i == if Filled(n, mask, t) < 8 * dataLen then Filled(n, mask, t) else 8 * dataLen
  }

  lemma DrawStep(n: nat, mask: seq<bool>, was: seq<bool>, data: seq<bv8>, t: nat, i: nat)
    requires SizeOk(n) && |mask| == |was| == n * n && t < Steps(n) && BitIndex(n, mask, |data|, t, i)
    ensures var g := Drawn(n, mask, was, data, t);
            if !mask[Visited(n, t)] && i < 8 * |data|
            then Drawn(n, mask, was, data, t + 1) == g[Visited(n, t) := BitOf(data, i)] && BitIndex(n, mask, |data|, t + 1, i + 1)
            else Drawn(n, mask, was, data, t + 1) == g && BitIndex(n, mask, |data|, t + 1, i)
  {
    hide Visited, BitOf, Steps;
  }

  /** t steps are done, with the marks of the starting grid as mask. */
  ghost predicate Scanning(was: seq<bool>, data: seq<bv8>, q: seq<bv8>, t: nat, i: nat) {
    IsGrid(q) && |was| == Size(q) * Size(q) && t <= Steps(Size(q))
    && Modules(q) == Drawn(Size(q), was, was, data, t) && BitIndex(Size(q), was, |data|, t, i)
  }

  /** The innermost body of the C version, at one cell. */
  method DrawCell(ghost was: seq<bool>, data: seq<bv8>, q: array<bv8>, x: nat, y: nat, ghost t: nat, start: nat) returns (i: nat)
    requires Scanning(was, data, q[..], t, start) && t < Steps(Size(q[..]))
    requires x < Size(q[..]) && y < Size(q[..]) && Visited(Size(q[..]), t) == CellOf(Size(q[..]), x, y)
    modifies q
    ensures Size(q[..]) == old(Size(q[..])) && Scanning(was, data, q[..], t + 1, i)
  {
    hide Visited, Drawn, BitIndex, Modules, Steps, GetBit;
    ghost var n := Size(q[..]);
    i := start;
    NextUndrawn(n, was, was, data, t);
    DrawStep(n, was, was, data, t, i);
    var marked := GetModule(q, x, y);
    if !marked && i < |data| * 8 {
      var dark := GetBit(data[i / 8], 7 - i % 8);
      SetModule(q, x, y, dark);
      i := i + 1;
    }
  }

  /** Where the loop over column pairs stands before pair p. */
  ghost predicate BeforePair(n: nat, p: nat, right: int)
    requires SizeOk(n)
  {
    p <= Pairs(n) && right == if n - 1 - 2 * p >= 6 then n - 1 - 2 * p else n - 2 - 2 * p
  }

  lemma AtPair(n: nat, p: nat, right: int)
    requires SizeOk(n) && BeforePair(n, p, right)
    ensures p <= Pairs(n) && (right >= 1 <==> p < Pairs(n))
    ensures right >= 1 ==> Right(n, p) == (if right == 6 then 5 else right) && BeforePair(n, p + 1, Right(n, p) - 2)
  {
  }

  lemma StepCounts(n: nat, p: nat, v: nat)
    requires SizeOk(n)
    ensures Step(n, p, v, 0) + 1 == Step(n, p, v, 1) && Step(n, p, v, 1) + 1 == Step(n, p, v + 1, 0)
    ensures Step(n, p, n, 0) == Step(n, p + 1, 0, 0) && Step(n, 0, 0, 0) == 0 && Step(n, Pairs(n), 0, 0) == Steps(n)
  {
    hide Pairs;
    assert (p + 1) * n == p * n + n;
  }

  lemma StartScan(n: nat, f: seq<bool>, was: seq<bool>, data: seq<bv8>)
    requires SizeOk(n) && |f| == |was| == n * n
    ensures BeforePair(n, 0, n - 1) && Drawn(n, f, was, data, 0) == was && BitIndex(n, f, |data|, 0, 0)
  {
  }

  /** drawCodewords of the C version: dark modules of the grid being drawn mark the function modules. */
  method DrawCodewords(data: seq<bv8>, q: array<bv8>)
    requires IsGrid(q[..])
    requires 8 * |data| <= Room(Size(q[..]), Modules(q[..]))
    modifies q
    ensures IsGrid(q[..]) && Size(q[..]) == old(Size(q[..]))
    ensures var n, was := old(Size(q[..])), old(Modules(q[..])); Modules(q[..]) == Drawn(n, was, was, data, Steps(n))
  {
    hide Drawn, BitIndex, Modules, Step, Steps, Pairs, Upward, BeforePair, Right, Visited, CellOf;
    var n := Size(q[..]);
    ghost var was := Modules(q[..]);
    var i: nat := 0;
    var right: int := n - 1;
    ghost var p: nat := 0;
    StartScan(n, was, was, data);
    StepCounts(n, 0, 0);
    AtPair(n, p, right);
    while right >= 1
      invariant Size(q[..]) == n && BeforePair(n, p, right) && p <= Pairs(n) && (right >= 1 <==> p < Pairs(n))
      invariant Scanning(was, data, q[..], Step(n, p, 0, 0), i)
      decreases right
    {
      AtPair(n, p, right);
      if right == 6 {
        right := 5;
      }
      for vert := 0 to n
        invariant Size(q[..]) == n && Scanning(was, data, q[..], Step(n, p, vert, 0), i)
      {
        var upward := Upward(right);
        var y := if upward then n - 1 - vert else vert;
        StepCounts(n, p, vert);
        StepIs(n, p, vert, 0);
        StepIs(n, p, vert, 1);
        i := DrawCell(was, data, q, right, y, Step(n, p, vert, 0), i);
        i := DrawCell(was, data, q, right - 1, y, Step(n, p, vert, 1), i);
      }
      StepCounts(n, p, 0);
      right := right - 2;
      p := p + 1;
      AtPair(n, p, right);
    }
    StepCounts(n, p, 0);
  }
}
