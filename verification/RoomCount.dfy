/** Counting the modules that carry data: the formula of getNumRawDataModules against the marks it summarises. */
module RoomCount {
  import opened Arithmetic
  import opened Grid
  import opened FunctionModules
  import opened Versions
  import opened CellSets
  import opened Zigzag

  // ---- Alignment patterns are far apart ----

  /** Neighbouring centres are at least twelve modules apart; the first is 6, the last seven from the edge. */
  lemma AlignGap(v: nat, i: nat)
    requires VersionOk(v) && i + 1 < NumAlign(v)
    ensures AlignPos(v, i + 1) >= AlignPos(v, i) + 12
    ensures AlignPos(v, NumAlign(v) - 1) == SizeOf(v) - 7
  {
    StepRange(v);
    var m, s := NumAlign(v) - 2 - i, AlignStep(v);
    assert (m + 1) * s == m * s + s;
    if i == 0 { assert m == NumAlign(v) - 2; }
  }

  lemma {:induction false} AlignFar(v: nat, i: nat, j: nat)
    requires VersionOk(v) && i < j < NumAlign(v)
    ensures AlignPos(v, j) >= AlignPos(v, i) + 12
  {
    hide AlignPos;
    AlignGap(v, j - 1);
    if i < j - 1 { AlignFar(v, i, j - 1); }
  }

  /** The five columns of the patterns with indices lo to hi - 1. */
  ghost function Bands(v: nat, lo: nat, hi: int): set<int>
    requires VersionOk(v) && hi <= NumAlign(v)
    decreases hi - lo
  {
    if lo >= hi then {} else Bands(v, lo, hi - 1) + Interval(AlignPos(v, hi - 1) - 2, AlignPos(v, hi - 1) + 3)
  }

  ghost predicate InBand(v: nat, x: int, lo: nat, hi: int)
    requires VersionOk(v) && hi <= NumAlign(v)
  {
    exists i: nat :: lo <= i < hi && Near(v, x, i)
  }

  predicate Near(v: nat, x: int, i: nat)
    requires VersionOk(v) && i < NumAlign(v)
  {
    AlignPos(v, i) - 2 <= x <= AlignPos(v, i) + 2
  }

  lemma InBandNone(v: nat, x: int, lo: nat, hi: int)
    requires VersionOk(v) && hi <= NumAlign(v) && hi <= lo
    ensures !InBand(v, x, lo, hi)
  {
  }

  lemma InBandNext(v: nat, x: int, lo: nat, hi: int)
    requires VersionOk(v) && lo < hi <= NumAlign(v)
    ensures InBand(v, x, lo, hi) <==> InBand(v, x, lo, hi - 1) || Near(v, x, hi - 1)
  {
    hide Near, NumAlign;
    if InBand(v, x, lo, hi) {
      var i: nat :| lo <= i < hi && Near(v, x, i);
      if i < hi - 1 { assert InBand(v, x, lo, hi - 1); }
    }
  }

  lemma NearInterval(v: nat, x: int, i: nat)
    requires VersionOk(v) && i < NumAlign(v)
    ensures Near(v, x, i) <==> x in Interval(AlignPos(v, i) - 2, AlignPos(v, i) + 3)
  {
    hide AlignPos, NumAlign, Interval;
  }


  lemma {:induction false} BandsAre(v: nat, lo: nat, hi: int, x: int)
    requires VersionOk(v) && hi <= NumAlign(v)
    ensures x in Bands(v, lo, hi) <==> InBand(v, x, lo, hi)
    decreases hi - lo
  {
    hide AlignPos, NumAlign, InBand, Near;
    if lo < hi {
      BandsAre(v, lo, hi - 1, x);
      InBandNext(v, x, lo, hi);
      NearInterval(v, x, hi - 1);
    } else {
      InBandNone(v, x, lo, hi);
    }
  }

  lemma BandsApart(v: nat, lo: nat, hi: nat, x: int)
    requires VersionOk(v) && lo < hi <= NumAlign(v) && x in Bands(v, lo, hi - 1)
    ensures x < AlignPos(v, hi - 1) - 2
  {
    hide AlignPos, Interval, Bands, NumAlign;
    BandsAre(v, lo, hi - 1, x);
    var i: nat :| lo <= i < hi - 1 && Near(v, x, i);
    AlignFar(v, i, hi - 1);
  }

  lemma {:induction false} BandsSize(v: nat, lo: nat, hi: nat)
    requires VersionOk(v) && lo <= hi <= NumAlign(v)
    ensures |Bands(v, lo, hi)| == 5 * (hi - lo)
    decreases hi - lo
  {
    hide *;
    if lo == hi {
      BandsNone(v, lo);
    } else {
      var p := AlignPos(v, hi - 1);
      BandsSize(v, lo, hi - 1);
      IntervalSize(p - 2, p + 3);
      BandsStep(v, lo, hi);
      UnionSize(Bands(v, lo, hi - 1), Interval(p - 2, p + 3));
    }
  }

  lemma BandsNone(v: nat, lo: nat)
    requires VersionOk(v) && lo <= NumAlign(v)
    ensures Bands(v, lo, lo) == {}
  {
  }

  lemma BandsStep(v: nat, lo: nat, hi: nat)
    requires VersionOk(v) && lo < hi <= NumAlign(v)
    ensures var last := Interval(AlignPos(v, hi - 1) - 2, AlignPos(v, hi - 1) + 3);
            Bands(v, lo, hi) == Bands(v, lo, hi - 1) + last && Bands(v, lo, hi - 1) !! last
  {
    hide AlignPos, Interval, NumAlign;
    var p := AlignPos(v, hi - 1);
    var front, last := Bands(v, lo, hi - 1), Interval(p - 2, p + 3);
    forall x | x in front ensures x !in last {
      BandsApart(v, lo, hi, x);
    }
  }

  /** Where the bands are: away from the first nine columns, and the inner ones from the last seventeen. */
  lemma BandRange(v: nat, x: int)
    requires VersionOk(v)
    ensures InBand(v, x, 1, NumAlign(v)) ==> 16 <= x < SizeOf(v) - 4
    ensures InBand(v, x, 1, NumAlign(v) - 1) ==> 16 <= x < SizeOf(v) - 16
  {
    hide AlignPos, NumAlign;
    var n: int := NumAlign(v);
    if InBand(v, x, 1, n) {
      var i: nat :| 1 <= i < n && Near(v, x, i);
      CentreRange(v, i);
    }
    if InBand(v, x, 1, n - 1) {
      var i: nat :| 1 <= i < n - 1 && Near(v, x, i);
      CentreRange(v, i);
    }
  }

  lemma CentreRange(v: nat, i: nat)
    requires VersionOk(v) && 1 <= i < NumAlign(v)
    ensures 18 <= AlignPos(v, i) <= SizeOf(v) - 7
    ensures i < NumAlign(v) - 1 ==> AlignPos(v, i) <= SizeOf(v) - 19
  {
    First(v);
    hide AlignPos, NumAlign;
    AlignFar(v, 0, i);
    AlignGap(v, 0);
    if i < NumAlign(v) - 1 { AlignFar(v, i, NumAlign(v) - 1); }
  }

  lemma First(v: nat)
    requires VersionOk(v) && NumAlign(v) > 0
    ensures AlignPos(v, 0) == 6 && NumAlign(v) >= 2
  {
  }

  // ---- The marks as disjoint pieces ----

  predicate NearSix(x: int) {
    4 <= x <= 8
  }

  lemma AlignedBands(v: nat, x: int, y: int)
    requires VersionOk(v)
    ensures Aligned(v, x, y) <==>
      || (NearSix(x) && InBand(v, y, 1, NumAlign(v) - 1))
      || (InBand(v, x, 1, NumAlign(v) - 1) && NearSix(y))
      || (InBand(v, x, 1, NumAlign(v)) && InBand(v, y, 1, NumAlign(v)))
  {
    var n: int := NumAlign(v);
    if n > 0 { First(v); }
    hide AlignPos, NumAlign;
    if Aligned(v, x, y) {
      var i: nat, j: nat :| i < n && j < n && AlignCovers(v, x, y, i, j);
      assert Near(v, x, i) && Near(v, y, j);
      assert i == 0 ==> 1 <= j < n - 1;
      assert j == 0 ==> 1 <= i < n - 1;
    }
    if NearSix(x) && InBand(v, y, 1, n - 1) {
      var j: nat :| 1 <= j < n - 1 && Near(v, y, j);
      assert AlignCovers(v, x, y, 0, j);
    }
    if NearSix(y) && InBand(v, x, 1, n - 1) {
      var i: nat :| 1 <= i < n - 1 && Near(v, x, i);
      assert AlignCovers(v, x, y, i, 0);
    }
    if InBand(v, x, 1, n) && InBand(v, y, 1, n) {
      var i: nat :| 1 <= i < n && Near(v, x, i);
      var j: nat :| 1 <= j < n && Near(v, y, j);
      assert AlignCovers(v, x, y, i, j);
    }
  }

  /** The ten disjoint pieces: three finder corners, two timing strips, the alignment patterns on and off them, two version blocks. */
  ghost function Piece(v: nat, k: nat): set<(int, int)>
    requires VersionOk(v) && k < 10
  {
    var n, near := SizeOf(v), {4, 5, 7, 8};
    var inner, outer := Bands(v, 1, NumAlign(v) - 1), Bands(v, 1, NumAlign(v));
    match k
    case 0 => Cross(Interval(0, 9), Interval(0, 9))
    case 1 => Cross(Interval(n - 8, n), Interval(0, 9))
    case 2 => Cross(Interval(0, 9), Interval(n - 8, n))
    case 3 => Cross(Interval(9, n - 8), {6})
    case 4 => Cross({6}, Interval(9, n - 8))
    case 5 => Cross(near, inner)
    case 6 => Cross(inner, near)
    case 7 => Cross(outer, outer)
    case 8 => if v >= 7 then Cross(Interval(n - 11, n - 8), Interval(0, 6)) else {}
    case _ => if v >= 7 then Cross(Interval(0, 6), Interval(n - 11, n - 8)) else {}
  }

  function PieceSize(v: nat, k: nat): int
    requires VersionOk(v)
  {
    var n, a := SizeOf(v), NumAlign(v);
    match k
    case 0 => 81
    case 1 => 72
    case 2 => 72
    case 3 => n - 17
    case 4 => n - 17
    case 5 => if v == 1 then 0 else 20 * (a - 2)
    case 6 => if v == 1 then 0 else 20 * (a - 2)
    case 7 => if v == 1 then 0 else 25 * (a - 1) * (a - 1)
    case 8 => if v >= 7 then 18 else 0
    case _ => if v >= 7 then 18 else 0
  }

  lemma BandCounts(v: nat)
    requires VersionOk(v)
    ensures |Bands(v, 1, NumAlign(v) - 1)| == (if v == 1 then 0 else 5 * (NumAlign(v) - 2))
    ensures |Bands(v, 1, NumAlign(v))| == (if v == 1 then 0 else 5 * (NumAlign(v) - 1))
  {
    if v > 1 {
      BandsSize(v, 1, NumAlign(v) - 1);
      BandsSize(v, 1, NumAlign(v));
    }
  }

  lemma CornerCount(v: nat, k: nat)
    requires VersionOk(v) && k < 5
    ensures |Piece(v, k)| == PieceSize(v, k)
  {
    hide Cross, Interval, Bands, NumAlign;
    var n := SizeOf(v);
    IntervalSize(0, 9);
    IntervalSize(n - 8, n);
    IntervalSize(9, n - 8);
    match k
    case 0 => CrossSize(Interval(0, 9), Interval(0, 9));
    case 1 => CrossSize(Interval(n - 8, n), Interval(0, 9));
    case 2 => CrossSize(Interval(0, 9), Interval(n - 8, n));
    case 3 => CrossSize(Interval(9, n - 8), {6});
    case _ => CrossSize({6}, Interval(9, n - 8));
  }

  lemma PatternCount(v: nat, k: nat)
    requires VersionOk(v) && 5 <= k < 8
    ensures |Piece(v, k)| == PieceSize(v, k)
  {
    hide Cross, Interval, Bands, NumAlign;
    BandCounts(v);
    var near: set<int> := {4, 5, 7, 8};
    var inner, outer := Bands(v, 1, NumAlign(v) - 1), Bands(v, 1, NumAlign(v));
    if k == 5 {
      CrossSize(near, inner);
    } else if k == 6 {
      CrossSize(inner, near);
    } else {
      CrossSize(outer, outer);
      SquareOf5(NumAlign(v) - 1);
    }
  }

  lemma SquareOf5(m: int)
    ensures (5 * m) * (5 * m) == 25 * m * m
  {
  }

  lemma VersionBlockCount(v: nat, k: nat)
    requires VersionOk(v) && 8 <= k < 10
    ensures |Piece(v, k)| == PieceSize(v, k)
  {
    hide Cross, Interval, Bands, NumAlign;
    var n := SizeOf(v);
    IntervalSize(n - 11, n - 8);
    IntervalSize(0, 6);
    CrossSize(Interval(n - 11, n - 8), Interval(0, 6));
    CrossSize(Interval(0, 6), Interval(n - 11, n - 8));
  }

  lemma PieceCount(v: nat, k: nat)
    requires VersionOk(v) && k < 10
    ensures |Piece(v, k)| == PieceSize(v, k)
  {
    hide *;
    if k < 5 { CornerCount(v, k); } else if k < 8 { PatternCount(v, k); } else { VersionBlockCount(v, k); }
  }

  /** Which piece a marked cell belongs to. */
  function Kind(n: nat, x: int, y: int): nat {
    if x < 9 && y < 9 then 0 else if x >= n - 8 && y < 9 then 1 else if x < 9 && y >= n - 8 then 2
    else if y == 6 then 3 else if x == 6 then 4
    else if x < 9 then (if y < n - 16 then 5 else 9) else if y < 9 then (if x < n - 16 then 6 else 8) else 7
  }

  lemma PieceKind(v: nat, k: nat, x: int, y: int)
    requires VersionOk(v) && k < 10
    ensures (x, y) in Piece(v, k) ==> Kind(SizeOf(v), x, y) == k
  {
    hide Bands, NumAlign, InBand;
    var a: int := NumAlign(v);
    BandsAre(v, 1, a - 1, x);
    BandsAre(v, 1, a - 1, y);
    BandsAre(v, 1, a, x);
    BandsAre(v, 1, a, y);
    BandRange(v, x);
    BandRange(v, y);
  }

  /** A cell of the grid is marked if and only if it is in the piece of its kind. */
  lemma MarkedPiece(v: nat, x: int, y: int)
    requires VersionOk(v)
    ensures (x, y) in Piece(v, Kind(SizeOf(v), x, y)) <==> 0 <= x < SizeOf(v) && 0 <= y < SizeOf(v) && IsFunction(v, x, y)
  {
    hide Bands, NumAlign, InBand, Aligned;
    var a: int := NumAlign(v);
    BandsAre(v, 1, a - 1, x);
    BandsAre(v, 1, a - 1, y);
    BandsAre(v, 1, a, x);
    BandsAre(v, 1, a, y);
    BandRange(v, x);
    BandRange(v, y);
    AlignedBands(v, x, y);
    InnerBands(v, x);
    InnerBands(v, y);
  }

  lemma InnerBands(v: nat, x: int)
    requires VersionOk(v)
    ensures InBand(v, x, 1, NumAlign(v) - 1) ==> InBand(v, x, 1, NumAlign(v))
  {
    hide AlignPos, NumAlign;
  }

  ghost function Marks(v: nat, k: nat): set<(int, int)>
    requires VersionOk(v) && k <= 10
  {
    if k == 0 then {} else Marks(v, k - 1) + Piece(v, k - 1)
  }

  function MarksSize(v: nat, k: nat): int
    requires VersionOk(v) && k <= 10
  {
    if k == 0 then 0 else MarksSize(v, k - 1) + PieceSize(v, k - 1)
  }

  lemma {:induction false} MarksAre(v: nat, k: nat, x: int, y: int)
    requires VersionOk(v) && k <= 10
    ensures (x, y) in Marks(v, k) <==> Kind(SizeOf(v), x, y) < k && (x, y) in Piece(v, Kind(SizeOf(v), x, y))
  {
    hide Piece, Kind;
    if k > 0 {
      MarksAre(v, k - 1, x, y);
      PieceKind(v, k - 1, x, y);
    }
  }

  lemma {:induction false} MarksCount(v: nat, k: nat)
    requires VersionOk(v) && k <= 10
    ensures |Marks(v, k)| == MarksSize(v, k)
  {
    hide Piece, Kind, PieceSize;
    if k > 0 {
      MarksCount(v, k - 1);
      PieceCount(v, k - 1);
      MarksApart(v, k);
      UnionSize(Marks(v, k - 1), Piece(v, k - 1));
    }
  }

  lemma MarksApart(v: nat, k: nat)
    requires VersionOk(v) && 0 < k <= 10
    ensures Marks(v, k - 1) !! Piece(v, k - 1)
  {
    hide Piece, Kind, Marks;
    var front, last := Marks(v, k - 1), Piece(v, k - 1);
    forall c | c in front ensures c !in last {
      MarksAre(v, k - 1, c.0, c.1);
      PieceKind(v, k - 1, c.0, c.1);
    }
  }

  function PatternMarks(v: nat): int
    requires VersionOk(v)
  {
    var a := NumAlign(v);
    if v == 1 then 0 else 20 * (a - 2) + 20 * (a - 2) + 25 * (a - 1) * (a - 1)
  }

  lemma PiecesTotal(v: nat)
    requires VersionOk(v)
    ensures MarksSize(v, 10) == 225 + 2 * (SizeOf(v) - 17) + PatternMarks(v) + (if v >= 7 then 36 else 0)
  {
    hide NumAlign, MarksSize;
    AddPiece(v, 0);
    AddPiece(v, 1);
    AddPiece(v, 2);
    AddPiece(v, 3);
    AddPiece(v, 4);
    AddPiece(v, 5);
    AddPiece(v, 6);
    AddPiece(v, 7);
    AddPiece(v, 8);
    AddPiece(v, 9);
  }

  lemma AddPiece(v: nat, k: nat)
    requires VersionOk(v) && k < 10
    ensures MarksSize(v, 0) == 0 && MarksSize(v, k + 1) == MarksSize(v, k) + PieceSize(v, k)
  {
  }

  lemma SquareMinus(a: int)
    ensures 40 * (a - 2) + 25 * (a - 1) * (a - 1) == (25 * a - 10) * a - 55
  {
    DistributeRight(25 * a, -10, a);
    Associate(25, a - 1, a - 1);
    Distribute(a - 1, a, -1);
    Associate(25, a, a);
  }

  lemma PatternFormula(v: nat)
    requires VersionOk(v)
    ensures PatternMarks(v) == if v == 1 then 0 else (25 * NumAlign(v) - 10) * NumAlign(v) - 55
  {
    SquareMinus(NumAlign(v));
  }

  lemma Square(v: int)
    ensures (4 * v + 17) * (4 * v + 17) == (16 * v + 128) * v + 8 * v + 289
  {
    Distribute(4 * v + 17, 4 * v, 17);
    DistributeRight(4 * v, 17, 4 * v);
    DistributeRight(16 * v, 128, v);
  }

  /** The marks leave exactly as many modules as getNumRawDataModules computes. */
  lemma MarksTotal(v: nat)
    requires VersionOk(v)
    ensures MarksSize(v, 10) == SizeOf(v) * SizeOf(v) - RawDataModules(v)
  {
    PiecesTotal(v);
    PatternFormula(v);
    Square(v);
    RawDataIs(v);
    assert SizeOf(v) == 4 * v + 17;
    hide *;
  }

  lemma RawDataIs(v: nat)
    requires VersionOk(v)
    ensures var pattern := (25 * NumAlign(v) - 10) * NumAlign(v) - 55;
            RawDataModules(v) == (16 * v + 128) * v + 64 - (if v < 2 then 0 else pattern + (if v >= 7 then 36 else 0))
  {
  }

  // ---- From marks to scan steps ----

  function CellAt(n: nat, c: nat): (int, int)
    requires n > 0
  {
    (c % n, c / n)
  }

  /** The unmarked cells among the first t visited. */
  ghost function Seen(n: nat, mask: seq<bool>, t: nat): set<(int, int)>
    requires SizeOk(n) && |mask| == n * n && t <= Steps(n)
  {
    if t == 0 then {}
    else if mask[Visited(n, t - 1)] then Seen(n, mask, t - 1)
    else Seen(n, mask, t - 1) + {CellAt(n, Visited(n, t - 1))}
  }

  ghost predicate SeenBefore(n: nat, mask: seq<bool>, t: nat, x: int, y: int)
    requires SizeOk(n) && |mask| == n * n && t <= Steps(n)
  {
    0 <= x < n && x != 6 && 0 <= y < n && StepOf(n, x, y) < t && !mask[CellOf(n, x, y)]
  }

  lemma CellAtOf(n: nat, x: nat, y: nat)
    requires x < n && y < n
    ensures CellAt(n, CellOf(n, x, y)) == (x, y)
  {
    DivUnique(y * n + x, n, y, x);
  }

  lemma {:induction false} SeenAre(n: nat, mask: seq<bool>, t: nat, x: int, y: int)
    requires SizeOk(n) && |mask| == n * n && t <= Steps(n)
    ensures (x, y) in Seen(n, mask, t) <==> SeenBefore(n, mask, t, x, y)
  {
    hide Visited, CellOf, CellAt, StepOf, Steps;
    if t > 0 {
      SeenAre(n, mask, t - 1, x, y);
      CellAtStep(n, t - 1, x, y);
    }
  }

  lemma CellAtStep(n: nat, t: nat, x: int, y: int)
    requires SizeOk(n) && t < Steps(n)
    ensures (x, y) == CellAt(n, Visited(n, t)) <==> 0 <= x < n && x != 6 && 0 <= y < n && StepOf(n, x, y) == t
    ensures (x, y) == CellAt(n, Visited(n, t)) ==> Visited(n, t) == CellOf(n, x, y)
  {
    hide *;
    var u, w := VisitedCell(n, t);
    CellAtOf(n, u, w);
    if 0 <= x < n && x != 6 && 0 <= y < n {
      CellVisited(n, x, y);
      CellAtOf(n, x, y);
    }
  }

  lemma {:induction false} SeenCount(n: nat, mask: seq<bool>, t: nat)
    requires SizeOk(n) && |mask| == n * n && t <= Steps(n)
    ensures |Seen(n, mask, t)| == Filled(n, mask, t)
  {
    hide Visited, CellOf, CellAt, StepOf, Steps;
    if t > 0 {
      SeenCount(n, mask, t - 1);
      var u, w := VisitedCell(n, t - 1);
      CellAtOf(n, u, w);
      SeenAre(n, mask, t - 1, u, w);
    }
  }

  lemma UnmarkedSeen(v: nat, x: int, y: int)
    requires VersionOk(v)
    ensures (x, y) in Seen(SizeOf(v), FunctionMask(v), Steps(SizeOf(v)))
       <==> (x, y) in Cross(Interval(0, SizeOf(v)), Interval(0, SizeOf(v))) && (x, y) !in Marks(v, 10)
  {
    hide Seen, Marks, Piece, Kind, Steps, StepOf, FunctionMask;
    var n := SizeOf(v);
    SeenAre(n, FunctionMask(v), Steps(n), x, y);
    MarksAre(v, 10, x, y);
    MarkedPiece(v, x, y);
    KindBelow(n, x, y);
    if 0 <= x < n && 0 <= y < n {
      MaskCellIs(v, x, y);
      if x != 6 { CellVisited(n, x, y); }
    }
  }

  lemma KindBelow(n: nat, x: int, y: int)
    ensures Kind(n, x, y) < 10
  {
  }

  lemma Difference<T>(a: set<T>, b: set<T>, c: set<T>)
    requires b <= a && c == a - b
    ensures |c| == |a| - |b|
  {
  }

  /** For every version, the scan finds exactly getNumRawDataModules unmarked modules. */
  lemma RoomTheorem(v: nat)
    requires VersionOk(v)
    ensures SizeOk(SizeOf(v)) && Room(SizeOf(v), FunctionMask(v)) == RawDataModules(v)
  {
    hide Seen, Marks, Piece, Kind, Steps, StepOf, FunctionMask, MarksSize, RawDataModules, Cross, Interval, Filled, IsFunction;
    var n := SizeOf(v);
    var whole, marks, seen := Cross(Interval(0, n), Interval(0, n)), Marks(v, 10), Seen(n, FunctionMask(v), Steps(n));
    forall c: (int, int) ensures c in seen <==> c in whole && c !in marks { UnmarkedSeen(v, c.0, c.1); }
    forall c | c in marks ensures c in whole { MarksInside(v, c.0, c.1); }
    assert seen == whole - marks;
    IntervalSize(0, n);
    CrossSize(Interval(0, n), Interval(0, n));
    Difference(whole, marks, seen);
    SeenCount(n, FunctionMask(v), Steps(n));
    MarksCount(v, 10);
    MarksTotal(v);
  }

  lemma MarksInside(v: nat, x: int, y: int)
    requires VersionOk(v) && (x, y) in Marks(v, 10)
    ensures (x, y) in Cross(Interval(0, SizeOf(v)), Interval(0, SizeOf(v)))
  {
    hide Marks, Piece, Kind, IsFunction;
    MarksAre(v, 10, x, y);
    MarkedPiece(v, x, y);
  }
}
