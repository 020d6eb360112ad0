/** The penalty as ISO/IEC 18004 section 7.8.3.1 words it, module by module: what the runs and the score of Penalty count. */
module PenaltyRules {
  import opened CellSets
  import opened Grid
  import opened Penalty

  // ---- Runs laid out along the line ----

  /** Where run j starts. */
  function Start(r: seq<nat>, j: nat): nat
    requires j <= |r|
  {
    Total(r[..j])
  }

  lemma StartZero(r: seq<nat>)
    ensures Start(r, 0) == 0
  {
  }

  lemma StartNext(r: seq<nat>, j: nat)
    requires j < |r|
    ensures Start(r, j + 1) == Start(r, j) + r[j]
  {
    FrontSnoc(r[..j], r[j]);
    assert r[..j + 1] == r[..j] + [r[j]];
    hide Front, Last;
  }

  lemma {:induction false} ExpandLength(r: seq<nat>)
    ensures |Expand(r)| == Total(r)
  {
    if r != [] {
      hide DarkRun, Front, Last;
      FrontLast(r);
      ExpandLength(Front(r));
    }
  }

  lemma StartEnd(r: seq<nat>)
    ensures Start(r, |r|) == |Expand(r)|
  {
    assert r[..|r|] == r;
    ExpandLength(r);
  }

  lemma {:induction false} StartInside(r: seq<nat>, j: nat)
    requires j <= |r|
    ensures Start(r, j) <= |Expand(r)|
    decreases |r| - j
  {
    hide Start, Expand;
    if j < |r| {
      StartNext(r, j);
      StartInside(r, j + 1);
    } else {
      StartEnd(r);
    }
  }

  lemma ExpandFront(r: seq<nat>)
    requires |r| > 0
    ensures Expand(r) == Expand(Front(r)) + Repeat(DarkRun(|r| - 1), Last(r))
  {
  }

  /** All modules of run j have the colour of the run. */
  lemma {:induction false} ColourAt(r: seq<nat>, j: nat, i: nat)
    requires j < |r| && i < r[j]
    ensures Start(r, j) + i < |Expand(r)| && Expand(r)[Start(r, j) + i] == DarkRun(j)
    decreases |r|
  {
    var f := Front(r);
    ExpandFront(r);
    FrontLast(r);
    if j == |r| - 1 {
      assert r[..j] == f;
      ExpandLength(f);
    } else {
      assert f[..j] == r[..j];
      hide DarkRun, Start;
      ColourAt(f, j, i);
    }
  }

  /** The modules from position a up to position b all have colour c. */
  predicate All(e: seq<bool>, a: int, b: int, c: bool) {
    0 <= a && b <= |e| && forall i :: a <= i < b ==> e[i] == c
  }

  lemma OtherColour(j: nat)
    ensures DarkRun(j + 1) == !DarkRun(j)
  {
  }

  /** After run j comes a module of the other colour, or the end. */
  lemma NextColour(r: seq<nat>, j: nat)
    requires IsRuns(r) && j < |r| && Start(r, j) + r[j] < |Expand(r)|
    ensures j + 1 < |r| && Expand(r)[Start(r, j) + r[j]] == !DarkRun(j)
  {
    hide Start, Expand, DarkRun;
    StartNext(r, j);
    StartEnd(r);
    OtherColour(j);
    assert j + 1 < |r|;
    ColourAt(r, j + 1, 0);
  }

  /** A stretch of one colour from the start of a run lies in the run. */
  lemma RunCovers(r: seq<nat>, j: nat, c: nat)
    requires IsRuns(r) && j < |r|
    ensures All(Expand(r), Start(r, j), Start(r, j) + c, DarkRun(j)) <==> c <= r[j]
  {
    hide Start, Expand, DarkRun;
    var e, s := Expand(r), Start(r, j);
    StartNext(r, j);
    StartInside(r, j + 1);
    if c <= r[j] {
      forall i | s <= i < s + c ensures e[i] == DarkRun(j) { ColourAt(r, j, i - s); }
    } else if s + c <= |e| {
      NextColour(r, j);
      assert e[s + r[j]] != DarkRun(j);
    }
  }

  /** A stretch of one colour that ends where it changes is the run. */
  lemma RunExact(r: seq<nat>, j: nat, c: nat)
    requires IsRuns(r) && j < |r| && Start(r, j) + c < |Expand(r)|
    ensures All(Expand(r), Start(r, j), Start(r, j) + c, DarkRun(j)) && Expand(r)[Start(r, j) + c] != DarkRun(j) <==> c == r[j]
  {
    hide Start, Expand, DarkRun, All;
    RunCovers(r, j, c);
    if c < r[j] {
      ColourAt(r, j, c);
    } else if c == r[j] {
      NextColour(r, j);
    }
  }

  lemma OddRun(j: nat)
    requires DarkRun(j)
    ensures (j == 1 || j > 2) && !DarkRun(j - 1) && (j > 2 ==> DarkRun(j - 2))
  {
  }

  lemma LightBefore(r: seq<nat>, j: nat, c: nat)
    requires 0 < j < |r| && !DarkRun(j - 1) && c <= r[j - 1]
    ensures All(Expand(r), Start(r, j) - c, Start(r, j), false)
  {
    hide Expand, Start, DarkRun;
    var e, s := Expand(r), Start(r, j);
    StartNext(r, j - 1);
    StartInside(r, j);
    forall i | s - c <= i < s ensures !e[i] { ColourAt(r, j - 1, i - Start(r, j - 1)); }
  }

  /** In front of a light run, unless it is the first, lies a dark module. */
  lemma DarkBefore(r: seq<nat>, j: nat)
    requires IsRuns(r) && j < |r| && DarkRun(j) && r[j - 1] < Start(r, j)
    ensures var p := Start(r, j) - r[j - 1] - 1; p < |Expand(r)| && Expand(r)[p]
  {
    OddRun(j);
    hide Expand, Start, DarkRun;
    StartNext(r, j - 1);
    if j == 1 {
      StartZero(r);
    } else {
      StartNext(r, j - 2);
      ColourAt(r, j - 2, r[j - 2] - 1);
    }
  }

  /** The light modules just before a dark run. */
  lemma RunBefore(r: seq<nat>, j: nat, c: nat)
    requires IsRuns(r) && j < |r| && DarkRun(j)
    ensures All(Expand(r), Start(r, j) - c, Start(r, j), false) <==> c <= r[j - 1]
  {
    OddRun(j);
    hide Expand, Start, DarkRun;
    if c <= r[j - 1] {
      LightBefore(r, j, c);
    } else if c <= Start(r, j) {
      DarkBefore(r, j);
    }
  }

  // ---- Finder-like patterns ----

  /** Bands of the given lengths lie from position p on, their colours alternating from c. */
  predicate Bands(e: seq<bool>, p: int, lengths: seq<nat>, c: bool)
    decreases |lengths|
  {
    lengths == [] || (All(e, p, p + lengths[0], c) && Bands(e, p + lengths[0], lengths[1..], !c))
  }

  /** Bands from the start of a run are the runs from there; only the last one may go on. */
  lemma {:induction false} BandsAre(r: seq<nat>, j: nat, lengths: seq<nat>)
    requires IsRuns(r) && j < |r| && |lengths| > 0 && forall i :: 0 <= i < |lengths| ==> lengths[i] > 0
    ensures Bands(Expand(r), Start(r, j), lengths, DarkRun(j))
       <==> j + |lengths| <= |r| && (forall i :: 0 <= i < |lengths| - 1 ==> r[j + i] == lengths[i])
            && r[j + |lengths| - 1] >= lengths[|lengths| - 1]
    decreases |lengths|
  {
    hide Start, Expand, DarkRun;
    var e, s, x, rest := Expand(r), Start(r, j), lengths[0], lengths[1..];
    RunCovers(r, j, x);
    if |lengths| > 1 {
      assert Bands(e, s + x, rest, !DarkRun(j)) ==> All(e, s + x, s + x + rest[0], !DarkRun(j));
      if s + x < |e| {
        RunExact(r, j, x);
        if x == r[j] {
          NextColour(r, j);
          StartNext(r, j);
          OtherColour(j);
          BandsAre(r, j + 1, rest);
          if j + |lengths| <= |r| { BandsTail(r, j, lengths); }
        }
      } else {
        StartNext(r, j);
        if j + 1 < |r| { ColourAt(r, j + 1, 0); }
      }
    }
  }

  lemma BandsTail(r: seq<nat>, j: nat, lengths: seq<nat>)
    requires |lengths| > 1 && j + |lengths| <= |r| && r[j] == lengths[0]
    ensures (forall i :: 0 <= i < |lengths| - 2 ==> r[j + 1 + i] == lengths[1..][i])
       <==> (forall i :: 0 <= i < |lengths| - 1 ==> r[j + i] == lengths[i])
  {
    if forall i :: 0 <= i < |lengths| - 2 ==> r[j + 1 + i] == lengths[1..][i] {
      forall i | 0 <= i < |lengths| - 1 ensures r[j + i] == lengths[i] {
        if i > 0 { assert r[j + 1 + (i - 1)] == lengths[1..][i - 1]; }
      }
    }
    if forall i :: 0 <= i < |lengths| - 1 ==> r[j + i] == lengths[i] {
      forall i | 0 <= i < |lengths| - 2 ensures r[j + 1 + i] == lengths[1..][i] { assert r[j + (i + 1)] == lengths[i + 1]; }
    }
  }

  /** Dark, light, dark, light, dark in the ratio 1:1:3:1:1 of k modules from p on, with 4k light modules on one side and k on the other. */
  predicate Finder(e: seq<bool>, p: int, k: nat, wideFirst: bool) {
    && k > 0 && All(e, p - (if wideFirst then 4 * k else k), p, false)
    && Bands(e, p, [k, k, 3 * k, k, k, if wideFirst then k else 4 * k], true)
  }

  ghost predicate FinderOccurs(e: seq<bool>, p: int, wideFirst: bool) {
    exists k: nat :: Finder(e, p, k, wideFirst)
  }

  /** The finder-like patterns at position p. */
  ghost function FindersAt(e: seq<bool>, p: int): nat {
    (if FinderOccurs(e, p, true) then 1 else 0) + (if FinderOccurs(e, p, false) then 1 else 0)
  }

  ghost function FinderCount(e: seq<bool>, m: nat): nat {
    if m == 0 then 0 else FinderCount(e, m - 1) + FindersAt(e, m - 1)
  }

  lemma SixLengths(r: seq<nat>, j: nat, k: nat, last: nat)
    requires j + 6 <= |r|
    ensures (forall i :: 0 <= i < 5 ==> r[j + i] == [k, k, 3 * k, k, k, last][i])
       <==> r[j] == k && r[j + 1] == k && r[j + 2] == 3 * k && r[j + 3] == k && r[j + 4] == k
  {
    var l := [k, k, 3 * k, k, k, last];
    if forall i :: 0 <= i < 5 ==> r[j + i] == l[i] {
      assert r[j + 0] == l[0] && r[j + 1] == l[1] && r[j + 2] == l[2] && r[j + 3] == l[3] && r[j + 4] == l[4];
    }
  }

  lemma FinderIs(r: seq<nat>, j: nat, k: nat, wideFirst: bool)
    requires IsRuns(r) && j < |r| && DarkRun(j)
    ensures Finder(Expand(r), Start(r, j), k, wideFirst)
       <==> Core(r, j + 5) && k == RunAt(r, j + 4) && RunAt(r, j - 1) >= (if wideFirst then 4 * k else k)
            && RunAt(r, j + 5) >= (if wideFirst then k else 4 * k)
  {
    hide Expand, Start, Bands, All;
    if k > 0 {
      var lengths := [k, k, 3 * k, k, k, if wideFirst then k else 4 * k];
      BandsAre(r, j, lengths);
      if j + 6 <= |r| { SixLengths(r, j, k, lengths[5]); }
      RunBefore(r, j, if wideFirst then 4 * k else k);
    }
  }

  lemma FindersAre(r: seq<nat>, j: nat)
    requires IsRuns(r) && j < |r| && DarkRun(j)
    ensures FindersAt(Expand(r), Start(r, j)) == Patterns(r, j + 5)
  {
    hide Expand, Start, Core, Finder;
    var e, p, k := Expand(r), Start(r, j), RunAt(r, j + 4);
    forall k: nat, w: bool
      ensures Finder(e, p, k, w) <==> Core(r, j + 5) && k == RunAt(r, j + 4) && RunAt(r, j - 1) >= (if w then 4 * k else k)
                                      && RunAt(r, j + 5) >= (if w then k else 4 * k)
    {
      FinderIs(r, j, k, w);
    }
    assert Finder(e, p, k, true) || !Finder(e, p, k, true);
    assert Finder(e, p, k, false) || !Finder(e, p, k, false);
  }

  lemma FinderEdge(e: seq<bool>, p: nat, k: nat, wideFirst: bool)
    requires Finder(e, p, k, wideFirst)
    ensures 0 < p < |e| && e[p] && !e[p - 1]
  {
  }

  /** No pattern starts at a light module or right behind a dark one. */
  lemma NoFinder(e: seq<bool>, p: nat)
    requires p < |e| && (!e[p] || (p > 0 && e[p - 1]))
    ensures FindersAt(e, p) == 0
  {
    hide Finder;
    forall k: nat, w: bool ensures !Finder(e, p, k, w) {
      if Finder(e, p, k, w) { FinderEdge(e, p, k, w); }
    }
  }

  lemma {:induction false} NoFinders(e: seq<bool>, a: nat, b: nat)
    requires a <= b && forall p :: a <= p < b ==> FindersAt(e, p) == 0
    ensures FinderCount(e, b) == FinderCount(e, a)
  {
    hide FindersAt;
    if a < b { NoFinders(e, a, b - 1); }
  }

  lemma RunFinders(r: seq<nat>, j: nat)
    requires IsRuns(r) && j < |r|
    ensures FinderCount(Expand(r), Start(r, j + 1))
         == FinderCount(Expand(r), Start(r, j)) + (if DarkRun(j) then Patterns(r, j + 5) else 0)
  {
    hide Start, Expand, FindersAt, Patterns;
    var e, s := Expand(r), Start(r, j);
    StartNext(r, j);
    var first := if DarkRun(j) then 1 else 0;
    forall p | s + first <= p < s + r[j] ensures FindersAt(e, p) == 0 {
      ColourAt(r, j, p - s);
      if DarkRun(j) { ColourAt(r, j, p - 1 - s); }
      NoFinder(e, p);
    }
    NoFinders(e, s + first, s + r[j]);
    if DarkRun(j) { FindersAre(r, j); }
  }

  lemma FirstPatterns(r: seq<nat>)
    ensures PatternSum(r, 5) == 0
  {
    assert !Core(r, 0) && !Core(r, 2) && !Core(r, 4);
    hide Core;
    assert PatternSum(r, 3) == PatternSum(r, 1) == 0;
  }

  lemma {:induction false} FinderSum(r: seq<nat>, j: nat)
    requires IsRuns(r) && j <= |r|
    ensures FinderCount(Expand(r), Start(r, j)) == PatternSum(r, j + 5)
  {
    hide Expand, Start, Patterns, DarkRun;
    if j == 0 {
      StartZero(r);
      FirstPatterns(r);
    } else {
      FinderSum(r, j - 1);
      RunFinders(r, j - 1);
      OtherColours(j - 1);
    }
  }

  lemma OtherColours(j: nat)
    ensures DarkRun(j + 5) == !DarkRun(j)
  {
  }

  lemma LastPatterns(r: seq<nat>)
    ensures PatternSum(r, |r| + 5) == PatternSum(r, |r|)
  {
    var n := |r|;
    assert forall t :: n <= t < n + 5 ==> Patterns(r, t) == 0;
    hide Patterns, DarkRun;
    PatternNext(r, n);
    PatternNext(r, n + 1);
    PatternNext(r, n + 2);
    PatternNext(r, n + 3);
    PatternNext(r, n + 4);
  }

  /** The pattern term counts the finder-like patterns of the line the runs spell. */
  lemma PatternsAreFinders(r: seq<nat>)
    requires IsRuns(r)
    ensures PatternSum(r, |r|) == FinderCount(Expand(r), |Expand(r)|)
  {
    hide *;
    FinderSum(r, |r|);
    StartEnd(r);
    LastPatterns(r);
  }

  // ---- Long runs ----

  /** Five modules of one colour from position p on. */
  predicate FiveAlike(e: seq<bool>, p: nat) {
    p + 5 <= |e| && All(e, p, p + 5, e[p])
  }

  /** Five like modules cost three points where their run starts, and every further module of the run costs one. */
  function AlikeAt(e: seq<bool>, p: nat): nat {
    if !FiveAlike(e, p) then 0 else if p > 0 && e[p - 1] == e[p] then 1 else 3
  }

  function AlikeCount(e: seq<bool>, m: nat): nat {
    if m == 0 then 0 else AlikeCount(e, m - 1) + AlikeAt(e, m - 1)
  }

  lemma FiveInRun(r: seq<nat>, j: nat, i: nat)
    requires IsRuns(r) && j < |r| && i < r[j]
    ensures FiveAlike(Expand(r), Start(r, j) + i) <==> i + 5 <= r[j]
  {
    hide Expand, Start, DarkRun;
    ColourAt(r, j, i);
    RunCovers(r, j, i);
    RunCovers(r, j, i + 5);
  }

  lemma RunBegins(r: seq<nat>, j: nat)
    requires IsRuns(r) && j < |r| && r[j] > 0 && Start(r, j) > 0
    ensures Start(r, j) < |Expand(r)| && Expand(r)[Start(r, j) - 1] != Expand(r)[Start(r, j)]
  {
    hide Expand, Start, DarkRun;
    StartZero(r);
    StartNext(r, j - 1);
    assert r[j - 1] > 0;
    ColourAt(r, j, 0);
    ColourAt(r, j - 1, r[j - 1] - 1);
    OtherColour(j - 1);
  }

  lemma AlikeIs(r: seq<nat>, j: nat, i: nat)
    requires IsRuns(r) && j < |r| && i < r[j]
    ensures AlikeAt(Expand(r), Start(r, j) + i) == if r[j] < i + 5 then 0 else if i == 0 then 3 else 1
  {
    hide Expand, Start, DarkRun, FiveAlike;
    FiveInRun(r, j, i);
    ColourAt(r, j, i);
    if i > 0 {
      ColourAt(r, j, i - 1);
    } else if Start(r, j) > 0 {
      RunBegins(r, j);
    }
  }

  lemma {:induction false} AlikeRun(r: seq<nat>, j: nat, i: nat)
    requires IsRuns(r) && j < |r| && i <= r[j]
    ensures AlikeCount(Expand(r), Start(r, j) + i)
         == AlikeCount(Expand(r), Start(r, j)) + (if i == 0 || r[j] < 5 then 0 else if i + 4 <= r[j] then i + 2 else r[j] - 2)
  {
    hide Expand, Start, AlikeAt;
    if i > 0 {
      AlikeRun(r, j, i - 1);
      AlikeIs(r, j, i - 1);
    }
  }

  lemma RunCostsNext(r: seq<nat>, j: nat)
    requires j < |r|
    ensures RunCosts(r[..j + 1]) == RunCosts(r[..j]) + RunCost(r[j])
  {
    FrontSnoc(r[..j], r[j]);
    assert r[..j + 1] == r[..j] + [r[j]];
  }

  lemma {:induction false} AlikeSum(r: seq<nat>, j: nat)
    requires IsRuns(r) && j <= |r|
    ensures AlikeCount(Expand(r), Start(r, j)) == RunCosts(r[..j])
  {
    if j > 0 {
      hide Expand, Start, RunCosts, AlikeCount;
      AlikeSum(r, j - 1);
      AlikeRun(r, j - 1, r[j - 1]);
      StartNext(r, j - 1);
      RunCostsNext(r, j - 1);
    }
  }

  lemma RunsAreAlike(r: seq<nat>)
    requires IsRuns(r)
    ensures RunCosts(r) == AlikeCount(Expand(r), |Expand(r)|)
  {
    AlikeSum(r, |r|);
    StartEnd(r);
    assert r[..|r|] == r;
  }

  // ---- One line ----

  lemma BorderedIs(r: seq<nat>, n: nat)
    requires |r| > 0
    ensures var g, b := WithBorder(r, n), Bordered(r, n);
            && |g| == |r| && (forall i :: 1 <= i < |r| ==> g[i] == r[i])
            && |r| <= |b| <= |r| + 1 && (forall i :: 0 <= i < |r| ==> b[i] >= g[i]) && (|b| > |r| ==> b[|r|] == n)
  {
  }

  lemma BorderedRuns(r: seq<nat>, n: nat)
    requires IsRuns(r) && n > 0
    ensures IsRuns(Bordered(r, n))
  {
    var g, b := WithBorder(r, n), Bordered(r, n);
    hide WithBorder, Bordered, DarkRun;
    BorderedIs(r, n);
    forall i | 1 <= i < |b| ensures b[i] > 0 {
      if i < |g| { assert g[i] == r[i]; }
    }
  }

  /** The line between two light borders of its own length. */
  function Framed(line: seq<bool>): seq<bool> {
    Repeat(false, |line|) + line + Repeat(false, |line|)
  }

  /** Points of a line: its long runs, and forty for every finder-like pattern of the framed line. */
  ghost function LinePoints(line: seq<bool>): nat {
    AlikeCount(line, |line|) + 40 * FinderCount(Framed(line), |Framed(line)|)
  }

  lemma LineCostIs(line: seq<bool>)
    requires |line| > 0
    ensures LineCost(line) == LinePoints(line)
  {
    hide Runs, Bordered, RunCosts, PatternSum, AlikeCount, FinderCount, Expand, IsRuns;
    RunsAreRuns(line);
    BorderedRuns(Runs(line), |line|);
    ExpandRuns(line);
    BorderedSpells(line, |line|);
    RunsAreAlike(Runs(line));
    PatternsAreFinders(Bordered(Runs(line), |line|));
  }

  // ---- The grid ----

  /** Points of the first k rows and the first k columns. */
  ghost function LinesPoints(n: nat, g: seq<bool>, k: nat): nat
    requires |g| == n * n && k <= n
  {
    if k == 0 then 0 else LinesPoints(n, g, k - 1) + LinePoints(Row(n, g, k - 1)) + LinePoints(Column(n, g, k - 1))
  }

  lemma {:induction false} LinesCost(n: nat, g: seq<bool>, k: nat)
    requires |g| == n * n && k <= n
    ensures RowCosts(n, g, k) + ColumnCosts(n, g, k) == LinesPoints(n, g, k)
  {
    hide LineCost, LinePoints, Row, Column;
    if k > 0 {
      LinesCost(n, g, k - 1);
      LineCostIs(Row(n, g, k - 1));
      LineCostIs(Column(n, g, k - 1));
    }
  }

  /** Corners before column k of the two by two blocks of one colour in row y. */
  ghost function RowBlockSet(n: nat, g: seq<bool>, y: nat, k: nat): set<(nat, nat)>
    requires |g| == n * n && k < n && y + 1 < n
  {
    set x: nat | x < k && SameBlock(n, g, x, y) :: (x, y)
  }

  /** Corners above row k of the two by two blocks of one colour. */
  ghost function BlockSet(n: nat, g: seq<bool>, k: nat): set<(nat, nat)>
    requires |g| == n * n && k < n
  {
    set x: nat, y: nat | x < n - 1 && y < k && SameBlock(n, g, x, y) :: (x, y)
  }

  lemma {:induction false} RowBlocksSize(n: nat, g: seq<bool>, y: nat, k: nat)
    requires |g| == n * n && k < n && y + 1 < n
    ensures |RowBlockSet(n, g, y, k)| == BlocksInRow(n, g, y, k)
  {
    hide SameBlock;
    if k == 0 {
      assert RowBlockSet(n, g, y, 0) == {};
    } else {
      RowBlocksSize(n, g, y, k - 1);
      assert RowBlockSet(n, g, y, k) == RowBlockSet(n, g, y, k - 1) + (if SameBlock(n, g, k - 1, y) then {(k - 1, y)} else {});
    }
  }

  lemma BlocksStep(n: nat, g: seq<bool>, k: nat)
    requires |g| == n * n && 0 < k < n
    ensures BlockSet(n, g, k) == BlockSet(n, g, k - 1) + RowBlockSet(n, g, k - 1, n - 1)
    ensures BlockSet(n, g, k - 1) !! RowBlockSet(n, g, k - 1, n - 1)
    ensures Blocks(n, g, k) == Blocks(n, g, k - 1) + BlocksInRow(n, g, k - 1, n - 1)
  {
    hide SameBlock, BlocksInRow;
  }

  lemma NoBlocks(n: nat, g: seq<bool>)
    requires |g| == n * n && 0 < n
    ensures |BlockSet(n, g, 0)| == Blocks(n, g, 0) == 0
  {
    assert BlockSet(n, g, 0) == {};
  }

  lemma {:induction false} BlocksSize(n: nat, g: seq<bool>, k: nat)
    requires |g| == n * n && k < n
    ensures |BlockSet(n, g, k)| == Blocks(n, g, k)
  {
    hide *;
    if k == 0 {
      NoBlocks(n, g);
    } else {
      BlocksSize(n, g, k - 1);
      RowBlocksSize(n, g, k - 1, n - 1);
      BlocksStep(n, g, k);
      UnionSize(BlockSet(n, g, k - 1), RowBlockSet(n, g, k - 1, n - 1));
    }
  }

  /** The dark modules among the first k. */
  ghost function DarkSet(g: seq<bool>, k: nat): set<nat>
    requires k <= |g|
  {
    set c: nat | c < k && g[c]
  }

  lemma {:induction false} DarkSize(g: seq<bool>, k: nat)
    requires k <= |g|
    ensures |DarkSet(g, k)| == Dark(g, k)
  {
    if k == 0 {
      assert DarkSet(g, 0) == {};
    } else {
      DarkSize(g, k - 1);
      assert DarkSet(g, k) == DarkSet(g, k - 1) + (if g[k - 1] then {k - 1} else {});
    }
  }

  /**
   The four rules: long runs and finder-like patterns line by line, three points for every block, and ten for every step of five per
   cent beyond the first by which dark modules miss one half.
   */
  lemma ScoreIs(n: nat, g: seq<bool>) returns (k: nat)
    requires SizeOk(n) && |g| == n * n
    ensures Score(n, g) == LinesPoints(n, g, n) + 3 * |BlockSet(n, g, n - 1)| + 10 * k
    ensures Balanced(|DarkSet(g, n * n)|, n * n, k) && (k > 0 ==> !Balanced(|DarkSet(g, n * n)|, n * n, k - 1))
  {
    hide LinesPoints, BlockSet, DarkSet, Blocks, Dark, RowCosts, ColumnCosts, Balanced, Imbalance;
    LinesCost(n, g, n);
    BlocksSize(n, g, n - 1);
    DarkSize(g, n * n);
    OddSquare(n);
    ImbalanceLeast(Dark(g, n * n), n * n);
    k := Imbalance(Dark(g, n * n), n * n);
  }
}
