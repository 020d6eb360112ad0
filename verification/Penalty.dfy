/** The penalty score of qrcodegen.c: the run-history scanner against a count over the runs of a line. */
module Penalty {
  import opened Arithmetic
  import opened Grid

  // ---- Runs ----

  /** Colour of run i of a line: runs alternate, starting with a light one. */
  predicate DarkRun(i: nat) {
    i % 2 == 1
  }

  /** Run lengths, light first: all but the first are positive. */
  ghost predicate IsRuns(r: seq<nat>) {
    |r| > 0 && forall i :: 1 <= i < |r| ==> r[i] > 0
  }

  function Last(r: seq<nat>): nat
    requires |r| > 0
  {
    r[|r| - 1]
  }

  function Front(r: seq<nat>): seq<nat>
    requires |r| > 0
  {
    r[..|r| - 1]
  }

  /** How one more module of colour c changes the runs. */
  function Extend(r: seq<nat>, c: bool): (q: seq<nat>)
    requires |r| > 0
    ensures |r| <= |q| <= |r| + 1
  {
    if c == DarkRun(|r| - 1) then Front(r) + [Last(r) + 1] else r + [1]
  }

  /** Lengths of the runs of a line, starting with a light run that may be empty. */
  function Runs(line: seq<bool>): (r: seq<nat>)
    ensures 1 <= |r| <= |line| + 1
  {
    if line == [] then [0] else Extend(Runs(line[..|line| - 1]), line[|line| - 1])
  }

  lemma RunsSnoc(line: seq<bool>, c: bool)
    ensures Runs(line + [c]) == Extend(Runs(line), c)
  {
    hide Extend;
    assert (line + [c])[..|line|] == line;
  }

  lemma ExtendRuns(r: seq<nat>, c: bool)
    requires IsRuns(r)
    ensures IsRuns(Extend(r, c)) && Total(Extend(r, c)) == Total(r) + 1
  {
    var q := Extend(r, c);
    hide DarkRun;
    if |q| == |r| {
      assert Front(q) == Front(r);
    } else {
      assert Front(q) == r;
    }
  }

  function Total(r: seq<nat>): nat {
    if r == [] then 0 else Total(Front(r)) + Last(r)
  }

  lemma {:induction false} RunsAreRuns(line: seq<bool>)
    ensures IsRuns(Runs(line)) && Total(Runs(line)) == |line|
  {
    if line == [] {
      assert Front([0]) == [];
    } else {
      hide Extend, IsRuns, Total;
      RunsAreRuns(line[..|line| - 1]);
      ExtendRuns(Runs(line[..|line| - 1]), line[|line| - 1]);
    }
  }

  function Repeat(c: bool, k: nat): seq<bool> {
    seq(k, _ => c)
  }

  /** The line with runs of the given lengths. */
  function Expand(r: seq<nat>): seq<bool> {
    if r == [] then [] else Expand(Front(r)) + Repeat(DarkRun(|r| - 1), Last(r))
  }

  lemma ExpandSnoc(r: seq<nat>, k: nat)
    ensures Expand(r + [k]) == Expand(r) + Repeat(DarkRun(|r|), k)
  {
    hide DarkRun, Repeat;
    assert Front(r + [k]) == r;
  }

  lemma RepeatSnoc(c: bool, k: nat)
    ensures Repeat(c, k + 1) == Repeat(c, k) + [c] && Repeat(c, 0) == []
  {
  }

  lemma FrontLast(r: seq<nat>)
    requires |r| > 0
    ensures |Front(r)| == |r| - 1 && r == Front(r) + [Last(r)]
  {
  }

  lemma FrontSnoc(r: seq<nat>, k: nat)
    ensures Front(r + [k]) == r && Last(r + [k]) == k
  {
  }

  lemma ExtendIs(r: seq<nat>, c: bool)
    requires |r| > 0
    ensures Extend(r, c) == if c == DarkRun(|r| - 1) then Front(r) + [Last(r) + 1] else r + [1]
  {
    hide Front, Last, DarkRun;
  }

  lemma ExpandLonger(f: seq<nat>, k: nat, c: bool)
    requires c == DarkRun(|f|)
    ensures Expand(f + [k + 1]) == Expand(f + [k]) + [c]
  {
    hide *;
    ExpandSnoc(f, k);
    ExpandSnoc(f, k + 1);
    RepeatSnoc(c, k);
    AppendAssociative(Expand(f), Repeat(c, k), [c]);
  }

  lemma AppendAssociative(x: seq<bool>, y: seq<bool>, z: seq<bool>)
    ensures (x + y) + z == x + (y + z)
  {
  }

  lemma ExpandNew(r: seq<nat>, c: bool)
    requires c == DarkRun(|r|)
    ensures Expand(r + [1]) == Expand(r) + [c]
  {
    hide *;
    ExpandSnoc(r, 1);
    RepeatSnoc(c, 0);
    assert [] + [c] == [c];
  }

  lemma ExpandExtend(r: seq<nat>, c: bool)
    requires |r| > 0
    ensures Expand(Extend(r, c)) == Expand(r) + [c]
  {
    if c == DarkRun(|r| - 1) {
      ExpandSame(r, c, Front(r), Last(r));
    } else {
      ExpandOther(r, c);
    }
  }

  lemma ExpandSame(r: seq<nat>, c: bool, f: seq<nat>, k: nat)
    requires |r| > 0 && c == DarkRun(|r| - 1) && f == Front(r) && k == Last(r)
    ensures Expand(Extend(r, c)) == Expand(r) + [c]
  {
    FrontLast(r);
    ExtendIs(r, c);
    hide *;
    ExpandLonger(f, k, c);
  }

  lemma ExpandOther(r: seq<nat>, c: bool)
    requires |r| > 0 && c != DarkRun(|r| - 1)
    ensures Expand(Extend(r, c)) == Expand(r) + [c]
  {
    hide *;
    ExtendIs(r, c);
    Alternate(|r| - 1);
    ExpandNew(r, c);
  }

  /** The runs are a faithful description: they spell the line. */
  lemma {:induction false} ExpandRuns(line: seq<bool>)
    ensures Expand(Runs(line)) == line
  {
    hide *;
    if |line| == 0 {
      ExpandNone(line);
    } else {
      var m := line[..|line| - 1];
      ExpandRuns(m);
      ExpandStep(m, line[|line| - 1]);
      SplitLast(line);
    }
  }

  lemma SplitLast(line: seq<bool>)
    requires |line| > 0
    ensures line[..|line| - 1] + [line[|line| - 1]] == line
  {
  }

  lemma ExpandStep(m: seq<bool>, c: bool)
    requires Expand(Runs(m)) == m
    ensures Expand(Runs(m + [c])) == m + [c]
  {
    hide *;
    RunsSnoc(m, c);
    ExpandExtend(Runs(m), c);
  }

  lemma ExpandNone(line: seq<bool>)
    requires |line| == 0
    ensures Expand(Runs(line)) == line
  {
    ExpandOne();
  }

  lemma ExpandOne()
    ensures Expand([0]) == []
  {
    assert Front([0]) == [];
  }

  lemma Alternate(k: nat)
    ensures DarkRun(k + 1) == !DarkRun(k)
  {
  }

  // ---- The declarative count for one line ----

  /** A run of at least five modules costs its length less two. */
  function RunCost(r: nat): nat {
    if r >= 5 then r - 2 else 0
  }

  function RunCosts(r: seq<nat>): nat {
    if r == [] then 0 else RunCosts(Front(r)) + RunCost(Last(r))
  }

  /** The runs with a light border of n modules before the line. */
  function WithBorder(r: seq<nat>, n: nat): (b: seq<nat>)
    requires |r| > 0
    ensures |b| == |r|
  {
    [r[0] + n] + r[1..]
  }

  /** The runs of the line set in a light border of n modules on either side. */
  function Bordered(r: seq<nat>, n: nat): (b: seq<nat>)
    requires |r| > 0
  {
    var g := WithBorder(r, n);
    if DarkRun(|g| - 1) then g + [n] else Front(g) + [Last(g) + n]
  }

  function RunAt(r: seq<nat>, i: int): nat {
    if 0 <= i < |r| then r[i] else 0
  }

  /** Five runs 1:1:3:1:1 of unit k before light run t. */
  predicate Core(r: seq<nat>, t: nat) {
    var k := RunAt(r, t - 1);
    k > 0 && RunAt(r, t - 2) == k && RunAt(r, t - 3) == 3 * k && RunAt(r, t - 4) == k && RunAt(r, t - 5) == k
  }

  /** Finder-like patterns that end with light run t: four units of light on one side, one on the other. */
  function Patterns(r: seq<nat>, t: nat): (c: nat)
    ensures c <= 2
  {
    var k := RunAt(r, t - 1);
    (if Core(r, t) && RunAt(r, t) >= 4 * k && RunAt(r, t - 6) >= k then 1 else 0)
    + (if Core(r, t) && RunAt(r, t - 6) >= 4 * k && RunAt(r, t) >= k then 1 else 0)
  }

  /** Patterns over the light runs among the first m runs. */
  function PatternSum(r: seq<nat>, m: nat): nat {
    if m == 0 then 0 else PatternSum(r, m - 1) + (if DarkRun(m - 1) then 0 else Patterns(r, m - 1))
  }

  /** Cost of a line: long runs, and finder-like patterns at forty each. */
  function LineCost(line: seq<bool>): nat {
    var b := Bordered(Runs(line), |line|);
    RunCosts(Runs(line)) + 40 * PatternSum(b, |b|)
  }

  // ---- Bounds ----

  /** Two light runs in a row never both end a pattern. */
  lemma NotTwice(r: seq<nat>, t: nat)
    requires Core(r, t)
    ensures !Core(r, t + 2)
  {
  }

  lemma {:induction false} PatternBound(r: seq<nat>, k: nat)
    ensures PatternSum(r, 2 * k + 1) == PatternSum(r, 2 * k + 2) <= if Core(r, 2 * k) then k + 2 else k + 1
  {
    hide Core;
    if k == 0 {
      NoCoreAtStart(r);
      assert PatternSum(r, 1) == PatternSum(r, 0) + Patterns(r, 0);
    } else {
      PatternBound(r, k - 1);
      assert PatternSum(r, 2 * k + 1) == PatternSum(r, 2 * k) + Patterns(r, 2 * k);
      if Core(r, 2 * k - 2) { NotTwice(r, 2 * k - 2); }
    }
    assert PatternSum(r, 2 * k + 2) == PatternSum(r, 2 * k + 1);
  }

  lemma NoCoreAtStart(r: seq<nat>)
    ensures !Core(r, 0)
  {
  }

  lemma {:induction false} CostsBelowTotal(r: seq<nat>)
    ensures RunCosts(r) <= Total(r)
  {
    if r != [] { CostsBelowTotal(Front(r)); }
  }

  /** A line of n modules costs at most n for runs and 40 (n / 2 + 3) for patterns. */
  lemma LineBound(line: seq<bool>)
    ensures LineCost(line) <= |line| + 40 * (|line| / 2 + 3)
  {
    hide Runs, Bordered, RunCosts, PatternSum, Core;
    var r := Runs(line);
    RunsAreRuns(line);
    CostsBelowTotal(r);
    BorderedLength(r, |line|);
    var m := |Bordered(r, |line|)|;
    PatternBound(Bordered(r, |line|), (m - 1) / 2);
  }

  lemma BorderedLength(r: seq<nat>, n: nat)
    requires |r| > 0
    ensures |r| <= |Bordered(r, n)| <= |r| + 1
  {
  }

  // ---- The scanner ----

  /** The runs that are finished, the light border added to the first. */
  function FinishedRuns(r: seq<nat>, n: nat): (f: seq<nat>)
    requires |r| > 0
    ensures |f| == |r| - 1
  {
    if |r| == 1 then [] else WithBorder(Front(r), n)
  }

  lemma BorderSplit(r: seq<nat>, n: nat)
    requires |r| > 0
    ensures WithBorder(r, n) == FinishedRuns(r, n) + [if |FinishedRuns(r, n)| == 0 then Last(r) + n else Last(r)]
  {
  }

  lemma BorderSnoc(r: seq<nat>, n: nat, k: nat)
    requires |r| > 0
    ensures FinishedRuns(r + [k], n) == WithBorder(r, n)
  {
    hide WithBorder;
    FrontSnoc(r, k);
  }

  /** The last seven finished runs, newest first, zeros where there are none. */
  ghost predicate IsHistory(h: seq<nat>, f: seq<nat>) {
    |h| == 7 && forall i :: 0 <= i < 7 ==> h[i] == RunAt(f, |f| - 1 - i)
  }

  /** finderPenaltyCountPatterns. */
  function CountPatterns(h: seq<nat>): nat
    requires |h| == 7
  {
    var n := h[1];
    var core := n > 0 && h[2] == n && h[3] == n * 3 && h[4] == n && h[5] == n;
    (if core && h[0] >= n * 4 && h[6] >= n then 1 else 0) + (if core && h[6] >= n * 4 && h[0] >= n then 1 else 0)
  }

  lemma HistoryLength(h: seq<nat>, f: seq<nat>)
    requires IsHistory(h, f)
    ensures |h| == 7
  {
  }

  lemma CountPatternsIs(h: seq<nat>, f: seq<nat>)
    requires IsHistory(h, f) && |f| > 0
    ensures CountPatterns(h) == Patterns(f, |f| - 1)
  {
    assert h[1] == RunAt(f, |f| - 2) && h[2] == RunAt(f, |f| - 3) && h[3] == RunAt(f, |f| - 4) && h[4] == RunAt(f, |f| - 5);
    assert h[5] == RunAt(f, |f| - 6) && h[6] == RunAt(f, |f| - 7) && h[0] == RunAt(f, |f| - 1);
  }

  /** finderPenaltyAddHistory: pushes a run, with the light border if it is the first. */
  method AddHistory(run: nat, history: array<nat>, n: nat)
    requires history.Length == 7
    modifies history
    ensures history[..] == Pushed(run, old(history[..]), n)
    ensures history[1] == old(history[0])
  {
    var current := run;
    if history[0] == 0 {
      current := current + n;
    }
    forall i | 1 <= i < 7 {
      history[i] := history[i - 1];
    }
    history[0] := current;
  }

  function Pushed(run: nat, h: seq<nat>, n: nat): (r: seq<nat>)
    requires |h| == 7
    ensures |r| == 7
  {
    [if h[0] == 0 then run + n else run] + h[..6]
  }

  lemma PushHistory(h: seq<nat>, f: seq<nat>, run: nat, n: nat)
    requires IsHistory(h, f) && (|f| > 0 ==> f[|f| - 1] > 0)
    ensures IsHistory(Pushed(run, h, n), f + [if |f| == 0 then run + n else run])
  {
    var g := f + [if |f| == 0 then run + n else run];
    assert h[0] == RunAt(f, |f| - 1);
    forall i | 0 <= i < 7 ensures Pushed(run, h, n)[i] == RunAt(g, |g| - 1 - i) {
      if i > 0 { assert h[i - 1] == RunAt(f, |f| - 1 - (i - 1)); }
    }
  }

  /** Sum over a prefix does not see what comes later. */
  lemma {:induction false} PatternPrefix(f: seq<nat>, g: seq<nat>, m: nat)
    requires m <= |f| && f <= g
    ensures PatternSum(f, m) == PatternSum(g, m)
  {
    if m > 0 { PatternPrefix(f, g, m - 1); }
  }

  /** State of the scan after the modules in line, in a line of n modules. */
  ghost predicate Scanned(line: seq<bool>, n: nat, dark: bool, run: nat, h: seq<nat>, cost: nat) {
    var r := Runs(line);
    && dark == DarkRun(|r| - 1) && run == Last(r)
    && IsHistory(h, FinishedRuns(r, n)) && cost == RunCosts(r) + 40 * PatternSum(FinishedRuns(r, n), |r| - 1)
  }

  lemma ScanStart(n: nat)
    ensures Scanned([], n, false, 0, [0, 0, 0, 0, 0, 0, 0], 0)
  {
    assert Runs([]) == [0] && FinishedRuns([0], n) == [];
    assert Front([0]) == [];
  }

  lemma LongerRun(r: seq<nat>, n: nat)
    requires |r| > 0
    ensures var q := Front(r) + [Last(r) + 1];
            && |q| == |r| && Last(q) == Last(r) + 1 && FinishedRuns(q, n) == FinishedRuns(r, n)
            && RunCosts(q) == RunCosts(r) + (if Last(q) == 5 then 3 else if Last(q) > 5 then 1 else 0)
  {
    FrontLast(r);
    FrontSnoc(Front(r), Last(r) + 1);
    hide Front, Last, WithBorder;
  }

  /** One more module of the same colour. */
  lemma ScanSame(line: seq<bool>, n: nat, dark: bool, run: nat, h: seq<nat>, cost: nat)
    requires Scanned(line, n, dark, run, h, cost)
    ensures Scanned(line + [dark], n, dark, run + 1, h, cost + (if run + 1 == 5 then 3 else if run + 1 > 5 then 1 else 0))
  {
    hide IsHistory, PatternSum, Runs, DarkRun, Front, Last, FinishedRuns, RunCosts, Extend;
    RunsSnoc(line, dark);
    ExtendIs(Runs(line), dark);
    LongerRun(Runs(line), n);
  }

  lemma NewRun(r: seq<nat>, n: nat)
    requires IsRuns(r) && n > 0
    ensures var f, run := FinishedRuns(r, n), Last(r);
            && FinishedRuns(r + [1], n) == f + [if |f| == 0 then run + n else run] && (|f| > 0 ==> f[|f| - 1] > 0)
            && |f| == |r| - 1 && (|f| > 0 ==> run > 0)
            && RunCosts(r + [1]) == RunCosts(r) && Last(r + [1]) == 1
  {
    FrontSnoc(r, 1);
    BorderSplit(r, n);
    BorderSnoc(r, n, 1);
    FinishedPositive(r, n);
    assert |r| > 1 ==> Last(r) > 0;
    hide Front, Last, WithBorder, FinishedRuns;
  }

  lemma FinishedPositive(r: seq<nat>, n: nat)
    requires IsRuns(r) && n > 0
    ensures var f := FinishedRuns(r, n); |f| > 0 ==> f[|f| - 1] > 0
  {
  }

  /** A finished light run is checked for patterns. */
  lemma PushRun(h: seq<nat>, f: seq<nat>, run: nat, n: nat)
    requires IsHistory(h, f) && (|f| > 0 ==> f[|f| - 1] > 0)
    ensures var g := f + [if |f| == 0 then run + n else run];
            && IsHistory(Pushed(run, h, n), g)
            && PatternSum(g, |g|) == PatternSum(f, |f|) + (if DarkRun(|f|) then 0 else CountPatterns(Pushed(run, h, n)))
  {
    var g := f + [if |f| == 0 then run + n else run];
    PushHistory(h, f, run, n);
    PatternPrefix(f, g, |f|);
    CountPatternsIs(Pushed(run, h, n), g);
    PatternNext(g, |f|);
    hide IsHistory, DarkRun, Patterns, CountPatterns, Pushed, PatternSum;
  }

  /** A module of the other colour finishes the run. */
  lemma ScanOther(line: seq<bool>, n: nat, dark: bool, run: nat, h: seq<nat>, cost: nat)
    requires Scanned(line, n, dark, run, h, cost) && n > 0
    ensures Scanned(line + [!dark], n, !dark, 1, Pushed(run, h, n),
                    cost + (if dark then 0 else 40 * CountPatterns(Pushed(run, h, n))))
  {
    hide IsHistory, Runs, DarkRun, CountPatterns, Pushed, FinishedRuns, Last, Front, RunCosts, PatternSum, IsRuns, Extend;
    var r := Runs(line);
    RunsSnoc(line, !dark);
    ExtendIs(r, !dark);
    RunsAreRuns(line);
    NewRun(r, n);
    Alternate(|r| - 1);
    PushRun(h, FinishedRuns(r, n), run, n);
  }

  lemma PatternNext(g: seq<nat>, m: nat)
    ensures PatternSum(g, m + 1) == PatternSum(g, m) + (if DarkRun(m) then 0 else Patterns(g, m))
  {
    hide Patterns, DarkRun;
  }

  // ---- The end of a line ----

  /** finderPenaltyTerminateAndCount. */
  method TerminateAndCount(dark: bool, length: nat, history: array<nat>, n: nat) returns (count: nat)
    requires history.Length == 7 && length <= n && forall i :: 0 <= i < 7 ==> history[i] <= 2 * n
    modifies history
    ensures count == Terminated(dark, length, old(history[..]), n)
  {
    hide CountPatterns;
    var current := length;
    if dark {
      AddHistory(current, history, n);
      current := 0;
    }
    current := current + n;
    AddHistory(current, history, n);
    assert history[1] <= n * 3;
    count := CountPatterns(history[..]);
  }

  function Terminated(dark: bool, length: nat, h: seq<nat>, n: nat): nat
    requires |h| == 7
  {
    if dark then CountPatterns(Pushed(n, Pushed(length, h, n), n)) else CountPatterns(Pushed(length + n, h, n))
  }

  /** After the last module the terminated scan has the cost of the line. */
  lemma ScanEnd(line: seq<bool>, dark: bool, run: nat, h: seq<nat>, cost: nat)
    requires Scanned(line, |line|, dark, run, h, cost) && |line| > 0
    ensures |h| == 7 && cost + 40 * Terminated(dark, run, h, |line|) == LineCost(line)
  {
    hide IsHistory, Runs, DarkRun, CountPatterns, Pushed, FinishedRuns, Last, Front, RunCosts, PatternSum, IsRuns, Extend, WithBorder;
    var r, n := Runs(line), |line|;
    var f, g := FinishedRuns(r, n), WithBorder(r, n);
    HistoryLength(h, f);
    RunsAreRuns(line);
    NewRun(r, n);
    BorderSplit(r, n);
    FrontSnoc(f, g[|g| - 1]);
    if dark {
      PushRun(h, f, run, n);
      Alternate(|f|);
      PushRun(Pushed(run, h, n), g, n, n);
    } else {
      PushRun(h, f, run + n, n);
    }
  }

  // ---- The bordered runs are the runs of the bordered line ----

  lemma RepeatAdd(c: bool, a: nat, b: nat)
    ensures Repeat(c, a + b) == Repeat(c, a) + Repeat(c, b)
  {
  }

  lemma ExpandSingle(k: nat)
    ensures Expand([k]) == Repeat(false, k)
  {
    ExpandSnoc([], k);
    assert [] + [k] == [k];
    hide *;
    ExpandEmpty();
    assert !DarkRun(0) by { LightFirst(); }
    assert [] + Repeat(false, k) == Repeat(false, k);
  }

  lemma LightFirst()
    ensures !DarkRun(0)
  {
  }

  lemma ExpandEmpty()
    ensures Expand([]) == []
  {
  }

  lemma BorderParts(r: seq<nat>, n: nat)
    requires |r| > 0
    ensures |r| == 1 ==> WithBorder(r, n) == [Last(r) + n] && r == [Last(r)]
    ensures |r| > 1 ==> WithBorder(r, n) == WithBorder(Front(r), n) + [Last(r)]
  {
  }

  lemma {:induction false} ExpandBorder(r: seq<nat>, n: nat)
    requires |r| > 0
    ensures Expand(WithBorder(r, n)) == Repeat(false, n) + Expand(r)
    decreases |r|
  {
    hide *;
    BorderParts(r, n);
    FrontLast(r);
    if |r| == 1 {
      ExpandSingle(Last(r) + n);
      ExpandSingle(Last(r));
      RepeatAdd(false, n, Last(r));
    } else {
      ExpandBorder(Front(r), n);
      ExpandSnoc(Front(r), Last(r));
      ExpandSnoc(WithBorder(Front(r), n), Last(r));
      AppendAssociative(Repeat(false, n), Expand(Front(r)), Repeat(DarkRun(|r| - 1), Last(r)));
    }
  }

  lemma ExpandEnd(g: seq<nat>, n: nat)
    requires |g| > 0
    ensures Expand(if DarkRun(|g| - 1) then g + [n] else Front(g) + [Last(g) + n]) == Expand(g) + Repeat(false, n)
  {
    hide *;
    FrontLast(g);
    Alternate(|g| - 1);
    if DarkRun(|g| - 1) {
      ExpandSnoc(g, n);
    } else {
      ExpandSnoc(Front(g), Last(g));
      ExpandSnoc(Front(g), Last(g) + n);
      RepeatAdd(false, Last(g), n);
      AppendAssociative(Expand(Front(g)), Repeat(false, Last(g)), Repeat(false, n));
    }
  }

  /** The light border is added exactly once at each end. */
  lemma BorderedSpells(line: seq<bool>, n: nat)
    ensures Expand(Bordered(Runs(line), n)) == Repeat(false, n) + line + Repeat(false, n)
  {
    hide Expand, Repeat, Runs, WithBorder, Front, Last, DarkRun;
    ExpandRuns(line);
    ExpandBorder(Runs(line), n);
    ExpandEnd(WithBorder(Runs(line), n), n);
  }

  // ---- The whole grid ----

  ghost function Row(n: nat, g: seq<bool>, y: nat): (line: seq<bool>)
    requires |g| == n * n && y < n
    ensures |line| == n
  {
    seq(n, x requires 0 <= x < n => ModuleAt(n, g, x, y))
  }

  ghost function Column(n: nat, g: seq<bool>, x: nat): (line: seq<bool>)
    requires |g| == n * n && x < n
    ensures |line| == n
  {
    seq(n, y requires 0 <= y < n => ModuleAt(n, g, x, y))
  }

  function ModuleAt(n: nat, g: seq<bool>, x: nat, y: nat): bool
    requires |g| == n * n && x < n && y < n
  {
    g[CellOf(n, x, y)]
  }

  /** Cost of the first k rows and of the first k columns. */
  ghost function RowCosts(n: nat, g: seq<bool>, k: nat): nat
    requires |g| == n * n && k <= n
  {
    if k == 0 then 0 else RowCosts(n, g, k - 1) + LineCost(Row(n, g, k - 1))
  }

  ghost function ColumnCosts(n: nat, g: seq<bool>, k: nat): nat
    requires |g| == n * n && k <= n
  {
    if k == 0 then 0 else ColumnCosts(n, g, k - 1) + LineCost(Column(n, g, k - 1))
  }

  /** A two by two block of one colour with corner (x, y). */
  predicate SameBlock(n: nat, g: seq<bool>, x: nat, y: nat)
    requires |g| == n * n && x + 1 < n && y + 1 < n
  {
    ModuleAt(n, g, x, y) == ModuleAt(n, g, x + 1, y) == ModuleAt(n, g, x, y + 1) == ModuleAt(n, g, x + 1, y + 1)
  }

  /** Blocks of one colour in row y with corners before column k. */
  ghost function BlocksInRow(n: nat, g: seq<bool>, y: nat, k: nat): (b: nat)
    requires |g| == n * n && k < n && y + 1 < n
    ensures b <= k
  {
    if k == 0 then 0 else BlocksInRow(n, g, y, k - 1) + (if SameBlock(n, g, k - 1, y) then 1 else 0)
  }

  ghost function Blocks(n: nat, g: seq<bool>, k: nat): nat
    requires |g| == n * n && k < n
  {
    if k == 0 then 0 else Blocks(n, g, k - 1) + BlocksInRow(n, g, k - 1, n - 1)
  }

  /** Dark modules among the first k. */
  function Dark(g: seq<bool>, k: nat): (d: nat)
    requires k <= |g|
    ensures d <= k
  {
    if k == 0 then 0 else Dark(g, k - 1) + (if g[k - 1] then 1 else 0)
  }

  /** The deviation from balance in steps of five per cent. */
  function Imbalance(dark: nat, total: nat): int
    requires total > 0
  {
    (Distance(20 * dark, 10 * total) + total - 1) / total - 1
  }

  function Distance(a: nat, b: nat): nat {
    if a < b then b - a else a - b
  }

  ghost function Score(n: nat, g: seq<bool>): int
    requires n > 0 && |g| == n * n
  {
    RowCosts(n, g, n) + ColumnCosts(n, g, n) + 3 * Blocks(n, g, n - 1) + 10 * Imbalance(Dark(g, n * n), n * n)
  }

  lemma Ceiling(d: nat, total: nat) returns (c: int)
    requires total > 0
    ensures c == (d + total - 1) / total && (c - 1) * total < d <= c * total
  {
    c := (d + total - 1) / total;
    Euclid(d + total - 1, total);
    DistributeRight(c, -1, total);
  }

  lemma ScaleOrder(a: int, b: int, t: int)
    requires t > 0
    ensures a <= b ==> a * t <= b * t
    ensures a < b ==> a * t + t <= b * t
  {
    DistributeRight(a, 1, t);
    if a <= b { MulMonotone(a, b, t); }
    if a < b { MulMonotone(a + 1, b, t); }
  }

  /** Dark modules make up between (45 - 5k)% and (55 + 5k)%. */
  predicate Balanced(dark: nat, total: nat, k: nat) {
    (45 - 5 * k) * total <= 100 * dark <= (55 + 5 * k) * total
  }

  lemma BalancedIs(dark: nat, total: nat, k: nat)
    ensures Balanced(dark, total, k) <==> Distance(20 * dark, 10 * total) <= (k + 1) * total
  {
    DistributeRight(45, -5 * k, total);
    DistributeRight(55, 5 * k, total);
    DistributeRight(k, 1, total);
  }

  /** The balance term is the least k with Balanced, and is at most nine; an odd total is never balanced exactly. */
  lemma ImbalanceLeast(dark: nat, total: nat)
    requires total % 2 == 1 && dark <= total
    ensures 0 <= Imbalance(dark, total) <= 9
    ensures forall k: nat :: Balanced(dark, total, k) <==> k >= Imbalance(dark, total)
  {
    var d := Distance(20 * dark, 10 * total);
    assert 0 < d <= 10 * total;
    var c := Ceiling(d, total);
    ScaleOrder(c, 0, total);
    ScaleOrder(10, c - 1, total);
    hide Balanced, Distance;
    forall k: nat ensures Balanced(dark, total, k) <==> k >= c - 1 {
      BalancedIs(dark, total, k);
      ScaleOrder(c, k + 1, total);
      ScaleOrder(k + 1, c - 1, total);
    }
  }

  // ---- The total ----

  lemma {:induction false} LinesBound(n: nat, g: seq<bool>, k: nat)
    requires 0 < n <= 177 && |g| == n * n && k <= n
    ensures RowCosts(n, g, k) <= 3817 * k && ColumnCosts(n, g, k) <= 3817 * k
  {
    hide LineCost, Row, Column;
    if k > 0 {
      LinesBound(n, g, k - 1);
      LineBound(Row(n, g, k - 1));
      LineBound(Column(n, g, k - 1));
    }
  }

  lemma {:induction false} BlocksBound(n: nat, g: seq<bool>, k: nat)
    requires 0 < n <= 177 && |g| == n * n && k < n
    ensures Blocks(n, g, k) <= 176 * k
  {
    hide BlocksInRow;
    if k > 0 { BlocksBound(n, g, k - 1); }
  }

  /** The score of a QR Code grid lies between 0 and 2568888. */
  lemma ScoreBound(n: nat, g: seq<bool>)
    requires SizeOk(n) && |g| == n * n
    ensures 0 <= Score(n, g) <= 2568888
  {
    hide RowCosts, ColumnCosts, Blocks, Imbalance, Dark;
    LinesBound(n, g, n);
    BlocksBound(n, g, n - 1);
    OddSquare(n);
    ImbalanceLeast(Dark(g, n * n), n * n);
  }

  lemma OddSquare(n: nat)
    requires SizeOk(n)
    ensures n * n % 2 == 1
  {
    var m := n / 4;
    Distribute(n, 4 * m, 1);
    DistributeRight(4 * m, 1, 4 * m);
    DivUnique(n * n, 2, 8 * (m * m) + 4 * m, 1);
  }

  // ---- The loops of getPenaltyScore ----

  lemma {:induction false} EntryBelowTotal(r: seq<nat>, i: nat)
    requires i < |r|
    ensures r[i] <= Total(r)
  {
    if i < |r| - 1 { EntryBelowTotal(Front(r), i); }
  }

  /** No run in the history is longer than the line and one border. */
  lemma HistoryBound(line: seq<bool>, n: nat, dark: bool, run: nat, h: seq<nat>, cost: nat)
    requires Scanned(line, n, dark, run, h, cost) && |line| <= n
    ensures |h| == 7 && run <= n && forall i :: 0 <= i < 7 ==> h[i] <= 2 * n
  {
    hide Runs, RunCosts, PatternSum, Total;
    var r := Runs(line);
    RunsAreRuns(line);
    forall i | 0 <= i < |r| ensures r[i] <= n { EntryBelowTotal(r, i); }
  }

  lemma RowNext(n: nat, g: seq<bool>, x: nat, y: nat)
    requires |g| == n * n && x < n && y < n
    ensures Row(n, g, y)[..x + 1] == Row(n, g, y)[..x] + [g[CellOf(n, x, y)]]
  {
    hide CellOf;
  }

  lemma ColumnNext(n: nat, g: seq<bool>, x: nat, y: nat)
    requires |g| == n * n && x < n && y < n
    ensures Column(n, g, x)[..y + 1] == Column(n, g, x)[..y] + [g[CellOf(n, x, y)]]
  {
    hide CellOf;
  }

  /** The loop body of getPenaltyScore, for rows and for columns: one more module of a line of n modules. */
  method ScanModule(ghost line: seq<bool>, n: nat, dark: bool, runColor: bool, run: nat, runHistory: array<nat>, cost: nat)
    returns (newColor: bool, newRun: nat, newCost: nat)
    requires |line| < n && runHistory.Length == 7 && Scanned(line, n, runColor, run, runHistory[..], cost)
    modifies runHistory
    ensures Scanned(line + [dark], n, newColor, newRun, runHistory[..], newCost)
  {
    hide Scanned, CountPatterns, Pushed;
    newCost := cost;
    if dark == runColor {
      ScanSame(line, n, runColor, run, runHistory[..], cost);
      newColor, newRun := runColor, run + 1;
      if newRun == 5 {
        newCost := newCost + 3;
      } else if newRun > 5 {
        newCost := newCost + 1;
      }
    } else {
      HistoryBound(line, n, runColor, run, runHistory[..], cost);
      ScanOther(line, n, runColor, run, runHistory[..], cost);
      AddHistory(run, runHistory, n);
      if !runColor {
        assert runHistory[1] <= n * 3;
        newCost := newCost + CountPatterns(runHistory[..]) * 40;
      }
      newColor, newRun := dark, 1;
    }
  }

  method LineOfRow(q: array<bv8>, y: nat) returns (cost: nat)
    requires IsGrid(q[..]) && y < Size(q[..])
    ensures cost == LineCost(Row(Size(q[..]), Modules(q[..]), y))
  {
    hide Scanned, Terminated, LineCost, Modules, IsGrid, CellOf, Row, Column;
    GridArea(q[..]);
    var n := Size(q[..]);
    ghost var line := Row(n, Modules(q[..]), y);
    cost := 0;
    var runColor, runX := false, 0;
    var runHistory := new nat[7](_ => 0);
    ScanStart(n);
    assert runHistory[..] == [0, 0, 0, 0, 0, 0, 0];
    for x := 0 to n
      invariant Scanned(line[..x], n, runColor, runX, runHistory[..], cost)
    {
      var dark := GetModule(q, x, y);
      RowNext(n, Modules(q[..]), x, y);
      runColor, runX, cost := ScanModule(line[..x], n, dark, runColor, runX, runHistory, cost);
    }
    assert line[..n] == line;
    HistoryBound(line, n, runColor, runX, runHistory[..], cost);
    ScanEnd(line, runColor, runX, runHistory[..], cost);
    var count := TerminateAndCount(runColor, runX, runHistory, n);
    cost := cost + count * 40;
  }

  method LineOfColumn(q: array<bv8>, x: nat) returns (cost: nat)
    requires IsGrid(q[..]) && x < Size(q[..])
    ensures cost == LineCost(Column(Size(q[..]), Modules(q[..]), x))
  {
    hide Scanned, Terminated, LineCost, Modules, IsGrid, CellOf, Row, Column;
    GridArea(q[..]);
    var n := Size(q[..]);
    ghost var line := Column(n, Modules(q[..]), x);
    cost := 0;
    var runColor, runY := false, 0;
    var runHistory := new nat[7](_ => 0);
    ScanStart(n);
    assert runHistory[..] == [0, 0, 0, 0, 0, 0, 0];
    for y := 0 to n
      invariant Scanned(line[..y], n, runColor, runY, runHistory[..], cost)
    {
      var dark := GetModule(q, x, y);
      ColumnNext(n, Modules(q[..]), x, y);
      runColor, runY, cost := ScanModule(line[..y], n, dark, runColor, runY, runHistory, cost);
    }
    assert line[..n] == line;
    HistoryBound(line, n, runColor, runY, runHistory[..], cost);
    ScanEnd(line, runColor, runY, runHistory[..], cost);
    var count := TerminateAndCount(runColor, runY, runHistory, n);
    cost := cost + count * 40;
  }

  method Get(q: array<bv8>, x: nat, y: nat) returns (dark: bool)
    requires IsGrid(q[..]) && x < Size(q[..]) && y < Size(q[..])
    ensures dark == ModuleAt(Size(q[..]), Modules(q[..]), x, y)
  {
    hide Modules;
    dark := GetModule(q, x, y);
  }

  method IsSameBlock(q: array<bv8>, x: nat, y: nat) returns (same: bool)
    requires IsGrid(q[..]) && x + 1 < Size(q[..]) && y + 1 < Size(q[..])
    ensures same == SameBlock(Size(q[..]), Modules(q[..]), x, y)
  {
    hide Modules, ModuleAt, IsGrid;
    var color := Get(q, x, y);
    var right := Get(q, x + 1, y);
    var below := Get(q, x, y + 1);
    var across := Get(q, x + 1, y + 1);
    same := color == right && color == below && color == across;
  }

  method BlocksOfRow(q: array<bv8>, y: nat) returns (blocks: nat)
    requires IsGrid(q[..]) && y + 1 < Size(q[..])
    ensures blocks == BlocksInRow(Size(q[..]), Modules(q[..]), y, Size(q[..]) - 1)
  {
    hide Modules, SameBlock;
    var n := Size(q[..]);
    blocks := 0;
    for x := 0 to n - 1
      invariant blocks == BlocksInRow(n, Modules(q[..]), y, x)
    {
      var same := IsSameBlock(q, x, y);
      if same {
        blocks := blocks + 1;
      }
    }
  }

  method CountDark(q: array<bv8>) returns (dark: nat)
    requires IsGrid(q[..])
    ensures dark == Dark(Modules(q[..]), Area(q[..]))
  {
    hide Modules, IsGrid, RowStart, CellOf, Area;
    GridArea(q[..]);
    var n := Size(q[..]);
    ghost var g := Modules(q[..]);
    dark := 0;
    RowStarts(n, 0);
    for y := 0 to n
      invariant RowStart(n, y) <= |g| && dark == Dark(g, RowStart(n, y))
    {
      RowStarts(n, y);
      for x := 0 to n
        invariant RowStart(n, y) + x <= |g| && dark == Dark(g, RowStart(n, y) + x)
      {
        var d := GetModule(q, x, y);
        if d {
          dark := dark + 1;
        }
      }
    }
    RowStarts(n, n);
  }

  /** getPenaltyScore. */
  method GetPenaltyScore(q: array<bv8>) returns (result: int)
    requires IsGrid(q[..])
    ensures result == Score(Size(q[..]), Modules(q[..])) && 0 <= result <= 2568888
  {
    hide LineCost, BlocksInRow, Modules, Row, Column, Imbalance;
    var n := Size(q[..]);
    ghost var g := Modules(q[..]);
    result := 0;
    for y := 0 to n
      invariant result == RowCosts(n, g, y)
    {
      var cost := LineOfRow(q, y);
      result := result + cost;
    }
    for x := 0 to n
      invariant result == RowCosts(n, g, n) + ColumnCosts(n, g, x)
    {
      var cost := LineOfColumn(q, x);
      result := result + cost;
    }
    for y := 0 to n - 1
      invariant result == RowCosts(n, g, n) + ColumnCosts(n, g, n) + 3 * Blocks(n, g, y)
    {
      var blocks := BlocksOfRow(q, y);
      result := result + 3 * blocks;
    }
    var dark := CountDark(q);
    var total := n * n;
    OddSquare(n);
    ScoreBound(n, g);
    var k := Imbalance(dark, total);
    result := result + k * 10;
  }
}
