/** The eight mask patterns and applyMask of qrcodegen.c. */
module Masking {
  import opened Arithmetic
  import opened Grid

  /** Whether mask pattern m inverts the module at column x, row y. */
  predicate Invert(m: nat, x: nat, y: nat)
    requires m < 8
  {
    match m
    case 0 => (x + y) % 2 == 0
    case 1 => y % 2 == 0
    case 2 => x % 3 == 0
    case 3 => (x + y) % 3 == 0
    case 4 => (x / 3 + y / 2) % 2 == 0
    case 5 => x * y % 2 + x * y % 3 == 0
    case 6 => (x * y % 2 + x * y % 3) % 2 == 0
    case _ => ((x + y) % 2 + x * y % 3) % 2 == 0
  }

  // ---- The patterns as pictures ----

  /** One tile of each pattern, row by row, '#' where modules are inverted. */
  function Tile(m: nat): (t: seq<string>)
    requires m < 8
    ensures |t| > 0 && |t[0]| > 0 && forall y :: 0 <= y < |t| ==> |t[y]| == |t[0]|
  {
    match m
    case 0 => ["#.", ".#"]
    case 1 => ["#", "."]
    case 2 => ["#.."]
    case 3 => ["#..", "..#", ".#."]
    case 4 => ["###...", "###...", "...###", "...###"]
    case 5 => ["######", "#.....", "#..#..", "#.#.#.", "#..#..", "#....."]
    case 6 => ["######", "###...", "##.##.", "#.#.#.", "#.##.#", "#...##"]
    case _ => ["#.#.#.", "...###", "#...##", ".#.#.#", "###...", ".###.."]
  }

  /** The tile repeated in both directions. */
  predicate TileDark(m: nat, x: nat, y: nat)
    requires m < 8
  {
    var t := Tile(m);
    t[y % |t|][x % |t[0]|] == '#'
  }

  lemma ProductRemainder(x: int, y: int, d: int)
    requires d > 0
    ensures (x * y) % d == ((x % d) * (y % d)) % d
  {
    var a, b := x / d, y / d;
    var u, v := x % d, y % d;
    Euclid(x, d);
    Euclid(y, d);
    Euclid(u * v, d);
    ProductParts(a, b, u, v, d);
    DivUnique(x * y, d, d * (a * b) + a * v + u * b + u * v / d, u * v % d);
  }

  lemma ProductParts(a: int, b: int, u: int, v: int, d: int)
    ensures (d * a + u) * (d * b + v) == d * (d * (a * b) + a * v + u * b) + u * v
  {
    DistributeRight(d * a, u, d * b + v);
    Distribute(d * a, d * b, v);
    Distribute(u, d * b, v);
    Associate(d, a, d * b);
    Exchange(a, d, b);
    Associate(d, a, v);
    Exchange(u, d, b);
    Distribute(d, d * (a * b) + a * v, u * b);
    Distribute(d, d * (a * b), a * v);
  }

  lemma OddProduct(x: nat, y: nat)
    ensures x * y % 2 == if x % 2 == 1 && y % 2 == 1 then 1 else 0
  {
    ProductRemainder(x, y, 2);
    if x % 2 == 0 {} else {}
  }

  lemma ThirdProduct(x: nat, y: nat)
    ensures x * y % 3 == Third(x % 3, y % 3)
  {
    ProductRemainder(x, y, 3);
    if x % 3 == 0 {} else if x % 3 == 1 {} else {}
  }

  /** The remainder modulo three of a product, from those of the factors. */
  function Third(a: nat, b: nat): nat {
    if a == 0 || b == 0 then 0 else if a == b then 1 else 2
  }

  lemma RemainderOfRemainder(x: int)
    ensures x % 6 % 2 == x % 2 && x % 6 % 3 == x % 3
  {
    Euclid(x, 6);
    DivUnique(x, 2, 3 * (x / 6) + x % 6 / 2, x % 6 % 2);
    DivUnique(x, 3, 2 * (x / 6) + x % 6 / 3, x % 6 % 3);
  }

  /** The patterns with products, from the coordinates modulo two and three. */
  predicate InvertParts(m: nat, x: nat, y: nat) {
    var odd, third := if x % 2 == 1 && y % 2 == 1 then 1 else 0, Third(x % 3, y % 3);
    if m == 5 then odd + third == 0
    else if m == 6 then (odd + third) % 2 == 0
    else ((if x % 2 == y % 2 then 0 else 1) + third) % 2 == 0
  }

  lemma InvertByParts(m: nat, x: nat, y: nat)
    requires 5 <= m < 8
    ensures Invert(m, x, y) == InvertParts(m, x % 6, y % 6)
  {
    RemainderOfRemainder(x);
    RemainderOfRemainder(y);
    OddProduct(x, y);
    ThirdProduct(x, y);
    SumParity(x, y);
  }

  lemma SumParity(x: nat, y: nat)
    ensures (x + y) % 2 == if x % 2 == y % 2 then 0 else 1
  {
    Euclid(x, 2);
    Euclid(y, 2);
    ParityShift(x % 2 + y % 2, x / 2 + y / 2);
  }

  lemma PartsTile(m: nat, x: nat, y: nat)
    requires 5 <= m < 8 && x < 6 && y < 6
    ensures InvertParts(m, x, y) == (Tile(m)[y][x] == '#')
  {
    match m
    case 5 => match y { case 0 => case 1 => case 2 => case 3 => case 4 => case _ => }
    case 6 => match y { case 0 => case 1 => case 2 => case 3 => case 4 => case _ => }
    case _ => match y { case 0 => case 1 => case 2 => case 3 => case 4 => case _ => }
  }

  lemma BandTile(x: nat, y: nat)
    ensures Invert(4, x, y) == TileDark(4, x, y)
  {
    Euclid(x, 6);
    Euclid(y, 4);
    var a, b := x % 6, y % 4;
    DivUnique(x, 3, 2 * (x / 6) + a / 3, a % 3);
    DivUnique(y, 2, 2 * (y / 4) + b / 2, b % 2);
    ParityShift(a / 3 + b / 2, x / 6 + y / 4);
    match a case 0 => case 1 => case 2 => case 3 => case 4 => case _ =>
  }

  lemma DiagonalTile(x: nat, y: nat)
    ensures Invert(3, x, y) == TileDark(3, x, y)
  {
    var a, b := x % 3, y % 3;
    Euclid(x, 3);
    Euclid(y, 3);
    DivUnique(x + y, 3, x / 3 + y / 3 + (a + b) / 3, (a + b) % 3);
    match b case 0 => case 1 => case _ =>
  }

  lemma CheckerTile(x: nat, y: nat)
    ensures Invert(0, x, y) == TileDark(0, x, y)
  {
    SumParity(x, y);
    if y % 2 == 0 {} else {}
  }

  /** Every pattern is its tile repeated in both directions. */
  lemma PatternIsTile(m: nat, x: nat, y: nat)
    requires m < 8
    ensures Invert(m, x, y) == TileDark(m, x, y)
  {
    if m == 0 {
      CheckerTile(x, y);
    } else if m == 3 {
      DiagonalTile(x, y);
    } else if m == 4 {
      BandTile(x, y);
    } else if m >= 5 {
      InvertByParts(m, x, y);
      PartsTile(m, x % 6, y % 6);
      hide Invert, InvertParts;
    }
  }

  /** The grid g with pattern m exclusive-or'ed onto the modules that f does not mark. */
  ghost function Masked(n: nat, f: seq<bool>, g: seq<bool>, m: nat): (r: seq<bool>)
    requires n > 0 && |f| == |g| == n * n && m < 8
    ensures |r| == n * n
  {
    seq(n * n, c requires 0 <= c < n * n => g[c] != (!f[c] && Invert(m, c % n, c / n)))
  }

  /** Applying a mask twice undoes it. */
  lemma MaskTwice(n: nat, f: seq<bool>, g: seq<bool>, m: nat)
    requires n > 0 && |f| == |g| == n * n && m < 8
    ensures Masked(n, f, Masked(n, f, g, m), m) == g
  {
    hide Invert;
  }

  /** Cells before (x, y) in row order are masked. */
  ghost predicate MaskedUpTo(n: nat, f: seq<bool>, was: seq<bool>, g: seq<bool>, m: nat, k: nat)
    requires n > 0 && |f| == |was| == n * n && m < 8
  {
    |g| == n * n && forall c :: 0 <= c < n * n ==> g[c] == if c < k then Masked(n, f, was, m)[c] else was[c]
  }

  lemma MaskCell(n: nat, f: seq<bool>, was: seq<bool>, g: seq<bool>, m: nat, x: nat, y: nat)
    requires n > 0 && |f| == |was| == n * n && m < 8 && x < n && y < n
    requires MaskedUpTo(n, f, was, g, m, CellOf(n, x, y))
    ensures var c := CellOf(n, x, y); MaskedUpTo(n, f, was, if f[c] then g else g[c := g[c] != Invert(m, x, y)], m, c + 1)
  {
    hide Invert;
    DivUnique(y * n + x, n, y, x);
  }

  /** One module. */
  method MaskModule(functionModules: array<bv8>, q: array<bv8>, m: nat, x: nat, y: nat)
    requires IsGrid(functionModules[..]) && IsGrid(q[..]) && Size(functionModules[..]) == Size(q[..])
    requires functionModules != q && m < 8 && x < Size(q[..]) && y < Size(q[..])
    modifies q
    ensures IsGrid(q[..]) && Size(q[..]) == old(Size(q[..]))
    ensures var g, c := old(Modules(q[..])), CellOf(Size(q[..]), x, y);
            Modules(q[..]) == if Modules(functionModules[..])[c] then g else g[c := g[c] != Invert(m, x, y)]
  {
    hide Invert, Modules, CellOf;
    var marked := GetModule(functionModules, x, y);
    if !marked {
      var invert := Invert(m, x, y);
      var val := GetModule(q, x, y);
      SetModule(q, x, y, val != invert);
    }
  }

  /** applyMask. */
  method ApplyMask(functionModules: array<bv8>, q: array<bv8>, m: nat)
    requires IsGrid(functionModules[..]) && IsGrid(q[..]) && Size(functionModules[..]) == Size(q[..])
    requires functionModules != q && m < 8
    modifies q
    ensures IsGrid(q[..]) && Size(q[..]) == old(Size(q[..]))
    ensures Modules(q[..]) == Masked(Size(q[..]), Modules(functionModules[..]), old(Modules(q[..])), m)
  {
    hide Invert, Modules, MaskedUpTo, Masked, CellOf, RowStart, IsGrid;
    GridArea(q[..]);
    var n := Size(q[..]);
    ghost var f, was := Modules(functionModules[..]), Modules(q[..]);
    GridArea(functionModules[..]);
    RowStarts(n, 0);
    NoneMasked(n, f, was, m);
    for y := 0 to n
      invariant IsGrid(q[..]) && Size(q[..]) == n && MaskedUpTo(n, f, was, Modules(q[..]), m, RowStart(n, y))
    {
      RowStarts(n, y);
      for x := 0 to n
        invariant IsGrid(q[..]) && Size(q[..]) == n && MaskedUpTo(n, f, was, Modules(q[..]), m, RowStart(n, y) + x)
      {
        MaskCell(n, f, was, Modules(q[..]), m, x, y);
        MaskModule(functionModules, q, m, x, y);
      }
    }
    RowStarts(n, n);
    AllMasked(n, f, was, Modules(q[..]), m);
  }

  lemma NoneMasked(n: nat, f: seq<bool>, was: seq<bool>, m: nat)
    requires n > 0 && |f| == |was| == n * n && m < 8
    ensures MaskedUpTo(n, f, was, was, m, 0)
  {
  }

  lemma AllMasked(n: nat, f: seq<bool>, was: seq<bool>, g: seq<bool>, m: nat)
    requires n > 0 && |f| == |was| == n * n && m < 8 && MaskedUpTo(n, f, was, g, m, n * n)
    ensures g == Masked(n, f, was, m)
  {
    hide Invert, Masked;
  }
}
