/** The packed module grid of qrcodegen.c: the first byte holds the size, then one bit per module, row by row. */
module Grid {
  import opened Arithmetic

  // ---- Bits of a byte ----

  lemma DoubledByte(b: bv8)
    requires b as int < 128
    ensures (b << 1) as int == 2 * (b as int) && ((b << 1) | 1) as int == 2 * (b as int) + 1
  {
  }

  /** Every number below 256 is the value of a byte. */
  lemma {:induction false} ByteWithValue(x: int) returns (b: bv8)
    requires 0 <= x < 256
    ensures b as int == x
  {
    if x == 0 {
      b := 0;
    } else {
      var half := ByteWithValue(x / 2);
      DoubledByte(half);
      b := if x % 2 == 0 then half << 1 else (half << 1) | 1;
    }
  }

  lemma ByteBack(b: bv8)
    ensures b as int as bv8 == b
  {
  }

  lemma ByteIs(x: int)
    requires 0 <= x < 256
    ensures x as bv8 as int == x
  {
    var b := ByteWithValue(x);
    ByteBack(b);
  }

  function ByteOf(x: int): (b: bv8)
    requires 0 <= x < 256
    ensures b as int == x
  {
    ByteIs(x);
    x as bv8
  }

  function PlaceOf(k: nat): bv8
    requires k < 8
  {
    match k
    case 0 => 1 case 1 => 2 case 2 => 4 case 3 => 8 case 4 => 16 case 5 => 32 case 6 => 64 case _ => 128
  }

  /** getBit on a byte. */
  predicate GetBit(b: bv8, k: nat)
    requires k < 8
  {
    b & PlaceOf(k) != 0
  }

  /** The byte with bit k set or cleared, as setModuleBounded writes it. */
  function SetBit(b: bv8, k: nat, on: bool): bv8
    requires k < 8
  {
    if on then b | PlaceOf(k) else b & (PlaceOf(k) ^ 0xFF)
  }

  lemma SetThenGet(b: bv8, k: nat, on: bool, j: nat)
    requires k < 8 && j < 8
    ensures GetBit(SetBit(b, k, on), j) == if j == k then on else GetBit(b, j)
  {
    match k
    case 0 => case 1 => case 2 => case 3 => case 4 => case 5 => case 6 => case _ =>
  }

  // ---- The grid as a sequence of modules ----

  /** The buffer holds a square grid of odd size between 21 and 177. */
  ghost predicate IsGrid(q: seq<bv8>) {
    |q| > 0 && SizeOk(q[0] as int) && |q| > (q[0] as int * q[0] as int + 7) / 8
  }

  /** 4 * version + 17 for version 1 to 40. */
  predicate SizeOk(n: int) {
    21 <= n <= 177 && n % 4 == 1
  }

  function Size(q: seq<bv8>): nat
    requires |q| > 0
  {
    q[0] as int
  }

  ghost function Area(q: seq<bv8>): nat
    requires IsGrid(q)
  {
    Size(q) * Size(q)
  }

  /** The modules, row by row: module (x, y) is at index y * size + x. */
  ghost function Modules(q: seq<bv8>): (g: seq<bool>)
    requires IsGrid(q)
    ensures |g| == Area(q)
  {
    seq(Area(q), c requires 0 <= c < Area(q) => GetBit(q[c / 8 + 1], c % 8))
  }

  lemma CellInside(n: int, x: int, y: int)
    requires 0 <= x < n && 0 <= y < n
    ensures 0 <= y * n + x < n * n
  {
    CellInTable(n, n, x, y);
  }

  /** The index of the module in column x and row y. */
  function CellOf(n: nat, x: nat, y: nat): (c: nat)
    requires x < n && y < n
    ensures c < n * n
  {
    CellInside(n, x, y);
    y * n + x
  }

  /** The index of the first module of row y. */
  function RowStart(n: nat, y: nat): nat {
    MulNonNegative(y, n);
    y * n
  }

  lemma RowStarts(n: nat, y: nat)
    ensures RowStart(n, 0) == 0 && RowStart(n, y + 1) == RowStart(n, y) + n && RowStart(n, n) == n * n
    ensures forall x: nat :: x < n && y < n ==> CellOf(n, x, y) == RowStart(n, y) + x
  {
    DistributeRight(y, 1, n);
  }

  lemma GridArea(q: seq<bv8>)
    requires IsGrid(q)
    ensures |q| > 0 && SizeOk(Size(q)) && |Modules(q)| == Size(q) * Size(q)
  {
  }

  /** getModuleBounded. */
  method GetModule(q: array<bv8>, x: nat, y: nat) returns (dark: bool)
    requires IsGrid(q[..]) && x < Size(q[..]) && y < Size(q[..])
    ensures dark == Modules(q[..])[CellOf(Size(q[..]), x, y)]
  {
    hide GetBit;
    var n := q[0] as int;
    var index := CellOf(n, x, y);
    dark := GetBit(q[index / 8 + 1], index % 8);
  }

  /** setModuleBounded. */
  method SetModule(q: array<bv8>, x: nat, y: nat, dark: bool)
    requires IsGrid(q[..]) && x < Size(q[..]) && y < Size(q[..])
    modifies q
    ensures IsGrid(q[..]) && Size(q[..]) == old(Size(q[..]))
    ensures Modules(q[..]) == old(Modules(q[..]))[CellOf(Size(q[..]), x, y) := dark]
  {
    hide GetBit, SetBit;
    ghost var was := q[..];
    var n := q[0] as int;
    var index := CellOf(n, x, y);
    q[index / 8 + 1] := SetBit(q[index / 8 + 1], index % 8, dark);
    SetAffectsOne(was, index, dark);
    assert q[..] == was[index / 8 + 1 := SetBit(was[index / 8 + 1], index % 8, dark)];
  }

  lemma SetAffectsOne(q: seq<bv8>, index: nat, dark: bool)
    requires IsGrid(q) && index < Area(q)
    ensures var r := q[index / 8 + 1 := SetBit(q[index / 8 + 1], index % 8, dark)];
            IsGrid(r) && Size(r) == Size(q) && Modules(r) == Modules(q)[index := dark]
  {
    hide GetBit, SetBit;
    var b := index / 8 + 1;
    var r := q[b := SetBit(q[b], index % 8, dark)];
    forall c | 0 <= c < Area(q) ensures Modules(r)[c] == Modules(q)[index := dark][c] {
      SetThenGet(q[b], index % 8, dark, c % 8);
    }
  }
}
