/** Format bits and the automatic choice of a mask: drawFormatBits and the end of qrcodegen_encodeSegmentsAdvanced. */
module MaskChoice {
  import opened Arithmetic
  import opened Grid
  import opened Masking
  import opened FunctionModules
  import opened Penalty

  // ---- Format bits ----

  /** The error correction levels in the order LOW, MEDIUM, QUARTILE, HIGH. */
  function LevelBits(ecl: nat): bv16
    requires ecl < 4
  {
    match ecl case 0 => 1 case 1 => 0 case 2 => 3 case _ => 2
  }

  /** i steps of dividing by the generator polynomial 0x537. */
  function FormatRemainder(data: bv16, i: nat): bv16 {
    if i == 0 then data else FormatStep(FormatRemainder(data, i - 1))
  }

  function FormatStep(rem: bv16): bv16 {
    (rem << 1) ^ ((rem >> 9) * 0x537)
  }

  function FormatData(level: bv16, mask: bv16): bv16 {
    (level << 3) | mask
  }

  function FormatWord(data: bv16, rem: bv16): bv16 {
    ((data << 10) | rem) ^ 0x5412
  }

  /** Fifteen bits for the level and the mask. */
  function FormatBits(ecl: nat, mask: nat): bv16
    requires ecl < 4 && mask < 8
  {
    var data := FormatData(LevelBits(ecl), mask as bv16);
    FormatWord(data, FormatRemainder(data, 10))
  }

  lemma FormatStepBelow(rem: bv16)
    requires rem < 0x400
    ensures FormatStep(rem) < 0x400
  {
  }

  lemma {:induction false} FormatRemainderBelow(data: bv16, i: nat)
    requires data < 0x400
    ensures FormatRemainder(data, i) < 0x400
  {
    hide FormatStep;
    if i > 0 {
      FormatRemainderBelow(data, i - 1);
      FormatStepBelow(FormatRemainder(data, i - 1));
    }
  }

  lemma FifteenBits(data: bv16, rem: bv16)
    requires data < 0x20 && rem < 0x400
    ensures FormatWord(data, rem) >> 15 == 0
  {
  }

  lemma FormatDataBelow(level: bv16, mask: bv16)
    requires level < 4 && mask < 8
    ensures FormatData(level, mask) < 0x20
  {
  }

  lemma LevelDigits(ecl: nat)
    requires ecl < 4
    ensures LevelBits(ecl) < 4 && (LevelBits(ecl) & 1 != 0) == (ecl == 0 || ecl == 2) && (LevelBits(ecl) & 2 == 0) == (ecl == 0 || ecl == 1)
  {
  }

  lemma MaskDigits(m: nat)
    requires m < 8
    ensures m as bv16 < 8
    ensures m == (if m as bv16 & 4 != 0 then 4 else 0) + (if m as bv16 & 2 != 0 then 2 else 0) + (if m as bv16 & 1 != 0 then 1 else 0)
  {
    match m case 0 => case 1 => case 2 => case 3 => case 4 => case 5 => case 6 => case _ =>
  }

  /** Level, mask and remainder occupy fifteen bits and no more. */
  lemma FormatBitsFit(ecl: nat, mask: nat)
    requires ecl < 4 && mask < 8
    ensures FormatBits(ecl, mask) >> 15 == 0
  {
    hide LevelBits, FormatRemainder, FormatData, FormatWord;
    LevelDigits(ecl);
    MaskDigits(mask);
    var data := FormatData(LevelBits(ecl), mask as bv16);
    FormatDataBelow(LevelBits(ecl), mask as bv16);
    FormatRemainderBelow(data, 10);
    FifteenBits(data, FormatRemainder(data, 10));
  }

  method ComputeFormatBits(ecl: nat, mask: nat) returns (bits: bv16)
    requires ecl < 4 && mask < 8
    ensures bits == FormatBits(ecl, mask)
  {
    hide FormatStep, LevelBits, FormatData, FormatWord;
    var data := FormatData(LevelBits(ecl), mask as bv16);
    var rem := data;
    for i := 0 to 10
      invariant rem == FormatRemainder(data, i)
    {
      rem := FormatStep(rem);
    }
    bits := FormatWord(data, rem);
    FormatBitsFit(ecl, mask);
    assert bits >> 15 == 0;
  }

  predicate FormatBit(bits: bv16, i: nat)
    requires i < 15
  {
    (bits >> i) & 1 == 1
  }

  /** Where write k of drawFormatBits goes: fifteen modules, their second copy, and one that is always dark. */
  function FormatCell(n: nat, k: nat): (c: (nat, nat))
    requires SizeOk(n) && k < 31
    ensures c.0 < n && c.1 < n
  {
    if k <= 5 then (8, k)
    else if k == 6 then (8, 7)
    else if k == 7 then (8, 8)
    else if k == 8 then (7, 8)
    else if k < 15 then (14 - k, 8)
    else if k < 23 then (n - 1 - (k - 15), 8)
    else if k < 30 then (8, n - 15 + (k - 15))
    else (8, n - 8)
  }

  predicate FormatValue(bits: bv16, k: nat)
    requires k < 31
  {
    if k < 15 then FormatBit(bits, k) else if k < 30 then FormatBit(bits, k - 15) else true
  }

  function FormatIndex(n: nat, k: nat): (c: nat)
    requires SizeOk(n) && k < 31
    ensures c < n * n
  {
    CellInside(n, FormatCell(n, k).0, FormatCell(n, k).1);
    FormatCell(n, k).1 * n + FormatCell(n, k).0
  }

  /** The grid after the first k writes. */
  ghost function Formatted(n: nat, g: seq<bool>, bits: bv16, k: nat): (r: seq<bool>)
    requires SizeOk(n) && |g| == n * n && k <= 31
    ensures |r| == n * n
  {
    if k == 0 then g else Formatted(n, g, bits, k - 1)[FormatIndex(n, k - 1) := FormatValue(bits, k - 1)]
  }

  method SetFormat(q: array<bv8>, ghost was: seq<bool>, bits: bv16, k: nat, x: nat, y: nat, dark: bool)
    requires IsGrid(q[..]) && k < 31 && (x, y) == FormatCell(Size(q[..]), k) && dark == FormatValue(bits, k)
    requires |was| == Area(q[..]) && Modules(q[..]) == Formatted(Size(q[..]), was, bits, k)
    modifies q
    ensures IsGrid(q[..]) && Size(q[..]) == old(Size(q[..])) && Modules(q[..]) == Formatted(Size(q[..]), was, bits, k + 1)
  {
    hide FormatValue, FormatCell, Modules;
    SetModule(q, x, y, dark);
  }

  /** The copy beside the upper left corner. */
  method DrawFirstCopy(q: array<bv8>, ghost was: seq<bool>, bits: bv16)
    requires IsGrid(q[..]) && was == Modules(q[..])
    modifies q
    ensures IsGrid(q[..]) && Size(q[..]) == old(Size(q[..]))
    ensures Modules(q[..]) == Formatted(Size(q[..]), was, bits, 15)
  {
    hide FormatBit, Formatted, Modules, IsGrid;
    GridArea(q[..]);
    var n := Size(q[..]);
    FormatStart(n, was, bits);
    for i := 0 to 6
      invariant IsGrid(q[..]) && Size(q[..]) == n && Modules(q[..]) == Formatted(n, was, bits, i)
    {
      SetFormat(q, was, bits, i, 8, i, FormatBit(bits, i));
    }
    SetFormat(q, was, bits, 6, 8, 7, FormatBit(bits, 6));
    SetFormat(q, was, bits, 7, 8, 8, FormatBit(bits, 7));
    SetFormat(q, was, bits, 8, 7, 8, FormatBit(bits, 8));
    for i := 9 to 15
      invariant IsGrid(q[..]) && Size(q[..]) == n && Modules(q[..]) == Formatted(n, was, bits, i)
    {
      SetFormat(q, was, bits, i, 14 - i, 8, FormatBit(bits, i));
    }
  }

  /** The copy split between the other two corners, and the dark module. */
  method DrawSecondCopy(q: array<bv8>, ghost was: seq<bool>, bits: bv16)
    requires IsGrid(q[..]) && |was| == Area(q[..]) && Modules(q[..]) == Formatted(Size(q[..]), was, bits, 15)
    modifies q
    ensures IsGrid(q[..]) && Size(q[..]) == old(Size(q[..]))
    ensures Modules(q[..]) == Formatted(Size(q[..]), was, bits, 31)
  {
    hide FormatBit, Formatted, Modules, IsGrid;
    GridArea(q[..]);
    var n := Size(q[..]);
    for i := 0 to 8
      invariant IsGrid(q[..]) && Size(q[..]) == n && Modules(q[..]) == Formatted(n, was, bits, 15 + i)
    {
      SetFormat(q, was, bits, 15 + i, n - 1 - i, 8, FormatBit(bits, i));
    }
    for i := 8 to 15
      invariant IsGrid(q[..]) && Size(q[..]) == n && Modules(q[..]) == Formatted(n, was, bits, 15 + i)
    {
      SetFormat(q, was, bits, 15 + i, 8, n - 15 + i, FormatBit(bits, i));
    }
    SetFormat(q, was, bits, 30, 8, n - 8, true);
  }

  /** drawFormatBits. */
  method DrawFormatBits(ecl: nat, mask: nat, q: array<bv8>)
    requires ecl < 4 && mask < 8 && IsGrid(q[..])
    modifies q
    ensures IsGrid(q[..]) && Size(q[..]) == old(Size(q[..]))
    ensures Modules(q[..]) == Formatted(Size(q[..]), old(Modules(q[..])), FormatBits(ecl, mask), 31)
  {
    hide FormatBits, Formatted, Modules;
    var bits := ComputeFormatBits(ecl, mask);
    ghost var was := Modules(q[..]);
    DrawFirstCopy(q, was, bits);
    DrawSecondCopy(q, was, bits);
  }

  lemma FormatStart(n: nat, was: seq<bool>, bits: bv16)
    requires SizeOk(n) && |was| == n * n
    ensures Formatted(n, was, bits, 0) == was
  {
  }

  // ---- Format modules are function modules ----

  lemma FormatInCorner(v: nat, k: nat)
    requires VersionOk(v) && k < 31
    ensures SizeOk(SizeOf(v)) && IsFunction(v, FormatCell(SizeOf(v), k).0, FormatCell(SizeOf(v), k).1)
  {
    hide Aligned;
  }

  lemma FormatMarked(v: nat, k: nat)
    requires VersionOk(v) && k < 31
    ensures SizeOk(SizeOf(v)) && FunctionMask(v)[FormatIndex(SizeOf(v), k)]
  {
    hide FunctionMask, IsFunction, FormatCell;
    FormatInCorner(v, k);
    MaskCellIs(v, FormatCell(SizeOf(v), k).0, FormatCell(SizeOf(v), k).1);
  }

  ghost predicate FormatInside(n: nat, f: seq<bool>)
    requires SizeOk(n) && |f| == n * n
  {
    forall k :: 0 <= k < 31 ==> f[FormatIndex(n, k)]
  }

  lemma FunctionMaskFormat(v: nat)
    requires VersionOk(v)
    ensures SizeOk(SizeOf(v)) && FormatInside(SizeOf(v), FunctionMask(v))
  {
    hide FunctionMask, FormatIndex;
    forall k | 0 <= k < 31 ensures FunctionMask(v)[FormatIndex(SizeOf(v), k)] { FormatMarked(v, k); }
  }

  /** Format bits leave every unmarked module alone. */
  lemma {:induction false} FormatUnmarked(n: nat, f: seq<bool>, g: seq<bool>, bits: bv16, k: nat)
    requires SizeOk(n) && |f| == |g| == n * n && k <= 31 && FormatInside(n, f)
    ensures forall c :: 0 <= c < n * n && !f[c] ==> Formatted(n, g, bits, k)[c] == g[c]
  {
    hide FormatIndex, FormatValue;
    if k > 0 { FormatUnmarked(n, f, g, bits, k - 1); }
  }

  /** Grids that differ only in format modules. */
  ghost predicate FormatOnly(n: nat, g: seq<bool>, h: seq<bool>, k: nat)
    requires SizeOk(n) && k <= 31
  {
    |g| == |h| == n * n && forall c :: 0 <= c < n * n && g[c] != h[c] ==> exists i :: k <= i < 31 && FormatIndex(n, i) == c
  }

  /** Drawing format bits makes such grids equal. */
  lemma {:induction false} FormatAbsorbs(n: nat, g: seq<bool>, h: seq<bool>, bits: bv16, k: nat)
    requires SizeOk(n) && k <= 31 && FormatOnly(n, g, h, 0)
    ensures FormatOnly(n, Formatted(n, g, bits, k), Formatted(n, h, bits, k), k)
    ensures k == 31 ==> Formatted(n, g, bits, k) == Formatted(n, h, bits, k)
  {
    hide FormatIndex, FormatValue;
    if k > 0 { FormatAbsorbs(n, g, h, bits, k - 1); }
  }

  lemma {:induction false} FormattedDiffers(n: nat, g: seq<bool>, bits: bv16, k: nat)
    requires SizeOk(n) && k <= 31 && |g| == n * n
    ensures FormatOnly(n, Formatted(n, g, bits, k), g, 0)
  {
    hide FormatIndex, FormatValue;
    if k > 0 { FormattedDiffers(n, g, bits, k - 1); }
  }

  // ---- Reading the format modules ----

  /** Whether the format module of write k is dark. */
  predicate FormatDark(n: nat, g: seq<bool>, k: nat)
    requires SizeOk(n) && |g| == n * n && k < 31
  {
    g[FormatIndex(n, k)]
  }

  /** The mask number in the format modules, the constant 0x5412 taken off. */
  function ReadMask(n: nat, g: seq<bool>): (m: nat)
    requires SizeOk(n) && |g| == n * n
    ensures m < 8
  {
    (if FormatDark(n, g, 12) then 0 else 4) + (if FormatDark(n, g, 11) then 2 else 0) + (if FormatDark(n, g, 10) then 0 else 1)
  }

  /** The error correction level in the format modules. */
  function ReadLevel(n: nat, g: seq<bool>): (e: nat)
    requires SizeOk(n) && |g| == n * n
    ensures e < 4
  {
    match (FormatDark(n, g, 14), FormatDark(n, g, 13))
    case (true, true) => 0
    case (true, false) => 1
    case (false, true) => 2
    case (false, false) => 3
  }

  /** Two writes never go to one module. */
  lemma FormatIndexOnce(n: nat, j: nat, k: nat)
    requires SizeOk(n) && j < k < 31
    ensures FormatIndex(n, j) != FormatIndex(n, k)
  {
    var c, d := FormatCell(n, j), FormatCell(n, k);
    DivUnique(FormatIndex(n, j), n, c.1, c.0);
    DivUnique(FormatIndex(n, k), n, d.1, d.0);
  }

  lemma {:induction false} FormattedAt(n: nat, g: seq<bool>, bits: bv16, j: nat, k: nat)
    requires SizeOk(n) && |g| == n * n && j < k <= 31
    ensures Formatted(n, g, bits, k)[FormatIndex(n, j)] == FormatValue(bits, j)
  {
    hide FormatIndex, FormatValue;
    if j < k - 1 {
      FormattedAt(n, g, bits, j, k - 1);
      FormatIndexOnce(n, j, k - 1);
    }
  }

  /** The upper five bits hold level and mask, with the constant exclusive-or'ed on. */
  lemma UpperBits(level: bv16, mask: bv16, rem: bv16)
    requires level < 4 && mask < 8 && rem < 0x400
    ensures var bits := FormatWord(FormatData(level, mask), rem);
            && FormatBit(bits, 10) == (mask & 1 == 0) && FormatBit(bits, 11) == (mask & 2 != 0) && FormatBit(bits, 12) == (mask & 4 == 0)
            && FormatBit(bits, 13) == (level & 1 != 0) && FormatBit(bits, 14) == (level & 2 == 0)
  {
  }

  /** Level and mask are the ones that were drawn. */
  lemma FormatRead(n: nat, g: seq<bool>, ecl: nat, m: nat)
    requires SizeOk(n) && |g| == n * n && ecl < 4 && m < 8
    ensures var r := Formatted(n, g, FormatBits(ecl, m), 31); ReadLevel(n, r) == ecl && ReadMask(n, r) == m
  {
    var bits := FormatBits(ecl, m);
    MaskDigits(m);
    FormatBitsUpper(ecl, m);
    forall k: nat | k < 15 ensures FormatDark(n, Formatted(n, g, bits, 31), k) == FormatBit(bits, k) { FormattedAt(n, g, bits, k, 31); }
    hide FormatBits, FormatBit, FormatDark, Formatted;
  }

  lemma FormatBitsUpper(ecl: nat, m: nat)
    requires ecl < 4 && m < 8
    ensures var bits, mask := FormatBits(ecl, m), m as bv16;
            && FormatBit(bits, 10) == (mask & 1 == 0) && FormatBit(bits, 11) == (mask & 2 != 0) && FormatBit(bits, 12) == (mask & 4 == 0)
            && FormatBit(bits, 13) == (ecl == 0 || ecl == 2) && FormatBit(bits, 14) == (ecl == 0 || ecl == 1)
  {
    hide FormatBit, FormatRemainder, LevelBits, FormatData, FormatWord;
    var level, mask := LevelBits(ecl), m as bv16;
    LevelDigits(ecl);
    MaskDigits(m);
    FormatDataBelow(level, mask);
    FormatRemainderBelow(FormatData(level, mask), 10);
    UpperBits(level, mask, FormatRemainder(FormatData(level, mask), 10));
  }

  // ---- One round of the choice ----

  /** The finished grid for mask m. */
  ghost function Candidate(n: nat, f: seq<bool>, g: seq<bool>, ecl: nat, m: nat): (r: seq<bool>)
    requires SizeOk(n) && |f| == |g| == n * n && ecl < 4 && m < 8
    ensures |r| == n * n
  {
    Formatted(n, Masked(n, f, g, m), FormatBits(ecl, m), 31)
  }

  /** Masking keeps a difference in format modules, which are all marked, to those modules. */
  lemma MaskedDiffers(n: nat, f: seq<bool>, g: seq<bool>, h: seq<bool>, m: nat)
    requires SizeOk(n) && |f| == n * n && m < 8 && FormatOnly(n, g, h, 0)
    ensures FormatOnly(n, Masked(n, f, g, m), Masked(n, f, h, m), 0)
  {
    hide Invert, FormatIndex;
  }

  /** Trying a mask and undoing it changes format modules only. */
  lemma RoundRestores(n: nat, f: seq<bool>, g: seq<bool>, h: seq<bool>, ecl: nat, m: nat)
    requires SizeOk(n) && |f| == |g| == |h| == n * n && ecl < 4 && m < 8 && FormatOnly(n, h, g, 0)
    ensures Candidate(n, f, h, ecl, m) == Candidate(n, f, g, ecl, m)
    ensures FormatOnly(n, Masked(n, f, Candidate(n, f, g, ecl, m), m), g, 0)
  {
    hide Masked, Formatted, FormatBits, FormatOnly;
    var b := FormatBits(ecl, m);
    MaskedDiffers(n, f, h, g, m);
    FormatAbsorbs(n, Masked(n, f, h, m), Masked(n, f, g, m), b, 31);
    FormattedDiffers(n, Masked(n, f, g, m), b, 31);
    MaskedDiffers(n, f, Candidate(n, f, g, ecl, m), Masked(n, f, g, m), m);
    MaskTwice(n, f, g, m);
  }

  /** Modules that are not function modules carry the original module exclusive-or exactly one mask. */
  lemma CandidateUnmarked(n: nat, f: seq<bool>, g: seq<bool>, ecl: nat, m: nat, x: nat, y: nat)
    requires SizeOk(n) && |f| == |g| == n * n && ecl < 4 && m < 8 && FormatInside(n, f) && x < n && y < n
    ensures y * n + x < n * n
    ensures !f[y * n + x] ==> Candidate(n, f, g, ecl, m)[y * n + x] == (g[y * n + x] != Invert(m, x, y))
  {
    hide Formatted, FormatBits, FormatInside, Invert;
    CellInside(n, x, y);
    FormatUnmarked(n, f, Masked(n, f, g, m), FormatBits(ecl, m), 31);
    DivUnique(y * n + x, n, y, x);
  }

  /** Function modules other than the format modules are unchanged. */
  lemma CandidateMarked(n: nat, f: seq<bool>, g: seq<bool>, ecl: nat, m: nat, c: nat)
    requires SizeOk(n) && |f| == |g| == n * n && ecl < 4 && m < 8 && c < n * n && f[c]
    requires forall k :: 0 <= k < 31 ==> FormatIndex(n, k) != c
    ensures Candidate(n, f, g, ecl, m)[c] == g[c]
  {
    hide Formatted, FormatBits, FormatIndex, Invert;
    FormattedDiffers(n, Masked(n, f, g, m), FormatBits(ecl, m), 31);
  }

  ghost function CandidateScore(n: nat, f: seq<bool>, g: seq<bool>, ecl: nat, m: nat): int
    requires SizeOk(n) && |f| == |g| == n * n && ecl < 4 && m < 8
  {
    Score(n, Candidate(n, f, g, ecl, m))
  }

  /** m is the first of the masks below k whose candidate has the least score. */
  ghost predicate FirstBest(n: nat, f: seq<bool>, g: seq<bool>, ecl: nat, m: nat, k: nat)
    requires SizeOk(n) && |f| == |g| == n * n && ecl < 4 && k <= 8
  {
    m < k
    && (forall i: nat :: i < k ==> CandidateScore(n, f, g, ecl, m) <= CandidateScore(n, f, g, ecl, i))
    && (forall i: nat :: i < m ==> CandidateScore(n, f, g, ecl, m) < CandidateScore(n, f, g, ecl, i))
  }

  /** One iteration of the loop over masks: draw the candidate, score it, and undo the mask. */
  method TryMask(functionModules: array<bv8>, q: array<bv8>, ecl: nat, m: nat, ghost g: seq<bool>) returns (penalty: int)
    requires IsGrid(functionModules[..]) && IsGrid(q[..]) && Size(functionModules[..]) == Size(q[..])
    requires functionModules != q && ecl < 4 && m < 8 && |g| == Area(q[..]) && FormatOnly(Size(q[..]), Modules(q[..]), g, 0)
    modifies q
    ensures IsGrid(q[..]) && Size(q[..]) == old(Size(q[..])) && FormatOnly(Size(q[..]), Modules(q[..]), g, 0)
    ensures penalty == CandidateScore(Size(q[..]), Modules(functionModules[..]), g, ecl, m)
  {
    hide Masked, Formatted, FormatBits, FormatOnly, Modules, Score;
    ghost var n, f, h := Size(q[..]), Modules(functionModules[..]), Modules(q[..]);
    RoundRestores(n, f, g, h, ecl, m);
    ApplyMask(functionModules, q, m);
    DrawFormatBits(ecl, m, q);
    penalty := GetPenaltyScore(q);
    ApplyMask(functionModules, q, m);
  }

  /** No mask given: choose one automatically. */
  const MASK_AUTO: int := -1

  /** The masking part of qrcodegen_encodeSegmentsAdvanced. */
  method MaskAndFormat(functionModules: array<bv8>, q: array<bv8>, ecl: nat, requested: int) returns (mask: int)
    requires IsGrid(functionModules[..]) && IsGrid(q[..]) && Size(functionModules[..]) == Size(q[..])
    requires functionModules != q && ecl < 4 && -1 <= requested < 8
    modifies q
    ensures IsGrid(q[..]) && Size(q[..]) == old(Size(q[..])) && 0 <= mask < 8
    ensures var n, f, g := Size(q[..]), Modules(functionModules[..]), old(Modules(q[..]));
            && Modules(q[..]) == Candidate(n, f, g, ecl, mask)
            && (if requested == MASK_AUTO then FirstBest(n, f, g, ecl, mask, 8) else mask == requested)
  {
    hide Masked, Formatted, FormatBits, FormatOnly, Modules, CandidateScore;
    ghost var n, f, g := Size(q[..]), Modules(functionModules[..]), Modules(q[..]);
    mask := requested;
    SameGrid(n, g);
    if mask == MASK_AUTO {
      var minPenalty: int := 0x7FFF_FFFF;
      for i := 0 to 8
        invariant IsGrid(q[..]) && Size(q[..]) == n && FormatOnly(n, Modules(q[..]), g, 0)
        invariant if i == 0 then minPenalty == 0x7FFF_FFFF && mask == -1
                  else 0 <= mask < 8 && FirstBest(n, f, g, ecl, mask, i) && minPenalty == CandidateScore(n, f, g, ecl, mask)
      {
        var penalty := TryMask(functionModules, q, ecl, i, g);
        CandidateBound(n, f, g, ecl, i);
        if penalty < minPenalty {
          mask := i;
          minPenalty := penalty;
        }
      }
    }
    ghost var h := Modules(q[..]);
    RoundRestores(n, f, g, h, ecl, mask);
    ApplyMask(functionModules, q, mask);
    DrawFormatBits(ecl, mask, q);
  }

  lemma CandidateBound(n: nat, f: seq<bool>, g: seq<bool>, ecl: nat, m: nat)
    requires SizeOk(n) && |f| == |g| == n * n && ecl < 4 && m < 8
    ensures CandidateScore(n, f, g, ecl, m) <= 2568888
  {
    hide Score, Candidate;
    ScoreBound(n, Candidate(n, f, g, ecl, m));
  }

  lemma SameGrid(n: nat, g: seq<bool>)
    requires SizeOk(n) && |g| == n * n
    ensures FormatOnly(n, g, g, 0)
  {
  }
}
