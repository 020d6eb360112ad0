/** Versions, error correction levels and their block layouts: the tables and size formulas of qrcodegen.c. */
module Versions {
  import opened FunctionModules
  import opened Interleave

  /** ECC_CODEWORDS_PER_BLOCK, for level e (LOW, MEDIUM, QUARTILE, HIGH) and version v. */
  function EccPerBlock(e: nat, v: nat): nat
    requires e < 4 && VersionOk(v)
  {
    match e
    case 0 => EccPerBlock0(v)
    case 1 => EccPerBlock1(v)
    case 2 => EccPerBlock2(v)
    case _ => EccPerBlock3(v)
  }

  function EccPerBlock0(v: nat): nat {
    match v
    case 1 => 7 case 2 => 10 case 3 => 15 case 4 => 20 case 5 => 26 case 6 => 18 case 7 => 20 case 8 => 24
    case 9 => 30 case 10 => 18
    case 11 => 20 case 12 => 24 case 13 => 26 case 14 => 30 case 15 => 22 case 16 => 24 case 17 => 28
    case 18 => 30 case 19 => 28 case 20 => 28
    case 21 => 28 case 22 => 28 case 23 => 30 case 24 => 30 case 25 => 26 case 26 => 28 case 27 => 30
    case 28 => 30 case 29 => 30 case 30 => 30
    case 31 => 30 case 32 => 30 case 33 => 30 case 34 => 30 case 35 => 30 case 36 => 30 case 37 => 30
    case 38 => 30 case 39 => 30 case _ => 30
  }

  function EccPerBlock1(v: nat): nat {
    match v
    case 1 => 10 case 2 => 16 case 3 => 26 case 4 => 18 case 5 => 24 case 6 => 16 case 7 => 18 case 8 => 22
    case 9 => 22 case 10 => 26
    case 11 => 30 case 12 => 22 case 13 => 22 case 14 => 24 case 15 => 24 case 16 => 28 case 17 => 28
    case 18 => 26 case 19 => 26 case 20 => 26
    case 21 => 26 case 22 => 28 case 23 => 28 case 24 => 28 case 25 => 28 case 26 => 28 case 27 => 28
    case 28 => 28 case 29 => 28 case 30 => 28
    case 31 => 28 case 32 => 28 case 33 => 28 case 34 => 28 case 35 => 28 case 36 => 28 case 37 => 28
    case 38 => 28 case 39 => 28 case _ => 28
  }

  function EccPerBlock2(v: nat): nat {
    match v
    case 1 => 13 case 2 => 22 case 3 => 18 case 4 => 26 case 5 => 18 case 6 => 24 case 7 => 18 case 8 => 22
    case 9 => 20 case 10 => 24
    case 11 => 28 case 12 => 26 case 13 => 24 case 14 => 20 case 15 => 30 case 16 => 24 case 17 => 28
    case 18 => 28 case 19 => 26 case 20 => 30
    case 21 => 28 case 22 => 30 case 23 => 30 case 24 => 30 case 25 => 30 case 26 => 28 case 27 => 30
    case 28 => 30 case 29 => 30 case 30 => 30
    case 31 => 30 case 32 => 30 case 33 => 30 case 34 => 30 case 35 => 30 case 36 => 30 case 37 => 30
    case 38 => 30 case 39 => 30 case _ => 30
  }

  function EccPerBlock3(v: nat): nat {
    match v
    case 1 => 17 case 2 => 28 case 3 => 22 case 4 => 16 case 5 => 22 case 6 => 28 case 7 => 26 case 8 => 26
    case 9 => 24 case 10 => 28
    case 11 => 24 case 12 => 28 case 13 => 22 case 14 => 24 case 15 => 24 case 16 => 30 case 17 => 28
    case 18 => 28 case 19 => 26 case 20 => 28
    case 21 => 30 case 22 => 24 case 23 => 30 case 24 => 30 case 25 => 30 case 26 => 30 case 27 => 30
    case 28 => 30 case 29 => 30 case 30 => 30
    case 31 => 30 case 32 => 30 case 33 => 30 case 34 => 30 case 35 => 30 case 36 => 30 case 37 => 30
    case 38 => 30 case 39 => 30 case _ => 30
  }

  /** NUM_ERROR_CORRECTION_BLOCKS. */
  function NumBlocks(e: nat, v: nat): nat
    requires e < 4 && VersionOk(v)
  {
    match e
    case 0 => NumBlocks0(v)
    case 1 => NumBlocks1(v)
    case 2 => NumBlocks2(v)
    case _ => NumBlocks3(v)
  }

  function NumBlocks0(v: nat): nat {
    match v
    case 1 => 1 case 2 => 1 case 3 => 1 case 4 => 1 case 5 => 1 case 6 => 2 case 7 => 2 case 8 => 2
    case 9 => 2 case 10 => 4
    case 11 => 4 case 12 => 4 case 13 => 4 case 14 => 4 case 15 => 6 case 16 => 6 case 17 => 6 case 18 => 6
    case 19 => 7 case 20 => 8
    case 21 => 8 case 22 => 9 case 23 => 9 case 24 => 10 case 25 => 12 case 26 => 12 case 27 => 12
    case 28 => 13 case 29 => 14 case 30 => 15
    case 31 => 16 case 32 => 17 case 33 => 18 case 34 => 19 case 35 => 19 case 36 => 20 case 37 => 21
    case 38 => 22 case 39 => 24 case _ => 25
  }

  function NumBlocks1(v: nat): nat {
    match v
    case 1 => 1 case 2 => 1 case 3 => 1 case 4 => 2 case 5 => 2 case 6 => 4 case 7 => 4 case 8 => 4
    case 9 => 5 case 10 => 5
    case 11 => 5 case 12 => 8 case 13 => 9 case 14 => 9 case 15 => 10 case 16 => 10 case 17 => 11
    case 18 => 13 case 19 => 14 case 20 => 16
    case 21 => 17 case 22 => 17 case 23 => 18 case 24 => 20 case 25 => 21 case 26 => 23 case 27 => 25
    case 28 => 26 case 29 => 28 case 30 => 29
    case 31 => 31 case 32 => 33 case 33 => 35 case 34 => 37 case 35 => 38 case 36 => 40 case 37 => 43
    case 38 => 45 case 39 => 47 case _ => 49
  }

  function NumBlocks2(v: nat): nat {
    match v
    case 1 => 1 case 2 => 1 case 3 => 2 case 4 => 2 case 5 => 4 case 6 => 4 case 7 => 6 case 8 => 6
    case 9 => 8 case 10 => 8
    case 11 => 8 case 12 => 10 case 13 => 12 case 14 => 16 case 15 => 12 case 16 => 17 case 17 => 16
    case 18 => 18 case 19 => 21 case 20 => 20
    case 21 => 23 case 22 => 23 case 23 => 25 case 24 => 27 case 25 => 29 case 26 => 34 case 27 => 34
    case 28 => 35 case 29 => 38 case 30 => 40
    case 31 => 43 case 32 => 45 case 33 => 48 case 34 => 51 case 35 => 53 case 36 => 56 case 37 => 59
    case 38 => 62 case 39 => 65 case _ => 68
  }

  function NumBlocks3(v: nat): nat {
    match v
    case 1 => 1 case 2 => 1 case 3 => 2 case 4 => 4 case 5 => 4 case 6 => 4 case 7 => 5 case 8 => 6
    case 9 => 8 case 10 => 8
    case 11 => 11 case 12 => 11 case 13 => 16 case 14 => 16 case 15 => 18 case 16 => 16 case 17 => 19
    case 18 => 21 case 19 => 25 case 20 => 25
    case 21 => 25 case 22 => 34 case 23 => 30 case 24 => 32 case 25 => 35 case 26 => 37 case 27 => 40
    case 28 => 42 case 29 => 45 case 30 => 48
    case 31 => 51 case 32 => 54 case 33 => 57 case 34 => 60 case 35 => 63 case 36 => 66 case 37 => 70
    case 38 => 74 case 39 => 77 case _ => 81
  }

  /** getNumRawDataModules. */
  function RawDataModules(v: nat): int
    requires VersionOk(v)
  {
    var result := (16 * v + 128) * v + 64;
    if v < 2 then result
    else
      var numAlign := v / 7 + 2;
      result - ((25 * numAlign - 10) * numAlign - 55) - (if v >= 7 then 36 else 0)
  }

  function RawCodewords(v: nat): int
    requires VersionOk(v)
  {
    RawDataModules(v) / 8
  }

  /** getNumDataCodewords. */
  function NumDataCodewords(v: nat, e: nat): int
    requires e < 4 && VersionOk(v)
  {
    RawCodewords(v) - EccPerBlock(e, v) * NumBlocks(e, v)
  }

  /** The values of getNumRawDataModules divided by eight. */
  function RawTable(v: nat): nat {
    match v
    case 1 => 26 case 2 => 44 case 3 => 70 case 4 => 100 case 5 => 134 case 6 => 172 case 7 => 196
    case 8 => 242 case 9 => 292 case 10 => 346
    case 11 => 404 case 12 => 466 case 13 => 532 case 14 => 581 case 15 => 655 case 16 => 733 case 17 => 815
    case 18 => 901 case 19 => 991 case 20 => 1085
    case 21 => 1156 case 22 => 1258 case 23 => 1364 case 24 => 1474 case 25 => 1588 case 26 => 1706
    case 27 => 1828 case 28 => 1921 case 29 => 2051 case 30 => 2185
    case 31 => 2323 case 32 => 2465 case 33 => 2611 case 34 => 2761 case 35 => 2876 case 36 => 3034
    case 37 => 3196 case 38 => 3362 case 39 => 3532 case _ => 3706
  }

  lemma RawValues0(v: nat)
    requires 1 <= v <= 10
    ensures RawCodewords(v) == RawTable(v)
  {
    match v
    case 1 => case 2 => case 3 => case 4 => case 5 => case 6 => case 7 => case 8 => case 9 => case _ =>
  }

  lemma RawValues1(v: nat)
    requires 11 <= v <= 20
    ensures RawCodewords(v) == RawTable(v)
  {
    match v
    case 11 => case 12 => case 13 => case 14 => case 15 => case 16 => case 17 => case 18 => case 19 =>
    case _ =>
  }

  lemma RawValues2(v: nat)
    requires 21 <= v <= 30
    ensures RawCodewords(v) == RawTable(v)
  {
    match v
    case 21 => case 22 => case 23 => case 24 => case 25 => case 26 => case 27 => case 28 => case 29 =>
    case _ =>
  }

  lemma RawValues3(v: nat)
    requires 31 <= v <= 40
    ensures RawCodewords(v) == RawTable(v)
  {
    match v
    case 31 => case 32 => case 33 => case 34 => case 35 => case 36 => case 37 => case 38 => case 39 =>
    case _ =>
  }

  lemma RawValues(v: nat)
    requires VersionOk(v)
    ensures RawCodewords(v) == RawTable(v)
  {
    hide RawCodewords, RawTable;
    if v <= 10 { RawValues0(v); } else if v <= 20 { RawValues1(v); } else if v <= 30 { RawValues2(v); } else { RawValues3(v); }
  }

  lemma Tables0x0(v: nat)
    requires 1 <= v <= 10
    ensures LayoutOk(NumBlocks0(v), EccPerBlock0(v), RawTable(v))
  {
    match v
    case 1 => case 2 => case 3 => case 4 => case 5 => case 6 => case 7 => case 8 => case 9 => case _ =>
  }

  lemma Tables0x1(v: nat)
    requires 11 <= v <= 20
    ensures LayoutOk(NumBlocks0(v), EccPerBlock0(v), RawTable(v))
  {
    match v
    case 11 => case 12 => case 13 => case 14 => case 15 => case 16 => case 17 => case 18 => case 19 =>
    case _ =>
  }

  lemma Tables0x2(v: nat)
    requires 21 <= v <= 30
    ensures LayoutOk(NumBlocks0(v), EccPerBlock0(v), RawTable(v))
  {
    match v
    case 21 => case 22 => case 23 => case 24 => case 25 => case 26 => case 27 => case 28 => case 29 =>
    case _ =>
  }

  lemma Tables0x3(v: nat)
    requires 31 <= v <= 40
    ensures LayoutOk(NumBlocks0(v), EccPerBlock0(v), RawTable(v))
  {
    match v
    case 31 => case 32 => case 33 => case 34 => case 35 => case 36 => case 37 => case 38 => case 39 =>
    case _ =>
  }

  lemma Level0(v: nat)
    requires VersionOk(v)
    ensures LayoutOk(NumBlocks0(v), EccPerBlock0(v), RawTable(v))
  {
    hide NumBlocks0, EccPerBlock0, RawTable, LayoutOk;
    if v <= 10 { Tables0x0(v); } else if v <= 20 { Tables0x1(v); } else if v <= 30 { Tables0x2(v); } else { Tables0x3(v); }
  }

  lemma Tables1x0(v: nat)
    requires 1 <= v <= 10
    ensures LayoutOk(NumBlocks1(v), EccPerBlock1(v), RawTable(v))
  {
    match v
    case 1 => case 2 => case 3 => case 4 => case 5 => case 6 => case 7 => case 8 => case 9 => case _ =>
  }

  lemma Tables1x1(v: nat)
    requires 11 <= v <= 20
    ensures LayoutOk(NumBlocks1(v), EccPerBlock1(v), RawTable(v))
  {
    match v
    case 11 => case 12 => case 13 => case 14 => case 15 => case 16 => case 17 => case 18 => case 19 =>
    case _ =>
  }

  lemma Tables1x2(v: nat)
    requires 21 <= v <= 30
    ensures LayoutOk(NumBlocks1(v), EccPerBlock1(v), RawTable(v))
  {
    match v
    case 21 => case 22 => case 23 => case 24 => case 25 => case 26 => case 27 => case 28 => case 29 =>
    case _ =>
  }

  lemma Tables1x3(v: nat)
    requires 31 <= v <= 40
    ensures LayoutOk(NumBlocks1(v), EccPerBlock1(v), RawTable(v))
  {
    match v
    case 31 => case 32 => case 33 => case 34 => case 35 => case 36 => case 37 => case 38 => case 39 =>
    case _ =>
  }

  lemma Level1(v: nat)
    requires VersionOk(v)
    ensures LayoutOk(NumBlocks1(v), EccPerBlock1(v), RawTable(v))
  {
    hide NumBlocks1, EccPerBlock1, RawTable, LayoutOk;
    if v <= 10 { Tables1x0(v); } else if v <= 20 { Tables1x1(v); } else if v <= 30 { Tables1x2(v); } else { Tables1x3(v); }
  }

  lemma Tables2x0(v: nat)
    requires 1 <= v <= 10
    ensures LayoutOk(NumBlocks2(v), EccPerBlock2(v), RawTable(v))
  {
    match v
    case 1 => case 2 => case 3 => case 4 => case 5 => case 6 => case 7 => case 8 => case 9 => case _ =>
  }

  lemma Tables2x1(v: nat)
    requires 11 <= v <= 20
    ensures LayoutOk(NumBlocks2(v), EccPerBlock2(v), RawTable(v))
  {
    match v
    case 11 => case 12 => case 13 => case 14 => case 15 => case 16 => case 17 => case 18 => case 19 =>
    case _ =>
  }

  lemma Tables2x2(v: nat)
    requires 21 <= v <= 30
    ensures LayoutOk(NumBlocks2(v), EccPerBlock2(v), RawTable(v))
  {
    match v
    case 21 => case 22 => case 23 => case 24 => case 25 => case 26 => case 27 => case 28 => case 29 =>
    case _ =>
  }

  lemma Tables2x3(v: nat)
    requires 31 <= v <= 40
    ensures LayoutOk(NumBlocks2(v), EccPerBlock2(v), RawTable(v))
  {
    match v
    case 31 => case 32 => case 33 => case 34 => case 35 => case 36 => case 37 => case 38 => case 39 =>
    case _ =>
  }

  lemma Level2(v: nat)
    requires VersionOk(v)
    ensures LayoutOk(NumBlocks2(v), EccPerBlock2(v), RawTable(v))
  {
    hide NumBlocks2, EccPerBlock2, RawTable, LayoutOk;
    if v <= 10 { Tables2x0(v); } else if v <= 20 { Tables2x1(v); } else if v <= 30 { Tables2x2(v); } else { Tables2x3(v); }
  }

  lemma Tables3x0(v: nat)
    requires 1 <= v <= 10
    ensures LayoutOk(NumBlocks3(v), EccPerBlock3(v), RawTable(v))
  {
    match v
    case 1 => case 2 => case 3 => case 4 => case 5 => case 6 => case 7 => case 8 => case 9 => case _ =>
  }

  lemma Tables3x1(v: nat)
    requires 11 <= v <= 20
    ensures LayoutOk(NumBlocks3(v), EccPerBlock3(v), RawTable(v))
  {
    match v
    case 11 => case 12 => case 13 => case 14 => case 15 => case 16 => case 17 => case 18 => case 19 =>
    case _ =>
  }

  lemma Tables3x2(v: nat)
    requires 21 <= v <= 30
    ensures LayoutOk(NumBlocks3(v), EccPerBlock3(v), RawTable(v))
  {
    match v
    case 21 => case 22 => case 23 => case 24 => case 25 => case 26 => case 27 => case 28 => case 29 =>
    case _ =>
  }

  lemma Tables3x3(v: nat)
    requires 31 <= v <= 40
    ensures LayoutOk(NumBlocks3(v), EccPerBlock3(v), RawTable(v))
  {
    match v
    case 31 => case 32 => case 33 => case 34 => case 35 => case 36 => case 37 => case 38 => case 39 =>
    case _ =>
  }

  lemma Level3(v: nat)
    requires VersionOk(v)
    ensures LayoutOk(NumBlocks3(v), EccPerBlock3(v), RawTable(v))
  {
    hide NumBlocks3, EccPerBlock3, RawTable, LayoutOk;
    if v <= 10 { Tables3x0(v); } else if v <= 20 { Tables3x1(v); } else if v <= 30 { Tables3x2(v); } else { Tables3x3(v); }
  }

  /** The layout is usable: every block holds data, and the counts are within the documented ranges. */
  predicate LayoutOk(blocks: nat, eccLen: nat, raw: int) {
    0 < blocks && 1 <= eccLen <= 30 && eccLen < raw / blocks && 26 <= raw <= 3706 && 9 <= raw - eccLen * blocks <= 2956
  }

  /** For all versions and levels the layout is valid, and its data length is getNumDataCodewords. */
  lemma LayoutValid(v: nat, e: nat)
    requires e < 4 && VersionOk(v)
    ensures 0 <= RawCodewords(v) && LayoutOk(NumBlocks(e, v), EccPerBlock(e, v), RawCodewords(v))
    ensures var l := Layout(NumBlocks(e, v), EccPerBlock(e, v), RawCodewords(v));
            Valid(l) && DataLen(l) == NumDataCodewords(v, e)
  {
    hide RawTable, RawCodewords, EccPerBlock0, EccPerBlock1, EccPerBlock2, EccPerBlock3, NumBlocks0, NumBlocks1, NumBlocks2, NumBlocks3;
    RawValues(v);
    if e == 0 { Level0(v); } else if e == 1 { Level1(v); } else if e == 2 { Level2(v); } else { Level3(v); }
  }

  /** The block layout of a version and level. */
  function LayoutOf(v: nat, e: nat): (l: Layout)
    requires e < 4 && VersionOk(v)
    ensures Valid(l) && l.rawCodewords == RawCodewords(v) && DataLen(l) == NumDataCodewords(v, e)
  {
    LayoutValid(v, e);
    Layout(NumBlocks(e, v), EccPerBlock(e, v), RawCodewords(v))
  }

  // ---- Data capacities ----

  /** Number of data codewords by level and version (table 7 of ISO/IEC 18004). */
  function Capacity(e: nat, v: nat): int
    requires e < 4
  {
    match e
    case 0 => Capacity0(v)
    case 1 => Capacity1(v)
    case 2 => Capacity2(v)
    case _ => Capacity3(v)
  }

  function Capacity0(v: nat): int {
    match v
    case 1 => 19 case 2 => 34 case 3 => 55 case 4 => 80 case 5 => 108 case 6 => 136 case 7 => 156 case 8 => 194
    case 9 => 232 case 10 => 274 case 11 => 324 case 12 => 370 case 13 => 428 case 14 => 461 case 15 => 523
    case 16 => 589 case 17 => 647 case 18 => 721 case 19 => 795 case 20 => 861 case 21 => 932 case 22 => 1006
    case 23 => 1094 case 24 => 1174 case 25 => 1276 case 26 => 1370 case 27 => 1468 case 28 => 1531
    case 29 => 1631 case 30 => 1735 case 31 => 1843 case 32 => 1955 case 33 => 2071 case 34 => 2191
    case 35 => 2306 case 36 => 2434 case 37 => 2566 case 38 => 2702 case 39 => 2812 case _ => 2956
  }

  function Capacity1(v: nat): int {
    match v
    case 1 => 16 case 2 => 28 case 3 => 44 case 4 => 64 case 5 => 86 case 6 => 108 case 7 => 124 case 8 => 154
    case 9 => 182 case 10 => 216 case 11 => 254 case 12 => 290 case 13 => 334 case 14 => 365 case 15 => 415
    case 16 => 453 case 17 => 507 case 18 => 563 case 19 => 627 case 20 => 669 case 21 => 714 case 22 => 782
    case 23 => 860 case 24 => 914 case 25 => 1000 case 26 => 1062 case 27 => 1128 case 28 => 1193
    case 29 => 1267 case 30 => 1373 case 31 => 1455 case 32 => 1541 case 33 => 1631 case 34 => 1725
    case 35 => 1812 case 36 => 1914 case 37 => 1992 case 38 => 2102 case 39 => 2216 case _ => 2334
  }

  function Capacity2(v: nat): int {
    match v
    case 1 => 13 case 2 => 22 case 3 => 34 case 4 => 48 case 5 => 62 case 6 => 76 case 7 => 88 case 8 => 110
    case 9 => 132 case 10 => 154 case 11 => 180 case 12 => 206 case 13 => 244 case 14 => 261 case 15 => 295
    case 16 => 325 case 17 => 367 case 18 => 397 case 19 => 445 case 20 => 485 case 21 => 512 case 22 => 568
    case 23 => 614 case 24 => 664 case 25 => 718 case 26 => 754 case 27 => 808 case 28 => 871 case 29 => 911
    case 30 => 985 case 31 => 1033 case 32 => 1115 case 33 => 1171 case 34 => 1231 case 35 => 1286
    case 36 => 1354 case 37 => 1426 case 38 => 1502 case 39 => 1582 case _ => 1666
  }

  function Capacity3(v: nat): int {
    match v
    case 1 => 9 case 2 => 16 case 3 => 26 case 4 => 36 case 5 => 46 case 6 => 60 case 7 => 66 case 8 => 86
    case 9 => 100 case 10 => 122 case 11 => 140 case 12 => 158 case 13 => 180 case 14 => 197 case 15 => 223
    case 16 => 253 case 17 => 283 case 18 => 313 case 19 => 341 case 20 => 385 case 21 => 406 case 22 => 442
    case 23 => 464 case 24 => 514 case 25 => 538 case 26 => 596 case 27 => 628 case 28 => 661 case 29 => 701
    case 30 => 745 case 31 => 793 case 32 => 845 case 33 => 901 case 34 => 961 case 35 => 986 case 36 => 1054
    case 37 => 1096 case 38 => 1142 case 39 => 1222 case _ => 1276
  }

  lemma Capacities0x0(v: nat)
    requires 1 <= v <= 20
    ensures RawTable(v) - EccPerBlock0(v) * NumBlocks0(v) == Capacity0(v)
  {
    match v
    case 1 => case 2 => case 3 => case 4 => case 5 => case 6 => case 7 => case 8 => case 9 => case 10 =>
    case 11 => case 12 => case 13 => case 14 => case 15 => case 16 => case 17 => case 18 => case 19 => case _ =>
  }

  lemma Capacities0x1(v: nat)
    requires 21 <= v <= 40
    ensures RawTable(v) - EccPerBlock0(v) * NumBlocks0(v) == Capacity0(v)
  {
    match v
    case 21 => case 22 => case 23 => case 24 => case 25 => case 26 => case 27 => case 28 => case 29 =>
    case 30 => case 31 => case 32 => case 33 => case 34 => case 35 => case 36 => case 37 => case 38 =>
    case 39 => case _ =>
  }

  lemma Capacities1x0(v: nat)
    requires 1 <= v <= 20
    ensures RawTable(v) - EccPerBlock1(v) * NumBlocks1(v) == Capacity1(v)
  {
    match v
    case 1 => case 2 => case 3 => case 4 => case 5 => case 6 => case 7 => case 8 => case 9 => case 10 =>
    case 11 => case 12 => case 13 => case 14 => case 15 => case 16 => case 17 => case 18 => case 19 => case _ =>
  }

  lemma Capacities1x1(v: nat)
    requires 21 <= v <= 40
    ensures RawTable(v) - EccPerBlock1(v) * NumBlocks1(v) == Capacity1(v)
  {
    match v
    case 21 => case 22 => case 23 => case 24 => case 25 => case 26 => case 27 => case 28 => case 29 =>
    case 30 => case 31 => case 32 => case 33 => case 34 => case 35 => case 36 => case 37 => case 38 =>
    case 39 => case _ =>
  }

  lemma Capacities2x0(v: nat)
    requires 1 <= v <= 20
    ensures RawTable(v) - EccPerBlock2(v) * NumBlocks2(v) == Capacity2(v)
  {
    match v
    case 1 => case 2 => case 3 => case 4 => case 5 => case 6 => case 7 => case 8 => case 9 => case 10 =>
    case 11 => case 12 => case 13 => case 14 => case 15 => case 16 => case 17 => case 18 => case 19 => case _ =>
  }

  lemma Capacities2x1(v: nat)
    requires 21 <= v <= 40
    ensures RawTable(v) - EccPerBlock2(v) * NumBlocks2(v) == Capacity2(v)
  {
    match v
    case 21 => case 22 => case 23 => case 24 => case 25 => case 26 => case 27 => case 28 => case 29 =>
    case 30 => case 31 => case 32 => case 33 => case 34 => case 35 => case 36 => case 37 => case 38 =>
    case 39 => case _ =>
  }

  lemma Capacities3x0(v: nat)
    requires 1 <= v <= 20
    ensures RawTable(v) - EccPerBlock3(v) * NumBlocks3(v) == Capacity3(v)
  {
    match v
    case 1 => case 2 => case 3 => case 4 => case 5 => case 6 => case 7 => case 8 => case 9 => case 10 =>
    case 11 => case 12 => case 13 => case 14 => case 15 => case 16 => case 17 => case 18 => case 19 => case _ =>
  }

  lemma Capacities3x1(v: nat)
    requires 21 <= v <= 40
    ensures RawTable(v) - EccPerBlock3(v) * NumBlocks3(v) == Capacity3(v)
  {
    match v
    case 21 => case 22 => case 23 => case 24 => case 25 => case 26 => case 27 => case 28 => case 29 =>
    case 30 => case 31 => case 32 => case 33 => case 34 => case 35 => case 36 => case 37 => case 38 =>
    case 39 => case _ =>
  }

  /** For all versions and levels the block tables leave the capacity of the standard. */
  lemma CapacityIs(e: nat, v: nat)
    requires e < 4 && VersionOk(v)
    ensures NumDataCodewords(v, e) == Capacity(e, v)
  {
    RawValues(v);
    hide RawCodewords, RawTable, EccPerBlock0, EccPerBlock1, EccPerBlock2, EccPerBlock3, NumBlocks0, NumBlocks1, NumBlocks2, NumBlocks3,
         Capacity0, Capacity1, Capacity2, Capacity3;
    match e
    case 0 => if v <= 20 { Capacities0x0(v); } else { Capacities0x1(v); }
    case 1 => if v <= 20 { Capacities1x0(v); } else { Capacities1x1(v); }
    case 2 => if v <= 20 { Capacities2x0(v); } else { Capacities2x1(v); }
    case _ => if v <= 20 { Capacities3x0(v); } else { Capacities3x1(v); }
  }
}
