/** The format and version words as codewords of binary cyclic codes (annexes C and D of ISO/IEC 18004). */
module FormatWords {
  import opened Arithmetic
  import opened GF256
  import opened FunctionModules
  import opened LightModules
  import opened MaskChoice

  // ---- Polynomials over GF(2) ----

  /** The product of polynomials over GF(2), coefficients in the bits of g and q. */
  function Times(g: bv32, q: bv8): bv32
    decreases q
  {
    if q == 0 then 0 else AddTimes(Times(g, Half(q)), g, Odd(q))
  }

  /** x p + g, or x p. */
  function AddTimes(p: bv32, g: bv32, odd: bool): bv32 {
    (p << 1) ^ (if odd then g else 0)
  }

  lemma TimesAppend(g: bv32, t: bv8, b: bool)
    requires t < 0x80
    ensures Times(g, Append(t, b)) == AddTimes(Times(g, t), g, b)
  {
    AppendParts(t, b);
    NothingTimes(g);
    hide Append, Half, Odd, AddTimes;
  }

  lemma NothingTimes(g: bv32)
    ensures AddTimes(0, g, false) == 0
  {
  }

  // ---- The format word ----

  /** The quotient so far has as many bits as steps were made with the leading bit in reach. */
  predicate Below(q: bv8, i: nat) {
    if i <= 5 then q == 0 else if i == 6 then q < 2 else if i == 7 then q < 4 else if i == 8 then q < 8 else if i == 9 then q < 16 else q < 32
  }

  lemma BelowNext(q: bv8, i: nat, b: bool)
    requires i < 10 && Below(q, i) && (i < 5 ==> !b)
    ensures q < 0x80 && Below(Append(q, b), i + 1)
  {
  }

  /** Data shifted up, and the remainder below it. */
  function FormatSum(top: bv32, rem: bv16): bv32 {
    top ^ (rem as bv32)
  }

  function Twice(p: bv32): bv32 {
    p << 1
  }

  predicate FormatLead(rem: bv16) {
    rem >> 9 != 0
  }

  lemma FormatStepIs(rem: bv16)
    requires rem < 0x400
    ensures FormatStep(rem) == (rem << 1) ^ (if FormatLead(rem) then 0x537 else 0)
  {
    if rem >> 9 == 0 {} else { assert rem >> 9 == 1; }
  }

  lemma SumWithLead(top: bv32, rem: bv16)
    requires rem < 0x400
    ensures FormatSum(Twice(top), (rem << 1) ^ 0x537) == AddTimes(FormatSum(top, rem), 0x537, true)
  {
  }

  lemma SumWithoutLead(top: bv32, rem: bv16)
    requires rem < 0x400
    ensures FormatSum(Twice(top), (rem << 1) ^ 0) == AddTimes(FormatSum(top, rem), 0x537, false)
  {
  }

  lemma FormatSumStep(top: bv32, rem: bv16)
    requires rem < 0x400
    ensures FormatSum(Twice(top), FormatStep(rem)) == AddTimes(FormatSum(top, rem), 0x537, FormatLead(rem))
  {
    FormatStepIs(rem);
    hide *;
    if FormatLead(rem) { SumWithLead(top, rem); } else { SumWithoutLead(top, rem); }
  }

  /** The remainder before its leading bit can be in reach. */
  predicate Early(rem: bv16, i: nat) {
    rem < (if i == 0 then 0x20 else if i == 1 then 0x40 else if i == 2 then 0x80 else if i == 3 then 0x100 else if i == 4 then 0x200 else 0x400)
  }

  lemma EarlyNext(rem: bv16, i: nat)
    requires Early(rem, i)
    ensures rem < 0x400 && Early(FormatStep(rem), i + 1) && (i < 5 ==> !FormatLead(rem))
  {
    FormatStepIs(rem);
    hide FormatStep;
  }

  function Doubled(p: bv32, i: nat): bv32 {
    if i == 0 then p else Twice(Doubled(p, i - 1))
  }

  lemma {:induction false} FormatQuotient(data: bv16, i: nat) returns (q: bv8)
    requires data < 0x20 && i <= 10
    ensures Below(q, i) && Early(FormatRemainder(data, i), i)
    ensures FormatSum(Doubled(data as bv32, i), FormatRemainder(data, i)) == Times(0x537, q)
  {
    hide Below, Early, Times, AddTimes, FormatStep, Append, FormatSum, Twice, FormatLead;
    if i == 0 {
      q := 0;
      StartQuotient(data);
    } else {
      var t := FormatQuotient(data, i - 1);
      var rem := FormatRemainder(data, i - 1);
      var b := FormatLead(rem);
      EarlyNext(rem, i - 1);
      BelowNext(t, i - 1, b);
      FormatSumStep(Doubled(data as bv32, i - 1), rem);
      TimesAppend(0x537, t, b);
      q := Append(t, b);
    }
  }

  lemma StartQuotient(data: bv16)
    requires data < 0x20
    ensures Below(0, 0) && Early(data, 0) && FormatSum(data as bv32, data) == Times(0x537, 0)
  {
  }

  lemma DoubledTen(data: bv16)
    requires data < 0x20
    ensures Doubled(data as bv32, 10) == (data as bv32) << 10
  {
    var d := data as bv32;
    assert Doubled(d, 1) == d << 1;
    assert Doubled(d, 2) == d << 2;
    assert Doubled(d, 3) == d << 3;
    assert Doubled(d, 4) == d << 4;
    assert Doubled(d, 5) == d << 5;
    assert Doubled(d, 6) == d << 6;
    assert Doubled(d, 7) == d << 7;
    assert Doubled(d, 8) == d << 8;
    assert Doubled(d, 9) == d << 9;
  }

  /** Two bits for the error correction level: L 01, M 00, Q 11, H 10. */
  function LevelIndicator(e: nat): bv32
    requires e < 4
  {
    match e case 0 => 1 case 1 => 0 case 2 => 3 case _ => 2
  }

  /** The format word without its constant mask. */
  function Unmasked(word: bv16): bv32 {
    (word ^ 0x5412) as bv32
  }

  lemma FormatSumIs(level: bv16, mask: bv16, rem: bv16)
    requires level < 4 && mask < 8 && rem < 0x400
    ensures var data := FormatData(level, mask);
            data < 0x20 && FormatSum((data as bv32) << 10, rem) == Unmasked(FormatWord(data, rem))
            && Unmasked(FormatWord(data, rem)) >> 13 == level as bv32 && (Unmasked(FormatWord(data, rem)) >> 10) & 7 == mask as bv32
  {
  }

  lemma LevelIs(e: nat)
    requires e < 4
    ensures LevelBits(e) as bv32 == LevelIndicator(e)
  {
  }

  lemma MaskIs(m: nat)
    requires m < 8
    ensures m as bv16 as bv32 == m as bv32
  {
    match m case 0 => case 1 => case 2 => case 3 => case 4 => case 5 => case 6 => case _ =>
  }

  /**
   The format word without its constant mask is a multiple of x^10 + x^8 + x^5 + x^4 + x^2 + x + 1 over GF(2),
   and begins with the two bits of the level and the three bits of the mask.
   */
  lemma FormatWordMultiple(e: nat, m: nat) returns (q: bv8)
    requires e < 4 && m < 8
    ensures var w := Unmasked(FormatBits(e, m));
            w == Times(0x537, q) && w >> 13 == LevelIndicator(e) && (w >> 10) & 7 == m as bv32
  {
    q := FormatWordOf(LevelBits(e), m as bv16);
    LevelIs(e);
    MaskIs(m);
  }

  lemma FormatWordOf(level: bv16, mask: bv16) returns (q: bv8)
    requires level < 4 && mask < 8
    ensures var data := FormatData(level, mask);
            var w := Unmasked(FormatWord(data, FormatRemainder(data, 10)));
            w == Times(0x537, q) && w >> 13 == level as bv32 && (w >> 10) & 7 == mask as bv32
  {
    var data := FormatData(level, mask);
    FormatDataBelow(level, mask);
    q := FormatQuotient(data, 10);
    FormatRemainderBelow(data, 10);
    DoubledTen(data);
    FormatSumIs(level, mask, FormatRemainder(data, 10));
    hide *;
  }

  // ---- The version word ----

  predicate VersionLead(rem: bv32) {
    rem >> 11 != 0
  }

  function VersionSum(top: bv32, rem: bv32): bv32 {
    top ^ rem
  }

  lemma LeadBit(rem: bv32)
    requires rem < 0x1000
    ensures rem >> 11 == 0 || rem >> 11 == 1
  {
  }

  lemma TimesBit(t: bv32)
    requires t == 0 || t == 1
    ensures t * 0x1F25 == if t != 0 then 0x1F25 else 0
  {
    if t == 0 { assert (0 as bv32) * 0x1F25 == 0; } else { assert (1 as bv32) * 0x1F25 == 0x1F25; }
  }

  lemma VersionStepIs(rem: bv32)
    requires rem < 0x1000
    ensures VersionStep(rem) == (rem << 1) ^ (if VersionLead(rem) then 0x1F25 else 0)
  {
    LeadBit(rem);
    TimesBit(rem >> 11);
  }

  lemma XorTwice(top: bv32, rem: bv32, c: bv32)
    ensures (top << 1) ^ ((rem << 1) ^ c) == ((top ^ rem) << 1) ^ c
  {
  }

  lemma VersionSumStep(top: bv32, rem: bv32)
    requires rem < 0x1000
    ensures VersionSum(Twice(top), VersionStep(rem)) == AddTimes(VersionSum(top, rem), 0x1F25, VersionLead(rem))
  {
    VersionStepIs(rem);
    XorTwice(top, rem, if VersionLead(rem) then 0x1F25 else 0);
    hide VersionStep, VersionLead;
  }

  predicate EarlyVersion(rem: bv32, i: nat) {
    rem < (if i == 0 then 0x40 else if i == 1 then 0x80 else if i == 2 then 0x100 else if i == 3 then 0x200 else if i == 4 then 0x400
           else if i == 5 then 0x800 else 0x1000)
  }

  lemma EarlyVersionNext(rem: bv32, i: nat)
    requires EarlyVersion(rem, i)
    ensures rem < 0x1000 && EarlyVersion(VersionStep(rem), i + 1) && (i < 6 ==> !VersionLead(rem))
  {
    VersionStepIs(rem);
    hide VersionStep;
  }

  predicate BelowVersion(q: bv8, i: nat) {
    if i <= 6 then q == 0 else if i == 7 then q < 2 else if i == 8 then q < 4 else if i == 9 then q < 8 else if i == 10 then q < 16
    else if i == 11 then q < 32 else q < 64
  }

  lemma BelowVersionNext(q: bv8, i: nat, b: bool)
    requires i < 12 && BelowVersion(q, i) && (i < 6 ==> !b)
    ensures q < 0x80 && BelowVersion(Append(q, b), i + 1)
  {
  }

  lemma {:induction false} VersionQuotient(data: bv32, i: nat) returns (q: bv8)
    requires data < 0x40 && i <= 12
    ensures BelowVersion(q, i) && EarlyVersion(VersionRemainder(data, i), i)
    ensures VersionSum(Doubled(data, i), VersionRemainder(data, i)) == Times(0x1F25, q)
  {
    hide BelowVersion, EarlyVersion, Times, AddTimes, VersionStep, Append, VersionSum, Twice, VersionLead;
    if i == 0 {
      q := 0;
      StartVersion(data);
    } else {
      var t := VersionQuotient(data, i - 1);
      var rem := VersionRemainder(data, i - 1);
      var b := VersionLead(rem);
      EarlyVersionNext(rem, i - 1);
      BelowVersionNext(t, i - 1, b);
      VersionSumStep(Doubled(data, i - 1), rem);
      TimesAppend(0x1F25, t, b);
      q := Append(t, b);
    }
  }

  lemma StartVersion(data: bv32)
    requires data < 0x40
    ensures BelowVersion(0, 0) && EarlyVersion(data, 0) && VersionSum(data, data) == Times(0x1F25, 0)
  {
  }

  lemma DoubledTwelve(d: bv32)
    requires d < 0x40
    ensures Doubled(d, 12) == d << 12
  {
    assert Doubled(d, 1) == d << 1;
    assert Doubled(d, 2) == d << 2;
    assert Doubled(d, 3) == d << 3;
    assert Doubled(d, 4) == d << 4;
    assert Doubled(d, 5) == d << 5;
    assert Doubled(d, 6) == d << 6;
    assert Doubled(d, 7) == d << 7;
    assert Doubled(d, 8) == d << 8;
    assert Doubled(d, 9) == d << 9;
    assert Doubled(d, 10) == d << 10;
    assert Doubled(d, 11) == d << 11;
  }

  function Low12(w: bv32): bv32 {
    w & 0xFFF
  }

  lemma VersionFields(d: bv32, rem: bv32)
    requires d < 0x40 && rem < 0x1000
    ensures VersionSum(d << 12, rem) >> 12 == d && Low12(VersionSum(d << 12, rem)) == rem
  {
  }

  /**
   The version word is a multiple of x^12 + x^11 + x^10 + x^9 + x^8 + x^5 + x^2 + 1 over GF(2), and begins with the version:
   both fields of the number drawn are those of the multiple.
   */
  lemma VersionWordMultiple(v: nat) returns (q: bv8)
    requires VersionOk(v)
    ensures Times(0x1F25, q) >> 12 == v as bv32 && VersionBits(v) / 4096 == v
    ensures VersionBits(v) % 4096 == Low12(Times(0x1F25, q)) as nat
  {
    var d := v as bv32;
    SmallVersion(v);
    q := VersionQuotient(d, 12);
    RemainderBelow(d, 12);
    DoubledTwelve(d);
    var rem := VersionRemainder(d, 12);
    VersionFields(d, rem);
    SmallRemainder(rem);
    DivUnique(VersionBits(v), 4096, v, rem as nat);
    hide VersionRemainder, VersionSum, Doubled, Times, Low12;
  }

  lemma SmallVersion(v: nat)
    requires v < 64
    ensures (v as bv32) < 0x40
  {
  }

  lemma SmallRemainder(rem: bv32)
    requires rem < 0x1000
    ensures rem as nat < 4096
  {
  }
}
