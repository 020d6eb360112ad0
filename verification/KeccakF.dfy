/** The Keccak-f[1600] permutation of fips202.c: two rounds unrolled over renamed lanes. */
module KeccakF {

  /** A 64-bit word. */
  datatype Lane = Lane(bits: bv64)

  /** The 25 lanes; lane (x, y) is at index x + 5 * y. */
  type State = s: seq<Lane> | |s| == 25 witness seq(25, _ => Lane(0))

  function Xor(a: Lane, b: Lane): Lane {
    Lane(a.bits ^ b.bits)
  }

  /** The ROL macro, extended to offset zero. */
  function Rol(a: Lane, offset: nat): Lane
    requires offset < 64
  {
    if offset == 0 then a else Lane((a.bits << offset) ^ (a.bits >> (64 - offset)))
  }

  function ChiLane(a: Lane, b: Lane, c: Lane): Lane {
    Lane(a.bits ^ (!b.bits & c.bits))
  }

  const ROUND_CONSTANTS: seq<bv64> := [
    0x0000000000000001, 0x0000000000008082, 0x800000000000808a, 0x8000000080008000,
    0x000000000000808b, 0x0000000080000001, 0x8000000080008081, 0x8000000000008009,
    0x000000000000008a, 0x0000000000000088, 0x0000000080008009, 0x000000008000000a,
    0x000000008000808b, 0x800000000000008b, 0x8000000000008089, 0x8000000000008003,
    0x8000000000008002, 0x8000000000000080, 0x000000000000800a, 0x800000008000000a,
    0x8000000080008081, 0x8000000000008080, 0x0000000080000001, 0x8000000080008008]

  function RoundConstant(round: nat): Lane
    requires round < 24
  {
    Lane(ROUND_CONSTANTS[round])
  }

  // ---- The step mappings: sections 3.2.1 to 3.2.5 of FIPS 202 ----

  /** Parity of column x. */
  function Column(s: State, x: nat): Lane
    requires x < 5
  {
    Xor(Xor(Xor(Xor(s[x], s[x + 5]), s[x + 10]), s[x + 15]), s[x + 20])
  }

  function ThetaEffect(s: State, x: nat): Lane
    requires x < 5
  {
    Xor(Column(s, (x + 4) % 5), Rol(Column(s, (x + 1) % 5), 1))
  }

  function Theta(s: State): State {
    seq(25, i requires 0 <= i < 25 => Xor(s[i], ThetaEffect(s, i % 5)))
  }

  function RhoOffset(i: nat): (n: nat)
    requires i < 25
    ensures n < 64
  {
    match i
    case 0 => 0 case 1 => 1 case 2 => 62 case 3 => 28 case 4 => 27
    case 5 => 36 case 6 => 44 case 7 => 6 case 8 => 55 case 9 => 20
    case 10 => 3 case 11 => 10 case 12 => 43 case 13 => 25 case 14 => 39
    case 15 => 41 case 16 => 45 case 17 => 15 case 18 => 21 case 19 => 8
    case 20 => 18 case 21 => 2 case 22 => 61 case 23 => 56 case _ => 14
  }

  function Rho(s: State): State {
    seq(25, i requires 0 <= i < 25 => Rol(s[i], RhoOffset(i)))
  }

  /** Lane (x, y) moves in from lane (x + 3 y, x). */
  function PiSource(i: nat): (j: nat)
    requires i < 25
    ensures j < 25
  {
    (i % 5 + 3 * (i / 5)) % 5 + 5 * (i % 5)
  }

  function Pi(s: State): State {
    seq(25, i requires 0 <= i < 25 => s[PiSource(i)])
  }

  /** The lane k places along the row of lane i. */
  function Beside(i: nat, k: nat): (j: nat)
    requires i < 25
    ensures j < 25
  {
    5 * (i / 5) + (i % 5 + k) % 5
  }

  function Chi(s: State): State {
    seq(25, i requires 0 <= i < 25 => ChiLane(s[i], s[Beside(i, 1)], s[Beside(i, 2)]))
  }

  function Iota(s: State, round: nat): State
    requires round < 24
  {
    seq(25, i requires 0 <= i < 25 => if i == 0 then Xor(s[i], RoundConstant(round)) else s[i])
  }

  function Round(s: State, round: nat): State
    requires round < 24
  {
    Iota(Chi(Pi(Rho(Theta(s)))), round)
  }

  /** The first n rounds. */
  function Rounds(s: State, n: nat): State
    requires n <= 24
    decreases n, |s|
  {
    if n == 0 then s else Round(Rounds(s, n - 1), n - 1)
  }

  /** Keccak-f[1600]. */
  function Permute(s: State): State {
    Rounds(s, 24)
  }

  // ---- A round lane by lane ----

  lemma ThetaAt(s: State, i: nat)
    requires i < 25
    ensures Theta(s)[i] == Xor(s[i], ThetaEffect(s, i % 5))
  {
    hide Xor, ThetaEffect;
  }

  lemma RhoAt(s: State, i: nat)
    requires i < 25
    ensures Rho(s)[i] == Rol(s[i], RhoOffset(i))
  {
    hide Rol, RhoOffset;
  }

  lemma PiAt(s: State, i: nat)
    requires i < 25
    ensures Pi(s)[i] == s[PiSource(i)]
  {
    hide PiSource;
  }

  lemma ChiAt(s: State, i: nat)
    requires i < 25
    ensures Chi(s)[i] == ChiLane(s[i], s[Beside(i, 1)], s[Beside(i, 2)])
  {
    hide ChiLane, Beside;
  }

  lemma BesideIs(x: nat, y: nat, k: nat)
    requires x < 5 && y < 5
    ensures Beside(5 * y + x, k) == 5 * y + (x + k) % 5
  {
    assert (5 * y + x) % 5 == x && (5 * y + x) / 5 == y;
  }

  lemma IotaAt(s: State, round: nat, i: nat)
    requires round < 24 && i < 25
    ensures Iota(s, round)[i] == if i == 0 then Xor(s[0], RoundConstant(round)) else s[i]
  {
    hide Xor, RoundConstant;
  }

  /** The lane that chi reads at index i. */
  ghost function Moved(s: State, i: nat): Lane
    requires i < 25
  {
    Pi(Rho(Theta(s)))[i]
  }

  lemma MovedLane(s: State, i: nat, j: nat, x: nat, o: nat)
    requires i < 25 && j == PiSource(i) && x == j % 5 && o == RhoOffset(j)
    ensures Moved(s, i) == Rol(Xor(s[j], ThetaEffect(s, x)), o)
  {
    hide Theta, Rho, Pi, PiSource, RhoOffset, Rol, Xor, ThetaEffect;
    PiAt(Rho(Theta(s)), i);
    RhoAt(Theta(s), j);
    ThetaAt(s, j);
  }

  lemma Sources0()
    ensures PiSource(0) == 0 && RhoOffset(0) == 0
    ensures PiSource(1) == 6 && RhoOffset(6) == 44
    ensures PiSource(2) == 12 && RhoOffset(12) == 43
    ensures PiSource(3) == 18 && RhoOffset(18) == 21
    ensures PiSource(4) == 24 && RhoOffset(24) == 14
  {
  }

  lemma Sources1()
    ensures PiSource(5) == 3 && RhoOffset(3) == 28
    ensures PiSource(6) == 9 && RhoOffset(9) == 20
    ensures PiSource(7) == 10 && RhoOffset(10) == 3
    ensures PiSource(8) == 16 && RhoOffset(16) == 45
    ensures PiSource(9) == 22 && RhoOffset(22) == 61
  {
  }

  lemma Sources2()
    ensures PiSource(10) == 1 && RhoOffset(1) == 1
    ensures PiSource(11) == 7 && RhoOffset(7) == 6
    ensures PiSource(12) == 13 && RhoOffset(13) == 25
    ensures PiSource(13) == 19 && RhoOffset(19) == 8
    ensures PiSource(14) == 20 && RhoOffset(20) == 18
  {
  }

  lemma Sources3()
    ensures PiSource(15) == 4 && RhoOffset(4) == 27
    ensures PiSource(16) == 5 && RhoOffset(5) == 36
    ensures PiSource(17) == 11 && RhoOffset(11) == 10
    ensures PiSource(18) == 17 && RhoOffset(17) == 15
    ensures PiSource(19) == 23 && RhoOffset(23) == 56
  {
  }

  lemma Sources4()
    ensures PiSource(20) == 2 && RhoOffset(2) == 62
    ensures PiSource(21) == 8 && RhoOffset(8) == 55
    ensures PiSource(22) == 14 && RhoOffset(14) == 39
    ensures PiSource(23) == 15 && RhoOffset(15) == 41
    ensures PiSource(24) == 21 && RhoOffset(21) == 2
  {
  }

  lemma RolZero(a: Lane)
    ensures Rol(a, 0) == a
  {
  }

  lemma MovedPlane0(s: State)
    ensures Moved(s, 0) == Xor(s[0], ThetaEffect(s, 0))
    ensures Moved(s, 1) == Rol(Xor(s[6], ThetaEffect(s, 1)), 44)
    ensures Moved(s, 2) == Rol(Xor(s[12], ThetaEffect(s, 2)), 43)
    ensures Moved(s, 3) == Rol(Xor(s[18], ThetaEffect(s, 3)), 21)
    ensures Moved(s, 4) == Rol(Xor(s[24], ThetaEffect(s, 4)), 14)
  {
    hide *;
    Sources0();
    MovedLane(s, 0, 0, 0, 0);
    MovedLane(s, 1, 6, 1, 44);
    MovedLane(s, 2, 12, 2, 43);
    MovedLane(s, 3, 18, 3, 21);
    MovedLane(s, 4, 24, 4, 14);
    RolZero(Xor(s[0], ThetaEffect(s, 0)));
  }

  lemma MovedPlane1(s: State)
    ensures Moved(s, 5) == Rol(Xor(s[3], ThetaEffect(s, 3)), 28)
    ensures Moved(s, 6) == Rol(Xor(s[9], ThetaEffect(s, 4)), 20)
    ensures Moved(s, 7) == Rol(Xor(s[10], ThetaEffect(s, 0)), 3)
    ensures Moved(s, 8) == Rol(Xor(s[16], ThetaEffect(s, 1)), 45)
    ensures Moved(s, 9) == Rol(Xor(s[22], ThetaEffect(s, 2)), 61)
  {
    hide *;
    Sources1();
    MovedLane(s, 5, 3, 3, 28);
    MovedLane(s, 6, 9, 4, 20);
    MovedLane(s, 7, 10, 0, 3);
    MovedLane(s, 8, 16, 1, 45);
    MovedLane(s, 9, 22, 2, 61);
  }

  lemma MovedPlane2(s: State)
    ensures Moved(s, 10) == Rol(Xor(s[1], ThetaEffect(s, 1)), 1)
    ensures Moved(s, 11) == Rol(Xor(s[7], ThetaEffect(s, 2)), 6)
    ensures Moved(s, 12) == Rol(Xor(s[13], ThetaEffect(s, 3)), 25)
    ensures Moved(s, 13) == Rol(Xor(s[19], ThetaEffect(s, 4)), 8)
    ensures Moved(s, 14) == Rol(Xor(s[20], ThetaEffect(s, 0)), 18)
  {
    hide *;
    Sources2();
    MovedLane(s, 10, 1, 1, 1);
    MovedLane(s, 11, 7, 2, 6);
    MovedLane(s, 12, 13, 3, 25);
    MovedLane(s, 13, 19, 4, 8);
    MovedLane(s, 14, 20, 0, 18);
  }

  lemma MovedPlane3(s: State)
    ensures Moved(s, 15) == Rol(Xor(s[4], ThetaEffect(s, 4)), 27)
    ensures Moved(s, 16) == Rol(Xor(s[5], ThetaEffect(s, 0)), 36)
    ensures Moved(s, 17) == Rol(Xor(s[11], ThetaEffect(s, 1)), 10)
    ensures Moved(s, 18) == Rol(Xor(s[17], ThetaEffect(s, 2)), 15)
    ensures Moved(s, 19) == Rol(Xor(s[23], ThetaEffect(s, 3)), 56)
  {
    hide *;
    Sources3();
    MovedLane(s, 15, 4, 4, 27);
    MovedLane(s, 16, 5, 0, 36);
    MovedLane(s, 17, 11, 1, 10);
    MovedLane(s, 18, 17, 2, 15);
    MovedLane(s, 19, 23, 3, 56);
  }

  lemma MovedPlane4(s: State)
    ensures Moved(s, 20) == Rol(Xor(s[2], ThetaEffect(s, 2)), 62)
    ensures Moved(s, 21) == Rol(Xor(s[8], ThetaEffect(s, 3)), 55)
    ensures Moved(s, 22) == Rol(Xor(s[14], ThetaEffect(s, 4)), 39)
    ensures Moved(s, 23) == Rol(Xor(s[15], ThetaEffect(s, 0)), 41)
    ensures Moved(s, 24) == Rol(Xor(s[21], ThetaEffect(s, 1)), 2)
  {
    hide *;
    Sources4();
    MovedLane(s, 20, 2, 2, 62);
    MovedLane(s, 21, 8, 3, 55);
    MovedLane(s, 22, 14, 4, 39);
    MovedLane(s, 23, 15, 0, 41);
    MovedLane(s, 24, 21, 1, 2);
  }

  lemma RoundLane(s: State, round: nat, i: nat, j: nat, k: nat, c: Lane)
    requires round < 24 && i < 25 && j == Beside(i, 1) && k == Beside(i, 2)
    requires c == ChiLane(Moved(s, i), Moved(s, j), Moved(s, k))
    ensures Round(s, round)[i] == if i == 0 then Xor(c, RoundConstant(round)) else c
  {
    hide Theta, Rho, Pi, Chi, Iota, ChiLane, Xor, RoundConstant, Beside;
    ChiAt(Pi(Rho(Theta(s))), i);
    IotaAt(Chi(Pi(Rho(Theta(s)))), round, i);
  }

  /** Column parities and the theta effects computed from them. */
  lemma ThetaEffects(s: State, a: Lane, e: Lane, i: Lane, o: Lane, u: Lane)
    requires a == Column(s, 0) && e == Column(s, 1) && i == Column(s, 2) && o == Column(s, 3) && u == Column(s, 4)
    ensures ThetaEffect(s, 0) == Xor(u, Rol(e, 1))
    ensures ThetaEffect(s, 1) == Xor(a, Rol(i, 1))
    ensures ThetaEffect(s, 2) == Xor(e, Rol(o, 1))
    ensures ThetaEffect(s, 3) == Xor(i, Rol(u, 1))
    ensures ThetaEffect(s, 4) == Xor(o, Rol(a, 1))
  {
    hide Column, Xor, Rol;
  }

  lemma ColumnIs(s: State, x: nat, a: Lane, b: Lane, c: Lane, d: Lane, e: Lane)
    requires x < 5 && a == s[x] && b == s[x + 5] && c == s[x + 10] && d == s[x + 15] && e == s[x + 20]
    ensures Column(s, x) == Xor(Xor(Xor(Xor(a, b), c), d), e)
  {
    hide Xor;
  }

  /** One plane of the next state from the five moved lanes. */
  lemma PlaneIs(s: State, round: nat, y: nat, a: Lane, e: Lane, i: Lane, o: Lane, u: Lane)
    requires round < 24 && y < 5
    requires a == Moved(s, 5 * y) && e == Moved(s, 5 * y + 1) && i == Moved(s, 5 * y + 2)
    requires o == Moved(s, 5 * y + 3) && u == Moved(s, 5 * y + 4)
    ensures Round(s, round)[5 * y] == if y == 0 then Xor(ChiLane(a, e, i), RoundConstant(round)) else ChiLane(a, e, i)
    ensures Round(s, round)[5 * y + 1] == ChiLane(e, i, o)
    ensures Round(s, round)[5 * y + 2] == ChiLane(i, o, u)
    ensures Round(s, round)[5 * y + 3] == ChiLane(o, u, a)
    ensures Round(s, round)[5 * y + 4] == ChiLane(u, a, e)
  {
    hide Moved, Round, ChiLane, Xor, RoundConstant, Beside;
    BesideIs(0, y, 1);
    BesideIs(0, y, 2);
    BesideIs(1, y, 1);
    BesideIs(1, y, 2);
    BesideIs(2, y, 1);
    BesideIs(2, y, 2);
    BesideIs(3, y, 1);
    BesideIs(3, y, 2);
    BesideIs(4, y, 1);
    BesideIs(4, y, 2);
    RoundLane(s, round, 5 * y, 5 * y + 1, 5 * y + 2, ChiLane(a, e, i));
    RoundLane(s, round, 5 * y + 1, 5 * y + 2, 5 * y + 3, ChiLane(e, i, o));
    RoundLane(s, round, 5 * y + 2, 5 * y + 3, 5 * y + 4, ChiLane(i, o, u));
    RoundLane(s, round, 5 * y + 3, 5 * y + 4, 5 * y, ChiLane(o, u, a));
    RoundLane(s, round, 5 * y + 4, 5 * y, 5 * y + 1, ChiLane(u, a, e));
  }

  lemma RoundsNext(s: State, n: nat)
    requires n + 2 <= 24
    ensures Rounds(s, n + 2) == Round(Round(Rounds(s, n), n), n + 1)
  {
    hide Round;
  }

  lemma RoundsDone(s: State)
    ensures Rounds(s, 0) == s && Rounds(s, 24) == Permute(s)
  {
    hide Round;
  }

  /** The first half of the loop body: from the lanes A to the lanes E. */
  method EvenRound(ghost s: State, round: nat,
            aBa0: Lane, aBe0: Lane, aBi0: Lane, aBo0: Lane, aBu0: Lane,
            aGa0: Lane, aGe0: Lane, aGi0: Lane, aGo0: Lane, aGu0: Lane,
            aKa0: Lane, aKe0: Lane, aKi0: Lane, aKo0: Lane, aKu0: Lane,
            aMa0: Lane, aMe0: Lane, aMi0: Lane, aMo0: Lane, aMu0: Lane,
            aSa0: Lane, aSe0: Lane, aSi0: Lane, aSo0: Lane, aSu0: Lane)
    returns (eBa: Lane, eBe: Lane, eBi: Lane, eBo: Lane, eBu: Lane,
            eGa: Lane, eGe: Lane, eGi: Lane, eGo: Lane, eGu: Lane,
            eKa: Lane, eKe: Lane, eKi: Lane, eKo: Lane, eKu: Lane,
            eMa: Lane, eMe: Lane, eMi: Lane, eMo: Lane, eMu: Lane,
            eSa: Lane, eSe: Lane, eSi: Lane, eSo: Lane, eSu: Lane)
    requires round < 24
    requires s[0] == aBa0 && s[1] == aBe0 && s[2] == aBi0 && s[3] == aBo0 && s[4] == aBu0
    requires s[5] == aGa0 && s[6] == aGe0 && s[7] == aGi0 && s[8] == aGo0 && s[9] == aGu0
    requires s[10] == aKa0 && s[11] == aKe0 && s[12] == aKi0 && s[13] == aKo0 && s[14] == aKu0
    requires s[15] == aMa0 && s[16] == aMe0 && s[17] == aMi0 && s[18] == aMo0 && s[19] == aMu0
    requires s[20] == aSa0 && s[21] == aSe0 && s[22] == aSi0 && s[23] == aSo0 && s[24] == aSu0
    ensures var r := Round(s, round); r[0] == eBa && r[1] == eBe && r[2] == eBi && r[3] == eBo && r[4] == eBu
    ensures var r := Round(s, round); r[5] == eGa && r[6] == eGe && r[7] == eGi && r[8] == eGo && r[9] == eGu
    ensures var r := Round(s, round); r[10] == eKa && r[11] == eKe && r[12] == eKi && r[13] == eKo && r[14] == eKu
    ensures var r := Round(s, round); r[15] == eMa && r[16] == eMe && r[17] == eMi && r[18] == eMo && r[19] == eMu
    ensures var r := Round(s, round); r[20] == eSa && r[21] == eSe && r[22] == eSi && r[23] == eSo && r[24] == eSu
  {
    hide *;
    var aBa, aBe, aBi, aBo, aBu := aBa0, aBe0, aBi0, aBo0, aBu0;
    var aGa, aGe, aGi, aGo, aGu := aGa0, aGe0, aGi0, aGo0, aGu0;
    var aKa, aKe, aKi, aKo, aKu := aKa0, aKe0, aKi0, aKo0, aKu0;
    var aMa, aMe, aMi, aMo, aMu := aMa0, aMe0, aMi0, aMo0, aMu0;
    var aSa, aSe, aSi, aSo, aSu := aSa0, aSe0, aSi0, aSo0, aSu0;
    var bcA: Lane, bcE: Lane, bcI: Lane, bcO: Lane, bcU: Lane;
    var dA: Lane, dE: Lane, dI: Lane, dO: Lane, dU: Lane;
    bcA := Xor(Xor(Xor(Xor(aBa, aGa), aKa), aMa), aSa);
    bcE := Xor(Xor(Xor(Xor(aBe, aGe), aKe), aMe), aSe);
    bcI := Xor(Xor(Xor(Xor(aBi, aGi), aKi), aMi), aSi);
    bcO := Xor(Xor(Xor(Xor(aBo, aGo), aKo), aMo), aSo);
    bcU := Xor(Xor(Xor(Xor(aBu, aGu), aKu), aMu), aSu);
    ColumnIs(s, 0, aBa, aGa, aKa, aMa, aSa);
    ColumnIs(s, 1, aBe, aGe, aKe, aMe, aSe);
    ColumnIs(s, 2, aBi, aGi, aKi, aMi, aSi);
    ColumnIs(s, 3, aBo, aGo, aKo, aMo, aSo);
    ColumnIs(s, 4, aBu, aGu, aKu, aMu, aSu);
    ThetaEffects(s, bcA, bcE, bcI, bcO, bcU);

    dA := Xor(bcU, Rol(bcE, 1));
    dE := Xor(bcA, Rol(bcI, 1));
    dI := Xor(bcE, Rol(bcO, 1));
    dO := Xor(bcI, Rol(bcU, 1));
    dU := Xor(bcO, Rol(bcA, 1));

    aBa := Xor(aBa, dA);
    bcA := aBa;
    aGe := Xor(aGe, dE);
    bcE := Rol(aGe, 44);
    aKi := Xor(aKi, dI);
    bcI := Rol(aKi, 43);
    aMo := Xor(aMo, dO);
    bcO := Rol(aMo, 21);
    aSu := Xor(aSu, dU);
    bcU := Rol(aSu, 14);
    MovedPlane0(s);
    PlaneIs(s, round, 0, bcA, bcE, bcI, bcO, bcU);
    eBa := ChiLane(bcA, bcE, bcI);
    eBa := Xor(eBa, RoundConstant(round));
    eBe := ChiLane(bcE, bcI, bcO);
    eBi := ChiLane(bcI, bcO, bcU);
    eBo := ChiLane(bcO, bcU, bcA);
    eBu := ChiLane(bcU, bcA, bcE);

    aBo := Xor(aBo, dO);
    bcA := Rol(aBo, 28);
    aGu := Xor(aGu, dU);
    bcE := Rol(aGu, 20);
    aKa := Xor(aKa, dA);
    bcI := Rol(aKa, 3);
    aMe := Xor(aMe, dE);
    bcO := Rol(aMe, 45);
    aSi := Xor(aSi, dI);
    bcU := Rol(aSi, 61);
    MovedPlane1(s);
    PlaneIs(s, round, 1, bcA, bcE, bcI, bcO, bcU);
    eGa := ChiLane(bcA, bcE, bcI);
    eGe := ChiLane(bcE, bcI, bcO);
    eGi := ChiLane(bcI, bcO, bcU);
    eGo := ChiLane(bcO, bcU, bcA);
    eGu := ChiLane(bcU, bcA, bcE);

    aBe := Xor(aBe, dE);
    bcA := Rol(aBe, 1);
    aGi := Xor(aGi, dI);
    bcE := Rol(aGi, 6);
    aKo := Xor(aKo, dO);
    bcI := Rol(aKo, 25);
    aMu := Xor(aMu, dU);
    bcO := Rol(aMu, 8);
    aSa := Xor(aSa, dA);
    bcU := Rol(aSa, 18);
    MovedPlane2(s);
    PlaneIs(s, round, 2, bcA, bcE, bcI, bcO, bcU);
    eKa := ChiLane(bcA, bcE, bcI);
    eKe := ChiLane(bcE, bcI, bcO);
    eKi := ChiLane(bcI, bcO, bcU);
    eKo := ChiLane(bcO, bcU, bcA);
    eKu := ChiLane(bcU, bcA, bcE);

    aBu := Xor(aBu, dU);
    bcA := Rol(aBu, 27);
    aGa := Xor(aGa, dA);
    bcE := Rol(aGa, 36);
    aKe := Xor(aKe, dE);
    bcI := Rol(aKe, 10);
    aMi := Xor(aMi, dI);
    bcO := Rol(aMi, 15);
    aSo := Xor(aSo, dO);
    bcU := Rol(aSo, 56);
    MovedPlane3(s);
    PlaneIs(s, round, 3, bcA, bcE, bcI, bcO, bcU);
    eMa := ChiLane(bcA, bcE, bcI);
    eMe := ChiLane(bcE, bcI, bcO);
    eMi := ChiLane(bcI, bcO, bcU);
    eMo := ChiLane(bcO, bcU, bcA);
    eMu := ChiLane(bcU, bcA, bcE);

    aBi := Xor(aBi, dI);
    bcA := Rol(aBi, 62);
    aGo := Xor(aGo, dO);
    bcE := Rol(aGo, 55);
    aKu := Xor(aKu, dU);
    bcI := Rol(aKu, 39);
    aMa := Xor(aMa, dA);
    bcO := Rol(aMa, 41);
    aSe := Xor(aSe, dE);
    bcU := Rol(aSe, 2);
    MovedPlane4(s);
    PlaneIs(s, round, 4, bcA, bcE, bcI, bcO, bcU);
    eSa := ChiLane(bcA, bcE, bcI);
    eSe := ChiLane(bcE, bcI, bcO);
    eSi := ChiLane(bcI, bcO, bcU);
    eSo := ChiLane(bcO, bcU, bcA);
    eSu := ChiLane(bcU, bcA, bcE);
  }

  /** The second half: from the lanes E back to the lanes A. */
  method OddRound(ghost s: State, round: nat,
            eBa0: Lane, eBe0: Lane, eBi0: Lane, eBo0: Lane, eBu0: Lane,
            eGa0: Lane, eGe0: Lane, eGi0: Lane, eGo0: Lane, eGu0: Lane,
            eKa0: Lane, eKe0: Lane, eKi0: Lane, eKo0: Lane, eKu0: Lane,
            eMa0: Lane, eMe0: Lane, eMi0: Lane, eMo0: Lane, eMu0: Lane,
            eSa0: Lane, eSe0: Lane, eSi0: Lane, eSo0: Lane, eSu0: Lane)
    returns (aBa: Lane, aBe: Lane, aBi: Lane, aBo: Lane, aBu: Lane,
            aGa: Lane, aGe: Lane, aGi: Lane, aGo: Lane, aGu: Lane,
            aKa: Lane, aKe: Lane, aKi: Lane, aKo: Lane, aKu: Lane,
            aMa: Lane, aMe: Lane, aMi: Lane, aMo: Lane, aMu: Lane,
            aSa: Lane, aSe: Lane, aSi: Lane, aSo: Lane, aSu: Lane)
    requires round < 24
    requires s[0] == eBa0 && s[1] == eBe0 && s[2] == eBi0 && s[3] == eBo0 && s[4] == eBu0
    requires s[5] == eGa0 && s[6] == eGe0 && s[7] == eGi0 && s[8] == eGo0 && s[9] == eGu0
    requires s[10] == eKa0 && s[11] == eKe0 && s[12] == eKi0 && s[13] == eKo0 && s[14] == eKu0
    requires s[15] == eMa0 && s[16] == eMe0 && s[17] == eMi0 && s[18] == eMo0 && s[19] == eMu0
    requires s[20] == eSa0 && s[21] == eSe0 && s[22] == eSi0 && s[23] == eSo0 && s[24] == eSu0
    ensures var r := Round(s, round); r[0] == aBa && r[1] == aBe && r[2] == aBi && r[3] == aBo && r[4] == aBu
    ensures var r := Round(s, round); r[5] == aGa && r[6] == aGe && r[7] == aGi && r[8] == aGo && r[9] == aGu
    ensures var r := Round(s, round); r[10] == aKa && r[11] == aKe && r[12] == aKi && r[13] == aKo && r[14] == aKu
    ensures var r := Round(s, round); r[15] == aMa && r[16] == aMe && r[17] == aMi && r[18] == aMo && r[19] == aMu
    ensures var r := Round(s, round); r[20] == aSa && r[21] == aSe && r[22] == aSi && r[23] == aSo && r[24] == aSu
  {
    hide *;
    var eBa, eBe, eBi, eBo, eBu := eBa0, eBe0, eBi0, eBo0, eBu0;
    var eGa, eGe, eGi, eGo, eGu := eGa0, eGe0, eGi0, eGo0, eGu0;
    var eKa, eKe, eKi, eKo, eKu := eKa0, eKe0, eKi0, eKo0, eKu0;
    var eMa, eMe, eMi, eMo, eMu := eMa0, eMe0, eMi0, eMo0, eMu0;
    var eSa, eSe, eSi, eSo, eSu := eSa0, eSe0, eSi0, eSo0, eSu0;
    var bcA: Lane, bcE: Lane, bcI: Lane, bcO: Lane, bcU: Lane;
    var dA: Lane, dE: Lane, dI: Lane, dO: Lane, dU: Lane;
    bcA := Xor(Xor(Xor(Xor(eBa, eGa), eKa), eMa), eSa);
    bcE := Xor(Xor(Xor(Xor(eBe, eGe), eKe), eMe), eSe);
    bcI := Xor(Xor(Xor(Xor(eBi, eGi), eKi), eMi), eSi);
    bcO := Xor(Xor(Xor(Xor(eBo, eGo), eKo), eMo), eSo);
    bcU := Xor(Xor(Xor(Xor(eBu, eGu), eKu), eMu), eSu);
    ColumnIs(s, 0, eBa, eGa, eKa, eMa, eSa);
    ColumnIs(s, 1, eBe, eGe, eKe, eMe, eSe);
    ColumnIs(s, 2, eBi, eGi, eKi, eMi, eSi);
    ColumnIs(s, 3, eBo, eGo, eKo, eMo, eSo);
    ColumnIs(s, 4, eBu, eGu, eKu, eMu, eSu);
    ThetaEffects(s, bcA, bcE, bcI, bcO, bcU);

    dA := Xor(bcU, Rol(bcE, 1));
    dE := Xor(bcA, Rol(bcI, 1));
    dI := Xor(bcE, Rol(bcO, 1));
    dO := Xor(bcI, Rol(bcU, 1));
    dU := Xor(bcO, Rol(bcA, 1));

    eBa := Xor(eBa, dA);
    bcA := eBa;
    eGe := Xor(eGe, dE);
    bcE := Rol(eGe, 44);
    eKi := Xor(eKi, dI);
    bcI := Rol(eKi, 43);
    eMo := Xor(eMo, dO);
    bcO := Rol(eMo, 21);
    eSu := Xor(eSu, dU);
    bcU := Rol(eSu, 14);
    MovedPlane0(s);
    PlaneIs(s, round, 0, bcA, bcE, bcI, bcO, bcU);
    aBa := ChiLane(bcA, bcE, bcI);
    aBa := Xor(aBa, RoundConstant(round));
    aBe := ChiLane(bcE, bcI, bcO);
    aBi := ChiLane(bcI, bcO, bcU);
    aBo := ChiLane(bcO, bcU, bcA);
    aBu := ChiLane(bcU, bcA, bcE);

    eBo := Xor(eBo, dO);
    bcA := Rol(eBo, 28);
    eGu := Xor(eGu, dU);
    bcE := Rol(eGu, 20);
    eKa := Xor(eKa, dA);
    bcI := Rol(eKa, 3);
    eMe := Xor(eMe, dE);
    bcO := Rol(eMe, 45);
    eSi := Xor(eSi, dI);
    bcU := Rol(eSi, 61);
    MovedPlane1(s);
    PlaneIs(s, round, 1, bcA, bcE, bcI, bcO, bcU);
    aGa := ChiLane(bcA, bcE, bcI);
    aGe := ChiLane(bcE, bcI, bcO);
    aGi := ChiLane(bcI, bcO, bcU);
    aGo := ChiLane(bcO, bcU, bcA);
    aGu := ChiLane(bcU, bcA, bcE);

    eBe := Xor(eBe, dE);
    bcA := Rol(eBe, 1);
    eGi := Xor(eGi, dI);
    bcE := Rol(eGi, 6);
    eKo := Xor(eKo, dO);
    bcI := Rol(eKo, 25);
    eMu := Xor(eMu, dU);
    bcO := Rol(eMu, 8);
    eSa := Xor(eSa, dA);
    bcU := Rol(eSa, 18);
    MovedPlane2(s);
    PlaneIs(s, round, 2, bcA, bcE, bcI, bcO, bcU);
    aKa := ChiLane(bcA, bcE, bcI);
    aKe := ChiLane(bcE, bcI, bcO);
    aKi := ChiLane(bcI, bcO, bcU);
    aKo := ChiLane(bcO, bcU, bcA);
    aKu := ChiLane(bcU, bcA, bcE);

    eBu := Xor(eBu, dU);
    bcA := Rol(eBu, 27);
    eGa := Xor(eGa, dA);
    bcE := Rol(eGa, 36);
    eKe := Xor(eKe, dE);
    bcI := Rol(eKe, 10);
    eMi := Xor(eMi, dI);
    bcO := Rol(eMi, 15);
    eSo := Xor(eSo, dO);
    bcU := Rol(eSo, 56);
    MovedPlane3(s);
    PlaneIs(s, round, 3, bcA, bcE, bcI, bcO, bcU);
    aMa := ChiLane(bcA, bcE, bcI);
    aMe := ChiLane(bcE, bcI, bcO);
    aMi := ChiLane(bcI, bcO, bcU);
    aMo := ChiLane(bcO, bcU, bcA);
    aMu := ChiLane(bcU, bcA, bcE);

    eBi := Xor(eBi, dI);
    bcA := Rol(eBi, 62);
    eGo := Xor(eGo, dO);
    bcE := Rol(eGo, 55);
    eKu := Xor(eKu, dU);
    bcI := Rol(eKu, 39);
    eMa := Xor(eMa, dA);
    bcO := Rol(eMa, 41);
    eSe := Xor(eSe, dE);
    bcU := Rol(eSe, 2);
    MovedPlane4(s);
    PlaneIs(s, round, 4, bcA, bcE, bcI, bcO, bcU);
    aSa := ChiLane(bcA, bcE, bcI);
    aSe := ChiLane(bcE, bcI, bcO);
    aSi := ChiLane(bcI, bcO, bcU);
    aSo := ChiLane(bcO, bcU, bcA);
    aSu := ChiLane(bcU, bcA, bcE);
  }

  /** One row of copyToState. */
  method StoreRow(state: array<Lane>, ghost s: State, y: nat, a: Lane, e: Lane, i: Lane, o: Lane, u: Lane)
    requires state.Length == 25 && y < 5 && forall k :: 0 <= k < 5 * y ==> state[k] == s[k]
    requires s[5 * y] == a && s[5 * y + 1] == e && s[5 * y + 2] == i && s[5 * y + 3] == o && s[5 * y + 4] == u
    modifies state
    ensures forall k :: 0 <= k < 5 * y + 5 ==> state[k] == s[k]
  {
    state[5 * y] := a;
    state[5 * y + 1] := e;
    state[5 * y + 2] := i;
    state[5 * y + 3] := o;
    state[5 * y + 4] := u;
  }

  method CopyToState(state: array<Lane>, ghost s: State,
                     aBa: Lane, aBe: Lane, aBi: Lane, aBo: Lane, aBu: Lane,
                     aGa: Lane, aGe: Lane, aGi: Lane, aGo: Lane, aGu: Lane,
                     aKa: Lane, aKe: Lane, aKi: Lane, aKo: Lane, aKu: Lane,
                     aMa: Lane, aMe: Lane, aMi: Lane, aMo: Lane, aMu: Lane,
                     aSa: Lane, aSe: Lane, aSi: Lane, aSo: Lane, aSu: Lane)
    requires state.Length == 25
    requires s[0] == aBa && s[1] == aBe && s[2] == aBi && s[3] == aBo && s[4] == aBu
    requires s[5] == aGa && s[6] == aGe && s[7] == aGi && s[8] == aGo && s[9] == aGu
    requires s[10] == aKa && s[11] == aKe && s[12] == aKi && s[13] == aKo && s[14] == aKu
    requires s[15] == aMa && s[16] == aMe && s[17] == aMi && s[18] == aMo && s[19] == aMu
    requires s[20] == aSa && s[21] == aSe && s[22] == aSi && s[23] == aSo && s[24] == aSu
    modifies state
    ensures state[..] == s
  {
    hide *;
    StoreRow(state, s, 0, aBa, aBe, aBi, aBo, aBu);
    StoreRow(state, s, 1, aGa, aGe, aGi, aGo, aGu);
    StoreRow(state, s, 2, aKa, aKe, aKi, aKo, aKu);
    StoreRow(state, s, 3, aMa, aMe, aMi, aMo, aMu);
    StoreRow(state, s, 4, aSa, aSe, aSi, aSo, aSu);
  }

  /** KeccakF1600_StatePermute. */
  method KeccakF1600StatePermute(state: array<Lane>)
    requires state.Length == 25
    modifies state
    ensures state[..] == Permute(old(state[..]))
  {
    hide *;
    ghost var start := state[..];
    RoundsDone(start);
    var aBa, aBe, aBi, aBo, aBu := state[0], state[1], state[2], state[3], state[4];
    var aGa, aGe, aGi, aGo, aGu := state[5], state[6], state[7], state[8], state[9];
    var aKa, aKe, aKi, aKo, aKu := state[10], state[11], state[12], state[13], state[14];
    var aMa, aMe, aMi, aMo, aMu := state[15], state[16], state[17], state[18], state[19];
    var aSa, aSe, aSi, aSo, aSu := state[20], state[21], state[22], state[23], state[24];
    var round := 0;
    ghost var s: State := start;
    while round < 24
      invariant round % 2 == 0 && round <= 24 && s == Rounds(start, round)
      invariant s[0] == aBa && s[1] == aBe && s[2] == aBi && s[3] == aBo && s[4] == aBu
      invariant s[5] == aGa && s[6] == aGe && s[7] == aGi && s[8] == aGo && s[9] == aGu
      invariant s[10] == aKa && s[11] == aKe && s[12] == aKi && s[13] == aKo && s[14] == aKu
      invariant s[15] == aMa && s[16] == aMe && s[17] == aMi && s[18] == aMo && s[19] == aMu
      invariant s[20] == aSa && s[21] == aSe && s[22] == aSi && s[23] == aSo && s[24] == aSu
    {
      var eBa, eBe, eBi, eBo, eBu,
        eGa, eGe, eGi, eGo, eGu,
        eKa, eKe, eKi, eKo, eKu,
        eMa, eMe, eMi, eMo, eMu,
        eSa, eSe, eSi, eSo, eSu :=
        EvenRound(s, round, aBa, aBe, aBi, aBo, aBu,
        aGa, aGe, aGi, aGo, aGu,
        aKa, aKe, aKi, aKo, aKu,
        aMa, aMe, aMi, aMo, aMu,
        aSa, aSe, aSi, aSo, aSu);
      s := Round(s, round);
      aBa, aBe, aBi, aBo, aBu,
      aGa, aGe, aGi, aGo, aGu,
      aKa, aKe, aKi, aKo, aKu,
      aMa, aMe, aMi, aMo, aMu,
      aSa, aSe, aSi, aSo, aSu :=
        OddRound(s, round + 1, eBa, eBe, eBi, eBo, eBu,
        eGa, eGe, eGi, eGo, eGu,
        eKa, eKe, eKi, eKo, eKu,
        eMa, eMe, eMi, eMo, eMu,
        eSa, eSe, eSi, eSo, eSu);
      RoundsNext(start, round);
      s := Round(s, round + 1);
      round := round + 2;
    }
    CopyToState(state, s, aBa, aBe, aBi, aBo, aBu,
                aGa, aGe, aGi, aGo, aGu,
                aKa, aKe, aKi, aKo, aKu,
                aMa, aMe, aMi, aMo, aMu,
                aSa, aSe, aSi, aSo, aSu);
  }

  // ---- The tables ----

  /** Column and row of lane (x, y) after t steps from (1, 0): (x, y) becomes (y, 2 x + 3 y). */
  function Walk(t: nat): (p: (nat, nat))
    ensures p.0 < 5 && p.1 < 5
  {
    if t == 0 then (1, 0) else (Walk(t - 1).1, (2 * Walk(t - 1).0 + 3 * Walk(t - 1).1) % 5)
  }

  lemma WalkTable()
    ensures Walk(0) == (1, 0)
    ensures Walk(1) == (0, 2)
    ensures Walk(2) == (2, 1)
    ensures Walk(3) == (1, 2)
    ensures Walk(4) == (2, 3)
    ensures Walk(5) == (3, 3)
    ensures Walk(6) == (3, 0)
    ensures Walk(7) == (0, 1)
    ensures Walk(8) == (1, 3)
    ensures Walk(9) == (3, 1)
    ensures Walk(10) == (1, 4)
    ensures Walk(11) == (4, 4)
    ensures Walk(12) == (4, 0)
    ensures Walk(13) == (0, 3)
    ensures Walk(14) == (3, 4)
    ensures Walk(15) == (4, 3)
    ensures Walk(16) == (3, 2)
    ensures Walk(17) == (2, 2)
    ensures Walk(18) == (2, 0)
    ensures Walk(19) == (0, 4)
    ensures Walk(20) == (4, 2)
    ensures Walk(21) == (2, 4)
    ensures Walk(22) == (4, 1)
    ensures Walk(23) == (1, 1)
  {
  }

  /** Algorithm 2 of FIPS 202: the lane reached after t steps is rotated by (t + 1) (t + 2) / 2. */
  lemma RhoOffsets(t: nat)
    requires t < 24
    ensures RhoOffset(Walk(t).0 + 5 * Walk(t).1) == (t + 1) * (t + 2) / 2 % 64
  {
    hide Walk;
    WalkTable();
    match t
    case 0 => case 1 => case 2 => case 3 => case 4 => case 5 => case 6 => case 7 => case 8 => case 9 =>
    case 10 => case 11 => case 12 => case 13 => case 14 => case 15 => case 16 => case 17 => case 18 =>
    case 19 => case 20 => case 21 => case 22 => case _ =>
  }

  /** One step of the shift register of algorithm 5 of FIPS 202; bit i of the register is R[i]. */
  function Shift(r: bv8): bv8 {
    if r & 0x80 == 0 then r << 1 else (r << 1) ^ 0x71
  }

  function Register(t: nat): bv8 {
    if t == 0 then 1 else Shift(Register(t - 1))
  }

  function RegisterBit(r: bv8): bv64 {
    if r & 1 == 1 then 1 else 0
  }

  /** Bits 0, 1, 3, 7, 15, 31 and 63 from seven successive registers. */
  function ConstantFrom(r0: bv8, r1: bv8, r2: bv8, r3: bv8, r4: bv8, r5: bv8, r6: bv8): Lane {
    Lane(RegisterBit(r0) | (RegisterBit(r1) << 1) | (RegisterBit(r2) << 3) | (RegisterBit(r3) << 7)
         | (RegisterBit(r4) << 15) | (RegisterBit(r5) << 31) | (RegisterBit(r6) << 63))
  }

  /** The register at the start of each round. */
  function RoundRegister(round: nat): bv8 {
    match round
    case 0 => 0x01 case 1 => 0x80 case 2 => 0xD8 case 3 => 0x1A case 4 => 0xDF case 5 => 0x09
    case 6 => 0x35 case 7 => 0x4F case 8 => 0xCA case 9 => 0x70 case 10 => 0x41 case 11 => 0xEC
    case 12 => 0xD5 case 13 => 0xCD case 14 => 0x63 case 15 => 0xAB case 16 => 0xAA case 17 => 0x2A
    case 18 => 0xF2 case 19 => 0xE8 case 20 => 0x37 case 21 => 0x3E case 22 => 0x0B case _ => 0x44
  }

  lemma SevenShiftsLow(round: nat)
    requires 0 <= round < 12
    ensures var r := RoundRegister(round);
            var r1 := Shift(r);
            var r2 := Shift(r1);
            var r3 := Shift(r2);
            var r4 := Shift(r3);
            var r5 := Shift(r4);
            var r6 := Shift(r5);
            && RoundConstant(round) == ConstantFrom(r, r1, r2, r3, r4, r5, r6)
            && (round < 23 ==> RoundRegister(round + 1) == Shift(r6))
  {
    match round
    case 0 => case 1 => case 2 => case 3 => case 4 => case 5 => case 6 => case 7 => case 8 => case 9 =>
    case 10 => case _ =>
  }

  lemma SevenShiftsHigh(round: nat)
    requires 12 <= round < 24
    ensures var r := RoundRegister(round);
            var r1 := Shift(r);
            var r2 := Shift(r1);
            var r3 := Shift(r2);
            var r4 := Shift(r3);
            var r5 := Shift(r4);
            var r6 := Shift(r5);
            && RoundConstant(round) == ConstantFrom(r, r1, r2, r3, r4, r5, r6)
            && (round < 23 ==> RoundRegister(round + 1) == Shift(r6))
  {
    match round
    case 12 => case 13 => case 14 => case 15 => case 16 => case 17 => case 18 => case 19 => case 20 =>
    case 21 => case 22 => case _ =>
  }

  lemma SevenShifts(round: nat)
    requires round < 24
    ensures var r := RoundRegister(round);
            var r1 := Shift(r);
            var r2 := Shift(r1);
            var r3 := Shift(r2);
            var r4 := Shift(r3);
            var r5 := Shift(r4);
            var r6 := Shift(r5);
            && RoundConstant(round) == ConstantFrom(r, r1, r2, r3, r4, r5, r6)
            && (round < 23 ==> RoundRegister(round + 1) == Shift(r6))
  {
    hide *;
    if round < 12 { SevenShiftsLow(round); } else { SevenShiftsHigh(round); }
  }

  lemma {:induction false} RegisterAtRound(round: nat)
    requires round < 24
    ensures Register(7 * round) == RoundRegister(round)
  {
    hide *;
    if round == 0 {
      RegisterStart();
    } else {
      RegisterAtRound(round - 1);
      SevenShifts(round - 1);
      RegisterSeven(7 * (round - 1), 7 * round);
    }
  }

  lemma RegisterStart()
    ensures Register(0) == RoundRegister(0)
  {
  }

  lemma RegisterNext(t: nat)
    ensures Register(t + 1) == Shift(Register(t))
  {
    hide Shift;
  }

  lemma RegisterSeven(t: nat, u: nat)
    requires u == t + 7
    ensures Register(u) == Shift(Shift(Shift(Shift(Shift(Shift(Shift(Register(t))))))))
  {
    hide *;
    RegisterNext(t);
    RegisterNext(t + 1);
    RegisterNext(t + 2);
    RegisterNext(t + 3);
    RegisterNext(t + 4);
    RegisterNext(t + 5);
    RegisterNext(t + 6);
  }

  /** The round constants are those of algorithm 5 of FIPS 202. */
  lemma RoundConstants(round: nat)
    requires round < 24
    ensures RoundConstant(round)
         == ConstantFrom(Register(7 * round), Register(7 * round + 1), Register(7 * round + 2), Register(7 * round + 3),
                         Register(7 * round + 4), Register(7 * round + 5), Register(7 * round + 6))
  {
    hide *;
    RegisterAtRound(round);
    SevenShifts(round);
    var t := 7 * round;
    RegisterNext(t);
    RegisterNext(t + 1);
    RegisterNext(t + 2);
    RegisterNext(t + 3);
    RegisterNext(t + 4);
    RegisterNext(t + 5);
  }
}
