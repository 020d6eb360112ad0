/** The in-place inverse transform of ntt.c, which also multiplies by the Montgomery factor 2^16. */
module InvNtt {
  import opened Words
  import opened ModQ
  import opened Reduce
  import opened Zetas
  import opened Transform
  import opened Ntt

  // ---- One layer ----

  ghost function Sums(x: seq<int16>, y: seq<int16>): (r: seq<int16>)
    requires |x| == |y|
    ensures |r| == |x|
  {
    seq(|x|, j requires 0 <= j < |x| => BarrettReduce(ToInt16(x[j] as int + y[j])))
  }

  ghost function Differences(x: seq<int16>, y: seq<int16>, zeta: Twiddle): (r: seq<int16>)
    requires |x| == |y|
    ensures |r| == |x|
  {
    seq(|x|, j requires 0 <= j < |x| => FqmulTwiddle(zeta, ToInt16(y[j] as int - x[j])))
  }

  ghost function Merged(x: seq<int16>, y: seq<int16>, zeta: Twiddle): (r: seq<int16>)
    requires |x| == |y|
    ensures |r| == 2 * |x|
  {
    Sums(x, y) + Differences(x, y, zeta)
  }

  /** The array segment of node k after the inverse transform has reached its layer. */
  ghost function InvNode(g: seq<int16>, k: nat): (r: seq<int16>)
    requires |g| == 256 && 1 <= k < 256
    ensures |r| == NodeLen(k)
    decreases 256 - k, |g|
  {
    if k >= 128 then g[2 * (k - 128)..2 * (k - 128) + 2]
    else
      NodeChildren(k);
      Merged(InvNode(g, 2 * k), InvNode(g, 2 * k + 1), Zeta(Mirror(k)))
  }

  ghost function InvNodes(g: seq<int16>, a: nat, b: nat): seq<int16>
    requires |g| == 256 && 1 <= a <= b <= 256
    decreases b - a
  {
    if a == b then [] else InvNode(g, a) + InvNodes(g, a + 1, b)
  }

  const INV_SCALE: Twiddle := 1441

  ghost function Rescaled(s: seq<int16>): (r: seq<int16>)
    ensures |r| == |s|
  {
    seq(|s|, j requires 0 <= j < |s| => FqmulTwiddle(INV_SCALE, s[j]))
  }

  /** What `invntt` makes of the array. */
  ghost function InvNttSpec(g: seq<int16>): (r: seq<int16>)
    requires |g| == 256
  {
    Rescaled(InvNode(g, 1))
  }

  lemma {:induction false} InvNodesSnoc(g: seq<int16>, a: nat, b: nat)
    requires |g| == 256 && 1 <= a <= b < 256
    ensures InvNodes(g, a, b + 1) == InvNodes(g, a, b) + InvNode(g, b)
    decreases b - a
  {
    hide InvNode;
    if a < b {
      InvNodesSnoc(g, a + 1, b);
    }
  }

  lemma InvNodesHead(g: seq<int16>, a: nat, b: nat)
    requires |g| == 256 && 1 <= a <= b <= 256
    ensures a == b ==> InvNodes(g, a, b) == []
    ensures a < b ==> InvNodes(g, a, b) == InvNode(g, a) + InvNodes(g, a + 1, b) && InvNode(g, a) != []
  {
    hide InvNode;
  }

  lemma InvChildren(g: seq<int16>, k: nat)
    requires |g| == 256 && 1 <= k < 128
    ensures |InvNode(g, 2 * k)| == |InvNode(g, 2 * k + 1)|
    ensures InvNode(g, k) == Merged(InvNode(g, 2 * k), InvNode(g, 2 * k + 1), Zeta(Mirror(k)))
  {
    hide Merged, Zeta, Mirror, NodeLen, LayerStart;
    NodeChildren(k);
  }

  /** The 128 leaves are the array itself. */
  lemma {:induction false} InvNodesLeaves(g: seq<int16>, a: nat)
    requires |g| == 256 && 128 <= a <= 256
    ensures InvNodes(g, a, 256) == g[2 * (a - 128)..]
    decreases 256 - a
  {
    InvNodesHead(g, a, 256);
    if a < 256 {
      InvNodesLeaves(g, a + 1);
      hide InvNodes;
    }
  }

  ghost function InvButterflyAt(was: seq<int16>, i: nat, start: nat, len: nat, zeta: Twiddle, done: nat): int16
    requires start + 2 * len <= |was| && done <= len && i < |was|
  {
    if start <= i < start + done then BarrettReduce(ToInt16(was[i] as int + was[i + len]))
    else if start + len <= i < start + len + done then FqmulTwiddle(zeta, ToInt16(was[i] as int - was[i - len]))
    else was[i]
  }

  lemma JoinedAround(a: seq<int16>, b: seq<int16>, c: seq<int16>, d: seq<int16>)
    ensures a + b + c + d == a + (b + c) + d
  {
  }

  lemma SumsDone(was: seq<int16>, now: seq<int16>, start: nat, len: nat, zeta: Twiddle)
    requires start + 2 * len <= |was| == |now|
    requires forall i :: start <= i < start + len ==> now[i] == InvButterflyAt(was, i, start, len, zeta, len)
    ensures now[start..start + len] == Sums(was[start..start + len], was[start + len..start + 2 * len])
  {
    hide FqmulTwiddle, ToInt16, BarrettReduce;
    var x, y := was[start..start + len], was[start + len..start + 2 * len];
    forall j | 0 <= j < len ensures now[start..start + len][j] == Sums(x, y)[j] {
      assert now[start + j] == InvButterflyAt(was, start + j, start, len, zeta, len);
      assert x[j] == was[start + j] && y[j] == was[start + len + j];
    }
  }

  lemma DifferencesDone(was: seq<int16>, now: seq<int16>, start: nat, len: nat, zeta: Twiddle)
    requires start + 2 * len <= |was| == |now|
    requires forall i :: start + len <= i < start + 2 * len ==> now[i] == InvButterflyAt(was, i, start, len, zeta, len)
    ensures now[start + len..start + 2 * len] == Differences(was[start..start + len], was[start + len..start + 2 * len], zeta)
  {
    hide FqmulTwiddle, ToInt16, BarrettReduce;
    var x, y := was[start..start + len], was[start + len..start + 2 * len];
    forall j | 0 <= j < len ensures now[start + len..start + 2 * len][j] == Differences(x, y, zeta)[j] {
      assert now[start + len + j] == InvButterflyAt(was, start + len + j, start, len, zeta, len);
      assert x[j] == was[start + j] && y[j] == was[start + len + j];
    }
  }

  lemma InvRestSame(was: seq<int16>, now: seq<int16>, start: nat, len: nat, zeta: Twiddle)
    requires start + 2 * len <= |was| == |now|
    requires forall i :: 0 <= i < |was| ==> now[i] == InvButterflyAt(was, i, start, len, zeta, len)
    ensures now[..start] == was[..start] && now[start + 2 * len..] == was[start + 2 * len..]
  {
    hide FqmulTwiddle, ToInt16, BarrettReduce;
  }

  lemma InvBlockDone(was: seq<int16>, now: seq<int16>, start: nat, len: nat, zeta: Twiddle)
    requires start + 2 * len <= |was| == |now|
    requires forall i :: 0 <= i < |was| ==> now[i] == InvButterflyAt(was, i, start, len, zeta, len)
    ensures now == was[..start] + Merged(was[start..start + len], was[start + len..start + 2 * len], zeta) + was[start + 2 * len..]
  {
    SumsDone(was, now, start, len, zeta);
    DifferencesDone(was, now, start, len, zeta);
    InvRestSame(was, now, start, len, zeta);
    hide Sums, Differences, InvButterflyAt;
    var x, y := was[start..start + len], was[start + len..start + 2 * len];
    FourParts(now, start, start + len, start + 2 * len, was[..start], Sums(x, y), Differences(x, y, zeta), was[start + 2 * len..]);
    JoinedAround(was[..start], Sums(x, y), Differences(x, y, zeta), was[start + 2 * len..]);
  }

  /** The innermost loop of `invntt`. */
  method InvButterflies(r: array<int16>, start: nat, len: nat, zeta: Twiddle)
    requires start + 2 * len <= r.Length
    modifies r
    ensures forall i :: 0 <= i < r.Length ==> r[i] == InvButterflyAt(old(r[..]), i, start, len, zeta, len)
  {
    hide FqmulTwiddle, ToInt16, BarrettReduce;
    ghost var was := r[..];
    var j := start;
    while j < start + len
      invariant start <= j <= start + len
      invariant forall i :: 0 <= i < r.Length ==> r[i] == InvButterflyAt(was, i, start, len, zeta, j - start)
    {
      var t: int := r[j];
      r[j] := BarrettReduce(ToInt16(t + r[j + len]));
      r[j + len] := ToInt16(r[j + len] - t);
      r[j + len] := FqmulTwiddle(zeta, r[j + len]);
      j := j + 1;
    }
  }

  /** The same loop on a block made of the halves x and y. */
  method InvBlock(r: array<int16>, start: nat, len: nat, zeta: Twiddle,
                  ghost done: seq<int16>, ghost x: seq<int16>, ghost y: seq<int16>, ghost rest: seq<int16>)
    requires r[..] == done + x + y + rest && |done| == start && |x| == |y| == len
    modifies r
    ensures r[..] == done + Merged(x, y, zeta) + rest
  {
    hide Merged, InvButterflyAt;
    ghost var was := r[..];
    Segments(was, done, x, y, rest);
    InvButterflies(r, start, len, zeta);
    InvBlockDone(was, r[..], start, len, zeta);
  }

  // ---- The whole transform ----

  lemma InvLayer(len: nat, top: nat, n: nat)
    requires IsLayer(len, top) && len <= 64
    ensures IsLayer(2 * len, top / 2) && 2 <= top == 2 * (top / 2) <= 128
    ensures top / 2 <= n < top ==> NodeLen(2 * n) == NodeLen(2 * n + 1) == 2 * len && Mirror(n) == 3 * (top / 2) - 1 - n
  {
  }

  lemma InvLayerEnds(len: nat)
    ensures IsLayer(1, 128)
    ensures forall top: nat :: len > 64 && IsLayer(len, top) ==> top == 1
  {
  }

  /** The pending part of a layer begins with the two children of the next node. */
  lemma InvNodesFront(g: seq<int16>, first: nat, n: nat, top: nat)
    returns (done: seq<int16>, x: seq<int16>, y: seq<int16>, rest: seq<int16>)
    requires |g| == 256 && 1 <= first <= n < top <= 128
    ensures done == InvNodes(g, first, n) && x == InvNode(g, 2 * n) && y == InvNode(g, 2 * n + 1)
    ensures rest == InvNodes(g, 2 * (n + 1), 2 * top)
    ensures done + InvNodes(g, 2 * n, 2 * top) == done + x + y + rest
  {
    hide *;
    done, x, y := InvNodes(g, first, n), InvNode(g, 2 * n), InvNode(g, 2 * n + 1);
    rest := InvNodes(g, 2 * (n + 1), 2 * top);
    InvNodesHead(g, 2 * n, 2 * top);
    InvNodesHead(g, 2 * n + 1, 2 * top);
  }

  /** The middle loop of `invntt`: one layer, its twiddle factors taken from the table backwards. */
  method InvLayerPass(r: array<int16>, len: nat, k0: nat, ghost g: seq<int16>, ghost top: nat) returns (k: int)
    requires r.Length == 256 && |g| == 256
    requires len == 2 * (len / 2) <= 128 && top <= 128 && IsLayer(len / 2, top) && k0 == top - 1
    requires r[..] == InvNodes(g, top, 2 * top)
    modifies r
    ensures top == 2 * (top / 2) && IsLayer(len, top / 2) && k == top / 2 - 1
    ensures r[..] == InvNodes(g, top / 2, top)
  {
    hide *;
    ghost var first := top / 2;
    ghost var n := first;
    InvLayer(len / 2, top, first);
    InvNodesHead(g, first, first);
    k := k0;
    var start := 0;
    while start < 256
      invariant first <= n <= top && start <= 256 && k == 3 * first - 1 - n
      invariant |InvNodes(g, first, n)| == start
      invariant r[..] == InvNodes(g, first, n) + InvNodes(g, 2 * n, 2 * top)
    {
      InvNodesHead(g, 2 * n, 2 * top);
      ghost var done, x, y, rest := InvNodesFront(g, first, n, top);
      InvLayer(len / 2, top, n);
      InvBlock(r, start, len, Zeta(k), done, x, y, rest);
      InvChildren(g, n);
      InvNodesSnoc(g, first, n);
      k := k - 1;
      n := n + 1;
      start := start + 2 * len;
    }
    InvNodesHead(g, 2 * n, 2 * top);
  }

  method InvNtt(r: array<int16>)
    requires r.Length == 256
    modifies r
    ensures r[..] == InvNttSpec(old(r[..]))
  {
    hide InvNode, NodeLen, InvNodes, IsLayer, Rescaled;
    ghost var g := r[..];
    var k := 127;
    var len := 2;
    ghost var top := 128;
    InvNodesLeaves(g, 128);
    InvLayerEnds(1);
    while len <= 128
      invariant 1 <= top <= 128 && len == 2 * (len / 2) && len >= 2 && k == top - 1
      invariant IsLayer(len / 2, top)
      invariant r[..] == InvNodes(g, top, 2 * top)
      decreases top
    {
      InvLayer(len / 2, top, 0);
      k := InvLayerPass(r, len, k, g, top);
      top := top / 2;
      len := 2 * len;
    }
    InvLayerEnds(len / 2);
    InvNodesHead(g, 1, 2);
    InvNodesHead(g, 2, 2);
    assert r[..] == InvNode(g, 1);
    RescaleArray(r);
  }

  lemma Segments(s: seq<int16>, a: seq<int16>, b: seq<int16>, c: seq<int16>, d: seq<int16>)
    requires s == a + b + c + d
    ensures s[..|a|] == a && s[|a|..|a| + |b|] == b && s[|a| + |b|..|a| + |b| + |c|] == c && s[|a| + |b| + |c|..] == d
  {
  }

  /** The closing loop of `invntt`: multiply everything by R^2 / 128. */
  method RescaleArray(r: array<int16>)
    modifies r
    ensures r[..] == Rescaled(old(r[..]))
  {
    hide FqmulTwiddle;
    ghost var s := r[..];
    var j := 0;
    while j < r.Length
      invariant 0 <= j <= r.Length
      invariant forall i :: 0 <= i < r.Length ==> r[i] == if i < j then FqmulTwiddle(INV_SCALE, s[i]) else s[i]
    {
      r[j] := FqmulTwiddle(INV_SCALE, r[j]);
      j := j + 1;
    }
  }

  // ---- What the inverse transform computes ----

  lemma SumCorrect(a: int16, b: int16, x: int, y: int)
    requires -0x3FFF <= a <= 0x3FFF && -0x3FFF <= b <= 0x3FFF
    requires Cong(a, x) && Cong(b, y)
    ensures var r := BarrettReduce(ToInt16(a as int + b)); -1664 <= r <= 1664 && Cong(r, x + y)
  {
    hide BarrettReduce, ToInt16, Cong;
    BarrettReduceCorrect(ToInt16(a as int + b));
    CongAdd(a, x, b, y);
    CongTrans(BarrettReduce(ToInt16(a as int + b)), a + b, x + y);
  }

  lemma DifferenceCorrect(a: int16, b: int16, m: nat, x: int, y: int)
    requires -0x3FFF <= a <= 0x3FFF && -0x3FFF <= b <= 0x3FFF && 1 <= m < 128
    requires Cong(a, x) && Cong(b, y)
    ensures var r := FqmulTwiddle(Zeta(m), ToInt16(b as int - a)); -Q < r < Q && Cong(r, ZetaVal(m) * (y - x))
  {
    hide FqmulTwiddle, ToInt16, Cong, Zeta, ZetaVal;
    var d := ToInt16(b as int - a);
    FqmulZeta(m, d);
    CongAdd(b, y, a, x);
    CongScale(ZetaVal(m), d, y - x);
    CongTrans(FqmulTwiddle(Zeta(m), d), ZetaVal(m) * d, ZetaVal(m) * (y - x));
  }

  lemma MergedLow(s: seq<int16>, t: seq<int16>, m: nat, x: seq<int>, y: seq<int>, j: nat)
    requires |s| == |t| == |x| == |y| && 1 <= m < 128 && j < |s|
    requires -0x3FFF <= s[j] <= 0x3FFF && -0x3FFF <= t[j] <= 0x3FFF && Cong(s[j], x[j]) && Cong(t[j], y[j])
    ensures -3328 <= Merged(s, t, Zeta(m))[j] <= 3328
    ensures Cong(Merged(s, t, Zeta(m))[j], Unfold(x, y, ZetaVal(m))[j])
  {
    hide ToInt16, BarrettReduce, FqmulTwiddle, Cong, Zeta, ZetaVal;
    SumCorrect(s[j], t[j], x[j], y[j]);
  }

  lemma MergedHigh(s: seq<int16>, t: seq<int16>, m: nat, x: seq<int>, y: seq<int>, j: nat)
    requires |s| == |t| == |x| == |y| && 1 <= m < 128 && j < |s|
    requires -0x3FFF <= s[j] <= 0x3FFF && -0x3FFF <= t[j] <= 0x3FFF && Cong(s[j], x[j]) && Cong(t[j], y[j])
    ensures -3328 <= Merged(s, t, Zeta(m))[|s| + j] <= 3328
    ensures Cong(Merged(s, t, Zeta(m))[|s| + j], Unfold(x, y, ZetaVal(m))[|s| + j])
  {
    hide ToInt16, BarrettReduce, FqmulTwiddle, Cong, Zeta, ZetaVal;
    DifferenceCorrect(s[j], t[j], m, x[j], y[j]);
  }

  lemma MergedCorrect(s: seq<int16>, t: seq<int16>, m: nat, x: seq<int>, y: seq<int>)
    requires |s| == |t| && Bounded(s, 0x3FFF) && Bounded(t, 0x3FFF) && 1 <= m < 128
    requires CongSeq(s, x) && CongSeq(t, y)
    ensures Bounded(Merged(s, t, Zeta(m)), 3328)
    ensures CongSeq(Merged(s, t, Zeta(m)), Unfold(x, y, ZetaVal(m)))
  {
    hide Merged, Unfold, Cong, Zeta, ZetaVal;
    forall j | 0 <= j < 2 * |s|
      ensures -3328 <= Merged(s, t, Zeta(m))[j] <= 3328
      ensures Cong(Merged(s, t, Zeta(m))[j], Unfold(x, y, ZetaVal(m))[j])
    {
      if j < |s| {
        MergedLow(s, t, m, x, y, j);
      } else {
        MergedHigh(s, t, m, x, y, j - |s|);
      }
    }
  }

  /** Every layer boundary of the inverse stays below q; the leaves may be anything up to 2^14. */
  lemma {:induction false} InvNodeCorrect(g: seq<int16>, k: nat)
    requires |g| == 256 && 1 <= k < 256 && Bounded(g, 0x3FFF)
    ensures Bounded(InvNode(g, k), if k < 128 then 3328 else 0x3FFF)
    ensures CongSeq(InvNode(g, k), Gather(g, k))
    decreases 256 - k
  {
    if k >= 128 {
      InvNodeLeaf(g, k);
    } else {
      hide *;
      InvNodeCorrect(g, 2 * k);
      InvNodeCorrect(g, 2 * k + 1);
      BoundedWeaken(InvNode(g, 2 * k), if 2 * k < 128 then 3328 else 0x3FFF, 0x3FFF);
      BoundedWeaken(InvNode(g, 2 * k + 1), if 2 * k + 1 < 128 then 3328 else 0x3FFF, 0x3FFF);
      InvChildren(g, k);
      GatherStep(g, k);
      MergedCorrect(InvNode(g, 2 * k), InvNode(g, 2 * k + 1), Mirror(k), Gather(g, 2 * k), Gather(g, 2 * k + 1));
    }
  }

  lemma BoundedWeaken(s: seq<int>, a: int, b: int)
    requires Bounded(s, a) && a <= b
    ensures Bounded(s, b)
  {
  }

  lemma InvNodeLeaf(g: seq<int16>, k: nat)
    requires |g| == 256 && 128 <= k < 256 && Bounded(g, 0x3FFF)
    ensures Bounded(InvNode(g, k), 0x3FFF) && CongSeq(InvNode(g, k), Gather(g, k))
  {
    hide Cong, NodeLen;
    assert InvNode(g, k) == Gather(g, k);
    CongSeqRefl(Gather(g, k));
  }

  /** 1441 is R^2 / 128 modulo q, so the closing loop turns the factor 128 of the gathered leaves into R. */
  lemma RescaleCorrect(a: int16, x: int)
    requires Cong(a, x)
    ensures -Q < FqmulTwiddle(INV_SCALE, a) < Q
    ensures Cong(FqmulTwiddle(INV_SCALE, a), MONT_R * (3303 * x))
  {
    FqmulTwiddleIs(INV_SCALE, a);
    MontgomeryReduceCorrect(INV_SCALE * a);
    hide FqmulTwiddle, MontgomeryReduce;
    CongScale(INV_SCALE * MONT_R_INV, a, x);
    RescaleFactor(x);
    hide Cong;
    CongTrans(FqmulTwiddle(INV_SCALE, a), INV_SCALE * MONT_R_INV * a, INV_SCALE * MONT_R_INV * x);
    CongTrans(FqmulTwiddle(INV_SCALE, a), INV_SCALE * MONT_R_INV * x, MONT_R * (3303 * x));
  }

  lemma RescaleFactor(x: int)
    ensures Cong(INV_SCALE * MONT_R_INV * x, MONT_R * (3303 * x))
  {
    CongScale(x, INV_SCALE * MONT_R_INV, MONT_R * 3303);
    hide Cong;
  }

  /** `invntt` computes the inverse transform times R = 2^16, every coefficient below q in absolute value. */
  lemma InvNttCorrect(g: seq<int16>)
    requires |g| == 256 && Bounded(g, 0x3FFF)
    ensures |InvNttSpec(g)| == 256 && Bounded(InvNttSpec(g), 3328)
    ensures CongSeq(InvNttSpec(g), Scale(MONT_R, InvNttOf(g)))
  {
    hide FqmulTwiddle, Cong, InvNode, Gather, NodeLen;
    InvNodeCorrect(g, 1);
    RootNode();
    var s, x := InvNode(g, 1), Gather(g, 1);
    forall j | 0 <= j < 256
      ensures -3328 <= InvNttSpec(g)[j] <= 3328
      ensures Cong(InvNttSpec(g)[j], Scale(MONT_R, InvNttOf(g))[j])
    {
      RescaleCorrect(s[j], x[j]);
    }
  }
}
