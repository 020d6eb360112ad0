/** The in-place transforms of ntt.c on 16-bit arrays, and what they compute. */
module Ntt {
  import opened Arithmetic
  import opened Words
  import opened ModQ
  import opened Reduce
  import opened Ring
  import opened Zetas
  import opened Transform

  // ---- Multiplication ----

  function Fqmul(a: int, b: int): int16
    requires MontgomeryDomain(a * b)
  {
    MontgomeryReduce(a * b)
  }

  lemma ProductBound(a: int, b: int, p: int, q: int)
    requires -p <= a <= p && -q <= b <= q
    ensures -(p * q) <= a * b <= p * q
  {
    MulMonotone(if b >= 0 then b else -b, q, p);
    if b >= 0 {
      MulMonotone(a, p, b);
      MulMonotone(-p, a, b);
    } else {
      MulMonotone(a, p, -b);
      MulMonotone(-p, a, -b);
    }
  }

  /** Multiplying any 16-bit value by a twiddle factor stays inside the documented range of montgomery_reduce. */
  lemma TwiddleDomain(zeta: Twiddle, x: int16)
    ensures MontgomeryDomain(zeta * x)
  {
    ProductBound(zeta, x, 1664, 0x8000);
  }

  function FqmulTwiddle(zeta: Twiddle, x: int16): int16 {
    TwiddleDomain(zeta, x);
    Fqmul(zeta, x)
  }

  /** One multiplication by table entry k, read without Montgomery factors. */
  lemma FqmulZeta(k: nat, x: int16)
    requires 1 <= k < 128
    ensures -Q < FqmulTwiddle(Zeta(k), x) < Q
    ensures Cong(FqmulTwiddle(Zeta(k), x), ZetaVal(k) * x)
  {
    hide *;
    var z := Zeta(k);
    FqmulTwiddleIs(z, x);
    MontgomeryReduceCorrect(z * x);
    ZetaFacts(k);
    CongScale(x, z * MONT_R_INV, ZetaVal(k));
    Associate(z, x, MONT_R_INV);
    Exchange(x, z, MONT_R_INV);
    CongTrans(FqmulTwiddle(z, x), x * (z * MONT_R_INV), x * ZetaVal(k));
  }

  lemma FqmulTwiddleIs(zeta: Twiddle, x: int16)
    ensures MontgomeryDomain(zeta * x) && FqmulTwiddle(zeta, x) == MontgomeryReduce(zeta * x)
  {
    hide MontgomeryReduce;
    TwiddleDomain(zeta, x);
  }

  // ---- Forward transform ----

  /** The lower and upper half that the butterflies of one block leave behind. */
  ghost function Lower(s: seq<int16>, zeta: Twiddle): (r: seq<int16>)
    ensures |r| == |s| / 2
  {
    seq(|s| / 2, j requires 0 <= j < |s| / 2 => ToInt16(s[j] + FqmulTwiddle(zeta, s[j + |s| / 2])))
  }

  ghost function Upper(s: seq<int16>, zeta: Twiddle): (r: seq<int16>)
    ensures |r| == |s| / 2
  {
    seq(|s| / 2, j requires 0 <= j < |s| / 2 => ToInt16(s[j] - FqmulTwiddle(zeta, s[j + |s| / 2])))
  }

  /** The array segment that belongs to node k of the transform tree, once its layer is reached. */
  ghost function NttNode(f: seq<int16>, k: nat): (r: seq<int16>)
    requires |f| == 256 && 1 <= k < 256
    ensures |r| == NodeLen(k)
  {
    if k == 1 then f
    else if k % 2 == 0 then Lower(NttNode(f, k / 2), Zeta(k / 2))
    else Upper(NttNode(f, k / 2), Zeta(k / 2))
  }

  /** The segments of nodes a, ..., b - 1 side by side. */
  ghost function NttNodes(f: seq<int16>, a: nat, b: nat): seq<int16>
    requires |f| == 256 && 1 <= a <= b <= 256
    decreases b - a
  {
    if a == b then [] else NttNode(f, a) + NttNodes(f, a + 1, b)
  }

  /** What `ntt` makes of the array: its 128 leaf pairs in order. */
  ghost function NttSpec(f: seq<int16>): seq<int16>
    requires |f| == 256
  {
    NttNodes(f, 128, 256)
  }

  lemma {:induction false} NttNodesSnoc(f: seq<int16>, a: nat, b: nat)
    requires |f| == 256 && 1 <= a <= b < 256
    ensures NttNodes(f, a, b + 1) == NttNodes(f, a, b) + NttNode(f, b)
    decreases b - a
  {
    hide NttNode;
    if a < b {
      NttNodesSnoc(f, a + 1, b);
    }
  }

  lemma NttNodesHead(f: seq<int16>, a: nat, b: nat)
    requires |f| == 256 && 1 <= a <= b <= 256
    ensures a == b ==> NttNodes(f, a, b) == []
    ensures a < b ==> NttNodes(f, a, b) == NttNode(f, a) + NttNodes(f, a + 1, b) && NttNode(f, a) != []
  {
    hide NttNode;
  }

  lemma NttChildren(f: seq<int16>, k: nat)
    requires |f| == 256 && 1 <= k < 128
    ensures NttNode(f, 2 * k) == Lower(NttNode(f, k), Zeta(k))
    ensures NttNode(f, 2 * k + 1) == Upper(NttNode(f, k), Zeta(k))
  {
    hide Lower, Upper, Zeta;
  }

  /** Both halves of node k are its children, next to each other. */
  lemma NttNodesStep(f: seq<int16>, a: nat, k: nat)
    requires |f| == 256 && 1 <= k < 128 && 1 <= a <= 2 * k
    ensures NttNodes(f, a, 2 * k) + Lower(NttNode(f, k), Zeta(k)) + Upper(NttNode(f, k), Zeta(k))
         == NttNodes(f, a, 2 * (k + 1))
  {
    hide *;
    NttNodesSnoc(f, a, 2 * k);
    NttNodesSnoc(f, a, 2 * k + 1);
    NttChildren(f, k);
  }

  /** Element i after the first `done` butterflies of a block. */
  ghost function ButterflyAt(was: seq<int16>, i: nat, start: nat, len: nat, zeta: Twiddle, done: nat): int16
    requires start + 2 * len <= |was| && done <= len && i < |was|
  {
    if start <= i < start + done then ToInt16(was[i] + FqmulTwiddle(zeta, was[i + len]))
    else if start + len <= i < start + len + done then ToInt16(was[i - len] - FqmulTwiddle(zeta, was[i]))
    else was[i]
  }

  lemma FourParts(s: seq<int16>, a: nat, b: nat, c: nat, t: seq<int16>, u: seq<int16>, v: seq<int16>, w: seq<int16>)
    requires a <= b <= c <= |s| && s[..a] == t && s[a..b] == u && s[b..c] == v && s[c..] == w
    ensures s == t + u + v + w
  {
    assert s == s[..a] + s[a..b] + s[b..c] + s[c..];
  }

  lemma LowerDone(was: seq<int16>, now: seq<int16>, start: nat, len: nat, zeta: Twiddle)
    requires start + 2 * len <= |was| == |now|
    requires forall i :: start <= i < start + len ==> now[i] == ButterflyAt(was, i, start, len, zeta, len)
    ensures now[start..start + len] == Lower(was[start..start + 2 * len], zeta)
  {
    hide FqmulTwiddle, ToInt16;
    var block := was[start..start + 2 * len];
    forall j | 0 <= j < len ensures now[start..start + len][j] == Lower(block, zeta)[j] {
      assert now[start + j] == ButterflyAt(was, start + j, start, len, zeta, len);
      assert block[j] == was[start + j] && block[j + len] == was[start + j + len];
    }
  }

  lemma UpperDone(was: seq<int16>, now: seq<int16>, start: nat, len: nat, zeta: Twiddle)
    requires start + 2 * len <= |was| == |now|
    requires forall i :: start + len <= i < start + 2 * len ==> now[i] == ButterflyAt(was, i, start, len, zeta, len)
    ensures now[start + len..start + 2 * len] == Upper(was[start..start + 2 * len], zeta)
  {
    hide FqmulTwiddle, ToInt16;
    var block := was[start..start + 2 * len];
    forall j | 0 <= j < len ensures now[start + len..start + 2 * len][j] == Upper(block, zeta)[j] {
      assert now[start + len + j] == ButterflyAt(was, start + len + j, start, len, zeta, len);
      assert block[j] == was[start + j] && block[j + len] == was[start + j + len];
    }
  }

  lemma RestSame(was: seq<int16>, now: seq<int16>, start: nat, len: nat, zeta: Twiddle)
    requires start + 2 * len <= |was| == |now|
    requires forall i :: 0 <= i < |was| ==> now[i] == ButterflyAt(was, i, start, len, zeta, len)
    ensures now[..start] == was[..start] && now[start + 2 * len..] == was[start + 2 * len..]
  {
    hide FqmulTwiddle, ToInt16;
  }

  lemma BlockDone(was: seq<int16>, now: seq<int16>, start: nat, len: nat, zeta: Twiddle)
    requires start + 2 * len <= |was| == |now|
    requires forall i :: 0 <= i < |was| ==> now[i] == ButterflyAt(was, i, start, len, zeta, len)
    ensures now == was[..start] + Lower(was[start..start + 2 * len], zeta)
                   + Upper(was[start..start + 2 * len], zeta) + was[start + 2 * len..]
  {
    LowerDone(was, now, start, len, zeta);
    UpperDone(was, now, start, len, zeta);
    RestSame(was, now, start, len, zeta);
    hide *;
    var block := was[start..start + 2 * len];
    FourParts(now, start, start + len, start + 2 * len, was[..start], Lower(block, zeta), Upper(block, zeta), was[start + 2 * len..]);
  }

  /** The innermost loop of `ntt`: the butterflies of one block. */
  method NttBlock(r: array<int16>, start: nat, len: nat, zeta: Twiddle)
    requires start + 2 * len <= r.Length
    modifies r
    ensures r[..] == old(r[..start]) + Lower(old(r[start..start + 2 * len]), zeta)
                     + Upper(old(r[start..start + 2 * len]), zeta) + old(r[start + 2 * len..])
  {
    hide FqmulTwiddle, ToInt16, Lower, Upper;
    ghost var was := r[..];
    var j := start;
    while j < start + len
      invariant start <= j <= start + len
      invariant forall i :: 0 <= i < r.Length ==> r[i] == ButterflyAt(was, i, start, len, zeta, j - start)
    {
      var t: int := FqmulTwiddle(zeta, r[j + len]);
      r[j + len] := ToInt16(r[j] - t);
      r[j] := ToInt16(r[j] + t);
      j := j + 1;
    }
    BlockDone(was, r[..], start, len, zeta);
    assert was[..start] == old(r[..start]) && was[start + 2 * len..] == old(r[start + 2 * len..]);
    assert was[start..start + 2 * len] == old(r[start..start + 2 * len]);
  }

  predicate IsLayer(len: nat, k: nat) {
    || (len == 128 && k == 1) || (len == 64 && k == 2) || (len == 32 && k == 4) || (len == 16 && k == 8)
    || (len == 8 && k == 16) || (len == 4 && k == 32) || (len == 2 && k == 64) || (len == 1 && k == 128)
  }

  lemma LayerNode(first: nat, len: nat, k: nat)
    requires IsLayer(len, first) && len >= 2 && first <= k < 2 * first
    ensures NodeLen(k) == 2 * len && IsLayer(len / 2, 2 * first) && first <= 64
  {
  }

  lemma LayerEnds(len: nat)
    ensures IsLayer(128, 1)
    ensures forall k: nat :: len < 2 && IsLayer(len, k) ==> k == 128
  {
  }

  lemma NttNodesRoot(f: seq<int16>)
    requires |f| == 256
    ensures NttNodes(f, 1, 2) == f
  {
    assert NttNodes(f, 2, 2) == [];
  }

  method Ntt(r: array<int16>)
    requires r.Length == 256
    modifies r
    ensures r[..] == NttSpec(old(r[..]))
  {
    hide NttNode, Lower, Upper, Zeta, NodeLen, NttNodes, IsLayer;
    ghost var f := r[..];
    var k := 1;
    var len := 128;
    NttNodesRoot(f);
    LayerEnds(1);
    while len >= 2
      invariant 1 <= k <= 128 && len >= 0 && IsLayer(len, k)
      invariant r[..] == NttNodes(f, k, 2 * k)
    {
      ghost var first := k;
      var start := 0;
      LayerNode(first, len, first);
      NttNodesHead(f, 2 * first, 2 * first);
      while start < 256
        invariant first <= k <= 2 * first && start <= 256
        invariant |NttNodes(f, 2 * first, 2 * k)| == start
        invariant r[..] == NttNodes(f, 2 * first, 2 * k) + NttNodes(f, k, 2 * first)
      {
        NttNodesHead(f, k, 2 * first);
        ghost var done, node, rest := NttNodes(f, 2 * first, 2 * k), NttNode(f, k), NttNodes(f, k + 1, 2 * first);
        LayerNode(first, len, k);
        assert r[..] == done + node + rest;
        assert r[..start] == done && r[start..start + 2 * len] == node && r[start + 2 * len..] == rest;
        NttBlock(r, start, len, Zeta(k));
        NttNodesStep(f, 2 * first, k);
        k := k + 1;
        start := start + 2 * len;
      }
      NttNodesHead(f, k, 2 * first);
      len := len / 2;
    }
    LayerEnds(len);
  }

  // ---- What the forward transform computes ----

  function Depth(k: nat): nat
    requires 1 <= k < 256
  {
    if k < 2 then 0 else if k < 4 then 1 else if k < 8 then 2 else if k < 16 then 3
    else if k < 32 then 4 else if k < 64 then 5 else if k < 128 then 6 else 7
  }

  /** One butterfly: with room for one more multiple of q nothing wraps, and the result folds the residues. */
  lemma ButterflyCorrect(a: int16, b: int16, k: nat, bound: int, x: int, y: int)
    requires 1 <= k < 128 && -bound <= a <= bound <= 0x7FFF - 3328
    requires Cong(a, x) && Cong(b, y)
    ensures var t := FqmulTwiddle(Zeta(k), b);
            && ToInt16(a + t) == a + t && ToInt16(a - t) == a - t
            && -bound - 3328 <= a + t <= bound + 3328 && -bound - 3328 <= a - t <= bound + 3328
            && Cong(a + t, x + ZetaVal(k) * y) && Cong(a - t, x + (-ZetaVal(k)) * y)
  {
    hide FqmulTwiddle, Zeta, ZetaVal, Cong, ToInt16;
    FqmulZeta(k, b);
    var t, z := FqmulTwiddle(Zeta(k), b), ZetaVal(k);
    CongScale(z, b, y);
    CongTrans(t, z * b, z * y);
    CongAdd(a, x, t, z * y);
    assert (-z) * y == -(z * y);
  }

  lemma HalvesCorrect(s: seq<int16>, k: nat, bound: int, r: seq<int>)
    requires 1 <= k < 128 && Bounded(s, bound) && bound <= 0x7FFF - 3328
    requires CongSeq(s, r)
    ensures Bounded(Lower(s, Zeta(k)), bound + 3328) && CongSeq(Lower(s, Zeta(k)), Fold(r, ZetaVal(k)))
    ensures Bounded(Upper(s, Zeta(k)), bound + 3328) && CongSeq(Upper(s, Zeta(k)), Fold(r, -ZetaVal(k)))
  {
    hide FqmulTwiddle, Zeta, ZetaVal, Cong, ToInt16;
    forall j | 0 <= j < |s| / 2
      ensures -bound - 3328 <= Lower(s, Zeta(k))[j] <= bound + 3328
      ensures -bound - 3328 <= Upper(s, Zeta(k))[j] <= bound + 3328
      ensures Cong(Lower(s, Zeta(k))[j], Fold(r, ZetaVal(k))[j]) && Cong(Upper(s, Zeta(k))[j], Fold(r, -ZetaVal(k))[j])
    {
      ButterflyCorrect(s[j], s[j + |s| / 2], k, bound, r[j], r[j + |s| / 2]);
    }
  }

  /** After l layers every coefficient stays below its input bound plus l * q, and no 16-bit operation has wrapped. */
  lemma {:induction false} NttNodeCorrect(f: seq<int16>, k: nat, bound: int)
    requires |f| == 256 && 1 <= k < 256 && Bounded(f, bound) && bound <= 0x7FFF - 7 * 3328
    ensures Bounded(NttNode(f, k), bound + 3328 * Depth(k))
    ensures CongSeq(NttNode(f, k), Residue(f, k))
  {
    hide Lower, Upper, Bounded, CongSeq, Fold, Zeta, ZetaVal;
    if k == 1 {
      ResidueRoot(f);
      CongSeqRefl(f);
    } else {
      var p := k / 2;
      assert k == 2 * p || k == 2 * p + 1;
      NttNodeCorrect(f, p, bound);
      NttChildren(f, p);
      ResidueStep(f, p);
      DepthStep(p);
      hide NttNode, Residue, Depth;
      HalvesCorrect(NttNode(f, p), p, bound + 3328 * Depth(p), Residue(f, p));
    }
  }

  lemma DepthStep(p: nat)
    requires 1 <= p < 128
    ensures Depth(2 * p) == Depth(2 * p + 1) == Depth(p) + 1 <= 7
  {
  }

  lemma {:induction false} NttNodesAt(f: seq<int16>, a: nat, p: nat)
    requires |f| == 256 && 128 <= a <= 256
    ensures |NttNodes(f, a, 256)| == 2 * (256 - a)
    ensures p < 2 * (256 - a) ==> NttNodes(f, a, 256)[p] == NttNode(f, a + p / 2)[p % 2]
    decreases 256 - a
  {
    hide *;
    NttNodesHead(f, a, 256);
    if a < 256 {
      NodeLeaf(a);
      NttNodesAt(f, a + 1, if p >= 2 then p - 2 else 0);
    }
  }

  lemma NttLeafAt(f: seq<int16>, i: nat, j: nat, bound: int)
    requires |f| == 256 && Bounded(f, bound) && bound <= 0x7FFF - 7 * 3328 && i < 128 && j < 2
    ensures |NttSpec(f)| == 256
    ensures Cong(NttSpec(f)[2 * i + j], Residue(f, 128 + i)[j])
    ensures -bound - 7 * 3328 <= NttSpec(f)[2 * i + j] <= bound + 7 * 3328
  {
    hide NttNode, Residue, Cong, NttNodes, NodeLen;
    var k := 128 + i;
    NttNodesAt(f, 128, 2 * i + j);
    assert (2 * i + j) / 2 == i && (2 * i + j) % 2 == j;
    NttNodeCorrect(f, k, bound);
    NodeLeaf(k);
    assert NttSpec(f)[2 * i + j] == NttNode(f, k)[j];
  }

  /** `ntt` computes the transform: the array ends as the 128 residues in tree order, below the input bound plus 7q. */
  lemma NttCorrect(f: seq<int16>, bound: int)
    requires |f| == 256 && Bounded(f, bound) && bound <= 0x7FFF - 7 * 3328
    ensures |NttSpec(f)| == 256 && Bounded(NttSpec(f), bound + 7 * 3328)
    ensures CongSeq(NttSpec(f), NttOf(f))
  {
    hide NttNode, Residue, Cong, NttNodes, NttOf, NodeLen, Depth;
    NttNodesAt(f, 128, 0);
    forall p | 0 <= p < 256
      ensures -bound - 7 * 3328 <= NttSpec(f)[p] <= bound + 7 * 3328
      ensures Cong(NttSpec(f)[p], NttOf(f)[p])
    {
      var i, j := p / 2, p % 2;
      assert p == 2 * i + j;
      NttLeafAt(f, i, j, bound);
      NttOfAt(f, i);
    }
  }

  /**
   Entries 2i and 2i + 1 of the transformed array are the coefficients of the input polynomial
   modulo X^2 - 17^(2 * BitRev7(i) + 1).
   */
  lemma NttResidues(f: seq<int16>, i: nat, j: nat, bound: int)
    requires |f| == 256 && Bounded(f, bound) && bound <= 0x7FFF - 7 * 3328 && i < 128 && j < 2
    ensures |NttSpec(f)| == 256
    ensures Cong(NttSpec(f)[2 * i + j], Remainder(f, j, 2, Pow17(2 * BitRev7(i) + 1)))
  {
    hide *;
    var k, c := 128 + i, Pow17(2 * BitRev7(i) + 1);
    NttLeafAt(f, i, j, bound);
    NodeLeaf(k);
    ResidueIsRemainder(f, k, j);
    LeafModulus(i);
    RemainderCong(f, j, 2, Modulus(k), c);
    CongTrans(NttSpec(f)[2 * i + j], Residue(f, k)[j], Remainder(f, j, 2, Modulus(k)));
    CongTrans(NttSpec(f)[2 * i + j], Remainder(f, j, 2, Modulus(k)), Remainder(f, j, 2, c));
  }
}
