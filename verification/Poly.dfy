/** Coefficientwise operations and transforms of poly.c and polyvec.c, for KYBER_K == 2. */
module Poly {
  import opened Words
  import opened Reduce
  import opened Zetas
  import opened Transform
  import opened Ntt
  import opened InvNtt
  import opened Basemul

  const N: nat := 256

  type Poly = s: seq<int16> | |s| == 256 witness seq(256, _ => 0)

  function ZeroPoly(): Poly {
    seq(256, _ => 0)
  }

  type PolyVec = v: seq<Poly> | |v| == 2 witness [ZeroPoly(), ZeroPoly()]

  function Pair(a: Poly, b: Poly): PolyVec {
    [a, b]
  }

  // ---- The operations as functions of the coefficient sequences ----

  function ReduceSpec(a: Poly): Poly {
    seq(256, i requires 0 <= i < 256 => BarrettReduce(a[i]))
  }

  function AddSpec(a: Poly, b: Poly): Poly {
    seq(256, i requires 0 <= i < 256 => ToInt16(a[i] as int + b[i]))
  }

  function SubSpec(a: Poly, b: Poly): Poly {
    seq(256, i requires 0 <= i < 256 => ToInt16(a[i] as int - b[i]))
  }

  /** 2^32 modulo q. */
  const MONT_R2: Twiddle := 1353

  function TomontSpec(a: Poly): Poly {
    seq(256, i requires 0 <= i < 256 => FqmulTwiddle(MONT_R2, a[i]))
  }

  ghost function PolyNttSpec(a: Poly): Poly {
    NttLength(a);
    ReduceSpec(NttSpec(a))
  }

  lemma NttLength(f: seq<int16>)
    requires |f| == 256
    ensures |NttSpec(f)| == 256
  {
    NttNodesAt(f, 128, 0);
  }

  ghost function PolyInvNttSpec(a: Poly): Poly {
    RootNode();
    InvNttSpec(a)
  }

  ghost predicate Reduced(v: PolyVec) {
    Bounded(v[0], 3328) && Bounded(v[1], 3328)
  }

  /** Scalar product in the transform domain, with a factor R^-1, reduced at the end. */
  ghost function AccSpec(a: PolyVec, b: PolyVec): Poly
    requires Reduced(b)
  {
    ReduceSpec(AddSpec(BasemulSpec(a[0], b[0]), BasemulSpec(a[1], b[1])))
  }

  // ---- The loops of poly.c ----

  method PolyReduce(r: array<int16>)
    requires r.Length == 256
    modifies r
    ensures r[..] == ReduceSpec(old(r[..]))
  {
    hide BarrettReduce;
    ghost var s := r[..];
    for i := 0 to 256
      invariant forall j :: 0 <= j < 256 ==> r[j] == if j < i then BarrettReduce(s[j]) else s[j]
    {
      r[i] := BarrettReduce(r[i]);
    }
  }

  method PolyTomont(r: array<int16>)
    requires r.Length == 256
    modifies r
    ensures r[..] == TomontSpec(old(r[..]))
  {
    hide FqmulTwiddle;
    ghost var s := r[..];
    for i := 0 to 256
      invariant forall j :: 0 <= j < 256 ==> r[j] == if j < i then FqmulTwiddle(MONT_R2, s[j]) else s[j]
    {
      r[i] := FqmulTwiddle(MONT_R2, r[i]);
    }
  }

  /** The output may be one of the inputs. */
  method PolyAdd(r: array<int16>, a: array<int16>, b: array<int16>)
    requires r.Length == a.Length == b.Length == 256
    modifies r
    ensures r[..] == AddSpec(old(a[..]), old(b[..]))
  {
    hide ToInt16;
    ghost var s, t, u := a[..], b[..], r[..];
    for i := 0 to 256
      invariant forall j :: 0 <= j < 256 ==> r[j] == if j < i then ToInt16(s[j] as int + t[j]) else u[j]
      invariant forall j :: i <= j < 256 ==> a[j] == s[j] && b[j] == t[j]
    {
      r[i] := ToInt16(a[i] as int + b[i]);
    }
  }

  method PolySub(r: array<int16>, a: array<int16>, b: array<int16>)
    requires r.Length == a.Length == b.Length == 256
    modifies r
    ensures r[..] == SubSpec(old(a[..]), old(b[..]))
  {
    hide ToInt16;
    ghost var s, t, u := a[..], b[..], r[..];
    for i := 0 to 256
      invariant forall j :: 0 <= j < 256 ==> r[j] == if j < i then ToInt16(s[j] as int - t[j]) else u[j]
      invariant forall j :: i <= j < 256 ==> a[j] == s[j] && b[j] == t[j]
    {
      r[i] := ToInt16(a[i] as int - b[i]);
    }
  }

  method PolyNtt(r: array<int16>)
    requires r.Length == 256
    modifies r
    ensures r[..] == PolyNttSpec(old(r[..]))
  {
    hide NttSpec, ReduceSpec;
    NttLength(r[..]);
    Ntt.Ntt(r);
    PolyReduce(r);
  }

  method PolyInvNtt(r: array<int16>)
    requires r.Length == 256
    modifies r
    ensures r[..] == PolyInvNttSpec(old(r[..]))
  {
    InvNtt.InvNtt(r);
  }

  // ---- Vectors of two polynomials, each in its own array ----

  /** The arrays hold two distinct polynomials. */
  ghost predicate IsVec(v: seq<array<int16>>) {
    |v| == 2 && v[0] != v[1] && v[0].Length == v[1].Length == 256
  }

  /** Two vectors without an array in common. */
  ghost predicate Apart(v: seq<array<int16>>, w: seq<array<int16>>)
    requires IsVec(v) && IsVec(w)
  {
    v[0] != w[0] && v[0] != w[1] && v[1] != w[0] && v[1] != w[1]
  }

  ghost function Vec(v: seq<array<int16>>): PolyVec
    requires IsVec(v)
    reads v[0], v[1]
  {
    Pair(v[0][..], v[1][..])
  }

  method NewPolyVec() returns (v: seq<array<int16>>)
    ensures IsVec(v) && fresh(v[0]) && fresh(v[1])
  {
    var a, b := new int16[256], new int16[256];
    v := [a, b];
  }

  ghost function VecNttSpec(v: PolyVec): PolyVec {
    Pair(PolyNttSpec(v[0]), PolyNttSpec(v[1]))
  }

  ghost function VecInvNttSpec(v: PolyVec): PolyVec {
    Pair(PolyInvNttSpec(v[0]), PolyInvNttSpec(v[1]))
  }

  ghost function VecReduceSpec(v: PolyVec): PolyVec {
    Pair(ReduceSpec(v[0]), ReduceSpec(v[1]))
  }

  ghost function VecAddSpec(a: PolyVec, b: PolyVec): PolyVec {
    Pair(AddSpec(a[0], b[0]), AddSpec(a[1], b[1]))
  }

  method PolyVecNtt(v: seq<array<int16>>)
    requires IsVec(v)
    modifies v[0], v[1]
    ensures Vec(v) == VecNttSpec(old(Vec(v)))
  {
    hide PolyNttSpec;
    PolyNtt(v[0]);
    PolyNtt(v[1]);
  }

  method PolyVecInvNtt(v: seq<array<int16>>)
    requires IsVec(v)
    modifies v[0], v[1]
    ensures Vec(v) == VecInvNttSpec(old(Vec(v)))
  {
    hide PolyInvNttSpec;
    PolyInvNtt(v[0]);
    PolyInvNtt(v[1]);
  }

  method PolyVecReduce(v: seq<array<int16>>)
    requires IsVec(v)
    modifies v[0], v[1]
    ensures Vec(v) == VecReduceSpec(old(Vec(v)))
  {
    hide ReduceSpec;
    PolyReduce(v[0]);
    PolyReduce(v[1]);
  }

  /** `r` may be the vector `a`, as in every call of the source. */
  method PolyVecAdd(r: seq<array<int16>>, b: seq<array<int16>>)
    requires IsVec(r) && IsVec(b) && Apart(r, b)
    modifies r[0], r[1]
    ensures Vec(r) == VecAddSpec(old(Vec(r)), old(Vec(b)))
  {
    hide AddSpec;
    PolyAdd(r[0], r[0], b[0]);
    PolyAdd(r[1], r[1], b[1]);
  }

  /** polyvec_basemul_acc_montgomery. */
  method PolyVecBasemulAcc(r: array<int16>, a: seq<array<int16>>, b: seq<array<int16>>)
    requires IsVec(a) && IsVec(b) && r.Length == 256 && r != a[0] && r != a[1] && r != b[0] && r != b[1]
    requires Reduced(Vec(b))
    modifies r
    ensures r[..] == AccSpec(Vec(a), Vec(b))
  {
    hide AddSpec, ReduceSpec, BasemulSpec, Bounded;
    PolyBasemul(r, a[0], b[0]);
    var t := new int16[256];
    PolyBasemul(t, a[1], b[1]);
    PolyAdd(r, r, t);
    PolyReduce(r);
  }
}
