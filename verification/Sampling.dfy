/** Rejection sampling of the public matrix: rej_uniform and gen_matrix of indcpa.c. */
module Sampling {
  import opened Words
  import opened ModQ
  import opened Poly
  import opened Shake
  import opened KyberSymmetric
  import Packing

  // ---- The definition: section 4.2.2 of FIPS 203, algorithm SampleNTT ----

  /** The candidates below q among the two 12-bit numbers in three bytes. */
  function Accept3(c0: uint8, c1: uint8, c2: uint8): (r: seq<int16>)
    ensures |r| <= 2
  {
    var d1: int16, d2: int16 := c0 as int + 256 * (c1 % 16), c1 / 16 + 16 * c2 as int;
    (if d1 < Q then [d1] else []) + (if d2 < Q then [d2] else [])
  }

  /** All candidates below q in a byte string read in threes. */
  function Accept(b: seq<uint8>): seq<int16> {
    if |b| < 3 then [] else Accept3(b[0], b[1], b[2]) + Accept(b[3..])
  }

  /** The stream holds at least 256 candidates below q. */
  ghost predicate Enough(stream: Stream) {
    exists n: nat :: |Accept(Prefix(stream, n))| >= 256
  }

  /** The first 256 candidates below q of the whole stream. */
  ghost function Sample(stream: Stream): Poly
    requires Enough(stream)
  {
    var n: nat :| |Accept(Prefix(stream, n))| >= 256;
    Accept(Prefix(stream, n))[..256]
  }

  // ---- Splitting at multiples of three changes nothing ----

  lemma {:induction false} AcceptSplit(a: seq<uint8>, b: seq<uint8>)
    requires |a| % 3 == 0
    ensures Accept(a + b) == Accept(a) + Accept(b)
  {
    hide Accept3;
    if a == [] {
      assert a + b == b;
    } else {
      AcceptSplit(a[3..], b);
      assert (a + b)[3..] == a[3..] + b;
    }
  }

  lemma {:induction false} AcceptRange(b: seq<uint8>, i: nat)
    requires i < |Accept(b)|
    ensures 0 <= Accept(b)[i] < Q
  {
    var head := Accept3(b[0], b[1], b[2]);
    if i >= |head| { AcceptRange(b[3..], i - |head|); }
  }

  lemma {:induction false} AcceptMore(a: seq<uint8>, b: seq<uint8>)
    requires a <= b
    ensures Accept(a) <= Accept(b)
  {
    hide Accept3;
    if |a| >= 3 { AcceptMore(a[3..], b[3..]); }
  }

  /** The sample can be read off any prefix with enough candidates. */
  lemma SampleIs(stream: Stream, n: nat)
    requires |Accept(Prefix(stream, n))| >= 256
    ensures Enough(stream) && Sample(stream) == Accept(Prefix(stream, n))[..256]
  {
    hide Accept;
    assert Enough(stream);
    var m: nat :| |Accept(Prefix(stream, m))| >= 256 && Sample(stream) == Accept(Prefix(stream, m))[..256];
    if m <= n {
      AcceptMore(Prefix(stream, m), Prefix(stream, n));
    } else {
      AcceptMore(Prefix(stream, n), Prefix(stream, m));
    }
  }

  lemma SampleCanonical(stream: Stream)
    requires Enough(stream)
    ensures forall i :: 0 <= i < 256 ==> 0 <= Sample(stream)[i] < Q
  {
    hide Accept;
    var n: nat :| |Accept(Prefix(stream, n))| >= 256;
    SampleIs(stream, n);
    forall i | 0 <= i < 256 ensures 0 <= Sample(stream)[i] < Q { AcceptRange(Prefix(stream, n), i); }
  }

  // ---- rej_uniform ----

  function Min(a: nat, b: nat): nat {
    if a < b then a else b
  }

  /** Candidates accepted from the first `pos` bytes, and the three bytes that follow. */
  lemma AcceptStep(b: seq<uint8>, pos: nat)
    requires pos % 3 == 0 && pos + 3 <= |b|
    ensures Accept(b[..pos + 3]) == Accept(b[..pos]) + Accept3(b[pos], b[pos + 1], b[pos + 2])
  {
    hide Accept3;
    var c := b[pos..pos + 3];
    AcceptSplit(b[..pos], c);
    assert b[..pos + 3] == b[..pos] + c;
    assert Accept(c[3..]) == [];
  }

  lemma AcceptNone(b: seq<uint8>)
    ensures Accept(b[..0]) == []
  {
  }

  /** Fewer than three bytes at the end hold no candidate. */
  lemma AcceptTail(b: seq<uint8>, pos: nat)
    requires pos % 3 == 0 && pos <= |b| < pos + 3
    ensures Accept(b[..pos]) == Accept(b)
  {
    AcceptSplit(b[..pos], b[pos..]);
    assert b == b[..pos] + b[pos..];
  }

  /** Samples up to `len` coefficients into r from offset `at`, and returns how many. */
  method RejUniform(r: array<int16>, at: nat, len: nat, buf: array<uint8>, buflen: nat) returns (ctr: nat)
    requires at + len <= r.Length && buflen <= buf.Length
    modifies r
    ensures ctr == Min(len, |Accept(buf[..buflen])|)
    ensures r[..] == old(r[..at]) + Accept(buf[..buflen])[..ctr] + old(r[at + ctr..])
  {
    hide Accept, Accept3, Packing.FromByte;
    ghost var b, was := buf[..buflen], r[..];
    ghost var done: seq<int16> := [];
    var pos := 0;
    ctr := 0;
    AcceptNone(b);
    while ctr < len && pos + 3 <= buflen
      invariant pos % 3 == 0 && pos <= buflen
      invariant done == Accept(b[..pos]) && ctr == Min(len, |done|)
      invariant forall j :: 0 <= j < r.Length ==> r[j] == if at <= j < at + ctr then done[j - at] else was[j]
      decreases buflen - pos
    {
      var val0 := Packing.FromByte(buf[pos], buf[pos + 1], buf[pos + 2], 0);
      var val1 := Packing.FromByte(buf[pos], buf[pos + 1], buf[pos + 2], 1);
      AcceptStep(b, pos);
      CandidateValues(b[pos], b[pos + 1], b[pos + 2]);
      done := done + Accept3(b[pos], b[pos + 1], b[pos + 2]);
      pos := pos + 3;
      if val0 < Q {
        r[at + ctr] := val0;
        ctr := ctr + 1;
      }
      if ctr < len && val1 < Q {
        r[at + ctr] := val1;
        ctr := ctr + 1;
      }
    }
    if ctr < len {
      AcceptTail(b, pos);
    } else {
      AcceptMore(b[..pos], b);
    }
  }

  lemma CandidateValues(c0: uint8, c1: uint8, c2: uint8)
    ensures var d1, d2 := Packing.FromByte(c0, c1, c2, 0), Packing.FromByte(c0, c1, c2, 1);
            Accept3(c0, c1, c2) == (if d1 < Q then [d1] else []) + (if d2 < Q then [d2] else [])
  {
    hide Packing.FromByte;
    Packing.FromByteSum(c0, c1, c2);
  }

  // ---- gen_matrix ----

  const XOF_BLOCKBYTES: nat := SHAKE128_RATE

  /** Blocks squeezed at first; about as many as the expected number of rejections needs. */
  const GEN_MATRIX_NBLOCKS: nat := (12 * N / 8 * 0x1000 / Q + XOF_BLOCKBYTES) / XOF_BLOCKBYTES

  /** Sampling goes on from where the last block ended. */
  lemma NextBlock(stream: Stream, taken: nat, b: seq<uint8>)
    requires taken % 3 == 0
    requires forall i :: 0 <= i < |b| ==> b[i] == stream(taken + i)
    ensures Accept(Prefix(stream, taken + |b|)) == Accept(Prefix(stream, taken)) + Accept(b)
  {
    hide Accept;
    AcceptSplit(Prefix(stream, taken), b);
    assert Prefix(stream, taken + |b|) == Prefix(stream, taken) + b;
  }

  /** One further block: what is already sampled stays, and sampling goes on. */
  method SampleBlock(r: array<int16>, ctr: nat, buf: array<uint8>, state: KeccakState, ghost seed: seq<uint8>, ghost x: uint8,
                     ghost y: uint8, ghost taken: nat)
    returns (more: nat)
    requires r.Length == 256 && buf.Length >= XOF_BLOCKBYTES && taken % 3 == 0
    requires StandsAt(state, seed, x, y, taken) && Unshared(r, buf, state)
    requires ctr == |Accept(Prefix(ShakeXof(seed, x, y), taken))| < 256 && r[..ctr] == Accept(Prefix(ShakeXof(seed, x, y), taken))
    modifies r, buf, state, state.s
    ensures StandsAt(state, seed, x, y, taken + XOF_BLOCKBYTES)
    ensures ctr + more == Min(256, |Accept(Prefix(ShakeXof(seed, x, y), taken + XOF_BLOCKBYTES))|)
    ensures r[..ctr + more] == Accept(Prefix(ShakeXof(seed, x, y), taken + XOF_BLOCKBYTES))[..ctr + more]
  {
    hide Accept, Prefix, ShakeXof, StandsAt;
    XofBlocks(state, buf, 1, seed, x, y, taken);
    ghost var b := buf[..XOF_BLOCKBYTES];
    NextBlock(ShakeXof(seed, x, y), taken, b);
    more := RejUniform(r, ctr, 256 - ctr, buf, XOF_BLOCKBYTES);
    assert r[..ctr + more] == Accept(Prefix(ShakeXof(seed, x, y), taken)) + Accept(b)[..more];
  }

  /** Polynomial, buffer and state occupy different memory. */
  ghost predicate Unshared(r: array<int16>, buf: array<uint8>, state: KeccakState) {
    (r as object) != (buf as object) && (r as object) != (state as object) && (r as object) != (state.s as object)
    && (buf as object) != (state as object) && (buf as object) != (state.s as object)
  }

  /** One matrix entry. */
  method SampleEntry(r: array<int16>, state: KeccakState, seed: seq<uint8>, x: uint8, y: uint8)
    requires r.Length == 256 && state.s.Length == 25 && Enough(ShakeXof(seed, x, y))
    requires (r as object) != (state as object) && (r as object) != (state.s as object)
    modifies r, state, state.s
    ensures r[..] == Sample(ShakeXof(seed, x, y))
  {
    hide Accept, Sample, ShakeXof, StandsAt;
    ghost var stream := ShakeXof(seed, x, y);
    ghost var enough: nat :| |Accept(Prefix(stream, enough))| >= 256;
    var buf := new uint8[GEN_MATRIX_NBLOCKS * XOF_BLOCKBYTES];
    Shake128Absorb(state, seed, x, y);
    XofBlocks(state, buf, GEN_MATRIX_NBLOCKS, seed, x, y, 0);
    ghost var taken := GEN_MATRIX_NBLOCKS * XOF_BLOCKBYTES;
    assert buf[..taken] == Prefix(stream, taken);
    var ctr := RejUniform(r, 0, 256, buf, GEN_MATRIX_NBLOCKS * XOF_BLOCKBYTES);
    hide Prefix;
    while ctr < 256
      invariant taken % 3 == 0 && StandsAt(state, seed, x, y, taken)
      invariant ctr == Min(256, |Accept(Prefix(stream, taken))|)
      invariant r[..ctr] == Accept(Prefix(stream, taken))[..ctr]
      decreases enough - taken
    {
      MoreIsNeeded(stream, taken, enough);
      var more := SampleBlock(r, ctr, buf, state, seed, x, y, taken);
      ctr := ctr + more;
      taken := taken + XOF_BLOCKBYTES;
    }
    SampleIs(stream, taken);
  }

  lemma MoreIsNeeded(stream: Stream, taken: nat, enough: nat)
    requires |Accept(Prefix(stream, taken))| < 256 <= |Accept(Prefix(stream, enough))|
    ensures taken < enough
  {
    if taken >= enough { AcceptMore(Prefix(stream, enough), Prefix(stream, taken)); }
  }

  /** A matrix of two by two distinct polynomials. */
  ghost predicate IsMatrix(a: seq<seq<array<int16>>>) {
    |a| == 2 && IsVec(a[0]) && IsVec(a[1]) && Apart(a[0], a[1])
  }

  method NewMatrix() returns (a: seq<seq<array<int16>>>)
    ensures IsMatrix(a) && fresh(a[0][0]) && fresh(a[0][1]) && fresh(a[1][0]) && fresh(a[1][1])
  {
    var a0 := NewPolyVec();
    var a1 := NewPolyVec();
    a := [a0, a1];
  }

  ghost predicate EnoughForMatrix(xof: Xof, seed: seq<uint8>) {
    Enough(xof(seed, 0, 0)) && Enough(xof(seed, 0, 1)) && Enough(xof(seed, 1, 0)) && Enough(xof(seed, 1, 1))
  }

  /** Entry (i, j) of the matrix A, in the transform domain. */
  ghost function Entry(xof: Xof, seed: seq<uint8>, i: uint8, j: uint8): Poly
    requires i < 2 && j < 2 && EnoughForMatrix(xof, seed)
  {
    Sample(xof(seed, j, i))
  }

  /** Row i of A, or of its transpose. */
  ghost function MatrixRow(xof: Xof, seed: seq<uint8>, transposed: bool, i: uint8): PolyVec
    requires i < 2 && EnoughForMatrix(xof, seed)
  {
    if transposed then Pair(Entry(xof, seed, 0, i), Entry(xof, seed, 1, i))
    else Pair(Entry(xof, seed, i, 0), Entry(xof, seed, i, 1))
  }

  method GenMatrix(a: seq<seq<array<int16>>>, seed: seq<uint8>, transposed: bool)
    requires IsMatrix(a) && EnoughForMatrix(ShakeXof, seed)
    modifies a[0][0], a[0][1], a[1][0], a[1][1]
    ensures Vec(a[0]) == MatrixRow(ShakeXof, seed, transposed, 0)
    ensures Vec(a[1]) == MatrixRow(ShakeXof, seed, transposed, 1)
  {
    hide Sample, Enough, ShakeXof;
    var state := new KeccakState(SHAKE128_RATE);
    for i := 0 to 2
      invariant state.s.Length == 25 && fresh(state) && fresh(state.s)
      invariant 0 < i ==> Vec(a[0]) == MatrixRow(ShakeXof, seed, transposed, 0)
      invariant 1 < i ==> Vec(a[1]) == MatrixRow(ShakeXof, seed, transposed, 1)
    {
      for j := 0 to 2
        invariant 0 < i ==> Vec(a[0]) == MatrixRow(ShakeXof, seed, transposed, 0)
        invariant 0 < j ==> a[i][0][..] == MatrixRow(ShakeXof, seed, transposed, i)[0]
        invariant 1 < j ==> a[i][1][..] == MatrixRow(ShakeXof, seed, transposed, i)[1]
      {
        if transposed {
          SampleEntry(a[i][j], state, seed, i, j);
        } else {
          SampleEntry(a[i][j], state, seed, j, i);
        }
      }
    }
  }
}
