/** The byte-based bit buffer of qrcodegen.c: bits appended most significant first. */
module BitBuffer {
  import opened Arithmetic
  import opened Bits
  import opened Grid

  /** The n low bits of a value, most significant first. */
  function ValueBits(val: nat, n: nat): (b: seq<bool>)
    ensures |b| == n
  {
    if n == 0 then [] else ValueBits(val / 2, n - 1) + [val % 2 == 1]
  }

  /** The value of a bit string. */
  function BitsValue(b: seq<bool>): nat {
    if b == [] then 0 else 2 * BitsValue(b[..|b| - 1]) + (if b[|b| - 1] then 1 else 0)
  }

  /** Reading a field back gives the value that was written. */
  lemma {:induction false} ValueRoundTrip(val: nat, n: nat)
    requires val < Pow2(n)
    ensures BitsValue(ValueBits(val, n)) == val
  {
    if n > 0 {
      ValueRoundTrip(val / 2, n - 1);
      assert ValueBits(val, n)[..n - 1] == ValueBits(val / 2, n - 1);
    }
  }

  /** Bit i of the field is digit n - 1 - i of the value. */
  lemma {:induction false} ValueBitIs(val: nat, n: nat, i: nat)
    requires i < n
    ensures ValueBits(val, n)[i] == (val / Pow2(n - 1 - i) % 2 == 1)
  {
    if i < n - 1 {
      ValueBitIs(val / 2, n - 1, i);
      DivDiv(val, Pow2(n - 2 - i));
    }
  }

  function BitOf(data: seq<bv8>, i: nat): bool
    requires i < 8 * |data|
  {
    GetBit(data[i / 8], 7 - i % 8)
  }

  /** The buffer holds these bits, and zeros behind them. */
  ghost predicate Holds(buffer: seq<bv8>, bits: seq<bool>) {
    |bits| <= 8 * |buffer| && forall i :: 0 <= i < 8 * |buffer| ==> BitOf(buffer, i) == (i < |bits| && bits[i])
  }

  function OrBit(b: bv8, k: nat, on: bool): bv8
    requires k < 8
  {
    b | (if on then PlaceOf(k) else 0)
  }

  lemma OrBitGet(b: bv8, k: nat, on: bool, j: nat)
    requires k < 8 && j < 8
    ensures GetBit(OrBit(b, k, on), j) == (GetBit(b, j) || (j == k && on))
  {
    match k
    case 0 => case 1 => case 2 => case 3 => case 4 => case 5 => case 6 => case _ =>
  }

  /** Or-ing the next bit in. */
  lemma HoldsNext(buffer: seq<bv8>, bits: seq<bool>, on: bool)
    requires Holds(buffer, bits) && |bits| < 8 * |buffer|
    ensures var k := |bits|; Holds(buffer[k / 8 := OrBit(buffer[k / 8], 7 - k % 8, on)], bits + [on])
  {
    hide GetBit, OrBit;
    var k := |bits|;
    var r := buffer[k / 8 := OrBit(buffer[k / 8], 7 - k % 8, on)];
    forall i | 0 <= i < 8 * |buffer| ensures BitOf(r, i) == (i < k + 1 && (bits + [on])[i]) {
      OrBitGet(buffer[k / 8], 7 - k % 8, on, 7 - i % 8);
      assert BitOf(buffer, i) == (i < k && bits[i]);
      if i / 8 == k / 8 && i % 8 == k % 8 { assert i == k; }
    }
  }

  /** appendBitsToBuffer, within the first limit bytes of the buffer, which are zero from bit bitLen on. */
  method AppendBits(val: nat, numBits: nat, buffer: array<bv8>, ghost limit: nat, bitLen: nat, ghost bits: seq<bool>)
    returns (newLen: nat)
    requires numBits <= 16 && val < Pow2(numBits) && limit <= buffer.Length
    requires Holds(buffer[..limit], bits) && bitLen == |bits| && bitLen + numBits <= 8 * limit
    modifies buffer
    ensures newLen == bitLen + numBits && Holds(buffer[..limit], bits + ValueBits(val, numBits))
    ensures buffer[limit..] == old(buffer[limit..])
  {
    hide Holds, OrBit, Pow2;
    ghost var field := ValueBits(val, numBits);
    newLen := bitLen;
    assert bits + field[..0] == bits;
    for k := 0 to numBits
      invariant newLen == bitLen + k && Holds(buffer[..limit], bits + field[..k])
      invariant buffer[limit..] == old(buffer[limit..])
    {
      var i := numBits - 1 - k;
      var bit := val / Pow2(i) % 2 == 1;
      ValueBitIs(val, numBits, k);
      ghost var was := buffer[..limit];
      HoldsNext(was, bits + field[..k], bit);
      assert (bits + field[..k]) + [bit] == bits + field[..k + 1];
      buffer[newLen / 8] := OrBit(buffer[newLen / 8], 7 - newLen % 8, bit);
      assert buffer[..limit] == was[newLen / 8 := OrBit(was[newLen / 8], 7 - newLen % 8, bit)];
      newLen := newLen + 1;
    }
    assert field[..numBits] == field;
  }

  lemma ZerosHold(buffer: seq<bv8>)
    requires forall i :: 0 <= i < |buffer| ==> buffer[i] == 0
    ensures Holds(buffer, [])
  {
    forall i | 0 <= i < 8 * |buffer| ensures !BitOf(buffer, i) { ZeroBit(7 - i % 8); }
  }

  lemma ZeroBit(k: nat)
    requires k < 8
    ensures !GetBit(0, k)
  {
  }

  /** The first n bits of a byte sequence. */
  function FirstBits(data: seq<bv8>, n: nat): (b: seq<bool>)
    requires n <= 8 * |data|
    ensures |b| == n
  {
    seq(n, i requires 0 <= i < n => BitOf(data, i))
  }

  lemma HoldsFirst(buffer: seq<bv8>, bits: seq<bool>)
    requires Holds(buffer, bits)
    ensures FirstBits(buffer, |bits|) == bits
  {
    hide BitOf;
  }
}
