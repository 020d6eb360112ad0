/** Fixed-width machine integers of the C sources, as subset types of `int` with explicit wrap-around. */
module Words {
  import opened Arithmetic

  type int16 = x: int | -0x8000 <= x < 0x8000
  type uint16 = x: int | 0 <= x < 0x1_0000
  type uint8 = x: int | 0 <= x < 0x100

  /** Conversion to `int16_t`: the value modulo 2^16 in two's complement. */
  function ToInt16(x: int): (r: int16)
    ensures (r - x) % 0x1_0000 == 0
    ensures -0x8000 <= x < 0x8000 ==> r == x
  {
    (x + 0x8000) % 0x1_0000 - 0x8000
  }

  lemma ToInt16Wraps(x: int) returns (k: int)
    ensures ToInt16(x) == x + 0x1_0000 * k
  {
    k := -((x + 0x8000) / 0x1_0000);
    Euclid(x + 0x8000, 0x1_0000);
  }

  function ToUint32(x: int): int {
    x % 0x1_0000_0000
  }

  /** The one multiple of 2^32 that brings x into range is dropped. */
  lemma ToUint32Is(x: int, k: int)
    requires 0 <= x - 0x1_0000_0000 * k < 0x1_0000_0000
    ensures ToUint32(x) == x - 0x1_0000_0000 * k
  {
    DivUnique(x, 0x1_0000_0000, k, x - 0x1_0000_0000 * k);
  }

  /** Every element has absolute value at most `bound`. */
  ghost predicate Bounded(s: seq<int>, bound: int) {
    forall i :: 0 <= i < |s| ==> -bound <= s[i] <= bound
  }
}
