/** The fixed-width integers of the source: what fits, and what conversion and addition do to the rest. */
module Widths {
  predicate FitsInt32(x: int) {
    -0x8000_0000 <= x < 0x8000_0000
  }

  // int32 conversion of a 64-bit number
  function Int32(x: int): int {
    (x + 0x8000_0000) % 0x1_0000_0000 - 0x8000_0000
  }

  // Two's complement: in range, unchanged there, and blind to multiples of 2^32.
  lemma Int32Wraps(x: int)
    ensures -2147483648 <= Int32(x) <= 2147483647 && FitsInt32(Int32(x))
    ensures Int32(x + 4294967296) == Int32(x)
    ensures FitsInt32(x) <==> -2147483648 <= x <= 2147483647
    ensures FitsInt32(x) <==> Int32(x) == x
  {
  }

  // uint32 arithmetic
  function Uint32(x: nat): nat {
    x % 0x1_0000_0000
  }

  lemma Uint32Absorbs(x: nat, y: nat)
    ensures Uint32(Uint32(x) + y) == Uint32(x + y)
    ensures x <= 4294967295 <==> Uint32(x) == x
    ensures Uint32(x + 4294967296) == Uint32(x) <= 4294967295
  {
  }
}
