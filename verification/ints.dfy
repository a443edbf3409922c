/** Rust's fixed-width signed integers, as subsets of the unbounded integers. */
module Ints {

  type I8 = x: int | -0x80 <= x < 0x80
  type I16 = x: int | -0x8000 <= x < 0x8000
  type I32 = x: int | -0x8000_0000 <= x < 0x8000_0000
  type I64 = x: int | -0x8000_0000_0000_0000 <= x < 0x8000_0000_0000_0000

  /** Rust's `x as i16` on an `i32`: keep the low 16 bits and read them as
      two's complement. The result is the one `i16` congruent to `x` modulo 2^16. */
  function AsI16(x: I32): (r: I16)
    ensures (x - r) % 0x1_0000 == 0
    ensures -0x8000 <= x < 0x8000 ==> r == x
  {
    (x + 0x8000) % 0x1_0000 - 0x8000
  }

  /** Two `i16` values congruent modulo 2^16 are equal, so the cast is pinned down
      by its contract: no other 16-bit value is congruent to `x`. */
  lemma AsI16Unique(x: I32, r: I16)
    requires (x - r) % 0x1_0000 == 0
    ensures r == AsI16(x)
  {
    var q := AsI16(x);
    assert (q - r) % 0x1_0000 == 0 by {
      assert q - r == (x - r) - (x - q);
    }
    assert -0x1_0000 < q - r < 0x1_0000;
  }

  /** Values outside the 16-bit range wrap: 123456 becomes -7616, 40000 becomes -25536. */
  lemma AsI16Wraps()
    ensures AsI16(123456) == -7616
    ensures AsI16(40000) == -25536
    ensures AsI16(-40000) == 25536
  {
    AsI16Unique(123456, -7616);
    AsI16Unique(40000, -25536);
    AsI16Unique(-40000, 25536);
  }
}
