/** 32-bit interlocked counters, as the epochs of the minifilter use them. */
module KernelLong {
  import opened Widths

  /** The value of a 32-bit LONG that was incremented this many times from 0. */
  function LongOf(bumps: nat): int {
    (bumps + 0x8000_0000) % TWO_32 - 0x8000_0000
  }

  /** It is the count modulo 2^32, read as a signed number. */
  lemma LongOfIsResidue(bumps: nat)
    ensures -0x8000_0000 <= LongOf(bumps) < 0x8000_0000 && (LongOf(bumps) - bumps) % 0x1_0000_0000 == 0
  {
    var x := bumps + 0x8000_0000;
    assert x == 0x1_0000_0000 * (x / 0x1_0000_0000) + x % 0x1_0000_0000;
    assert LongOf(bumps) - bumps == 0x1_0000_0000 * (-(x / 0x1_0000_0000));
  }

  lemma LongOfCollides(a: nat, b: nat)
    ensures LongOf(a) == LongOf(b) <==> (b - a) % TWO_32 == 0
  {
    SameRemainder(a + 0x8000_0000, b + 0x8000_0000);
  }

  lemma SameRemainder(x: int, y: int)
    ensures x % TWO_32 == y % TWO_32 <==> (y - x) % TWO_32 == 0
  {
    var d, q, r := y - x, y / TWO_32 - x / TWO_32, y % TWO_32 - x % TWO_32;
    assert d == TWO_32 * q + r && 0 - TWO_32 < r < TWO_32;
    assert d == TWO_32 * (d / TWO_32) + d % TWO_32;
    if d % TWO_32 == 0 {
      assert r == TWO_32 * (d / TWO_32 - q);
    }
  }
}
