/** Integer widths, and the signed and unsigned views of 64-bit values. */
module Widths {

  const TWO_16: nat := 0x1_0000
  const TWO_31: nat := 0x8000_0000
  const TWO_32: nat := 0x1_0000_0000
  const TWO_63: int := 0x8000_0000_0000_0000
  const TWO_64: nat := 0x1_0000_0000_0000_0000

  function AsUint64(h: int): nat {
    h % TWO_64
  }

  function AsInt64(h: int): int {
    var u := AsUint64(h);
    if u >= TWO_63 then u - TWO_64 else u
  }

  /** Both views are the residue modulo 2^64, in [0, 2^64) and in [-2^63, 2^63). */
  lemma ViewsAreResidues(h: int)
    ensures 0 <= AsUint64(h) < 0x1_0000_0000_0000_0000 && (AsUint64(h) - h) % 0x1_0000_0000_0000_0000 == 0
    ensures -0x8000_0000_0000_0000 <= AsInt64(h) < 0x8000_0000_0000_0000
    ensures (AsInt64(h) - h) % 0x1_0000_0000_0000_0000 == 0
    ensures TWO_16 == 65536 && TWO_32 == TWO_16 * TWO_16 == 2 * TWO_31 && TWO_64 == TWO_32 * TWO_32 == 2 * TWO_63
  {
    var n: int := 0x1_0000_0000_0000_0000;
    var q := h / n;
    assert h == n * q + AsUint64(h);
    assert AsUint64(h) - h == n * (-q);
    assert AsInt64(h) - h == n * (-q) || AsInt64(h) - h == n * (-q - 1);
  }

  /** The two views name the same hash. */
  lemma ViewsAgree(g: int, h: int)
    ensures AsUint64(g) == AsUint64(h) <==> AsInt64(g) == AsInt64(h)
    ensures AsUint64(AsInt64(h)) == AsUint64(h) && AsInt64(AsUint64(h)) == AsInt64(h)
    ensures AsInt64(AsInt64(h)) == AsInt64(h)
    ensures -TWO_63 <= AsInt64(h) < TWO_63
  {
    var u := AsUint64(h);
    assert (u - TWO_64) % TWO_64 == u;
  }
}
