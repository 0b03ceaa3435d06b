/** Known probes, and what makes different keys probe differently. */
module BloomVectors {
  import opened Bloom
  import opened LittleEndian
  import opened Widths

  /** The low byte of a step depends on the low bytes alone. */
  lemma LowByte(x: bv64)
    ensures TimesPrime(x) & 0xFF == ((x & 0xFF) * 0xb3) & 0xFF
  {
  }

  lemma LowByteCancels(x: bv64, y: bv64)
    requires ((x & 0xFF) * 0xb3) & 0xFF == ((y & 0xFF) * 0xb3) & 0xFF
    ensures x & 0xFF == y & 0xFF
  {
  }

  lemma XorLow(h: bv64, b: bv8, c: bv8)
    requires (h ^ (b as bv64)) & 0xFF == (h ^ (c as bv64)) & 0xFF
    ensures b == c
  {
  }

  lemma LowByteOfStep(h: bv64, b: bv8)
    ensures FnvStep(h, b) & 0xFF == (((h ^ (b as bv64)) & 0xFF) * 0xb3) & 0xFF
  {
    hide TimesPrime;
    LowByte(h ^ (b as bv64));
  }

  /** Different bytes lead to different hashes. */
  lemma FnvStepInjective(h: bv64, b: bv8, c: bv8)
    requires FnvStep(h, b) == FnvStep(h, c)
    ensures b == c
  {
    hide FnvStep;
    LowByteOfStep(h, b);
    LowByteOfStep(h, c);
    LowByteCancels(h ^ (b as bv64), h ^ (c as bv64));
    XorLow(h, b, c);
  }

  // ------------------------------------------------------------------
  // The probes of one hash
  // ------------------------------------------------------------------

  const HASH := 0x0123456789abcdef

  const KEY: seq<Byte> := [0xef, 0xcd, 0xab, 0x89, 0x67, 0x45, 0x23, 0x01]

  lemma LeStep(v: nat, n: nat)
    requires n > 0
    ensures Le(v, n) == [v % 256] + Le(v / 256, n - 1)
  {
  }

  lemma KeyOfHash()
    ensures BloomKeyBytes(HASH) == KEY
  {
    assert BloomKeyBytes(HASH) == Le(HASH, 8);
    LeStep(0x123456789abcdef, 8);
    LeStep(0x123456789abcd, 7);
    LeStep(0x123456789ab, 6);
    LeStep(0x123456789, 5);
    LeStep(0x1234567, 4);
    LeStep(0x12345, 3);
    LeStep(0x123, 2);
    LeStep(0x1, 1);
  }

  lemma FnvNext(n: nat, h: bv64, g: bv64)
    requires n < 8 && Fnv1a64(KEY[..n]) == h && FnvStep(h, KEY[n] as bv8) == g
    ensures Fnv1a64(KEY[..n + 1]) == g
  {
    hide FnvStep;
    assert KEY[..n + 1][..n] == KEY[..n];
  }

  lemma FnvOfKey()
    ensures Fnv1a64(KEY) == 0x37eb3f3347761c55
  {
    hide Fnv1a64;
    FnvOfNothing();
    assert KEY[..0] == [] == Zeros(0);
    FnvNext(0, 0xcbf29ce484222325, 0xaf64624c8602d03e);
    FnvNext(1, 0xaf64624c8602d03e, 0x0a63fb07b6c90ce9);
    FnvNext(2, 0x0a63fb07b6c90ce9, 0x70efd01b979fd426);
    FnvNext(3, 0x70efd01b979fd426, 0x87534de2a496655d);
    FnvNext(4, 0x87534de2a496655d, 0x88f2921dab8e018e);
    FnvNext(5, 0x88f2921dab8e018e, 0x4230136a824d0bf1);
    FnvNext(6, 0x4230136a824d0bf1, 0xc4bccffb68eb15d6);
    FnvNext(7, 0xc4bccffb68eb15d6, 0x37eb3f3347761c55);
    assert KEY[..8] == KEY;
  }

  lemma SplitOfKey()
    ensures SplitMix64(0x37eb3f3347761c55) == 0x7d4b9973387fd9b7
  {
  }

  /** The seven bits of one hash in the smallest filter. */
  lemma KnownProbes()
    ensures forall i :: 0 <= i < 7 ==> BitIndex(HASH, 1024, i) == [85, 524, 963, 378, 817, 232, 671][i]
  {
    hide BitIndex;
    KnownProbe(0, 0, 0x37eb3f3347761c55);
    KnownProbe(1, 1, 0xb536d8a67ff5f60c);
    KnownProbe(2, 2, 0x32827219b875cfc3);
    KnownProbe(3, 3, 0xafce0b8cf0f5a97a);
    KnownProbe(4, 4, 0x2d19a50029758331);
    KnownProbe(5, 5, 0xaa653e7361f55ce8);
    KnownProbe(6, 6, 0x27b0d7e69a75369f);
  }

  lemma KnownProbe(i: nat, k: bv64, p: bv64)
    requires i < 7 && i as bv64 == k && 0x37eb3f3347761c55 + k * 0x7d4b9973387fd9b7 == p
    ensures BitIndex(HASH, 1024, i) == p as int % 1024
  {
    hide SplitMix64, Fnv1a64, BloomKeyBytes;
    KeyOfHash();
    FnvOfKey();
    SplitOfKey();
  }

  /** The least multiple of 64 bits that gives every entry 10 and the filter 1024, and seven probes. */
  lemma FilterSize(f: Filter, hs: set<int>)
    requires IsFilterOf(f, hs)
    ensures f.kHashes == 7 && 8 * |f.bits| == f.mBits
    ensures f.mBits % 64 == 0 && f.mBits >= 1024 && f.mBits >= 10 * |hs|
    ensures f.mBits - 64 < 1024 || f.mBits - 64 < 10 * |hs|
  {
  }
}
