/**
  The bloom pre-filter of an index bundle. Hashes are any representative of a
  64-bit value. Bit positions are turned into byte offsets by a shift that the
  runtime does on 32-bit signed integers, and the model keeps that.
 */
module Bloom {
  import opened Wrappers
  import opened LittleEndian
  import opened Widths

  const BLOOM_BITS_PER_ENTRY: nat := 10
  const BLOOM_K: nat := 7
  const BLOOM_MIN_BITS: nat := 1024

  const FNV_OFFSET_BASIS: bv64 := 0xcbf29ce484222325

  datatype Filter = Filter(mBits: nat, kHashes: nat, bits: seq<Byte>)

  // ------------------------------------------------------------------
  // Bit positions of a hash
  // ------------------------------------------------------------------

  function BloomKeyBytes(hash: int): seq<Byte> {
    Le(AsUint64(hash), 8)
  }

  function TimesPrime(x: bv64): bv64 {
    x * 0x100000001b3
  }

  function FnvStep(h: bv64, b: bv8): bv64 {
    TimesPrime(h ^ (b as bv64))
  }

  function Fnv1a64(bs: seq<Byte>): bv64 {
    if bs == [] then FNV_OFFSET_BASIS else FnvStep(Fnv1a64(bs[..|bs| - 1]), bs[|bs| - 1] as bv8)
  }

  method Fnv1a64Bytes(bs: seq<Byte>) returns (h: bv64)
    ensures h == Fnv1a64(bs)
  {
    hide TimesPrime;
    h := FNV_OFFSET_BASIS;
    for i := 0 to |bs|
      invariant h == Fnv1a64(bs[..i])
    {
      assert bs[..i + 1][..i] == bs[..i];
      h := h ^ ((bs[i] as bv8) as bv64);
      h := TimesPrime(h);
    }
    assert bs[..|bs|] == bs;
  }

  function SplitMix64(x: bv64): bv64 {
    var z := x + 0x9e3779b97f4a7c15;
    var y := (z ^ (z >> 30)) * 0xbf58476d1ce4e5b9;
    var w := (y ^ (y >> 27)) * 0x94d049bb133111eb;
    w ^ (w >> 31)
  }

  /** The i-th probe, in wrapping 64-bit arithmetic. */
  function Probe(h1: bv64, h2: bv64, i: nat): nat
    requires i < TWO_64
  {
    (h1 + (i as bv64) * h2) as int
  }

  function BitIndex(hash: int, mBits: nat, i: nat): nat
    requires mBits > 0 && i < TWO_64
  {
    var h1 := Fnv1a64(BloomKeyBytes(hash));
    Probe(h1, SplitMix64(h1), i) % mBits
  }

  method BloomBitIndexes(hash: int, mBits: nat, kHashes: nat) returns (out: seq<nat>)
    requires mBits > 0 && kHashes < TWO_32
    ensures |out| == kHashes && forall i :: 0 <= i < kHashes ==> out[i] == BitIndex(hash, mBits, i) < mBits
  {
    hide Fnv1a64, SplitMix64, Probe;
    var h1 := Fnv1a64Bytes(BloomKeyBytes(hash));
    var h2 := SplitMix64(h1);
    out := [];
    for i := 0 to kHashes
      invariant |out| == i && forall j :: 0 <= j < i ==> out[j] == BitIndex(hash, mBits, j) < mBits
    {
      out := out + [Probe(h1, h2, i) % mBits];
    }
  }

  // ------------------------------------------------------------------
  // Bits in bytes
  // ------------------------------------------------------------------

  /** Bit k of b, lowest first. */
  predicate Bit(b: nat, k: nat) {
    if k == 0 then b % 2 == 1 else Bit(b / 2, k - 1)
  }

  /** b | 1 << k */
  function OrBit(b: nat, k: nat): nat {
    if k == 0 then b + 1 - b % 2 else b % 2 + 2 * OrBit(b / 2, k - 1)
  }

  function Pow2(n: nat): nat {
    if n == 0 then 1 else 2 * Pow2(n - 1)
  }

  lemma {:induction false} OrBitFits(b: nat, k: nat, n: nat)
    requires b < Pow2(n) && k < n
    ensures OrBit(b, k) < Pow2(n)
  {
    var half, p := b / 2, Pow2(n - 1);
    assert Pow2(n) == 2 * p && b == 2 * half + b % 2;
    assert half < p;
    if k > 0 {
      OrBitFits(half, k - 1, n - 1);
      hide Pow2;
      assert OrBit(half, k - 1) <= p - 1;
    }
  }

  lemma {:induction false} OrBitSets(b: nat, k: nat, j: nat)
    ensures Bit(OrBit(b, k), j) <==> j == k || Bit(b, j)
  {
    if k == 0 {
      assert j > 0 ==> (b + 1 - b % 2) / 2 == b / 2;
    } else if j > 0 {
      assert OrBit(b, k) / 2 == OrBit(b / 2, k - 1);
      OrBitSets(b / 2, k - 1, j - 1);
    }
  }

  lemma {:induction false} ZeroHasNoBit(k: nat)
    ensures !Bit(0, k)
  {
    if k > 0 {
      ZeroHasNoBit(k - 1);
    }
  }

  lemma {:induction false} SameBits(a: nat, b: nat, n: nat)
    requires a < Pow2(n) && b < Pow2(n) && forall k :: 0 <= k < n ==> Bit(a, k) == Bit(b, k)
    ensures a == b
  {
    if n > 0 {
      assert Bit(a, 0) == Bit(b, 0);
      forall k | 0 <= k < n - 1
        ensures Bit(a / 2, k) == Bit(b / 2, k)
      {
        assert Bit(a, k + 1) == Bit(b, k + 1);
      }
      SameBits(a / 2, b / 2, n - 1);
    }
  }

  function OrByte(b: Byte, k: nat): Byte
    requires k < 8
  {
    assert Pow2(8) == 256;
    OrBitFits(b, k, 8);
    OrBit(b, k)
  }

  /** Bit s of a buffer: byte s / 8, lowest bit first. */
  predicate BitAt(bits: seq<Byte>, s: int) {
    0 <= s < 8 * |bits| && Bit(bits[s / 8], s % 8)
  }

  /** A buffer is determined by its length and its bits. */
  lemma BufferIsItsBits(a: seq<Byte>, b: seq<Byte>)
    requires |a| == |b| && forall s :: 0 <= s < 8 * |a| ==> BitAt(a, s) == BitAt(b, s)
    ensures a == b
  {
    forall i | 0 <= i < |a|
      ensures a[i] == b[i]
    {
      forall k | 0 <= k < 8
        ensures Bit(a[i], k) == Bit(b[i], k)
      {
        var s := 8 * i + k;
        assert s / 8 == i && s % 8 == k;
        assert BitAt(a, s) == BitAt(b, s);
      }
      assert Pow2(8) == 256;
      SameBits(a[i], b[i], 8);
    }
  }

  // ------------------------------------------------------------------
  // Building and asking
  // ------------------------------------------------------------------

  /** The value the runtime's bit operators see. */
  function ToInt32(x: nat): int {
    var u := x % TWO_32;
    if u >= TWO_31 then u - TWO_32 else u
  }

  /** The buffer bit that a bit index addresses: negative from 2^31 on. */
  function Slot(hash: int, mBits: nat, i: nat): int
    requires mBits > 0 && i < TWO_64
  {
    ToInt32(BitIndex(hash, mBits, i))
  }

  function Distinct(hashes: seq<int>): set<int> {
    set i | 0 <= i < |hashes| :: AsUint64(hashes[i])
  }

  /** max(1024, 10 n) rounded up to a multiple of 64. */
  function BloomBits(n: nat): (m: nat)
    ensures m % 64 == 0 && m >= BLOOM_MIN_BITS && m >= BLOOM_BITS_PER_ENTRY * n
  {
    var m := if n * BLOOM_BITS_PER_ENTRY > BLOOM_MIN_BITS then n * BLOOM_BITS_PER_ENTRY else BLOOM_MIN_BITS;
    (m + 63) / 64 * 64
  }

  /** Some hash of the set has a probe in slot s. */
  ghost predicate Hit(hs: set<int>, mBits: nat, s: int)
    requires mBits > 0
  {
    exists h, i :: h in hs && 0 <= i < BLOOM_K && Slot(h, mBits, i) == s
  }

  /** The filter of a set: exactly the slots its hashes hit are set. */
  ghost predicate IsFilterOf(f: Filter, hs: set<int>) {
    && f.mBits == BloomBits(|hs|) && f.kHashes == BLOOM_K && |f.bits| == f.mBits / 8
    && forall s :: 0 <= s < f.mBits ==> (BitAt(f.bits, s) <==> Hit(hs, f.mBits, s))
  }

  method DistinctOf(hashes: seq<int>) returns (distinct: set<int>)
    ensures distinct == Distinct(hashes)
  {
    distinct := {};
    for i := 0 to |hashes|
      invariant distinct == Distinct(hashes[..i])
    {
      assert Distinct(hashes[..i + 1]) == Distinct(hashes[..i]) + {AsUint64(hashes[i])} by {
        assert forall x :: 0 <= x < i ==> hashes[..i + 1][x] == hashes[..i][x];
        assert hashes[..i + 1][i] == hashes[i];
      }
      distinct := distinct + {AsUint64(hashes[i])};
    }
    assert hashes[..|hashes|] == hashes;
  }

  lemma SlotParts(idx: nat)
    ensures ToInt32(idx) % 8 == idx % 8 && ToInt32(idx) == 8 * (ToInt32(idx) / 8) + idx % 8
    ensures ToInt32(idx) <= idx
    ensures ToInt32(idx) == idx <==> idx < TWO_31
  {
    var u := idx % TWO_32;
    assert u % 8 == idx % 8;
    assert (u - TWO_32) % 8 == u % 8;
  }

  /** Sets the bit that an index addresses; outside the buffer the write is lost. */
  method SetSlot(bits: array<Byte>, idx: nat)
    modifies bits
    ensures forall s :: 0 <= s < 8 * bits.Length ==>
              (BitAt(bits[..], s) <==> BitAt(old(bits[..]), s) || s == ToInt32(idx))
  {
    SlotParts(idx);
    var byteIndex := ToInt32(idx) / 8;
    ghost var was := bits[..];
    if 0 <= byteIndex < bits.Length {
      bits[byteIndex] := OrByte(bits[byteIndex], idx % 8);
      SlotIsSet(was, byteIndex, idx % 8, bits[..]);
    }
  }

  lemma SlotIsSet(was: seq<Byte>, i: nat, k: nat, now: seq<Byte>)
    requires i < |was| && k < 8 && now == was[i := OrByte(was[i], k)]
    ensures forall s :: 0 <= s < 8 * |was| ==> (BitAt(now, s) <==> BitAt(was, s) || s == 8 * i + k)
  {
    forall s | 0 <= s < 8 * |was|
      ensures BitAt(now, s) <==> BitAt(was, s) || s == 8 * i + k
    {
      if s / 8 == i {
        OrBitSets(was[i], k, s % 8);
      }
    }
  }

  ghost predicate HitBy(hash: int, mBits: nat, n: nat, s: int)
    requires mBits > 0 && n <= TWO_32
  {
    exists i :: 0 <= i < n && Slot(hash, mBits, i) == s
  }

  lemma HitsGrow(done: set<int>, h: int, mBits: nat, s: int)
    requires mBits > 0
    ensures Hit(done + {h}, mBits, s) <==> Hit(done, mBits, s) || HitBy(h, mBits, BLOOM_K, s)
  {
    hide Slot;
    if HitBy(h, mBits, BLOOM_K, s) {
      var i :| 0 <= i < BLOOM_K && Slot(h, mBits, i) == s;
      assert h in done + {h};
    }
  }

  lemma HitByNext(hash: int, mBits: nat, n: nat)
    requires mBits > 0 && n < TWO_32
    ensures forall s :: HitBy(hash, mBits, n + 1, s) <==> HitBy(hash, mBits, n, s) || s == Slot(hash, mBits, n)
  {
    hide Slot;
    assert HitBy(hash, mBits, n + 1, Slot(hash, mBits, n));
    forall s | HitBy(hash, mBits, n + 1, s)
      ensures HitBy(hash, mBits, n, s) || s == Slot(hash, mBits, n)
    {
      var i :| 0 <= i < n + 1 && Slot(hash, mBits, i) == s;
    }
    forall s | HitBy(hash, mBits, n, s)
      ensures HitBy(hash, mBits, n + 1, s)
    {
      var i :| 0 <= i < n && Slot(hash, mBits, i) == s;
    }
  }

  lemma NotHitYet(hash: int, mBits: nat)
    requires mBits > 0
    ensures forall s :: !HitBy(hash, mBits, 0, s)
  {
  }

  /** Sets every slot that one hash hits. */
  method AddHash(bits: array<Byte>, hash: int, mBits: nat)
    requires mBits > 0
    modifies bits
    ensures forall s :: 0 <= s < 8 * bits.Length ==>
              (BitAt(bits[..], s) <==> BitAt(old(bits[..]), s) || HitBy(hash, mBits, BLOOM_K, s))
  {
    var indexes := BloomBitIndexes(hash, mBits, BLOOM_K);
    hide BitAt, BitIndex, ToInt32, HitBy;
    NotHitYet(hash, mBits);
    for j := 0 to |indexes|
      invariant forall s :: 0 <= s < 8 * bits.Length ==>
                  (BitAt(bits[..], s) <==> BitAt(old(bits[..]), s) || HitBy(hash, mBits, j, s))
    {
      SetSlot(bits, indexes[j]);
      assert ToInt32(indexes[j]) == Slot(hash, mBits, j);
      HitByNext(hash, mBits, j);
    }
  }

  method BuildBloom(hashes: seq<int>) returns (f: Filter)
    ensures IsFilterOf(f, Distinct(hashes))
  {
    hide BitAt, Hit, HitBy, Slot, BitIndex, ToInt32, Bit, Distinct;
    var distinct := DistinctOf(hashes);
    var mBits := BloomBits(|distinct|);
    var bits := new Byte[mBits / 8](_ => 0);
    var rest := distinct;
    NoBitYet(bits[..], mBits);
    assert distinct - rest == {};
    while rest != {}
      invariant rest <= distinct
      invariant forall s :: 0 <= s < mBits ==> (BitAt(bits[..], s) <==> Hit(distinct - rest, mBits, s))
      decreases rest
    {
      var h := Choose(rest);
      AddHash(bits, h, mBits);
      assert distinct - (rest - {h}) == distinct - rest + {h};
      forall s | 0 <= s < mBits
        ensures BitAt(bits[..], s) <==> Hit(distinct - (rest - {h}), mBits, s)
      {
        HitsGrow(distinct - rest, h, mBits, s);
      }
      rest := rest - {h};
    }
    assert distinct - rest == distinct;
    return Filter(mBits, BLOOM_K, bits[..]);
  }

  lemma NoBitYet(bits: seq<Byte>, mBits: nat)
    requires mBits > 0 && forall i :: 0 <= i < |bits| ==> bits[i] == 0
    ensures forall s :: !BitAt(bits, s) && !Hit({}, mBits, s)
  {
    forall s | 0 <= s < 8 * |bits|
      ensures !BitAt(bits, s)
    {
      ZeroHasNoBit(s % 8);
    }
  }

  /** What asking the filter answers: a slot outside the buffer reads as clear. */
  ghost predicate Has(f: Filter, hash: int)
    requires f.mBits > 0 && f.kHashes < TWO_32
  {
    forall i :: 0 <= i < f.kHashes ==> BitAt(f.bits, Slot(hash, f.mBits, i))
  }

  method BloomHas(f: Filter, hash: int) returns (r: bool)
    requires f.mBits > 0 && f.kHashes < TWO_32
    ensures r <==> Has(f, hash)
  {
    hide BitIndex, BitAt, ToInt32, Bit, Fnv1a64, SplitMix64, Probe, BloomKeyBytes, Le, AsUint64;
    var indexes := BloomBitIndexes(hash, f.mBits, f.kHashes);
    for j := 0 to |indexes|
      invariant forall i :: 0 <= i < j ==> BitAt(f.bits, Slot(hash, f.mBits, i))
    {
      assert Slot(hash, f.mBits, j) == ToInt32(indexes[j]);
      var isSet := TestSlot(f.bits, indexes[j]);
      if !isSet {
        return false;
      }
    }
    return true;
  }

  /** Whether the bit that an index addresses is set; outside the buffer it is not. */
  method TestSlot(bits: seq<Byte>, idx: nat) returns (r: bool)
    ensures r <==> BitAt(bits, ToInt32(idx))
  {
    SlotParts(idx);
    hide ToInt32, Bit;
    var byteIndex := ToInt32(idx) / 8;
    return 0 <= byteIndex < |bits| && Bit(bits[byteIndex], idx % 8);
  }

  // ------------------------------------------------------------------
  // No false negatives, and when there are
  // ------------------------------------------------------------------

  /** The filter of a set is unique: neither order nor repetition nor the
      representative of a hash shows in it. */
  lemma FilterUnique(f: Filter, g: Filter, hs: set<int>)
    requires IsFilterOf(f, hs) && IsFilterOf(g, hs)
    ensures f == g
  {
    hide Hit, BitAt;
    BufferIsItsBits(f.bits, g.bits);
  }

  lemma {:induction false} SlotOfView(hash: int, mBits: nat, i: nat)
    requires mBits > 0 && i < TWO_64
    ensures Slot(hash, mBits, i) == Slot(AsUint64(hash), mBits, i)
    ensures Slot(hash, mBits, i) < mBits
    ensures Slot(hash, mBits, i) >= 0 <==> BitIndex(hash, mBits, i) % TWO_32 < TWO_31
  {
    assert AsUint64(AsUint64(hash)) == AsUint64(hash);
    assert BloomKeyBytes(hash) == BloomKeyBytes(AsUint64(hash));
    hide Probe, Fnv1a64, SplitMix64, BloomKeyBytes;
    SlotParts(BitIndex(hash, mBits, i));
  }

  /** A hash the filter was built from is found exactly when all its bit indexes
      read as non-negative 32-bit numbers. */
  lemma {:induction false} MemberIsFound(f: Filter, hs: set<int>, hash: int)
    requires IsFilterOf(f, hs) && AsUint64(hash) in hs
    ensures Has(f, hash) <==> forall i :: 0 <= i < f.kHashes ==> BitIndex(hash, f.mBits, i) % TWO_32 < TWO_31
  {
    hide BitIndex, ToInt32, Slot, Bit;
    forall i | 0 <= i < f.kHashes
      ensures BitAt(f.bits, Slot(hash, f.mBits, i)) <==> BitIndex(hash, f.mBits, i) % TWO_32 < TWO_31
    {
      SlotOfView(hash, f.mBits, i);
      assert Hit(hs, f.mBits, Slot(hash, f.mBits, i)) by {
        assert AsUint64(hash) in hs && Slot(AsUint64(hash), f.mBits, i) == Slot(hash, f.mBits, i);
      }
    }
  }

  /** Up to 2^31 bits nothing that was added is ever missed. */
  lemma {:induction false} SmallFilterHasNoFalseNegative(f: Filter, hs: set<int>, hash: int)
    requires IsFilterOf(f, hs) && AsUint64(hash) in hs && f.mBits <= TWO_31
    ensures Has(f, hash)
  {
    hide Probe, Fnv1a64, SplitMix64;
    MemberIsFound(f, hs, hash);
  }

  /** Beyond that the shift turns negative: a filter of 2^32 - 1 bits that are all
      set still answers no for hash 0. */
  lemma LargeFilterMisses(f: Filter)
    requires f.mBits == TWO_32 - 1 && f.kHashes == BLOOM_K
    requires |f.bits| == 0x2000_0000 && forall i :: 0 <= i < |f.bits| ==> f.bits[i] == 255
    ensures !Has(f, 0)
  {
    FnvOfZero();
    assert Slot(0, f.mBits, 0) < 0 by {
      FirstProbe(SplitMix64(0xa8c7f832281a39c5));
    }
    assert !BitAt(f.bits, Slot(0, f.mBits, 0));
  }

  lemma FirstProbe(h2: bv64)
    ensures Probe(0xa8c7f832281a39c5, h2, 0) == 0xa8c7f832281a39c5
  {
  }

  function Zeros(n: nat): seq<Byte> {
    seq(n, _ => 0)
  }

  lemma FnvZeroStep(n: nat, h: bv64)
    requires Fnv1a64(Zeros(n)) == h
    ensures Fnv1a64(Zeros(n + 1)) == TimesPrime(h)
  {
    assert Zeros(n + 1)[..n] == Zeros(n);
    assert Zeros(n + 1)[n] == 0;
    XorZero(h);
  }

  lemma XorZero(h: bv64)
    ensures FnvStep(h, 0) == TimesPrime(h)
  {
    hide TimesPrime;
    assert h ^ 0 == h;
  }

  lemma {:induction false} FnvOfZero()
    ensures Fnv1a64(BloomKeyBytes(0)) == 0xa8c7f832281a39c5
  {
    hide Fnv1a64, FnvStep;
    assert Fnv1a64(Zeros(0)) == FNV_OFFSET_BASIS by {
      FnvOfNothing();
    }
    FnvZeroStep(0, FNV_OFFSET_BASIS);
    assert Fnv1a64(Zeros(1)) == 0xaf63bd4c8601b7df;
    FnvZeroStep(1, 0xaf63bd4c8601b7df);
    assert Fnv1a64(Zeros(2)) == 0x8328807b4eb6fed;
    FnvZeroStep(2, 0x8328807b4eb6fed);
    assert Fnv1a64(Zeros(3)) == 0xd94d12186c0f2fb7;
    FnvZeroStep(3, 0xd94d12186c0f2fb7);
    assert Fnv1a64(Zeros(4)) == 0x4d25767f9dce13f5;
    FnvZeroStep(4, 0x4d25767f9dce13f5);
    assert Fnv1a64(Zeros(5)) == 0xe4bc4fd9252be94f;
    FnvZeroStep(5, 0xe4bc4fd9252be94f);
    assert Fnv1a64(Zeros(6)) == 0xd7e4fcfa299d713d;
    FnvZeroStep(6, 0xd7e4fcfa299d713d);
    assert Fnv1a64(Zeros(7)) == 0x778b1a14b6876aa7;
    FnvZeroStep(7, 0x778b1a14b6876aa7);
    assert Fnv1a64(Zeros(8)) == 0xa8c7f832281a39c5;
    assert Le(0, 8) == Zeros(8);
  }

  lemma FnvOfNothing()
    ensures Fnv1a64(Zeros(0)) == FNV_OFFSET_BASIS
  {
  }
}
