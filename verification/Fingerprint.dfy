/**
  Document fingerprints: shingles, winnowing and set similarity.

  A document is the sequence of its normalised tokens. The shingle hash is a
  parameter, so every result below holds for every hash function.
 */
module Fingerprint {
  import opened Wrappers
  import opened Widths

  // ------------------------------------------------------------------
  // Shingles
  // ------------------------------------------------------------------

  function Join(tokens: seq<string>): string {
    if |tokens| == 0 then ""
    else if |tokens| == 1 then tokens[0]
    else tokens[0] + " " + Join(tokens[1..])
  }

  /** Every window of k tokens; a shorter document is one single shingle. */
  function Shingles(tokens: seq<string>, k: nat): seq<string>
    requires k >= 1
  {
    if |tokens| == 0 then []
    else if |tokens| < k then [Join(tokens)]
    else seq(|tokens| - k + 1, i requires 0 <= i <= |tokens| - k => Join(tokens[i..i + k]))
  }

  datatype BadParameter = KBelowOne | WBelowOne

  method ShinglesOf(tokens: seq<string>, k: int) returns (r: Result<seq<string>, BadParameter>)
    ensures k < 1 ==> r == Err(KBelowOne)
    ensures k >= 1 ==> r == Ok(Shingles(tokens, k))
  {
    if k < 1 {
      return Err(KBelowOne);
    }
    if |tokens| == 0 {
      return Ok([]);
    }
    if |tokens| < k {
      return Ok([Join(tokens)]);
    }
    var out: seq<string> := [];
    var i := 0;
    while i + k <= |tokens|
      invariant 0 <= i <= |tokens| - k + 1
      invariant out == Shingles(tokens, k)[..i]
    {
      out := out + [Join(tokens[i..i + k])];
      i := i + 1;
    }
    assert out == Shingles(tokens, k);
    return Ok(out);
  }

  // ------------------------------------------------------------------
  // Winnowing
  // ------------------------------------------------------------------

  /** One recorded fingerprint: a shingle hash and its shingle index. */
  datatype Fp = Fp(hash: int, pos: nat)

  function Unsigned(hashes: seq<int>): (u: seq<int>) {
    seq(|hashes|, i requires 0 <= i < |hashes| => AsUint64(hashes[i]))
  }

  /** m is the rightmost minimum of u[start..end]. */
  ghost predicate IsRightmostMin(u: seq<int>, start: int, end: int, m: int) {
    && 0 <= start <= m < end <= |u|
    && (forall i :: start <= i < end ==> u[m] <= u[i])
    && (forall i :: m < i < end ==> u[m] < u[i])
  }

  /** m is the rightmost minimum of the window of w hashes that starts at s. */
  ghost predicate WindowMin(u: seq<int>, w: nat, s: int, m: int) {
    IsRightmostMin(u, s, s + w, m)
  }

  /** Position m is the rightmost minimum of some full window (or of the
      whole sequence, when that is shorter than a window). */
  ghost predicate Recorded(u: seq<int>, w: nat, m: int) {
    if |u| < w then IsRightmostMin(u, 0, |u|, m)
    else exists s :: 0 <= s <= |u| - w && WindowMin(u, w, s, m)
  }

  ghost predicate Ascending(out: seq<Fp>) {
    forall i, j :: 0 <= i < j < |out| ==> out[i].pos < out[j].pos
  }

  ghost predicate RecordsAt(out: seq<Fp>, m: int) {
    exists i :: 0 <= i < |out| && out[i].pos == m
  }

  /** The winnowing of a hash sequence: exactly the recorded positions, in
      ascending order, each with its hash. */
  ghost predicate IsWinnowing(hashes: seq<int>, w: nat, out: seq<Fp>) {
    && Ascending(out)
    && (forall i :: 0 <= i < |out| ==> out[i].pos < |hashes| && out[i].hash == hashes[out[i].pos])
    && (forall m :: RecordsAt(out, m) <==> Recorded(Unsigned(hashes), w, m))
  }

  method MinIndexIn(u: seq<int>, start: nat, end: nat) returns (m: nat)
    requires start < end <= |u|
    ensures IsRightmostMin(u, start, end, m)
  {
    m := start;
    for i := start + 1 to end
      invariant IsRightmostMin(u, start, i, m)
    {
      if u[i] <= u[m] {
        m := i;
      }
    }
  }

  lemma RightmostMinUnique(u: seq<int>, start: int, end: int, m: int, n: int)
    requires IsRightmostMin(u, start, end, m) && IsRightmostMin(u, start, end, n)
    ensures m == n
  {
    assert u[m] <= u[n] <= u[m];
  }

  lemma {:induction false} RightmostMinExists(u: seq<int>, start: int, end: int) returns (m: int)
    requires 0 <= start < end <= |u|
    ensures IsRightmostMin(u, start, end, m)
    decreases end
  {
    if end == start + 1 {
      m := start;
    } else {
      m := RightmostMinExists(u, start, end - 1);
      if u[end - 1] <= u[m] {
        m := end - 1;
      }
    }
  }

  /** Later windows never pick an earlier position. */
  lemma WindowMinMonotone(u: seq<int>, w: nat, s: int, t: int, m: int, n: int)
    requires s <= t
    requires WindowMin(u, w, s, m) && WindowMin(u, w, t, n)
    ensures m <= n
  {
    if n < s + w {
      assert u[m] <= u[n];
      if t <= m {
        assert u[n] <= u[m];
      }
    }
  }

  /** A later minimum belongs to a later window. */
  lemma LaterMinLaterWindow(u: seq<int>, w: nat, s: int, t: int, m: int, n: int)
    requires WindowMin(u, w, s, m) && WindowMin(u, w, t, n) && m < n
    ensures s < t
  {
    if t <= s {
      WindowMinMonotone(u, w, t, s, n, m);
    }
  }

  method Winnow(hashes: seq<int>, w: int) returns (r: Result<seq<Fp>, BadParameter>)
    ensures w < 1 ==> r == Err(WBelowOne)
    ensures w >= 1 ==> r.Ok? && IsWinnowing(hashes, w, r.value)
  {
    if w < 1 {
      return Err(WBelowOne);
    }
    var n := |hashes|;
    if n == 0 {
      return Ok([]);
    }
    var u := Unsigned(hashes);
    if n < w {
      var m := MinIndexIn(u, 0, n);
      var single := [Fp(hashes[m], m)];
      forall p ensures RecordsAt(single, p) <==> Recorded(u, w, p) {
        assert single[0].pos == m;
        if Recorded(u, w, p) {
          RightmostMinUnique(u, 0, n, m, p);
        }
      }
      return Ok(single);
    }
    var out: seq<Fp> := [];
    var prevMin: int := -1;
    var start := 0;
    while start + w <= n
      invariant 0 <= start <= n - w + 1
      invariant Ascending(out)
      invariant forall i :: 0 <= i < |out| ==> out[i].pos < n && out[i].hash == hashes[out[i].pos]
      invariant start == 0 ==> out == [] && prevMin == -1
      invariant start > 0 ==> WindowMin(u, w, start - 1, prevMin)
                              && |out| > 0 && out[|out| - 1].pos == prevMin
      invariant forall m :: RecordsAt(out, m) <==> exists s :: 0 <= s < start && WindowMin(u, w, s, m)
    {
      var m := MinIndexIn(u, start, start + w);
      assert WindowMin(u, w, start, m);
      ghost var before := out;
      if start > 0 {
        WindowMinMonotone(u, w, start - 1, start, prevMin, m);
      }
      if m != prevMin {
        out := out + [Fp(hashes[m], m)];
        prevMin := m;
        assert Ascending(out) by {
          assert forall i :: 0 <= i < |before| ==> before[i].pos <= before[|before| - 1].pos;
        }
      }
      forall p ensures RecordsAt(out, p) <==> exists s :: 0 <= s < start + 1 && WindowMin(u, w, s, p) {
        assert RecordsAt(out, p) <==> RecordsAt(before, p) || p == m by {
          assert forall i :: 0 <= i < |before| ==> out[i] == before[i];
          assert out[|out| - 1].pos == m;
        }
        if WindowMin(u, w, start, p) {
          RightmostMinUnique(u, start, start + w, m, p);
        }
      }
      start := start + 1;
    }
    forall m ensures RecordsAt(out, m) <==> Recorded(u, w, m) {
    }
    return Ok(out);
  }

  /** The winnowing of a hash sequence is unique. */
  lemma WinnowingUnique(hashes: seq<int>, w: nat, a: seq<Fp>, b: seq<Fp>)
    requires IsWinnowing(hashes, w, a) && IsWinnowing(hashes, w, b)
    ensures a == b
  {
    assert forall m :: RecordsAt(a, m) <==> RecordsAt(b, m);
    SamePositions(a, b, |a|);
    SamePositions(b, a, |b|);
  }

  lemma {:induction false} SamePositions(a: seq<Fp>, b: seq<Fp>, n: nat)
    requires Ascending(a) && Ascending(b)
    requires forall m :: RecordsAt(a, m) <==> RecordsAt(b, m)
    requires n <= |a|
    ensures n <= |b|
    ensures forall i :: 0 <= i < n ==> a[i].pos == b[i].pos
  {
    if n > 0 {
      SamePositions(a, b, n - 1);
      assert RecordsAt(a, a[n - 1].pos);
      var j :| 0 <= j < |b| && b[j].pos == a[n - 1].pos;
      assert RecordsAt(b, b[n - 1].pos);
      var i :| 0 <= i < |a| && a[i].pos == b[n - 1].pos;
    }
  }

  // ------------------------------------------------------------------
  // Shape of a winnowing
  // ------------------------------------------------------------------

  /** Recorded positions start inside the first window, end inside the last,
      leave no gap wider than a window, and their number is between one per
      disjoint window and one per window. */
  lemma WinnowShape(hashes: seq<int>, w: nat, out: seq<Fp>)
    requires w >= 1 && |hashes| >= w && IsWinnowing(hashes, w, out)
    ensures |out| > 0 && out[0].pos < w && out[|out| - 1].pos >= |hashes| - w
    ensures forall i :: 0 <= i < |out| - 1 ==> out[i].pos < out[i + 1].pos <= out[i].pos + w
    ensures |hashes| / w <= |out| <= |hashes| - w + 1
  {
    var u, n := Unsigned(hashes), |hashes|;
    var first := RecordedInWindow(hashes, w, out, 0);
    var final := RecordedInWindow(hashes, w, out, n - w);
    forall i | 0 <= i < |out| - 1
      ensures out[i].pos < out[i + 1].pos <= out[i].pos + w
    {
      if out[i + 1].pos > out[i].pos + w {
        var j := RecordedInWindow(hashes, w, out, out[i].pos + 1);
        assert false;
      }
    }
    BoundedGaps(out, w, |out| - 1);
    FloorBound(n, w, |out|);
    var s := WindowIndex(hashes, w, out, |out| - 1);
  }

  lemma RecordedInWindow(hashes: seq<int>, w: nat, out: seq<Fp>, s: nat) returns (i: nat)
    requires w >= 1 && s + w <= |hashes| && IsWinnowing(hashes, w, out)
    ensures i < |out| && s <= out[i].pos < s + w
    ensures WindowMin(Unsigned(hashes), w, s, out[i].pos)
  {
    var u := Unsigned(hashes);
    var m := RightmostMinExists(u, s, s + w);
    assert WindowMin(u, w, s, m);
    assert Recorded(u, w, m);
    assert RecordsAt(out, m);
    i :| 0 <= i < |out| && out[i].pos == m;
  }

  lemma {:induction false} BoundedGaps(out: seq<Fp>, w: nat, i: nat)
    requires i < |out| && out[0].pos < w
    requires forall j :: 0 <= j < |out| - 1 ==> out[j + 1].pos <= out[j].pos + w
    ensures out[i].pos < (i + 1) * w
  {
    if i > 0 {
      BoundedGaps(out, w, i - 1);
    }
  }

  lemma {:induction false} FloorBound(n: nat, w: nat, c: nat)
    requires w >= 1 && n - w < c * w
    ensures n / w <= c
  {
    var q := n / w;
    assert q * w <= n < (c + 1) * w;
  }

  /** The i-th recorded position is the minimum of a window that starts at i or later. */
  lemma {:induction false} WindowIndex(hashes: seq<int>, w: nat, out: seq<Fp>, i: nat) returns (s: nat)
    requires w >= 1 && |hashes| >= w && IsWinnowing(hashes, w, out) && i < |out|
    ensures i <= s <= |hashes| - w && WindowMin(Unsigned(hashes), w, s, out[i].pos)
  {
    var u := Unsigned(hashes);
    assert RecordsAt(out, out[i].pos);
    s :| 0 <= s <= |u| - w && WindowMin(u, w, s, out[i].pos);
    if i > 0 {
      var t := WindowIndex(hashes, w, out, i - 1);
      LaterMinLaterWindow(u, w, t, s, out[i - 1].pos, out[i].pos);
    }
  }

  // ------------------------------------------------------------------
  // The whole pipeline and the winnowing guarantee
  // ------------------------------------------------------------------

  function ShingleHashes(tokens: seq<string>, k: nat, hash: string -> int): (h: seq<int>)
    requires k >= 1
  {
    var shingles := Shingles(tokens, k);
    seq(|shingles|, i requires 0 <= i < |shingles| => hash(shingles[i]))
  }

  ghost predicate IsFingerprint(tokens: seq<string>, k: nat, w: nat, hash: string -> int, fp: seq<Fp>)
    requires k >= 1
  {
    IsWinnowing(ShingleHashes(tokens, k, hash), w, fp)
  }

  datatype FingerprintResult = FingerprintResult(fingerprints: seq<Fp>, shingleCount: nat, tokenCount: nat)

  method FingerprintTokens(tokens: seq<string>, k: int, w: int, hash: string -> int)
    returns (r: Result<FingerprintResult, BadParameter>)
    ensures r.Ok? <==> k >= 1 && w >= 1
    ensures r.Err? ==> r.error == if k < 1 then KBelowOne else WBelowOne
    ensures r.Ok? ==> IsFingerprint(tokens, k, w, hash, r.value.fingerprints)
    ensures r.Ok? ==> r.value.shingleCount == |Shingles(tokens, k)| && r.value.tokenCount == |tokens|
  {
    var shingles := ShinglesOf(tokens, k);
    if shingles.Err? {
      return Err(shingles.error);
    }
    var hashes := seq(|shingles.value|, i requires 0 <= i < |shingles.value| => hash(shingles.value[i]));
    assert hashes == ShingleHashes(tokens, k, hash);
    var fp := Winnow(hashes, w);
    if fp.Err? {
      return Err(fp.error);
    }
    return Ok(FingerprintResult(fp.value, |shingles.value|, |tokens|));
  }

  function HashSet(fp: seq<Fp>): set<int> {
    set i | 0 <= i < |fp| :: fp[i].hash
  }

  lemma SliceOfSlice<T>(a: seq<T>, i: nat, len: nat, d: nat, k: nat)
    requires i + len <= |a| && d + k <= len
    ensures a[i..i + len][d..d + k] == a[i + d..i + d + k]
  {
    var outer, inner := a[i..i + len][d..d + k], a[i + d..i + d + k];
    assert |outer| == |inner|;
    forall x | 0 <= x < k
      ensures outer[x] == inner[x]
    {
    }
  }

  /** A shared run of tokens is a shared run of shingle hashes. */
  lemma SharedHashes(a: seq<string>, b: seq<string>, i: nat, j: nat, len: nat, k: nat, hash: string -> int, d: nat)
    requires k >= 1 && i + len <= |a| && j + len <= |b|
    requires a[i..i + len] == b[j..j + len]
    requires d + k <= len
    ensures |ShingleHashes(a, k, hash)| == |a| - k + 1 && |ShingleHashes(b, k, hash)| == |b| - k + 1
    ensures ShingleHashes(a, k, hash)[i + d] == ShingleHashes(b, k, hash)[j + d]
  {
    SliceOfSlice(a, i, len, d, k);
    SliceOfSlice(b, j, len, d, k);
  }

  /** Equal windows at different offsets have their minimum at the same place. */
  lemma RightmostMinShift(u: seq<int>, v: seq<int>, i: int, j: int, w: nat, m: int)
    requires 0 <= i <= |u| - w && 0 <= j <= |v| - w
    requires u[i..i + w] == v[j..j + w]
    requires WindowMin(u, w, i, m)
    ensures WindowMin(v, w, j, m - i + j)
  {
    var n := m - i + j;
    forall x | j <= x < j + w
      ensures v[x] == u[x - j + i]
    {
      assert v[x] == v[j..j + w][x - j] == u[i..i + w][x - j];
    }
  }

  /** The minimum of a full window is recorded, with its hash. */
  lemma RecordedMin(hashes: seq<int>, w: nat, out: seq<Fp>, s: nat, m: int) returns (i: nat)
    requires w >= 1 && IsWinnowing(hashes, w, out) && WindowMin(Unsigned(hashes), w, s, m)
    ensures i < |out| && out[i] == Fp(hashes[m], m)
  {
    assert Recorded(Unsigned(hashes), w, m);
    assert RecordsAt(out, m);
    i :| 0 <= i < |out| && out[i].pos == m;
  }

  /** Equal windows of hashes, wherever they start, record the same hash. */
  lemma EqualWindows(ha: seq<int>, hb: seq<int>, i: nat, j: nat, w: nat, fa: seq<Fp>, fb: seq<Fp>)
    returns (x: nat, y: nat)
    requires w >= 1 && i + w <= |ha| && j + w <= |hb| && ha[i..i + w] == hb[j..j + w]
    requires IsWinnowing(ha, w, fa) && IsWinnowing(hb, w, fb)
    ensures x < |fa| && y < |fb| && fa[x].hash == fb[y].hash
    ensures WindowMin(Unsigned(ha), w, i, fa[x].pos)
  {
    hide IsWinnowing;
    x := RecordedInWindow(ha, w, fa, i);
    var m := fa[x].pos;
    var z := RecordedMin(ha, w, fa, i, m);
    UnsignedSlice(ha, hb, i, j, w);
    RightmostMinShift(Unsigned(ha), Unsigned(hb), i, j, w, m);
    y := RecordedMin(hb, w, fb, j, m - i + j);
    assert ha[m] == ha[i..i + w][m - i] == hb[j..j + w][m - i] == hb[m - i + j];
    x := z;
  }

  lemma UnsignedSlice(ha: seq<int>, hb: seq<int>, i: nat, j: nat, w: nat)
    requires i + w <= |ha| && j + w <= |hb| && ha[i..i + w] == hb[j..j + w]
    ensures Unsigned(ha)[i..i + w] == Unsigned(hb)[j..j + w]
  {
    hide AsUint64;
    var u, v := Unsigned(ha)[i..i + w], Unsigned(hb)[j..j + w];
    forall x | 0 <= x < w
      ensures u[x] == v[x]
    {
      assert ha[i..i + w][x] == hb[j..j + w][x];
    }
  }

  /** A full window of hashes that occurs in both documents is recorded in both. */
  lemma SharedWindow(a: seq<string>, b: seq<string>, i: nat, j: nat, len: nat, k: nat, w: nat, hash: string -> int,
                     fa: seq<Fp>, fb: seq<Fp>)
    returns (x: nat, y: nat)
    requires k >= 1 && w >= 1 && len >= w + k - 1
    requires i + len <= |a| && j + len <= |b| && a[i..i + len] == b[j..j + len]
    requires IsFingerprint(a, k, w, hash, fa) && IsFingerprint(b, k, w, hash, fb)
    ensures x < |fa| && y < |fb| && fa[x].hash == fb[y].hash
    ensures WindowMin(Unsigned(ShingleHashes(a, k, hash)), w, i, fa[x].pos)
  {
    hide IsWinnowing, ShingleHashes, WindowMin;
    var ha, hb := ShingleHashes(a, k, hash), ShingleHashes(b, k, hash);
    SharedHashes(a, b, i, j, len, k, hash, 0);
    var u, v := ha[i..i + w], hb[j..j + w];
    forall d | 0 <= d < w
      ensures u[d] == v[d]
    {
      SharedHashes(a, b, i, j, len, k, hash, d);
    }
    x, y := EqualWindows(ha, hb, i, j, w, fa, fb);
  }

  // ------------------------------------------------------------------
  // Similarity
  // ------------------------------------------------------------------

  /** Fraction of a that is present in b; an empty a is never contained. */
  function Fraction(a: set<int>, b: set<int>): real {
    if |a| == 0 then 0.0 else |a * b| as real / |a| as real
  }

  method ToHashSet(fp: seq<Fp>) returns (s: set<int>)
    ensures s == HashSet(fp)
  {
    s := {};
    for i := 0 to |fp|
      invariant s == HashSet(fp[..i])
    {
      assert HashSet(fp[..i + 1]) == HashSet(fp[..i]) + {fp[i].hash} by {
        assert forall x :: 0 <= x < i ==> fp[..i + 1][x] == fp[..i][x];
        assert fp[..i + 1][i] == fp[i];
      }
      s := s + {fp[i].hash};
    }
    assert fp[..|fp|] == fp;
  }

  method IntersectionSize(a: set<int>, b: set<int>) returns (n: nat)
    ensures n == |a * b|
  {
    var small := if |a| <= |b| then a else b;
    var large := if |a| <= |b| then b else a;
    assert small * large == a * b;
    n := 0;
    var rest := small;
    while rest != {}
      invariant rest <= small
      invariant n == |(small - rest) * large|
      decreases rest
    {
      var h := Choose(rest);
      ghost var seen := (small - rest) * large;
      if h in large {
        n := n + 1;
        assert (small - (rest - {h})) * large == seen + {h};
      } else {
        assert (small - (rest - {h})) * large == seen;
      }
      rest := rest - {h};
    }
    assert (small - rest) * large == a * b;
  }

  method Containment(setA: seq<Fp>, setB: seq<Fp>) returns (c: real)
    ensures c == Fraction(HashSet(setA), HashSet(setB))
  {
    var a := ToHashSet(setA);
    var b := ToHashSet(setB);
    if |a| == 0 {
      return 0.0;
    }
    var n := IntersectionSize(a, b);
    return n as real / |a| as real;
  }

  method Similarity(fpA: seq<Fp>, fpB: seq<Fp>) returns (containment: real, coverage: real)
    ensures containment == Fraction(HashSet(fpA), HashSet(fpB))
    ensures coverage == Fraction(HashSet(fpB), HashSet(fpA))
  {
    var a := ToHashSet(fpA);
    var b := ToHashSet(fpB);
    var inter := IntersectionSize(a, b);
    assert a * b == b * a;
    containment := if |a| == 0 then 0.0 else inter as real / |a| as real;
    coverage := if |b| == 0 then 0.0 else inter as real / |b| as real;
  }

  lemma FractionPositive(a: set<int>, b: set<int>, x: int)
    requires x in a && x in b
    ensures 0.0 < Fraction(a, b) <= 1.0
  {
    assert x in a * b;
    assert |a * b| > 0;
    CardinalityMonotone(a * b, a);
    var p, q := |a * b| as real, |a| as real;
    assert p / q * q == p;
    assert 0.0 < p <= q;
  }

  lemma FractionFull(a: set<int>, b: set<int>, x: int)
    requires a <= b && x in a
    ensures Fraction(a, b) == 1.0
  {
    assert a * b == a;
    assert |a| > 0;
  }

  lemma {:induction false} CardinalityMonotone(a: set<int>, b: set<int>)
    requires a <= b
    ensures |a| <= |b|
  {
    assert b == a + (b - a);
  }

  /** Any shared run of at least w + k - 1 tokens is detected: both
      similarity measures are positive. */
  lemma {:induction false} SharedRunIsDetected(a: seq<string>, b: seq<string>, i: nat, j: nat, len: nat, k: nat, w: nat,
                            hash: string -> int, fa: seq<Fp>, fb: seq<Fp>)
    requires k >= 1 && w >= 1 && len >= w + k - 1
    requires i + len <= |a| && j + len <= |b| && a[i..i + len] == b[j..j + len]
    requires IsFingerprint(a, k, w, hash, fa) && IsFingerprint(b, k, w, hash, fb)
    ensures 0.0 < Fraction(HashSet(fa), HashSet(fb)) <= 1.0
    ensures 0.0 < Fraction(HashSet(fb), HashSet(fa)) <= 1.0
  {
    var x, y := SharedWindow(a, b, i, j, len, k, w, hash, fa, fb);
    assert fa[x].hash in HashSet(fa) && fb[y].hash in HashSet(fb);
    FractionPositive(HashSet(fa), HashSet(fb), fa[x].hash);
    FractionPositive(HashSet(fb), HashSet(fa), fa[x].hash);
  }

  /** Every hash recorded for a document is recorded wherever that document
      occurs whole. */
  lemma RecordedHashIsShared(a: seq<string>, b: seq<string>, j: nat, k: nat, w: nat, hash: string -> int,
                             fa: seq<Fp>, fb: seq<Fp>, z: nat)
    requires k >= 1 && w >= 1 && |a| >= w + k - 1
    requires j + |a| <= |b| && b[j..j + |a|] == a
    requires IsFingerprint(a, k, w, hash, fa) && IsFingerprint(b, k, w, hash, fb)
    requires z < |fa|
    ensures fa[z].hash in HashSet(fb)
  {
    var ha := ShingleHashes(a, k, hash);
    SharedHashes(a, b, 0, j, |a|, k, hash, 0);
    var s := WindowIndex(ha, w, fa, z);
    var len := w + k - 1;
    SliceOfSlice(b, j, |a|, s, len);
    var x, y := SharedWindow(a, b, s, j + s, len, k, w, hash, fa, fb);
    RightmostMinUnique(Unsigned(ha), s, s + w, fa[x].pos, fa[z].pos);
  }

  /** A document of at least w + k - 1 tokens that occurs whole inside another
      one is contained in it completely. */
  lemma {:induction false} WholeDocumentIsContained(a: seq<string>, b: seq<string>, j: nat, k: nat, w: nat,
                                 hash: string -> int, fa: seq<Fp>, fb: seq<Fp>)
    requires k >= 1 && w >= 1 && |a| >= w + k - 1
    requires j + |a| <= |b| && b[j..j + |a|] == a
    requires IsFingerprint(a, k, w, hash, fa) && IsFingerprint(b, k, w, hash, fb)
    ensures Fraction(HashSet(fa), HashSet(fb)) == 1.0
  {
    forall z | 0 <= z < |fa|
      ensures fa[z].hash in HashSet(fb)
    {
      RecordedHashIsShared(a, b, j, k, w, hash, fa, fb, z);
    }
    SharedHashes(a, b, 0, j, |a|, k, hash, 0);
    var x := RecordedInWindow(ShingleHashes(a, k, hash), w, fa, 0);
    FractionFull(HashSet(fa), HashSet(fb), fa[x].hash);
  }

  lemma {:induction false} JoinEndsWith(tokens: seq<string>)
    requires tokens != [] && |tokens[|tokens| - 1]| == 1
    ensures |Join(tokens)| > 0 && Join(tokens)[|Join(tokens)| - 1] == tokens[|tokens| - 1][0]
  {
    if |tokens| > 1 {
      JoinEndsWith(tokens[1..]);
      assert Join(tokens) == tokens[0] + " " + Join(tokens[1..]);
    }
  }

  /** A hash that looks at the last character only. */
  function LastCharHash(s: string): int {
    if s == "" then 2 else if s[|s| - 1] == 'a' then 0 else if s[|s| - 1] == 'b' then 1 else 2
  }

  /** A run of equal tokens and one more. */
  function RunThen(n: nat, last: string): (r: seq<string>)
    ensures |r| == n + 1
  {
    seq(n, _ => "s") + [last]
  }

  lemma RunThenHashes(k: nat, w: nat, last: string)
    requires k >= 1 && w >= 1 && last in {"a", "b"}
    ensures var h := ShingleHashes(RunThen(w + k - 2, last), k, LastCharHash);
            && |h| == w
            && h[w - 1] == (if last == "a" then 0 else 1)
            && forall i :: 0 <= i < w - 1 ==> h[i] == 2
  {
    var doc := RunThen(w + k - 2, last);
    var h := ShingleHashes(doc, k, LastCharHash);
    hide Join;
    assert |Shingles(doc, k)| == w;
    forall i | 0 <= i < w
      ensures h[i] == if i < w - 1 then 2 else if last == "a" then 0 else 1
    {
      var shingle := doc[i..i + k];
      assert shingle[k - 1] == doc[i + k - 1] == if i < w - 1 then "s" else last;
      JoinEndsWith(shingle);
      assert h[i] == LastCharHash(Join(shingle));
    }
  }

  /** A single window whose last hash is the smallest records just that one. */
  lemma LastIsRecorded(hashes: seq<int>, w: nat)
    requires w >= 1 && |hashes| == w && 0 <= hashes[w - 1] < 2
    requires forall i :: 0 <= i < w - 1 ==> hashes[i] == 2
    ensures IsWinnowing(hashes, w, [Fp(hashes[w - 1], w - 1)])
  {
    var u, out := Unsigned(hashes), [Fp(hashes[w - 1], w - 1)];
    assert out[0].pos == w - 1;
    assert WindowMin(u, w, 0, w - 1);
    forall m
      ensures RecordsAt(out, m) <==> Recorded(u, w, m)
    {
      if WindowMin(u, w, 0, m) {
        RightmostMinUnique(u, 0, w, w - 1, m);
      }
    }
  }

  /** The bound w + k - 1 cannot be lowered for any k and w: there are documents of w + k - 1
      tokens that share a run of w + k - 2, and a hash function under which they have no
      recorded hash in common. */
  lemma BoundIsTight(k: nat, w: nat)
    returns (a: seq<string>, b: seq<string>, hash: string -> int, fa: seq<Fp>, fb: seq<Fp>)
    requires k >= 1 && w >= 1
    ensures |a| == |b| == w + k - 1 && a[..w + k - 2] == b[..w + k - 2]
    ensures IsFingerprint(a, k, w, hash, fa) && IsFingerprint(b, k, w, hash, fb)
    ensures HashSet(fa) != {} && HashSet(fb) != {} && HashSet(fa) * HashSet(fb) == {}
    ensures Fraction(HashSet(fa), HashSet(fb)) == 0.0
  {
    var n := w + k - 2;
    a, b, hash := RunThen(n, "a"), RunThen(n, "b"), LastCharHash;
    fa, fb := [Fp(0, w - 1)], [Fp(1, w - 1)];
    RunThenHashes(k, w, "a");
    RunThenHashes(k, w, "b");
    hide ShingleHashes, IsWinnowing;
    LastIsRecorded(ShingleHashes(a, k, hash), w);
    LastIsRecorded(ShingleHashes(b, k, hash), w);
    SingleHash(Fp(0, w - 1));
    SingleHash(Fp(1, w - 1));
    assert {0} * {1} == {};
  }

  lemma SingleHash(f: Fp)
    ensures HashSet([f]) == {f.hash}
  {
    assert [f][0] == f;
  }
}
