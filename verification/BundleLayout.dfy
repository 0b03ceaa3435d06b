/** Where everything stands in a bundle, in offsets and literal bytes, and in which order. */
module BundleLayout {
  import opened BundleFormat
  import opened IndexBundle
  import opened LittleEndian
  import opened Widths
  import opened Wrappers
  import BundleTheorems
  import KeySort

  /** The number written at an offset, least significant byte first, is v. */
  ghost predicate Holds(b: Bytes, at: nat, n: nat, v: nat) {
    at + n <= |b| && Value(b[at..at + n]) == v
  }

  lemma LeHolds(x: Bytes, v: nat, n: nat, y: Bytes)
    requires v < Pow256(n)
    ensures Holds(x + Le(v, n) + y, |x|, n, v)
  {
    assert (x + Le(v, n) + y)[|x|..|x| + n] == Le(v, n);
    ReadWritten(v, n);
  }

  // ------------------------------------------------------------------
  // Entries
  // ------------------------------------------------------------------

  lemma {:induction false} IdmSectionAt(es: seq<IdmEntry>, i: nat)
    requires i < |es| && forall j :: 0 <= j < |es| ==> IdmFits(es[j])
    ensures |IdmSection(es)| == 12 * |es|
    ensures IdmSection(es)[12 * i..12 * i + 12] == IdmBytes(es[i])
  {
    hide IdmBytes;
    IdmSectionLength(es);
    var front := es[..|es| - 1];
    IdmSectionLength(front);
    if i < |front| {
      IdmSectionAt(front, i);
      assert IdmSection(es)[12 * i..12 * i + 12] == IdmSection(front)[12 * i..12 * i + 12];
    }
  }

  lemma {:induction false} IdmSectionLength(es: seq<IdmEntry>)
    requires forall j :: 0 <= j < |es| ==> IdmFits(es[j])
    ensures |IdmSection(es)| == 12 * |es|
    ensures es != [] ==> |IdmBytes(es[|es| - 1])| == 12
  {
    hide Le;
    if es != [] {
      IdmSectionLength(es[..|es| - 1]);
    }
  }

  lemma {:induction false} EdmSectionAt(es: seq<EdmEntry>, i: nat)
    requires i < |es| && forall j :: 0 <= j < |es| ==> EdmFits(es[j])
    ensures |EdmSection(es)| == 16 * |es|
    ensures EdmSection(es)[16 * i..16 * i + 16] == EdmBytes(es[i])
  {
    hide EdmBytes;
    EdmSectionLength(es);
    var front := es[..|es| - 1];
    EdmSectionLength(front);
    if i < |front| {
      EdmSectionAt(front, i);
      assert EdmSection(es)[16 * i..16 * i + 16] == EdmSection(front)[16 * i..16 * i + 16];
    }
  }

  lemma {:induction false} EdmSectionLength(es: seq<EdmEntry>)
    requires forall j :: 0 <= j < |es| ==> EdmFits(es[j])
    ensures |EdmSection(es)| == 16 * |es|
    ensures es != [] ==> |EdmBytes(es[|es| - 1])| == 16
  {
    hide Le;
    if es != [] {
      EdmSectionLength(es[..|es| - 1]);
    }
  }

  // ------------------------------------------------------------------
  // The signed part
  // ------------------------------------------------------------------

  /** Where the idm section starts. */
  function IdmStart(w: Body): nat {
    19 + |w.headerJson| + |w.bloom.bits|
  }

  function EdmStart(w: Body): nat {
    IdmStart(w) + 4 + 12 * |w.idm|
  }

  /** The magic, version 1, the header behind its length, the two filter numbers and the filter. */
  lemma Front(w: Body)
    requires BodyFits(w)
    ensures var b, h := Unsigned(w), |w.headerJson|;
            && |b| == EdmStart(w) + 4 + 16 * |w.edm|
            && b[..7] == ['D' as int, 'L' as int, 'P' as int, 'X' as int, '1' as int, 1, 0]
            && Holds(b, 7, 4, h) && b[11..11 + h] == w.headerJson
            && Holds(b, 11 + h, 4, w.bloom.mBits) && Holds(b, 15 + h, 4, w.bloom.kHashes)
            && b[19 + h..IdmStart(w)] == w.bloom.bits
  {
    hide Le, Value, Unsigned, IdmSection, EdmSection;
    Pow256Values();
    IdmSectionLength(w.idm);
    EdmSectionLength(w.edm);
    VersionBytes();
    var x, y := SplitBody(w);
    var head, h := MAGIC + Le(FORMAT_VERSION, 2), |w.headerJson|;
    var l, m, k := Le(h, 4), Le(w.bloom.mBits, 4), Le(w.bloom.kHashes, 4);
    var tail := Le(|w.idm|, 4) + (IdmSection(w.idm) + Le(|w.edm|, 4) + EdmSection(w.edm));
    assert x == head + l + w.headerJson + (m + k + w.bloom.bits);
    FrontSlices(Unsigned(w), x, tail, head, l, w.headerJson, m, k, w.bloom.bits);
    ReadWritten(h, 4);
    ReadWritten(w.bloom.mBits, 4);
    ReadWritten(w.bloom.kHashes, 4);
  }

  lemma FrontSlices(b: Bytes, x: Bytes, tail: Bytes, head: Bytes, l: Bytes, json: Bytes,
                    m: Bytes, k: Bytes, bits: Bytes)
    requires b == x + tail && x == head + l + json + (m + k + bits)
    requires |head| == 7 && |l| == |m| == |k| == 4
    ensures var h := |json|;
            && |x| == 19 + h + |bits|
            && b[..7] == head && b[7..11] == l && b[11..11 + h] == json
            && b[11 + h..15 + h] == m && b[15 + h..19 + h] == k && b[19 + h..19 + h + |bits|] == bits
  {
    var h := |json|;
    assert x[..7] == head && x[7..11] == l && x[11..11 + h] == json;
    assert x[11 + h..] == m + k + bits;
    assert x[11 + h..15 + h] == m && x[15 + h..19 + h] == k && x[19 + h..] == bits;
    assert b[..|x|] == x;
  }

  lemma VersionBytes()
    ensures MAGIC + Le(FORMAT_VERSION, 2) == ['D' as int, 'L' as int, 'P' as int, 'X' as int, '1' as int, 1, 0]
  {
    assert Le(1, 2) == [1] + Le(0, 1);
    assert Le(0, 1) == [0] + Le(0, 0);
  }

  lemma SplitBody(w: Body) returns (x: Bytes, y: Bytes)
    requires BodyFits(w)
    ensures |x| == IdmStart(w) && |y| == EdmStart(w)
    ensures x == MAGIC + Le(FORMAT_VERSION, 2) + Le(|w.headerJson|, 4) + w.headerJson + BloomBytes(w.bloom)
    ensures Unsigned(w) == x + Le(|w.idm|, 4) + (IdmSection(w.idm) + Le(|w.edm|, 4) + EdmSection(w.edm))
    ensures Unsigned(w) == y + Le(|w.edm|, 4) + EdmSection(w.edm)
    ensures y == x + Le(|w.idm|, 4) + IdmSection(w.idm)
  {
    hide Le, IdmSection, EdmSection;
    IdmSectionLength(w.idm);
    x := MAGIC + Le(FORMAT_VERSION, 2) + Le(|w.headerJson|, 4) + w.headerJson + BloomBytes(w.bloom);
    y := x + Le(|w.idm|, 4) + IdmSection(w.idm);
  }

  lemma SliceInside(b: Bytes, x: Bytes, s: Bytes, y: Bytes, from: nat, to: nat)
    requires b == x + s + y && from <= to <= |s|
    ensures b[|x| + from..|x| + to] == s[from..to]
  {
    forall i | 0 <= i < to - from
      ensures b[|x| + from..|x| + to][i] == s[from..to][i]
    {
      assert b[|x| + from + i] == s[from + i];
    }
  }

  /** The counts of both sections. */
  lemma SectionCounts(w: Body)
    requires BodyFits(w)
    ensures Holds(Unsigned(w), IdmStart(w), 4, |w.idm|) && Holds(Unsigned(w), EdmStart(w), 4, |w.edm|)
  {
    hide Le, Value, IdmSection, EdmSection, Unsigned, Holds;
    Pow256Values();
    var x, y := SplitBody(w);
    LeHolds(x, |w.idm|, 4, IdmSection(w.idm) + Le(|w.edm|, 4) + EdmSection(w.edm));
    LeHolds(y, |w.edm|, 4, EdmSection(w.edm));
  }

  lemma HoldsInside(b: Bytes, at: nat, s: Bytes, from: nat, n: nat, v: nat)
    requires at + |s| <= |b| && b[at..at + |s|] == s && Holds(s, from, n, v)
    ensures Holds(b, at + from, n, v)
  {
    assert b == b[..at] + s + b[at + |s|..];
    SliceInside(b, b[..at], s, b[at + |s|..], from, from + n);
  }

  /** Document entry i: its hash as unsigned 64 bits and its index. */
  lemma IdmEntryAt(w: Body, i: nat)
    requires BodyFits(w) && i < |w.idm|
    ensures var b, at := Unsigned(w), IdmStart(w) + 4 + 12 * i;
            && Holds(b, at, 8, AsUint64(w.idm[i].hash)) && Holds(b, at + 8, 4, w.idm[i].docIndex)
  {
    hide Le, Value, IdmSection, EdmSection, Unsigned, Holds, AsUint64;
    Pow256Values();
    var x, y := SplitBody(w);
    IdmSectionAt(w.idm, i);
    IdmSectionLength(w.idm);
    var e, s := w.idm[i], IdmSection(w.idm);
    assert Unsigned(w) == (x + Le(|w.idm|, 4)) + s + (Le(|w.edm|, 4) + EdmSection(w.edm));
    SliceInside(Unsigned(w), x + Le(|w.idm|, 4), s, Le(|w.edm|, 4) + EdmSection(w.edm), 12 * i, 12 * i + 12);
    var bytes := IdmBytes(e);
    FitsEight(e.hash);
    LeHolds([], AsUint64(e.hash), 8, Le(e.docIndex, 4));
    assert bytes == [] + Le(AsUint64(e.hash), 8) + Le(e.docIndex, 4);
    LeHolds(Le(AsUint64(e.hash), 8), e.docIndex, 4, []);
    assert bytes == Le(AsUint64(e.hash), 8) + Le(e.docIndex, 4) + [];
    var at := IdmStart(w) + 4 + 12 * i;
    HoldsInside(Unsigned(w), at, bytes, 0, 8, AsUint64(e.hash));
    HoldsInside(Unsigned(w), at, bytes, 8, 4, e.docIndex);
  }

  lemma FitsEight(h: int)
    ensures AsUint64(h) < Pow256(8)
  {
    Pow256Values();
  }

  /** Structured entry i: hash, source, row and field. */
  lemma EdmEntryAt(w: Body, i: nat)
    requires BodyFits(w) && i < |w.edm|
    ensures var b, at, e := Unsigned(w), EdmStart(w) + 4 + 16 * i, w.edm[i];
            && Holds(b, at, 8, AsUint64(e.hash)) && Holds(b, at + 8, 2, e.sourceIndex)
            && Holds(b, at + 10, 4, e.rowId) && Holds(b, at + 14, 2, e.fieldId)
  {
    hide Le, Value, IdmSection, EdmSection, Unsigned, Holds, AsUint64;
    Pow256Values();
    var x, y := SplitBody(w);
    EdmSectionAt(w.edm, i);
    var e, s := w.edm[i], EdmSection(w.edm);
    assert Unsigned(w) == (y + Le(|w.edm|, 4)) + s + [];
    SliceInside(Unsigned(w), y + Le(|w.edm|, 4), s, [], 16 * i, 16 * i + 16);
    var bytes, at := EdmBytes(e), EdmStart(w) + 4 + 16 * i;
    FitsEight(e.hash);
    var h, d, r, f := Le(AsUint64(e.hash), 8), Le(e.sourceIndex, 2), Le(e.rowId, 4), Le(e.fieldId, 2);
    EdmNumbers(e, h, d, r, f);
    HoldsInside(Unsigned(w), at, bytes, 0, 8, AsUint64(e.hash));
    HoldsInside(Unsigned(w), at, bytes, 8, 2, e.sourceIndex);
    HoldsInside(Unsigned(w), at, bytes, 10, 4, e.rowId);
    HoldsInside(Unsigned(w), at, bytes, 14, 2, e.fieldId);
  }

  lemma EdmNumbers(e: EdmEntry, h: Bytes, d: Bytes, r: Bytes, f: Bytes)
    requires EdmFits(e) && h == Le(AsUint64(e.hash), 8)
    requires d == Le(e.sourceIndex, 2) && r == Le(e.rowId, 4) && f == Le(e.fieldId, 2)
    ensures var bytes := EdmBytes(e);
            && |bytes| == 16
            && Holds(bytes, 0, 8, AsUint64(e.hash)) && Holds(bytes, 8, 2, e.sourceIndex)
            && Holds(bytes, 10, 4, e.rowId) && Holds(bytes, 14, 2, e.fieldId)
  {
    hide Le, Value, Holds, AsUint64;
    Pow256Values();
    FitsEight(e.hash);
    var bytes := EdmBytes(e);
    assert bytes == h + d + r + f;
    LeHolds([], AsUint64(e.hash), 8, d + r + f);
    assert bytes == [] + h + (d + r + f);
    LeHolds(h, e.sourceIndex, 2, r + f);
    assert bytes == h + d + (r + f);
    LeHolds(h + d, e.rowId, 4, f);
    LeHolds(h + d + r, e.fieldId, 2, []);
    assert bytes == h + d + r + f + [];
  }

  // ------------------------------------------------------------------
  // The order of the sections
  // ------------------------------------------------------------------

  lemma NotLessPairs(a: KeySort.Key, b: KeySort.Key)
    requires |a| == |b| == 2 && !KeySort.Less(b, a)
    ensures a[0] < b[0] || (a[0] == b[0] && a[1] <= b[1])
  {
    KeySort.LessMeans(b, a);
    assert a[..0] == b[..0];
    assert a[0] == b[0] ==> a[..1] == b[..1];
  }

  lemma NotLessQuads(a: KeySort.Key, b: KeySort.Key)
    requires |a| == |b| == 4 && !KeySort.Less(b, a)
    ensures a[0] < b[0] || (a[0] == b[0] && (a[1] < b[1] || (a[1] == b[1]
            && (a[2] < b[2] || (a[2] == b[2] && a[3] <= b[3])))))
  {
    KeySort.LessMeans(b, a);
    assert a[..0] == b[..0];
    assert a[0] == b[0] ==> a[..1] == b[..1];
    assert a[0] == b[0] && a[1] == b[1] ==> a[..2] == b[..2];
    assert a[0] == b[0] && a[1] == b[1] && a[2] == b[2] ==> a[..3] == b[..3];
  }

  /** Documents are sorted by unsigned hash, then by document index. */
  lemma IdmOrder(d: Data, i: nat, j: nat)
    requires i < j < |SortedIdm(d)|
    ensures var a, b := SortedIdm(d)[i], SortedIdm(d)[j];
            AsUint64(a.hash) < AsUint64(b.hash) || (AsUint64(a.hash) == AsUint64(b.hash) && a.docIndex <= b.docIndex)
  {
    var sorted := SortedIdm(d);
    KeySort.SortByAscends(d.idmEntries, IdmKey);
    hide KeySort.SortBy, KeySort.Ascending, KeySort.Keys, KeySort.Less;
    KeySort.KeysAt(sorted, IdmKey, i);
    KeySort.KeysAt(sorted, IdmKey, j);
    KeySort.AscendingPairs(KeySort.Keys(sorted, IdmKey), i, j);
    NotLessPairs(IdmKey(sorted[i]), IdmKey(sorted[j]));
  }

  /** Structured entries by unsigned hash, then source, row and field. */
  lemma EdmOrder(d: Data, i: nat, j: nat)
    requires i < j < |SortedEdm(d)|
    ensures var a, b := SortedEdm(d)[i], SortedEdm(d)[j];
            var g, h := AsUint64(a.hash), AsUint64(b.hash);
            g < h || (g == h && (a.sourceIndex < b.sourceIndex || (a.sourceIndex == b.sourceIndex
            && (a.rowId < b.rowId || (a.rowId == b.rowId && a.fieldId <= b.fieldId)))))
  {
    var sorted := SortedEdm(d);
    KeySort.SortByAscends(d.edmEntries, EdmKey);
    hide KeySort.SortBy, KeySort.Ascending, KeySort.Keys, KeySort.Less;
    KeySort.KeysAt(sorted, EdmKey, i);
    KeySort.KeysAt(sorted, EdmKey, j);
    KeySort.AscendingPairs(KeySort.Keys(sorted, EdmKey), i, j);
    NotLessQuads(EdmKey(sorted[i]), EdmKey(sorted[j]));
  }

  // ------------------------------------------------------------------
  // The header
  // ------------------------------------------------------------------

  /** A loaded bundle has the header it was built with: counts of the sections, the lists and the rest. */
  lemma {:induction false} HeaderIsThatOfData(c: Codec, d: Data, w: Body, bytes: Bytes)
    requires Lawful(c) && IsBundleOf(c, d, true, w, bytes) && Accepted(c, bytes).Some?
    ensures var p := Accepted(c, bytes).value;
            && p.header.meta == d.meta && p.header.docs == Items(d.docs) && p.header.edmSources == Items(d.edmSources)
            && p.header.counts == Some(Counts(|d.idmEntries|, |d.edmEntries|, |d.docs|))
            && |p.idm| == |d.idmEntries| && |p.edm| == |d.edmEntries|
  {
    hide Accepted;
    BundleTheorems.BundleRoundTrip(c, d, w, bytes);
  }

  /** What acceptance says of header lists that are no arrays, and of the counts. */
  lemma {:induction false} AcceptedHeader(c: Codec, b: Bytes)
    requires Accepted(c, b).Some?
    ensures var p := Accepted(c, b).value;
            && (p.header.counts.Some? ==> p.header.counts.value.idm == |p.idm| && p.header.counts.value.edm == |p.edm|)
            && (p.header.docs.Absent? ==> p.idm == []) && (p.header.edmSources.Absent? ==> p.edm == [])
            && (p.header.docs.NoArray? && p.header.docs.length.Some? ==>
                  forall j :: 0 <= j < |p.idm| ==> p.idm[j].docIndex as real < p.header.docs.length.value)
            && (p.header.edmSources.NoArray? && p.header.edmSources.length.Some? ==>
                  forall j :: 0 <= j < |p.edm| ==> p.edm[j].sourceIndex as real < p.header.edmSources.length.value)
  {
    hide ReadBody, ReadSignature;
    var p := Accepted(c, b).value;
    assert IdmAcceptable(p.header, p.idm) && EdmAcceptable(p.header, p.edm);
    assert p.idm != [] ==> InListing(p.header.docs, p.idm[0].docIndex);
    assert p.edm != [] ==> InListing(p.header.edmSources, p.edm[0].sourceIndex);
  }
}
