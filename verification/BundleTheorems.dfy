/** What the builder and the parser of index bundles guarantee together. */
module BundleTheorems {
  import opened Wrappers
  import opened Widths
  import opened BundleFormat
  import opened IndexBundle
  import Bloom
  import KeySort

  // ------------------------------------------------------------------
  // Which buffers are accepted
  // ------------------------------------------------------------------

  /** What a body and a signature are accepted as. */
  function AcceptedBody(c: Codec, w: Body, s: Bytes): Option<Parsed>
    requires BodyFits(w)
  {
    match c.parse(w.headerJson)
    case None => None
    case Some(h) =>
      if IdmAcceptable(h, w.idm) && EdmAcceptable(h, w.edm) && CountsMatch(h, w) && c.verify(Unsigned(w), s)
      then Some(Parsed(h, w.bloom, w.idm, w.edm, s)) else None
  }

  /** The signature is checked over exactly the bytes before its length field. */
  lemma AcceptsWritten(c: Codec, w: Body, s: Bytes)
    requires BodyFits(w) && |s| < TWO_32
    ensures Accepted(c, Unsigned(w) + SignatureBytes(s)) == AcceptedBody(c, w, s)
  {
    hide Unsigned, ReadBody, ReadSignature, SignatureBytes, BodyFits, IdmAcceptable, EdmAcceptable;
    var b := Unsigned(w) + SignatureBytes(s);
    BodyRoundTrip(w, SignatureBytes(s));
    SignatureRoundTrip(s, []);
    assert SignatureBytes(s) + [] == SignatureBytes(s);
    assert b[..|b| - |SignatureBytes(s)|] == Unsigned(w);
  }

  /** Every accepted buffer is the encoding of a body that fits, followed by its signature. */
  lemma {:induction false} AcceptedWasWritten(c: Codec, b: Bytes) returns (w: Body, s: Bytes)
    requires Accepted(c, b).Some?
    ensures BodyFits(w) && |s| < TWO_32 && b == Unsigned(w) + SignatureBytes(s)
    ensures Accepted(c, b) == AcceptedBody(c, w, s)
  {
    hide Unsigned, ReadBody, ReadSignature, SignatureBytes, BodyFits, IdmAcceptable, EdmAcceptable;
    BodyInverse(b);
    w := ReadBody(b).value.value;
    SignatureInverse(ReadBody(b).value.rest);
    s := ReadSignature(ReadBody(b).value.rest).value;
    AcceptsWritten(c, w, s);
  }

  /** No accepted buffer is a proper beginning of another one, whoever signed it. */
  lemma {:induction false} AcceptedIsPrefixFree(c: Codec, other: Codec, b: Bytes, x: Bytes)
    requires Accepted(c, b).Some? && x != []
    ensures Accepted(other, b + x).None?
  {
    hide WellShaped, ReadBody, ReadSignature;
    AcceptedIsWellShaped(c, b);
    ShapeIsPrefixFree(b, x);
    if Accepted(other, b + x).Some? {
      AcceptedIsWellShaped(other, b + x);
    }
  }

  lemma AcceptedIsWellShaped(c: Codec, b: Bytes)
    requires Accepted(c, b).Some?
    ensures WellShaped(b)
  {
    hide ReadBody, ReadSignature;
  }

  lemma {:induction false} AscendingPairs(hashes: seq<int>, i: nat, j: nat)
    requires AscendingHashes(hashes) && i <= j < |hashes|
    ensures AsUint64(hashes[i]) <= AsUint64(hashes[j])
    decreases j
  {
    if i < j {
      AscendingPairs(hashes, i, j - 1);
    }
  }

  /** An accepted bundle's sections ascend as unsigned hashes and index into the header's lists. */
  lemma AcceptedSections(c: Codec, b: Bytes, i: nat, j: nat)
    requires Accepted(c, b).Some? && i <= j
    ensures var p := Accepted(c, b).value;
            && (j < |p.idm| ==> AsUint64(p.idm[i].hash) <= AsUint64(p.idm[j].hash)
                                && IsInt64(p.idm[j].hash) && p.idm[j].docIndex >= 0
                                && (p.header.docs.Items? ==> p.idm[j].docIndex < |p.header.docs.items|))
            && (j < |p.edm| ==> AsUint64(p.edm[i].hash) <= AsUint64(p.edm[j].hash)
                                && IsInt64(p.edm[j].hash) && p.edm[j].sourceIndex >= 0
                                && (p.header.edmSources.Items? ==> p.edm[j].sourceIndex < |p.header.edmSources.items|))
  {
    var w, s := AcceptedWasWritten(c, b);
    hide AsUint64, Accepted, WellShaped;
    var p := Accepted(c, b).value;
    assert IdmAcceptable(p.header, p.idm) && EdmAcceptable(p.header, p.edm);
    if j < |p.idm| {
      AscendingPairs(IdmHashes(p.idm), i, j);
    }
    if j < |p.edm| {
      AscendingPairs(EdmHashes(p.edm), i, j);
    }
  }

  /** The index is that of an element of the header's list, which is an array. */
  predicate Names<T>(l: Listing<T>, index: int) {
    l.Items? && 0 <= index < |l.items|
  }

  /** Acceptance makes every index name an element of an array exactly when the section is empty or
      the header's list is an array: anything else passes with whatever length it has. */
  lemma AcceptedIndices(c: Codec, b: Bytes)
    requires Accepted(c, b).Some?
    ensures var p := Accepted(c, b).value;
            && ((forall j :: 0 <= j < |p.idm| ==> Names(p.header.docs, p.idm[j].docIndex))
                <==> p.idm == [] || p.header.docs.Items?)
            && ((forall j :: 0 <= j < |p.edm| ==> Names(p.header.edmSources, p.edm[j].sourceIndex))
                <==> p.edm == [] || p.header.edmSources.Items?)
  {
    hide Accepted;
    var p := Accepted(c, b).value;
    forall j | 0 <= j < |p.idm|
      ensures p.header.docs.Items? ==> Names(p.header.docs, p.idm[j].docIndex)
    {
      AcceptedSections(c, b, j, j);
    }
    forall j | 0 <= j < |p.edm|
      ensures p.header.edmSources.Items? ==> Names(p.header.edmSources, p.edm[j].sourceIndex)
    {
      AcceptedSections(c, b, j, j);
    }
    assert p.idm != [] && !p.header.docs.Items? ==> !Names(p.header.docs, p.idm[0].docIndex);
    assert p.edm != [] && !p.header.edmSources.Items? ==> !Names(p.header.edmSources, p.edm[0].sourceIndex);
  }

  /** A bundle with one entry of any index, under a header whose document list has no length. */
  function UnsizedBody(c: Codec, h: Header, index: int): Body {
    Body(c.encode(h), Bloom.Filter(8, 1, [0]), [IdmEntry(0, index)], [])
  }

  /** Such a bundle, properly signed, is accepted whatever the index. */
  lemma UnsizedAcceptsAnyIndex(c: Codec, h: Header, index: int)
    requires Lawful(c) && |c.encode(h)| < TWO_32
    requires h.docs.NoArray? && h.docs.length.None? && h.counts.None? && 0 <= index < TWO_32
    ensures var w := UnsizedBody(c, h, index);
            && BodyFits(w)
            && var p := Accepted(c, Unsigned(w) + SignatureBytes(c.sign(Unsigned(w))));
               p.Some? && p.value.idm == [IdmEntry(0, index)] && !Names(p.value.header.docs, index)
  {
    hide Unsigned, SignatureBytes, Accepted;
    var w := UnsizedBody(c, h, index);
    AcceptsWritten(c, w, c.sign(Unsigned(w)));
    assert c.parse(w.headerJson) == Some(h);
    NoEntries(h, []);
  }

  // ------------------------------------------------------------------
  // The writer's order satisfies the parser
  // ------------------------------------------------------------------

  lemma KeyOrderIsHashOrder(a: KeySort.Key, b: KeySort.Key)
    requires a != [] && b != [] && !KeySort.Less(b, a)
    ensures a[0] <= b[0]
  {
  }

  lemma SortedIdmAscends(es: seq<IdmEntry>)
    ensures AscendingHashes(IdmHashes(SignedIdms(KeySort.SortBy(es, IdmKey))))
  {
    var sorted := KeySort.SortBy(es, IdmKey);
    var hashes := IdmHashes(SignedIdms(sorted));
    KeySort.SortByAscends(es, IdmKey);
    hide KeySort.SortBy, KeySort.Ascending, KeySort.Keys, KeySort.Less;
    forall i | 0 < i < |hashes|
      ensures AsUint64(hashes[i - 1]) <= AsUint64(hashes[i])
    {
      KeySort.KeysAt(sorted, IdmKey, i - 1);
      KeySort.KeysAt(sorted, IdmKey, i);
      KeySort.AscendingPairs(KeySort.Keys(sorted, IdmKey), i - 1, i);
      KeyOrderIsHashOrder(IdmKey(sorted[i - 1]), IdmKey(sorted[i]));
      ViewsAgree(sorted[i - 1].hash, sorted[i].hash);
      ViewsAgree(sorted[i].hash, sorted[i - 1].hash);
    }
  }

  lemma SortedEdmAscends(es: seq<EdmEntry>)
    ensures AscendingHashes(EdmHashes(SignedEdms(KeySort.SortBy(es, EdmKey))))
  {
    var sorted := KeySort.SortBy(es, EdmKey);
    var hashes := EdmHashes(SignedEdms(sorted));
    KeySort.SortByAscends(es, EdmKey);
    hide KeySort.SortBy, KeySort.Ascending, KeySort.Keys, KeySort.Less;
    forall i | 0 < i < |hashes|
      ensures AsUint64(hashes[i - 1]) <= AsUint64(hashes[i])
    {
      KeySort.KeysAt(sorted, EdmKey, i - 1);
      KeySort.KeysAt(sorted, EdmKey, i);
      KeySort.AscendingPairs(KeySort.Keys(sorted, EdmKey), i - 1, i);
      KeyOrderIsHashOrder(EdmKey(sorted[i - 1]), EdmKey(sorted[i]));
      ViewsAgree(sorted[i - 1].hash, sorted[i].hash);
      ViewsAgree(sorted[i].hash, sorted[i - 1].hash);
    }
  }

  /** Every entry points at a document or a source of the data. */
  predicate IndicesInRange(d: Data) {
    && (forall i :: 0 <= i < |d.idmEntries| ==> d.idmEntries[i].docIndex < |d.docs|)
    && (forall i :: 0 <= i < |d.edmEntries| ==> d.edmEntries[i].sourceIndex < |d.edmSources|)
  }

  lemma SameMembers<T>(xs: seq<T>, ys: seq<T>)
    requires multiset(xs) == multiset(ys)
    ensures forall x :: x in xs <==> x in ys
  {
    assert forall x :: x in xs <==> x in multiset(xs);
    assert forall x :: x in ys <==> x in multiset(ys);
  }

  lemma IdmRangeSurvivesSorting(es: seq<IdmEntry>, n: nat)
    ensures var sorted := KeySort.SortBy(es, IdmKey);
            (forall i :: 0 <= i < |es| ==> es[i].docIndex < n)
            <==> (forall i :: 0 <= i < |sorted| ==> sorted[i].docIndex < n)
  {
    KeySort.SortByAscends(es, IdmKey);
    hide KeySort.SortBy;
    var sorted := KeySort.SortBy(es, IdmKey);
    SameMembers(sorted, es);
    assert forall i :: 0 <= i < |es| ==> es[i] in sorted;
    assert forall i :: 0 <= i < |sorted| ==> sorted[i] in es;
  }

  lemma EdmRangeSurvivesSorting(es: seq<EdmEntry>, n: nat)
    ensures var sorted := KeySort.SortBy(es, EdmKey);
            (forall i :: 0 <= i < |es| ==> es[i].sourceIndex < n)
            <==> (forall i :: 0 <= i < |sorted| ==> sorted[i].sourceIndex < n)
  {
    KeySort.SortByAscends(es, EdmKey);
    hide KeySort.SortBy;
    var sorted := KeySort.SortBy(es, EdmKey);
    SameMembers(sorted, es);
    assert forall i :: 0 <= i < |es| ==> es[i] in sorted;
    assert forall i :: 0 <= i < |sorted| ==> sorted[i] in es;
  }

  /** A built and signed bundle is accepted exactly when its entries index into its lists,
      and then gives back the header, the filter and the entries, hashes as signed integers
      in ascending unsigned order. */
  lemma {:induction false} BundleRoundTrip(c: Codec, d: Data, w: Body, bytes: Bytes)
    requires Lawful(c) && IsBundleOf(c, d, true, w, bytes)
    ensures Accepted(c, bytes)
            == if IndicesInRange(d)
               then Some(Parsed(HeaderOf(d), w.bloom, SignedIdms(SortedIdm(d)), SignedEdms(SortedEdm(d)),
                                c.sign(Unsigned(w))))
               else None
  {
    hide Unsigned, SignatureBytes, BodyFits, AscendingHashes, KeySort.SortBy, Bloom.IsFilterOf, Accepted;
    AcceptsWritten(c, w, c.sign(Unsigned(w)));
    SortedIdmAscends(d.idmEntries);
    SortedEdmAscends(d.edmEntries);
    IdmRangeSurvivesSorting(d.idmEntries, |d.docs|);
    EdmRangeSurvivesSorting(d.edmEntries, |d.edmSources|);
    var h := HeaderOf(d);
    assert c.parse(w.headerJson) == Some(h);
    assert IdmAcceptable(h, w.idm) <==> forall i :: 0 <= i < |SortedIdm(d)| ==> SortedIdm(d)[i].docIndex < |d.docs| by {
      assert forall i :: 0 <= i < |w.idm| ==> w.idm[i].docIndex == SortedIdm(d)[i].docIndex;
    }
    assert EdmAcceptable(h, w.edm)
           <==> forall i :: 0 <= i < |SortedEdm(d)| ==> SortedEdm(d)[i].sourceIndex < |d.edmSources| by {
      assert forall i :: 0 <= i < |w.edm| ==> w.edm[i].sourceIndex == SortedEdm(d)[i].sourceIndex;
    }
  }

  lemma RemoveAt<T>(s: seq<T>, i: nat)
    requires i < |s|
    ensures multiset(s) == multiset{s[i]} + multiset(s[..i] + s[i + 1..])
  {
    assert s == s[..i] + ([s[i]] + s[i + 1..]);
  }

  function Mapped<T, U>(xs: seq<T>, f: T -> U): (r: seq<U>)
    ensures |r| == |xs|
  {
    if xs == [] then [] else [f(xs[0])] + Mapped(xs[1..], f)
  }

  lemma {:induction false} MappedAt<T, U>(xs: seq<T>, f: T -> U, i: nat)
    requires i < |xs|
    ensures Mapped(xs, f)[i] == f(xs[i])
  {
    if i > 0 {
      MappedAt(xs[1..], f, i - 1);
    }
  }

  lemma MappedCons<T, U>(x: T, xs: seq<T>, f: T -> U)
    ensures Mapped([x] + xs, f) == [f(x)] + Mapped(xs, f)
    ensures multiset(Mapped([x] + xs, f)) == multiset{f(x)} + multiset(Mapped(xs, f))
  {
    KeySort.ConsTail(x, xs);
    KeySort.ConsTail(f(x), Mapped(xs, f));
  }

  lemma {:induction false} MappedWithout<T, U>(xs: seq<T>, f: T -> U, i: nat)
    requires i < |xs|
    ensures multiset(Mapped(xs, f)) == multiset{f(xs[i])} + multiset(Mapped(xs[..i] + xs[i + 1..], f))
  {
    hide Mapped;
    var tail := xs[1..];
    assert xs == [xs[0]] + tail;
    MappedCons(xs[0], tail, f);
    if i == 0 {
      assert xs[..0] + xs[1..] == tail;
    } else {
      MappedWithout(tail, f, i - 1);
      var rest := tail[..i - 1] + tail[i..];
      assert xs[..i] + xs[i + 1..] == [xs[0]] + rest;
      MappedCons(xs[0], rest, f);
    }
  }

  /** Applying a function to every element keeps equal multisets equal. */
  lemma {:induction false} MappedConserves<T, U>(xs: seq<T>, ys: seq<T>, f: T -> U)
    requires multiset(xs) == multiset(ys)
    ensures multiset(Mapped(xs, f)) == multiset(Mapped(ys, f))
    decreases |xs|
  {
    assert |xs| == |multiset(xs)| == |multiset(ys)| == |ys|;
    if xs != [] {
      KeySort.HeadTail(xs);
      assert xs[0] in multiset(ys);
      var i :| 0 <= i < |ys| && ys[i] == xs[0];
      var rest := ys[..i] + ys[i + 1..];
      RemoveAt(ys, i);
      assert multiset(rest) == multiset(ys) - multiset{xs[0]} == multiset(xs[1..]);
      MappedConserves(xs[1..], rest, f);
      MappedWithout(ys, f, i);
    }
  }

  lemma SignedIsMapped(idm: seq<IdmEntry>, edm: seq<EdmEntry>)
    ensures SignedIdms(idm) == Mapped(idm, SignedIdm) && SignedEdms(edm) == Mapped(edm, SignedEdm)
  {
    forall i | 0 <= i < |idm|
      ensures Mapped(idm, SignedIdm)[i] == SignedIdm(idm[i])
    {
      MappedAt(idm, SignedIdm, i);
    }
    forall i | 0 <= i < |edm|
      ensures Mapped(edm, SignedEdm)[i] == SignedEdm(edm[i])
    {
      MappedAt(edm, SignedEdm, i);
    }
  }

  /** No entry is lost, added or changed on the way into a bundle and out of it. */
  lemma EntriesAreConserved(d: Data)
    ensures multiset(SignedIdms(SortedIdm(d))) == multiset(SignedIdms(d.idmEntries))
    ensures multiset(SignedEdms(SortedEdm(d))) == multiset(SignedEdms(d.edmEntries))
  {
    KeySort.SortByAscends(d.idmEntries, IdmKey);
    KeySort.SortByAscends(d.edmEntries, EdmKey);
    MappedConserves(SortedIdm(d), d.idmEntries, SignedIdm);
    MappedConserves(SortedEdm(d), d.edmEntries, SignedEdm);
    SignedIsMapped(SortedIdm(d), SortedEdm(d));
    SignedIsMapped(d.idmEntries, d.edmEntries);
  }

  // ------------------------------------------------------------------
  // Canonical bytes
  // ------------------------------------------------------------------

  /** The same data up to the order of the entries and the representative of each hash modulo 2^64. */
  ghost predicate SameData(d: Data, e: Data) {
    && d.meta == e.meta && d.docs == e.docs && d.edmSources == e.edmSources
    && multiset(KeySort.Keys(d.idmEntries, IdmKey)) == multiset(KeySort.Keys(e.idmEntries, IdmKey))
    && multiset(KeySort.Keys(d.edmEntries, EdmKey)) == multiset(KeySort.Keys(e.edmEntries, EdmKey))
  }

  lemma {:induction false} SameIdmKeys(xs: seq<IdmEntry>, ys: seq<IdmEntry>)
    requires KeySort.Keys(xs, IdmKey) == KeySort.Keys(ys, IdmKey)
    ensures SignedIdms(xs) == SignedIdms(ys)
    ensures |xs| == |ys| && forall i :: 0 <= i < |xs| ==> AsUint64(xs[i].hash) == AsUint64(ys[i].hash)
  {
    assert |xs| == |KeySort.Keys(xs, IdmKey)| == |ys|;
    forall i | 0 <= i < |xs|
      ensures SignedIdms(xs)[i] == SignedIdms(ys)[i] && AsUint64(xs[i].hash) == AsUint64(ys[i].hash)
    {
      KeySort.KeysAt(xs, IdmKey, i);
      KeySort.KeysAt(ys, IdmKey, i);
      var k, l := IdmKey(xs[i]), IdmKey(ys[i]);
      assert k[0] == l[0] && k[1] == l[1];
      ViewsAgree(xs[i].hash, ys[i].hash);
    }
  }

  lemma {:induction false} SameEdmKeys(xs: seq<EdmEntry>, ys: seq<EdmEntry>)
    requires KeySort.Keys(xs, EdmKey) == KeySort.Keys(ys, EdmKey)
    ensures SignedEdms(xs) == SignedEdms(ys)
    ensures |xs| == |ys| && forall i :: 0 <= i < |xs| ==> AsUint64(xs[i].hash) == AsUint64(ys[i].hash)
  {
    assert |xs| == |KeySort.Keys(xs, EdmKey)| == |ys|;
    forall i | 0 <= i < |xs|
      ensures SignedEdms(xs)[i] == SignedEdms(ys)[i] && AsUint64(xs[i].hash) == AsUint64(ys[i].hash)
    {
      KeySort.KeysAt(xs, EdmKey, i);
      KeySort.KeysAt(ys, EdmKey, i);
      var k, l := EdmKey(xs[i]), EdmKey(ys[i]);
      assert k[0] == l[0] && k[1] == l[1] && k[2] == l[2] && k[3] == l[3];
      ViewsAgree(xs[i].hash, ys[i].hash);
    }
  }

  lemma SameDistinct(a: seq<int>, b: seq<int>)
    requires |a| == |b| && forall i :: 0 <= i < |a| ==> AsUint64(a[i]) == AsUint64(b[i])
    ensures Bloom.Distinct(a) == Bloom.Distinct(b)
  {
    forall x
      ensures x in Bloom.Distinct(a) <==> x in Bloom.Distinct(b)
    {
      hide AsUint64;
    }
  }

  /** The bytes of a bundle do not depend on the order of the entries or on how hashes are represented. */
  lemma {:induction false} BundleBytesAreCanonical(c: Codec, d: Data, e: Data, v: Body, w: Body,
                                                          p: Bytes, q: Bytes, signed: bool)
    requires SameData(d, e) && IsBundleOf(c, d, signed, v, p) && IsBundleOf(c, e, signed, w, q)
    ensures p == q
  {
    hide KeySort.SortBy, KeySort.Keys, Bloom.IsFilterOf, Bloom.Distinct, Unsigned, BodyFits, SignedIdms, SignedEdms;
    KeySort.SortedKeysCanonical(d.idmEntries, e.idmEntries, IdmKey);
    KeySort.SortedKeysCanonical(d.edmEntries, e.edmEntries, EdmKey);
    SameIdmKeys(SortedIdm(d), SortedIdm(e));
    SameEdmKeys(SortedEdm(d), SortedEdm(e));
    SameDistinct(AllHashes(d), AllHashes(e));
    Bloom.FilterUnique(v.bloom, w.bloom, Bloom.Distinct(AllHashes(d)));
    assert v == w;
  }
}
