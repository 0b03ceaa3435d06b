/** The lookup tables of a parsed bundle, against a linear scan of its entries. */
module BundleLookup {
  import opened Wrappers
  import opened Widths
  import opened BundleFormat
  import opened IndexBundle
  import Bloom
  import KeySort
  import BundleTheorems

  datatype IdmHit = IdmHit(docIndex: int, doc: Option<Doc>)

  datatype EdmHit = EdmHit(sourceIndex: int, source: Option<Source>, rowId: int, fieldId: int)

  /** The element of a header list, undefined where there is none. */
  function At<T>(l: Listing<T>, i: int): Option<T> {
    match l
    case Absent => None
    case Items(items) => if 0 <= i < |items| then Some(items[i]) else None
    case NoArray(_, at) => if i in at then Some(at[i]) else None
  }

  function IdmHitOf(h: Header, e: IdmEntry): IdmHit {
    IdmHit(e.docIndex, At(h.docs, e.docIndex))
  }

  function EdmHitOf(h: Header, e: EdmEntry): EdmHit {
    EdmHit(e.sourceIndex, At(h.edmSources, e.sourceIndex), e.rowId, e.fieldId)
  }

  // ------------------------------------------------------------------
  // The tables
  // ------------------------------------------------------------------

  /** A table from stored hashes to hits; its keys are the hashes as signed integers. */
  datatype Bundle = Bundle(parsed: Parsed, idmByHash: map<int, seq<IdmHit>>, edmByHash: map<int, seq<EdmHit>>) {

    function LookupIdm(hash: int): seq<IdmHit> {
      if AsInt64(hash) in idmByHash then idmByHash[AsInt64(hash)] else []
    }

    function LookupEdm(hash: int): seq<EdmHit> {
      if AsInt64(hash) in edmByHash then edmByHash[AsInt64(hash)] else []
    }
  }

  /** The hits of a linear scan that compares stored hashes with a key. */
  function IdmStored(h: Header, es: seq<IdmEntry>, key: int): seq<IdmHit> {
    if es == [] then []
    else
      var last := es[|es| - 1];
      IdmStored(h, es[..|es| - 1], key) + if last.hash == key then [IdmHitOf(h, last)] else []
  }

  function EdmStored(h: Header, es: seq<EdmEntry>, key: int): seq<EdmHit> {
    if es == [] then []
    else
      var last := es[|es| - 1];
      EdmStored(h, es[..|es| - 1], key) + if last.hash == key then [EdmHitOf(h, last)] else []
  }

  method IndexIdm(h: Header, es: seq<IdmEntry>) returns (m: map<int, seq<IdmHit>>)
    ensures forall k :: IdmStored(h, es, k) == if k in m then m[k] else []
  {
    m := map[];
    for i := 0 to |es|
      invariant forall k :: IdmStored(h, es[..i], k) == if k in m then m[k] else []
    {
      assert es[..i + 1][..i] == es[..i];
      var k := es[i].hash;
      if k !in m {
        m := m[k := []];
      }
      m := m[k := m[k] + [IdmHitOf(h, es[i])]];
    }
    assert es[..|es|] == es;
  }

  method IndexEdm(h: Header, es: seq<EdmEntry>) returns (m: map<int, seq<EdmHit>>)
    ensures forall k :: EdmStored(h, es, k) == if k in m then m[k] else []
  {
    m := map[];
    for i := 0 to |es|
      invariant forall k :: EdmStored(h, es[..i], k) == if k in m then m[k] else []
    {
      assert es[..i + 1][..i] == es[..i];
      var k := es[i].hash;
      if k !in m {
        m := m[k := []];
      }
      m := m[k := m[k] + [EdmHitOf(h, es[i])]];
    }
    assert es[..|es|] == es;
  }

  ghost predicate Indexed(b: Bundle) {
    && (forall k :: IdmStored(b.parsed.header, b.parsed.idm, k) == if k in b.idmByHash then b.idmByHash[k] else [])
    && (forall k :: EdmStored(b.parsed.header, b.parsed.edm, k) == if k in b.edmByHash then b.edmByHash[k] else [])
  }

  method LoadBundle(c: Codec, buffer: Bytes) returns (r: Option<Bundle>)
    ensures r.Some? <==> Accepted(c, buffer).Some?
    ensures r.Some? ==> Accepted(c, buffer) == Some(r.value.parsed) && Indexed(r.value)
  {
    hide Accepted;
    var p := VerifyAndParse(c, buffer);
    if p.None? {
      return None;
    }
    var idmByHash := IndexIdm(p.value.header, p.value.idm);
    var edmByHash := IndexEdm(p.value.header, p.value.edm);
    return Some(Bundle(p.value, idmByHash, edmByHash));
  }

  // ------------------------------------------------------------------
  // Lookup is the linear scan
  // ------------------------------------------------------------------

  /** The entries that carry the same 64-bit hash, in the order of the section. */
  function IdmMatching(h: Header, es: seq<IdmEntry>, hash: int): seq<IdmHit> {
    if es == [] then []
    else
      var last := es[|es| - 1];
      IdmMatching(h, es[..|es| - 1], hash) + if AsUint64(last.hash) == AsUint64(hash) then [IdmHitOf(h, last)] else []
  }

  function EdmMatching(h: Header, es: seq<EdmEntry>, hash: int): seq<EdmHit> {
    if es == [] then []
    else
      var last := es[|es| - 1];
      EdmMatching(h, es[..|es| - 1], hash) + if AsUint64(last.hash) == AsUint64(hash) then [EdmHitOf(h, last)] else []
  }

  lemma {:induction false} StoredIsMatchingIdm(h: Header, es: seq<IdmEntry>, hash: int)
    requires forall i :: 0 <= i < |es| ==> IsInt64(es[i].hash)
    ensures IdmStored(h, es, AsInt64(hash)) == IdmMatching(h, es, hash)
  {
    if es != [] {
      StoredIsMatchingIdm(h, es[..|es| - 1], hash);
      SignedView(es[|es| - 1].hash);
      ViewsAgree(es[|es| - 1].hash, hash);
    }
  }

  lemma {:induction false} StoredIsMatchingEdm(h: Header, es: seq<EdmEntry>, hash: int)
    requires forall i :: 0 <= i < |es| ==> IsInt64(es[i].hash)
    ensures EdmStored(h, es, AsInt64(hash)) == EdmMatching(h, es, hash)
  {
    if es != [] {
      StoredIsMatchingEdm(h, es[..|es| - 1], hash);
      SignedView(es[|es| - 1].hash);
      ViewsAgree(es[|es| - 1].hash, hash);
    }
  }

  /** For every accepted bundle and every way to write a hash, signed or unsigned, lookup
      gives the hits of the linear scan, in the scan's order. */
  lemma {:induction false} LookupIsScan(c: Codec, buffer: Bytes, b: Bundle, hash: int)
    requires Accepted(c, buffer) == Some(b.parsed) && Indexed(b)
    ensures b.LookupIdm(hash) == IdmMatching(b.parsed.header, b.parsed.idm, hash)
    ensures b.LookupEdm(hash) == EdmMatching(b.parsed.header, b.parsed.edm, hash)
  {
    hide Accepted, AsInt64, AsUint64;
    var p := b.parsed;
    forall i | 0 <= i < |p.idm|
      ensures IsInt64(p.idm[i].hash)
    {
      BundleTheorems.AcceptedSections(c, buffer, i, i);
    }
    forall i | 0 <= i < |p.edm|
      ensures IsInt64(p.edm[i].hash)
    {
      BundleTheorems.AcceptedSections(c, buffer, i, i);
    }
    StoredIsMatchingIdm(p.header, p.idm, hash);
    StoredIsMatchingEdm(p.header, p.edm, hash);
  }

  // ------------------------------------------------------------------
  // Skipping on a filter miss
  // ------------------------------------------------------------------

  lemma {:induction false} MatchingIdmHas(h: Header, es: seq<IdmEntry>, hash: int)
    ensures IdmMatching(h, es, hash) != [] <==> exists i :: 0 <= i < |es| && AsUint64(es[i].hash) == AsUint64(hash)
  {
    hide AsUint64;
    if es != [] {
      var front := es[..|es| - 1];
      MatchingIdmHas(h, front, hash);
      assert forall i :: 0 <= i < |front| ==> front[i] == es[i];
    }
  }

  lemma {:induction false} MatchingEdmHas(h: Header, es: seq<EdmEntry>, hash: int)
    ensures EdmMatching(h, es, hash) != [] <==> exists i :: 0 <= i < |es| && AsUint64(es[i].hash) == AsUint64(hash)
  {
    hide AsUint64;
    if es != [] {
      var front := es[..|es| - 1];
      MatchingEdmHas(h, front, hash);
      assert forall i :: 0 <= i < |front| ==> front[i] == es[i];
    }
  }

  /** A hash with a hit was put into the filter. */
  lemma HitWasAdded(d: Data, h: Header, hash: int)
    requires IdmMatching(h, SignedIdms(SortedIdm(d)), hash) != []
             || EdmMatching(h, SignedEdms(SortedEdm(d)), hash) != []
    ensures AsUint64(hash) in Bloom.Distinct(AllHashes(d))
  {
    var idm, edm, all := SortedIdm(d), SortedEdm(d), AllHashes(d);
    MatchingIdmHas(h, SignedIdms(idm), hash);
    MatchingEdmHas(h, SignedEdms(edm), hash);
    hide KeySort.SortBy;
    if i :| 0 <= i < |idm| && AsUint64(SignedIdms(idm)[i].hash) == AsUint64(hash) {
      ViewsAgree(idm[i].hash, idm[i].hash);
      assert all[i] == idm[i].hash;
    } else {
      var i :| 0 <= i < |edm| && AsUint64(SignedEdms(edm)[i].hash) == AsUint64(hash);
      ViewsAgree(edm[i].hash, edm[i].hash);
      assert all[|idm| + i] == edm[i].hash;
    }
  }

  /** For a bundle that was built and accepted, with a filter of at most 2^31 bits, a hash the
      filter does not have has no hits: skipping on a miss never changes a result. */
  lemma {:induction false} FilterMissMeansNoHit(c: Codec, d: Data, w: Body, bytes: Bytes, b: Bundle, hash: int)
    requires Lawful(c) && IsBundleOf(c, d, true, w, bytes) && BundleTheorems.IndicesInRange(d)
    requires Accepted(c, bytes) == Some(b.parsed) && Indexed(b)
    requires b.parsed.bloom.mBits <= TWO_31 && !Bloom.Has(b.parsed.bloom, hash)
    ensures b.LookupIdm(hash) == [] && b.LookupEdm(hash) == []
  {
    hide Accepted, KeySort.SortBy, Bloom.Has, Bloom.IsFilterOf, Indexed, IdmMatching, EdmMatching;
    BundleTheorems.BundleRoundTrip(c, d, w, bytes);
    LookupIsScan(c, bytes, b, hash);
    if b.LookupIdm(hash) != [] || b.LookupEdm(hash) != [] {
      HitWasAdded(d, b.parsed.header, hash);
      Bloom.SmallFilterHasNoFalseNegative(w.bloom, Bloom.Distinct(AllHashes(d)), hash);
    }
  }

  // ------------------------------------------------------------------
  // What a hit names
  // ------------------------------------------------------------------

  /** The document index of an entry with the given 64-bit hash. */
  function DocUnder(hash: int): IdmEntry -> Option<int> {
    (e: IdmEntry) => if AsUint64(e.hash) == AsUint64(hash) then Some(e.docIndex) else None
  }

  /** Source, row and field of an entry with the given 64-bit hash. */
  function CellUnder(hash: int): EdmEntry -> Option<(int, int, int)> {
    (e: EdmEntry) => if AsUint64(e.hash) == AsUint64(hash) then Some((e.sourceIndex, e.rowId, e.fieldId)) else None
  }

  const HIT_DOC := (x: IdmHit) => x.docIndex

  const HIT_CELL := (y: EdmHit) => (y.sourceIndex, y.rowId, y.fieldId)

  lemma MappedSnoc<T, U>(xs: seq<T>, x: T, f: T -> U)
    ensures BundleTheorems.Mapped(xs + [x], f) == BundleTheorems.Mapped(xs, f) + [f(x)]
  {
    var ys := xs + [x];
    forall i | 0 <= i < |ys|
      ensures BundleTheorems.Mapped(ys, f)[i] == (BundleTheorems.Mapped(xs, f) + [f(x)])[i]
    {
      BundleTheorems.MappedAt(ys, f, i);
      if i < |xs| {
        BundleTheorems.MappedAt(xs, f, i);
      }
    }
  }

  lemma {:induction false} MatchingIdmCounts(h: Header, es: seq<IdmEntry>, hash: int, n: int)
    ensures multiset(BundleTheorems.Mapped(IdmMatching(h, es, hash), HIT_DOC))[n]
            == multiset(BundleTheorems.Mapped(es, DocUnder(hash)))[Some(n)]
  {
    hide AsUint64, BundleTheorems.Mapped;
    if es == [] {
      NothingMapped(HIT_DOC);
      NothingMapped(DocUnder(hash));
    } else {
      var front, last := es[..|es| - 1], es[|es| - 1];
      assert es == front + [last];
      MatchingIdmCounts(h, front, hash, n);
      MappedSnoc(front, last, DocUnder(hash));
      var hits := IdmMatching(h, front, hash);
      MappedSnoc(hits, IdmHitOf(h, last), HIT_DOC);
      assert hits + [] == hits;
    }
  }

  lemma {:induction false} MatchingEdmCounts(h: Header, es: seq<EdmEntry>, hash: int, n: (int, int, int))
    ensures multiset(BundleTheorems.Mapped(EdmMatching(h, es, hash), HIT_CELL))[n]
            == multiset(BundleTheorems.Mapped(es, CellUnder(hash)))[Some(n)]
  {
    hide AsUint64, BundleTheorems.Mapped;
    if es == [] {
      NothingMapped(HIT_CELL);
      NothingMapped(CellUnder(hash));
    } else {
      var front, last := es[..|es| - 1], es[|es| - 1];
      assert es == front + [last];
      MatchingEdmCounts(h, front, hash, n);
      MappedSnoc(front, last, CellUnder(hash));
      var hits := EdmMatching(h, front, hash);
      MappedSnoc(hits, EdmHitOf(h, last), HIT_CELL);
      assert hits + [] == hits;
    }
  }

  lemma NothingMapped<T, U>(f: T -> U)
    ensures BundleTheorems.Mapped([], f) == []
  {
  }

  lemma {:induction false} MatchingIdmNames(h: Header, es: seq<IdmEntry>, hash: int, docs: seq<Doc>, x: IdmHit)
    requires h.docs == Items(docs) && x in IdmMatching(h, es, hash)
    requires forall i :: 0 <= i < |es| ==> 0 <= es[i].docIndex < |docs|
    ensures 0 <= x.docIndex < |docs| && x.doc == Some(docs[x.docIndex])
  {
    hide AsUint64;
    if es != [] && x in IdmMatching(h, es[..|es| - 1], hash) {
      MatchingIdmNames(h, es[..|es| - 1], hash, docs, x);
    }
  }

  lemma {:induction false} MatchingEdmNames(h: Header, es: seq<EdmEntry>, hash: int, sources: seq<Source>, y: EdmHit)
    requires h.edmSources == Items(sources) && y in EdmMatching(h, es, hash)
    requires forall i :: 0 <= i < |es| ==> 0 <= es[i].sourceIndex < |sources|
    ensures 0 <= y.sourceIndex < |sources| && y.source == Some(sources[y.sourceIndex])
  {
    hide AsUint64;
    if es != [] && y in EdmMatching(h, es[..|es| - 1], hash) {
      MatchingEdmNames(h, es[..|es| - 1], hash, sources, y);
    }
  }

  /** Signing the hashes of a list of entries does not show under the 64-bit view. */
  lemma SignedSameUnder(d: Data, hash: int)
    ensures BundleTheorems.Mapped(SignedIdms(d.idmEntries), DocUnder(hash))
            == BundleTheorems.Mapped(d.idmEntries, DocUnder(hash))
    ensures BundleTheorems.Mapped(SignedEdms(d.edmEntries), CellUnder(hash))
            == BundleTheorems.Mapped(d.edmEntries, CellUnder(hash))
  {
    hide AsUint64, AsInt64;
    forall i | 0 <= i < |d.idmEntries|
      ensures BundleTheorems.Mapped(SignedIdms(d.idmEntries), DocUnder(hash))[i]
              == BundleTheorems.Mapped(d.idmEntries, DocUnder(hash))[i]
    {
      BundleTheorems.MappedAt(SignedIdms(d.idmEntries), DocUnder(hash), i);
      BundleTheorems.MappedAt(d.idmEntries, DocUnder(hash), i);
      ViewsAgree(hash, d.idmEntries[i].hash);
    }
    forall i | 0 <= i < |d.edmEntries|
      ensures BundleTheorems.Mapped(SignedEdms(d.edmEntries), CellUnder(hash))[i]
              == BundleTheorems.Mapped(d.edmEntries, CellUnder(hash))[i]
    {
      BundleTheorems.MappedAt(SignedEdms(d.edmEntries), CellUnder(hash), i);
      BundleTheorems.MappedAt(d.edmEntries, CellUnder(hash), i);
      ViewsAgree(hash, d.edmEntries[i].hash);
    }
  }

  /** What was put in comes out: for a bundle that was built and loaded, the hits of a hash in any
      representation are, as a multiset, the documents and the cells that were entered under it. */
  lemma {:induction false} HitsAreWhatWasEntered(c: Codec, d: Data, w: Body, bytes: Bytes, b: Bundle, hash: int)
    requires Lawful(c) && IsBundleOf(c, d, true, w, bytes) && BundleTheorems.IndicesInRange(d)
    requires Accepted(c, bytes) == Some(b.parsed) && Indexed(b)
    ensures forall n :: multiset(BundleTheorems.Mapped(b.LookupIdm(hash), HIT_DOC))[n]
                        == multiset(BundleTheorems.Mapped(d.idmEntries, DocUnder(hash)))[Some(n)]
    ensures forall n :: multiset(BundleTheorems.Mapped(b.LookupEdm(hash), HIT_CELL))[n]
                        == multiset(BundleTheorems.Mapped(d.edmEntries, CellUnder(hash)))[Some(n)]
  {
    hide Accepted, KeySort.SortBy, Indexed, Bloom.IsFilterOf, IdmMatching, EdmMatching, AsUint64, BundleTheorems.Mapped;
    hide SignedIdms, SignedEdms;
    BundleTheorems.BundleRoundTrip(c, d, w, bytes);
    LookupIsScan(c, bytes, b, hash);
    BundleTheorems.EntriesAreConserved(d);
    var h, idm, edm := HeaderOf(d), SignedIdms(SortedIdm(d)), SignedEdms(SortedEdm(d));
    BundleTheorems.MappedConserves(idm, SignedIdms(d.idmEntries), DocUnder(hash));
    BundleTheorems.MappedConserves(edm, SignedEdms(d.edmEntries), CellUnder(hash));
    SignedSameUnder(d, hash);
    forall n: int
      ensures multiset(BundleTheorems.Mapped(b.LookupIdm(hash), HIT_DOC))[n]
              == multiset(BundleTheorems.Mapped(d.idmEntries, DocUnder(hash)))[Some(n)]
    {
      MatchingIdmCounts(h, idm, hash, n);
    }
    forall n: (int, int, int)
      ensures multiset(BundleTheorems.Mapped(b.LookupEdm(hash), HIT_CELL))[n]
              == multiset(BundleTheorems.Mapped(d.edmEntries, CellUnder(hash)))[Some(n)]
    {
      MatchingEdmCounts(h, edm, hash, n);
    }
  }

  /** And every hit hands out the document or the source it names. */
  lemma {:induction false} HitsNameTheirDocument(c: Codec, d: Data, w: Body, bytes: Bytes, b: Bundle, hash: int)
    requires Lawful(c) && IsBundleOf(c, d, true, w, bytes) && BundleTheorems.IndicesInRange(d)
    requires Accepted(c, bytes) == Some(b.parsed) && Indexed(b)
    ensures forall x :: x in b.LookupIdm(hash) ==> 0 <= x.docIndex < |d.docs| && x.doc == Some(d.docs[x.docIndex])
    ensures forall y :: y in b.LookupEdm(hash) ==>
              0 <= y.sourceIndex < |d.edmSources| && y.source == Some(d.edmSources[y.sourceIndex])
  {
    hide Accepted, KeySort.SortBy, Indexed, Bloom.IsFilterOf, IdmMatching, EdmMatching, AsUint64;
    hide SignedIdms, SignedEdms;
    BundleTheorems.BundleRoundTrip(c, d, w, bytes);
    LookupIsScan(c, bytes, b, hash);
    var p := b.parsed;
    forall i | 0 <= i < |p.idm|
      ensures 0 <= p.idm[i].docIndex < |d.docs|
    {
      BundleTheorems.AcceptedSections(c, bytes, i, i);
    }
    forall i | 0 <= i < |p.edm|
      ensures 0 <= p.edm[i].sourceIndex < |d.edmSources|
    {
      BundleTheorems.AcceptedSections(c, bytes, i, i);
    }
    forall x | x in b.LookupIdm(hash)
      ensures 0 <= x.docIndex < |d.docs| && x.doc == Some(d.docs[x.docIndex])
    {
      MatchingIdmNames(p.header, p.idm, hash, d.docs, x);
    }
    forall y | y in b.LookupEdm(hash)
      ensures 0 <= y.sourceIndex < |d.edmSources| && y.source == Some(d.edmSources[y.sourceIndex])
    {
      MatchingEdmNames(p.header, p.edm, hash, d.edmSources, y);
    }
  }
}
