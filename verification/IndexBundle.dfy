/**
  Building a signed index bundle, verifying and parsing one, and looking hashes
  up in it. The JSON codec of the header and the signature scheme are parameters.
 */
module IndexBundle {
  import opened Wrappers
  import opened LittleEndian
  import opened Widths
  import opened BundleFormat
  import Bloom
  import KeySort

  datatype Doc = Doc(versionId: int, documentId: int, collectionId: int, title: string, fpCount: int)

  datatype Source = Source(sourceId: int, name: string, fields: seq<string>)

  /** A header field that should be an array: missing or a value that counts as false, an array,
      or anything else with the number its length compares as, if any, and what it holds under an index. */
  datatype Listing<T> = Absent | Items(items: seq<T>) | NoArray(length: Option<real>, at: map<int, T>)

  datatype Meta = Meta(bundleVersion: int, params: seq<int>, edmSalts: map<int, string>, scope: seq<int>)

  datatype Counts = Counts(idm: int, edm: int, docs: int)

  datatype Header = Header(meta: Meta, counts: Option<Counts>, docs: Listing<Doc>, edmSources: Listing<Source>)

  /** parse gives nothing for text that is not JSON, and for null. */
  datatype Codec = Codec(
    encode: Header -> Bytes,
    parse: Bytes -> Option<Header>,
    sign: Bytes -> Bytes,
    verify: (Bytes, Bytes) -> bool)

  ghost predicate ShortSignatures(c: Codec) {
    forall b :: |c.sign(b)| < TWO_32
  }

  ghost predicate Lawful(c: Codec) {
    && ShortSignatures(c)
    && (forall h :: c.parse(c.encode(h)) == Some(h))
    && (forall b :: c.verify(b, c.sign(b)))
  }

  datatype Data = Data(
    meta: Meta, docs: seq<Doc>, edmSources: seq<Source>,
    idmEntries: seq<IdmEntry>, edmEntries: seq<EdmEntry>)

  // ------------------------------------------------------------------
  // Building
  // ------------------------------------------------------------------

  function IdmKey(e: IdmEntry): KeySort.Key {
    [AsUint64(e.hash), e.docIndex]
  }

  function EdmKey(e: EdmEntry): KeySort.Key {
    [AsUint64(e.hash), e.sourceIndex, e.rowId, e.fieldId]
  }

  function SortedIdm(d: Data): seq<IdmEntry> {
    KeySort.SortBy(d.idmEntries, IdmKey)
  }

  function SortedEdm(d: Data): seq<EdmEntry> {
    KeySort.SortBy(d.edmEntries, EdmKey)
  }

  function HeaderOf(d: Data): Header {
    Header(d.meta, Some(Counts(|d.idmEntries|, |d.edmEntries|, |d.docs|)), Items(d.docs), Items(d.edmSources))
  }

  function IdmHashes(es: seq<IdmEntry>): (r: seq<int>)
    ensures |r| == |es|
  {
    seq(|es|, i requires 0 <= i < |es| => es[i].hash)
  }

  function EdmHashes(es: seq<EdmEntry>): (r: seq<int>)
    ensures |r| == |es|
  {
    seq(|es|, i requires 0 <= i < |es| => es[i].hash)
  }

  function AllHashes(d: Data): seq<int> {
    IdmHashes(SortedIdm(d)) + EdmHashes(SortedEdm(d))
  }

  /** An entry as it is read back: with the signed view of its hash. */
  function SignedIdm(e: IdmEntry): IdmEntry {
    e.(hash := AsInt64(e.hash))
  }

  function SignedEdm(e: EdmEntry): EdmEntry {
    e.(hash := AsInt64(e.hash))
  }

  function SignedIdms(es: seq<IdmEntry>): (r: seq<IdmEntry>)
    ensures |r| == |es|
  {
    seq(|es|, i requires 0 <= i < |es| => SignedIdm(es[i]))
  }

  function SignedEdms(es: seq<EdmEntry>): (r: seq<EdmEntry>)
    ensures |r| == |es|
  {
    seq(|es|, i requires 0 <= i < |es| => SignedEdm(es[i]))
  }

  ghost predicate IdmsFit(es: seq<IdmEntry>) {
    forall i :: 0 <= i < |es| ==> IdmFits(es[i])
  }

  ghost predicate EdmsFit(es: seq<EdmEntry>) {
    forall i :: 0 <= i < |es| ==> EdmFits(es[i])
  }

  /** Every number written fits its field. */
  ghost predicate Writable(c: Codec, d: Data) {
    && |c.encode(HeaderOf(d))| < TWO_32
    && Bloom.BloomBits(|Bloom.Distinct(AllHashes(d))|) < TWO_32
    && |d.idmEntries| < TWO_32 && IdmsFit(SortedIdm(d))
    && |d.edmEntries| < TWO_32 && EdmsFit(SortedEdm(d))
  }

  ghost predicate IsBodyOf(c: Codec, d: Data, w: Body) {
    && w.headerJson == c.encode(HeaderOf(d))
    && Bloom.IsFilterOf(w.bloom, Bloom.Distinct(AllHashes(d)))
    && w.idm == SignedIdms(SortedIdm(d))
    && w.edm == SignedEdms(SortedEdm(d))
  }

  /** writeUInt16LE and writeUInt32LE: out of range throws. */
  method WriteUint(v: int, n: nat) returns (r: Option<Bytes>)
    ensures r == if 0 <= v < Pow256(n) then Some(Le(v, n)) else None
  {
    return if 0 <= v < Pow256(n) then Some(Le(v, n)) else None;
  }

  method WriteIdm(es: seq<IdmEntry>) returns (r: Option<Bytes>)
    ensures if IdmsFit(es) then r == Some(IdmSection(es)) else r.None?
  {
    Pow256Values();
    hide Le, Pow256;
    var buffer: Bytes := [];
    for i := 0 to |es|
      invariant forall j :: 0 <= j < i ==> IdmFits(es[j])
      invariant buffer == IdmSection(es[..i])
    {
      var docIndex := WriteUint(es[i].docIndex, 4);
      if docIndex.None? {
        return None;
      }
      assert es[..i + 1][..i] == es[..i];
      assert Le(AsUint64(es[i].hash), 8) + docIndex.value == IdmBytes(es[i]);
      buffer := buffer + (Le(AsUint64(es[i].hash), 8) + docIndex.value);
    }
    assert es[..|es|] == es;
    return Some(buffer);
  }

  method WriteEdm(es: seq<EdmEntry>) returns (r: Option<Bytes>)
    ensures if EdmsFit(es) then r == Some(EdmSection(es)) else r.None?
  {
    Pow256Values();
    hide Le, Pow256;
    var buffer: Bytes := [];
    for i := 0 to |es|
      invariant forall j :: 0 <= j < i ==> EdmFits(es[j])
      invariant buffer == EdmSection(es[..i])
    {
      var sourceIndex := WriteUint(es[i].sourceIndex, 2);
      if sourceIndex.None? {
        return None;
      }
      var rowId := WriteUint(es[i].rowId, 4);
      if rowId.None? {
        return None;
      }
      var fieldId := WriteUint(es[i].fieldId, 2);
      if fieldId.None? {
        return None;
      }
      assert es[..i + 1][..i] == es[..i];
      var entry := Le(AsUint64(es[i].hash), 8) + sourceIndex.value + rowId.value + fieldId.value;
      assert entry == EdmBytes(es[i]);
      buffer := buffer + entry;
    }
    assert es[..|es|] == es;
    return Some(buffer);
  }

  lemma {:induction false} IdmSectionOfSigned(es: seq<IdmEntry>)
    requires forall i :: 0 <= i < |es| ==> IdmFits(es[i])
    ensures forall i :: 0 <= i < |es| ==> IsInt64(SignedIdms(es)[i].hash) && IdmFits(SignedIdms(es)[i])
    ensures IdmSection(SignedIdms(es)) == IdmSection(es)
    decreases |es|
  {
    forall i | 0 <= i < |es|
      ensures IsInt64(SignedIdms(es)[i].hash) && IdmFits(SignedIdms(es)[i])
    {
      ViewsAgree(es[i].hash, es[i].hash);
    }
    if es != [] {
      var front, last := es[..|es| - 1], es[|es| - 1];
      IdmSectionOfSigned(front);
      assert SignedIdms(es)[..|es| - 1] == SignedIdms(front);
      ViewsAgree(last.hash, last.hash);
      assert IdmBytes(SignedIdm(last)) == IdmBytes(last);
    }
  }

  lemma {:induction false} EdmSectionOfSigned(es: seq<EdmEntry>)
    requires forall i :: 0 <= i < |es| ==> EdmFits(es[i])
    ensures forall i :: 0 <= i < |es| ==> IsInt64(SignedEdms(es)[i].hash) && EdmFits(SignedEdms(es)[i])
    ensures EdmSection(SignedEdms(es)) == EdmSection(es)
    decreases |es|
  {
    forall i | 0 <= i < |es|
      ensures IsInt64(SignedEdms(es)[i].hash) && EdmFits(SignedEdms(es)[i])
    {
      ViewsAgree(es[i].hash, es[i].hash);
    }
    if es != [] {
      var front, last := es[..|es| - 1], es[|es| - 1];
      EdmSectionOfSigned(front);
      assert SignedEdms(es)[..|es| - 1] == SignedEdms(front);
      ViewsAgree(last.hash, last.hash);
      assert EdmBytes(SignedEdm(last)) == EdmBytes(last);
    }
  }

  lemma FilterShape(f: Bloom.Filter, hs: set<int>)
    requires Bloom.IsFilterOf(f, hs)
    ensures f.mBits == Bloom.BloomBits(|hs|) && f.kHashes == Bloom.BLOOM_K && |f.bits| == (f.mBits + 7) / 8
  {
    hide Bloom.Hit, Bloom.BitAt;
  }

  lemma EnoughBits(n: nat)
    ensures Bloom.BloomBits(n) >= 8
  {
  }

  lemma BodyOfWritable(c: Codec, d: Data, w: Body)
    requires Writable(c, d) && IsBodyOf(c, d, w)
    ensures BodyFits(w)
    ensures IdmSection(w.idm) == IdmSection(SortedIdm(d)) && EdmSection(w.edm) == EdmSection(SortedEdm(d))
  {
    hide Bloom.IsFilterOf, Bloom.BloomBits, Bloom.Distinct, KeySort.SortBy;
    hide SignedIdms, SignedEdms, IdmSection, EdmSection;
    IdmSectionOfSigned(SortedIdm(d));
    EdmSectionOfSigned(SortedEdm(d));
    FilterShape(w.bloom, Bloom.Distinct(AllHashes(d)));
    EnoughBits(|Bloom.Distinct(AllHashes(d))|);
  }

  ghost predicate IsBundleOf(c: Codec, d: Data, signed: bool, w: Body, bytes: Bytes) {
    && BodyFits(w) && IsBodyOf(c, d, w)
    && bytes == Unsigned(w) + if signed then SignatureBytes(c.sign(Unsigned(w))) else []
  }

  method BuildBundle(c: Codec, d: Data, signed: bool) returns (r: Option<Bytes>)
    requires ShortSignatures(c)
    ensures r.Some? <==> Writable(c, d)
    ensures r.Some? ==> exists w :: IsBundleOf(c, d, signed, w, r.value)
  {
    hide Le, Pow256, IdmSection, EdmSection, Bloom.IsFilterOf, KeySort.SortBy, SignedIdms, SignedEdms,
         Bloom.Distinct, Bloom.BloomBits, IdmsFit, EdmsFit, BodyFits;
    Pow256Values();
    var idm, edm := SortedIdm(d), SortedEdm(d);
    var headerJson := c.encode(HeaderOf(d));
    var bloom := Bloom.BuildBloom(IdmHashes(idm) + EdmHashes(edm));
    FilterShape(bloom, Bloom.Distinct(AllHashes(d)));
    ghost var w := Body(headerJson, bloom, SignedIdms(idm), SignedEdms(edm));
    assert IsBodyOf(c, d, w);
    var idmBuf := WriteIdm(idm);
    if idmBuf.None? {
      return None;
    }
    var edmBuf := WriteEdm(edm);
    if edmBuf.None? {
      return None;
    }
    var headerLen := WriteUint(|headerJson|, 4);
    if headerLen.None? {
      return None;
    }
    var mBits := WriteUint(bloom.mBits, 4);
    if mBits.None? {
      return None;
    }
    var idmCount := WriteUint(|idm|, 4);
    if idmCount.None? {
      return None;
    }
    var edmCount := WriteUint(|edm|, 4);
    if edmCount.None? {
      return None;
    }
    var unsigned := MAGIC + Le(FORMAT_VERSION, 2) + headerLen.value + headerJson
                    + (mBits.value + Le(bloom.kHashes, 4) + bloom.bits)
                    + idmCount.value + idmBuf.value + edmCount.value + edmBuf.value;
    BodyOfWritable(c, d, w);
    assert unsigned == Unsigned(w);
    if !signed {
      assert unsigned + [] == unsigned;
      assert IsBundleOf(c, d, signed, w, unsigned);
      return Some(unsigned);
    }
    var sig := c.sign(unsigned);
    assert IsBundleOf(c, d, signed, w, unsigned + SignatureBytes(sig));
    return Some(unsigned + (Le(|sig|, 4) + sig));
  }

  // ------------------------------------------------------------------
  // Parsing
  // ------------------------------------------------------------------

  datatype Parsed = Parsed(
    header: Header, bloom: Bloom.Filter, idm: seq<IdmEntry>, edm: seq<EdmEntry>, signature: Bytes)

  /** The check against the length of a header list; without a length nothing is out of range. */
  predicate InListing<T>(l: Listing<T>, index: int) {
    match l
    case Absent => false
    case Items(items) => index < |items|
    case NoArray(length, _) => length.None? || index as real < length.value
  }

  predicate AscendingHashes(hashes: seq<int>) {
    forall i :: 0 < i < |hashes| ==> AsUint64(hashes[i - 1]) <= AsUint64(hashes[i])
  }

  predicate IdmAcceptable(h: Header, es: seq<IdmEntry>) {
    AscendingHashes(IdmHashes(es)) && forall i :: 0 <= i < |es| ==> InListing(h.docs, es[i].docIndex)
  }

  predicate EdmAcceptable(h: Header, es: seq<EdmEntry>) {
    AscendingHashes(EdmHashes(es)) && forall i :: 0 <= i < |es| ==> InListing(h.edmSources, es[i].sourceIndex)
  }

  predicate CountsMatch(h: Header, w: Body) {
    h.counts.Some? ==> h.counts.value.idm == |w.idm| && h.counts.value.edm == |w.edm|
  }

  /** What a buffer is accepted as; nothing when any check fails. */
  function Accepted(c: Codec, b: Bytes): Option<Parsed> {
    if !WellShaped(b) then None
    else
      BodyInverse(b);
      var w, rest := ReadBody(b).value.value, ReadBody(b).value.rest;
      var signature := ReadSignature(rest).value;
      match c.parse(w.headerJson)
      case None => None
      case Some(h) =>
        if IdmAcceptable(h, w.idm) && EdmAcceptable(h, w.edm) && CountsMatch(h, w)
           && c.verify(b[..|b| - |rest|], signature)
        then Some(Parsed(h, w.bloom, w.idm, w.edm, signature))
        else None
  }

  /** need(n) and a little-endian read at an offset. */
  method ReadUintAt(buffer: Bytes, off: nat, n: nat) returns (r: Option<nat>)
    requires off <= |buffer|
    ensures match ReadUint(buffer[off..], n)
            case None => r.None?
            case Some(g) => r == Some(g.value) && off + n <= |buffer| && g.rest == buffer[off + n..]
  {
    hide Value;
    if off + n > |buffer| {
      return None;
    }
    assert buffer[off..][..n] == buffer[off..off + n] && buffer[off..][n..] == buffer[off + n..];
    return Some(Value(buffer[off..off + n]));
  }

  lemma {:induction false} IdmEntriesLength(b: Bytes, n: nat)
    ensures ReadIdmEntries(b, n).Some? <==> 12 * n <= |b|
    ensures ReadIdmEntries(b, n).Some? ==> ReadIdmEntries(b, n).value.rest == b[12 * n..]
  {
    hide Value;
    if n > 0 {
      IdmEntriesLength(b, n - 1);
    }
  }

  lemma {:induction false} EdmEntriesLength(b: Bytes, n: nat)
    ensures ReadEdmEntries(b, n).Some? <==> 16 * n <= |b|
    ensures ReadEdmEntries(b, n).Some? ==> ReadEdmEntries(b, n).value.rest == b[16 * n..]
  {
    hide Value;
    if n > 0 {
      EdmEntriesLength(b, n - 1);
    }
  }

  /** Fewer entries read from the same place are the first of the more. */
  lemma {:induction false} IdmEntriesPrefix(b: Bytes, m: nat, n: nat)
    requires m <= n && ReadIdmEntries(b, n).Some?
    ensures ReadIdmEntries(b, m).Some?
    ensures |ReadIdmEntries(b, n).value.value| == n
    ensures ReadIdmEntries(b, m).value.value == ReadIdmEntries(b, n).value.value[..m]
    decreases n
  {
    hide ReadIdmEntry;
    IdmEntriesInverse(b, n);
    if m < n {
      IdmEntriesPrefix(b, m, n - 1);
    }
  }

  lemma {:induction false} EdmEntriesPrefix(b: Bytes, m: nat, n: nat)
    requires m <= n && ReadEdmEntries(b, n).Some?
    ensures ReadEdmEntries(b, m).Some?
    ensures |ReadEdmEntries(b, n).value.value| == n
    ensures ReadEdmEntries(b, m).value.value == ReadEdmEntries(b, n).value.value[..m]
    decreases n
  {
    hide ReadEdmEntry;
    EdmEntriesInverse(b, n);
    if m < n {
      EdmEntriesPrefix(b, m, n - 1);
    }
  }

  method ReadIdmAt(buffer: Bytes, off: nat) returns (e: IdmEntry)
    requires off + 12 <= |buffer|
    ensures ReadIdmEntry(buffer[off..]) == Some(Got(e, buffer[off + 12..]))
  {
    var hash := ReadUintAt(buffer, off, 8);
    var docIndex := ReadUintAt(buffer, off + 8, 4);
    return IdmEntry(AsInt64(hash.value), docIndex.value);
  }

  method ReadEdmAt(buffer: Bytes, off: nat) returns (e: EdmEntry)
    requires off + 16 <= |buffer|
    ensures ReadEdmEntry(buffer[off..]) == Some(Got(e, buffer[off + 16..]))
  {
    var hash := ReadUintAt(buffer, off, 8);
    var sourceIndex := ReadUintAt(buffer, off + 8, 2);
    var rowId := ReadUintAt(buffer, off + 10, 4);
    var fieldId := ReadUintAt(buffer, off + 14, 2);
    return EdmEntry(AsInt64(hash.value), sourceIndex.value, rowId.value, fieldId.value);
  }

  /** A flaw among the first entries is a flaw of the whole section. */
  lemma IdmFlawStays(h: Header, es: seq<IdmEntry>, n: nat)
    requires n <= |es| && !IdmAcceptable(h, es[..n])
    ensures !IdmAcceptable(h, es)
  {
    var hs, ps := IdmHashes(es), IdmHashes(es[..n]);
    assert forall i :: 0 <= i < n ==> ps[i] == hs[i] && es[..n][i] == es[i];
  }

  lemma EdmFlawStays(h: Header, es: seq<EdmEntry>, n: nat)
    requires n <= |es| && !EdmAcceptable(h, es[..n])
    ensures !EdmAcceptable(h, es)
  {
    var hs, ps := EdmHashes(es), EdmHashes(es[..n]);
    assert forall i :: 0 <= i < n ==> ps[i] == hs[i] && es[..n][i] == es[i];
  }

  lemma IdmNext(h: Header, es: seq<IdmEntry>, e: IdmEntry)
    requires IdmAcceptable(h, es)
    ensures IdmAcceptable(h, es + [e]) <==>
            (es != [] ==> AsUint64(es[|es| - 1].hash) <= AsUint64(e.hash)) && InListing(h.docs, e.docIndex)
  {
    hide AsUint64, InListing;
    var more := es + [e];
    var ps, qs := IdmHashes(es), IdmHashes(more);
    assert qs == ps + [e.hash];
    assert more[|es|] == e && forall i :: 0 <= i < |es| ==> more[i] == es[i];
    assert es != [] ==> qs[|es| - 1] == es[|es| - 1].hash;
    assert qs[|es|] == e.hash;
  }

  lemma EdmNext(h: Header, es: seq<EdmEntry>, e: EdmEntry)
    requires EdmAcceptable(h, es)
    ensures EdmAcceptable(h, es + [e]) <==>
            (es != [] ==> AsUint64(es[|es| - 1].hash) <= AsUint64(e.hash)) && InListing(h.edmSources, e.sourceIndex)
  {
    hide AsUint64, InListing;
    var more := es + [e];
    var ps, qs := EdmHashes(es), EdmHashes(more);
    assert qs == ps + [e.hash];
    assert more[|es|] == e && forall i :: 0 <= i < |es| ==> more[i] == es[i];
    assert es != [] ==> qs[|es| - 1] == es[|es| - 1].hash;
    assert qs[|es|] == e.hash;
  }

  /** The idm section at an offset: the entries and the offset after them. */
  method ParseIdm(buffer: Bytes, start: nat, h: Header) returns (r: Option<(seq<IdmEntry>, nat)>)
    requires start <= |buffer|
    ensures r.None? ==> ReadIdm(buffer[start..]).None? || !IdmAcceptable(h, ReadIdm(buffer[start..]).value.value)
    ensures r.Some? ==> r.value.1 <= |buffer| && IdmAcceptable(h, r.value.0)
                        && ReadIdm(buffer[start..]) == Some(Got(r.value.0, buffer[r.value.1..]))
  {
    hide ReadIdmEntry, IdmAcceptable, ReadIdmEntries;
    var count := ReadUintAt(buffer, start, 4);
    if count.None? {
      return None;
    }
    var n, first := count.value, start + 4;
    var section := buffer[first..];
    IdmEntriesLength(section, n);
    if first + 12 * n > |buffer| {
      return None;
    }
    var idm: seq<IdmEntry> := [];
    var prev: Option<int> := None;
    NoEntries(h, section);
    for i := 0 to n
      invariant ReadIdmEntries(section, i) == Some(Got(idm, section[12 * i..])) && |idm| == i
      invariant prev == if i == 0 then None else Some(idm[i - 1].hash)
      invariant IdmAcceptable(h, idm)
    {
      IdmEntriesPrefix(section, i + 1, n);
      IdmEntriesStep(section, i);
      IdmEntriesLength(section, i + 1);
      assert section[12 * i..] == buffer[first + 12 * i..];
      var e := ReadIdmAt(buffer, first + 12 * i);
      IdmNext(h, idm, e);
      if (prev.Some? && AsUint64(e.hash) < AsUint64(prev.value)) || !InListing(h.docs, e.docIndex) {
        IdmFlawStays(h, ReadIdmEntries(section, n).value.value, i + 1);
        return None;
      }
      idm := idm + [e];
      prev := Some(e.hash);
    }
    assert section[12 * n..] == buffer[first + 12 * n..];
    return Some((idm, first + 12 * n));
  }

  lemma NoEntries(h: Header, b: Bytes)
    ensures IdmAcceptable(h, []) && EdmAcceptable(h, [])
    ensures ReadIdmEntries(b, 0) == Some(Got([], b[0..])) && ReadEdmEntries(b, 0) == Some(Got([], b[0..]))
  {
    assert b[0..] == b;
  }

  lemma IdmEntriesStep(b: Bytes, n: nat)
    requires ReadIdmEntries(b, n + 1).Some?
    ensures ReadIdmEntries(b, n).Some?
    ensures ReadIdmEntry(ReadIdmEntries(b, n).value.rest).Some?
    ensures ReadIdmEntries(b, n + 1).value
            == Got(ReadIdmEntries(b, n).value.value + [ReadIdmEntry(ReadIdmEntries(b, n).value.rest).value.value],
                   ReadIdmEntry(ReadIdmEntries(b, n).value.rest).value.rest)
  {
    hide ReadIdmEntry;
  }

  /** The edm section at an offset: the entries and the offset after them. */
  method ParseEdm(buffer: Bytes, start: nat, h: Header) returns (r: Option<(seq<EdmEntry>, nat)>)
    requires start <= |buffer|
    ensures r.None? ==> ReadEdm(buffer[start..]).None? || !EdmAcceptable(h, ReadEdm(buffer[start..]).value.value)
    ensures r.Some? ==> r.value.1 <= |buffer| && EdmAcceptable(h, r.value.0)
                        && ReadEdm(buffer[start..]) == Some(Got(r.value.0, buffer[r.value.1..]))
  {
    hide ReadEdmEntry, EdmAcceptable, ReadEdmEntries;
    var count := ReadUintAt(buffer, start, 4);
    if count.None? {
      return None;
    }
    var n, first := count.value, start + 4;
    var section := buffer[first..];
    EdmEntriesLength(section, n);
    if first + 16 * n > |buffer| {
      return None;
    }
    var edm: seq<EdmEntry> := [];
    var prev: Option<int> := None;
    NoEntries(h, section);
    for i := 0 to n
      invariant ReadEdmEntries(section, i) == Some(Got(edm, section[16 * i..])) && |edm| == i
      invariant prev == if i == 0 then None else Some(edm[i - 1].hash)
      invariant EdmAcceptable(h, edm)
    {
      EdmEntriesPrefix(section, i + 1, n);
      EdmEntriesStep(section, i);
      EdmEntriesLength(section, i + 1);
      assert section[16 * i..] == buffer[first + 16 * i..];
      var e := ReadEdmAt(buffer, first + 16 * i);
      EdmNext(h, edm, e);
      if (prev.Some? && AsUint64(e.hash) < AsUint64(prev.value)) || !InListing(h.edmSources, e.sourceIndex) {
        EdmFlawStays(h, ReadEdmEntries(section, n).value.value, i + 1);
        return None;
      }
      edm := edm + [e];
      prev := Some(e.hash);
    }
    assert section[16 * n..] == buffer[first + 16 * n..];
    return Some((edm, first + 16 * n));
  }

  lemma EdmEntriesStep(b: Bytes, n: nat)
    requires ReadEdmEntries(b, n + 1).Some?
    ensures ReadEdmEntries(b, n).Some?
    ensures ReadEdmEntry(ReadEdmEntries(b, n).value.rest).Some?
    ensures ReadEdmEntries(b, n + 1).value
            == Got(ReadEdmEntries(b, n).value.value + [ReadEdmEntry(ReadEdmEntries(b, n).value.rest).value.value],
                   ReadEdmEntry(ReadEdmEntries(b, n).value.rest).value.rest)
  {
    hide ReadEdmEntry;
  }

  method ParsePreamble(buffer: Bytes) returns (r: bool)
    ensures r <==> ReadPreamble(buffer).Some?
    ensures r ==> |buffer| >= 7 && ReadPreamble(buffer) == Some(buffer[7..])
  {
    hide Value;
    if |buffer| < 5 || buffer[..5] != MAGIC {
      return false;
    }
    var version := ReadUintAt(buffer, 5, 2);
    return version == Some(FORMAT_VERSION);
  }

  method ParseHeader(buffer: Bytes, off: nat) returns (r: Option<(Bytes, nat)>)
    requires off <= |buffer|
    ensures match ReadHeader(buffer[off..])
            case None => r.None?
            case Some(g) => r.Some? && r.value.1 <= |buffer| && g == Got(r.value.0, buffer[r.value.1..])
  {
    hide Value;
    var len := ReadUintAt(buffer, off, 4);
    if len.None? || off + 4 + len.value > |buffer| {
      return None;
    }
    var from := off + 4;
    assert buffer[from..][..len.value] == buffer[from..from + len.value];
    assert buffer[from..][len.value..] == buffer[from + len.value..];
    return Some((buffer[from..from + len.value], from + len.value));
  }

  method ParseBloom(buffer: Bytes, off: nat) returns (r: Option<(Bloom.Filter, nat)>)
    requires off <= |buffer|
    ensures match ReadBloom(buffer[off..])
            case None => r.None?
            case Some(g) => r.Some? && r.value.1 <= |buffer| && g == Got(r.value.0, buffer[r.value.1..])
  {
    hide Value;
    var mBits := ReadUintAt(buffer, off, 4);
    if mBits.None? {
      return None;
    }
    var kHashes := ReadUintAt(buffer, off + 4, 4);
    if kHashes.None? || mBits.value < 8 || kHashes.value < 1 || kHashes.value > 64 {
      return None;
    }
    var from, bloomBytes := off + 8, (mBits.value + 7) / 8;
    if from + bloomBytes > |buffer| {
      return None;
    }
    assert buffer[from..][..bloomBytes] == buffer[from..from + bloomBytes];
    assert buffer[from..][bloomBytes..] == buffer[from + bloomBytes..];
    return Some((Bloom.Filter(mBits.value, kHashes.value, buffer[from..from + bloomBytes]), from + bloomBytes));
  }

  method ParseSignature(buffer: Bytes, off: nat) returns (r: Option<Bytes>)
    requires off <= |buffer|
    ensures r == ReadSignature(buffer[off..])
  {
    hide Value;
    var len := ReadUintAt(buffer, off, 4);
    if len.None? || off + 4 + len.value != |buffer| {
      return None;
    }
    assert buffer[off + 4..off + 4 + len.value] == buffer[off + 4..];
    return Some(buffer[off + 4..off + 4 + len.value]);
  }

  /** Verifies a bundle and parses it; any inconsistency refuses it. */
  method VerifyAndParse(c: Codec, buffer: Bytes) returns (r: Option<Parsed>)
    ensures r == Accepted(c, buffer)
  {
    hide IdmAcceptable, EdmAcceptable, ReadIdm, ReadEdm, ReadPreamble, ReadHeader, ReadBloom, ReadSignature;
    var preamble := ParsePreamble(buffer);
    if !preamble {
      return None;
    }
    var json := ParseHeader(buffer, 7);
    if json.None? {
      return None;
    }
    var header := c.parse(json.value.0);
    if header.None? {
      return None;
    }
    var bloom := ParseBloom(buffer, json.value.1);
    if bloom.None? {
      return None;
    }
    var idm := ParseIdm(buffer, bloom.value.1, header.value);
    if idm.None? {
      return None;
    }
    var edm := ParseEdm(buffer, idm.value.1, header.value);
    if edm.None? {
      return None;
    }
    var signedEnd := edm.value.1;
    var signature := ParseSignature(buffer, signedEnd);
    if signature.None? {
      return None;
    }
    assert buffer[..|buffer| - |buffer[signedEnd..]|] == buffer[..signedEnd];
    if !c.verify(buffer[..signedEnd], signature.value) {
      return None;
    }
    if header.value.counts.Some?
       && (header.value.counts.value.idm != |idm.value.0| || header.value.counts.value.edm != |edm.value.0|) {
      return None;
    }
    return Some(Parsed(header.value, bloom.value.0, idm.value.0, edm.value.0, signature.value));
  }
}
