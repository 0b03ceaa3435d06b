/**
  The byte format of an index bundle: writers for its parts, readers that take a
  part off the front of a buffer, and the proofs that they undo each other.
 */
module BundleFormat {
  import opened Wrappers
  import opened LittleEndian
  import opened Widths
  import Bloom

  type Bytes = seq<Byte>

  const MAGIC: Bytes := [68, 76, 80, 88, 49]
  const FORMAT_VERSION: nat := 1

  datatype IdmEntry = IdmEntry(hash: int, docIndex: int)

  datatype EdmEntry = EdmEntry(hash: int, sourceIndex: int, rowId: int, fieldId: int)

  /** Everything the signature covers, after the magic and the version. */
  datatype Body = Body(headerJson: Bytes, bloom: Bloom.Filter, idm: seq<IdmEntry>, edm: seq<EdmEntry>)

  // ------------------------------------------------------------------
  // Values a bundle can hold
  // ------------------------------------------------------------------

  predicate IsInt64(h: int) {
    -TWO_63 <= h < TWO_63
  }

  predicate IdmFits(e: IdmEntry) {
    0 <= e.docIndex < TWO_32
  }

  predicate EdmFits(e: EdmEntry) {
    0 <= e.sourceIndex < TWO_16 && 0 <= e.rowId < TWO_32 && 0 <= e.fieldId < TWO_16
  }

  predicate BloomFits(f: Bloom.Filter) {
    8 <= f.mBits < TWO_32 && 1 <= f.kHashes <= 64 && |f.bits| == (f.mBits + 7) / 8
  }

  predicate BodyFits(w: Body) {
    && |w.headerJson| < TWO_32 && BloomFits(w.bloom) && |w.idm| < TWO_32 && |w.edm| < TWO_32
    && (forall i :: 0 <= i < |w.idm| ==> IsInt64(w.idm[i].hash) && IdmFits(w.idm[i]))
    && (forall i :: 0 <= i < |w.edm| ==> IsInt64(w.edm[i].hash) && EdmFits(w.edm[i]))
  }

  // ------------------------------------------------------------------
  // Writing
  // ------------------------------------------------------------------

  function IdmBytes(e: IdmEntry): Bytes
    requires IdmFits(e)
  {
    Le(AsUint64(e.hash), 8) + Le(e.docIndex, 4)
  }

  function EdmBytes(e: EdmEntry): Bytes
    requires EdmFits(e)
  {
    Le(AsUint64(e.hash), 8) + Le(e.sourceIndex, 2) + Le(e.rowId, 4) + Le(e.fieldId, 2)
  }

  function IdmSection(es: seq<IdmEntry>): Bytes
    requires forall i :: 0 <= i < |es| ==> IdmFits(es[i])
  {
    if es == [] then [] else IdmSection(es[..|es| - 1]) + IdmBytes(es[|es| - 1])
  }

  function EdmSection(es: seq<EdmEntry>): Bytes
    requires forall i :: 0 <= i < |es| ==> EdmFits(es[i])
  {
    if es == [] then [] else EdmSection(es[..|es| - 1]) + EdmBytes(es[|es| - 1])
  }

  function BloomBytes(f: Bloom.Filter): Bytes {
    Le(f.mBits, 4) + Le(f.kHashes, 4) + f.bits
  }

  /** The part of a bundle that is signed. */
  function Unsigned(w: Body): Bytes
    requires BodyFits(w)
  {
    MAGIC + Le(FORMAT_VERSION, 2)
    + Le(|w.headerJson|, 4) + w.headerJson
    + BloomBytes(w.bloom)
    + Le(|w.idm|, 4) + IdmSection(w.idm)
    + Le(|w.edm|, 4) + EdmSection(w.edm)
  }

  function SignatureBytes(signature: Bytes): Bytes {
    Le(|signature|, 4) + signature
  }

  // ------------------------------------------------------------------
  // Reading
  // ------------------------------------------------------------------

  /** A value taken off the front of a buffer, and what follows it. */
  datatype Got<T> = Got(value: T, rest: Bytes)

  function ReadUint(b: Bytes, n: nat): Option<Got<nat>> {
    if |b| < n then None else Some(Got(Value(b[..n]), b[n..]))
  }

  function ReadBytes(b: Bytes, n: nat): Option<Got<Bytes>> {
    if |b| < n then None else Some(Got(b[..n], b[n..]))
  }

  function ReadIdmEntry(b: Bytes): Option<Got<IdmEntry>> {
    match ReadUint(b, 8)
    case None => None
    case Some(h) =>
      match ReadUint(h.rest, 4)
      case None => None
      case Some(d) => Some(Got(IdmEntry(AsInt64(h.value), d.value), d.rest))
  }

  function ReadEdmEntry(b: Bytes): Option<Got<EdmEntry>> {
    match ReadUint(b, 8)
    case None => None
    case Some(h) =>
      match ReadUint(h.rest, 2)
      case None => None
      case Some(s) =>
        match ReadUint(s.rest, 4)
        case None => None
        case Some(r) =>
          match ReadUint(r.rest, 2)
          case None => None
          case Some(f) => Some(Got(EdmEntry(AsInt64(h.value), s.value, r.value, f.value), f.rest))
  }

  function ReadIdmEntries(b: Bytes, n: nat): Option<Got<seq<IdmEntry>>> {
    if n == 0 then Some(Got([], b))
    else
      match ReadIdmEntries(b, n - 1)
      case None => None
      case Some(es) =>
        match ReadIdmEntry(es.rest)
        case None => None
        case Some(e) => Some(Got(es.value + [e.value], e.rest))
  }

  function ReadEdmEntries(b: Bytes, n: nat): Option<Got<seq<EdmEntry>>> {
    if n == 0 then Some(Got([], b))
    else
      match ReadEdmEntries(b, n - 1)
      case None => None
      case Some(es) =>
        match ReadEdmEntry(es.rest)
        case None => None
        case Some(e) => Some(Got(es.value + [e.value], e.rest))
  }

  function ReadIdm(b: Bytes): Option<Got<seq<IdmEntry>>> {
    match ReadUint(b, 4)
    case None => None
    case Some(n) => ReadIdmEntries(n.rest, n.value)
  }

  function ReadEdm(b: Bytes): Option<Got<seq<EdmEntry>>> {
    match ReadUint(b, 4)
    case None => None
    case Some(n) => ReadEdmEntries(n.rest, n.value)
  }

  function ReadBloom(b: Bytes): Option<Got<Bloom.Filter>> {
    match ReadUint(b, 4)
    case None => None
    case Some(m) =>
      match ReadUint(m.rest, 4)
      case None => None
      case Some(k) =>
        if m.value < 8 || k.value < 1 || k.value > 64 then None
        else
          match ReadBytes(k.rest, (m.value + 7) / 8)
          case None => None
          case Some(bits) => Some(Got(Bloom.Filter(m.value, k.value, bits.value), bits.rest))
  }

  function ReadHeader(b: Bytes): Option<Got<Bytes>> {
    match ReadUint(b, 4)
    case None => None
    case Some(n) => ReadBytes(n.rest, n.value)
  }

  /** What follows the magic and the version. */
  function ReadPreamble(b: Bytes): Option<Bytes> {
    match ReadBytes(b, 5)
    case None => None
    case Some(magic) =>
      if magic.value != MAGIC then None
      else
        match ReadUint(magic.rest, 2)
        case None => None
        case Some(v) => if v.value == FORMAT_VERSION then Some(v.rest) else None
  }

  function ReadBody(b: Bytes): Option<Got<Body>> {
    match ReadPreamble(b)
    case None => None
    case Some(p) =>
      match ReadHeader(p)
      case None => None
      case Some(h) =>
        match ReadBloom(h.rest)
        case None => None
        case Some(f) =>
          match ReadIdm(f.rest)
          case None => None
          case Some(i) =>
            match ReadEdm(i.rest)
            case None => None
            case Some(e) => Some(Got(Body(h.value, f.value, i.value, e.value), e.rest))
  }

  /** The signature, which must end the buffer. */
  function ReadSignature(b: Bytes): Option<Bytes> {
    match ReadUint(b, 4)
    case None => None
    case Some(n) => if |n.rest| == n.value then Some(n.rest) else None
  }

  // ------------------------------------------------------------------
  // Reading undoes writing, and the other way round
  // ------------------------------------------------------------------

  lemma UintRoundTrip(v: nat, n: nat, t: Bytes)
    requires v < Pow256(n)
    ensures ReadUint(Le(v, n) + t, n) == Some(Got(v, t))
  {
    ReadWritten(v, n);
    assert (Le(v, n) + t)[..n] == Le(v, n) && (Le(v, n) + t)[n..] == t;
  }

  lemma UintInverse(b: Bytes, n: nat)
    requires ReadUint(b, n).Some?
    ensures var g := ReadUint(b, n).value; g.value < Pow256(n) && b == Le(g.value, n) + g.rest
  {
    ValueBound(b[..n]);
    WriteRead(b[..n]);
  }

  lemma IdmEntryRoundTrip(e: IdmEntry, t: Bytes)
    requires IdmFits(e) && IsInt64(e.hash)
    ensures ReadIdmEntry(IdmBytes(e) + t) == Some(Got(e, t))
  {
    hide Pow256, Le, ReadUint;
    Pow256Values();
    var d := Le(e.docIndex, 4);
    assert IdmBytes(e) + t == Le(AsUint64(e.hash), 8) + (d + t);
    UintRoundTrip(AsUint64(e.hash), 8, d + t);
    UintRoundTrip(e.docIndex, 4, t);
    ViewsAgree(e.hash, e.hash);
    SignedView(e.hash);
  }

  lemma SignedView(h: int)
    requires IsInt64(h)
    ensures AsInt64(h) == h && AsInt64(AsUint64(h)) == h
  {
    if h < 0 {
      assert (h + TWO_64) % TWO_64 == h + TWO_64;
    }
    ViewsAgree(h, h);
  }

  lemma {:induction false} IdmEntryInverse(b: Bytes)
    requires ReadIdmEntry(b).Some?
    ensures var g := ReadIdmEntry(b).value; IdmFits(g.value) && IsInt64(g.value.hash) && b == IdmBytes(g.value) + g.rest
  {
    hide Pow256, Le, Value;
    Pow256Values();
    UintInverse(b, 8);
    var h := ReadUint(b, 8).value;
    UintInverse(h.rest, 4);
    ViewsAgree(h.value, h.value);
    assert AsUint64(AsInt64(h.value)) == h.value;
  }

  lemma EdmEntryRoundTrip(e: EdmEntry, t: Bytes)
    requires EdmFits(e) && IsInt64(e.hash)
    ensures ReadEdmEntry(EdmBytes(e) + t) == Some(Got(e, t))
  {
    hide Pow256, Le, ReadUint;
    Pow256Values();
    var s, r, f := Le(e.sourceIndex, 2), Le(e.rowId, 4), Le(e.fieldId, 2);
    assert EdmBytes(e) + t == Le(AsUint64(e.hash), 8) + (s + (r + (f + t)));
    UintRoundTrip(AsUint64(e.hash), 8, s + (r + (f + t)));
    UintRoundTrip(e.sourceIndex, 2, r + (f + t));
    UintRoundTrip(e.rowId, 4, f + t);
    UintRoundTrip(e.fieldId, 2, t);
    SignedView(e.hash);
  }

  lemma EdmEntryInverse(b: Bytes)
    requires ReadEdmEntry(b).Some?
    ensures var g := ReadEdmEntry(b).value; EdmFits(g.value) && IsInt64(g.value.hash) && b == EdmBytes(g.value) + g.rest
  {
    hide Pow256, Le, Value;
    Pow256Values();
    UintInverse(b, 8);
    var h := ReadUint(b, 8).value;
    UintInverse(h.rest, 2);
    var s := ReadUint(h.rest, 2).value;
    UintInverse(s.rest, 4);
    UintInverse(ReadUint(s.rest, 4).value.rest, 2);
    ViewsAgree(h.value, h.value);
    assert AsUint64(AsInt64(h.value)) == h.value;
  }

  lemma {:induction false} IdmEntriesRoundTrip(es: seq<IdmEntry>, t: Bytes)
    requires forall i :: 0 <= i < |es| ==> IsInt64(es[i].hash) && IdmFits(es[i])
    ensures ReadIdmEntries(IdmSection(es) + t, |es|) == Some(Got(es, t))
    decreases |es|
  {
    hide ReadIdmEntry, IdmBytes;
    if es == [] {
      assert IdmSection(es) + t == t;
    } else {
      var front, last := es[..|es| - 1], es[|es| - 1];
      assert IdmSection(es) + t == IdmSection(front) + (IdmBytes(last) + t);
      IdmEntriesRoundTrip(front, IdmBytes(last) + t);
      IdmEntryRoundTrip(last, t);
      assert front + [last] == es;
    }
  }

  lemma {:induction false} IdmEntriesInverse(b: Bytes, n: nat)
    requires ReadIdmEntries(b, n).Some?
    ensures var g := ReadIdmEntries(b, n).value;
            && |g.value| == n
            && (forall i :: 0 <= i < n ==> IsInt64(g.value[i].hash) && IdmFits(g.value[i]))
            && b == IdmSection(g.value) + g.rest
    decreases n
  {
    hide ReadIdmEntry, IdmBytes;
    if n == 0 {
      assert IdmSection([]) + b == b;
    } else {
      IdmEntriesInverse(b, n - 1);
      var es := ReadIdmEntries(b, n - 1).value;
      IdmEntryInverse(es.rest);
      var e := ReadIdmEntry(es.rest).value;
      var g := es.value + [e.value];
      assert g[..n - 1] == es.value && g[n - 1] == e.value;
      assert IdmSection(es.value) + (IdmBytes(e.value) + e.rest) == IdmSection(g) + e.rest;
    }
  }

  lemma {:induction false} EdmEntriesRoundTrip(es: seq<EdmEntry>, t: Bytes)
    requires forall i :: 0 <= i < |es| ==> IsInt64(es[i].hash) && EdmFits(es[i])
    ensures ReadEdmEntries(EdmSection(es) + t, |es|) == Some(Got(es, t))
    decreases |es|
  {
    hide ReadEdmEntry, EdmBytes;
    if es == [] {
      assert EdmSection(es) + t == t;
    } else {
      var front, last := es[..|es| - 1], es[|es| - 1];
      assert EdmSection(es) + t == EdmSection(front) + (EdmBytes(last) + t);
      EdmEntriesRoundTrip(front, EdmBytes(last) + t);
      EdmEntryRoundTrip(last, t);
      assert front + [last] == es;
    }
  }

  lemma {:induction false} EdmEntriesInverse(b: Bytes, n: nat)
    requires ReadEdmEntries(b, n).Some?
    ensures var g := ReadEdmEntries(b, n).value;
            && |g.value| == n
            && (forall i :: 0 <= i < n ==> IsInt64(g.value[i].hash) && EdmFits(g.value[i]))
            && b == EdmSection(g.value) + g.rest
    decreases n
  {
    hide ReadEdmEntry, EdmBytes;
    if n == 0 {
      assert EdmSection([]) + b == b;
    } else {
      EdmEntriesInverse(b, n - 1);
      var es := ReadEdmEntries(b, n - 1).value;
      EdmEntryInverse(es.rest);
      var e := ReadEdmEntry(es.rest).value;
      var g := es.value + [e.value];
      assert g[..n - 1] == es.value && g[n - 1] == e.value;
      assert EdmSection(es.value) + (EdmBytes(e.value) + e.rest) == EdmSection(g) + e.rest;
    }
  }

  lemma BloomRoundTrip(f: Bloom.Filter, t: Bytes)
    requires BloomFits(f)
    ensures ReadBloom(BloomBytes(f) + t) == Some(Got(f, t))
  {
    hide Pow256, Le, ReadUint;
    Pow256Values();
    assert BloomBytes(f) + t == Le(f.mBits, 4) + (Le(f.kHashes, 4) + (f.bits + t));
    UintRoundTrip(f.mBits, 4, Le(f.kHashes, 4) + (f.bits + t));
    UintRoundTrip(f.kHashes, 4, f.bits + t);
    assert (f.bits + t)[..|f.bits|] == f.bits && (f.bits + t)[|f.bits|..] == t;
  }

  lemma BloomInverse(b: Bytes)
    requires ReadBloom(b).Some?
    ensures var g := ReadBloom(b).value; BloomFits(g.value) && b == BloomBytes(g.value) + g.rest
  {
    hide Pow256, Le, Value, ReadUint, ReadBytes;
    Pow256Values();
    UintInverse(b, 4);
    var m := ReadUint(b, 4).value;
    UintInverse(m.rest, 4);
    var k := ReadUint(m.rest, 4).value;
    BytesInverse(k.rest, (m.value + 7) / 8);
  }

  lemma BytesInverse(b: Bytes, n: nat)
    requires ReadBytes(b, n).Some?
    ensures var g := ReadBytes(b, n).value; |g.value| == n && b == g.value + g.rest
  {
  }

  /** The parts of the signed text, each in front of what follows it. */
  lemma UnsignedParts(w: Body, t: Bytes)
    requires BodyFits(w)
    ensures var e := Le(|w.edm|, 4) + (EdmSection(w.edm) + t);
            var i := Le(|w.idm|, 4) + (IdmSection(w.idm) + e);
            var h := Le(|w.headerJson|, 4) + (w.headerJson + (BloomBytes(w.bloom) + i));
            Unsigned(w) + t == MAGIC + (Le(FORMAT_VERSION, 2) + h)
  {
    hide Le, EdmSection, IdmSection, BloomBytes, BodyFits;
  }

  /** The signed part of a bundle can be told from what follows it. */
  lemma BodyRoundTrip(w: Body, t: Bytes)
    requires BodyFits(w)
    ensures ReadBody(Unsigned(w) + t) == Some(Got(w, t))
  {
    hide Pow256, Le, ReadUint, EdmSection, IdmSection, BloomBytes, ReadBloom, ReadIdmEntries, ReadEdmEntries;
    Pow256Values();
    var e := EdmSection(w.edm) + t;
    var ne := Le(|w.edm|, 4) + e;
    var i := IdmSection(w.idm) + ne;
    var ni := Le(|w.idm|, 4) + i;
    var f := BloomBytes(w.bloom) + ni;
    var h := w.headerJson + f;
    var nh := Le(|w.headerJson|, 4) + h;
    var v := Le(FORMAT_VERSION, 2) + nh;
    UnsignedParts(w, t);
    assert (MAGIC + v)[..5] == MAGIC && (MAGIC + v)[5..] == v;
    UintRoundTrip(FORMAT_VERSION, 2, nh);
    assert ReadPreamble(Unsigned(w) + t) == Some(nh);
    UintRoundTrip(|w.headerJson|, 4, h);
    assert h[..|w.headerJson|] == w.headerJson && h[|w.headerJson|..] == f;
    assert ReadHeader(nh) == Some(Got(w.headerJson, f));
    BloomRoundTrip(w.bloom, ni);
    UintRoundTrip(|w.idm|, 4, i);
    IdmEntriesRoundTrip(w.idm, ne);
    assert ReadIdm(ni) == Some(Got(w.idm, ne));
    UintRoundTrip(|w.edm|, 4, e);
    EdmEntriesRoundTrip(w.edm, t);
    assert ReadEdm(ne) == Some(Got(w.edm, t));
  }

  lemma PreambleInverse(b: Bytes)
    requires ReadPreamble(b).Some?
    ensures b == MAGIC + (Le(FORMAT_VERSION, 2) + ReadPreamble(b).value)
  {
    hide Pow256, Le, Value;
    assert b == b[..5] + b[5..];
    UintInverse(b[5..], 2);
  }

  lemma HeaderInverse(b: Bytes)
    requires ReadHeader(b).Some?
    ensures var g := ReadHeader(b).value;
            |g.value| < TWO_32 && b == Le(|g.value|, 4) + (g.value + g.rest)
  {
    hide Pow256, Le, Value;
    Pow256Values();
    UintInverse(b, 4);
    var n := ReadUint(b, 4).value;
    assert n.rest == n.rest[..n.value] + n.rest[n.value..];
  }

  lemma IdmInverse(b: Bytes)
    requires ReadIdm(b).Some?
    ensures var g := ReadIdm(b).value;
            && |g.value| < TWO_32
            && (forall i :: 0 <= i < |g.value| ==> IsInt64(g.value[i].hash) && IdmFits(g.value[i]))
            && b == Le(|g.value|, 4) + (IdmSection(g.value) + g.rest)
  {
    hide Pow256, Le, Value, IdmSection, ReadIdmEntries;
    Pow256Values();
    UintInverse(b, 4);
    var n := ReadUint(b, 4).value;
    IdmEntriesInverse(n.rest, n.value);
  }

  lemma EdmInverse(b: Bytes)
    requires ReadEdm(b).Some?
    ensures var g := ReadEdm(b).value;
            && |g.value| < TWO_32
            && (forall i :: 0 <= i < |g.value| ==> IsInt64(g.value[i].hash) && EdmFits(g.value[i]))
            && b == Le(|g.value|, 4) + (EdmSection(g.value) + g.rest)
  {
    hide Pow256, Le, Value, EdmSection, ReadEdmEntries;
    Pow256Values();
    UintInverse(b, 4);
    var n := ReadUint(b, 4).value;
    EdmEntriesInverse(n.rest, n.value);
  }

  /** Whatever is read is a body that fits the format, and was written like this. */
  lemma {:induction false} BodyInverse(b: Bytes)
    requires ReadBody(b).Some?
    ensures var g := ReadBody(b).value; BodyFits(g.value) && b == Unsigned(g.value) + g.rest
  {
    hide Le, Unsigned, EdmSection, IdmSection, BloomBytes, BloomFits;
    hide ReadPreamble, ReadHeader, ReadBloom, ReadIdm, ReadEdm;
    PreambleInverse(b);
    var p := ReadPreamble(b).value;
    HeaderInverse(p);
    var h := ReadHeader(p).value;
    BloomInverse(h.rest);
    var f := ReadBloom(h.rest).value;
    IdmInverse(f.rest);
    EdmInverse(ReadIdm(f.rest).value.rest);
    var g := ReadBody(b).value;
    UnsignedParts(g.value, g.rest);
  }

  lemma SignatureRoundTrip(signature: Bytes, x: Bytes)
    requires |signature| < TWO_32
    ensures ReadSignature(SignatureBytes(signature) + x) == if x == [] then Some(signature) else None
  {
    hide Pow256, Le, ReadUint;
    Pow256Values();
    assert SignatureBytes(signature) + x == Le(|signature|, 4) + (signature + x);
    UintRoundTrip(|signature|, 4, signature + x);
    if x == [] {
      assert signature + x == signature;
    }
  }

  lemma SignatureInverse(b: Bytes)
    requires ReadSignature(b).Some?
    ensures var s := ReadSignature(b).value; |s| < TWO_32 && b == SignatureBytes(s)
  {
    hide Pow256, Le, Value;
    Pow256Values();
    UintInverse(b, 4);
  }

  // ------------------------------------------------------------------
  // Whole buffers
  // ------------------------------------------------------------------

  /** A buffer of the right shape: a body and a signature that ends it. */
  predicate WellShaped(b: Bytes) {
    ReadBody(b).Some? && ReadSignature(ReadBody(b).value.rest).Some?
  }

  /** A buffer has the right shape exactly when it is some body that fits and its signature. */
  lemma ShapeIsExact(b: Bytes)
    ensures WellShaped(b) <==>
            exists w, s {:trigger Unsigned(w), SignatureBytes(s)} ::
              BodyFits(w) && |s| < TWO_32 && b == Unsigned(w) + SignatureBytes(s)
  {
    hide Unsigned, ReadBody, ReadSignature, SignatureBytes, BodyFits;
    if WellShaped(b) {
      BodyInverse(b);
      SignatureInverse(ReadBody(b).value.rest);
    }
    forall w, s | BodyFits(w) && |s| < TWO_32 && b == Unsigned(w) + SignatureBytes(s)
      ensures WellShaped(b)
    {
      BodyRoundTrip(w, SignatureBytes(s));
      SignatureRoundTrip(s, []);
      assert SignatureBytes(s) + [] == SignatureBytes(s);
    }
  }

  /** No buffer of the right shape is a proper beginning of another. */
  lemma {:induction false} ShapeIsPrefixFree(b: Bytes, x: Bytes)
    requires WellShaped(b) && x != []
    ensures !WellShaped(b + x)
  {
    hide Unsigned, ReadBody, ReadSignature, SignatureBytes, BodyFits;
    var g := ReadBody(b).value;
    BodyInverse(b);
    BodyRoundTrip(g.value, g.rest + x);
    assert b + x == Unsigned(g.value) + (g.rest + x);
    SignatureInverse(g.rest);
    SignatureRoundTrip(ReadSignature(g.rest).value, x);
  }
}
