/**
  Text extraction from nested zip archives under one shared character budget.
  An archive is a tree: what its central directory and streams deliver, and what
  the format-specific extractors make of the members that are not archives.
 */
module ZipExtract {
  import opened CodeUnits
  import opened Wrappers

  const ZIP_MAX_DEPTH: nat := 3
  const ZIP_MEMBER_CAP_BYTES: nat := 20 * 1024 * 1024
  const ZIP_TOTAL_TEXT_CAP: nat := 10 * 1024 * 1024

  datatype Reason = TooLarge | CorruptContainer | EncryptedContainer | UnsupportedFormat | BinaryContent | NoTextLayer

  /** Foreign is any error that is not a refusal, such as an unknown compression method. */
  datatype Fault = Unreadable(reason: Reason) | Foreign

  const CORRUPT := Unreadable(CorruptContainer)
  const ENCRYPTED := Unreadable(EncryptedContainer)

  datatype Stream = OpenFails | Stream(chunks: seq<nat>, fails: bool)

  /** Broken is an error event in place of an entry. */
  datatype Entry =
    | Broken
    | Entry(encrypted: bool, directory: bool, claimedSize: nat, stream: Stream, content: Content)

  datatype Content = Leaf(outcome: Result<Text, Fault>) | Nested(zip: Zip)

  datatype Zip = NotAZip | Zip(entries: seq<Entry>)

  // ------------------------------------------------------------------
  // Reading the members of one archive
  // ------------------------------------------------------------------

  function Sum(chunks: seq<nat>): nat {
    if chunks == [] then 0 else Sum(chunks[..|chunks| - 1]) + chunks[|chunks| - 1]
  }

  /** What makes reading an entry reject the whole archive. */
  function EntryFault(e: Entry): Option<Fault> {
    if e.Broken? then Some(CORRUPT)
    else if e.encrypted then Some(ENCRYPTED)
    else if e.directory || e.claimedSize > ZIP_MEMBER_CAP_BYTES then None
    else if e.stream.OpenFails? then Some(Foreign)
    else if e.stream.fails && Sum(e.stream.chunks) <= ZIP_MEMBER_CAP_BYTES then Some(CORRUPT)
    else None
  }

  function FirstFault(entries: seq<Entry>): Option<Fault> {
    if entries == [] then None
    else if EntryFault(entries[0]).Some? then EntryFault(entries[0])
    else FirstFault(entries[1..])
  }

  /** The member an entry contributes: none for a directory, one without data when over the size cap. */
  function MemberOf(e: Entry): seq<Option<Content>>
    requires EntryFault(e).None?
  {
    if e.directory then []
    else if e.claimedSize > ZIP_MEMBER_CAP_BYTES || Sum(e.stream.chunks) > ZIP_MEMBER_CAP_BYTES then [None]
    else [Some(e.content)]
  }

  function Members(entries: seq<Entry>): seq<Option<Content>>
    requires FirstFault(entries).None?
  {
    if entries == [] then []
    else MemberOf(entries[0]) + Members(entries[1..])
  }

  function ReadMembers(z: Zip): Result<seq<Option<Content>>, Fault> {
    if z.NotAZip? then Err(CORRUPT)
    else if FirstFault(z.entries).Some? then Err(FirstFault(z.entries).value)
    else Ok(Members(z.entries))
  }

  lemma {:induction false} SumGrows(chunks: seq<nat>, n: nat)
    requires n <= |chunks|
    ensures Sum(chunks[..n]) <= Sum(chunks)
    decreases |chunks|
  {
    if n < |chunks| {
      var front := chunks[..|chunks| - 1];
      assert front[..n] == chunks[..n];
      SumGrows(front, n);
    } else {
      assert chunks[..n] == chunks;
    }
  }

  /** Drains a stream; false when the cap was exceeded. */
  method CollectStream(chunks: seq<nat>, fails: bool, maxBytes: nat) returns (r: Result<bool, Fault>)
    ensures r == if Sum(chunks) > maxBytes then Ok(false) else if fails then Err(CORRUPT) else Ok(true)
  {
    var total := 0;
    for i := 0 to |chunks|
      invariant total == Sum(chunks[..i]) <= maxBytes
    {
      assert chunks[..i + 1][..i] == chunks[..i];
      total := total + chunks[i];
      if total > maxBytes {
        SumGrows(chunks, i + 1);
        return Ok(false);
      }
    }
    assert chunks[..|chunks|] == chunks;
    return if fails then Err(CORRUPT) else Ok(true);
  }

  method ReadEntry(e: Entry) returns (r: Result<seq<Option<Content>>, Fault>)
    ensures r == if EntryFault(e).Some? then Err(EntryFault(e).value) else Ok(MemberOf(e))
  {
    if e.Broken? {
      return Err(CORRUPT);
    }
    if e.encrypted {
      return Err(ENCRYPTED);
    }
    if e.directory {
      return Ok([]);
    }
    if e.claimedSize > ZIP_MEMBER_CAP_BYTES {
      return Ok([None]);
    }
    if e.stream.OpenFails? {
      return Err(Foreign);
    }
    var data := CollectStream(e.stream.chunks, e.stream.fails, ZIP_MEMBER_CAP_BYTES);
    if data.Err? {
      return Err(data.error);
    }
    return Ok([if data.value then Some(e.content) else None]);
  }

  lemma NextEntry(entries: seq<Entry>)
    requires entries != []
    ensures EntryFault(entries[0]).Some? ==> FirstFault(entries) == EntryFault(entries[0])
    ensures EntryFault(entries[0]).None? ==> FirstFault(entries) == FirstFault(entries[1..])
    ensures FirstFault(entries).None? ==>
              EntryFault(entries[0]).None? && Members(entries) == MemberOf(entries[0]) + Members(entries[1..])
  {
  }

  lemma NoEntry()
    ensures FirstFault([]).None? && Members([]) == []
  {
  }

  method ReadZipEntries(z: Zip) returns (r: Result<seq<Option<Content>>, Fault>)
    ensures r == ReadMembers(z)
  {
    if z.NotAZip? {
      return Err(CORRUPT);
    }
    hide EntryFault, MemberOf, FirstFault, Members;
    var out: seq<Option<Content>> := [];
    var n := 0;
    assert z.entries[0..] == z.entries;
    while n < |z.entries|
      invariant 0 <= n <= |z.entries|
      invariant FirstFault(z.entries[n..]) == FirstFault(z.entries)
      invariant FirstFault(z.entries).None? ==> out + Members(z.entries[n..]) == Members(z.entries)
    {
      assert z.entries[n..][0] == z.entries[n] && z.entries[n..][1..] == z.entries[n + 1..];
      NextEntry(z.entries[n..]);
      var member := ReadEntry(z.entries[n]);
      if member.Err? {
        return Err(member.error);
      }
      out := out + member.value;
      n := n + 1;
    }
    NoEntry();
    assert z.entries[n..] == [] && out + [] == out;
    return Ok(out);
  }

  // ------------------------------------------------------------------
  // Walking the members under the budget
  // ------------------------------------------------------------------

  function Join(pieces: seq<Text>): Text {
    if pieces == [] then []
    else if |pieces| == 1 then pieces[0]
    else pieces[0] + [LINE_FEED] + Join(pieces[1..])
  }

  datatype Walked = Walked(pieces: Result<seq<Text>, Fault>, remaining: nat)

  datatype Extracted = Extracted(text: Result<Text, Fault>, remaining: nat)

  /** A refusal other than for encryption is passed over. */
  predicate Skippable(f: Fault) {
    f.Unreadable? && f != ENCRYPTED
  }

  function Clip(text: Text, remaining: nat): (r: Text)
    ensures |r| <= remaining && |r| <= |text|
  {
    if |text| > remaining then text[..remaining] else text
  }

  function Prepend(pieces: seq<Text>, w: Walked): Walked {
    match w.pieces
    case Ok(more) => w.(pieces := Ok(pieces + more))
    case Err(_) => w
  }

  /** The nesting of a member inside an archive at the given depth. */
  function DepthOf(c: Content, depth: nat): nat {
    depth + if c.Nested? then 1 else 0
  }

  function ZipText(z: Zip, depth: nat, remaining: nat): Extracted
    requires 1 <= depth <= ZIP_MAX_DEPTH
    decreases ZIP_MAX_DEPTH - depth, 1, 0
  {
    match ReadMembers(z)
    case Err(f) => Extracted(Err(f), remaining)
    case Ok(members) =>
      var w := Walk(members, depth, remaining);
      Extracted(if w.pieces.Ok? then Ok(Join(w.pieces.value)) else Err(w.pieces.error), w.remaining)
  }

  function ContentText(c: Content, depth: nat, remaining: nat): Extracted
    requires 1 <= depth <= ZIP_MAX_DEPTH
    decreases ZIP_MAX_DEPTH - depth, if c.Leaf? then 0 else 2, 0
  {
    match c
    case Leaf(outcome) => Extracted(outcome, remaining)
    case Nested(zip) => ZipText(zip, depth, remaining)
  }

  function Walk(members: seq<Option<Content>>, depth: nat, remaining: nat): Walked
    requires 1 <= depth <= ZIP_MAX_DEPTH
    decreases ZIP_MAX_DEPTH - depth, 0, |members|
  {
    if members == [] then Walked(Ok([]), remaining)
    else if members[0].None? then Walk(members[1..], depth, remaining)
    else if remaining == 0 then Walked(Ok([]), remaining)
    else
      var c := members[0].value;
      if c.Nested? && depth >= ZIP_MAX_DEPTH then Walk(members[1..], depth, remaining)
      else
        var x := ContentText(c, DepthOf(c, depth), remaining);
        match x.text
        case Ok(text) =>
          var clipped := Clip(text, x.remaining);
          if text == [] then Walk(members[1..], depth, x.remaining)
          else Prepend([clipped], Walk(members[1..], depth, x.remaining - |clipped|))
        case Err(f) =>
          if Skippable(f) then Walk(members[1..], depth, x.remaining) else Walked(Err(f), x.remaining)
  }

  lemma PrependNothing(w: Walked)
    ensures Prepend([], w) == w
  {
    assert w.pieces.Ok? ==> [] + w.pieces.value == w.pieces.value;
  }

  lemma PrependStop(pieces: seq<Text>, w: Walked)
    requires w.pieces.Ok? ==> w.pieces.value == []
    ensures Prepend(pieces, w) == if w.pieces.Ok? then w.(pieces := Ok(pieces)) else w
  {
    assert pieces + [] == pieces;
  }

  lemma PrependTwice(p: seq<Text>, q: seq<Text>, w: Walked)
    ensures Prepend(p, Prepend(q, w)) == Prepend(p + q, w)
  {
    assert w.pieces.Ok? ==> p + (q + w.pieces.value) == p + q + w.pieces.value;
  }

  class Budget {
    var remaining: nat

    constructor (remaining: nat)
      ensures this.remaining == remaining
    {
      this.remaining := remaining;
    }
  }

  method ExtractZip(z: Zip, depth: nat, budget: Budget) returns (r: Result<Text, Fault>)
    requires 1 <= depth <= ZIP_MAX_DEPTH
    modifies budget
    ensures Extracted(r, budget.remaining) == ZipText(z, depth, old(budget.remaining))
    decreases ZIP_MAX_DEPTH - depth, 1
  {
    var entries := ReadZipEntries(z);
    if entries.Err? {
      return Err(entries.error);
    }
    var members := entries.value;
    ghost var whole := Walk(members, depth, budget.remaining);
    var pieces: seq<Text> := [];
    var n := 0;
    PrependNothing(whole);
    assert members[0..] == members;
    assert ZipText(z, depth, budget.remaining)
           == Extracted(if whole.pieces.Ok? then Ok(Join(whole.pieces.value)) else Err(whole.pieces.error),
                        whole.remaining);
    hide ReadMembers, Prepend, Clip, Join, ContentText, ZipText;
    while n < |members|
      invariant 0 <= n <= |members|
      invariant Prepend(pieces, Walk(members[n..], depth, budget.remaining)) == whole
    {
      var member := members[n];
      assert members[n..][0] == member && members[n..][1..] == members[n + 1..];
      n := n + 1;
      if member.None? {
        continue;
      }
      if budget.remaining <= 0 {
        break;
      }
      if member.value.Nested? && depth >= ZIP_MAX_DEPTH {
        continue;
      }
      var text := ExtractContent(member.value, DepthOf(member.value, depth), budget);
      if text.Ok? {
        if |text.value| > 0 {
          var clipped := Clip(text.value, budget.remaining);
          budget.remaining := budget.remaining - |clipped|;
          PrependTwice(pieces, [clipped], Walk(members[n..], depth, budget.remaining));
          pieces := pieces + [clipped];
        }
      } else if !(text.error.Unreadable? && text.error != ENCRYPTED) {
        PrependStop(pieces, Walked(Err(text.error), budget.remaining));
        return Err(text.error);
      }
    }
    PrependStop(pieces, Walked(Ok([]), budget.remaining));
    return Ok(Join(pieces));
  }

  method ExtractContent(c: Content, depth: nat, budget: Budget) returns (r: Result<Text, Fault>)
    requires 1 <= depth <= ZIP_MAX_DEPTH
    modifies budget
    ensures Extracted(r, budget.remaining) == ContentText(c, depth, old(budget.remaining))
    decreases ZIP_MAX_DEPTH - depth, if c.Leaf? then 0 else 2
  {
    match c {
      case Leaf(outcome) => r := outcome;
      case Nested(zip) => r := ExtractZip(zip, depth, budget);
    }
  }

  const MAX_BUFFER_BYTES: nat := 100 * 1024 * 1024

  /** Extraction from a file of the given size. */
  method ExtractText(size: nat, c: Content) returns (r: Result<Text, Fault>)
    ensures r == if size > 104857600 then Err(Unreadable(TooLarge)) else ContentText(c, 1, 10485760).text
  {
    if size > MAX_BUFFER_BYTES {
      return Err(Unreadable(TooLarge));
    }
    var budget := new Budget(ZIP_TOTAL_TEXT_CAP);
    r := ExtractContent(c, 1, budget);
  }

  // ------------------------------------------------------------------
  // The budget bounds the output
  // ------------------------------------------------------------------

  function Total(pieces: seq<Text>): nat {
    if pieces == [] then 0 else |pieces[0]| + Total(pieces[1..])
  }

  lemma {:induction false} JoinLength(pieces: seq<Text>)
    ensures |Join(pieces)| == if pieces == [] then 0 else Total(pieces) + |pieces| - 1
  {
    if |pieces| > 1 {
      JoinLength(pieces[1..]);
    }
  }

  lemma {:induction false} NothingLeft(members: seq<Option<Content>>, depth: nat)
    requires 1 <= depth <= ZIP_MAX_DEPTH
    ensures Walk(members, depth, 0) == Walked(Ok([]), 0)
    decreases |members|
  {
    if members != [] {
      NothingLeft(members[1..], depth);
    }
  }

  /** The pieces of one archive together are no longer than what was spent on it,
      and at most one of them, the last, is empty. */
  lemma {:induction false} PiecesWithinBudget(members: seq<Option<Content>>, depth: nat, remaining: nat)
    requires 1 <= depth <= ZIP_MAX_DEPTH
    ensures var w := Walk(members, depth, remaining);
            && w.remaining <= remaining
            && (w.pieces.Ok? ==> Total(w.pieces.value) <= remaining - w.remaining
                                 && |w.pieces.value| <= Total(w.pieces.value) + 1)
    decreases ZIP_MAX_DEPTH - depth, |members|
  {
    if members != [] {
      var rest := members[1..];
      PiecesWithinBudget(rest, depth, remaining);
      if members[0].Some? && remaining > 0 && !(members[0].value.Nested? && depth >= ZIP_MAX_DEPTH) {
        var c := members[0].value;
        var x := ContentText(c, DepthOf(c, depth), remaining);
        assert c.Nested? ==> x == ZipText(c.zip, depth + 1, remaining);
        if c.Nested? && ReadMembers(c.zip).Ok? {
          PiecesWithinBudget(ReadMembers(c.zip).value, depth + 1, remaining);
        }
        assert x.remaining <= remaining;
        PiecesWithinBudget(rest, depth, x.remaining);
        if x.text.Ok? && x.text.value != [] {
          var clipped := Clip(x.text.value, x.remaining);
          PiecesWithinBudget(rest, depth, x.remaining - |clipped|);
          NothingLeft(rest, depth);
          var more := Walk(rest, depth, x.remaining - |clipped|).pieces;
          assert more.Ok? ==> ([clipped] + more.value)[1..] == more.value;
        }
      }
    }
  }

  /** The text of an archive is at most twice what was spent on it, separators included. */
  lemma OutputWithinBudget(z: Zip, depth: nat, remaining: nat)
    requires 1 <= depth <= ZIP_MAX_DEPTH
    ensures var x := ZipText(z, depth, remaining);
            && x.remaining <= remaining
            && (x.text.Ok? ==> |x.text.value| <= 2 * (remaining - x.remaining))
  {
    if ReadMembers(z).Ok? {
      var members := ReadMembers(z).value;
      PiecesWithinBudget(members, depth, remaining);
      var w := Walk(members, depth, remaining);
      if w.pieces.Ok? {
        JoinLength(w.pieces.value);
      }
    }
  }

  // ------------------------------------------------------------------
  // Encryption refuses
  // ------------------------------------------------------------------

  /** The archives opened while extracting z, in order. */
  function Opened(z: Zip, depth: nat, remaining: nat): seq<Zip>
    requires 1 <= depth <= ZIP_MAX_DEPTH
    decreases ZIP_MAX_DEPTH - depth, 1, 0
  {
    [z] + if ReadMembers(z).Err? then [] else OpenedBelow(ReadMembers(z).value, depth, remaining)
  }

  function OpenedBelow(members: seq<Option<Content>>, depth: nat, remaining: nat): seq<Zip>
    requires 1 <= depth <= ZIP_MAX_DEPTH
    decreases ZIP_MAX_DEPTH - depth, 0, |members|
  {
    if members == [] then []
    else if members[0].None? then OpenedBelow(members[1..], depth, remaining)
    else if remaining == 0 then []
    else
      var c := members[0].value;
      if c.Nested? && depth >= ZIP_MAX_DEPTH then OpenedBelow(members[1..], depth, remaining)
      else
        var inner := if c.Nested? then Opened(c.zip, depth + 1, remaining) else [];
        var x := ContentText(c, DepthOf(c, depth), remaining);
        match x.text
        case Ok(text) => inner + OpenedBelow(members[1..], depth, x.remaining - |Clip(text, x.remaining)|)
        case Err(f) => inner + if Skippable(f) then OpenedBelow(members[1..], depth, x.remaining) else []
  }

  ghost predicate NoEncryptedEntry(z: Zip) {
    z.Zip? && forall i :: 0 <= i < |z.entries| ==> z.entries[i].Entry? && !z.entries[i].encrypted
  }

  /** The archive was read to its end, or given up as corrupt and passed over. */
  ghost predicate ReadOrCorrupt(z: Zip) {
    if ReadMembers(z).Ok? then NoEncryptedEntry(z) else ReadMembers(z).error == CORRUPT
  }

  lemma {:induction false} FaultFreeIsUnencrypted(entries: seq<Entry>)
    requires FirstFault(entries).None?
    ensures forall i :: 0 <= i < |entries| ==> entries[i].Entry? && !entries[i].encrypted
  {
    if entries != [] {
      FaultFreeIsUnencrypted(entries[1..]);
      assert forall i :: 0 < i < |entries| ==> entries[i] == entries[1..][i - 1];
    }
  }

  lemma {:induction false} ReadFaults(entries: seq<Entry>)
    ensures FirstFault(entries).Some? ==> FirstFault(entries).value in {CORRUPT, ENCRYPTED, Foreign}
  {
    if entries != [] {
      ReadFaults(entries[1..]);
    }
  }

  /** If extraction of an archive returns, that archive holds no encrypted entry, and every
      archive opened on the way holds none either or was passed over as corrupt. */
  lemma {:induction false} NormalReturnIsUnencrypted(z: Zip, depth: nat, remaining: nat)
    requires 1 <= depth <= ZIP_MAX_DEPTH && ZipText(z, depth, remaining).text.Ok?
    ensures NoEncryptedEntry(z) && forall o :: o in Opened(z, depth, remaining) ==> ReadOrCorrupt(o)
    decreases ZIP_MAX_DEPTH - depth, 1, 0
  {
    FaultFreeIsUnencrypted(z.entries);
    WalkedIsUnencrypted(ReadMembers(z).value, depth, remaining);
  }

  lemma {:induction false} WalkedIsUnencrypted(members: seq<Option<Content>>, depth: nat, remaining: nat)
    requires 1 <= depth <= ZIP_MAX_DEPTH && Walk(members, depth, remaining).pieces.Ok?
    ensures forall o :: o in OpenedBelow(members, depth, remaining) ==> ReadOrCorrupt(o)
    decreases ZIP_MAX_DEPTH - depth, 0, |members|
  {
    hide ReadOrCorrupt, NoEncryptedEntry, ReadMembers;
    if members != [] {
      var rest := members[1..];
      if members[0].None? || (remaining > 0 && members[0].value.Nested? && depth >= ZIP_MAX_DEPTH) {
        WalkedIsUnencrypted(rest, depth, remaining);
      } else if remaining > 0 {
        var c := members[0].value;
        var x := ContentText(c, DepthOf(c, depth), remaining);
        if c.Nested? {
          if x.text.Ok? {
            NormalReturnIsUnencrypted(c.zip, depth + 1, remaining);
          } else {
            SkippedIsCorrupt(c.zip, depth + 1, remaining);
          }
        }
        WalkedIsUnencrypted(rest, depth, match x.text
                                         case Ok(text) => x.remaining - |Clip(text, x.remaining)|
                                         case Err(_) => x.remaining);
      }
    }
  }

  /** A nested archive is only ever passed over as corrupt, and then nothing was spent on it. */
  lemma {:induction false} SkippedIsCorrupt(z: Zip, depth: nat, remaining: nat)
    requires 1 <= depth <= ZIP_MAX_DEPTH
    requires var x := ZipText(z, depth, remaining); x.text.Err? && Skippable(x.text.error)
    ensures ReadMembers(z) == Err(CORRUPT) && ZipText(z, depth, remaining).remaining == remaining
    ensures Opened(z, depth, remaining) == [z] && ReadOrCorrupt(z)
  {
    if z.Zip? {
      ReadFaults(z.entries);
    }
    if ReadMembers(z).Ok? {
      WalkFaults(ReadMembers(z).value, depth, remaining);
    }
  }

  lemma {:induction false} WalkFaults(members: seq<Option<Content>>, depth: nat, remaining: nat)
    requires 1 <= depth <= ZIP_MAX_DEPTH
    ensures var w := Walk(members, depth, remaining); w.pieces.Err? ==> !Skippable(w.pieces.error)
    decreases |members|
  {
    if members != [] {
      var rest := members[1..];
      WalkFaults(rest, depth, remaining);
      if members[0].Some? && remaining > 0 && !(members[0].value.Nested? && depth >= ZIP_MAX_DEPTH) {
        var c := members[0].value;
        var x := ContentText(c, DepthOf(c, depth), remaining);
        WalkFaults(rest, depth, x.remaining);
        if x.text.Ok? {
          WalkFaults(rest, depth, x.remaining - |Clip(x.text.value, x.remaining)|);
        }
      }
    }
  }

  /** An archive that a fault hides before its encrypted entry is passed over, not refused. */
  lemma CorruptHidesEncryption(encrypted: Entry, depth: nat, remaining: nat)
    requires 1 <= depth < ZIP_MAX_DEPTH && encrypted.Entry? && encrypted.encrypted && remaining > 0
    ensures var inner := Zip([Broken, encrypted]);
            !NoEncryptedEntry(inner)
            && ZipText(Zip([Member(Nested(inner))]), depth, remaining) == Extracted(Ok([]), remaining)
  {
    var inner := Zip([Broken, encrypted]);
    assert ReadMembers(inner) == Err(CORRUPT);
    assert ZipText(inner, depth + 1, remaining) == Extracted(Err(CORRUPT), remaining);
    OneMember(Nested(inner));
    var members := [Some(Nested(inner))];
    assert members[1..] == [];
    assert Walk(members, depth, remaining) == Walk([], depth, remaining);
  }

  /** An archive reached after the budget is spent is never opened, encrypted or not. */
  lemma SpentBudgetHidesEncryption(text: Text, inner: Zip, depth: nat)
    requires 1 <= depth <= ZIP_MAX_DEPTH && text != []
    ensures ZipText(Zip([Member(Leaf(Ok(text))), Member(Nested(inner))]), depth, |text|) == Extracted(Ok(text), 0)
  {
    var a, b := Member(Leaf(Ok(text))), Member(Nested(inner));
    OneMember(a.content);
    OneMember(b.content);
    var members := [Some(a.content), Some(b.content)];
    assert [a, b][1..] == [b] && members[1..] == [Some(b.content)];
    assert Members([a, b]) == members;
    NothingLeft([Some(b.content)], depth);
    assert Walk(members, depth, |text|) == Walked(Ok([text] + []), 0);
  }

  /** A plain readable member. */
  function Member(c: Content): (e: Entry)
    ensures EntryFault(e).None?
  {
    Entry(false, false, 0, Stream([], false), c)
  }

  lemma OneMember(c: Content)
    ensures FirstFault([Member(c)]).None? && Members([Member(c)]) == MemberOf(Member(c)) == [Some(c)]
    ensures ReadMembers(Zip([Member(c)])) == Ok([Some(c)])
  {
    var e := Member(c);
    var es := [e];
    assert es[1..] == [];
    assert FirstFault(es) == FirstFault([]);
    assert MemberOf(e) == [Some(c)];
    assert Members(es) == [Some(c)] + Members([]);
    assert [Some(c)] + [] == [Some(c)];
    assert ReadMembers(Zip(es)) == Ok(Members(es));
  }

  // ------------------------------------------------------------------
  // When the budget changes the result
  // ------------------------------------------------------------------

  /** Extraction with no budget at all. */
  function FullZip(z: Zip, depth: nat): Result<Text, Fault>
    requires 1 <= depth <= ZIP_MAX_DEPTH
    decreases ZIP_MAX_DEPTH - depth, 1, 0
  {
    match ReadMembers(z)
    case Err(f) => Err(f)
    case Ok(members) =>
      match FullWalk(members, depth)
      case Ok(pieces) => Ok(Join(pieces))
      case Err(f) => Err(f)
  }

  function FullContent(c: Content, depth: nat): Result<Text, Fault>
    requires 1 <= depth <= ZIP_MAX_DEPTH
    decreases ZIP_MAX_DEPTH - depth, if c.Leaf? then 0 else 2, 0
  {
    match c
    case Leaf(outcome) => outcome
    case Nested(zip) => FullZip(zip, depth)
  }

  function FullWalk(members: seq<Option<Content>>, depth: nat): Result<seq<Text>, Fault>
    requires 1 <= depth <= ZIP_MAX_DEPTH
    decreases ZIP_MAX_DEPTH - depth, 0, |members|
  {
    if members == [] then Ok([])
    else
      var more := FullWalk(members[1..], depth);
      if members[0].None? || (members[0].value.Nested? && depth >= ZIP_MAX_DEPTH) then more
      else
        match FullContent(members[0].value, DepthOf(members[0].value, depth))
        case Ok(text) => if text == [] || more.Err? then more else Ok([text] + more.value)
        case Err(f) => if Skippable(f) then more else Err(f)
  }

  /** What the budget is charged: every text once for each archive it passes through. */
  function ChargeOfZip(z: Zip, depth: nat): nat
    requires 1 <= depth <= ZIP_MAX_DEPTH
    decreases ZIP_MAX_DEPTH - depth, 1, 0
  {
    if ReadMembers(z).Err? then 0 else Charge(ReadMembers(z).value, depth)
  }

  function Charge(members: seq<Option<Content>>, depth: nat): nat
    requires 1 <= depth <= ZIP_MAX_DEPTH
    decreases ZIP_MAX_DEPTH - depth, 0, |members|
  {
    if members == [] then 0
    else
      var more := Charge(members[1..], depth);
      if members[0].None? || (members[0].value.Nested? && depth >= ZIP_MAX_DEPTH) then more
      else
        var c := members[0].value;
        var inner := if c.Nested? then ChargeOfZip(c.zip, depth + 1) else 0;
        var text := FullContent(c, DepthOf(c, depth));
        inner + (if text.Ok? then |text.value| else 0) + more
  }

  ghost predicate Shorter(xs: seq<Text>, ys: seq<Text>) {
    |Join(xs)| < |Join(ys)|
  }

  /** A list of nonempty pieces that starts longer, or has more after an equal start, joins to more. */
  lemma JoinGrows(x: Text, xs: seq<Text>, ys: seq<Text>)
    ensures |Join([x] + xs)| == |x| + if xs == [] then 0 else 1 + |Join(xs)|
    ensures Shorter(xs, ys) ==> Shorter([x] + xs, [x] + ys)
  {
    assert ([x] + xs)[1..] == xs && ([x] + ys)[1..] == ys;
  }

  /** Something is charged exactly when there is text. */
  lemma {:induction false} ChargedIsText(members: seq<Option<Content>>, depth: nat)
    requires 1 <= depth <= ZIP_MAX_DEPTH && FullWalk(members, depth).Ok?
    ensures var full := FullWalk(members, depth).value;
            && (Charge(members, depth) == 0 <==> full == [])
            && (full == [] <==> Join(full) == [])
    decreases ZIP_MAX_DEPTH - depth, 0, |members|
  {
    if members != [] {
      var rest := members[1..];
      if members[0].None? || (members[0].value.Nested? && depth >= ZIP_MAX_DEPTH) {
        ChargedIsText(rest, depth);
      } else {
        var c := members[0].value;
        var text := FullContent(c, DepthOf(c, depth));
        assert FullWalk(rest, depth).Ok?;
        ChargedIsText(rest, depth);
        ChargedIsContent(c, DepthOf(c, depth));
        if text.Ok? && text.value != [] {
          JoinGrows(text.value, FullWalk(rest, depth).value, []);
        }
      }
    }
  }

  function ChargeWithin(c: Content, depth: nat): nat
    requires 1 <= depth <= ZIP_MAX_DEPTH
  {
    if c.Nested? then ChargeOfZip(c.zip, depth) else 0
  }

  /** Text inside a nested archive is charged inside it; without text nothing is. */
  lemma {:induction false} ChargedIsContent(c: Content, depth: nat)
    requires 1 <= depth <= ZIP_MAX_DEPTH
    requires var text := FullContent(c, depth); text.Ok? || Skippable(text.error)
    ensures var text := FullContent(c, depth);
            ChargeWithin(c, depth) == 0 <==> c.Leaf? || text.Err? || text.value == []
    ensures c.Nested? && FullContent(c, depth).Err? ==> ReadMembers(c.zip).Err?
    decreases ZIP_MAX_DEPTH - depth, if c.Leaf? then 0 else 2, 0
  {
    if c.Nested? && ReadMembers(c.zip).Ok? {
      FullFaults(ReadMembers(c.zip).value, depth);
      ChargedIsText(ReadMembers(c.zip).value, depth);
    }
  }

  lemma {:induction false} FullFaults(members: seq<Option<Content>>, depth: nat)
    requires 1 <= depth <= ZIP_MAX_DEPTH
    ensures FullWalk(members, depth).Err? ==> !Skippable(FullWalk(members, depth).error)
    decreases |members|
  {
    if members != [] {
      FullFaults(members[1..], depth);
    }
  }

  /** Within the charge the walk is lossless; beyond it the budget ends at zero and text is missing. */
  ghost predicate WalksExactly(members: seq<Option<Content>>, depth: nat, remaining: nat)
    requires 1 <= depth <= ZIP_MAX_DEPTH && FullWalk(members, depth).Ok?
  {
    var w, full := Walk(members, depth, remaining), FullWalk(members, depth).value;
    w.pieces.Ok?
    && if Charge(members, depth) <= remaining then w == Walked(Ok(full), remaining - Charge(members, depth))
       else w.remaining == 0 && Shorter(w.pieces.value, full)
  }

  ghost predicate ExtractsExactly(c: Content, depth: nat, remaining: nat)
    requires 1 <= depth <= ZIP_MAX_DEPTH && FullContent(c, depth).Ok?
  {
    var x, full := ContentText(c, depth, remaining), FullContent(c, depth).value;
    x.text.Ok?
    && if ChargeWithin(c, depth) <= remaining then x == Extracted(Ok(full), remaining - ChargeWithin(c, depth))
       else x.remaining == 0 && |x.text.value| < |full|
  }

  lemma {:induction false} WalkIsExact(members: seq<Option<Content>>, depth: nat, remaining: nat)
    requires 1 <= depth <= ZIP_MAX_DEPTH && FullWalk(members, depth).Ok?
    ensures WalksExactly(members, depth, remaining)
    decreases ZIP_MAX_DEPTH - depth, 0, |members|
  {
    if remaining == 0 {
      NothingLeft(members, depth);
      ChargedIsText(members, depth);
    } else if members != [] {
      var rest := members[1..];
      if members[0].None? || (members[0].value.Nested? && depth >= ZIP_MAX_DEPTH) {
        WalkIsExact(rest, depth, remaining);
      } else {
        var c := members[0].value;
        var d := DepthOf(c, depth);
        assert FullWalk(rest, depth).Ok?;
        ChargedIsContent(c, d);
        var x := ContentText(c, d, remaining);
        if FullContent(c, d).Ok? {
          ContentIsExact(c, d, remaining);
          var left := x.remaining - |Clip(x.text.value, x.remaining)|;
          WalkIsExact(rest, depth, left);
          NothingLeft(rest, depth);
          StepIsExact(members, depth, remaining);
        } else {
          WalkIsExact(rest, depth, remaining);
        }
      }
    }
  }

  lemma {:induction false} ContentIsExact(c: Content, depth: nat, remaining: nat)
    requires 1 <= depth <= ZIP_MAX_DEPTH && FullContent(c, depth).Ok?
    ensures ExtractsExactly(c, depth, remaining)
    decreases ZIP_MAX_DEPTH - depth, if c.Leaf? then 0 else 2, 0
  {
    if c.Nested? {
      WalkIsExact(ReadMembers(c.zip).value, depth, remaining);
    }
  }

  /** One member that yields text: charged, clipped if the budget falls short, then the rest. */
  lemma StepIsExact(members: seq<Option<Content>>, depth: nat, remaining: nat)
    requires 1 <= depth <= ZIP_MAX_DEPTH && FullWalk(members, depth).Ok?
    requires remaining > 0 && members != [] && members[0].Some?
    requires !(members[0].value.Nested? && depth >= ZIP_MAX_DEPTH)
    requires var c := members[0].value; FullContent(c, DepthOf(c, depth)).Ok?
    requires var c := members[0].value; ExtractsExactly(c, DepthOf(c, depth), remaining)
    requires FullWalk(members[1..], depth).Ok?
    requires var c := members[0].value;
             var x := ContentText(c, DepthOf(c, depth), remaining);
             WalksExactly(members[1..], depth, x.remaining - |Clip(x.text.value, x.remaining)|)
    requires Walk(members[1..], depth, 0) == Walked(Ok([]), 0)
    ensures WalksExactly(members, depth, remaining)
  {
    var c, rest := members[0].value, members[1..];
    var d := DepthOf(c, depth);
    var x, text, more := ContentText(c, d, remaining), FullContent(c, d).value, FullWalk(rest, depth).value;
    var clipped := Clip(x.text.value, x.remaining);
    var w := Walk(rest, depth, x.remaining - |clipped|);
    JoinGrows(clipped, w.pieces.value, more);
    JoinGrows(text, more, []);
    assert [clipped] + [] == [clipped];
  }

  /** The budget is lossless exactly when the archive's charge fits into it; a lossy
      extraction still succeeds, returns less text and leaves nothing of the budget. */
  lemma LosslessWithinCharge(z: Zip, depth: nat, remaining: nat)
    requires 1 <= depth <= ZIP_MAX_DEPTH && FullZip(z, depth).Ok?
    ensures var x := ZipText(z, depth, remaining);
            && x.text.Ok?
            && (x.text == FullZip(z, depth) <==> ChargeOfZip(z, depth) <= remaining)
            && (x.text != FullZip(z, depth) ==> x.remaining == 0 && |x.text.value| < |FullZip(z, depth).value|)
  {
    ContentIsExact(Nested(z), depth, remaining);
  }

  /** A text of 6 Mi characters fits the cap of 10 Mi, but one level of nesting charges it twice:
      its last 2 Mi characters are lost. */
  lemma NestedTextIsChargedTwice(text: Text)
    requires |text| == 6 * 1024 * 1024
    ensures var z := Zip([Member(Nested(Zip([Member(Leaf(Ok(text)))])))]);
            && FullZip(z, 1) == Ok(text)
            && ChargeOfZip(z, 1) == 12 * 1024 * 1024
            && ZipText(z, 1, ZIP_TOTAL_TEXT_CAP) == Extracted(Ok(text[..4 * 1024 * 1024]), 0)
  {
    var inner := Zip([Member(Leaf(Ok(text)))]);
    SingleText(Leaf(Ok(text)), text, 2, ZIP_TOTAL_TEXT_CAP);
    SingleText(Nested(inner), text, 1, ZIP_TOTAL_TEXT_CAP);
  }

  /** An archive of one member that yields the text. */
  lemma SingleText(c: Content, text: Text, depth: nat, remaining: nat)
    requires 1 <= depth < ZIP_MAX_DEPTH && text != [] && remaining > 0
    requires FullContent(c, DepthOf(c, depth)) == Ok(text)
    requires ContentText(c, DepthOf(c, depth), remaining).text == Ok(text)
    ensures var z, r := Zip([Member(c)]), ContentText(c, DepthOf(c, depth), remaining).remaining;
            && FullZip(z, depth) == Ok(text)
            && ChargeOfZip(z, depth) == ChargeWithin(c, DepthOf(c, depth)) + |text|
            && ZipText(z, depth, remaining) == Extracted(Ok(Clip(text, r)), r - |Clip(text, r)|)
  {
    OneMember(c);
    var members := [Some(c)];
    var x := ContentText(c, DepthOf(c, depth), remaining);
    var clipped := Clip(text, x.remaining);
    assert members[1..] == [];
    assert FullWalk(members, depth) == Ok([text] + []);
    assert Walk(members, depth, remaining) == Walked(Ok([clipped] + []), x.remaining - |clipped|);
    assert Charge(members, depth) == ChargeWithin(c, DepthOf(c, depth)) + |text|;
  }
}