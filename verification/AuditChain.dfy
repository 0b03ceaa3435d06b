/**
  The tamper-evident audit log: every entry carries the hash of its predecessor
  and a hash over that hash and its own canonical text. The hash function is a
  parameter; where a result needs it to be collision free, the collision is
  handed back instead.
 */
module AuditChain {
  import opened Wrappers
  import opened CanonicalJson
  import opened CodeUnits

  const GENESIS: Text := [103, 101, 110, 101, 115, 105, 115]

  const KEY_TS: Text := [116, 115]
  const KEY_ACTOR: Text := [97, 99, 116, 111, 114]
  const KEY_ACTION: Text := [97, 99, 116, 105, 111, 110]
  const KEY_TARGET: Text := [116, 97, 114, 103, 101, 116]
  const KEY_DETAIL: Text := [100, 101, 116, 97, 105, 108]

  datatype Content = Content(ts: Text, actor: Text, action: Text, target: Option<Text>, detail: Json)

  datatype Row = Row(seqNo: nat, content: Content, prevHash: Text, hash: Text)

  function TargetJson(target: Option<Text>): Json {
    match target
    case None => Null
    case Some(t) => Str(t)
  }

  function EntryObject(c: Content): Json {
    Obj([Member(KEY_TS, Str(c.ts)), Member(KEY_ACTOR, Str(c.actor)), Member(KEY_ACTION, Str(c.action)),
         Member(KEY_TARGET, TargetJson(c.target)), Member(KEY_DETAIL, c.detail)])
  }

  function EntryString(c: Content): Text {
    Canonical(EntryObject(c))
  }

  /** A digest in lower-case hexadecimal. */
  predicate IsDigest(h: Text) {
    |h| == 64 && forall i :: 0 <= i < |h| ==> 48 <= h[i] < 58 || 97 <= h[i] < 103
  }

  ghost predicate DigestFunction(H: Text -> Text) {
    forall x :: IsDigest(H(x))
  }

  ghost predicate Collision(H: Text -> Text, x: Text, y: Text) {
    x != y && H(x) == H(y)
  }

  // ------------------------------------------------------------------
  // Writing
  // ------------------------------------------------------------------

  /** A call commits, or rolls back before or after its insert drew a sequence number. */
  datatype Outcome = Committed | RolledBack(seqDrawn: bool)

  /** One call of the writer and what the database makes of it. */
  datatype Attempt = Attempt(ts: Text, actor: Text, action: Text, target: Option<Text>, detail: Json, outcome: Outcome)

  /** The table and its sequence, which a rolled-back insert may have advanced. */
  datatype Log = Log(rows: seq<Row>, nextSeq: nat)

  function TipHash(rows: seq<Row>): Text {
    if rows == [] then GENESIS else rows[|rows| - 1].hash
  }

  function NewRow(H: Text -> Text, log: Log, a: Attempt): Row {
    var content := Content(a.ts, a.actor, a.action, a.target, NormalizeDetail(a.detail));
    Row(log.nextSeq, content, TipHash(log.rows), H(TipHash(log.rows) + EntryString(content)))
  }

  function Appended(H: Text -> Text, log: Log, a: Attempt): Log {
    match a.outcome
    case Committed => Log(log.rows + [NewRow(H, log, a)], log.nextSeq + 1)
    case RolledBack(seqDrawn) => log.(nextSeq := if seqDrawn then log.nextSeq + 1 else log.nextSeq)
  }

  function Written(H: Text -> Text, attempts: seq<Attempt>): Log {
    if attempts == [] then Log([], 1)
    else Appended(H, Written(H, attempts[..|attempts| - 1]), attempts[|attempts| - 1])
  }

  /** The row holds what the call was given. */
  predicate IsRowOf(row: Row, a: Attempt) {
    && row.content.ts == a.ts && row.content.actor == a.actor && row.content.action == a.action
    && row.content.target == a.target && row.content.detail == NormalizeDetail(a.detail)
  }

  class AuditLog {
    var rows: seq<Row>
    var nextSeq: nat

    ghost function Contents(): Log
      reads this
    {
      Log(rows, nextSeq)
    }

    constructor ()
      ensures Contents() == Log([], 1)
    {
      rows, nextSeq := [], 1;
    }

    /** Writers are serialized by a lock, so a call is one step. */
    method Audit(H: Text -> Text, a: Attempt)
      modifies this
      ensures Contents() == Appended(H, old(Contents()), a)
      ensures a.outcome.RolledBack? ==> rows == old(rows)
      ensures a.outcome.Committed? ==> |rows| == |old(rows)| + 1 && rows[..|old(rows)|] == old(rows)
      ensures a.outcome.Committed? ==>
                var row := rows[|old(rows)|];
                && IsRowOf(row, a) && row.seqNo == old(nextSeq)
                && row.prevHash == (if old(rows) == [] then Units("genesis") else old(rows)[|old(rows)| - 1].hash)
                && row.hash == H(row.prevHash + EntryString(row.content))
    {
      var prevHash := if |rows| > 0 then rows[|rows| - 1].hash else GENESIS;
      var normalized := NormalizeDetail(a.detail);
      var content := Content(a.ts, a.actor, a.action, a.target, normalized);
      var hash := H(prevHash + EntryString(content));
      if a.outcome.Committed? {
        rows := rows + [Row(nextSeq, content, prevHash, hash)];
      }
      if a.outcome.Committed? || a.outcome.seqDrawn {
        nextSeq := nextSeq + 1;
      }
    }
  }

  // ------------------------------------------------------------------
  // Verifying
  // ------------------------------------------------------------------

  /** Row i names the hash before it, and its own hash is right. */
  predicate Consistent(H: Text -> Text, rows: seq<Row>, i: nat)
    requires i < |rows|
  {
    && rows[i].prevHash == TipHash(rows[..i])
    && rows[i].hash == H(rows[i].prevHash + EntryString(rows[i].content))
  }

  ghost predicate Intact(H: Text -> Text, rows: seq<Row>) {
    forall i :: 0 <= i < |rows| ==> Consistent(H, rows, i)
  }

  /** The sequence number of the first inconsistent row, or nothing. */
  method VerifyChain(H: Text -> Text, rows: seq<Row>) returns (broken: Option<nat>)
    ensures broken.None? <==> Intact(H, rows)
    ensures broken.Some? ==>
              exists i :: 0 <= i < |rows| && broken.value == rows[i].seqNo && !Consistent(H, rows, i)
                          && forall j :: 0 <= j < i ==> Consistent(H, rows, j)
  {
    var prevHash := GENESIS;
    for n := 0 to |rows|
      invariant prevHash == TipHash(rows[..n])
      invariant forall j :: 0 <= j < n ==> Consistent(H, rows, j)
    {
      var row := rows[n];
      var expected := H(prevHash + EntryString(row.content));
      if row.prevHash != prevHash || row.hash != expected {
        assert !Consistent(H, rows, n);
        return Some(row.seqNo);
      }
      assert rows[..n + 1][n] == row;
      prevHash := row.hash;
    }
    return None;
  }

  // ------------------------------------------------------------------
  // Every run verifies
  // ------------------------------------------------------------------

  ghost predicate WellFormedAttempts(attempts: seq<Attempt>) {
    forall i :: 0 <= i < |attempts| ==> WellFormed(attempts[i].detail)
  }

  /** The database may reorder the keys of a stored detail, at every depth. */
  ghost predicate StoredAs(row: Row, stored: Row) {
    && stored == row.(content := row.content.(detail := stored.content.detail))
    && IsJson(row.content.detail) && IsJson(stored.content.detail)
    && Equiv(row.content.detail, stored.content.detail)
  }

  ghost predicate StoredLog(rows: seq<Row>, stored: seq<Row>) {
    |stored| == |rows| && forall i :: 0 <= i < |rows| ==> StoredAs(rows[i], stored[i])
  }

  lemma KeysAreDistinct(c: Content)
    ensures DistinctMembers(EntryObject(c).members)
  {
    assert |KEY_ACTOR| != |KEY_ACTION|;
    assert KEY_ACTION[0] != KEY_TARGET[0] && KEY_ACTION[0] != KEY_DETAIL[0] && KEY_TARGET[0] != KEY_DETAIL[0];
  }

  lemma EntryIsJson(c: Content)
    requires IsJson(c.detail)
    ensures IsJson(EntryObject(c)) && EntryString(c) != [] && EntryString(c)[0] == OPEN_OBJECT
  {
    hide Join, PairTexts, SortPairs, MemberPairs;
    KeysAreDistinct(c);
    var ms := EntryObject(c).members;
    assert forall i :: 0 <= i < |ms| ==> WellFormed(ms[i].value) && Defined(ms[i].value);
  }

  /** Equal entry texts mean the same content, up to the key order of the detail. */
  lemma EntryStringMeans(c: Content, d: Content)
    requires IsJson(c.detail) && IsJson(d.detail)
    ensures EntryString(c) == EntryString(d) <==>
            c.ts == d.ts && c.actor == d.actor && c.action == d.action && c.target == d.target
            && Equiv(c.detail, d.detail)
  {
    EntryIsJson(c);
    EntryIsJson(d);
    CanonicalForm(EntryObject(c), EntryObject(d));
    EntryEquiv(c, d);
  }

  /** With the same keys in the same places, objects are compared place by place. */
  lemma SameKeysEquiv(ms: seq<Member>, ns: seq<Member>)
    requires |ms| == |ns| && DistinctMembers(ms) && DistinctMembers(ns)
    requires forall i :: 0 <= i < |ms| ==> ms[i].key == ns[i].key
    ensures Equiv(Obj(ms), Obj(ns)) <==> forall i :: 0 <= i < |ms| ==> Equiv(ms[i].value, ns[i].value)
  {
    hide Equiv;
    EquivObjects(ms, ns);
    forall i | 0 <= i < |ms|
      ensures MatchedIn(ms[i], ns) <==> Equiv(ms[i].value, ns[i].value)
      ensures MatchedBy(ms, ns[i]) <==> Equiv(ms[i].value, ns[i].value)
    {
      assert ms[i] in ms && ns[i] in ns;
    }
  }

  lemma EquivObjects(ms: seq<Member>, ns: seq<Member>)
    ensures Equiv(Obj(ms), Obj(ns)) <==>
            (forall i :: 0 <= i < |ms| ==> MatchedIn(ms[i], ns)) && (forall i :: 0 <= i < |ns| ==> MatchedBy(ms, ns[i]))
  {
    hide MatchedIn, MatchedBy;
  }

  lemma EntryEquiv(c: Content, d: Content)
    ensures Equiv(EntryObject(c), EntryObject(d)) <==>
            c.ts == d.ts && c.actor == d.actor && c.action == d.action && c.target == d.target
            && Equiv(c.detail, d.detail)
  {
    var ms, ns := EntryObject(c).members, EntryObject(d).members;
    KeysAreDistinct(c);
    KeysAreDistinct(d);
    SameKeysEquiv(ms, ns);
    assert Equiv(ms[0].value, ns[0].value) <==> c.ts == d.ts;
    assert Equiv(ms[1].value, ns[1].value) <==> c.actor == d.actor;
    assert Equiv(ms[2].value, ns[2].value) <==> c.action == d.action;
    assert Equiv(ms[3].value, ns[3].value) <==> c.target == d.target;
    assert ms[4].value == c.detail && ns[4].value == d.detail;
  }

  lemma TipOfPrefix(rows: seq<Row>, stored: seq<Row>, i: nat)
    requires StoredLog(rows, stored) && i <= |rows|
    ensures TipHash(stored[..i]) == TipHash(rows[..i])
  {
    if i > 0 {
      assert stored[..i][i - 1].hash == stored[i - 1].hash == rows[i - 1].hash == rows[..i][i - 1].hash;
    }
  }

  /** Reordering keys in storage never breaks a row. */
  lemma StoredIsIntact(H: Text -> Text, rows: seq<Row>, stored: seq<Row>)
    requires Intact(H, rows) && StoredLog(rows, stored)
    ensures Intact(H, stored)
  {
    hide EntryString, Equiv, IsJson;
    forall i | 0 <= i < |stored|
      ensures Consistent(H, stored, i)
    {
      assert Consistent(H, rows, i) && StoredAs(rows[i], stored[i]);
      TipOfPrefix(rows, stored, i);
      EntryStringMeans(rows[i].content, stored[i].content);
    }
  }

  ghost predicate JsonRows(rows: seq<Row>) {
    forall i :: 0 <= i < |rows| ==> IsJson(rows[i].content.detail)
  }

  ghost predicate AscendingSeq(rows: seq<Row>) {
    forall i, j :: 0 <= i < j < |rows| ==> rows[i].seqNo < rows[j].seqNo
  }

  lemma {:induction false} WrittenIsIntact(H: Text -> Text, attempts: seq<Attempt>)
    requires WellFormedAttempts(attempts)
    ensures var log := Written(H, attempts);
            && Intact(H, log.rows) && JsonRows(log.rows) && AscendingSeq(log.rows)
            && forall i :: 0 <= i < |log.rows| ==> log.rows[i].seqNo < log.nextSeq
  {
    hide EntryString, IsJson, NormalizeDetail;
    if attempts != [] {
      var earlier, a := attempts[..|attempts| - 1], attempts[|attempts| - 1];
      WrittenIsIntact(H, earlier);
      NormalizedIsStored(a.detail);
      var before, rows := Written(H, earlier).rows, Written(H, attempts).rows;
      forall i | 0 <= i < |rows|
        ensures Consistent(H, rows, i)
      {
        assert rows[..i] == if i < |before| then before[..i] else before;
        if i < |before| {
          assert Consistent(H, before, i);
        }
      }
    }
  }

  /** The calls before the n-th that committed. */
  function CommittedBefore(attempts: seq<Attempt>, n: nat): set<nat>
    requires n <= |attempts|
  {
    set i: nat | i < n && attempts[i].outcome.Committed?
  }

  /** Every committed call leaves exactly one row, in the order of the calls, with the fields it was
      given; a rolled-back call leaves none. */
  lemma {:induction false} CommittedCallsAreLogged(H: Text -> Text, attempts: seq<Attempt>)
    ensures |Written(H, attempts).rows| == |CommittedBefore(attempts, |attempts|)|
    ensures forall i: nat :: i < |attempts| && attempts[i].outcome.Committed? ==>
              && |CommittedBefore(attempts, i)| < |Written(H, attempts).rows|
              && IsRowOf(Written(H, attempts).rows[|CommittedBefore(attempts, i)|], attempts[i])
  {
    hide CommittedBefore, IsRowOf, Appended;
    if attempts == [] {
      CommittedNext(attempts, 0);
    } else {
      var n := |attempts| - 1;
      var earlier := attempts[..n];
      CommittedCallsAreLogged(H, earlier);
      CommittedNext(attempts, n);
      RowAppended(H, Written(H, earlier), attempts[n]);
      forall i: nat | i < n
        ensures CommittedBefore(attempts, i) == CommittedBefore(earlier, i) && attempts[i] == earlier[i]
      {
        SameBefore(attempts, n, i);
      }
      SameBefore(attempts, n, n);
      var before, rows := Written(H, earlier).rows, Written(H, attempts).rows;
      assert |rows| == |before| + if attempts[n].outcome.Committed? then 1 else 0;
      assert n + 1 == |attempts|;
    }
  }

  lemma RowAppended(H: Text -> Text, log: Log, a: Attempt)
    ensures var rows := Appended(H, log, a).rows;
            && log.rows <= rows
            && |rows| == |log.rows| + (if a.outcome.Committed? then 1 else 0)
            && (a.outcome.Committed? ==> IsRowOf(rows[|log.rows|], a))
  {
    hide NormalizeDetail, EntryString;
  }

  lemma SameBefore(attempts: seq<Attempt>, n: nat, i: nat)
    requires i <= n <= |attempts|
    ensures CommittedBefore(attempts, i) == CommittedBefore(attempts[..n], i)
  {
  }

  lemma CommittedNext(attempts: seq<Attempt>, n: nat)
    requires n <= |attempts|
    ensures n == 0 ==> |CommittedBefore(attempts, n)| == 0
    ensures n < |attempts| ==> |CommittedBefore(attempts, n + 1)|
                               == |CommittedBefore(attempts, n)| + if attempts[n].outcome.Committed? then 1 else 0
  {
    if n < |attempts| {
      var last: set<nat> := if attempts[n].outcome.Committed? then {n} else {};
      assert CommittedBefore(attempts, n + 1) == CommittedBefore(attempts, n) + last;
    }
  }

  /** Whatever was written, committed or rolled back, and however storage orders
      the keys of the details, verification finds nothing wrong. */
  lemma EveryRunVerifies(H: Text -> Text, attempts: seq<Attempt>, stored: seq<Row>)
    requires WellFormedAttempts(attempts) && StoredLog(Written(H, attempts).rows, stored)
    ensures Intact(H, stored)
  {
    WrittenIsIntact(H, attempts);
    StoredIsIntact(H, Written(H, attempts).rows, stored);
  }

  // ------------------------------------------------------------------
  // Tamper evidence
  // ------------------------------------------------------------------

  /** The text whose hash a row carries. */
  function Hashed(row: Row): Text {
    row.prevHash + EntryString(row.content)
  }

  ghost predicate SameEntry(r: Row, s: Row) {
    && r.prevHash == s.prevHash && r.hash == s.hash
    && r.content.ts == s.content.ts && r.content.actor == s.content.actor && r.content.action == s.content.action
    && r.content.target == s.content.target && Equiv(r.content.detail, s.content.detail)
  }

  ghost predicate SameEntries(a: seq<Row>, b: seq<Row>) {
    |a| == |b| && forall i :: 0 <= i < |a| ==> SameEntry(a[i], b[i])
  }

  /** Hashes hold no brace, so the hash and the entry can be told apart in what was hashed. */
  lemma HashedSplits(p: Text, e: Text, q: Text, f: Text)
    requires p + e == q + f && e != [] && f != [] && e[0] == f[0] == OPEN_OBJECT
    requires OPEN_OBJECT !in p && OPEN_OBJECT !in q
    ensures p == q && e == f
  {
    var t := p + e;
    assert forall i :: 0 <= i < |p| ==> t[i] == p[i] && t[i] in p;
    assert forall i :: 0 <= i < |q| ==> t[i] == q[i] && t[i] in q;
    assert t[|p|] == e[0] && t[|q|] == f[0];
    assert |p| == |q|;
    assert p == t[..|p|] && q == t[..|q|] && e == t[|p|..] && f == t[|q|..];
  }

  lemma TipHasNoBrace(H: Text -> Text, rows: seq<Row>)
    requires DigestFunction(H) && Intact(H, rows)
    ensures OPEN_OBJECT !in TipHash(rows)
    ensures |TipHash(rows)| == |GENESIS| <==> rows == []
  {
    hide EntryString;
    if rows != [] {
      assert Consistent(H, rows, |rows| - 1);
      assert IsDigest(TipHash(rows));
    }
  }

  /** Two rows with the same hash hold the same entry, or are a collision. */
  lemma SameHashSameEntry(H: Text -> Text, r: Row, s: Row)
    requires IsJson(r.content.detail) && IsJson(s.content.detail)
    requires OPEN_OBJECT !in r.prevHash && OPEN_OBJECT !in s.prevHash
    requires r.hash == H(Hashed(r)) && s.hash == H(Hashed(s)) && r.hash == s.hash
    ensures Collision(H, Hashed(r), Hashed(s)) || SameEntry(r, s)
  {
    hide EntryString, IsJson, Equiv;
    if Hashed(r) == Hashed(s) {
      EntryIsJson(r.content);
      EntryIsJson(s.content);
      HashedSplits(r.prevHash, EntryString(r.content), s.prevHash, EntryString(s.content));
      EntryStringMeans(r.content, s.content);
    }
  }

  lemma IntactPrefix(H: Text -> Text, rows: seq<Row>, n: nat)
    requires Intact(H, rows) && n <= |rows|
    ensures Intact(H, rows[..n])
  {
    hide EntryString;
    forall i | 0 <= i < n
      ensures Consistent(H, rows[..n], i)
    {
      assert Consistent(H, rows, i);
      assert rows[..n][..i] == rows[..i];
    }
  }

  /** Two logs that both verify and end in the same hash agree on every entry,
      or two of the texts they hashed collide. */
  lemma {:induction false} LogsAgree(H: Text -> Text, a: seq<Row>, b: seq<Row>) returns (i: nat, j: nat)
    requires DigestFunction(H) && JsonRows(a) && JsonRows(b)
    requires Intact(H, a) && Intact(H, b) && TipHash(a) == TipHash(b)
    ensures SameEntries(a, b) || (i < |a| && j < |b| && Collision(H, Hashed(a[i]), Hashed(b[j])))
    decreases |a|
  {
    hide EntryString, IsJson, Equiv, DigestFunction;
    i, j := 0, 0;
    TipHasNoBrace(H, a);
    TipHasNoBrace(H, b);
    if a != [] {
      var m, n := |a| - 1, |b| - 1;
      assert Consistent(H, a, m) && Consistent(H, b, n);
      IntactPrefix(H, a, m);
      IntactPrefix(H, b, n);
      TipHasNoBrace(H, a[..m]);
      TipHasNoBrace(H, b[..n]);
      SameHashSameEntry(H, a[m], b[n]);
      if Collision(H, Hashed(a[m]), Hashed(b[n])) {
        i, j := m, n;
      } else {
        i, j := LogsAgree(H, a[..m], b[..n]);
        assert SameEntries(a[..m], b[..n]) ==> SameEntries(a, b) by {
          assert a == a[..m] + [a[m]] && b == b[..n] + [b[n]];
        }
      }
    }
  }

  /** Editing the content of one row, and nothing else, makes that row the first
      and only inconsistent one, or the edit is a collision. */
  lemma EditIsLocated(H: Text -> Text, rows: seq<Row>, i: nat, content: Content)
    requires Intact(H, rows) && i < |rows| && IsJson(rows[i].content.detail) && IsJson(content.detail)
    requires !SameEntry(rows[i], rows[i].(content := content))
    ensures var edited := rows[i := rows[i].(content := content)];
            && (forall j :: 0 <= j < |rows| && j != i ==> Consistent(H, edited, j))
            && (Consistent(H, edited, i) <==> Collision(H, Hashed(rows[i]), Hashed(edited[i])))
  {
    hide EntryString, IsJson, Equiv;
    var edited := rows[i := rows[i].(content := content)];
    forall j | 0 <= j < |rows|
      ensures Consistent(H, rows, j) && TipHash(edited[..j]) == TipHash(rows[..j])
      ensures j != i ==> Consistent(H, edited, j)
    {
      assert j > 0 ==> edited[..j][j - 1].hash == rows[..j][j - 1].hash;
    }
    assert Consistent(H, rows, i);
    EntryStringMeans(rows[i].content, content);
    SamePrefixDiffers(rows[i].prevHash, EntryString(rows[i].content), EntryString(content));
  }

  lemma SamePrefixDiffers(p: Text, e: Text, f: Text)
    requires e != f
    ensures p + e != p + f
  {
    assert e == (p + e)[|p|..] && f == (p + f)[|p|..];
  }

  /** What verification cannot see: entries cut off at the end, and the sequence numbers. */
  lemma NotCovered(H: Text -> Text, rows: seq<Row>, n: nat, renumbered: seq<Row>)
    requires Intact(H, rows) && n <= |rows| && |renumbered| == n
    requires forall i :: 0 <= i < n ==> renumbered[i] == rows[i].(seqNo := renumbered[i].seqNo)
    ensures Intact(H, renumbered)
  {
    hide EntryString;
    IntactPrefix(H, rows, n);
    forall i | 0 <= i < n
      ensures Consistent(H, renumbered, i)
    {
      assert Consistent(H, rows[..n], i);
      assert i > 0 ==> renumbered[..i][i - 1].hash == rows[..n][..i][i - 1].hash;
    }
  }
}
