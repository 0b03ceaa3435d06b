/** What a verdict does to the caches, when a send is made and when it is skipped. */
module VerdictCaches {
  import opened Wrappers
  import opened VerdictChannel
  import opened VerdictRuns

  /** A reply of 16 bytes that echoes the file id and says allow or block. */
  predicate SaysVerdict(send: Send, fileId: nat) {
    send.Replied? && send.length == 16 && send.fileId == fileId && (send.verdict == 0 || send.verdict == 1)
  }

  /** The state after the answer and all inserts that follow it. */
  ghost function AllSeeded(s: State, c: nat, send: Send): State
    requires Enabled(s, Finish(c, send))
  {
    var answered := Apply(s, Finish(c, send));
    var seeded := Apply(answered, Seed(c));
    if seeded.callers[c].HalfSeeded? then Apply(seeded, Seed(c)) else seeded
  }

  /** The inserts after an answer, by kind of request. */
  lemma SeededAfter(s: State, c: nat, q: Query, a: Answer)
    requires c < |s.callers| && s.callers[c] == Answered(q, a)
    ensures var u := Apply(s, Seed(c));
            var t := if u.callers[c].HalfSeeded? then Apply(u, Seed(c)) else u;
            var hash := {Entry(q.sha, s.epoch)};
            var file := if q.fileId == 0 then {} else {Entry(q.fileId, s.epoch)};
            var readPath := q.kind == ReadDeny || q.kind == Scan;
            var ok, timedOut := a.status == Success, a.status == Timeout;
            var asBad := (ok && q.kind != WritePathOnly) || (timedOut && q.kind == Write);
            && t.callers == s.callers[c := Idle] && t.epoch == s.epoch
            && t.timeouts == s.timeouts && t.events == s.events
            && t.badHash == s.badHash + (if a.block && asBad then hash else {})
            && t.sensFile == s.sensFile + (if a.block && ok && readPath then file else {})
            && t.cleanFile == s.cleanFile + (if !a.block && ok && q.kind == ReadDeny then file else {})
  {
    var u := Apply(s, Seed(c));
    assert s.callers[c := u.callers[c]][c := Idle] == s.callers[c := Idle];
  }

  /** A validated verdict reaches exactly these caches: a block the hash of shipped content and, on the
      read paths, the file; an allow the clean files, on the synchronous read path. */
  lemma VerdictReachesCaches(s: State, c: nat, send: Send)
    requires Enabled(s, Finish(c, send)) && SaysVerdict(send, s.callers[c].q.fileId)
    ensures var q, t := s.callers[c].q, AllSeeded(s, c, send);
            var block, readPath := send.verdict == 1, q.kind == ReadDeny || q.kind == Scan;
            var hash := {Entry(q.sha, s.epoch)};
            var file := if q.fileId == 0 then {} else {Entry(q.fileId, s.epoch)};
            && t.callers == s.callers[c := Idle] && t.epoch == s.epoch && t.timeouts == 0
            && t.badHash == s.badHash + (if block && q.kind != WritePathOnly then hash else {})
            && t.sensFile == s.sensFile + (if block && readPath then file else {})
            && t.cleanFile == s.cleanFile + (if !block && q.kind == ReadDeny then file else {})
            && t.events == s.events + [Validated(q, block, s.epoch)]
  {
    hide AfterAnswer, SecondInsert;
    var q, answered := s.callers[c].q, Apply(s, Finish(c, send));
    SeededAfter(answered, c, q, Answer(Success, send.verdict == 1));
    assert answered.callers[c := Idle] == s.callers[c := Idle];
  }

  /** Without a validated verdict nothing is cached, except that FailMode BLOCK takes a timed-out write
      for a block. */
  lemma NoVerdictNothingCached(s: State, c: nat, send: Send)
    requires Enabled(s, Finish(c, send)) && !SaysVerdict(send, s.callers[c].q.fileId)
    ensures var q, t := s.callers[c].q, AllSeeded(s, c, send);
            var hash := {Entry(q.sha, s.epoch)};
            && t.callers == s.callers[c := Idle] && t.sensFile == s.sensFile && t.cleanFile == s.cleanFile
            && t.badHash == s.badHash + (if s.mode.FailBlock? && send.TimedOut? && q.kind == Write then hash else {})
  {
    hide AfterAnswer, SecondInsert;
    var q, answered := s.callers[c].q, Apply(s, Finish(c, send));
    SeededAfter(answered, c, q, answered.callers[c].a);
    assert answered.callers[c := Idle] == s.callers[c := Idle];
  }

  /** Content known as bad under the current epoch is not asked about again. */
  lemma KnownBadIsNotAsked(s: State, c: nat, q: Query)
    requires Enabled(s, Begin(c, q))
    ensures var known := q.kind != WritePathOnly && Entry(q.sha, s.epoch) in s.badHash;
            Apply(s, Begin(c, q)).callers[c] == if known then KnownBad(q) else Asking(q)
    ensures var t := Apply(s, Begin(c, q));
            t.callers[c].KnownBad? ==> !Enabled(t, Check(c)) && forall send :: !Enabled(t, Finish(c, send))
  {
    var t := Apply(s, Begin(c, q));
    assert t.callers == s.callers[c := t.callers[c]];
    hide Apply;
  }

  /** A message is sent exactly while a scanner is connected and fewer than 8 sends in a row timed out. */
  lemma BreakerGate(s: State, c: nat)
    requires Enabled(s, Check(c))
    ensures Apply(s, Check(c)).callers[c].Sending? <==> s.connected && s.timeouts < 8
    ensures !Apply(s, Check(c)).callers[c].Sending? ==>
              Apply(s, Check(c)).callers[c] == Answered(s.callers[c].q, Answer(PortDisconnected, s.mode.FailBlock?))
  {
  }
}
