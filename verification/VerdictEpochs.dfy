/**
  Verdict caches and policy epochs: which epoch a cache entry carries, which epoch
  its verdict belongs to, and when the two are the same.
 */
module VerdictEpochs {
  import opened Wrappers
  import opened KernelLong
  import opened Widths
  import opened VerdictChannel
  import opened VerdictRuns

  ghost predicate NoConnect(steps: seq<Step>, i: int, j: int)
    requires 0 <= i && j <= |steps|
  {
    forall k :: i <= k < j ==> !steps[k].Connect?
  }

  lemma EpochStep(s: State, step: Step)
    requires Enabled(s, step)
    ensures Apply(s, step).epoch == s.epoch + if step.Connect? then 1 else 0
  {
    hide Judge, Record;
  }

  /** The epoch never falls, and stands still exactly while there is no reconnect. */
  lemma {:induction false} EpochBetween(mode: FailMode, n: nat, steps: seq<Step>, trace: seq<State>, i: nat, j: nat)
    requires IsRun(mode, n, steps, trace) && i <= j < |trace|
    ensures trace[i].epoch <= trace[j].epoch
    ensures trace[i].epoch == trace[j].epoch <==> NoConnect(steps, i, j)
    decreases j
  {
    hide Enabled, Apply;
    if i < j {
      EpochBetween(mode, n, steps, trace, i, j - 1);
      EpochStep(trace[j - 1], steps[j - 1]);
      assert NoConnect(steps, i, j) <==> NoConnect(steps, i, j - 1) && !steps[j - 1].Connect?;
    }
  }

  ghost function Reconnects(steps: seq<Step>): nat {
    if steps == [] then 0 else Reconnects(steps[..|steps| - 1]) + if steps[|steps| - 1].Connect? then 1 else 0
  }

  /** The epoch counts the reconnects. The driver keeps it in 32 bits, and its readings at two points of a
      run agree exactly when a multiple of 2^32 reconnects lies between them. */
  lemma {:induction false} EpochReadings(mode: FailMode, n: nat, steps: seq<Step>, trace: seq<State>, i: nat, j: nat)
    requires IsRun(mode, n, steps, trace) && i <= j < |trace|
    ensures trace[j].epoch == trace[i].epoch + Reconnects(steps[i..j])
    ensures LongOf(trace[i].epoch) == LongOf(trace[j].epoch) <==> Reconnects(steps[i..j]) % TWO_32 == 0
    decreases j
  {
    hide Enabled, Apply, LongOf;
    if i < j {
      EpochReadings(mode, n, steps, trace, i, j - 1);
      EpochStep(trace[j - 1], steps[j - 1]);
      assert steps[i..j][..j - i - 1] == steps[i..j - 1];
    }
    LongOfCollides(trace[i].epoch, trace[j].epoch);
  }

  lemma {:induction false} CallerCount(mode: FailMode, n: nat, steps: seq<Step>, trace: seq<State>, i: nat)
    requires IsRun(mode, n, steps, trace) && i < |trace|
    ensures |trace[i].callers| == n && trace[i].mode == mode
  {
    hide Enabled, Apply;
    if i > 0 {
      CallerCount(mode, n, steps, trace, i - 1);
      NothingForgotten(trace[i - 1], steps[i - 1]);
    }
  }

  // ------------------------------------------------------------------
  // Where a caller's knowledge comes from
  // ------------------------------------------------------------------

  /** c makes no step but inserts between i and j. */
  ghost predicate OnlySeeds(steps: seq<Step>, c: nat, i: int, j: int)
    requires 0 <= i && j <= |steps|
  {
    forall k :: i <= k < j && IsCallerStep(steps[k]) && steps[k].c == c ==> steps[k].Seed?
  }

  /** An answer with a verdict, or with the timeout that a write takes for one. */
  predicate FromSend(k: Caller) {
    (k.Answered? && (k.a.status.Success? || k.a.status.Timeout?)) || k.HalfSeeded?
  }

  lemma CallerBefore(s: State, step: Step, c: nat)
    requires Enabled(s, step) && c < |s.callers| && FromSend(Apply(s, step).callers[c])
    ensures var k := Apply(s, step).callers[c];
            if IsCallerStep(step) && step.c == c
            then (step.Finish? && k.Answered?
                  && s.callers[c] == Sending(k.q) && k.a == Judge(s.mode, k.q.fileId, step.send))
                 || (step.Seed? && k.HalfSeeded? && s.callers[c] == Answered(k.q, k.a) && k.a.status == Success)
            else s.callers[c] == k
  {
    hide Judge, Record;
    if !(IsCallerStep(step) && step.c == c) {
      OthersStay(s, step, c);
    }
  }

  /** The send that a caller's answer came from. */
  lemma {:induction false} FinishOrigin(mode: FailMode, n: nat, steps: seq<Step>, trace: seq<State>, i: nat, c: nat)
    returns (j: nat)
    requires IsRun(mode, n, steps, trace) && i < |trace| && c < |trace[i].callers| && FromSend(trace[i].callers[c])
    ensures j < i && steps[j].Finish? && steps[j].c == c && OnlySeeds(steps, c, j + 1, i)
    ensures c < |trace[j].callers| && trace[j].callers[c] == Sending(trace[i].callers[c].q)
    ensures trace[i].callers[c].a == Judge(mode, trace[i].callers[c].q.fileId, steps[j].send)
    ensures trace[i].callers[c].HalfSeeded? ==> trace[i].callers[c].a.status == Success
  {
    hide Enabled, Apply, Judge;
    j := 0;
    CallerCount(mode, n, steps, trace, i);
    if i > 0 {
      var step := steps[i - 1];
      CallerCount(mode, n, steps, trace, i - 1);
      CallerBefore(trace[i - 1], step, c);
      if step.Finish? && step.c == c {
        j := i - 1;
      } else {
        j := FinishOrigin(mode, n, steps, trace, i - 1, c);
      }
    }
  }

  lemma KnownBadBefore(s: State, step: Step, c: nat)
    requires Enabled(s, step) && c < |s.callers| && Apply(s, step).callers[c].KnownBad?
    ensures var k := Apply(s, step).callers[c];
            if IsCallerStep(step) && step.c == c
            then step == Begin(c, k.q) && Entry(k.q.sha, s.epoch) in s.badHash
            else s.callers[c] == k
  {
    hide Judge, Record;
    if !(IsCallerStep(step) && step.c == c) {
      OthersStay(s, step, c);
    }
  }

  /** The lookup that found a caller's hash in the known-bad ring. */
  lemma {:induction false} LookupOrigin(mode: FailMode, n: nat, steps: seq<Step>, trace: seq<State>, i: nat, c: nat)
    returns (j: nat)
    requires IsRun(mode, n, steps, trace) && i < |trace| && c < |trace[i].callers| && trace[i].callers[c].KnownBad?
    ensures j < i && steps[j] == Begin(c, trace[i].callers[c].q) && OnlySeeds(steps, c, j + 1, i)
    ensures Entry(trace[i].callers[c].q.sha, trace[j].epoch) in trace[j].badHash
  {
    hide Enabled, Apply;
    j := 0;
    CallerCount(mode, n, steps, trace, i);
    if i > 0 {
      CallerCount(mode, n, steps, trace, i - 1);
      KnownBadBefore(trace[i - 1], steps[i - 1], c);
      if IsCallerStep(steps[i - 1]) && steps[i - 1].c == c {
        j := i - 1;
      } else {
        j := LookupOrigin(mode, n, steps, trace, i - 1, c);
      }
    }
  }

  // ------------------------------------------------------------------
  // The epoch of an entry and the epoch of its verdict
  // ------------------------------------------------------------------

  ghost function Inserted(s: State, t: State): set<Entry> {
    (t.badHash - s.badHash) + (t.sensFile - s.sensFile) + (t.cleanFile - s.cleanFile)
  }

  /** Whatever a step adds to a cache, it adds under the epoch of that moment. */
  lemma InsertEpoch(s: State, step: Step, e: Entry)
    requires Enabled(s, step) && e in Inserted(s, Apply(s, step))
    ensures step.Seed? && e.epoch == s.epoch && Apply(s, step).epoch == s.epoch
    ensures s.callers[step.c].KnownBad? || FromSend(s.callers[step.c])
    ensures e.key == s.callers[step.c].q.sha || e.key == s.callers[step.c].q.fileId
  {
    hide Enabled, Apply, FromSend;
    NothingForgotten(s, step);
    if step.Seed? {
      SeedAdds(s, step.c, e);
    }
  }

  lemma SeedAdds(s: State, c: nat, e: Entry)
    requires Enabled(s, Seed(c)) && e in Inserted(s, Apply(s, Seed(c)))
    ensures e.epoch == s.epoch && (s.callers[c].KnownBad? || FromSend(s.callers[c]))
    ensures e.key == s.callers[c].q.sha || e.key == s.callers[c].q.fileId
  {
    var k := s.callers[c];
    if k.Answered? {
      AnswerAdds(s, c, k.q, k.a, e);
    }
  }

  lemma AnswerAdds(s: State, c: nat, q: Query, a: Answer, e: Entry)
    requires c < |s.callers| && e in Inserted(s, AfterAnswer(s, c, q, a))
    ensures e.epoch == s.epoch && (a.status.Success? || a.status.Timeout?) && (e.key == q.sha || e.key == q.fileId)
  {
  }

  lemma {:induction false} EventStays(mode: FailMode, n: nat, steps: seq<Step>, trace: seq<State>,
                                             i: nat, j: nat, e: Event)
    requires IsRun(mode, n, steps, trace) && i <= j < |trace| && e in trace[i].events
    ensures e in trace[j].events
    decreases j
  {
    hide Enabled, Apply;
    if i < j {
      EventStays(mode, n, steps, trace, i, j - 1, e);
      NothingForgotten(trace[j - 1], steps[j - 1]);
    }
  }

  lemma FinishRecords(s: State, step: Step)
    requires Enabled(s, step) && step.Finish?
    ensures var q := s.callers[step.c].q;
            && (Genuine(step.send, q.fileId) ==>
                  Validated(q, step.send.verdict == VERDICT_BLOCK, s.epoch) in Apply(s, step).events)
            && (step.send.TimedOut? && q.kind == Write ==> WriteTimedOut(q.sha, s.epoch) in Apply(s, step).events)
  {
    hide Judge;
  }

  /** The one event that an answered caller's send left. */
  function EventOf(k: Caller, epoch: nat): Event
    requires FromSend(k)
  {
    if k.a.status.Timeout? then WriteTimedOut(k.q.sha, epoch) else Validated(k.q, k.a.block, epoch)
  }

  /** An insert after an answer: its entries carry the epoch of the insert, its evidence the epoch
      of the reply, and the two are the same exactly when no reconnect came in between. */
  lemma InsertEpochExact(mode: FailMode, n: nat, steps: seq<Step>, trace: seq<State>, i: nat, c: nat) returns (j: nat)
    requires IsRun(mode, n, steps, trace) && i < |steps| && steps[i] == Seed(c)
    requires c < |trace[i].callers| && FromSend(trace[i].callers[c])
    requires trace[i].callers[c].a.status.Timeout? ==> trace[i].callers[c].q.kind == Write
    ensures j < i && steps[j].Finish? && steps[j].c == c && OnlySeeds(steps, c, j + 1, i)
    ensures EventOf(trace[i].callers[c], trace[j].epoch) in trace[i].events
    ensures forall e :: e in Inserted(trace[i], trace[i + 1]) ==>
              trace[j].epoch <= e.epoch == trace[i].epoch
              && (e.epoch == trace[j].epoch <==> NoConnect(steps, j + 1, i))
  {
    hide Enabled, Apply, Inserted, Judge, NoConnect, OnlySeeds;
    var k := trace[i].callers[c];
    j := FinishOrigin(mode, n, steps, trace, i, c);
    EpochBetween(mode, n, steps, trace, j, j + 1);
    EpochBetween(mode, n, steps, trace, j + 1, i);
    EpochStep(trace[j], steps[j]);
    FinishRecords(trace[j], steps[j]);
    JudgeMeans(mode, k.q.fileId, steps[j].send);
    EventStays(mode, n, steps, trace, j + 1, i, EventOf(k, trace[j].epoch));
    forall e | e in Inserted(trace[i], trace[i + 1])
      ensures e.epoch == trace[i].epoch
    {
      InsertEpoch(trace[i], steps[i], e);
    }
  }

  lemma JudgeMeans(mode: FailMode, fileId: nat, send: Send)
    ensures var a := Judge(mode, fileId, send);
            && (a.status == Success <==> Genuine(send, fileId))
            && (a.status == Success ==> a.block == (send.verdict == VERDICT_BLOCK))
            && (a.status == Timeout <==> send.TimedOut?)
            && (a.status != Success ==> a.block == mode.FailBlock?)
  {
  }

  /** The same for a hash found in the known-bad ring: the new entry is of the epoch of the entry
      that was found exactly when no reconnect came between lookup and insert. */
  lemma KnownBadEpochExact(mode: FailMode, n: nat, steps: seq<Step>, trace: seq<State>, i: nat, c: nat) returns (j: nat)
    requires IsRun(mode, n, steps, trace) && i < |steps| && steps[i] == Seed(c)
    requires c < |trace[i].callers| && trace[i].callers[c].KnownBad?
    ensures j < i && steps[j] == Begin(c, trace[i].callers[c].q) && OnlySeeds(steps, c, j + 1, i)
    ensures Entry(trace[i].callers[c].q.sha, trace[j].epoch) in trace[j].badHash
    ensures forall e :: e in Inserted(trace[i], trace[i + 1]) ==>
              trace[j].epoch <= e.epoch == trace[i].epoch
              && (e.epoch == trace[j].epoch <==> NoConnect(steps, j + 1, i))
  {
    hide Enabled, Apply, Inserted, NoConnect, OnlySeeds;
    j := LookupOrigin(mode, n, steps, trace, i, c);
    EpochBetween(mode, n, steps, trace, j, j + 1);
    EpochBetween(mode, n, steps, trace, j + 1, i);
    EpochStep(trace[j], steps[j]);
    forall e | e in Inserted(trace[i], trace[i + 1])
      ensures e.epoch == trace[i].epoch
    {
      InsertEpoch(trace[i], steps[i], e);
    }
  }

  /** Every insert is one of the two: nothing else ever enters a cache. */
  lemma EveryInsertHasOrigin(mode: FailMode, n: nat, steps: seq<Step>, trace: seq<State>, i: nat, e: Entry)
    requires IsRun(mode, n, steps, trace) && i < |steps| && e in Inserted(trace[i], trace[i + 1])
    ensures steps[i].Seed? && e.epoch == trace[i].epoch && steps[i].c < |trace[i].callers|
    ensures var k := trace[i].callers[steps[i].c];
            k.KnownBad? || (FromSend(k) && (k.a.status.Timeout? ==> k.q.kind == Write && mode.FailBlock?))
  {
    hide Inserted;
    InsertEpoch(trace[i], steps[i], e);
    RunTraced(mode, n, steps, trace, i, false);
    assert CallerTraced(Past(trace[i]), trace[i].callers[steps[i].c], None);
    var c := steps[i].c;
    if FromSend(trace[i].callers[c]) {
      var j := FinishOrigin(mode, n, steps, trace, i, c);
    }
    if trace[i].callers[c].Answered? && trace[i].callers[c].a.status.Timeout? {
      TimeoutInserts(trace[i], c, e);
    }
  }

  lemma TimeoutInserts(s: State, c: nat, e: Entry)
    requires Enabled(s, Seed(c)) && s.callers[c].Answered? && s.callers[c].a.status.Timeout?
    requires e in Inserted(s, Apply(s, Seed(c)))
    ensures s.callers[c].q.kind == Write && s.callers[c].a.block
  {
  }

  // ------------------------------------------------------------------
  // When a reconnect forgets
  // ------------------------------------------------------------------

  /** As long as no reconnect falls between a verdict, or a hit in the known-bad ring, and its
      inserts, every entry traces to evidence of its own epoch: a reconnect forgets. */
  lemma ReconnectForgets(mode: FailMode, n: nat, steps: seq<Step>, trace: seq<State>, i: nat, e: Entry)
    requires IsRun(mode, n, steps, trace) && Prompt(steps, trace) && i < |trace|
    ensures e in trace[i].badHash ==> BadTraced(Past(trace[i]), e.key, Some(e.epoch))
    ensures e in trace[i].sensFile ==> SensTraced(Past(trace[i]), e.key, Some(e.epoch))
    ensures e in trace[i].cleanFile ==> AllowSeen(Past(trace[i]), e.key, Some(e.epoch))
  {
    RunTraced(mode, n, steps, trace, i, true);
  }

  /** Nothing carries an epoch that has not begun. */
  ghost predicate NothingNewer(s: State) {
    && (forall e :: e in s.events ==> e.epoch <= s.epoch)
    && (forall e :: e in s.badHash + s.sensFile + s.cleanFile ==> e.epoch <= s.epoch)
  }

  lemma {:induction false} RunNothingNewer(mode: FailMode, n: nat, steps: seq<Step>, trace: seq<State>, i: nat)
    requires IsRun(mode, n, steps, trace) && i < |trace|
    ensures NothingNewer(trace[i])
  {
    if i > 0 {
      RunNothingNewer(mode, n, steps, trace, i - 1);
      StepNothingNewer(trace[i - 1], steps[i - 1]);
    }
  }

  lemma StepNothingNewer(s: State, step: Step)
    requires NothingNewer(s) && Enabled(s, step)
    ensures NothingNewer(Apply(s, step))
  {
    var t := Apply(s, step);
    EpochStep(s, step);
    forall e | e in t.badHash + t.sensFile + t.cleanFile
      ensures e.epoch <= t.epoch
    {
      if e !in s.badHash + s.sensFile + s.cleanFile {
        InsertEpoch(s, step, e);
      }
    }
    EventsNotNewer(s, step);
  }

  lemma EventsNotNewer(s: State, step: Step)
    requires (forall e :: e in s.events ==> e.epoch <= s.epoch) && Enabled(s, step)
    ensures forall e :: e in Apply(s, step).events ==> e.epoch <= Apply(s, step).epoch
  {
    hide Judge, Genuine;
  }

  /** The caller's next step adds to a cache that does not hold the entry yet. */
  predicate WouldInsert(k: Caller) {
    match k
    case KnownBad(q) => q.kind == Scan && q.fileId != 0
    case Answered(q, a) =>
      (match q.kind
       case Write => NtSuccess(a.status) && a.block
       case WritePathOnly => false
       case ReadDeny => a.status == Success && (a.block || q.fileId != 0)
       case Scan => a.status == Success && a.block && q.fileId != 0)
    case HalfSeeded(q, a) => q.kind != ReadDeny || q.fileId != 0
    case _ => false
  }

  /** The condition cannot be dropped: from any state of any run in which some caller still has an
      insert to make, a reconnect followed by that insert leaves an entry of an epoch that has no
      evidence at all. */
  lemma PendingReconnectBreaks(mode: FailMode, n: nat, steps: seq<Step>, trace: seq<State>, c: nat)
    returns (longer: seq<Step>, states: seq<State>, e: Entry)
    requires IsRun(mode, n, steps, trace)
    requires c < |trace[|steps|].callers|
    requires Pending(trace[|steps|].callers[c]) && WouldInsert(trace[|steps|].callers[c])
    ensures longer == steps + [Connect, Seed(c)] && IsRun(mode, n, longer, states)
    ensures var t := states[|longer|];
            && e in t.badHash + t.sensFile + t.cleanFile && e.epoch == t.epoch
            && !BadTraced(Past(t), e.key, Some(e.epoch))
            && !SensTraced(Past(t), e.key, Some(e.epoch))
            && !AllowSeen(Past(t), e.key, Some(e.epoch))
  {
    var s := trace[|steps|];
    RunNothingNewer(mode, n, steps, trace, |steps|);
    ExtendRun(mode, n, steps, trace, Connect);
    var u := Apply(s, Connect);
    ExtendRun(mode, n, steps + [Connect], trace + [u], Seed(c));
    longer := steps + [Connect] + [Seed(c)];
    states := trace + [u] + [Apply(u, Seed(c))];
    e := FreshInsert(u, c);
    NothingForgotten(u, Seed(c));
    InsertEpoch(u, Seed(c), e);
    assert Past(Apply(u, Seed(c))).events == s.events;
  }

  lemma FreshInsert(u: State, c: nat) returns (e: Entry)
    requires Enabled(u, Seed(c)) && WouldInsert(u.callers[c])
    requires forall e :: e in u.badHash + u.sensFile + u.cleanFile ==> e.epoch < u.epoch
    ensures e in Inserted(u, Apply(u, Seed(c)))
  {
    var k := u.callers[c];
    var q := k.q;
    var bad, sens := Entry(q.sha, u.epoch), Entry(q.fileId, u.epoch);
    e := match k
      case KnownBad(_) => sens
      case Answered(_, a) => if q.kind == Scan || (q.kind == ReadDeny && !a.block) then sens else bad
      case _ => if q.kind == ReadDeny then sens else bad;
    assert e !in u.badHash + u.sensFile + u.cleanFile;
  }

  // ------------------------------------------------------------------
  // Writes that time out
  // ------------------------------------------------------------------

  /** The exact insert by which a write marks a hash as bad without a validated verdict: FailMode is
      BLOCK, and the caller's send timed out. */
  lemma WriteSeedsUnvalidated(mode: FailMode, n: nat, steps: seq<Step>, trace: seq<State>, i: nat, c: nat)
    requires IsRun(mode, n, steps, trace) && i < |steps| && steps[i] == Seed(c) && c < |trace[i].callers|
    requires trace[i].callers[c].Answered? && trace[i].callers[c].q.kind == Write
    requires Entry(trace[i].callers[c].q.sha, trace[i].epoch) !in trace[i].badHash
    ensures var k := trace[i].callers[c];
            Entry(k.q.sha, trace[i].epoch) in trace[i + 1].badHash && k.a.status != Success
            <==> mode.FailBlock?
                 && exists j {:trigger steps[j]} ::
                      0 <= j < i && steps[j] == Finish(c, TimedOut) && OnlySeeds(steps, c, j + 1, i)
  {
    RunTraced(mode, n, steps, trace, i, false);
    assert CallerTraced(Past(trace[i]), trace[i].callers[c], None);
    var k := trace[i].callers[c];
    WriteInserts(trace[i], c);
    hide Apply, Enabled, Judge, CallerTraced;
    if k.a.status == Timeout {
      var j := FinishOrigin(mode, n, steps, trace, i, c);
      JudgeMeans(mode, k.q.fileId, steps[j].send);
      assert steps[j] == Finish(c, TimedOut);
    }
    forall j | 0 <= j < i && steps[j] == Finish(c, TimedOut) && OnlySeeds(steps, c, j + 1, i)
      ensures k.a.status == Timeout
    {
      TimeoutAnswers(mode, n, steps, trace, j, i, c);
    }
  }

  lemma WriteInserts(s: State, c: nat)
    requires Enabled(s, Seed(c)) && s.callers[c].Answered? && s.callers[c].q.kind == Write
    requires Entry(s.callers[c].q.sha, s.epoch) !in s.badHash
    ensures Entry(s.callers[c].q.sha, s.epoch) in Apply(s, Seed(c)).badHash
            <==> NtSuccess(s.callers[c].a.status) && s.callers[c].a.block
  {
  }

  /** After a send that timed out the caller is told so until its next request. */
  lemma {:induction false} TimeoutAnswers(mode: FailMode, n: nat, steps: seq<Step>, trace: seq<State>,
                                                 j: nat, i: nat, c: nat)
    requires IsRun(mode, n, steps, trace) && j < i < |trace| && steps[j] == Finish(c, TimedOut)
    requires OnlySeeds(steps, c, j + 1, i) && c < |trace[i].callers| && trace[i].callers[c].Answered?
    ensures trace[i].callers[c].a.status == Timeout
    decreases i
  {
    hide Apply, Enabled, Judge;
    CallerCount(mode, n, steps, trace, i - 1);
    CallerCount(mode, n, steps, trace, i);
    var step := steps[i - 1];
    AnsweredBefore(trace[i - 1], step, c);
    if i - 1 == j {
      JudgeMeans(trace[j].mode, trace[i].callers[c].q.fileId, TimedOut);
    } else {
      assert OnlySeeds(steps, c, j + 1, i - 1);
      if !(IsCallerStep(step) && step.c == c) {
        TimeoutAnswers(mode, n, steps, trace, j, i - 1, c);
      }
    }
  }

  lemma AnsweredBefore(s: State, step: Step, c: nat)
    requires Enabled(s, step) && c < |s.callers| && Apply(s, step).callers[c].Answered?
    ensures IsCallerStep(step) && step.c == c ==> !step.Seed?
    ensures !(IsCallerStep(step) && step.c == c) ==> s.callers[c] == Apply(s, step).callers[c]
    ensures step.Finish? && step.c == c ==>
              Apply(s, step).callers[c].a == Judge(s.mode, Apply(s, step).callers[c].q.fileId, step.send)
  {
    hide Judge, Record;
    if !(IsCallerStep(step) && step.c == c) {
      OthersStay(s, step, c);
    }
  }

  // ------------------------------------------------------------------
  // Runs in which the promise fails
  // ------------------------------------------------------------------

  lemma Then(mode: FailMode, n: nat, steps: seq<Step>, trace: seq<State>, step: Step)
    returns (longer: seq<Step>, states: seq<State>)
    requires IsRun(mode, n, steps, trace) && Enabled(trace[|steps|], step)
    ensures longer == steps + [step] && IsRun(mode, n, longer, states)
    ensures states[|longer|] == Apply(trace[|steps|], step)
  {
    ExtendRun(mode, n, steps, trace, step);
    longer, states := steps + [step], trace + [Apply(trace[|steps|], step)];
  }

  /** Under FailMode BLOCK a single timed-out write leaves a known-bad hash although no
      verdict was ever given. */
  lemma TimeoutPoisonsBadHash(sha: nat) returns (steps: seq<Step>, trace: seq<State>)
    ensures IsRun(FailBlock, 1, steps, trace)
    ensures Entry(sha, trace[|steps|].epoch) in trace[|steps|].badHash
    ensures trace[|steps|].events == [WriteTimedOut(sha, trace[|steps|].epoch)]
    ensures !BlockSeen(Past(trace[|steps|]), sha, None)
  {
    steps, trace := RunUntilSending(FailBlock, Query(Write, 1, sha));
    steps, trace := Then(FailBlock, 1, steps, trace, Finish(0, TimedOut));
    steps, trace := Then(FailBlock, 1, steps, trace, Seed(0));
  }

  lemma RunUntilSending(mode: FailMode, q: Query) returns (steps: seq<Step>, trace: seq<State>)
    requires q.kind == Write
    ensures IsRun(mode, 1, steps, trace)
    ensures trace[|steps|] == State(mode, true, 2, 0, [Sending(q)], {}, {}, {}, {}, [])
  {
    steps, trace := [], [Init(mode, 1)];
    assert Init(mode, 1).callers == [Idle];
    steps, trace := Then(mode, 1, steps, trace, Connect);
    steps, trace := Then(mode, 1, steps, trace, Begin(0, q));
    steps, trace := Then(mode, 1, steps, trace, Check(0));
  }

  /** A verdict given before a reconnect and inserted after it: the entry carries the new epoch
      although the only verdict belongs to the old one. */
  lemma OldVerdictUnderNewEpoch(mode: FailMode, sha: nat) returns (steps: seq<Step>, trace: seq<State>)
    ensures IsRun(mode, 1, steps, trace)
    ensures Entry(sha, trace[|steps|].epoch) in trace[|steps|].badHash
    ensures forall e :: e in trace[|steps|].events ==> e.Validated? && e.epoch < trace[|steps|].epoch
  {
    steps, trace := RunUntilSending(mode, Query(Write, 1, sha));
    steps, trace := Then(mode, 1, steps, trace, Finish(0, Replied(REPLY_SIZE, 1, VERDICT_BLOCK)));
    steps, trace := Then(mode, 1, steps, trace, Connect);
    steps, trace := Then(mode, 1, steps, trace, Seed(0));
  }
}
