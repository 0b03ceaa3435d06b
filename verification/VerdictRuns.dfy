/**
  Whole runs of the verdict channel with any number of concurrent callers: the
  write path, the read-deny classifier and the scan worker, each looking up and
  seeding the epoch-stamped caches. Rings only ever lose entries by eviction, so
  here a cache is the set of its entries and an eviction leaves any subset.
 */
module VerdictRuns {
  import opened Wrappers
  import opened VerdictChannel

  /** Write path with and without content, synchronous read-deny, scan worker. */
  datatype Kind = Write | WritePathOnly | ReadDeny | Scan

  /** A request: the file it is about and the hash of the content shipped. */
  datatype Query = Query(kind: Kind, fileId: nat, sha: nat)

  datatype Caller =
    | Idle
    | KnownBad(q: Query)             // content hash found in the known-bad ring
    | Asking(q: Query)               // about to pass the breaker
    | Sending(q: Query)
    | Answered(q: Query, a: Answer)
    | HalfSeeded(q: Query, a: Answer) // first of the two cache inserts done

  datatype Entry = Entry(key: nat, epoch: nat)

  datatype Event =
    | Validated(q: Query, block: bool, epoch: nat)
    | WriteTimedOut(sha: nat, epoch: nat)

  /** hashed holds the content hashes that the read paths took of a file. */
  datatype State = State(
    mode: FailMode,
    connected: bool,
    epoch: nat,
    timeouts: nat,
    callers: seq<Caller>,
    badHash: set<Entry>,
    sensFile: set<Entry>,
    cleanFile: set<Entry>,
    hashed: set<(nat, nat)>,
    events: seq<Event>)

  datatype Step =
    | Begin(c: nat, q: Query)
    | Check(c: nat) | GiveUp(c: nat) | Finish(c: nat, send: Send) | Seed(c: nat)
    | Connect | Disconnect
    | Evict(bad: set<Entry>, sens: set<Entry>, clean: set<Entry>)

  function Init(mode: FailMode, n: nat): State {
    State(mode, false, 1, 0, seq(n, _ => Idle), {}, {}, {}, {}, [])
  }

  predicate Enabled(s: State, step: Step) {
    match step
    case Begin(c, q) => c < |s.callers| && s.callers[c].Idle?
    case Check(c) => c < |s.callers| && s.callers[c].Asking?
    case GiveUp(c) => c < |s.callers| && s.callers[c].Asking?
    case Finish(c, send) => c < |s.callers| && s.callers[c].Sending?
    case Seed(c) =>
      c < |s.callers| && (s.callers[c].KnownBad? || s.callers[c].Answered? || s.callers[c].HalfSeeded?)
    case Connect => true
    case Disconnect => true
    case Evict(bad, sens, clean) => bad <= s.badHash && sens <= s.sensFile && clean <= s.cleanFile
  }

  function Move(s: State, c: nat, phase: Caller): State
    requires c < |s.callers|
  {
    s.(callers := s.callers[c := phase])
  }

  function InsertBad(s: State, q: Query): State {
    s.(badHash := s.badHash + {Entry(q.sha, s.epoch)})
  }

  function InsertSens(s: State, q: Query): State {
    if q.fileId == 0 then s else s.(sensFile := s.sensFile + {Entry(q.fileId, s.epoch)})
  }

  function InsertClean(s: State, q: Query): State {
    if q.fileId == 0 then s else s.(cleanFile := s.cleanFile + {Entry(q.fileId, s.epoch)})
  }

  /** The caches a caller seeds after its answer, one insert per step. */
  function AfterAnswer(s: State, c: nat, q: Query, a: Answer): State
    requires c < |s.callers|
  {
    match q.kind
    case Write => Move(if NtSuccess(a.status) && a.block then InsertBad(s, q) else s, c, Idle)
    case WritePathOnly => Move(s, c, Idle)
    case ReadDeny =>
      if a.status != Success then Move(s, c, Idle)
      else if a.block then Move(InsertBad(s, q), c, HalfSeeded(q, a))
      else Move(InsertClean(s, q), c, Idle)
    case Scan =>
      if a.block && a.status == Success then Move(InsertSens(s, q), c, HalfSeeded(q, a)) else Move(s, c, Idle)
  }

  function SecondInsert(s: State, c: nat, q: Query): State
    requires c < |s.callers|
  {
    Move(if q.kind == ReadDeny then InsertSens(s, q) else InsertBad(s, q), c, Idle)
  }

  function Record(s: State, q: Query, send: Send): seq<Event> {
    if Genuine(send, q.fileId) then s.events + [Validated(q, send.verdict == VERDICT_BLOCK, s.epoch)]
    else if send.TimedOut? && q.kind == Write then s.events + [WriteTimedOut(q.sha, s.epoch)]
    else s.events
  }

  /** The file id of a read path is the file's own; a write's is a request counter. */
  predicate ReadsFile(q: Query) {
    q.kind.ReadDeny? || q.kind.Scan?
  }

  function Apply(s: State, step: Step): State
    requires Enabled(s, step)
  {
    match step
    case Begin(c, q) =>
      var phase := if q.kind != WritePathOnly && Entry(q.sha, s.epoch) in s.badHash then KnownBad(q) else Asking(q);
      Move(s, c, phase).(hashed := if ReadsFile(q) then s.hashed + {(q.fileId, q.sha)} else s.hashed)
    case Check(c) =>
      if s.connected && s.timeouts < BREAKER_THRESHOLD then Move(s, c, Sending(s.callers[c].q))
      else Move(s, c, Answered(s.callers[c].q, Answer(PortDisconnected, s.mode.FailBlock?)))
    case GiveUp(c) => Move(s, c, Answered(s.callers[c].q, Answer(InsufficientResources, s.mode.FailBlock?)))
    case Finish(c, send) =>
      var q := s.callers[c].q;
      Move(s, c, Answered(q, Judge(s.mode, q.fileId, send))).(
        timeouts := if send.TimedOut? then s.timeouts + 1 else if send.Replied? then 0 else s.timeouts,
        events := Record(s, q, send))
    case Seed(c) =>
      (match s.callers[c]
       case KnownBad(q) => Move(if q.kind == Scan then InsertSens(s, q) else s, c, Idle)
       case Answered(q, a) => AfterAnswer(s, c, q, a)
       case HalfSeeded(q, a) => SecondInsert(s, c, q)
       case _ => s)
    case Connect => s.(connected := true, epoch := s.epoch + 1, timeouts := 0)
    case Disconnect => s.(connected := false)
    case Evict(bad, sens, clean) => s.(badHash := bad, sensFile := sens, cleanFile := clean)
  }

  ghost predicate IsRun(mode: FailMode, n: nat, steps: seq<Step>, trace: seq<State>) {
    && |trace| == |steps| + 1
    && trace[0] == Init(mode, n)
    && forall i {:trigger steps[i]} :: 0 <= i < |steps| ==>
         Enabled(trace[i], steps[i]) && trace[i + 1] == Apply(trace[i], steps[i])
  }

  lemma ExtendRun(mode: FailMode, n: nat, steps: seq<Step>, trace: seq<State>, step: Step)
    requires IsRun(mode, n, steps, trace) && Enabled(trace[|steps|], step)
    ensures IsRun(mode, n, steps + [step], trace + [Apply(trace[|steps|], step)])
  {
    var longer, states := steps + [step], trace + [Apply(trace[|steps|], step)];
    forall i {:trigger longer[i]} | 0 <= i < |longer|
      ensures Enabled(states[i], longer[i]) && states[i + 1] == Apply(states[i], longer[i])
    {
      if i < |steps| {
        assert longer[i] == steps[i];
      }
    }
  }

  // ------------------------------------------------------------------
  // The circuit breaker
  // ------------------------------------------------------------------

  function InFlight(callers: seq<Caller>): nat {
    if callers == [] then 0 else InFlight(callers[1..]) + if callers[0].Sending? then 1 else 0
  }

  lemma {:induction false} InFlightUpdate(callers: seq<Caller>, c: nat, phase: Caller)
    requires c < |callers|
    ensures InFlight(callers[c := phase])
            == InFlight(callers) - (if callers[c].Sending? then 1 else 0) + if phase.Sending? then 1 else 0
  {
    if c == 0 {
      assert callers[c := phase][1..] == callers[1..];
    } else {
      InFlightUpdate(callers[1..], c - 1, phase);
      assert callers[c := phase][1..] == callers[1..][c - 1 := phase];
    }
  }

  lemma {:induction false} InFlightBound(callers: seq<Caller>)
    ensures InFlight(callers) <= |callers|
  {
    if callers != [] {
      InFlightBound(callers[1..]);
    }
  }

  lemma {:induction false} NoneInFlight(n: nat)
    ensures InFlight(seq(n, _ => Idle)) == 0
  {
    if n > 0 {
      NoneInFlight(n - 1);
      assert seq(n, _ => Idle)[1..] == seq(n - 1, _ => Idle);
    }
  }

  /** Sends that timed out since the last connect or live reply. */
  function TimeoutsSinceReset(steps: seq<Step>): nat {
    if steps == [] then 0 else CountAfter(steps[|steps| - 1], TimeoutsSinceReset(steps[..|steps| - 1]))
  }

  function CountAfter(step: Step, before: nat): nat {
    match step
    case Finish(c, send) => if send.TimedOut? then before + 1 else if send.Replied? then 0 else before
    case Connect => 0
    case _ => before
  }

  lemma CounterStep(s: State, step: Step)
    requires Enabled(s, step)
    ensures Apply(s, step).timeouts == CountAfter(step, s.timeouts)
  {
    hide Judge, Record;
  }

  ghost predicate BreakerInv(s: State, n: nat) {
    |s.callers| == n && s.timeouts + InFlight(s.callers) <= 7 + n
  }

  predicate IsCallerStep(step: Step) {
    !step.Connect? && !step.Disconnect? && !step.Evict?
  }

  /** A caller's step moves that caller only. */
  lemma OneCallerMoves(s: State, step: Step)
    requires Enabled(s, step) && IsCallerStep(step)
    ensures |Apply(s, step).callers| == |s.callers|
    ensures Apply(s, step).callers == s.callers[step.c := Apply(s, step).callers[step.c]]
    ensures !step.Finish? ==> Apply(s, step).timeouts == s.timeouts
    ensures Apply(s, step).callers[step.c].Sending? ==> step.Check? && s.timeouts < BREAKER_THRESHOLD
  {
    hide Judge, Record, NtSuccess;
    match step
    case Seed(c) => assert Apply(s, step).callers == s.callers[c := Apply(s, step).callers[c]];
    case Begin(c, q) =>
    case _ =>
  }

  lemma BreakerStep(s: State, step: Step, n: nat)
    requires BreakerInv(s, n) && Enabled(s, step)
    ensures BreakerInv(Apply(s, step), n)
  {
    hide Judge, Record, AfterAnswer, SecondInsert, InsertSens, InsertBad;
    var t := Apply(s, step);
    InFlightBound(s.callers);
    InFlightBound(t.callers);
    if IsCallerStep(step) {
      OneCallerMoves(s, step);
      InFlightUpdate(s.callers, step.c, t.callers[step.c]);
    }
  }

  /** With n concurrent callers at most 7 + n sends time out between two resets
      of the breaker, however the callers interleave. */
  lemma {:induction false} BreakerBound(mode: FailMode, n: nat, steps: seq<Step>, trace: seq<State>, i: nat)
    requires IsRun(mode, n, steps, trace) && i < |trace|
    ensures TimeoutsSinceReset(steps[..i]) == trace[i].timeouts
    ensures BreakerInv(trace[i], n)
    ensures TimeoutsSinceReset(steps[..i]) <= 7 + n
  {
    if i == 0 {
      NoneInFlight(n);
    } else {
      hide Enabled, Apply, CountAfter;
      CounterStep(trace[i - 1], steps[i - 1]);
      BreakerBound(mode, n, steps, trace, i - 1);
      assert steps[..i][..i - 1] == steps[..i - 1];
      var step := steps[i - 1];
      BreakerStep(trace[i - 1], step, n);
    }
  }

  // ------------------------------------------------------------------
  // Where cache entries come from
  // ------------------------------------------------------------------

  /** What a run leaves behind for good. */
  datatype History = History(mode: FailMode, events: seq<Event>, hashed: set<(nat, nat)>)

  function Past(s: State): History {
    History(s.mode, s.events, s.hashed)
  }

  /** The evidence may be of any epoch, or has to be of the given one. */
  predicate Within(at: Option<nat>, epoch: nat) {
    at.Some? ==> at.value == epoch
  }

  /** Content with this hash was shipped and blocked by a validated verdict. */
  ghost predicate BlockSeen(h: History, sha: nat, at: Option<nat>) {
    exists e :: e in h.events && e.Validated? && e.block && !e.q.kind.WritePathOnly? && e.q.sha == sha
                && Within(at, e.epoch)
  }

  /** The one other origin of a known-bad hash: a timed-out write under FailMode BLOCK. */
  ghost predicate TimeoutSeen(h: History, sha: nat, at: Option<nat>) {
    h.mode.FailBlock? && exists e :: e in h.events && e.WriteTimedOut? && e.sha == sha && Within(at, e.epoch)
  }

  ghost predicate BadTraced(h: History, sha: nat, at: Option<nat>) {
    BlockSeen(h, sha, at) || TimeoutSeen(h, sha, at)
  }

  /** Some content read from this file has a traced hash. */
  ghost predicate SensTraced(h: History, fileId: nat, at: Option<nat>) {
    exists p :: p in h.hashed && p.0 == fileId && BadTraced(h, p.1, at)
  }

  /** Reading this file was allowed by a validated verdict. */
  ghost predicate AllowSeen(h: History, fileId: nat, at: Option<nat>) {
    exists e :: e in h.events && e.Validated? && !e.block && e.q.kind.ReadDeny? && e.q.fileId == fileId
                && Within(at, e.epoch)
  }

  ghost predicate AnswerTraced(h: History, q: Query, a: Answer, at: Option<nat>) {
    && (a.status == Success && a.block && !q.kind.WritePathOnly? ==> BlockSeen(h, q.sha, at))
    && (a.status == Success && !a.block && q.kind.ReadDeny? ==> AllowSeen(h, q.fileId, at))
    && (a.status == Timeout && q.kind == Write && a.block ==> TimeoutSeen(h, q.sha, at))
    && (a.status != Success ==> a.block == h.mode.FailBlock?)
  }

  ghost predicate CallerTraced(h: History, c: Caller, at: Option<nat>) {
    && (!c.Idle? && ReadsFile(c.q) ==> (c.q.fileId, c.q.sha) in h.hashed)
    && (c.KnownBad? ==> !c.q.kind.WritePathOnly? && BadTraced(h, c.q.sha, at))
    && (c.Answered? ==> AnswerTraced(h, c.q, c.a, at))
    && (c.HalfSeeded? ==> ReadsFile(c.q) && BlockSeen(h, c.q.sha, at))
  }

  /** The epoch that evidence has to be of: that of the entry, when it is held to it. */
  function Bound(held: bool, epoch: nat): Option<nat> {
    if held then Some(epoch) else None
  }

  ghost predicate CachesTraced(s: State, held: bool) {
    && (forall e :: e in s.badHash ==> BadTraced(Past(s), e.key, Bound(held, e.epoch)))
    && (forall e :: e in s.sensFile ==> SensTraced(Past(s), e.key, Bound(held, e.epoch)))
    && (forall e :: e in s.cleanFile ==> AllowSeen(Past(s), e.key, Bound(held, e.epoch)))
  }

  ghost predicate CallersTraced(s: State, held: bool) {
    forall c :: 0 <= c < |s.callers| ==> CallerTraced(Past(s), s.callers[c], Bound(held, s.epoch))
  }

  /** Between what the caller learned and the last cache insert it makes of it. */
  predicate Pending(c: Caller) {
    c.KnownBad? || c.Answered? || c.HalfSeeded?
  }

  /** No reconnect falls between a verdict and its inserts. */
  ghost predicate PromptStep(s: State, step: Step) {
    step.Connect? ==> forall c :: 0 <= c < |s.callers| ==> !Pending(s.callers[c])
  }

  ghost predicate Prompt(steps: seq<Step>, trace: seq<State>) {
    |trace| > |steps| && forall i {:trigger steps[i]} :: 0 <= i < |steps| ==> PromptStep(trace[i], steps[i])
  }

  /** What was seen once stays seen: steps only add events and hashed content. */
  lemma TracesPersist(h: History, k: History, at: Option<nat>)
    requires k.mode == h.mode && h.hashed <= k.hashed
    requires forall e :: e in h.events ==> e in k.events
    ensures forall sha :: BlockSeen(h, sha, at) ==> BlockSeen(k, sha, at)
    ensures forall sha :: TimeoutSeen(h, sha, at) ==> TimeoutSeen(k, sha, at)
    ensures forall sha :: BadTraced(h, sha, at) ==> BadTraced(k, sha, at)
    ensures forall f :: SensTraced(h, f, at) ==> SensTraced(k, f, at)
    ensures forall f :: AllowSeen(h, f, at) ==> AllowSeen(k, f, at)
    ensures forall c :: CallerTraced(h, c, at) ==> CallerTraced(k, c, at)
  {
  }

  lemma CachesPersist(s: State, t: State, held: bool)
    requires CachesTraced(s, held) && t.mode == s.mode && s.hashed <= t.hashed
    requires forall e :: e in s.events ==> e in t.events
    requires t.badHash <= s.badHash && t.sensFile <= s.sensFile && t.cleanFile <= s.cleanFile
    ensures CachesTraced(t, held)
  {
    hide BadTraced, SensTraced, AllowSeen, CallerTraced;
    forall e: Entry
      ensures BadTraced(Past(s), e.key, Bound(held, e.epoch)) ==> BadTraced(Past(t), e.key, Bound(held, e.epoch))
      ensures SensTraced(Past(s), e.key, Bound(held, e.epoch)) ==> SensTraced(Past(t), e.key, Bound(held, e.epoch))
      ensures AllowSeen(Past(s), e.key, Bound(held, e.epoch)) ==> AllowSeen(Past(t), e.key, Bound(held, e.epoch))
    {
      TracesPersist(Past(s), Past(t), Bound(held, e.epoch));
    }
  }

  lemma FinishTraced(s: State, c: nat, send: Send, held: bool)
    requires Enabled(s, Finish(c, send)) && CallersTraced(s, held)
    ensures var t := Apply(s, Finish(c, send)); CallerTraced(Past(t), t.callers[c], Bound(held, t.epoch))
  {
    var t := Apply(s, Finish(c, send));
    var q := s.callers[c].q;
    if Genuine(send, q.fileId) {
      assert Validated(q, send.verdict == VERDICT_BLOCK, s.epoch) in t.events;
    } else if send.TimedOut? && q.kind == Write {
      assert WriteTimedOut(q.sha, s.epoch) in t.events;
    }
    assert CallerTraced(Past(s), s.callers[c], Bound(held, s.epoch));
  }

  /** The step of one caller keeps its own trace, and whatever it inserts is traced. */
  lemma SeedTraced(s: State, c: nat, held: bool)
    requires Enabled(s, Seed(c)) && CallersTraced(s, held) && CachesTraced(s, held)
    ensures var t := Apply(s, Seed(c));
            && Past(t) == Past(s) && t.epoch == s.epoch
            && CallerTraced(Past(s), t.callers[c], Bound(held, s.epoch))
            && CachesTraced(t, held)
  {
    hide BlockSeen, AllowSeen, TimeoutSeen;
    var q, at := s.callers[c].q, Bound(held, s.epoch);
    assert CallerTraced(Past(s), s.callers[c], at);
    assert ReadsFile(q) && BadTraced(Past(s), q.sha, at) ==> SensTraced(Past(s), q.fileId, at) by {
      assert ReadsFile(q) ==> (q.fileId, q.sha) in s.hashed;
    }
    hide SensTraced;
    match s.callers[c] {
      case KnownBad(_) =>
      case Answered(_, a) => WriteAnswerTraced(s, q, a, at);
      case HalfSeeded(_, _) =>
    }
  }

  lemma WriteAnswerTraced(s: State, q: Query, a: Answer, at: Option<nat>)
    requires AnswerTraced(Past(s), q, a, at)
    ensures q.kind == Write && NtSuccess(a.status) && a.block ==> BadTraced(Past(s), q.sha, at)
  {
  }

  lemma BeginTraced(s: State, c: nat, q: Query, held: bool)
    requires Enabled(s, Begin(c, q)) && CachesTraced(s, held)
    ensures var t := Apply(s, Begin(c, q));
            t.epoch == s.epoch && CallerTraced(Past(t), t.callers[c], Bound(held, s.epoch))
  {
    var t := Apply(s, Begin(c, q));
    NothingForgotten(s, Begin(c, q));
    TracesPersist(Past(s), Past(t), Bound(held, s.epoch));
    hide BadTraced, SensTraced, AllowSeen;
    var e := Entry(q.sha, s.epoch);
    assert e in s.badHash ==> BadTraced(Past(s), e.key, Bound(held, e.epoch));
  }

  lemma NothingForgotten(s: State, step: Step)
    requires Enabled(s, step)
    ensures var t := Apply(s, step);
            && t.mode == s.mode && s.hashed <= t.hashed && |t.callers| == |s.callers|
            && (forall e :: e in s.events ==> e in t.events)
            && (!step.Connect? ==> t.epoch == s.epoch)
            && (step.Seed? || (t.badHash <= s.badHash && t.sensFile <= s.sensFile && t.cleanFile <= s.cleanFile))
  {
    hide Judge, Genuine;
  }

  /** A caller that is not waiting to insert is traced the same in every epoch. */
  lemma IdleTraceIsTimeless(h: History, c: Caller, at: Option<nat>, later: Option<nat>)
    requires CallerTraced(h, c, at) && !Pending(c)
    ensures CallerTraced(h, c, later)
  {
  }

  lemma {:induction false} StepTraced(s: State, step: Step, held: bool)
    requires CallersTraced(s, held) && CachesTraced(s, held) && Enabled(s, step) && (held ==> PromptStep(s, step))
    ensures CallersTraced(Apply(s, step), held) && CachesTraced(Apply(s, step), held)
  {
    var t := Apply(s, step);
    NothingForgotten(s, step);
    TracesPersist(Past(s), Past(t), Bound(held, s.epoch));
    if step.Seed? {
      SeedTraced(s, step.c, held);
    } else {
      CachesPersist(s, t, held);
    }
    if IsCallerStep(step) {
      MoverTraced(s, step, held);
    }
    hide Apply, CallerTraced;
    forall c | 0 <= c < |t.callers|
      ensures CallerTraced(Past(t), t.callers[c], Bound(held, t.epoch))
    {
      assert CallerTraced(Past(s), s.callers[c], Bound(held, s.epoch));
      if !(IsCallerStep(step) && c == step.c) {
        OthersStay(s, step, c);
        if step.Connect? && held {
          IdleTraceIsTimeless(Past(t), t.callers[c], Bound(held, s.epoch), Bound(held, t.epoch));
        }
      }
    }
  }

  lemma OthersStay(s: State, step: Step, c: nat)
    requires Enabled(s, step) && c < |s.callers| && !(IsCallerStep(step) && c == step.c)
    ensures |Apply(s, step).callers| == |s.callers| && Apply(s, step).callers[c] == s.callers[c]
  {
    if IsCallerStep(step) {
      OneCallerMoves(s, step);
    }
  }

  lemma MoverTraced(s: State, step: Step, held: bool)
    requires CallersTraced(s, held) && CachesTraced(s, held) && Enabled(s, step) && IsCallerStep(step)
    ensures var t := Apply(s, step);
            step.c < |t.callers| && CallerTraced(Past(t), t.callers[step.c], Bound(held, t.epoch))
  {
    NothingForgotten(s, step);
    assert CallerTraced(Past(s), s.callers[step.c], Bound(held, s.epoch));
    match step {
      case Seed(c) => SeedTraced(s, c, held);
      case Finish(c, send) => FinishTraced(s, c, send, held);
      case Begin(c, q) => BeginTraced(s, c, q, held);
      case _ =>
    }
  }

  /** Over every run everything is traced; when no reconnect falls between a verdict and
      its inserts, to evidence of the entry's own epoch. */
  lemma {:induction false} RunTraced(mode: FailMode, n: nat, steps: seq<Step>, trace: seq<State>, i: nat, held: bool)
    requires IsRun(mode, n, steps, trace) && i < |trace| && (held ==> Prompt(steps, trace))
    ensures CallersTraced(trace[i], held) && CachesTraced(trace[i], held) && trace[i].mode == mode
  {
    if i > 0 {
      RunTraced(mode, n, steps, trace, i - 1, held);
      var step := steps[i - 1];
      NothingForgotten(trace[i - 1], step);
      StepTraced(trace[i - 1], step, held);
    }
  }

  /** Every known-clean entry comes from a validated ALLOW of reading that file. */
  lemma CleanNeedsAllow(mode: FailMode, n: nat, steps: seq<Step>, trace: seq<State>, i: nat, e: Entry)
    requires IsRun(mode, n, steps, trace) && i < |trace| && e in trace[i].cleanFile
    ensures AllowSeen(Past(trace[i]), e.key, None)
  {
    RunTraced(mode, n, steps, trace, i, false);
  }

  ghost predicate NoWriteTimedOut(s: State) {
    forall e :: e in s.events ==> !e.WriteTimedOut?
  }

  /** Under FailMode ALLOW, and under FailMode BLOCK as long as no write has timed
      out, every known-bad hash comes from a validated BLOCK of shipped content with
      that hash, and every known-sensitive file had such content. */
  lemma BadNeedsBlock(mode: FailMode, n: nat, steps: seq<Step>, trace: seq<State>, i: nat, e: Entry)
    requires IsRun(mode, n, steps, trace) && i < |trace|
    requires mode.FailAllow? || NoWriteTimedOut(trace[i])
    ensures e in trace[i].badHash ==> BlockSeen(Past(trace[i]), e.key, None)
    ensures e in trace[i].sensFile ==>
              exists p :: p in trace[i].hashed && p.0 == e.key && BlockSeen(Past(trace[i]), p.1, None)
  {
    RunTraced(mode, n, steps, trace, i, false);
    if e in trace[i].sensFile {
      assert SensTraced(Past(trace[i]), e.key, None);
      var p :| p in trace[i].hashed && p.0 == e.key && BadTraced(Past(trace[i]), p.1, None);
      assert BlockSeen(Past(trace[i]), p.1, None);
    }
  }
}
