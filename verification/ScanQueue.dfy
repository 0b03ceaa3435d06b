/**
  The asynchronous scan queue of the minifilter: any number of producers (read
  and open callbacks), one worker thread and the unload path, as a state machine
  whose steps are the atomic actions of the driver. Each spinlock region, each
  interlocked operation, each semaphore and each rundown operation is one step.
 */
module ScanQueue {

  const SCAN_QUEUE_MAX: nat := 256

  /** Where one callback thread stands between entering and leaving. */
  datatype Producer =
    | Outside
    | Entered                // saw ScanRundownInit set
    | Admitted               // saw the queue depth below the bound
    | Holding(job: nat)      // job allocated, FILE_OBJECT referenced
    | Protected(job: nat)    // rundown acquired, not yet inserted
    | Inserted               // inserted, semaphore not yet signalled

  datatype Worker =
    | Waiting
    | Woken                  // took a semaphore token, ScanStop not yet read
    | Running                // read ScanStop as 0, about to dequeue
    | Processing(job: nat)
    | Freed                  // job freed, its rundown reference still held
    | Draining               // read ScanStop as 1
    | DrainHolding(job: nat)
    | DrainFreed
    | Exited

  datatype Stopper = Active | RunningDown | Drained | StopSet | Signalled | Joined

  /** derefs[j] counts how often the FILE_OBJECT reference of job j was dropped. */
  datatype State = State(
    producers: seq<Producer>,
    worker: Worker,
    stopper: Stopper,
    queue: seq<nat>,
    depth: nat,
    tokens: nat,
    refs: nat,
    closed: bool,
    stop: bool,
    init: bool,
    derefs: seq<nat>)

  datatype Step =
    | Enter(p: nat) | Admit(p: nat) | Refuse(p: nat) | AllocFail(p: nat) | Allocate(p: nat)
    | Acquire(p: nat) | AcquireFail(p: nat) | Insert(p: nat) | Signal(p: nat)
    | Wake | SeeRun | SeeStop | Dequeue | DequeueEmpty | FreeJob | Release
    | DrainTake | DrainFree | DrainRelease | DrainExit
    | BeginRundown | RundownDone | SetStop | SignalStop | Join

  function Init(n: nat): State {
    State(seq(n, _ => Outside), Waiting, Active, [], 0, 0, 0, false, false, true, [])
  }

  predicate At(s: State, p: nat, phase: Producer) {
    p < |s.producers| && s.producers[p] == phase
  }

  predicate Enabled(s: State, step: Step) {
    match step
    case Enter(p) => At(s, p, Outside) && s.init
    case Admit(p) => At(s, p, Entered) && s.depth < SCAN_QUEUE_MAX
    case Refuse(p) => At(s, p, Entered) && s.depth >= SCAN_QUEUE_MAX
    case AllocFail(p) => At(s, p, Admitted)
    case Allocate(p) => At(s, p, Admitted)
    case Acquire(p) => p < |s.producers| && s.producers[p].Holding? && !s.closed
    case AcquireFail(p) => p < |s.producers| && s.producers[p].Holding? && s.closed
    case Insert(p) => p < |s.producers| && s.producers[p].Protected?
    case Signal(p) => At(s, p, Inserted)
    case Wake => s.worker.Waiting? && s.tokens > 0
    case SeeRun => s.worker.Woken? && !s.stop
    case SeeStop => s.worker.Woken? && s.stop
    case Dequeue => s.worker.Running? && s.queue != [] && s.depth > 0
    case DequeueEmpty => s.worker.Running? && s.queue == []
    case FreeJob => s.worker.Processing?
    case Release => s.worker.Freed? && s.refs > 0
    case DrainTake => s.worker.Draining? && s.queue != [] && s.depth > 0
    case DrainFree => s.worker.DrainHolding?
    case DrainRelease => s.worker.DrainFreed? && s.refs > 0
    case DrainExit => s.worker.Draining? && s.queue == []
    case BeginRundown => s.stopper.Active?
    case RundownDone => s.stopper.RunningDown? && s.refs == 0
    case SetStop => s.stopper.Drained?
    case SignalStop => s.stopper.StopSet?
    case Join => s.stopper.Signalled? && s.worker.Exited?
  }

  function Move(s: State, p: nat, phase: Producer): State
    requires p < |s.producers|
  {
    s.(producers := s.producers[p := phase])
  }

  /** DlpFreeScanJob drops the FILE_OBJECT reference of a job. */
  function Free(s: State, job: nat): State {
    if job < |s.derefs| then s.(derefs := s.derefs[job := s.derefs[job] + 1]) else s
  }

  function Apply(s: State, step: Step): State
    requires Enabled(s, step)
  {
    match step
    case Enter(p) => Move(s, p, Entered)
    case Admit(p) => Move(s, p, Admitted)
    case Refuse(p) => Move(s, p, Outside)
    case AllocFail(p) => Move(s, p, Outside)
    case Allocate(p) => Move(s, p, Holding(|s.derefs|)).(derefs := s.derefs + [0])
    case Acquire(p) => Move(s, p, Protected(s.producers[p].job)).(refs := s.refs + 1)
    case AcquireFail(p) => Free(Move(s, p, Outside), s.producers[p].job)
    case Insert(p) =>
      Move(s, p, Inserted).(queue := s.queue + [s.producers[p].job], depth := s.depth + 1)
    case Signal(p) => Move(s, p, Outside).(tokens := s.tokens + 1)
    case Wake => s.(worker := Woken, tokens := s.tokens - 1)
    case SeeRun => s.(worker := Running)
    case SeeStop => s.(worker := Draining)
    case Dequeue => s.(worker := Processing(s.queue[0]), queue := s.queue[1..], depth := s.depth - 1)
    case DequeueEmpty => s.(worker := Waiting)
    case FreeJob => Free(s, s.worker.job).(worker := Freed)
    case Release => s.(worker := Waiting, refs := s.refs - 1)
    case DrainTake => s.(worker := DrainHolding(s.queue[0]), queue := s.queue[1..], depth := s.depth - 1)
    case DrainFree => Free(s, s.worker.job).(worker := DrainFreed)
    case DrainRelease => s.(worker := Draining, refs := s.refs - 1)
    case DrainExit => s.(worker := Exited)
    case BeginRundown => s.(stopper := RunningDown, closed := true)
    case RundownDone => s.(stopper := Drained, init := false)
    case SetStop => s.(stopper := StopSet, stop := true)
    case SignalStop => s.(stopper := Signalled, tokens := s.tokens + 1)
    case Join => s.(stopper := Joined)
  }

  /** trace is an interleaved run of n producers, the worker and the stopper. */
  ghost predicate IsRun(n: nat, steps: seq<Step>, trace: seq<State>) {
    && |trace| == |steps| + 1
    && trace[0] == Init(n)
    && forall i {:trigger steps[i]} :: 0 <= i < |steps| ==>
         Enabled(trace[i], steps[i]) && trace[i + 1] == Apply(trace[i], steps[i])
  }

  lemma ExtendRun(n: nat, steps: seq<Step>, trace: seq<State>, step: Step)
    requires IsRun(n, steps, trace) && Enabled(trace[|steps|], step)
    ensures IsRun(n, steps + [step], trace + [Apply(trace[|steps|], step)])
  {
    var longer, states := steps + [step], trace + [Apply(trace[|steps|], step)];
    forall i {:trigger longer[i]} | 0 <= i < |longer|
      ensures Enabled(states[i], longer[i]) && states[i + 1] == Apply(states[i], longer[i])
    {
      if i < |steps| {
        assert longer[i] == steps[i];
      }
    }
  }

  // ------------------------------------------------------------------
  // Counting over producers
  // ------------------------------------------------------------------

  datatype Measure = InRundown | Unsignalled | Committed | Owning(job: nat)

  function Weight(p: Producer, m: Measure): nat {
    match m
    case InRundown => if p.Protected? then 1 else 0
    case Unsignalled => if p.Inserted? then 1 else 0
    case Committed => if p.Admitted? || p.Holding? || p.Protected? then 1 else 0
    case Owning(job) => if (p.Holding? || p.Protected?) && p.job == job then 1 else 0
  }

  function Sum(ps: seq<Producer>, m: Measure): nat {
    if ps == [] then 0 else Sum(ps[1..], m) + Weight(ps[0], m)
  }

  lemma {:induction false} SumUpdate(ps: seq<Producer>, p: nat, phase: Producer, m: Measure)
    requires p < |ps|
    ensures Sum(ps[p := phase], m) == Sum(ps, m) - Weight(ps[p], m) + Weight(phase, m)
  {
    if p == 0 {
      assert ps[p := phase][1..] == ps[1..];
    } else {
      SumUpdate(ps[1..], p - 1, phase, m);
      assert ps[p := phase][1..] == ps[1..][p - 1 := phase];
    }
  }

  lemma {:induction false} SumPositive(ps: seq<Producer>, m: Measure)
    ensures Sum(ps, m) > 0 ==> exists p :: 0 <= p < |ps| && Weight(ps[p], m) > 0
  {
    if ps != [] && Weight(ps[0], m) == 0 {
      SumPositive(ps[1..], m);
      if Sum(ps[1..], m) > 0 {
        var p :| 0 <= p < |ps| - 1 && Weight(ps[1..][p], m) > 0;
        assert ps[1..][p] == ps[p + 1];
      }
    }
  }

  lemma {:induction false} SumCovers(ps: seq<Producer>, m: Measure, p: nat)
    requires p < |ps|
    ensures Sum(ps, m) >= Weight(ps[p], m)
  {
    SumUpdate(ps, p, Outside, m);
  }

  lemma {:induction false} SumBounded(ps: seq<Producer>, m: Measure)
    ensures Sum(ps, m) <= |ps|
  {
    if ps != [] {
      SumBounded(ps[1..], m);
    }
  }

  lemma {:induction false} SumAtRest(n: nat, m: Measure)
    ensures Sum(seq(n, _ => Outside), m) == 0
  {
    if n > 0 {
      SumAtRest(n - 1, m);
      assert seq(n, _ => Outside)[1..] == seq(n - 1, _ => Outside);
    }
  }

  // ------------------------------------------------------------------
  // The invariant
  // ------------------------------------------------------------------

  function WorkerRefs(w: Worker): nat {
    if w.Processing? || w.Freed? || w.DrainHolding? || w.DrainFreed? then 1 else 0
  }

  function WorkerTokens(w: Worker): nat {
    if w.Woken? || w.Running? then 1 else 0
  }

  function WorkerOwns(w: Worker, job: nat): nat {
    if (w.Processing? || w.DrainHolding?) && w.job == job then 1 else 0
  }

  /** How often the reference of a job is still owned somewhere or was dropped. */
  function Account(s: State, job: nat): nat {
    (if job < |s.derefs| then s.derefs[job] else 0)
    + multiset(s.queue)[job] + Sum(s.producers, Owning(job)) + WorkerOwns(s.worker, job)
  }

  /** Every job ever created is owned exactly once, or was dropped exactly once. */
  ghost predicate References(s: State) {
    forall job: nat :: Account(s, job) == if job < |s.derefs| then 1 else 0
  }

  ghost predicate Stopping(s: State) {
    && (s.closed <==> !s.stopper.Active?)
    && (s.stop <==> s.stopper.StopSet? || s.stopper.Signalled? || s.stopper.Joined?)
    && (s.init <==> s.stopper.Active? || s.stopper.RunningDown?)
    && (!s.init ==> s.refs == 0)
    && (s.stopper.Joined? ==> s.worker.Exited?)
  }

  /** Before the stop flag: every queued job has its wakeup on the way. After it:
      the queue is empty and the only token is the stopper's. */
  ghost predicate Tokens(s: State) {
    if !s.stop then
      && (s.worker.Waiting? || s.worker.Woken? || s.worker.Running? || s.worker.Processing? || s.worker.Freed?)
      && s.tokens + Sum(s.producers, Unsignalled) + WorkerTokens(s.worker) == |s.queue|
    else
      && (s.worker.Waiting? || s.worker.Woken? || s.worker.Draining? || s.worker.Exited?)
      && Sum(s.producers, Unsignalled) == 0
      && s.tokens + (if s.worker.Waiting? then 0 else 1) == if s.stopper.StopSet? then 0 else 1
  }

  ghost predicate Inv(s: State) {
    && s.depth == |s.queue|
    && s.refs == |s.queue| + Sum(s.producers, InRundown) + WorkerRefs(s.worker)
    && |s.queue| + Sum(s.producers, Committed) <= SCAN_QUEUE_MAX - 1 + |s.producers|
    && Stopping(s)
    && Tokens(s)
    && References(s)
  }
}
