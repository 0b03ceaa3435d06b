/** What the invariant means over every run of the scan queue. */
module ScanQueueRuns {
  import opened ScanQueue
  import opened ScanQueueInvariant

  // ------------------------------------------------------------------
  // Safety over every run
  // ------------------------------------------------------------------

  /** Rundown references are exactly the queued jobs, the jobs acquired but not
      yet inserted and the one the worker took but has not released. */
  lemma {:induction false} RundownAccounts(n: nat, steps: seq<Step>, trace: seq<State>, i: nat)
    requires IsRun(n, steps, trace) && i < |trace|
    ensures trace[i].refs
            == |trace[i].queue| + Sum(trace[i].producers, InRundown) + WorkerRefs(trace[i].worker)
  {
    InvRun(n, steps, trace, i);
  }

  /** The unlocked depth check lets the queue exceed its bound by at most one
      job per other producer. */
  lemma {:induction false} DepthBound(n: nat, steps: seq<Step>, trace: seq<State>, i: nat)
    requires IsRun(n, steps, trace) && i < |trace|
    ensures trace[i].depth == |trace[i].queue| <= 255 + n
  {
    InvRun(n, steps, trace, i);
  }

  /** No wakeup is lost, and until the stop flag is set a woken worker always
      finds a job: its empty-queue branch is never taken. */
  lemma {:induction false} NoLostWakeup(n: nat, steps: seq<Step>, trace: seq<State>, i: nat)
    requires IsRun(n, steps, trace) && i < |trace| && !trace[i].stop
    ensures trace[i].tokens + Sum(trace[i].producers, Unsignalled) + WorkerTokens(trace[i].worker)
            == |trace[i].queue|
    ensures !Enabled(trace[i], DequeueEmpty)
  {
    InvRun(n, steps, trace, i);
  }

  /** A FILE_OBJECT reference is dropped at most once, and it is dropped exactly
      when nobody owns its job any more. */
  lemma {:induction false} DroppedExactlyOnce(n: nat, steps: seq<Step>, trace: seq<State>, i: nat, job: nat)
    requires IsRun(n, steps, trace) && i < |trace| && job < |trace[i].derefs|
    ensures trace[i].derefs[job] <= 1
    ensures trace[i].derefs[job] == 1 <==>
            job !in trace[i].queue && Sum(trace[i].producers, Owning(job)) == 0
            && WorkerOwns(trace[i].worker, job) == 0
  {
    InvRun(n, steps, trace, i);
    assert Account(trace[i], job) == 1;
    assert job in trace[i].queue <==> multiset(trace[i].queue)[job] > 0;
  }

  /** Once the rundown wait has returned, nothing is queued or being processed,
      no producer is between acquire and signal, none can acquire again, and the
      worker's drain loop finds nothing. */
  lemma {:induction false} RundownIsFinal(n: nat, steps: seq<Step>, trace: seq<State>, i: nat)
    requires IsRun(n, steps, trace) && i < |trace| && !trace[i].init
    ensures trace[i].queue == [] && trace[i].refs == 0 && |trace[i].producers| == n
    ensures forall p :: 0 <= p < n ==> !trace[i].producers[p].Protected? && !trace[i].producers[p].Inserted?
    ensures forall p :: !Enabled(trace[i], Acquire(p))
    ensures !Enabled(trace[i], DrainTake)
  {
    InvRun(n, steps, trace, i);
    forall p | 0 <= p < n
      ensures !trace[i].producers[p].Protected? && !trace[i].producers[p].Inserted?
    {
      SumCovers(trace[i].producers, InRundown, p);
      SumCovers(trace[i].producers, Unsignalled, p);
    }
  }

  /** When the stop routine has returned, the jobs that still exist are exactly
      those of callbacks that have not tried to enter the rundown yet. */
  lemma {:induction false} JobsAfterStop(n: nat, steps: seq<Step>, trace: seq<State>, i: nat, job: nat)
    requires IsRun(n, steps, trace) && i < |trace| && trace[i].stopper.Joined?
    requires job < |trace[i].derefs|
    ensures trace[i].worker.Exited? && |trace[i].producers| == n
    ensures trace[i].derefs[job] == 0 <==> exists p :: 0 <= p < n && trace[i].producers[p] == Holding(job)
  {
    InvRun(n, steps, trace, i);
    RundownIsFinal(n, steps, trace, i);
    DroppedExactlyOnce(n, steps, trace, i, job);
    if trace[i].derefs[job] == 0 {
      SumPositive(trace[i].producers, Owning(job));
    }
    if p :| 0 <= p < n && trace[i].producers[p] == Holding(job) {
      SumCovers(trace[i].producers, Owning(job), p);
    }
  }

  /** Such a job can exist: one callback allocates its job, then the whole stop
      sequence runs before that callback tries to enter the rundown. */
  lemma {:induction false} JobMayOutliveStop() returns (steps: seq<Step>, trace: seq<State>)
    ensures IsRun(1, steps, trace)
    ensures trace[|steps|].stopper.Joined? && trace[|steps|].derefs == [0]
  {
    steps, trace := RunUntilDraining();
    steps, trace := Then(1, steps, trace, DrainExit);
    steps, trace := Then(1, steps, trace, Join);
  }

  lemma {:induction false} RunUntilDraining() returns (steps: seq<Step>, trace: seq<State>)
    ensures IsRun(1, steps, trace)
    ensures trace[|steps|] == State([Holding(0)], Draining, Signalled, [], 0, 0, 0, true, true, false, [0])
  {
    steps, trace := RunUntilStopSet();
    steps, trace := Then(1, steps, trace, SignalStop);
    steps, trace := Then(1, steps, trace, Wake);
    steps, trace := Then(1, steps, trace, SeeStop);
  }

  lemma {:induction false} RunUntilStopSet() returns (steps: seq<Step>, trace: seq<State>)
    ensures IsRun(1, steps, trace)
    ensures trace[|steps|] == State([Holding(0)], Waiting, StopSet, [], 0, 0, 0, true, true, false, [0])
  {
    steps, trace := RunUntilAllocated();
    steps, trace := Then(1, steps, trace, BeginRundown);
    steps, trace := Then(1, steps, trace, RundownDone);
    steps, trace := Then(1, steps, trace, SetStop);
  }

  lemma {:induction false} RunUntilAllocated() returns (steps: seq<Step>, trace: seq<State>)
    ensures IsRun(1, steps, trace)
    ensures trace[|steps|] == State([Holding(0)], Waiting, Active, [], 0, 0, 0, false, false, true, [0])
  {
    steps, trace := [], [Init(1)];
    assert Init(1).producers == [Outside];
    steps, trace := Then(1, steps, trace, Enter(0));
    steps, trace := Then(1, steps, trace, Admit(0));
    steps, trace := Then(1, steps, trace, Allocate(0));
  }

  /** One more step at the end of a run. */
  lemma {:induction false} Then(n: nat, steps: seq<Step>, trace: seq<State>, step: Step)
    returns (longer: seq<Step>, states: seq<State>)
    requires IsRun(n, steps, trace) && Enabled(trace[|steps|], step)
    ensures IsRun(n, longer, states) && states[|longer|] == Apply(trace[|steps|], step)
    ensures longer == steps + [step]
  {
    ExtendRun(n, steps, trace, step);
    longer, states := steps + [step], trace + [Apply(trace[|steps|], step)];
  }

  // ------------------------------------------------------------------
  // Progress of the rundown
  // ------------------------------------------------------------------

  /** The steps that carry a protected job towards its release. */
  predicate IsDrainStep(step: Step) {
    step.Insert? || step.Signal? || step.Wake? || step.SeeRun? || step.Dequeue? || step.FreeJob? || step.Release?
  }

  function WorkerRank(w: Worker): nat {
    if w.Woken? || w.Processing? then 2 else if w.Running? || w.Freed? then 1 else 0
  }

  function Rank(s: State): nat {
    7 * Sum(s.producers, InRundown) + 4 * Sum(s.producers, Unsignalled) + 2 * |s.queue| + 3 * s.tokens
    + WorkerRank(s.worker)
  }

  /** While the rundown is being waited for, every drain step brings the rank
      down and no other step raises it. */
  lemma {:induction false} RankFalls(s: State, step: Step)
    requires Inv(s) && s.stopper.RunningDown? && Enabled(s, step)
    ensures Rank(Apply(s, step)) <= Rank(s)
    ensures IsDrainStep(step) ==> Rank(Apply(s, step)) < Rank(s)
  {
    ProducerSums(s, step, InRundown);
    ProducerSums(s, step, Unsignalled);
  }

  /** The rundown wait never deadlocks: as long as it is not satisfied some
      drain step is enabled. */
  lemma {:induction false} RundownProgress(n: nat, steps: seq<Step>, trace: seq<State>, i: nat) returns (step: Step)
    requires IsRun(n, steps, trace) && i < |trace|
    requires trace[i].stopper.RunningDown? && trace[i].refs > 0
    ensures Enabled(trace[i], step) && IsDrainStep(step) && Rank(Apply(trace[i], step)) < Rank(trace[i])
  {
    var s := trace[i];
    InvRun(n, steps, trace, i);
    SumPositive(s.producers, InRundown);
    SumPositive(s.producers, Unsignalled);
    if Sum(s.producers, InRundown) > 0 {
      var p :| 0 <= p < |s.producers| && Weight(s.producers[p], InRundown) > 0;
      step := Insert(p);
    } else if Sum(s.producers, Unsignalled) > 0 {
      var p :| 0 <= p < |s.producers| && Weight(s.producers[p], Unsignalled) > 0;
      step := Signal(p);
    } else {
      step := match s.worker
        case Woken => SeeRun
        case Running => Dequeue
        case Processing(_) => FreeJob
        case Freed => Release
        case _ => Wake;
    }
    RankFalls(s, step);
  }
}
