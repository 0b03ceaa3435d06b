/** The order in which jobs are taken, and that they can be. */
module ScanQueueFifo {
  import opened ScanQueue
  import opened ScanQueueInvariant
  import opened ScanQueueRuns

  // ------------------------------------------------------------------
  // First in, first out
  // ------------------------------------------------------------------

  /** The job that a producer's insert hands over. */
  function InsertedBy(s: State, step: Step): seq<nat> {
    if step.Insert? && step.p < |s.producers| && s.producers[step.p].Protected? then [s.producers[step.p].job] else []
  }

  /** The job that the worker holds after taking it. */
  function TakenBy(step: Step, t: State): seq<nat> {
    if step.Dequeue? && t.worker.Processing? then [t.worker.job]
    else if step.DrainTake? && t.worker.DrainHolding? then [t.worker.job]
    else []
  }

  /** The jobs that producers inserted, in the order of the run. */
  ghost function InsertedJobs(steps: seq<Step>, trace: seq<State>): seq<nat>
    requires |trace| == |steps| + 1
  {
    if steps == [] then []
    else
      var n := |steps| - 1;
      InsertedJobs(steps[..n], trace[..n + 1]) + InsertedBy(trace[n], steps[n])
  }

  /** The jobs that the worker took, in the order of the run. */
  ghost function TakenJobs(steps: seq<Step>, trace: seq<State>): seq<nat>
    requires |trace| == |steps| + 1
  {
    if steps == [] then []
    else
      var n := |steps| - 1;
      TakenJobs(steps[..n], trace[..n + 1]) + TakenBy(steps[n], trace[n + 1])
  }

  lemma QueueStep(s: State, step: Step)
    requires Enabled(s, step)
    ensures TakenBy(step, Apply(s, step)) + Apply(s, step).queue == s.queue + InsertedBy(s, step)
    ensures step.Insert? ==> |InsertedBy(s, step)| == 1
    ensures step.Dequeue? || step.DrainTake? ==> |TakenBy(step, Apply(s, step))| == 1
  {
  }

  /** No job is lost, duplicated or overtaken: what was taken, followed by what is queued, is what was
      inserted, in every run. */
  lemma {:induction false} JobsAreTakenInOrder(n: nat, steps: seq<Step>, trace: seq<State>)
    requires IsRun(n, steps, trace)
    ensures TakenJobs(steps, trace) + trace[|steps|].queue == InsertedJobs(steps, trace)
    decreases |steps|
  {
    hide Enabled, Apply, IsRun, TakenBy, InsertedBy;
    ShorterRun(n, steps, trace);
    if steps != [] {
      var k := |steps| - 1;
      JobsAreTakenInOrder(n, steps[..k], trace[..k + 1]);
      QueueStep(trace[k], steps[k]);
      var taken, q, t, u, i := TakenJobs(steps[..k], trace[..k + 1]), trace[k].queue,
        TakenBy(steps[k], trace[k + 1]), trace[k + 1].queue, InsertedBy(trace[k], steps[k]);
      assert taken + t + u == taken + (t + u) == taken + (q + i) == taken + q + i;
    }
  }

  lemma ShorterRun(n: nat, steps: seq<Step>, trace: seq<State>)
    requires IsRun(n, steps, trace)
    ensures |trace| == |steps| + 1 && (steps == [] ==> trace[0].queue == [])
    ensures steps != [] ==>
              && IsRun(n, steps[..|steps| - 1], trace[..|steps|])
              && Enabled(trace[|steps| - 1], steps[|steps| - 1])
              && trace[|steps|] == Apply(trace[|steps| - 1], steps[|steps| - 1])
  {
    hide Enabled, Apply;
    if steps == [] {
      return;
    }
    var front, states := steps[..|steps| - 1], trace[..|steps|];
    forall i {:trigger front[i]} | 0 <= i < |front|
      ensures Enabled(states[i], front[i]) && states[i + 1] == Apply(states[i], front[i])
    {
      assert front[i] == steps[i];
    }
    assert steps[|steps| - 1] == steps[|steps| - 1];
  }

  // ------------------------------------------------------------------
  // Jobs do get through
  // ------------------------------------------------------------------

  /** A callback is admitted exactly while fewer than 256 jobs are counted, and refused otherwise. */
  lemma GateAt256(s: State, p: nat)
    requires At(s, p, Entered)
    ensures Enabled(s, Admit(p)) <==> s.depth < 256
    ensures Enabled(s, Refuse(p)) <==> s.depth >= 256
  {
  }

  /** While a job is queued before the stop, the worker or the producer that owes it a signal can move. */
  lemma {:induction false} QueuedJobsMove(n: nat, steps: seq<Step>, trace: seq<State>, i: nat) returns (step: Step)
    requires IsRun(n, steps, trace) && i < |trace| && !trace[i].stop && trace[i].queue != []
    ensures Enabled(trace[i], step)
    ensures step.Signal? || step.Wake? || step.SeeRun? || step.Dequeue? || step.FreeJob? || step.Release?
  {
    var s := trace[i];
    InvRun(n, steps, trace, i);
    SumPositive(s.producers, Unsignalled);
    step := match s.worker
      case Woken => SeeRun
      case Running => Dequeue
      case Processing(_) => FreeJob
      case Freed => Release
      case _ => Wake;
    if s.worker.Waiting? && s.tokens == 0 {
      var p :| 0 <= p < |s.producers| && Weight(s.producers[p], Unsignalled) > 0;
      step := Signal(p);
    }
  }

  /** The life of one job: admitted, queued, taken, scanned and dropped once; then all is at rest again. */
  lemma {:induction false} OneJobIsScanned() returns (steps: seq<Step>, trace: seq<State>)
    ensures IsRun(1, steps, trace) && InsertedJobs(steps, trace) == TakenJobs(steps, trace) != []
    ensures trace[|steps|] == Init(1).(derefs := [1])
  {
    hide InsertedJobs, TakenJobs;
    steps, trace := RunUntilQueued();
    steps, trace := Then(1, steps, trace, Wake);
    steps, trace := Then(1, steps, trace, SeeRun);
    steps, trace := Then(1, steps, trace, Dequeue);
    TakenLast(steps, trace);
    JobsAreTakenInOrder(1, steps, trace);
    steps, trace := ThenQuietly(steps, trace, FreeJob);
    steps, trace := ThenQuietly(steps, trace, Release);
    JobsAreTakenInOrder(1, steps, trace);
  }

  lemma RunUntilQueued() returns (steps: seq<Step>, trace: seq<State>)
    ensures IsRun(1, steps, trace)
    ensures trace[|steps|] == State([Outside], Waiting, Active, [0], 1, 1, 1, false, false, true, [0])
  {
    steps, trace := RunUntilAllocated();
    steps, trace := Then(1, steps, trace, Acquire(0));
    steps, trace := Then(1, steps, trace, Insert(0));
    steps, trace := Then(1, steps, trace, Signal(0));
    assert trace[|steps|].queue == [0];
  }

  lemma TakenLast(steps: seq<Step>, trace: seq<State>)
    requires |trace| == |steps| + 1 && steps != [] && steps[|steps| - 1] == Dequeue
    requires trace[|steps|].worker.Processing?
    ensures TakenJobs(steps, trace) != []
  {
  }

  lemma ThenQuietly(steps: seq<Step>, trace: seq<State>, step: Step) returns (longer: seq<Step>, states: seq<State>)
    requires IsRun(1, steps, trace) && Enabled(trace[|steps|], step) && (step.FreeJob? || step.Release?)
    ensures IsRun(1, longer, states) && states[|longer|] == Apply(trace[|steps|], step)
    ensures TakenJobs(longer, states) == TakenJobs(steps, trace)
  {
    ExtendRun(1, steps, trace, step);
    longer, states := steps + [step], trace + [Apply(trace[|steps|], step)];
    assert longer[..|steps|] == steps && states[..|steps| + 1] == trace;
    assert longer[|steps|] == step;
    hide Apply;
  }
}
