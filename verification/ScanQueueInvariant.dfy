/** Every step of the scan queue keeps its invariant, so every run does. */
module ScanQueueInvariant {
  import opened ScanQueue

  lemma InvInit(n: nat)
    ensures Inv(Init(n))
  {
    forall m: Measure
      ensures Sum(Init(n).producers, m) == 0
    {
      SumAtRest(n, m);
    }
  }

  function PhaseAfter(s: State, step: Step): Producer
    requires Enabled(s, step)
  {
    match step
    case Enter(p) => Entered
    case Admit(p) => Admitted
    case Allocate(p) => Holding(|s.derefs|)
    case Acquire(p) => Protected(s.producers[p].job)
    case Insert(p) => Inserted
    case _ => Outside
  }

  predicate IsProducerStep(step: Step) {
    step.Enter? || step.Admit? || step.Refuse? || step.AllocFail? || step.Allocate?
    || step.Acquire? || step.AcquireFail? || step.Insert? || step.Signal?
  }

  lemma ProducerSums(s: State, step: Step, m: Measure)
    requires Enabled(s, step)
    ensures IsProducerStep(step) ==> step.p < |s.producers|
    ensures IsProducerStep(step) ==>
              (Sum(Apply(s, step).producers, m)
               == Sum(s.producers, m) - Weight(s.producers[step.p], m) + Weight(PhaseAfter(s, step), m))
    ensures !IsProducerStep(step) ==> Apply(s, step).producers == s.producers
  {
    if IsProducerStep(step) {
      SumUpdate(s.producers, step.p, PhaseAfter(s, step), m);
    }
  }

  predicate IsTakeStep(step: Step) {
    step.Dequeue? || step.DrainTake?
  }

  lemma QueueAfter(s: State, step: Step)
    requires Enabled(s, step)
    ensures step.Insert? ==> step.p < |s.producers| && s.producers[step.p].Protected?
                             && Apply(s, step).queue == s.queue + [s.producers[step.p].job]
    ensures IsTakeStep(step) ==> s.queue != [] && Apply(s, step).queue == s.queue[1..]
    ensures !step.Insert? && !IsTakeStep(step) ==> Apply(s, step).queue == s.queue
  {
  }

  lemma QueueCount(s: State, step: Step, job: nat)
    requires Enabled(s, step)
    ensures var before, after := multiset(s.queue)[job], multiset(Apply(s, step).queue)[job];
            after == if step.Insert? && s.producers[step.p].job == job then before + 1
                     else if IsTakeStep(step) && s.queue[0] == job then before - 1
                     else before
  {
    QueueAfter(s, step);
    hide Apply, Enabled;
    if IsTakeStep(step) {
      assert s.queue == [s.queue[0]] + s.queue[1..];
    }
  }

  lemma ProducerAccount(s: State, step: Step, job: nat)
    requires Enabled(s, step) && IsProducerStep(step)
    requires Account(s, job) == if job < |s.derefs| then 1 else 0
    ensures Account(Apply(s, step), job) == if job < |Apply(s, step).derefs| then 1 else 0
  {
    hide Sum;
    ProducerSums(s, step, Owning(job));
    SumCovers(s.producers, Owning(job), step.p);
    QueueCount(s, step, job);
  }

  /** The worker takes a job: what the queue gives up, it owns. */
  lemma TakeAccount(s: State, step: Step, job: nat)
    requires Enabled(s, step) && IsTakeStep(step)
    ensures Account(Apply(s, step), job) == Account(s, job)
  {
    hide Sum;
    QueueCount(s, step, job);
  }

  /** The worker frees its job: the drop is counted once. */
  lemma FreeAccount(s: State, step: Step, job: nat)
    requires Enabled(s, step) && (step.FreeJob? || step.DrainFree?)
    requires Account(s, job) == if job < |s.derefs| then 1 else 0
    ensures Account(Apply(s, step), job) == Account(s, job)
  {
    hide Sum;
  }

  lemma WorkerAccount(s: State, step: Step, job: nat)
    requires Enabled(s, step) && !IsProducerStep(step)
    requires Account(s, job) == if job < |s.derefs| then 1 else 0
    ensures Account(Apply(s, step), job) == if job < |Apply(s, step).derefs| then 1 else 0
  {
    hide Sum;
    if IsTakeStep(step) {
      TakeAccount(s, step, job);
    } else if step.FreeJob? || step.DrainFree? {
      FreeAccount(s, step, job);
    }
  }

  lemma StepReferences(s: State, step: Step)
    requires Inv(s) && Enabled(s, step)
    ensures References(Apply(s, step))
  {
    var t := Apply(s, step);
    forall job: nat
      ensures Account(t, job) == if job < |t.derefs| then 1 else 0
    {
      if IsProducerStep(step) {
        ProducerAccount(s, step, job);
      } else {
        WorkerAccount(s, step, job);
      }
    }
  }

  lemma StepCounters(s: State, step: Step)
    requires Inv(s) && Enabled(s, step)
    ensures var t := Apply(s, step);
            && t.depth == |t.queue|
            && t.refs == |t.queue| + Sum(t.producers, InRundown) + WorkerRefs(t.worker)
            && |t.queue| + Sum(t.producers, Committed) <= SCAN_QUEUE_MAX - 1 + |t.producers|
  {
    hide Sum, References, Tokens, Stopping;
    ProducerSums(s, step, InRundown);
    ProducerSums(s, step, Committed);
    SumBounded(Apply(s, step).producers, Committed);
  }

  lemma StepTokens(s: State, step: Step)
    requires Inv(s) && Enabled(s, step)
    ensures Stopping(Apply(s, step)) && Tokens(Apply(s, step))
  {
    hide Sum, References;
    ProducerSums(s, step, Unsignalled);
    ProducerSums(s, step, InRundown);
    if IsProducerStep(step) {
      SumCovers(s.producers, Unsignalled, step.p);
      SumCovers(s.producers, InRundown, step.p);
    }
  }

  lemma InvStep(s: State, step: Step)
    requires Inv(s) && Enabled(s, step)
    ensures Inv(Apply(s, step))
  {
    StepCounters(s, step);
    StepTokens(s, step);
    StepReferences(s, step);
  }

  lemma StepProducers(s: State, step: Step)
    requires Enabled(s, step)
    ensures |Apply(s, step).producers| == |s.producers|
  {
  }

  lemma {:induction false} InvRun(n: nat, steps: seq<Step>, trace: seq<State>, i: nat)
    requires IsRun(n, steps, trace) && i < |trace|
    ensures Inv(trace[i]) && |trace[i].producers| == n
  {
    hide Inv, Enabled, Apply;
    if i == 0 {
      InvInit(n);
    } else {
      InvRun(n, steps, trace, i - 1);
      InvStep(trace[i - 1], steps[i - 1]);
      StepProducers(trace[i - 1], steps[i - 1]);
    }
  }
}
