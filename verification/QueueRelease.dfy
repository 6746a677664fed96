/**
 When the pool is gone before a release callback runs: the exact condition on the queue a
 callback is closed with, over every interleaving that follows.
 */
module QueueReleases {
  import opened SerialQueues

  /** The queue is idle, and whoever took its pool has not dropped it yet. */
  predicate PoolInFlight(s: System) {
    !s.state.active && !s.state.pool && s.poolsDropped == 0
  }

  /** The thread that holds the pool is a closer or the drainer, each past the lock. */
  lemma WhoHoldsThePool(s: System, capacity: nat)
    requires Inv(s, capacity)
    ensures PoolInFlight(s) <==> s.droppers != multiset{} || (|s.drainers| == 1 && s.drainers[0].Dropping?)
  {
    if c :| c in s.droppers {
      DropIsFirst(s, c);
    }
  }

  /** A close exposes its callback exactly while the pool is in flight. */
  lemma CloseExposes(s: System, capacity: nat, callback: Callback)
    requires Inv(s, capacity)
    ensures var t := Apply(s, capacity, Close(callback));
      && (PoolInFlight(s) <==> t.exposed == s.exposed + multiset{callback})
      && (!PoolInFlight(s) <==> t.exposed == s.exposed)
  {
    assert s.exposed + multiset{callback} != s.exposed by {
      assert (s.exposed + multiset{callback})[callback] == s.exposed[callback] + 1;
    }
  }

  // ----- over runs -----

  predicate CalledEarly(calls: seq<Call>, callback: Callback) {
    exists i | 0 <= i < |calls| :: calls[i].callback == callback && calls[i].poolsDropped == 0
  }

  /** Neither called as an exposed callback nor about to be. */
  ghost predicate Covered(s: System, callback: Callback) {
    && callback !in s.exposed
    && (forall i | 0 <= i < |s.released| && s.released[i].callback == callback :: !s.released[i].exposed)
  }

  lemma StepCovered(s: System, capacity: nat, step: Step, callback: Callback)
    requires Enabled(s, step) && Covered(s, callback) && step != Close(callback)
    ensures Covered(Apply(s, capacity, step), callback)
  {
    if step.Drain? {
      DrainCovered(s, step.drainer, callback);
    }
    hide Drained;
  }

  lemma DrainCovered(s: System, i: nat, callback: Callback)
    requires i < |s.drainers| && Covered(s, callback)
    ensures Covered(Drained(s, i), callback)
  {}

  lemma {:induction false} RunCovered(s: System, capacity: nat, steps: seq<Step>, callback: Callback)
    requires Covered(s, callback) && Close(callback) !in steps
    ensures Covered(Run(s, capacity, steps), callback)
    decreases |steps|
  {
    hide Apply, Enabled, Covered;
    if steps != [] {
      var init, last := steps[..|steps| - 1], steps[|steps| - 1];
      RunCovered(s, capacity, init, callback);
      if Enabled(Run(s, capacity, init), last) {
        StepCovered(Run(s, capacity, init), capacity, last, callback);
      }
    }
  }

  /** A callback nobody has registered is in none of the places a callback can be. */
  lemma UnregisteredIsCovered(s: System, capacity: nat, callback: Callback)
    requires Inv(s, capacity) && callback !in s.registered
    ensures Covered(s, callback)
  {
    forall i | 0 <= i < |s.released|
      ensures s.released[i].callback != callback
    {
      assert Called(s.released)[i] in multiset(Called(s.released));
    }
  }

  /** In every continuation a covered callback runs only once the pool has been dropped. */
  lemma CoveredRunsAfterPool(s: System, capacity: nat, steps: seq<Step>, callback: Callback)
    requires capacity > 0 && Inv(s, capacity) && Covered(s, callback) && Close(callback) !in steps
    ensures !CalledEarly(Run(s, capacity, steps).released, callback)
  {
    RunKeeps(s, capacity, steps);
    RunCovered(s, capacity, steps, callback);
    var t := Run(s, capacity, steps);
    hide Run;
    assert PoolFirst(t);
  }

  /** Some continuation of a close runs its callback before the pool is dropped. */
  ghost predicate MayRunEarly(s: System, capacity: nat, callback: Callback) {
    exists steps: seq<Step> | Close(callback) !in steps ::
      CalledEarly(Run(Apply(s, capacity, Close(callback)), capacity, steps).released, callback)
  }

  /**
   The documented order of `close`, the pool first and the callback after it, holds in every
   continuation if and only if the pool is not in flight when `close` takes the lock.
   */
  lemma EarlyIff(s: System, capacity: nat, callback: Callback)
    requires capacity > 0 && Inv(s, capacity) && callback !in s.registered
    ensures MayRunEarly(s, capacity, callback) <==> PoolInFlight(s)
  {
    var t := Apply(s, capacity, Close(callback));
    if PoolInFlight(s) {
      ExposedRunsEarly(s, capacity, callback);
    } else {
      StepKeeps(s, capacity, Close(callback));
      UnregisteredIsCovered(s, capacity, callback);
      CloseCovers(s, capacity, callback);
      forall steps: seq<Step> | Close(callback) !in steps
        ensures !CalledEarly(Run(t, capacity, steps).released, callback)
      {
        CoveredRunsAfterPool(t, capacity, steps, callback);
      }
    }
    hide Inv, Apply, Run, CalledEarly, Covered;
  }

  lemma CloseCovers(s: System, capacity: nat, callback: Callback)
    requires Inv(s, capacity) && Covered(s, callback) && !PoolInFlight(s)
    ensures Covered(Apply(s, capacity, Close(callback)), callback)
  {
    CloseExposes(s, capacity, callback);
  }

  lemma ExposedRunsEarly(s: System, capacity: nat, callback: Callback)
    requires PoolInFlight(s)
    ensures MayRunEarly(s, capacity, callback)
  {
    var t := Apply(s, capacity, Close(callback));
    RunNothing(t, capacity);
    RunSnoc(t, capacity, [], CallExposed(callback));
    var steps := [CallExposed(callback)];
    assert [] + steps == steps;
    var u := Run(t, capacity, steps);
    assert u.released[|u.released| - 1] == Call(callback, true, 0);
    assert Close(callback) !in steps && CalledEarly(u.released, callback);
    hide Run, CalledEarly;
  }

  lemma RunNothing(s: System, capacity: nat)
    ensures Run(s, capacity, []) == s
  {}

  lemma RunSnoc(s: System, capacity: nat, steps: seq<Step>, step: Step)
    requires Enabled(Run(s, capacity, steps), step)
    ensures Run(s, capacity, steps + [step]) == Apply(Run(s, capacity, steps), capacity, step)
  {
    assert (steps + [step])[..|steps|] == steps;
  }

  // ----- two runs that reach such a queue -----

  /** Two closers of an idle queue: the first has left the lock with the pool. */
  lemma SecondCloserMayRunEarly(capacity: nat, first: Callback, second: Callback)
    requires capacity > 0 && first != second
    ensures MayRunEarly(Run(Initial(), capacity, [Close(first)]), capacity, second)
  {
    InitialInv(capacity);
    RunKeeps(Initial(), capacity, [Close(first)]);
    RunSnoc(Initial(), capacity, [], Close(first));
    assert [] + [Close(first)] == [Close(first)];
    EarlyIff(Run(Initial(), capacity, [Close(first)]), capacity, second);
  }

  /** A closer while the drainer, past the lock, is about to drop the pool. */
  lemma CloseDuringDropMayRunEarly(capacity: nat, job: Job, first: Callback, second: Callback)
    requires capacity > 0 && first != second
    ensures var drained := [Submit(job), Drain(0), Drain(0), Drain(0), Drain(0), Close(first), Drain(0)];
      MayRunEarly(Run(Initial(), capacity, drained), capacity, second)
  {
    var drained := [Submit(job), Drain(0), Drain(0), Drain(0), Drain(0), Close(first), Drain(0)];
    InitialInv(capacity);
    RunKeeps(Initial(), capacity, drained);
    DrainToDrop(capacity, job, first);
    EarlyIff(Run(Initial(), capacity, drained), capacity, second);
  }

  /** One job runs, and then the drainer takes the pool of the queue closed meanwhile. */
  lemma DrainToDrop(capacity: nat, job: Job, first: Callback)
    requires capacity > 0
    ensures var s := Run(Initial(), capacity, [Submit(job), Drain(0), Drain(0), Drain(0), Drain(0), Close(first), Drain(0)]);
      PoolInFlight(s) && s.registered == multiset{first}
  {
    var worked := [Submit(job), Drain(0), Drain(0), Drain(0), Drain(0)];
    WorkOff(capacity, job);
    var s := Run(Initial(), capacity, worked);
    RunSnoc(Initial(), capacity, worked, Close(first));
    RunSnoc(Initial(), capacity, worked + [Close(first)], Drain(0));
    assert worked + [Close(first)] + [Drain(0)] ==
      [Submit(job), Drain(0), Drain(0), Drain(0), Drain(0), Close(first), Drain(0)];
    hide Run, Submitted;
  }

  /** The queue that has accepted one job, `waiting` or taken, at a stage of its drainer. */
  function Busy(job: Job, drainer: Drainer, waiting: seq<Job>, outstanding: nat, started: seq<Job>, completed: seq<Job>): System {
    Initial().(
      state := Idle().(active := true, waiting := waiting, outstanding := outstanding),
      drainers := [drainer], accepted := [job], started := started, completed := completed)
  }

  lemma SubmitOne(capacity: nat, job: Job)
    requires capacity > 0
    ensures Apply(Initial(), capacity, Submit(job)) == Busy(job, AtTop, [job], 1, [], [])
  {}

  lemma DrainOne(job: Job)
    ensures Drained(Busy(job, AtTop, [job], 1, [], []), 0) == Busy(job, Executing(job), [], 1, [job], [])
    ensures Drained(Busy(job, Executing(job), [], 1, [job], []), 0) == Busy(job, Executed(job), [], 1, [job], [])
    ensures Drained(Busy(job, Executed(job), [], 1, [job], []), 0) == Busy(job, Completing(job), [], 0, [job], [])
    ensures Drained(Busy(job, Completing(job), [], 0, [job], []), 0) == Busy(job, AtTop, [], 0, [job], [job])
  {}

  lemma WorkOff(capacity: nat, job: Job)
    requires capacity > 0
    ensures Run(Initial(), capacity, [Submit(job), Drain(0), Drain(0), Drain(0), Drain(0)]) == Busy(job, AtTop, [], 0, [job], [job])
  {
    hide Run, Drained, Submitted;
    RunNothing(Initial(), capacity);
    SubmitOne(capacity, job);
    DrainOne(job);
    var steps := [Submit(job), Drain(0), Drain(0), Drain(0), Drain(0)];
    RunSnoc(Initial(), capacity, [], Submit(job));
    assert [] + [Submit(job)] == steps[..1];
    RunSnoc(Initial(), capacity, steps[..1], Drain(0));
    assert steps[..1] + [Drain(0)] == steps[..2];
    RunSnoc(Initial(), capacity, steps[..2], Drain(0));
    assert steps[..2] + [Drain(0)] == steps[..3];
    RunSnoc(Initial(), capacity, steps[..3], Drain(0));
    assert steps[..3] + [Drain(0)] == steps[..4];
    RunSnoc(Initial(), capacity, steps[..4], Drain(0));
    assert steps[..4] + [Drain(0)] == steps;
  }
}
