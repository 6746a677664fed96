/**
 The bounded serial job queue, its lock-protected sections, and the system in which any
 number of submitters, closers and drainers interleave those sections.
 */
module SerialQueues {

  type Job(==, !new)
  type Callback(==, !new)

  datatype Rejection = Full | Closed

  /** What the mutex protects; the pool is present or taken. */
  datatype State = State(
    pool: bool,
    active: bool,
    closed: bool,
    outstanding: nat,
    waiting: seq<Job>,
    onRelease: seq<Callback>)

  /** `Panicked` is the failed `expect` of a queue without a pool. */
  datatype Verdict = Accepted | Spawned | Refused(reason: Rejection) | Panicked

  function Submitted(s: State, capacity: nat, job: Job): (State, Verdict) {
    if s.closed then (s, Refused(Closed))
    else if s.outstanding >= capacity then (s, Refused(Full))
    else
      var t := s.(waiting := s.waiting + [job], outstanding := s.outstanding + 1);
      if s.active then (t, Accepted)
      else (t.(active := true), if s.pool then Spawned else Panicked)
  }

  /** What `close` does once it has left the lock. */
  datatype Closing = Registered | ReleaseNow(pool: bool)

  function CloseSection(s: State, callback: Callback): (State, Closing) {
    if s.active then (s.(closed := true, onRelease := s.onRelease + [callback]), Registered)
    else (s.(closed := true, pool := false), ReleaseNow(s.pool))
  }

  /** What the drainer does after taking the lock at the top of its loop. */
  datatype Taken = RunJob(job: Job) | GoIdle | Release(pool: bool, callbacks: seq<Callback>)

  function TakeSection(s: State): (State, Taken) {
    if s.waiting != [] then (s.(waiting := s.waiting[1..]), RunJob(s.waiting[0]))
    else if !s.closed then (s.(active := false), GoIdle)
    else (s.(active := false, pool := false, onRelease := []), Release(s.pool, s.onRelease))
  }

  /** The lock-protected sections as they update the shared fields. */
  class SerialQueue {
    const capacity: nat
    var pool: bool
    var active: bool
    var closed: bool
    var outstanding: nat
    var waiting: seq<Job>
    var onRelease: seq<Callback>

    ghost function Shared(): State
      reads this
    {
      State(pool, active, closed, outstanding, waiting, onRelease)
    }

    constructor (capacity: nat)
      requires capacity > 0
      ensures this.capacity == capacity && Shared() == Idle()
    {
      this.capacity := capacity;
      pool, active, closed, outstanding, waiting, onRelease := true, false, false, 0, [], [];
    }

    method Submit(job: Job) returns (verdict: Verdict)
      modifies this
      ensures (Shared(), verdict) == Submitted(old(Shared()), capacity, job)
      ensures verdict == Refused(Closed) <==> old(closed)
      ensures verdict == Refused(Full) <==> !old(closed) && old(outstanding) >= capacity
      ensures verdict.Refused? ==> Shared() == old(Shared())
      ensures !verdict.Refused? ==>
        && Shared() == old(Shared()).(waiting := old(waiting) + [job], outstanding := old(outstanding) + 1, active := true)
        && verdict == if old(active) then Accepted else if old(pool) then Spawned else Panicked
    {
      if closed {
        return Refused(Closed);
      }
      if outstanding >= capacity {
        return Refused(Full);
      }
      waiting := waiting + [job];
      outstanding := outstanding + 1;
      verdict := Accepted;
      if !active {
        active := true;
        verdict := if pool then Spawned else Panicked;
      }
    }

    method Close(callback: Callback) returns (closing: Closing)
      modifies this
      ensures (Shared(), closing) == CloseSection(old(Shared()), callback)
      ensures old(active) ==>
        closing == Registered && Shared() == old(Shared()).(closed := true, onRelease := old(onRelease) + [callback])
      ensures !old(active) ==> closing == ReleaseNow(old(pool)) && Shared() == old(Shared()).(closed := true, pool := false)
    {
      closed := true;
      if active {
        onRelease := onRelease + [callback];
        return Registered;
      }
      closing := ReleaseNow(pool);
      pool := false;
    }

    method Take() returns (taken: Taken)
      modifies this
      ensures (Shared(), taken) == TakeSection(old(Shared()))
      ensures taken.RunJob? <==> old(waiting) != []
      ensures taken.RunJob? ==> [taken.job] + waiting == old(waiting) && Shared() == old(Shared()).(waiting := waiting)
      ensures taken.GoIdle? ==> !closed && Shared() == old(Shared()).(active := false)
      ensures taken.Release? ==>
        && closed && taken == Release(old(pool), old(onRelease))
        && Shared() == old(Shared()).(active := false, pool := false, onRelease := [])
    {
      if waiting != [] {
        taken := RunJob(waiting[0]);
        waiting := waiting[1..];
      } else {
        active := false;
        if !closed {
          return GoIdle;
        }
        taken := Release(pool, onRelease);
        pool, onRelease := false, [];
      }
    }

    method FreeSlot()
      requires outstanding > 0
      modifies this
      ensures Shared() == old(Shared()).(outstanding := old(outstanding) - 1)
    {
      outstanding := outstanding - 1;
    }
  }

  function Idle(): State {
    State(true, false, false, 0, [], [])
  }

  // ----- the interleaved system -----

  /** Where a drainer stands between lock sections. */
  datatype Drainer =
    | AtTop
    | Executing(job: Job)
    | Executed(job: Job)
    | Completing(job: Job)
    | Dropping(pool: bool, callbacks: seq<Callback>)
    | Releasing(callbacks: seq<Callback>)

  /** A release callback that ran: whether its closer was exposed, and how many pools had been dropped by then. */
  datatype Call = Call(callback: Callback, exposed: bool, poolsDropped: nat)

  /** The callbacks of a list of calls. */
  function Called(calls: seq<Call>): (callbacks: seq<Callback>)
    ensures |callbacks| == |calls|
  {
    seq(|calls|, i requires 0 <= i < |calls| => calls[i].callback)
  }

  /**
   The queue with every drainer and closer in flight, and the history of the run.
   `droppers` are the callbacks of closers that still hold the pool. The others about to call back
   are in `exposed` when their closer found the pool taken by a thread that had not dropped it
   yet, and in `callers` otherwise. `failed` records a panic: a missing pool or an underflow.
   */
  datatype System = System(
    state: State,
    drainers: seq<Drainer>,
    droppers: multiset<Callback>,
    callers: multiset<Callback>,
    exposed: multiset<Callback>,
    accepted: seq<Job>,
    started: seq<Job>,
    completed: seq<Job>,
    registered: multiset<Callback>,
    released: seq<Call>,
    poolsDropped: nat,
    failed: bool)

  datatype Step =
    | Submit(job: Job)
    | Close(callback: Callback)
    | DropByCloser(callback: Callback)
    | CallByCloser(callback: Callback)
    | CallExposed(callback: Callback)
    | Drain(drainer: nat)

  function Initial(): System {
    System(Idle(), [], multiset{}, multiset{}, multiset{}, [], [], [], multiset{}, [], 0, false)
  }

  predicate Enabled(s: System, step: Step) {
    match step
    case Submit(_) => true
    case Close(_) => true
    case DropByCloser(callback) => callback in s.droppers
    case CallByCloser(callback) => callback in s.callers
    case CallExposed(callback) => callback in s.exposed
    case Drain(drainer) => drainer < |s.drainers|
  }

  function Apply(s: System, capacity: nat, step: Step): System
    requires Enabled(s, step)
  {
    match step
    case Submit(job) =>
      var (t, verdict) := Submitted(s.state, capacity, job);
      (match verdict
       case Refused(_) => s
       case Accepted => s.(state := t, accepted := s.accepted + [job])
       case Spawned => s.(state := t, accepted := s.accepted + [job], drainers := s.drainers + [AtTop])
       case Panicked => s.(state := t, failed := true))
    case Close(callback) =>
      var (t, closing) := CloseSection(s.state, callback);
      var u := s.(state := t, registered := s.registered + multiset{callback});
      (match closing
       case Registered => u
       case ReleaseNow(pool) =>
         if pool then u.(droppers := s.droppers + multiset{callback})
         else if s.poolsDropped == 0 then u.(exposed := s.exposed + multiset{callback})
         else u.(callers := s.callers + multiset{callback}))
    case DropByCloser(callback) =>
      s.(droppers := s.droppers - multiset{callback}, callers := s.callers + multiset{callback}, poolsDropped := s.poolsDropped + 1)
    case CallByCloser(callback) =>
      s.(callers := s.callers - multiset{callback}, released := s.released + [Call(callback, false, s.poolsDropped)])
    case CallExposed(callback) =>
      s.(exposed := s.exposed - multiset{callback}, released := s.released + [Call(callback, true, s.poolsDropped)])
    case Drain(i) => Drained(s, i)
  }

  /** The next action of drainer `i`. */
  function Drained(s: System, i: nat): System
    requires i < |s.drainers|
  {
    match s.drainers[i]
    case AtTop =>
      var (t, taken) := TakeSection(s.state);
      (match taken
       case RunJob(job) => s.(state := t, started := s.started + [job], drainers := s.drainers[i := Executing(job)])
       case GoIdle => s.(state := t, drainers := Without(s.drainers, i))
       case Release(pool, callbacks) => s.(state := t, drainers := s.drainers[i := Dropping(pool, callbacks)]))
    case Executing(job) => s.(drainers := s.drainers[i := Executed(job)])
    case Executed(job) =>
      if s.state.outstanding == 0 then s.(failed := true)
      else s.(state := s.state.(outstanding := s.state.outstanding - 1), drainers := s.drainers[i := Completing(job)])
    case Completing(job) => s.(completed := s.completed + [job], drainers := s.drainers[i := AtTop])
    case Dropping(pool, callbacks) =>
      s.(poolsDropped := s.poolsDropped + if pool then 1 else 0, drainers := s.drainers[i := Releasing(callbacks)])
    case Releasing(callbacks) =>
      if callbacks == [] then s.(drainers := Without(s.drainers, i))
      else s.(released := s.released + [Call(callbacks[0], false, s.poolsDropped)], drainers := s.drainers[i := Releasing(callbacks[1..])])
  }

  function Without(drainers: seq<Drainer>, i: nat): seq<Drainer>
    requires i < |drainers|
  {
    drainers[..i] + drainers[i + 1..]
  }

  // ----- the invariant -----

  predicate Working(d: Drainer) {
    d.AtTop? || d.Executing? || d.Executed? || d.Completing?
  }

  /** The job a drainer has taken and not completed. */
  function InHand(drainers: seq<Drainer>): seq<Job> {
    if |drainers| == 1 && (drainers[0].Executing? || drainers[0].Executed? || drainers[0].Completing?)
    then [drainers[0].job] else []
  }

  /** Whether the job in hand still occupies a slot. */
  function Occupied(drainers: seq<Drainer>): nat {
    if |drainers| == 1 && (drainers[0].Executing? || drainers[0].Executed?) then 1 else 0
  }

  function Carried(drainers: seq<Drainer>): seq<Callback> {
    if |drainers| == 1 && (drainers[0].Dropping? || drainers[0].Releasing?) then drainers[0].callbacks else []
  }

  function PoolCarried(drainers: seq<Drainer>): nat {
    if |drainers| == 1 && drainers[0].Dropping? && drainers[0].pool then 1 else 0
  }

  /** At most one drainer, and it works exactly while the queue is active. */
  ghost predicate OneDrainer(s: System) {
    && |s.drainers| <= 1
    && (s.state.active <==> |s.drainers| == 1 && Working(s.drainers[0]))
    && (s.state.waiting != [] ==> s.state.active)
  }

  /** Accepted jobs are, in order: the completed, the one in hand, the waiting. */
  ghost predicate JobsConserved(s: System, capacity: nat) {
    && s.accepted == s.started + s.state.waiting
    && s.started == s.completed + InHand(s.drainers)
    && s.state.outstanding == |s.state.waiting| + Occupied(s.drainers) <= capacity
  }

  function Places(released: seq<Callback>, onRelease: seq<Callback>, carried: seq<Callback>,
                  droppers: multiset<Callback>, callers: multiset<Callback>): multiset<Callback> {
    multiset(released) + multiset(onRelease) + multiset(carried) + droppers + callers
  }

  /** Every registered callback is in exactly one place. */
  ghost predicate CallbacksConserved(s: System) {
    s.registered == Places(Called(s.released), s.state.onRelease, Carried(s.drainers), s.droppers, s.callers + s.exposed)
  }

  /** The pool is in exactly one place. */
  ghost predicate OnePool(s: System) {
    (if s.state.pool then 1 else 0) + |s.droppers| + PoolCarried(s.drainers) + s.poolsDropped == 1
  }

  /** The pool stays while the queue is open or active; callbacks move only once it is closed and idle. */
  ghost predicate ReleasedLast(s: System) {
    && (s.state.pool <==> !s.state.closed || s.state.active)
    && (s.state.onRelease != [] ==> s.state.closed && s.state.active)
    && (!s.state.closed || s.state.active ==>
          s.released == [] && s.droppers == multiset{} && s.callers == multiset{} && s.exposed == multiset{} && s.poolsDropped == 0)
    && (!s.state.closed && |s.drainers| > 0 ==> Working(s.drainers[0]))
  }

  /** Only an exposed callback can run, or be about to, while a thread still holds the pool. */
  ghost predicate PoolFirst(s: System) {
    && (s.callers != multiset{} ==> s.poolsDropped == 1)
    && (|s.drainers| == 1 && s.drainers[0].Dropping? ==> s.drainers[0].pool)
    && (|s.drainers| == 1 && s.drainers[0].Releasing? ==> s.poolsDropped == 1)
    && (forall i | 0 <= i < |s.released| :: s.released[i].exposed || s.released[i].poolsDropped == 1)
  }

  ghost predicate Inv(s: System, capacity: nat) {
    && !s.failed
    && OneDrainer(s)
    && JobsConserved(s, capacity)
    && CallbacksConserved(s)
    && OnePool(s)
    && ReleasedLast(s)
    && PoolFirst(s)
  }

  lemma InitialInv(capacity: nat)
    ensures Inv(Initial(), capacity)
  {}

  /** Every step of every thread keeps the invariant. */
  lemma StepKeeps(s: System, capacity: nat, step: Step)
    requires capacity > 0 && Inv(s, capacity) && Enabled(s, step)
    ensures Inv(Apply(s, capacity, step), capacity)
  {
    StepCallbacks(s, capacity, step);
    StepPool(s, capacity, step);
    StepDrainer(s, capacity, step);
    StepJobs(s, capacity, step);
    StepLast(s, capacity, step);
    StepFirst(s, capacity, step);
    hide OneDrainer, JobsConserved, CallbacksConserved, OnePool, ReleasedLast, PoolFirst, Apply;
  }

  lemma StepFirst(s: System, capacity: nat, step: Step)
    requires Enabled(s, step) && OneDrainer(s) && OnePool(s) && ReleasedLast(s) && PoolFirst(s)
    ensures PoolFirst(Apply(s, capacity, step))
  {
    hide OneDrainer, OnePool, ReleasedLast, PoolFirst, Apply;
    match step {
      case Submit(job) => SubmitFirst(s, capacity, job);
      case Close(callback) => CloseFirst(s, capacity, callback);
      case DropByCloser(callback) => DropFirst(s, capacity, callback);
      case CallByCloser(callback) => CallerFirst(s, capacity, callback);
      case CallExposed(callback) => CallExposedFirst(s, capacity, callback);
      case Drain(i) => DrainFirst(s, capacity, i);
    }
  }

  lemma SubmitFirst(s: System, capacity: nat, job: Job)
    requires OneDrainer(s) && PoolFirst(s)
    ensures PoolFirst(Apply(s, capacity, Submit(job)))
  {}

  lemma CloseFirst(s: System, capacity: nat, callback: Callback)
    requires OnePool(s) && PoolFirst(s)
    ensures PoolFirst(Apply(s, capacity, Close(callback)))
  {}

  lemma DropFirst(s: System, capacity: nat, callback: Callback)
    requires callback in s.droppers && OnePool(s) && PoolFirst(s)
    ensures PoolFirst(Apply(s, capacity, DropByCloser(callback)))
  {
    DropIsFirst(s, callback);
  }

  lemma CallerFirst(s: System, capacity: nat, callback: Callback)
    requires callback in s.callers && PoolFirst(s)
    ensures PoolFirst(Apply(s, capacity, CallByCloser(callback)))
  {}

  lemma CallExposedFirst(s: System, capacity: nat, callback: Callback)
    requires callback in s.exposed && PoolFirst(s)
    ensures PoolFirst(Apply(s, capacity, CallExposed(callback)))
  {}

  /** A closer that holds the pool is the only one, and no pool has been dropped. */
  lemma DropIsFirst(s: System, callback: Callback)
    requires OnePool(s) && callback in s.droppers
    ensures |s.droppers| == 1 && s.poolsDropped == 0 && PoolCarried(s.drainers) == 0
  {
    assert |s.droppers - multiset{callback}| == |s.droppers| - 1;
    hide PoolCarried;
  }

  lemma DrainFirst(s: System, capacity: nat, i: nat)
    requires i < |s.drainers| && OneDrainer(s) && OnePool(s) && ReleasedLast(s) && PoolFirst(s)
    ensures PoolFirst(Apply(s, capacity, Drain(i)))
  {
    match s.drainers[i] {
      case AtTop => TakeFirst(s);
      case Dropping(_, _) => DroppedFirst(s);
      case _ =>
    }
    hide OnePool, TakeSection, ReleasedLast;
  }

  lemma TakeFirst(s: System)
    requires |s.drainers| == 1 && s.drainers[0].AtTop? && OneDrainer(s) && ReleasedLast(s) && PoolFirst(s)
    ensures PoolFirst(Drained(s, 0))
  {}

  lemma DroppedFirst(s: System)
    requires |s.drainers| == 1 && s.drainers[0].Dropping? && OnePool(s) && PoolFirst(s)
    ensures PoolFirst(Drained(s, 0))
  {}

  lemma StepDrainer(s: System, capacity: nat, step: Step)
    requires Enabled(s, step) && OneDrainer(s) && ReleasedLast(s)
    ensures OneDrainer(Apply(s, capacity, step))
  {
    match step {
      case Submit(job) => SubmitDrainer(s, capacity, job);
      case Drain(_) => DrainDrainer(s);
      case _ =>
    }
    hide Drained, Submitted, ReleasedLast;
  }

  lemma SubmitDrainer(s: System, capacity: nat, job: Job)
    requires OneDrainer(s) && ReleasedLast(s)
    ensures OneDrainer(Apply(s, capacity, Submit(job)))
  {}

  lemma DrainDrainer(s: System)
    requires |s.drainers| == 1 && OneDrainer(s)
    ensures OneDrainer(Drained(s, 0))
  {}

  lemma StepLast(s: System, capacity: nat, step: Step)
    requires Enabled(s, step) && OneDrainer(s) && ReleasedLast(s)
    ensures ReleasedLast(Apply(s, capacity, step))
  {
    match step {
      case Submit(job) => SubmitLast(s, capacity, job);
      case Close(callback) => CloseLast(s, capacity, callback);
      case Drain(_) => DrainLast(s);
      case _ =>
    }
    hide Drained, Submitted, CloseSection;
  }

  lemma SubmitLast(s: System, capacity: nat, job: Job)
    requires OneDrainer(s) && ReleasedLast(s)
    ensures ReleasedLast(Apply(s, capacity, Submit(job)))
  {}

  lemma CloseLast(s: System, capacity: nat, callback: Callback)
    requires OneDrainer(s) && ReleasedLast(s)
    ensures ReleasedLast(Apply(s, capacity, Close(callback)))
  {}

  lemma DrainLast(s: System)
    requires |s.drainers| == 1 && OneDrainer(s) && ReleasedLast(s)
    ensures ReleasedLast(Drained(s, 0))
  {}

  lemma StepPool(s: System, capacity: nat, step: Step)
    requires Enabled(s, step) && OneDrainer(s) && ReleasedLast(s) && OnePool(s)
    ensures OnePool(Apply(s, capacity, step))
  {
    match step {
      case Submit(job) => SubmitPool(s, capacity, job);
      case Close(callback) => ClosePool(s, capacity, callback);
      case DropByCloser(callback) => assert |s.droppers - multiset{callback}| == |s.droppers| - 1;
      case CallByCloser(_) =>
      case CallExposed(_) =>
      case Drain(_) => DrainPool(s);
    }
    hide Drained, PoolCarried, Submitted, CloseSection;
  }

  lemma SubmitPool(s: System, capacity: nat, job: Job)
    requires OneDrainer(s) && ReleasedLast(s) && OnePool(s)
    ensures OnePool(Apply(s, capacity, Submit(job)))
  {
    assert PoolCarried(Apply(s, capacity, Submit(job)).drainers) == PoolCarried(s.drainers);
    hide PoolCarried;
  }

  lemma ClosePool(s: System, capacity: nat, callback: Callback)
    requires OnePool(s)
    ensures OnePool(Apply(s, capacity, Close(callback)))
  {
    hide PoolCarried;
    assert |s.droppers + multiset{callback}| == |s.droppers| + 1;
  }

  lemma DrainPool(s: System)
    requires |s.drainers| == 1 && OneDrainer(s) && OnePool(s)
    ensures OnePool(Drained(s, 0))
  {}

  lemma StepJobs(s: System, capacity: nat, step: Step)
    requires Enabled(s, step) && OneDrainer(s) && ReleasedLast(s) && JobsConserved(s, capacity) && !s.failed
    ensures JobsConserved(Apply(s, capacity, step), capacity) && !Apply(s, capacity, step).failed
  {
    match step {
      case Submit(job) => SubmitJobs(s, capacity, job);
      case Drain(_) => DrainJobs(s, capacity);
      case _ =>
    }
    hide Drained, Submitted, InHand, Occupied;
  }

  lemma SubmitJobs(s: System, capacity: nat, job: Job)
    requires OneDrainer(s) && ReleasedLast(s) && JobsConserved(s, capacity) && !s.failed
    ensures var t := Apply(s, capacity, Submit(job)); JobsConserved(t, capacity) && !t.failed
  {
    assert InHand(Apply(s, capacity, Submit(job)).drainers) == InHand(s.drainers);
  }

  lemma DrainJobs(s: System, capacity: nat)
    requires |s.drainers| == 1 && OneDrainer(s) && JobsConserved(s, capacity) && !s.failed
    ensures JobsConserved(Drained(s, 0), capacity) && !Drained(s, 0).failed
  {
    if s.drainers[0].AtTop? && s.state.waiting != [] {
      assert s.state.waiting == [s.state.waiting[0]] + s.state.waiting[1..];
    }
  }

  lemma StepCallbacks(s: System, capacity: nat, step: Step)
    requires Enabled(s, step) && OneDrainer(s) && ReleasedLast(s) && CallbacksConserved(s)
    ensures CallbacksConserved(Apply(s, capacity, step))
  {
    hide Drained, Places, Called;
    var carried, calling := Carried(s.drainers), s.callers + s.exposed;
    match step {
      case Submit(_) =>
        assert Carried(Apply(s, capacity, step).drainers) == carried;
      case Close(callback) =>
        Register(Called(s.released), s.state.onRelease, carried, s.droppers, calling, callback);
        Regroup(s.callers, s.exposed, callback);
      case DropByCloser(callback) =>
        MoveToCaller(Called(s.released), s.state.onRelease, carried, s.droppers, calling, callback);
        Regroup(s.callers, s.exposed, callback);
      case CallByCloser(callback) =>
        CallOne(Called(s.released), s.state.onRelease, carried, s.droppers, calling, callback);
        CalledNext(s.released, Call(callback, false, s.poolsDropped));
        Regroup(s.callers, s.exposed, callback);
      case CallExposed(callback) =>
        CallOne(Called(s.released), s.state.onRelease, carried, s.droppers, calling, callback);
        CalledNext(s.released, Call(callback, true, s.poolsDropped));
        Regroup(s.callers, s.exposed, callback);
      case Drain(i) =>
        DrainCallbacks(s);
    }
    hide Carried;
  }

  lemma CalledNext(calls: seq<Call>, call: Call)
    ensures Called(calls + [call]) == Called(calls) + [call.callback]
  {}

  /** A callback added to, or taken from, either kind of caller. */
  lemma Regroup(callers: multiset<Callback>, exposed: multiset<Callback>, callback: Callback)
    ensures (callers + multiset{callback}) + exposed == (callers + exposed) + multiset{callback}
    ensures callers + (exposed + multiset{callback}) == (callers + exposed) + multiset{callback}
    ensures callback in callers ==> (callers - multiset{callback}) + exposed == (callers + exposed) - multiset{callback}
    ensures callback in exposed ==> callers + (exposed - multiset{callback}) == (callers + exposed) - multiset{callback}
  {}

  lemma DrainCallbacks(s: System)
    requires |s.drainers| == 1 && OneDrainer(s) && CallbacksConserved(s)
    ensures CallbacksConserved(Drained(s, 0))
  {
    hide Places, Called;
    var t := Drained(s, 0);
    match s.drainers[0] {
      case AtTop =>
        TakeAll(Called(s.released), s.state.onRelease, s.droppers, s.callers + s.exposed);
      case Releasing(callbacks) =>
        if callbacks != [] {
          CallFirst(Called(s.released), s.state.onRelease, callbacks, s.droppers, s.callers + s.exposed);
          CalledNext(s.released, Call(callbacks[0], false, s.poolsDropped));
        }
      case _ =>
        assert Carried(t.drainers) == Carried(s.drainers);
    }
  }

  lemma Register(released: seq<Callback>, onRelease: seq<Callback>, carried: seq<Callback>,
                 droppers: multiset<Callback>, callers: multiset<Callback>, callback: Callback)
    ensures var all := Places(released, onRelease, carried, droppers, callers) + multiset{callback};
      && Places(released, onRelease + [callback], carried, droppers, callers) == all
      && Places(released, onRelease, carried, droppers + multiset{callback}, callers) == all
      && Places(released, onRelease, carried, droppers, callers + multiset{callback}) == all
  {
    assert multiset(onRelease + [callback]) == multiset(onRelease) + multiset{callback};
  }

  lemma MoveToCaller(released: seq<Callback>, onRelease: seq<Callback>, carried: seq<Callback>,
                     droppers: multiset<Callback>, callers: multiset<Callback>, callback: Callback)
    requires callback in droppers
    ensures Places(released, onRelease, carried, droppers - multiset{callback}, callers + multiset{callback}) ==
      Places(released, onRelease, carried, droppers, callers)
  {}

  lemma CallOne(released: seq<Callback>, onRelease: seq<Callback>, carried: seq<Callback>,
                droppers: multiset<Callback>, callers: multiset<Callback>, callback: Callback)
    requires callback in callers
    ensures Places(released + [callback], onRelease, carried, droppers, callers - multiset{callback}) ==
      Places(released, onRelease, carried, droppers, callers)
  {
    assert multiset(released + [callback]) == multiset(released) + multiset{callback};
  }

  lemma TakeAll(released: seq<Callback>, onRelease: seq<Callback>, droppers: multiset<Callback>, callers: multiset<Callback>)
    ensures Places(released, [], onRelease, droppers, callers) == Places(released, onRelease, [], droppers, callers)
  {}

  lemma CallFirst(released: seq<Callback>, onRelease: seq<Callback>, callbacks: seq<Callback>,
                  droppers: multiset<Callback>, callers: multiset<Callback>)
    requires callbacks != []
    ensures Places(released + [callbacks[0]], onRelease, callbacks[1..], droppers, callers) ==
      Places(released, onRelease, callbacks, droppers, callers)
  {
    assert callbacks == [callbacks[0]] + callbacks[1..];
    assert multiset(callbacks) == multiset{callbacks[0]} + multiset(callbacks[1..]);
    assert multiset(released + [callbacks[0]]) == multiset(released) + multiset{callbacks[0]};
  }

  // ----- runs -----

  /** The states a sequence of steps leads to; a step that is not enabled is skipped. */
  function Run(s: System, capacity: nat, steps: seq<Step>): System
    decreases |steps|
  {
    if steps == [] then s
    else
      var before := Run(s, capacity, steps[..|steps| - 1]);
      if Enabled(before, steps[|steps| - 1]) then Apply(before, capacity, steps[|steps| - 1]) else before
  }

  lemma {:induction false} RunKeeps(s: System, capacity: nat, steps: seq<Step>)
    requires capacity > 0 && Inv(s, capacity)
    ensures Inv(Run(s, capacity, steps), capacity)
    decreases |steps|
  {
    hide Inv, Apply, Enabled;
    if steps != [] {
      RunKeeps(s, capacity, steps[..|steps| - 1]);
      var before := Run(s, capacity, steps[..|steps| - 1]);
      if Enabled(before, steps[|steps| - 1]) {
        StepKeeps(before, capacity, steps[|steps| - 1]);
      }
    }
  }

  predicate IsPrefix(x: seq<Job>, y: seq<Job>) {
    |x| <= |y| && x == y[..|x|]
  }

  /**
   In every interleaving: no panic, at most one drainer, a waiting job only while active, at most
   `capacity` outstanding, jobs run once each in acceptance order, an open queue owns its pool,
   a release callback only after every accepted job has completed, and, unless its closer was
   exposed, only once the pool has been dropped.
   */
  lemma Safety(capacity: nat, steps: seq<Step>)
    requires capacity > 0
    ensures var s := Run(Initial(), capacity, steps);
      && !s.failed && |s.drainers| <= 1
      && (s.state.waiting != [] ==> s.state.active)
      && s.state.outstanding == |s.state.waiting| + Occupied(s.drainers) <= capacity
      && s.accepted == s.started + s.state.waiting
      && IsPrefix(s.started, s.accepted) && IsPrefix(s.completed, s.started) && |s.started| <= |s.completed| + 1
      && (!s.state.closed ==> s.state.pool)
      && multiset(Called(s.released)) <= s.registered
      && (s.released != [] ==> s.state.closed && s.completed == s.accepted)
      && (forall i | 0 <= i < |s.released| && !s.released[i].exposed :: s.released[i].poolsDropped == 1)
  {
    InitialInv(capacity);
    RunKeeps(Initial(), capacity, steps);
    var s := Run(Initial(), capacity, steps);
    SafeState(s, capacity);
    hide Inv, Run;
  }

  lemma SafeState(s: System, capacity: nat)
    requires Inv(s, capacity)
    ensures IsPrefix(s.started, s.accepted) && IsPrefix(s.completed, s.started) && |s.started| <= |s.completed| + 1
    ensures !s.failed && |s.drainers| <= 1
    ensures s.state.waiting != [] ==> s.state.active
    ensures s.state.outstanding == |s.state.waiting| + Occupied(s.drainers) <= capacity
    ensures s.accepted == s.started + s.state.waiting
    ensures !s.state.closed ==> s.state.pool
    ensures multiset(Called(s.released)) <= s.registered
    ensures s.released != [] ==> s.state.closed && s.completed == s.accepted
    ensures forall i | 0 <= i < |s.released| && !s.released[i].exposed :: s.released[i].poolsDropped == 1
  {
    assert s.started == s.accepted[..|s.started|];
    assert s.completed == s.started[..|s.completed|];
  }

  // ----- when a submission is accepted -----

  /** How many drainers execute a job or have not freed its slot yet. */
  function Holding(drainers: seq<Drainer>): nat {
    if drainers == [] then 0
    else Holding(drainers[1..]) + if drainers[0].Executing? || drainers[0].Executed? then 1 else 0
  }

  /** Accepted jobs that hold a slot: those no drainer has taken, and those executing. */
  function InUse(s: System): int {
    |s.accepted| - |s.started| + Holding(s.drainers)
  }

  /**
   In every run a submission is refused as closed exactly on a closed queue, and as full exactly
   on an open one with every slot in use. Otherwise that job is accepted behind the others, and a
   drainer is started exactly when there is none.
   */
  lemma SubmitIff(capacity: nat, steps: seq<Step>, job: Job)
    requires capacity > 0
    ensures var s := Run(Initial(), capacity, steps);
      var (verdict, next) := (Submitted(s.state, capacity, job).1, Apply(s, capacity, Submit(job)));
      && (verdict == Refused(Closed) <==> s.state.closed)
      && (verdict == Refused(Full) <==> !s.state.closed && InUse(s) == capacity)
      && (verdict.Refused? ==> next == s)
      && (!verdict.Refused? ==>
            && next.accepted == s.accepted + [job] && !next.failed
            && next.state == s.state.(waiting := s.state.waiting + [job], outstanding := s.state.outstanding + 1, active := true)
            && next.drainers == if s.drainers == [] then [AtTop] else s.drainers)
  {
    InitialInv(capacity);
    RunKeeps(Initial(), capacity, steps);
    SubmitFrom(Run(Initial(), capacity, steps), capacity, job);
    hide Inv, Run;
  }

  lemma SubmitFrom(s: System, capacity: nat, job: Job)
    requires capacity > 0 && Inv(s, capacity)
    ensures var (verdict, next) := (Submitted(s.state, capacity, job).1, Apply(s, capacity, Submit(job)));
      && (verdict == Refused(Closed) <==> s.state.closed)
      && (verdict == Refused(Full) <==> !s.state.closed && InUse(s) == capacity)
      && (verdict.Refused? ==> next == s)
      && (!verdict.Refused? ==>
            && next.accepted == s.accepted + [job] && !next.failed
            && next.state == s.state.(waiting := s.state.waiting + [job], outstanding := s.state.outstanding + 1, active := true)
            && next.drainers == if s.drainers == [] then [AtTop] else s.drainers)
  {
    hide CallbacksConserved, OnePool, PoolFirst;
    assert Holding(s.drainers) == Occupied(s.drainers) by {
      if s.drainers != [] {
        assert s.drainers[1..] == [];
      }
    }
    assert |s.accepted| - |s.started| == |s.state.waiting|;
  }

  // ----- termination after close -----

  predicate Internal(step: Step) {
    step.Drain? || step.DropByCloser? || step.CallByCloser? || step.CallExposed?
  }

  function DrainerRank(d: Drainer): nat {
    match d
    case AtTop => 3
    case Executing(_) => 6
    case Executed(_) => 5
    case Completing(_) => 4
    case Dropping(_, callbacks) => 2 + |callbacks|
    case Releasing(callbacks) => 1 + |callbacks|
  }

  /** What is left to do: four steps a waiting job, and each callback's way out. */
  function Measure(s: System): nat {
    4 * |s.state.waiting| + |s.state.onRelease| + 2 * |s.droppers| + |s.callers| + |s.exposed| +
    if |s.drainers| == 1 then DrainerRank(s.drainers[0]) else 0
  }

  /** Every internal step brings the queue closer to rest. */
  lemma StepDecreases(s: System, capacity: nat, step: Step)
    requires Inv(s, capacity) && Internal(step) && Enabled(s, step)
    ensures Measure(Apply(s, capacity, step)) < Measure(s)
  {
    hide CallbacksConserved, OnePool, ReleasedLast, DrainerRank, Drained, Submitted, CloseSection, TakeSection;
    match step {
      case DropByCloser(callback) =>
        assert |s.droppers - multiset{callback}| == |s.droppers| - 1;
      case CallByCloser(callback) =>
        assert |s.callers - multiset{callback}| == |s.callers| - 1;
      case CallExposed(callback) =>
        assert |s.exposed - multiset{callback}| == |s.exposed| - 1;
      case Drain(_) =>
        DrainDecreases(s);
    }
  }

  lemma DrainDecreases(s: System)
    requires |s.drainers| == 1 && (s.drainers[0].Executed? ==> s.state.outstanding > 0)
    ensures Measure(Drained(s, 0)) < Measure(s)
  {}

  /** A run in which every step is an enabled internal one. */
  ghost predicate InternalRun(s: System, capacity: nat, steps: seq<Step>)
    decreases |steps|
  {
    steps == [] ||
    (InternalRun(s, capacity, steps[..|steps| - 1]) && Internal(steps[|steps| - 1]) &&
     Enabled(Run(s, capacity, steps[..|steps| - 1]), steps[|steps| - 1]))
  }

  /** However the drainer and the closers interleave, they stop within `Measure(s)` steps. */
  lemma {:induction false} DrainTerminates(s: System, capacity: nat, steps: seq<Step>)
    requires capacity > 0 && Inv(s, capacity) && InternalRun(s, capacity, steps)
    ensures |steps| + Measure(Run(s, capacity, steps)) <= Measure(s)
    decreases |steps|
  {
    hide Inv, Apply, Enabled, Measure;
    if steps != [] {
      var init, last := steps[..|steps| - 1], steps[|steps| - 1];
      DrainTerminates(s, capacity, init);
      RunKeeps(s, capacity, init);
      StepDecreases(Run(s, capacity, init), capacity, last);
    }
  }

  /**
   At rest, a closed queue has completed every accepted job, dropped its pool once and run every
   registered callback once. An open queue at rest has completed every accepted job too.
   */
  lemma AtRest(s: System, capacity: nat)
    requires Inv(s, capacity)
    requires forall step | Internal(step) :: !Enabled(s, step)
    ensures s.completed == s.accepted
    ensures s.state.closed ==> s.poolsDropped == 1 && multiset(Called(s.released)) == s.registered
  {
    if s.drainers != [] {
      assert Enabled(s, Drain(0));
    }
    forall c | c in s.droppers || c in s.callers || c in s.exposed
      ensures false
    {
      assert c in s.exposed ==> Enabled(s, CallExposed(c));
      assert c in s.droppers ==> Enabled(s, DropByCloser(c));
      assert c in s.callers ==> Enabled(s, CallByCloser(c));
    }
  }

  /** After `close` a submission changes nothing. */
  lemma ClosedRefuses(s: System, capacity: nat, job: Job)
    requires s.state.closed
    ensures Apply(s, capacity, Submit(job)) == s
  {}
}
