/**
 The batch-affine bucket scheduler of one signed window.

 `Sum(b)` is everything bucket `b` stands for: its affine value, its overflow, its pending
 addition and its deferred points. Every operation conserves it.
 */
module WindowBuckets {
  import opened Field
  import opened AbelianGroup
  import opened CurvePoints
  import opened BatchInversion
  import opened RunningSums

  datatype BucketState = Free | Scheduled | Hot

  datatype Deferred = Deferred(bucket: nat, point: Affine)

  const MIN_RETRY_BATCH: nat := 8

  function If(here: bool, p: Affine): G {
    if here then PointValue(p) else IDENTITY
  }

  /** What the pending additions add to bucket `b`. */
  function BatchSum(batch: seq<PendingAdd>, b: nat): G {
    if batch == [] then IDENTITY
    else
      var last := batch[|batch| - 1];
      Add(BatchSum(batch[..|batch| - 1], b), If(last.bucket == b, last.point))
  }

  /** What the deferred points add to bucket `b`. */
  function DeferredSum(deferred: seq<Deferred>, b: nat): G {
    if deferred == [] then IDENTITY
    else
      var last := deferred[|deferred| - 1];
      Add(DeferredSum(deferred[..|deferred| - 1], b), If(last.bucket == b, last.point))
  }

  function OverflowAt(overflow: seq<G>, b: nat): G {
    if b < |overflow| then overflow[b] else IDENTITY
  }

  /** Affine value and overflow together. */
  function Stored(buckets: seq<Affine>, overflow: seq<G>, b: nat): G
    requires b < |buckets|
  {
    Add(PointValue(buckets[b]), OverflowAt(overflow, b))
  }

  ghost predicate BucketsOk(buckets: seq<Affine>) {
    forall b | 0 <= b < |buckets| :: OnCurve(buckets[b])
  }

  ghost predicate Targets(batch: seq<PendingAdd>, b: nat) {
    exists i | 0 <= i < |batch| :: batch[i].bucket == b
  }

  /**
   Pending additions are finite curve points for finite buckets with pairwise distinct targets;
   a scheduled bucket has one, a free bucket has none (a hot bucket may still have one).
   */
  ghost predicate BatchOk(batch: seq<PendingAdd>, buckets: seq<Affine>, state: seq<BucketState>) {
    && |state| == |buckets|
    && Independent(batch, buckets)
    && (forall i | 0 <= i < |batch| :: OnCurve(batch[i].point))
    && (forall b | 0 <= b < |state| && state[b] == Free :: !Targets(batch, b))
    && (forall b | 0 <= b < |state| && state[b] == Scheduled :: Targets(batch, b))
  }

  ghost predicate DeferredOk(deferred: seq<Deferred>, count: nat) {
    forall i | 0 <= i < |deferred| ::
      deferred[i].bucket < count && deferred[i].point.At? && OnCurve(deferred[i].point)
  }

  /** Overflow exists once some bucket is hot. */
  ghost predicate OverflowOk(overflow: seq<G>, state: seq<BucketState>) {
    && (overflow == [] || |overflow| == |state|)
    && (forall b | 0 <= b < |state| && state[b] == Hot :: |overflow| == |state|)
  }

  // ----- sums under the elementary changes -----

  lemma BatchSumSnoc(batch: seq<PendingAdd>, entry: PendingAdd, b: nat)
    ensures BatchSum(batch + [entry], b) == Add(BatchSum(batch, b), If(entry.bucket == b, entry.point))
  {
    assert (batch + [entry])[..|batch|] == batch;
  }

  lemma DeferredSumSnoc(deferred: seq<Deferred>, entry: Deferred, b: nat)
    ensures DeferredSum(deferred + [entry], b) == Add(DeferredSum(deferred, b), If(entry.bucket == b, entry.point))
  {
    assert (deferred + [entry])[..|deferred|] == deferred;
  }

  lemma {:induction false} DeferredSumConcat(x: seq<Deferred>, y: seq<Deferred>, b: nat)
    requires Abelian()
    ensures DeferredSum(x + y, b) == Add(DeferredSum(x, b), DeferredSum(y, b))
  {
    if y == [] {
      AddUnit(DeferredSum(x, b));
      assert x + y == x;
    } else {
      var init, last := y[..|y| - 1], y[|y| - 1];
      DeferredSumConcat(x, init, b);
      assert x + y == x + init + [last];
      DeferredSumSnoc(x + init, last, b);
      AddAssoc(DeferredSum(x, b), DeferredSum(init, b), If(last.bucket == b, last.point));
    }
  }

  lemma {:induction false} BatchSumElsewhere(batch: seq<PendingAdd>, b: nat)
    requires Abelian() && !Targets(batch, b)
    ensures BatchSum(batch, b) == IDENTITY
  {
    if batch != [] {
      forall i | 0 <= i < |batch|
        ensures batch[i].bucket != b
      {}
      BatchSumElsewhere(batch[..|batch| - 1], b);
      AddUnit(IDENTITY);
    }
  }

  /** With distinct targets, a bucket's pending sum is its single entry's point. */
  lemma {:induction false} BatchSumAt(batch: seq<PendingAdd>, buckets: seq<Affine>, i: nat)
    requires Abelian() && Independent(batch, buckets) && i < |batch|
    ensures BatchSum(batch, batch[i].bucket) == PointValue(batch[i].point)
  {
    var last, b := |batch| - 1, batch[i].bucket;
    var init := batch[..last];
    if i == last {
      BatchSumElsewhere(init, b);
    } else {
      BatchSumAt(init, buckets, i);
    }
    AddUnit(PointValue(batch[i].point));
  }

  /** Applying a batch moves each pending point into its bucket's value. */
  lemma AppliedSum(batch: seq<PendingAdd>, buckets: seq<Affine>, sums: seq<Affine>, state: seq<BucketState>, b: nat)
    requires CurveLaws() && BatchOk(batch, buckets, state) && BucketsOk(buckets) && b < |buckets| == |sums|
    requires forall i | 0 <= i < |batch| :: sums[batch[i].bucket] == AffineAdd(buckets[batch[i].bucket], batch[i].point)
    requires !Targets(batch, b) ==> sums[b] == buckets[b]
    ensures OnCurve(sums[b])
    ensures PointValue(sums[b]) == Add(PointValue(buckets[b]), BatchSum(batch, b))
  {
    hide FieldLaws, OnCurve, AffineAdd;
    if Targets(batch, b) {
      var i :| 0 <= i < |batch| && batch[i].bucket == b;
      BatchSumAt(batch, buckets, i);
      AddValue(buckets[b], batch[i].point);
    } else {
      BatchSumElsewhere(batch, b);
      AddUnit(PointValue(buckets[b]));
    }
  }

  /** A point added to what a bucket holds is added to its whole sum. */
  lemma HeldPlus(held: G, waiting: G, p: G)
    requires Abelian()
    ensures Add(Add(held, p), waiting) == Add(Add(held, waiting), p)
  {
    SwapLast(held, p, waiting);
  }

  lemma WaitingPlus(held: G, waiting: G, p: G)
    requires Abelian()
    ensures Add(held, Add(waiting, p)) == Add(Add(held, waiting), p)
  {
    AddAssoc(held, waiting, p);
  }

  lemma NothingPending(b: nat)
    ensures BatchSum([], b) == IDENTITY && DeferredSum([], b) == IDENTITY
  {}

  lemma TakeFirst(first: Deferred, rest: seq<Deferred>, b: nat)
    requires Abelian()
    ensures DeferredSum([first] + rest, b) == Add(DeferredSum(rest, b), If(first.bucket == b, first.point))
  {
    DeferredSumConcat([first], rest, b);
    assert DeferredSum([first], b) == Add(DeferredSum([], b), If(first.bucket == b, first.point)) by {
      assert [first][..0] == [];
    }
    AddUnit(If(first.bucket == b, first.point));
    AddComm(If(first.bucket == b, first.point), DeferredSum(rest, b));
  }

  /** `((v + k) + o) + 0 == (v + o) + k`. */
  lemma RegroupApplied(value: G, over: G, pending: G)
    requires Abelian()
    ensures Add(Add(Add(value, pending), over), IDENTITY) == Add(Add(value, over), pending)
  {
    SwapLast(value, pending, over);
    AddUnit(Add(Add(value, over), pending));
  }

  class AffineBuckets {
    const batchSize: nat
    var buckets: seq<Affine>
    var overflow: seq<G>
    var batch: seq<PendingAdd>
    var deferred: seq<Deferred>
    var state: seq<BucketState>

    /** The structural invariant, the waiting points aside. */
    ghost predicate HeldOk()
      reads this
    {
      && batchSize >= 1 && |batch| <= batchSize
      && BucketsOk(buckets)
      && BatchOk(batch, buckets, state)
      && OverflowOk(overflow, state)
    }

    /** The structural invariant; the batch may be full. */
    ghost predicate Ok()
      reads this
    {
      HeldOk() && DeferredOk(deferred, |buckets|) && |deferred| <= batchSize
    }

    /** Between calls the batch is never full. */
    ghost predicate Valid()
      reads this
    {
      Ok() && |batch| < batchSize
    }

    /** What bucket `b` holds: affine value, overflow and pending addition. */
    ghost function Held(b: nat): G
      requires b < |buckets|
      reads this
    {
      Add(Stored(buckets, overflow, b), BatchSum(batch, b))
    }

    /** Everything that belongs to bucket `b`: what it holds and what waits for it. */
    ghost function Sum(b: nat): G
      requires b < |buckets|
      reads this
    {
      Add(Held(b), DeferredSum(deferred, b))
    }

    constructor (count: nat, batchSize: nat)
      requires CurveLaws()
      ensures Valid() && |buckets| == count && batch == [] && deferred == []
      ensures forall b | 0 <= b < count :: Sum(b) == IDENTITY
    {
      this.batchSize := if batchSize >= 1 then batchSize else 1;
      buckets, state := seq(count, _ => Identity), seq(count, _ => Free);
      overflow, batch, deferred := [], [], [];
      AddUnit(IDENTITY);
    }

    /** Add a point: straight into an empty bucket, else scheduled, deferred or overflowed. */
    method AddPoint(bucket: nat, point: Affine)
      requires CurveLaws() && Valid() && bucket < |buckets| && OnCurve(point)
      modifies this
      ensures Valid() && |buckets| == old(|buckets|)
      ensures forall b | 0 <= b < |buckets| :: Sum(b) == Add(old(Sum(b)), If(b == bucket, point))
    {
      hide FieldLaws, OnCurve, AddsUp, BatchSum, DeferredSum, Stored;
      if point == Identity {
        forall b | 0 <= b < |buckets| ensures Sum(b) == Add(Sum(b), If(b == bucket, point)) {
          AddUnit(Sum(b));
        }
        return;
      }
      if state[bucket] == Scheduled {
        Defer(bucket, point);
        return;
      }
      forall b | 0 <= b < |buckets|
        ensures Add(Add(Held(b), If(b == bucket, point)), DeferredSum(deferred, b)) == Add(Sum(b), If(b == bucket, point))
      {
        HeldPlus(Held(b), DeferredSum(deferred, b), If(b == bucket, point));
      }
      if state[bucket] == Hot {
        AddOverflow(bucket, point);
        return;
      }
      if buckets[bucket] == Identity {
        Place(bucket, point);
        return;
      }
      Schedule(bucket, point);
      while |batch| == batchSize
        invariant Ok() && |buckets| == old(|buckets|)
        invariant forall b | 0 <= b < |buckets| :: Sum(b) == Add(old(Sum(b)), If(b == bucket, point))
        decreases |deferred| + |batch|
      {
        ApplyBatch();
        RetryDeferred();
      }
    }

    /** The first point of an empty, unscheduled bucket becomes its value. */
    method Place(bucket: nat, point: Affine)
      requires CurveLaws() && HeldOk() && bucket < |buckets| && OnCurve(point)
      requires state[bucket] == Free && buckets[bucket] == Identity
      modifies this`buckets
      ensures HeldOk() && buckets == old(buckets)[bucket := point]
      ensures forall b | 0 <= b < |buckets| :: Held(b) == Add(old(Held(b)), If(b == bucket, point))
    {
      hide FieldLaws, OnCurve, AddsUp, BatchSum;
      assert forall i | 0 <= i < |batch| :: batch[i].bucket != bucket;
      buckets := buckets[bucket := point];
      forall b | 0 <= b < |buckets|
        ensures Held(b) == Add(old(Held(b)), If(b == bucket, point))
      {
        var o := OverflowAt(overflow, b);
        if b == bucket {
          AddComm(IDENTITY, o);
          AddComm(PointValue(point), o);
          AddUnit(o);
          SwapLast(o, PointValue(point), BatchSum(batch, b));
        } else {
          AddUnit(old(Held(b)));
        }
      }
    }

    method Schedule(bucket: nat, point: Affine)
      requires CurveLaws() && HeldOk() && |batch| < batchSize
      requires bucket < |buckets| && OnCurve(point) && point.At?
      requires state[bucket] == Free && buckets[bucket].At?
      modifies this`state, this`batch
      ensures HeldOk() && |batch| == old(|batch|) + 1
      ensures state == old(state)[bucket := Scheduled]
      ensures forall b | 0 <= b < |buckets| :: Held(b) == Add(old(Held(b)), If(b == bucket, point))
    {
      hide FieldLaws, OnCurve, AddsUp, BatchSum, Stored;
      ghost var before := batch;
      assert forall i | 0 <= i < |batch| :: batch[i].bucket != bucket;
      state := state[bucket := Scheduled];
      batch := batch + [PendingAdd(bucket, Chord, FONE, point)];
      assert batch[|before|].bucket == bucket;
      forall b | 0 <= b < |buckets| && b != bucket
        ensures Targets(batch, b) <==> Targets(before, b)
      {
        if Targets(before, b) {
          var i :| 0 <= i < |before| && before[i].bucket == b;
          assert batch[i].bucket == b;
        }
      }
      forall b | 0 <= b < |buckets|
        ensures Held(b) == Add(old(Held(b)), If(b == bucket, point))
      {
        BatchSumSnoc(before, PendingAdd(bucket, Chord, FONE, point), b);
        AddAssoc(Stored(buckets, overflow, b), BatchSum(before, b), If(bucket == b, point));
      }
    }

    method AddOverflow(bucket: nat, point: Affine)
      requires CurveLaws() && HeldOk() && bucket < |overflow| == |buckets|
      modifies this`overflow
      ensures HeldOk() && |overflow| == old(|overflow|)
      ensures forall b | 0 <= b < |buckets| :: Held(b) == Add(old(Held(b)), If(b == bucket, point))
    {
      hide FieldLaws, OnCurve, AddsUp, BatchSum;
      ghost var before := overflow;
      overflow := overflow[bucket := Add(overflow[bucket], PointValue(point))];
      forall b | 0 <= b < |buckets|
        ensures Held(b) == Add(old(Held(b)), If(b == bucket, point))
      {
        if b == bucket {
          AddAssoc(PointValue(buckets[b]), before[b], PointValue(point));
          SwapLast(Stored(buckets, before, b), PointValue(point), BatchSum(batch, b));
        } else {
          AddUnit(old(Held(b)));
        }
      }
    }

    /** Wait for the next batch, spilling the waiting points first when there are too many. */
    method Defer(bucket: nat, point: Affine)
      requires CurveLaws() && Ok() && bucket < |buckets| && OnCurve(point) && point.At?
      modifies this`deferred, this`overflow, this`state
      ensures Ok()
      ensures forall b | 0 <= b < |buckets| :: Sum(b) == Add(old(Sum(b)), If(b == bucket, point))
    {
      hide FieldLaws, OnCurve, AddsUp, BatchSum, DeferredSum, Stored, Independent;
      if |deferred| == batchSize {
        SpillDeferred();
      }
      ghost var before := deferred;
      deferred := deferred + [Deferred(bucket, point)];
      forall b | 0 <= b < |buckets|
        ensures Sum(b) == Add(old(Sum(b)), If(b == bucket, point))
      {
        DeferredSumSnoc(before, Deferred(bucket, point), b);
        WaitingPlus(Held(b), DeferredSum(before, b), If(bucket == b, point));
      }
    }

    /** Move every deferred point to the overflow of its bucket, which becomes hot. */
    method SpillDeferred()
      requires CurveLaws() && Ok()
      modifies this`deferred, this`overflow, this`state
      ensures Ok() && deferred == []
      ensures forall b | 0 <= b < |buckets| :: Sum(b) == old(Sum(b))
    {
      hide FieldLaws, OnCurve, AddsUp, BatchSum, DeferredSum, Independent;
      if deferred == [] {
        return;
      }
      if overflow == [] {
        overflow := seq(|buckets|, _ => IDENTITY);
      }
      while deferred != []
        invariant Ok() && |overflow| == |buckets|
        invariant forall b | 0 <= b < |buckets| :: Sum(b) == old(Sum(b))
        decreases |deferred|
      {
        SpillOne();
      }
    }

    /** One step of the drain. */
    method SpillOne()
      requires CurveLaws() && Ok() && deferred != [] && |overflow| == |buckets|
      modifies this`deferred, this`overflow, this`state
      ensures Ok() && |overflow| == |buckets| && deferred == old(deferred[1..])
      ensures state == old(state)[old(deferred)[0].bucket := Hot]
      ensures forall b | 0 <= b < |buckets| :: Sum(b) == old(Sum(b))
    {
      hide FieldLaws, OnCurve, AddsUp, BatchSum, DeferredSum, Independent, Stored;
      var first, rest := deferred[0], deferred[1..];
      AddOverflow(first.bucket, first.point);
      state := state[first.bucket := Hot];
      deferred := rest;
      assert old(deferred) == [first] + rest;
      forall b | 0 <= b < |buckets|
        ensures Sum(b) == old(Sum(b))
      {
        TakeFirst(first, rest, b);
        var p := If(b == first.bucket, first.point);
        WaitingPlus(old(Held(b)), DeferredSum(rest, b), p);
        HeldPlus(old(Held(b)), DeferredSum(rest, b), p);
      }
    }

    /** One step of the retry: the next waiting point is settled, or kept in place. */
    method RetryOne(kept: nat, index: nat) returns (next: nat)
      requires CurveLaws() && HeldOk() && kept <= index < |deferred| && DeferredOk(deferred, |buckets|)
      modifies this
      ensures HeldOk() && |buckets| == old(|buckets|) && |deferred| == old(|deferred|)
      ensures kept <= next <= index + 1 && deferred[index + 1..] == old(deferred)[index + 1..]
      ensures DeferredOk(deferred, |buckets|)
      ensures |batch| + next <= old(|batch|) + kept + 1
      ensures forall b | 0 <= b < |buckets| ::
        Add(Held(b), DeferredSum(deferred[..next], b)) ==
        Add(old(Held(b)), DeferredSum(old(deferred)[..kept] + [old(deferred)[index]], b))
    {
      hide FieldLaws, OnCurve, AddsUp, BatchSum, DeferredSum, Independent, Stored;
      var Deferred(slot, point) := deferred[index];
      ghost var before := deferred[..kept];
      forall b | 0 <= b < |buckets|
        ensures Add(Add(Held(b), If(b == slot, point)), DeferredSum(before, b)) ==
          Add(Held(b), DeferredSum(before + [deferred[index]], b))
      {
        DeferredSumSnoc(before, deferred[index], b);
        HeldPlus(Held(b), DeferredSum(before, b), If(b == slot, point));
        WaitingPlus(Held(b), DeferredSum(before, b), If(b == slot, point));
      }
      next := kept;
      if state[slot] == Hot {
        AddOverflow(slot, point);
      } else if state[slot] == Free && |batch| < batchSize {
        if buckets[slot] == Identity {
          Place(slot, point);
        } else {
          Schedule(slot, point);
        }
      } else {
        deferred := deferred[kept := Deferred(slot, point)];
        next := kept + 1;
        assert deferred[..next] == before + [Deferred(slot, point)];
      }
    }

    /** Reschedule deferred points, oldest first, whose bucket is free now. */
    method RetryDeferred()
      requires CurveLaws() && Ok() && batch == []
      modifies this
      ensures Ok() && |buckets| == old(|buckets|)
      ensures |batch| + |deferred| <= old(|deferred|)
      ensures forall b | 0 <= b < |buckets| :: Sum(b) == old(Sum(b))
    {
      hide FieldLaws, OnCurve, AddsUp, BatchSum, DeferredSum, Independent, Stored;
      ghost var all := deferred;
      var kept := 0;
      assert all[..0] == [] && [] + all[0..] == all;
      for index := 0 to |deferred|
        invariant HeldOk() && |buckets| == old(|buckets|) && |deferred| == |all|
        invariant kept + |batch| <= index && deferred[index..] == all[index..]
        invariant DeferredOk(deferred, |buckets|)
        invariant forall b | 0 <= b < |buckets| :: Add(Held(b), DeferredSum(deferred[..kept] + all[index..], b)) == old(Sum(b))
      {
        ghost var before, next, rest := deferred[..kept], all[index], all[index + 1..];
        assert all[index..] == [next] + rest && deferred[index] == next;
        label Before:
        kept := RetryOne(kept, index);
        assert before + all[index..] == (before + [next]) + rest;
        forall b | 0 <= b < |buckets|
          ensures Add(Held(b), DeferredSum(deferred[..kept] + rest, b)) == old(Sum(b))
        {
          DeferredSumConcat(deferred[..kept], rest, b);
          DeferredSumConcat(before + [next], rest, b);
          AddAssoc(Held(b), DeferredSum(deferred[..kept], b), DeferredSum(rest, b));
          AddAssoc(old@Before(Held(b)), DeferredSum(before + [next], b), DeferredSum(rest, b));
        }
      }
      assert all[|all|..] == [] && deferred[..kept] + [] == deferred[..kept];
      deferred := deferred[..kept];
    }

    /** Apply every scheduled addition with one shared inversion. */
    method ApplyBatch()
      requires CurveLaws() && Ok()
      modifies this`buckets, this`batch, this`state
      ensures Ok() && batch == [] && |buckets| == old(|buckets|)
      ensures forall b | 0 <= b < |buckets| :: Sum(b) == old(Sum(b))
    {
      hide FieldLaws, OnCurve, AddsUp, BatchSum, DeferredSum;
      if batch == [] {
        return;
      }
      ghost var before := buckets;
      var pending, states := batch, state;
      var sums := ApplyAll(pending, buckets);
      for i := |pending| downto 0
        invariant |states| == |state|
        invariant forall j | i <= j < |pending| :: states[pending[j].bucket] != Scheduled
        invariant forall b | 0 <= b < |state| :: states[b] == state[b] || (state[b] == Scheduled && states[b] == Free)
      {
        if states[pending[i].bucket] == Scheduled {
          states := states[pending[i].bucket := Free];
        }
      }
      buckets, batch, state := sums, [], states;
      forall b | 0 <= b < |buckets|
        ensures OnCurve(buckets[b]) && Held(b) == old(Held(b)) && state[b] != Scheduled
      {
        AppliedSum(pending, before, sums, old(state), b);
        RegroupApplied(PointValue(before[b]), OverflowAt(overflow, b), BatchSum(pending, b));
        NothingPending(b);
        if old(state)[b] == Scheduled {
          var j :| 0 <= j < |pending| && pending[j].bucket == b;
          assert states[pending[j].bucket] != Scheduled;
        }
      }
    }

    /** Apply every pending and deferred addition. */
    method Finish()
      requires CurveLaws() && Valid()
      modifies this
      ensures Valid() && batch == [] && deferred == [] && |buckets| == old(|buckets|)
      ensures forall b | 0 <= b < |buckets| :: Sum(b) == old(Sum(b))
    {
      hide FieldLaws, OnCurve, AddsUp, BatchSum, DeferredSum, Held;
      while true
        invariant Ok() && |buckets| == old(|buckets|)
        invariant forall b | 0 <= b < |buckets| :: Sum(b) == old(Sum(b))
        decreases |deferred|
      {
        ApplyBatch();
        if deferred == [] {
          return;
        }
        RetryDeferred();
        if |batch| < MIN_RETRY_BATCH {
          ApplyBatch();
          SpillDeferred();
          return;
        }
      }
    }

    /** Every bucket's sum. */
    ghost function Sums(): (sums: seq<G>)
      reads this
      ensures |sums| == |buckets|
    {
      seq(|buckets|, b requires 0 <= b < |buckets| reads this => Sum(b))
    }

    /** Fold `digit * base` into the window: the weighted sum of all the buckets grows by exactly that. */
    method AddDigit(digit: int, base: Affine)
      requires CurveLaws() && Valid() && -|buckets| <= digit <= |buckets| && OnCurve(base)
      modifies this
      ensures Valid() && |buckets| == old(|buckets|)
      ensures Weighted(Sums(), 0) == Add(old(Weighted(Sums(), 0)), Times(digit, PointValue(base)))
    {
      hide FieldLaws, OnCurve, AddsUp, Sum, Weighted, Times, Abelian, Valid;
      ghost var before := Sums();
      if digit > 0 {
        AddPoint(digit - 1, base);
        AddIdentity(before);
        WeightedUpdate(before, Sums(), digit - 1, PointValue(base), 0);
      } else if digit < 0 {
        NegValue(base);
        AddPoint(-digit - 1, NegPoint(base));
        AddIdentity(before);
        WeightedUpdate(before, Sums(), -digit - 1, Neg(PointValue(base)), 0);
        TimesOfNeg(-digit, PointValue(base));
      } else {
        TimesSmall(PointValue(base));
        AddUnit(Weighted(Sums(), 0));
      }
    }

    /** `sum over k of (k + 1) * bucket[k]`, once every addition is applied. */
    method WindowSum() returns (sum: G)
      requires CurveLaws() && Valid() && batch == [] && deferred == []
      ensures sum == Weighted(Sums(), 0)
    {
      hide FieldLaws, OnCurve, AddsUp, Weighted, Times, Abelian, Independent;
      ghost var sums := Sums();
      sum := IDENTITY;
      var running := IDENTITY;
      TimesIdentity(|buckets|);
      AddUnit(IDENTITY);
      assert Weighted(sums, |buckets|) == IDENTITY by { WeightedEnd(sums); }
      for i := |buckets| downto 0
        invariant running == Tail(sums, i)
        invariant Add(sum, Times(i, running)) == Weighted(sums, i)
      {
        AppliedOnly(i);
        RunningStep(sums, i, sum);
        AddAssoc(running, PointValue(buckets[i]), OverflowAt(overflow, i));
        running := Add(running, PointValue(buckets[i]));
        if overflow != [] {
          running := Add(running, overflow[i]);
        } else {
          AddUnit(running);
        }
        sum := Add(sum, running);
      }
      TimesSmall(running);
      AddUnit(sum);
    }

    lemma AppliedOnly(b: nat)
      requires Abelian() && b < |buckets| && batch == [] && deferred == []
      ensures Sum(b) == Stored(buckets, overflow, b)
    {
      AddUnit(Stored(buckets, overflow, b));
    }
  }

  lemma WeightedEnd(sums: seq<G>)
    ensures Weighted(sums, |sums|) == IDENTITY
  {}

  lemma AddIdentity(sums: seq<G>)
    requires Abelian()
    ensures forall b | 0 <= b < |sums| :: Add(sums[b], IDENTITY) == sums[b]
  {
    forall b | 0 <= b < |sums|
      ensures Add(sums[b], IDENTITY) == sums[b]
    {
      AddUnit(sums[b]);
    }
  }
}
