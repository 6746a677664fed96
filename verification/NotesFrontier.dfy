/**
 The constant-space append frontier: one completed subtree per set bit of the leaf count.
 */
module AppendFrontier {
  import opened Binary
  import opened NodeHash
  import opened TreeErrors
  import opened InclusionProofs
  import opened IncrementalTree
  import opened Sharding

  type Slots = seq<Option<Fr>>

  datatype CompletedShard = CompletedShard(shardIndex: nat, root: Fr)

  datatype FrontierAppend = FrontierAppend(leafIndex: nat, completedShard: Option<CompletedShard>)

  /** The slots are occupied exactly where the leaf count has a set bit. */
  ghost predicate SlotsMatch(slots: Slots, count: nat, depth: nat) {
    && |slots| == depth + 1
    && count <= Pow2(depth)
    && forall k | 0 <= k <= depth :: slots[k].Some? <==> Bit(count, k)
  }

  /** The lowest clear bit of `n`: how many completed subtrees the next append merges. */
  function LowZero(n: nat): nat {
    if n % 2 == 0 then 0 else 1 + LowZero(n / 2)
  }

  // ----- the operations as functions of the slots -----

  /** The subtree built from `leaf` and the `level` lowest slots. */
  function Carried(slots: Slots, leaf: Fr, level: nat): Fr
    requires level <= |slots|
  {
    if level == 0 then leaf else Poseidon(slots[level - 1].UnwrapOr(ZERO), Carried(slots, leaf, level - 1))
  }

  /** The slots once the `level` lowest have been taken. */
  function Taken(slots: Slots, level: nat): (taken: Slots)
    requires level <= |slots|
    ensures |taken| == |slots|
  {
    seq(|slots|, k requires 0 <= k < |slots| => if k < level then None else slots[k])
  }

  lemma TakeNext(slots: Slots, leaf: Fr, level: nat)
    requires level < |slots|
    ensures Taken(slots, level)[level] == slots[level]
    ensures Taken(slots, level)[level := None] == Taken(slots, level + 1)
    ensures slots[level].Some? ==> Carried(slots, leaf, level + 1) == Poseidon(slots[level].value, Carried(slots, leaf, level))
  {}

  /** The slots after an append that merges the `merged` lowest subtrees. */
  function SlotsAfter(slots: Slots, leaf: Fr, merged: nat): (after: Slots)
    requires merged < |slots|
    ensures |after| == |slots|
  {
    Taken(slots, merged)[merged := Some(Carried(slots, leaf, merged))]
  }

  /** The path of the next free leaf, climbed to `level` through slots and zero roots. */
  function PathRoot(slots: Slots, count: nat, level: nat): Fr
    requires level <= |slots|
  {
    if level == 0 then ZERO
    else if Bit(count, level - 1) then
      Poseidon(slots[level - 1].UnwrapOr(ZeroRoot(ZERO, level - 1)), PathRoot(slots, count, level - 1))
    else
      Poseidon(PathRoot(slots, count, level - 1), ZeroRoot(ZERO, level - 1))
  }

  function SlotsRoot(slots: Slots, count: nat, depth: nat): Fr
    requires |slots| == depth + 1
  {
    if count == Pow2(depth) then slots[depth].UnwrapOr(ZeroRoot(ZERO, depth)) else PathRoot(slots, count, depth)
  }

  function SlotOr(slots: Slots, count: nat, level: nat, empty: Fr): Fr
    requires level < |slots|
  {
    if Bit(count, level) then slots[level].UnwrapOr(empty) else empty
  }

  /** Siblings of the leaf about to be appended: slots on its left, zero roots on its right. */
  function SlotSiblings(slots: Slots, count: nat, depth: nat): seq<Fr>
    requires |slots| == depth + 1
  {
    seq(depth, level requires 0 <= level < depth => SlotOr(slots, count, level, ZeroRoot(ZERO, level)))
  }

  function SlotFrontier(slots: Slots, count: nat, depth: nat): seq<Fr>
    requires |slots| == depth + 1
  {
    seq(depth, level requires 0 <= level < depth => SlotOr(slots, count, level, ZERO))
  }

  // ----- incrementing a binary counter -----

  /** Adding one clears the run of low ones, sets the next bit and leaves the rest. */
  lemma {:induction false} Increment(n: nat, k: nat)
    ensures k < LowZero(n) ==> Bit(n, k)
    ensures k == LowZero(n) ==> !Bit(n, k)
    ensures k <= LowZero(n) ==> Shr(n + 1, k) == Shr(n, k) + 1
    ensures k > LowZero(n) ==> Shr(n + 1, k) == Shr(n, k)
  {
    if k > 0 {
      Increment(n, k - 1);
      LowZeroStep(n, k - 1);
    } else {
      LowZeroStep(n, 0);
    }
  }

  /** The bits of the incremented number, one by one. */
  lemma IncrementBits(n: nat, k: nat)
    ensures k < LowZero(n) ==> !Bit(n + 1, k)
    ensures k == LowZero(n) ==> Bit(n + 1, k)
    ensures k > LowZero(n) ==> (Bit(n + 1, k) <==> Bit(n, k))
  {
    Increment(n, k);
  }

  /** `LowZero` read off the shifted number. */
  lemma {:induction false} LowZeroStep(n: nat, k: nat)
    ensures k <= LowZero(n) ==> LowZero(n) == k + LowZero(Shr(n, k))
    ensures k <= LowZero(n) ==> (Bit(n, k) <==> k < LowZero(n))
  {
    if k > 0 {
      LowZeroStep(n, k - 1);
    }
  }

  /** A full count is the only one with bit `depth` set, and it has no other. */
  lemma {:induction false} LowZeroBound(n: nat, depth: nat)
    requires n < Pow2(depth)
    ensures LowZero(n) <= depth
  {
    if depth > 0 && n % 2 == 1 {
      LowZeroBound(n / 2, depth - 1);
    }
  }

  lemma DoubledProduct(s: nat, h: nat)
    requires h > 0
    ensures s * Pow2(h) == 2 * (s * Pow2(h - 1))
  {}

  /** The merge reaches height `h` exactly when the new count is a multiple of `2^h`. */
  lemma {:induction false} LowZeroMultiple(n: nat, h: nat)
    ensures h <= LowZero(n) <==> Shr(n + 1, h) * Pow2(h) == n + 1
  {
    if h > 0 {
      DoubledProduct(Shr(n + 1, h), h);
      if n % 2 == 1 {
        LowZeroMultiple(n / 2, h - 1);
        ShrHalves(n + 1, h - 1);
      }
    }
  }

  lemma {:induction false} ShrHalves(n: nat, k: nat)
    ensures Shr(n, k + 1) == Shr(n / 2, k)
  {
    if k > 0 {
      ShrHalves(n, k - 1);
    }
  }

  lemma {:induction false} FullBits(depth: nat, k: nat)
    requires k <= depth
    ensures Shr(Pow2(depth), k) == Pow2(depth - k)
  {
    if k > 0 {
      FullBits(depth, k - 1);
    }
  }

  // ----- refinement of the flat tree -----

  function SlotOf(leaves: seq<Fr>, k: nat): Option<Fr> {
    if Bit(|leaves|, k) then Some(NodeAt(leaves, ZERO, k, Shr(|leaves|, k) - 1)) else None
  }

  /** The slots a log of `leaves` leaves behind: slot `k` is its last complete height-`k` subtree. */
  function SlotsOf(leaves: seq<Fr>, depth: nat): (slots: Slots)
    ensures |slots| == depth + 1
  {
    seq(depth + 1, k requires 0 <= k => SlotOf(leaves, k))
  }

  lemma {:induction false} CarriedIsNode(leaves: seq<Fr>, leaf: Fr, depth: nat, level: nat)
    requires |leaves| < Pow2(depth) && level <= LowZero(|leaves|) <= depth
    ensures Carried(SlotsOf(leaves, depth), leaf, level) == NodeAt(leaves + [leaf], ZERO, level, Shr(|leaves|, level))
  {
    if level > 0 {
      var n, below := |leaves|, level - 1;
      CarriedIsNode(leaves, leaf, depth, below);
      Increment(n, below);
      assert SlotsOf(leaves, depth)[below] == SlotOf(leaves, below);
      NodeAtPrefix(leaves + [leaf], leaves, n, ZERO, below, Shr(n, below) - 1);
    }
  }

  lemma SlotsAfterAt(slots: Slots, leaf: Fr, merged: nat, k: nat)
    requires merged < |slots| && k < |slots|
    ensures SlotsAfter(slots, leaf, merged)[k]
         == if k < merged then None else if k == merged then Some(Carried(slots, leaf, merged)) else slots[k]
  {}

  /** Above the merged run the append leaves bits and subtrees alone. */
  lemma SlotKept(leaves: seq<Fr>, leaf: Fr, k: nat)
    requires k > LowZero(|leaves|)
    ensures SlotOf(leaves + [leaf], k) == SlotOf(leaves, k)
  {
    hide NodeAt, LowZero, Shr;
    Increment(|leaves|, k);
    IncrementBits(|leaves|, k);
    assert |leaves + [leaf]| == |leaves| + 1;
    if Bit(|leaves|, k) {
      NodeAtPrefix(leaves + [leaf], leaves, |leaves|, ZERO, k, Shr(|leaves|, k) - 1);
    }
  }

  /** Below it every bit is cleared, and at its end the merged subtree is stored. */
  lemma SlotMerged(leaves: seq<Fr>, leaf: Fr, k: nat)
    requires k <= LowZero(|leaves|)
    ensures SlotOf(leaves + [leaf], k)
         == if k < LowZero(|leaves|) then None else Some(NodeAt(leaves + [leaf], ZERO, k, Shr(|leaves|, k)))
  {
    hide NodeAt, LowZero, Shr, Bit;
    Increment(|leaves|, k);
    IncrementBits(|leaves|, k);
    assert |leaves + [leaf]| == |leaves| + 1;
  }

  lemma SlotAfterAppend(leaves: seq<Fr>, leaf: Fr, depth: nat, k: nat)
    requires |leaves| < Pow2(depth) && LowZero(|leaves|) <= depth && k <= depth
    ensures SlotsAfter(SlotsOf(leaves, depth), leaf, LowZero(|leaves|))[k] == SlotOf(leaves + [leaf], k)
  {
    SlotsAfterAt(SlotsOf(leaves, depth), leaf, LowZero(|leaves|), k);
    if k <= LowZero(|leaves|) {
      SlotMerged(leaves, leaf, k);
      CarriedIsNode(leaves, leaf, depth, k);
    } else {
      SlotKept(leaves, leaf, k);
    }
  }

  /** Appending to the slots of a log gives the slots of the longer log. */
  lemma AppendRefines(leaves: seq<Fr>, leaf: Fr, depth: nat)
    requires |leaves| < Pow2(depth)
    ensures LowZero(|leaves|) <= depth
    ensures SlotsAfter(SlotsOf(leaves, depth), leaf, LowZero(|leaves|)) == SlotsOf(leaves + [leaf], depth)
  {
    LowZeroBound(|leaves|, depth);
    forall k | 0 <= k <= depth
      ensures SlotsAfter(SlotsOf(leaves, depth), leaf, LowZero(|leaves|))[k] == SlotOf(leaves + [leaf], k)
    {
      SlotAfterAppend(leaves, leaf, depth, k);
    }
  }

  lemma {:induction false} PathRootIsNode(leaves: seq<Fr>, depth: nat, level: nat)
    requires level <= depth
    ensures PathRoot(SlotsOf(leaves, depth), |leaves|, level) == NodeAt(leaves, ZERO, level, Shr(|leaves|, level))
  {
    if level > 0 {
      var n, below := |leaves|, level - 1;
      PathRootIsNode(leaves, depth, below);
      assert SlotsOf(leaves, depth)[below] == SlotOf(leaves, below);
      HalvesUpBounds(n, below);
      if !Bit(n, below) {
        EmptyNode(leaves, ZERO, below, Shr(n, below) + 1);
      }
    }
  }

  /** The frontier's root is the flat tree's root. */
  lemma RootRefines(leaves: seq<Fr>, depth: nat)
    requires |leaves| <= Pow2(depth)
    ensures SlotsRoot(SlotsOf(leaves, depth), |leaves|, depth) == Root(leaves, ZERO, depth)
  {
    if |leaves| == Pow2(depth) {
      FullBits(depth, depth);
      assert SlotsOf(leaves, depth)[depth] == SlotOf(leaves, depth);
    } else {
      ShrZero(|leaves|, depth);
      PathRootIsNode(leaves, depth, depth);
    }
  }

  /** The siblings read from the slots are the flat tree's, right after the append. */
  lemma SiblingsRefine(leaves: seq<Fr>, leaf: Fr, depth: nat)
    ensures SlotSiblings(SlotsOf(leaves, depth), |leaves|, depth) == Siblings(leaves + [leaf], ZERO, depth, |leaves|)
  {
    var n := |leaves|;
    forall level | 0 <= level < depth
      ensures SlotOr(SlotsOf(leaves, depth), n, level, ZeroRoot(ZERO, level)) == SiblingAt(leaves + [leaf], ZERO, n, level)
    {
      assert SlotsOf(leaves, depth)[level] == SlotOf(leaves, level);
      if Bit(n, level) {
        NodeAtPrefix(leaves + [leaf], leaves, n, ZERO, level, Shr(n, level) - 1);
      } else {
        HalvesUpSucc(n, level);
        EmptyNode(leaves + [leaf], ZERO, level, Shr(n, level) + 1);
      }
    }
  }

  lemma FrontierRefines(leaves: seq<Fr>, depth: nat)
    ensures SlotFrontier(SlotsOf(leaves, depth), |leaves|, depth) == FrontierRow(leaves, ZERO, depth)
  {
    forall level | 0 <= level < depth
      ensures SlotOr(SlotsOf(leaves, depth), |leaves|, level, ZERO) == NextFrontierAt(leaves, ZERO, level)
    {
      assert SlotsOf(leaves, depth)[level] == SlotOf(leaves, level);
    }
  }

  lemma SlotsOfMatch(leaves: seq<Fr>, depth: nat)
    requires |leaves| <= Pow2(depth)
    ensures SlotsMatch(SlotsOf(leaves, depth), |leaves|, depth)
  {}

  /** An append keeps the slots matched to the count, whatever the slots hold. */
  lemma AppendKeepsMatch(slots: Slots, count: nat, depth: nat, leaf: Fr)
    requires SlotsMatch(slots, count, depth) && count < Pow2(depth)
    ensures LowZero(count) <= depth
    ensures SlotsMatch(SlotsAfter(slots, leaf, LowZero(count)), count + 1, depth)
  {
    LowZeroBound(count, depth);
    forall k | 0 <= k <= depth
      ensures SlotsAfter(slots, leaf, LowZero(count))[k].Some? <==> Bit(count + 1, k)
    {
      IncrementBits(count, k);
      SlotsAfterAt(slots, leaf, LowZero(count), k);
    }
  }

  // ----- shards completed along the way -----

  /** The shard an append to `count` leaves completes, if any. */
  function Completion(slots: Slots, count: nat, leaf: Fr, shardHeight: nat): Option<CompletedShard>
    requires shardHeight <= |slots|
  {
    if shardHeight <= LowZero(count) then
      Some(CompletedShard(Shr(count, shardHeight), Carried(slots, leaf, shardHeight)))
    else None
  }

  /** The last whole shard of a log that ends on a shard boundary. */
  lemma LastShard(leaves: seq<Fr>, shardHeight: nat, shard: nat)
    requires (shard + 1) * Pow2(shardHeight) == |leaves|
    ensures shard * Pow2(shardHeight) <= |leaves|
    ensures NodeAt(leaves, ZERO, shardHeight, shard) == Root(leaves[shard * Pow2(shardHeight)..], ZERO, shardHeight)
  {
    assert (shard + 1) * Pow2(shardHeight) == shard * Pow2(shardHeight) + Pow2(shardHeight);
    ShardRoot(leaves, ZERO, shardHeight, shard);
    assert Chunk(leaves, shardHeight, shard) == leaves[shard * Pow2(shardHeight)..];
  }

  lemma MultipleIffRemainderless(n: nat, h: nat)
    ensures Shr(n, h) * Pow2(h) == n <==> n % Pow2(h) == 0
  {
    ShrIsDiv(n, h);
    assert n == (n / Pow2(h)) * Pow2(h) + n % Pow2(h);
  }

  /**
   A shard is emitted exactly when the new count is a multiple of `2^shardHeight`, and its
   root is the root of a tree over that shard's own leaves.
   */
  lemma CompletionRefines(leaves: seq<Fr>, leaf: Fr, depth: nat, shardHeight: nat)
    requires |leaves| < Pow2(depth) && shardHeight <= depth
    ensures var (grown, done) := (leaves + [leaf], Completion(SlotsOf(leaves, depth), |leaves|, leaf, shardHeight));
      && (done.Some? <==> |grown| % Pow2(shardHeight) == 0)
      && (done.Some? ==>
            && (done.value.shardIndex + 1) * Pow2(shardHeight) == |grown|
            && done.value.shardIndex * Pow2(shardHeight) <= |grown|
            && done.value.root == Root(grown[done.value.shardIndex * Pow2(shardHeight)..], ZERO, shardHeight))
  {
    var n, grown := |leaves|, leaves + [leaf];
    LowZeroBound(n, depth);
    LowZeroMultiple(n, shardHeight);
    MultipleIffRemainderless(n + 1, shardHeight);
    if shardHeight <= LowZero(n) {
      Increment(n, shardHeight);
      CarriedIsNode(leaves, leaf, depth, shardHeight);
      LastShard(grown, shardHeight, Shr(n, shardHeight));
    }
  }

  function SlotsAfterAll(slots: Slots, count: nat, leaves: seq<Fr>): (after: Slots)
    requires 0 < |slots| && count + |leaves| <= Pow2(|slots| - 1)
    ensures |after| == |slots|
  {
    if leaves == [] then slots
    else
      var last := |leaves| - 1;
      LowZeroBound(count + last, |slots| - 1);
      SlotsAfter(SlotsAfterAll(slots, count, leaves[..last]), leaves[last], LowZero(count + last))
  }

  function Reported(done: Option<CompletedShard>): seq<CompletedShard> {
    if done.Some? then [done.value] else []
  }

  /** The shards a run of appends completes, oldest first. */
  function CompletionsOf(slots: Slots, count: nat, leaves: seq<Fr>, shardHeight: nat): seq<CompletedShard>
    requires shardHeight < |slots| && count + |leaves| <= Pow2(|slots| - 1)
  {
    if leaves == [] then []
    else
      var last := |leaves| - 1;
      var done := Completion(SlotsAfterAll(slots, count, leaves[..last]), count + last, leaves[last], shardHeight);
      CompletionsOf(slots, count, leaves[..last], shardHeight) + Reported(done)
  }

  lemma BatchStep(slots: Slots, count: nat, leaves: seq<Fr>, i: nat, shardHeight: nat)
    requires shardHeight < |slots| && count + |leaves| <= Pow2(|slots| - 1) && i < |leaves|
    ensures LowZero(count + i) < |slots|
    ensures var before := SlotsAfterAll(slots, count, leaves[..i]);
      && SlotsAfterAll(slots, count, leaves[..i + 1]) == SlotsAfter(before, leaves[i], LowZero(count + i))
      && CompletionsOf(slots, count, leaves[..i + 1], shardHeight)
         == CompletionsOf(slots, count, leaves[..i], shardHeight) + Reported(Completion(before, count + i, leaves[i], shardHeight))
  {
    LowZeroBound(count + i, |slots| - 1);
    assert leaves[..i + 1][..i] == leaves[..i];
  }

  /** A batch refines the flat tree over the longer log. */
  lemma {:induction false} AppendAllRefines(leaves: seq<Fr>, more: seq<Fr>, depth: nat)
    requires |leaves| + |more| <= Pow2(depth)
    ensures SlotsAfterAll(SlotsOf(leaves, depth), |leaves|, more) == SlotsOf(leaves + more, depth)
  {
    if more == [] {
      assert leaves + more == leaves;
    } else {
      var last := |more| - 1;
      AppendAllRefines(leaves, more[..last], depth);
      AppendRefines(leaves + more[..last], more[last], depth);
      assert leaves + more[..last] + [more[last]] == leaves + more;
    }
  }

  /** The roots of shards `from..to` of a log. */
  function ShardList(leaves: seq<Fr>, shardHeight: nat, from: nat, to: nat): seq<CompletedShard>
    requires from <= to
  {
    seq(to - from, i requires 0 <= i => CompletedShard(from + i, NodeAt(leaves, ZERO, shardHeight, from + i)))
  }

  /** One more leaf leaves the earlier shards alone and adds the one it fills. */
  lemma ShardListExtends(leaves: seq<Fr>, leaf: Fr, depth: nat, shardHeight: nat, from: nat)
    requires |leaves| < Pow2(depth) && shardHeight <= depth && from <= Shr(|leaves|, shardHeight)
    ensures Shr(|leaves|, shardHeight) <= Shr(|leaves| + 1, shardHeight)
    ensures var done := Completion(SlotsOf(leaves, depth), |leaves|, leaf, shardHeight);
      ShardList(leaves + [leaf], shardHeight, from, Shr(|leaves| + 1, shardHeight))
      == ShardList(leaves, shardHeight, from, Shr(|leaves|, shardHeight)) + Reported(done)
  {
    hide NodeAt, LowZero, Shr, SlotsOf, Carried;
    var n, full := |leaves|, Shr(|leaves|, shardHeight);
    Increment(n, shardHeight);
    LowZeroBound(n, depth);
    if shardHeight <= LowZero(n) {
      CarriedIsNode(leaves, leaf, depth, shardHeight);
    }
    forall i | from <= i < full
      ensures NodeAt(leaves + [leaf], ZERO, shardHeight, i) == NodeAt(leaves, ZERO, shardHeight, i)
    {
      NodeAtPrefix(leaves + [leaf], leaves, n, ZERO, shardHeight, i);
    }
  }

  /** A batch emits exactly the shards it fills, each with its root in the final log. */
  lemma {:induction false} CompletionsRefine(leaves: seq<Fr>, more: seq<Fr>, depth: nat, shardHeight: nat)
    requires |leaves| + |more| <= Pow2(depth) && shardHeight <= depth
    ensures Shr(|leaves|, shardHeight) <= Shr(|leaves| + |more|, shardHeight)
    ensures CompletionsOf(SlotsOf(leaves, depth), |leaves|, more, shardHeight)
         == ShardList(leaves + more, shardHeight, Shr(|leaves|, shardHeight), Shr(|leaves| + |more|, shardHeight))
  {
    hide NodeAt, Shr, HalvesUp, SlotsAfter, Completion, SlotOf, Carried, LowZero, Bit;
    ShrMonotone(|leaves|, |leaves| + |more|, shardHeight);
    if more != [] {
      var last := |more| - 1;
      var grown := leaves + more[..last];
      CompletionsRefine(leaves, more[..last], depth, shardHeight);
      AppendAllRefines(leaves, more[..last], depth);
      ShardListExtends(grown, more[last], depth, shardHeight, Shr(|leaves|, shardHeight));
      assert grown + [more[last]] == leaves + more && |grown| == |leaves| + last;
      BatchStep(SlotsOf(leaves, depth), |leaves|, more, last, shardHeight);
      assert more[..last + 1] == more;
    }
  }

  // ----- the mutable frontier -----

  class NotesFrontier {
    const depth: nat
    const shardHeight: nat
    const zeroes: seq<Fr>
    var leafCount: nat
    var frontier: Slots

    ghost predicate Valid()
      reads this
    {
      && 0 < shardHeight < depth < USIZE_BITS
      && AreZeroes(zeroes, ZERO, depth + 1)
      && SlotsMatch(frontier, leafCount, depth)
    }

    /** The frontier left behind by the log `leaves`. */
    ghost predicate Represents(leaves: seq<Fr>)
      reads this
    {
      |leaves| == leafCount && frontier == SlotsOf(leaves, depth)
    }

    constructor (depth: nat, shardHeight: nat)
      requires 0 < shardHeight < depth < USIZE_BITS
      ensures Valid() && Represents([])
      ensures this.depth == depth && this.shardHeight == shardHeight
    {
      var z := ZeroRootsFrom(depth, ZERO);
      this.depth, this.shardHeight, zeroes := depth, shardHeight, z;
      leafCount, frontier := 0, seq(depth + 1, _ => None);
      new;
      forall k | 0 <= k <= depth
        ensures !Bit(0, k)
      {
        ShrZero(0, k);
      }
    }

    /** `clone`. */
    constructor Clone(other: NotesFrontier)
      requires other.Valid()
      ensures Valid() && leafCount == other.leafCount && frontier == other.frontier
      ensures depth == other.depth && shardHeight == other.shardHeight
    {
      depth, shardHeight, zeroes := other.depth, other.shardHeight, other.zeroes;
      leafCount, frontier := other.leafCount, other.frontier;
    }

    method GetRoot() returns (root: Fr)
      requires Valid()
      ensures root == SlotsRoot(frontier, leafCount, depth)
      ensures forall leaves | Represents(leaves) :: root == Root(leaves, ZERO, depth)
    {
      forall leaves | Represents(leaves)
        ensures SlotsRoot(frontier, leafCount, depth) == Root(leaves, ZERO, depth)
      {
        RootRefines(leaves, depth);
      }
      if leafCount == Pow2(depth) {
        return frontier[depth].UnwrapOr(zeroes[depth]);
      }
      var node, occupied := zeroes[0], leafCount;
      for level := 0 to depth
        invariant node == PathRoot(frontier, leafCount, level) && occupied == Shr(leafCount, level)
      {
        node := if occupied % 2 == 1 then Poseidon(frontier[level].UnwrapOr(zeroes[level]), node)
                else Poseidon(node, zeroes[level]);
        occupied := occupied / 2;
      }
      root := node;
    }

    /** Append one leaf, merging completed subtrees like the carry of a binary counter. */
    method Append(leaf: Fr) returns (r: Result<FrontierAppend>)
      requires Valid()
      modifies this
      ensures Valid()
      ensures r == if old(leafCount) < Pow2(depth)
        then Ok(FrontierAppend(old(leafCount), Completion(old(frontier), old(leafCount), leaf, shardHeight)))
        else Err(TreeFull(depth))
      ensures r.Err? ==> leafCount == old(leafCount) && frontier == old(frontier)
      ensures r.Ok? ==> leafCount == old(leafCount) + 1
      ensures r.Ok? ==> LowZero(old(leafCount)) <= depth && frontier == SlotsAfter(old(frontier), leaf, LowZero(old(leafCount)))
    {
      hide AreZeroes, Pow2, LowZero;
      if leafCount >= Pow2(depth) {
        return Err(TreeFull(depth));
      }
      ghost var slots := frontier;
      AppendKeepsMatch(slots, leafCount, depth, leaf);
      var cursor, node := leafCount, leaf;
      var completedShard := None;
      for level := 0 to depth + 1
        invariant level <= LowZero(leafCount) && cursor == Shr(leafCount, level)
        invariant node == Carried(slots, leaf, level)
        invariant frontier == Taken(slots, level)
        invariant completedShard == if shardHeight <= level then Completion(slots, leafCount, leaf, shardHeight) else None
        invariant leafCount == old(leafCount)
      {
        LowZeroStep(leafCount, level);
        TakeNext(slots, leaf, level);
        if cursor % 2 == 0 {
          frontier := frontier[level := Some(node)];
          break;
        }
        var left := frontier[level].value;
        frontier := frontier[level := None];
        node := Poseidon(left, node);
        cursor := cursor / 2;
        if level + 1 == shardHeight {
          completedShard := Some(CompletedShard(Shr(leafCount, shardHeight), node));
        }
      }
      leafCount := leafCount + 1;
      r := Ok(FrontierAppend(leafCount - 1, completedShard));
    }

    /** Append a batch; only the completed shards are reported. */
    method AppendMany(leaves: seq<Fr>) returns (r: Result<seq<CompletedShard>>)
      requires Valid()
      modifies this
      ensures Valid()
      ensures r.Ok? <==> old(leafCount) + |leaves| <= Pow2(depth)
      ensures r.Err? ==> r.error == TreeFull(depth) && leafCount == old(leafCount) && frontier == old(frontier)
      ensures r.Ok? ==>
        && leafCount == old(leafCount) + |leaves|
        && frontier == SlotsAfterAll(old(frontier), old(leafCount), leaves)
        && r.value == CompletionsOf(old(frontier), old(leafCount), leaves, shardHeight)
    {
      hide SlotsAfter, Completion, Shr, LowZero, AreZeroes;
      if |leaves| > Pow2(depth) - leafCount {
        return Err(TreeFull(depth));
      }
      ghost var slots, count := frontier, leafCount;
      var completed := [];
      for i := 0 to |leaves|
        invariant Valid() && leafCount == count + i
        invariant frontier == SlotsAfterAll(slots, count, leaves[..i])
        invariant completed == CompletionsOf(slots, count, leaves[..i], shardHeight)
      {
        BatchStep(slots, count, leaves, i, shardHeight);
        var appended := Append(leaves[i]);
        if appended.value.completedShard.Some? {
          completed := completed + [appended.value.completedShard.value];
        }
      }
      assert leaves[..|leaves|] == leaves;
      r := Ok(completed);
    }

    /** Append one leaf and return its siblings in the tree as it then stands. */
    method AppendWithSiblings(leaf: Fr) returns (r: Result<(FrontierAppend, seq<Fr>)>)
      requires Valid()
      modifies this
      ensures Valid()
      ensures r == if old(leafCount) < Pow2(depth)
        then Ok((FrontierAppend(old(leafCount), Completion(old(frontier), old(leafCount), leaf, shardHeight)),
                 SlotSiblings(old(frontier), old(leafCount), depth)))
        else Err(TreeFull(depth))
      ensures r.Err? ==> leafCount == old(leafCount) && frontier == old(frontier)
      ensures r.Ok? ==> leafCount == old(leafCount) + 1
      ensures r.Ok? ==> LowZero(old(leafCount)) <= depth && frontier == SlotsAfter(old(frontier), leaf, LowZero(old(leafCount)))
    {
      var siblings := [];
      for level := 0 to depth
        invariant |siblings| == level
        invariant forall l | 0 <= l < level :: siblings[l] == SlotOr(frontier, leafCount, l, ZeroRoot(ZERO, l))
      {
        siblings := siblings + [if Shr(leafCount, level) % 2 == 0 then zeroes[level] else frontier[level].value];
      }
      assert siblings == SlotSiblings(frontier, leafCount, depth);
      var appended :- Append(leaf);
      r := Ok((appended, siblings));
    }

    method NextLeafFrontier() returns (r: Result<seq<Fr>>)
      requires Valid()
      ensures r == if leafCount < Pow2(depth) then Ok(SlotFrontier(frontier, leafCount, depth)) else Err(TreeFull(depth))
    {
      if leafCount >= Pow2(depth) {
        return Err(TreeFull(depth));
      }
      var row := [];
      ghost var slots, count := frontier, leafCount;
      for level := 0 to depth
        invariant |row| == level
        invariant forall l | 0 <= l < level :: row[l] == SlotOr(slots, count, l, ZERO)
      {
        row := row + [if Shr(leafCount, level) % 2 == 0 then ZERO else frontier[level].value];
      }
      assert row == SlotFrontier(slots, count, depth);
      r := Ok(row);
    }
  }

  /** `new`: an empty frontier, or the first geometry check that fails. */
  method New(depth: nat, shardHeight: nat) returns (r: Result<NotesFrontier>)
    ensures r.Ok? <==> 0 < shardHeight < depth < USIZE_BITS
    ensures r.Err? ==>
      r.error == if shardHeight == 0 || shardHeight >= depth then InvalidGeometry(depth, shardHeight)
        else CapacityOverflow(if shardHeight >= USIZE_BITS then shardHeight else depth)
    ensures r.Ok? ==>
      && fresh(r.value) && r.value.Valid() && r.value.Represents([])
      && r.value.depth == depth && r.value.shardHeight == shardHeight
  {
    if shardHeight == 0 || shardHeight >= depth {
      return Err(InvalidGeometry(depth, shardHeight));
    }
    var _ :- TreeCapacity(shardHeight);
    var _ :- TreeCapacity(depth);
    var frontier := new NotesFrontier(depth, shardHeight);
    r := Ok(frontier);
  }
}
