/**
 Cutting a tree at a shard height: the part above the cut is a tree over the shard roots,
 and each shard is a tree of its own. The stateless `sharded_root` and `sharded_witness`
 are proved equal to the flat tree's root and proof.
 */
module Sharding {
  import opened Binary
  import opened NodeHash
  import opened TreeErrors
  import opened InclusionProofs
  import opened IncrementalTree

  function Min(a: nat, b: nat): nat {
    if a <= b then a else b
  }

  /** The leaves of shard `shard`, fewer than a full shard's at the end of the log. */
  function Chunk(leaves: seq<Fr>, height: nat, shard: nat): (chunk: seq<Fr>)
    ensures |chunk| <= Pow2(height)
  {
    var start := shard * Pow2(height);
    leaves[Min(start, |leaves|)..Min(start + Pow2(height), |leaves|)]
  }

  /** The position of a leaf inside its shard: `index & (2^height - 1)`. */
  function Within(index: nat, height: nat): (within: nat)
    ensures within < Pow2(height)
    ensures index == Shr(index, height) * Pow2(height) + within
  {
    ShrSplits(index, height);
    index - Shr(index, height) * Pow2(height)
  }

  lemma Stride(shard: nat, height: nat, level: nat)
    requires 0 < level <= height
    ensures Pow2(height - (level - 1)) == 2 * Pow2(height - level)
    ensures shard * Pow2(height - (level - 1)) == 2 * (shard * Pow2(height - level))
  {
    var p := Pow2(height - level);
    assert Pow2(height - (level - 1)) == 2 * p;
    assert shard * (2 * p) == 2 * (shard * p);
  }

  /** A node below the cut is a node of its own shard's tree. */
  lemma {:induction false} NodeInShard(leaves: seq<Fr>, zero: Fr, height: nat, shard: nat, level: nat, j: nat)
    requires level <= height && j < Pow2(height - level)
    ensures NodeAt(leaves, zero, level, shard * Pow2(height - level) + j) == NodeAt(Chunk(leaves, height, shard), zero, level, j)
  {
    if level > 0 {
      Stride(shard, height, level);
      NodeInShard(leaves, zero, height, shard, level - 1, 2 * j);
      NodeInShard(leaves, zero, height, shard, level - 1, 2 * j + 1);
    }
  }

  /** Node `shard` at the cut is that shard's own root. */
  lemma ShardRoot(leaves: seq<Fr>, zero: Fr, height: nat, shard: nat)
    ensures NodeAt(leaves, zero, height, shard) == Root(Chunk(leaves, height, shard), zero, height)
  {
    NodeInShard(leaves, zero, height, shard, height, 0);
  }

  lemma {:induction false} ZeroRootAbove(zero: Fr, height: nat, k: nat)
    ensures ZeroRoot(ZeroRoot(zero, height), k) == ZeroRoot(zero, height + k)
  {
    if k > 0 {
      ZeroRootAbove(zero, height, k - 1);
    }
  }

  /** The cap tree over the shard roots, padded with the empty shard's root, is the top of the flat tree. */
  lemma {:induction false} NodeInCap(leaves: seq<Fr>, zero: Fr, height: nat, k: nat, index: nat)
    ensures NodeAt(leaves, zero, height + k, index) == NodeAt(Row(leaves, zero, height), ZeroRoot(zero, height), k, index)
  {
    if k == 0 {
      RowGet(leaves, zero, height, index);
    } else {
      NodeInCap(leaves, zero, height, k - 1, 2 * index);
      NodeInCap(leaves, zero, height, k - 1, 2 * index + 1);
    }
  }

  lemma CapRoot(leaves: seq<Fr>, zero: Fr, height: nat, capDepth: nat)
    ensures Root(leaves, zero, height + capDepth) == Root(Row(leaves, zero, height), ZeroRoot(zero, height), capDepth)
  {
    NodeInCap(leaves, zero, height, capDepth, 0);
  }

  lemma HalfOfShifted(a: nat, w: nat)
    ensures (2 * a + w) / 2 == a + w / 2
  {}

  /** The ancestor of a leaf below the cut, as an ancestor inside its shard. */
  lemma {:induction false} ShrWithin(index: nat, height: nat, level: nat)
    requires level <= height
    ensures Shr(index, level) == Shr(index, height) * Pow2(height - level) + Shr(Within(index, height), level)
    ensures Shr(Within(index, height), level) < Pow2(height - level)
  {
    if level > 0 {
      ShrWithin(index, height, level - 1);
      Stride(Shr(index, height), height, level);
      HalfOfShifted(Shr(index, height) * Pow2(height - level), Shr(Within(index, height), level - 1));
    }
  }

  lemma SiblingOfShifted(a: nat, w: nat, p: nat)
    requires w < 2 * p
    ensures Sibling(2 * a + w) == 2 * a + Sibling(w)
    ensures Sibling(w) < 2 * p
  {}

  lemma SiblingInShard(leaves: seq<Fr>, zero: Fr, height: nat, index: nat, level: nat)
    requires level < height
    ensures SiblingAt(leaves, zero, index, level)
         == SiblingAt(Chunk(leaves, height, Shr(index, height)), zero, Within(index, height), level)
  {
    hide NodeAt, Shr, Pow2, Chunk;
    var q, w := Shr(index, height), Shr(Within(index, height), level);
    ShrWithin(index, height, level);
    Stride(q, height, level + 1);
    SiblingOfShifted(q * Pow2(height - level - 1), w, Pow2(height - level - 1));
    NodeInShard(leaves, zero, height, q, level, Sibling(w));
  }

  /** A flat path is the within-shard path followed by the cap path. */
  lemma SiblingsSplit(leaves: seq<Fr>, zero: Fr, height: nat, capDepth: nat, index: nat)
    ensures Siblings(leaves, zero, height + capDepth, index)
         == Siblings(Chunk(leaves, height, Shr(index, height)), zero, height, Within(index, height))
          + Siblings(Row(leaves, zero, height), ZeroRoot(zero, height), capDepth, Shr(index, height))
  {
    forall level | 0 <= level < height
      ensures SiblingAt(leaves, zero, index, level)
           == SiblingAt(Chunk(leaves, height, Shr(index, height)), zero, Within(index, height), level)
    {
      SiblingInShard(leaves, zero, height, index, level);
    }
    forall k | 0 <= k < capDepth
      ensures SiblingAt(leaves, zero, index, height + k)
           == SiblingAt(Row(leaves, zero, height), ZeroRoot(zero, height), Shr(index, height), k)
    {
      ShrShr(index, height, k);
      NodeInCap(leaves, zero, height, k, Sibling(Shr(index, height + k)));
    }
  }

  /** A shard holds a leaf exactly when it starts before the end of the log. */
  lemma ShardStarts(count: nat, height: nat, shard: nat)
    ensures shard < HalvesUp(count, height) <==> shard * Pow2(height) < count
  {
    if count == 0 {
      HalvesUpOfZero(height);
    } else {
      HalvesUpSucc(count - 1, height);
      ShrSplits(count - 1, height);
      if shard <= Shr(count - 1, height) {
        MulMonotone(shard, Shr(count - 1, height), Pow2(height));
      } else {
        MulMonotone(Shr(count - 1, height) + 1, shard, Pow2(height));
      }
    }
  }

  // ----- the stateless forms -----

  /** One root per shard, the last one possibly partial. */
  method ShardRoots(leaves: seq<Fr>, shardHeight: nat) returns (roots: seq<Fr>)
    requires shardHeight < USIZE_BITS
    ensures roots == Row(leaves, ZERO, shardHeight)
  {
    roots := [];
    ShardStarts(|leaves|, shardHeight, 0);
    while |roots| * Pow2(shardHeight) < |leaves|
      invariant |roots| <= HalvesUp(|leaves|, shardHeight)
      invariant roots == Row(leaves, ZERO, shardHeight)[..|roots|]
      decreases HalvesUp(|leaves|, shardHeight) - |roots|
    {
      ShardStarts(|leaves|, shardHeight, |roots|);
      var shard := new Imt(shardHeight, ZERO, Chunk(leaves, shardHeight, |roots|));
      var root := shard.GetRoot();
      ShardRoot(leaves, ZERO, shardHeight, |roots|);
      roots := roots + [root];
    }
    ShardStarts(|leaves|, shardHeight, |roots|);
  }

  method FoldPairs(level: seq<Fr>, zero: Fr) returns (next: seq<Fr>)
    ensures next == ParentRow(level, zero)
  {
    next := [];
    var i := 0;
    while i < |level|
      invariant i == 2 * |next| && |next| <= (|level| + 1) / 2
      invariant forall j | 0 <= j < |next| :: next[j] == ParentRow(level, zero)[j]
    {
      var right := if i + 1 < |level| then level[i + 1] else zero;
      next := next + [Poseidon(level[i], right)];
      i := i + 2;
    }
  }

  /** The cap, level by level: each level folds the one below pairwise. */
  method CapLevels(shardRoots: seq<Fr>, zeroes: seq<Fr>, shardHeight: nat, capDepth: nat, ghost leaves: seq<Fr>)
    returns (levels: seq<seq<Fr>>)
    requires AreZeroes(zeroes, ZERO, shardHeight + capDepth + 1)
    requires shardRoots == Row(leaves, ZERO, shardHeight)
    ensures |levels| == capDepth + 1
    ensures forall k | 0 <= k <= capDepth :: levels[k] == Row(leaves, ZERO, shardHeight + k)
  {
    levels := [shardRoots];
    for k := 0 to capDepth
      invariant |levels| == k + 1
      invariant forall l | 0 <= l <= k :: levels[l] == Row(leaves, ZERO, shardHeight + l)
    {
      var next := FoldPairs(levels[k], zeroes[shardHeight + k]);
      ParentOfWholeRow(leaves, ZERO, shardHeight + k);
      levels := levels + [next];
    }
  }

  /** `sharded_root`: equal to the flat tree's root over the same leaves. */
  method ShardedRoot(leaves: seq<Fr>, depth: nat, shardHeight: nat) returns (root: Fr)
    requires shardHeight <= depth && shardHeight < USIZE_BITS
    ensures root == Root(leaves, ZERO, depth)
  {
    var zeroes := ZeroRootsFrom(depth, ZERO);
    var roots := ShardRoots(leaves, shardHeight);
    var levels := CapLevels(roots, zeroes, shardHeight, depth - shardHeight, leaves);
    var top := levels[depth - shardHeight];
    RowGet(leaves, ZERO, depth, 0);
    root := if top == [] then zeroes[depth] else top[0];
  }

  /** The siblings of a shard in the cap. */
  method CapPath(levels: seq<seq<Fr>>, zeroes: seq<Fr>, shardHeight: nat, capDepth: nat, shard: nat, ghost leaves: seq<Fr>)
    returns (siblings: seq<Fr>)
    requires AreZeroes(zeroes, ZERO, shardHeight + capDepth + 1)
    requires |levels| == capDepth + 1
    requires forall k | 0 <= k <= capDepth :: levels[k] == Row(leaves, ZERO, shardHeight + k)
    ensures siblings == Siblings(Row(leaves, ZERO, shardHeight), ZeroRoot(ZERO, shardHeight), capDepth, shard)
  {
    siblings := [];
    var index := shard;
    for k := 0 to capDepth
      invariant index == Shr(shard, k) && |siblings| == k
      invariant forall l | 0 <= l < k ::
        siblings[l] == SiblingAt(Row(leaves, ZERO, shardHeight), ZeroRoot(ZERO, shardHeight), shard, l)
    {
      var row, sibling := levels[k], Sibling(index);
      RowGet(leaves, ZERO, shardHeight + k, sibling);
      NodeInCap(leaves, ZERO, shardHeight, k, sibling);
      siblings := siblings + [if sibling < |row| then row[sibling] else zeroes[shardHeight + k]];
      index := index / 2;
    }
  }

  /** `sharded_witness`: the within-shard path glued to the cap path, equal to the flat proof. */
  method ShardedWitness(leaves: seq<Fr>, leafIndex: nat, depth: nat, shardHeight: nat) returns (proof: InclusionProof)
    requires shardHeight <= depth && shardHeight < USIZE_BITS
    requires leafIndex < |leaves|
    ensures proof == ProofAt(leaves, ZERO, depth, leafIndex)
  {
    var zeroes := ZeroRootsFrom(depth, ZERO);
    var capDepth := depth - shardHeight;
    var shardIndex, within := Shr(leafIndex, shardHeight), Within(leafIndex, shardHeight);
    var shard := new Imt(shardHeight, ZERO, Chunk(leaves, shardHeight, shardIndex));
    var local := shard.CreateProof(within);
    var roots := ShardRoots(leaves, shardHeight);
    var levels := CapLevels(roots, zeroes, shardHeight, capDepth, leaves);
    var capPath := CapPath(levels, zeroes, shardHeight, capDepth, shardIndex, leaves);
    SiblingsSplit(leaves, ZERO, shardHeight, capDepth, leafIndex);
    var top := levels[capDepth];
    RowGet(leaves, ZERO, depth, 0);
    proof := InclusionProof(leaves[leafIndex], leafIndex, local.siblings + capPath, if top == [] then zeroes[depth] else top[0]);
  }
}
