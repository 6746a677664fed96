/** The level-table tree with a reverse leaf index; duplicates are refused. */
module IndexedTree {
  import opened Binary
  import opened NodeHash
  import opened TreeErrors
  import opened InclusionProofs
  import opened IncrementalTree

  /** `indices` is the inverse of `leaves`; in particular no leaf occurs twice. */
  ghost predicate Indexes(indices: map<Fr, nat>, leaves: seq<Fr>) {
    && (forall i | 0 <= i < |leaves| :: leaves[i] in indices && indices[leaves[i]] == i)
    && (forall leaf | leaf in indices :: indices[leaf] < |leaves| && leaves[indices[leaf]] == leaf)
  }

  /** No leaf of the batch is in the tree or occurs twice in the batch. */
  ghost predicate Fresh(leaves: seq<Fr>, batch: seq<Fr>) {
    && (forall i | 0 <= i < |batch| :: batch[i] !in leaves)
    && (forall i, j | 0 <= i < j < |batch| :: batch[i] != batch[j])
  }

  class IndexedMerkleTree {
    const tree: Imt // the reference never changes; its node table does
    var indices: map<Fr, nat>

    ghost predicate Valid()
      reads this, tree
    {
      tree.Valid() && tree.zeroLeaf == ZERO && Indexes(indices, tree.Leaves())
    }

    constructor (depth: nat, leaves: seq<Fr>, indices: map<Fr, nat>)
      requires depth < USIZE_BITS && |leaves| <= Pow2(depth) && Indexes(indices, leaves)
      ensures Valid() && fresh(tree) && tree.depth == depth && tree.Leaves() == leaves
    {
      tree := new Imt(depth, ZERO, leaves);
      this.indices := indices;
    }

    /** `clone`. */
    constructor Clone(other: IndexedMerkleTree)
      requires other.Valid()
      ensures Valid() && fresh(tree) && tree.depth == other.tree.depth && tree.Leaves() == other.tree.Leaves()
    {
      tree := new Imt.Clone(other.tree);
      indices := other.indices;
    }

    method Insert(leaf: Fr) returns (r: Result<nat>)
      requires Valid()
      modifies this, tree
      ensures Valid()
      ensures r == if leaf in old(tree.Leaves()) then Err(DuplicateLeaf)
        else if |old(tree.Leaves())| >= Pow2(tree.depth) then Err(TreeFull(tree.depth))
        else Ok(|old(tree.Leaves())|)
      ensures tree.Leaves() == if r.Ok? then old(tree.Leaves()) + [leaf] else old(tree.Leaves())
    {
      hide AreZeroes, IsTable;
      if leaf in indices {
        return Err(DuplicateLeaf);
      }
      if tree.LeafCount() >= Pow2(tree.depth) {
        return Err(TreeFull(tree.depth));
      }
      var index := tree.LeafCount();
      tree.Insert(leaf);
      indices := indices[leaf := index];
      r := Ok(index);
    }

    /** Append a batch, all or none: capacity and every repeat are checked before anything changes. */
    method InsertMany(leaves: seq<Fr>) returns (r: Result<()>)
      requires Valid()
      modifies this, tree
      ensures Valid()
      ensures r.Ok? <==> |old(tree.Leaves())| + |leaves| <= Pow2(tree.depth) && Fresh(old(tree.Leaves()), leaves)
      ensures r.Err? ==>
        r.error == if |old(tree.Leaves())| + |leaves| > Pow2(tree.depth) then TreeFull(tree.depth) else DuplicateLeaf
      ensures tree.Leaves() == if r.Ok? then old(tree.Leaves()) + leaves else old(tree.Leaves())
    {
      hide AreZeroes, IsTable;
      if |leaves| > Pow2(tree.depth) - tree.LeafCount() {
        return Err(TreeFull(tree.depth));
      }
      var incoming: set<Fr> := {};
      for i := 0 to |leaves|
        invariant Fresh(tree.Leaves(), leaves[..i])
        invariant forall leaf :: leaf in incoming <==> leaf in leaves[..i]
      {
        if leaves[i] in indices || leaves[i] in incoming {
          assert leaves[i] in tree.Leaves() || exists j | 0 <= j < i :: leaves[j] == leaves[i];
          return Err(DuplicateLeaf);
        }
        incoming := incoming + {leaves[i]};
        assert leaves[..i + 1] == leaves[..i] + [leaves[i]];
      }
      assert leaves[..|leaves|] == leaves;
      var first := tree.LeafCount();
      ghost var before := tree.Leaves();
      var _ := tree.InsertMany(leaves);
      ghost var known := indices;
      for i := 0 to |leaves|
        invariant tree.Valid() && tree.Leaves() == before + leaves
        invariant Indexes(indices, before + leaves[..i])
      {
        assert before + leaves[..i + 1] == before + leaves[..i] + [leaves[i]];
        assert leaves[i] !in before && leaves[i] !in leaves[..i];
        indices := indices[leaves[i] := first + i];
      }
      assert leaves[..|leaves|] == leaves;
      r := Ok(());
    }

    method Truncate(leafCount: nat) returns (r: Result<()>)
      requires Valid()
      modifies this, tree
      ensures Valid()
      ensures r == if leafCount <= |old(tree.Leaves())| then Ok(())
        else Err(LeafIndexOutOfRange(leafCount, |old(tree.Leaves())|))
      ensures tree.Leaves() == if r.Ok? then old(tree.Leaves())[..leafCount] else old(tree.Leaves())
    {
      hide AreZeroes, IsTable;
      if leafCount > tree.LeafCount() {
        return Err(LeafIndexOutOfRange(leafCount, tree.LeafCount()));
      }
      ghost var before := tree.Leaves();
      var removed := tree.Leaves()[leafCount..];
      var _ := tree.Truncate(leafCount);
      var known := indices;
      for i := 0 to |removed|
        invariant tree.Valid() && tree.Leaves() == before[..leafCount]
        invariant indices == map leaf | leaf in known && leaf !in removed[..i] :: known[leaf]
      {
        assert removed[..i + 1] == removed[..i] + [removed[i]];
        indices := indices - {removed[i]};
      }
      assert removed[..|removed|] == removed;
      forall leaf | leaf in known
        ensures leaf in removed <==> leafCount <= known[leaf]
      {
        if leafCount <= known[leaf] {
          assert removed[known[leaf] - leafCount] == leaf;
        }
      }
      r := Ok(());
    }

    method CreateProof(leaf: Fr) returns (r: Result<InclusionProof>)
      requires Valid()
      ensures r.Ok? <==> leaf in tree.Leaves()
      ensures r.Err? ==> r.error == LeafNotFound
      ensures r.Ok? ==> r.value.leaf == leaf && r.value.index < |tree.Leaves()|
      ensures r.Ok? ==> r.value == ProofAt(tree.Leaves(), ZERO, tree.depth, r.value.index)
    {
      hide AreZeroes, IsTable;
      if leaf !in indices {
        return Err(LeafNotFound);
      }
      var proof := tree.CreateProof(indices[leaf]);
      r := Ok(proof);
    }
  }

  /** `new`: an empty tree of any depth whose capacity fits the index type. */
  method New(depth: nat) returns (r: Result<IndexedMerkleTree>)
    ensures r.Ok? <==> depth < USIZE_BITS
    ensures r.Err? ==> r.error == CapacityOverflow(depth)
    ensures r.Ok? ==>
      && fresh(r.value) && fresh(r.value.tree) && r.value.Valid()
      && r.value.tree.depth == depth && r.value.tree.Leaves() == []
  {
    var _ :- TreeCapacity(depth);
    var tree := new IndexedMerkleTree(depth, [], map[]);
    r := Ok(tree);
  }

  /** `from_leaves`: the leaves must fit the tree and be distinct. */
  method FromLeaves(depth: nat, leaves: seq<Fr>) returns (r: Result<IndexedMerkleTree>)
    ensures r.Ok? <==> depth < USIZE_BITS && |leaves| <= Pow2(depth) && Fresh([], leaves)
    ensures r.Err? ==>
      r.error == if depth >= USIZE_BITS then CapacityOverflow(depth)
        else if |leaves| > Pow2(depth) then TreeFull(depth) else DuplicateLeaf
    ensures r.Ok? ==>
      && fresh(r.value) && fresh(r.value.tree) && r.value.Valid()
      && r.value.tree.depth == depth && r.value.tree.Leaves() == leaves
  {
    hide Pow2;
    var capacity :- TreeCapacity(depth);
    if |leaves| > capacity {
      return Err(TreeFull(depth));
    }
    var indices: map<Fr, nat> := map[];
    for i := 0 to |leaves|
      invariant Indexes(indices, leaves[..i])
    {
      assert leaves[..i + 1] == leaves[..i] + [leaves[i]];
      if leaves[i] in indices {
        assert leaves[indices[leaves[i]]] == leaves[i] && indices[leaves[i]] < i;
        return Err(DuplicateLeaf);
      }
      indices := indices[leaves[i] := i];
    }
    assert leaves[..|leaves|] == leaves;
    var tree := new IndexedMerkleTree(depth, leaves, indices);
    r := Ok(tree);
  }
}
