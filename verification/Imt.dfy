/**
 The level-table incremental Merkle tree.

 `Valid()` pins the whole node table to the leaf row, so every method's
 `ensures Valid() && Leaves() == ...` says that the table equals the one a bulk
 build over the new leaf list would give.
 */
module IncrementalTree {
  import opened Binary
  import opened NodeHash
  import opened TreeErrors
  import opened InclusionProofs

  /** Stored row `level`: an empty tree of positive depth stores its root and nothing else. */
  function TableRow(leaves: seq<Fr>, zero: Fr, depth: nat, level: nat): seq<Fr> {
    if level == depth && depth > 0 && leaves == [] then [ZeroRoot(zero, depth)] else Row(leaves, zero, level)
  }

  ghost predicate IsTable(nodes: seq<seq<Fr>>, leaves: seq<Fr>, zero: Fr, depth: nat) {
    |nodes| == depth + 1 && forall level | 0 <= level <= depth :: nodes[level] == TableRow(leaves, zero, depth, level)
  }

  ghost predicate AreZeroes(zeroes: seq<Fr>, zero: Fr, count: nat) {
    |zeroes| == count && forall level | 0 <= level < count :: zeroes[level] == ZeroRoot(zero, level)
  }

  // ----- how one leaf changes the rows above it -----

  /** A node with only common leaves below it is common. */
  lemma {:induction false} NodeAtPrefix(a: seq<Fr>, b: seq<Fr>, n: nat, zero: Fr, level: nat, index: nat)
    requires n <= |a| && n <= |b| && a[..n] == b[..n]
    requires index < Shr(n, level)
    ensures NodeAt(a, zero, level, index) == NodeAt(b, zero, level, index)
  {
    if level == 0 {
      assert a[index] == a[..n][index] == b[..n][index] == b[index];
    } else {
      NodeAtPrefix(a, b, n, zero, level - 1, 2 * index);
      NodeAtPrefix(a, b, n, zero, level - 1, 2 * index + 1);
    }
  }

  /** A node off the path of leaf `k` does not see that leaf. */
  lemma {:induction false} NodeAtUpdate(leaves: seq<Fr>, k: nat, leaf: Fr, zero: Fr, level: nat, index: nat)
    requires k < |leaves| && index != Shr(k, level)
    ensures NodeAt(leaves[k := leaf], zero, level, index) == NodeAt(leaves, zero, level, index)
  {
    if level > 0 {
      NodeAtUpdate(leaves, k, leaf, zero, level - 1, 2 * index);
      NodeAtUpdate(leaves, k, leaf, zero, level - 1, 2 * index + 1);
    }
  }

  /** Rows over a longer log keep every node left of the old end's path. */
  lemma RowExtends(leaves: seq<Fr>, more: seq<Fr>, zero: Fr, level: nat)
    ensures Shr(|leaves|, level) <= HalvesUp(|leaves|, level)
    ensures Shr(|leaves|, level) <= HalvesUp(|leaves + more|, level)
    ensures Row(leaves + more, zero, level)[..Shr(|leaves|, level)] == Row(leaves, zero, level)[..Shr(|leaves|, level)]
  {
    HalvesUpBounds(|leaves|, level);
    HalvesUpBounds(|leaves + more|, level);
    ShrMonotone(|leaves|, |leaves + more|, level);
    forall i | 0 <= i < Shr(|leaves|, level)
      ensures NodeAt(leaves + more, zero, level, i) == NodeAt(leaves, zero, level, i)
    {
      NodeAtPrefix(leaves + more, leaves, |leaves|, zero, level, i);
    }
  }

  /** Placing the new ancestor at its index turns the old row into the new one. */
  lemma RowAfterInsert(leaves: seq<Fr>, leaf: Fr, zero: Fr, level: nat)
    ensures var index := Shr(|leaves|, level);
      var (row, grown) := (Row(leaves, zero, level), Row(leaves + [leaf], zero, level));
      && index <= |row| <= index + 1
      && |grown| == index + 1
      && row[..index] + [NodeAt(leaves + [leaf], zero, level, index)] == grown
  {
    HalvesUpBounds(|leaves|, level);
    HalvesUpSucc(|leaves|, level);
    RowExtends(leaves, [leaf], zero, level);
  }

  lemma ChangedRun(count: nat, more: nat, level: nat)
    ensures 2 * Shr(count, level + 1) <= HalvesUp(count + more, level)
    ensures Shr(count, level + 1) <= HalvesUp(count, level + 1)
    ensures count == 0 ==> Shr(count, level + 1) == 0
  {
    HalvesUpBounds(count, level + 1);
    HalvesUpBounds(count + more, level);
    ShrMonotone(count, count + more, level);
    ShrZero(0, level + 1);
  }

  /** The changed run of a row, from the first new node's parent on, replaces the old row's tail. */
  lemma RowAfterInsertMany(leaves: seq<Fr>, more: seq<Fr>, zero: Fr, depth: nat, level: nat)
    requires level < depth
    ensures var first := Shr(|leaves|, level + 1);
      var (below, row, grown) :=
        (Row(leaves + more, zero, level), TableRow(leaves, zero, depth, level + 1), Row(leaves + more, zero, level + 1));
      && 2 * first <= |below|
      && first <= |row|
      && row[..first] + ParentRow(below[2 * first..], ZeroRoot(zero, level)) == grown
  {
    var first := Shr(|leaves|, level + 1);
    ChangedRun(|leaves|, |more|, level);
    ParentOfRow(leaves + more, zero, level, first);
    RowExtends(leaves, more, zero, level + 1);
    var row, grown := TableRow(leaves, zero, depth, level + 1), Row(leaves + more, zero, level + 1);
    assert row[..first] == grown[..first];
    assert grown == grown[..first] + grown[first..];
  }

  lemma RowAfterUpdate(leaves: seq<Fr>, k: nat, leaf: Fr, zero: Fr, level: nat)
    requires k < |leaves|
    ensures var index := Shr(k, level);
      var row := Row(leaves, zero, level);
      && index < |row|
      && row[index := NodeAt(leaves[k := leaf], zero, level, index)] == Row(leaves[k := leaf], zero, level)
  {
    HalvesUpSucc(|leaves| - 1, level);
    ShrMonotone(k, |leaves| - 1, level);
    forall i | 0 <= i < HalvesUp(|leaves|, level) && i != Shr(k, level)
      ensures NodeAt(leaves[k := leaf], zero, level, i) == NodeAt(leaves, zero, level, i)
    {
      NodeAtUpdate(leaves, k, leaf, zero, level, i);
    }
  }

  lemma RowZero(leaves: seq<Fr>, zero: Fr)
    ensures Row(leaves, zero, 0) == leaves
  {}

  /** The single node of a non-empty tree's top row is the root. */
  lemma TopRow(leaves: seq<Fr>, zero: Fr, depth: nat)
    requires |leaves| <= Pow2(depth)
    ensures leaves != [] ==> Row(leaves, zero, depth) == [Root(leaves, zero, depth)]
    ensures leaves == [] ==> Root(leaves, zero, depth) == ZeroRoot(zero, depth) && Row(leaves, zero, depth) == []
  {
    HalvesUpTop(|leaves|, depth);
    if leaves == [] {
      EmptyNode(leaves, zero, depth, 0);
    }
  }

  /** `zero_roots_from`. */
  method ZeroRootsFrom(depth: nat, zero: Fr) returns (zeroes: seq<Fr>)
    ensures AreZeroes(zeroes, zero, depth + 1)
  {
    zeroes := [zero];
    for i := 0 to depth
      invariant AreZeroes(zeroes, zero, i + 1)
    {
      var last := zeroes[|zeroes| - 1];
      zeroes := zeroes + [Poseidon(last, last)];
    }
  }

  /** The node table of a bulk build, each row folded from the one below. */
  method BuildTable(depth: nat, zero: Fr, leaves: seq<Fr>) returns (nodes: seq<seq<Fr>>)
    requires |leaves| <= Pow2(depth)
    ensures IsTable(nodes, leaves, zero, depth)
  {
    var zeroes := ZeroRootsFrom(depth, zero);
    nodes := seq(depth + 1, _ => []);
    if depth != 0 {
      nodes := nodes[depth := [zeroes[depth]]];
    }
    if leaves == [] {
      forall level | 0 <= level <= depth
        ensures nodes[level] == TableRow(leaves, zero, depth, level)
      {
        HalvesUpOfZero(level);
      }
      return;
    }
    nodes := nodes[0 := leaves];
    RowZero(leaves, zero);
    for level := 0 to depth
      invariant |nodes| == depth + 1
      invariant forall l | 0 <= l <= level :: nodes[l] == TableRow(leaves, zero, depth, l)
    {
      ParentOfWholeRow(leaves, zero, level);
      nodes := nodes[level + 1 := ParentRow(nodes[level], zeroes[level])];
    }
  }

  /** `Vec::resize`: cut or pad with `fill` to exactly `len`. */
  function Resize(row: seq<Fr>, len: nat, fill: Fr): (resized: seq<Fr>)
    ensures |resized| == len
  {
    if len <= |row| then row[..len] else row + seq(len - |row|, _ => fill)
  }

  class Imt {
    const depth: nat
    const zeroLeaf: Fr
    const zeroes: seq<Fr>
    var nodes: seq<seq<Fr>>

    ghost predicate Valid()
      reads this
    {
      && depth < USIZE_BITS
      && AreZeroes(zeroes, zeroLeaf, depth)
      && 0 < |nodes| && |nodes[0]| <= Pow2(depth)
      && IsTable(nodes, nodes[0], zeroLeaf, depth)
    }

    function Leaves(): seq<Fr>
      requires 0 < |nodes|
      reads this
    {
      nodes[0]
    }

    /** `from_leaves_with_zero`; with no leaves, `new_with_zero`. Panics past the capacity. */
    constructor (depth: nat, zeroLeaf: Fr, leaves: seq<Fr>)
      requires depth < USIZE_BITS && |leaves| <= Pow2(depth)
      ensures Valid() && Leaves() == leaves
      ensures this.depth == depth && this.zeroLeaf == zeroLeaf
    {
      var table := BuildTable(depth, zeroLeaf, leaves);
      RowZero(leaves, zeroLeaf);
      var z := ZeroRootsFrom(depth, zeroLeaf);
      this.depth, this.zeroLeaf, this.zeroes := depth, zeroLeaf, z[..depth];
      nodes := table;
    }

    constructor Clone(other: Imt)
      requires other.Valid()
      ensures Valid() && Leaves() == other.Leaves()
      ensures depth == other.depth && zeroLeaf == other.zeroLeaf
    {
      depth, zeroLeaf, zeroes, nodes := other.depth, other.zeroLeaf, other.zeroes, other.nodes;
    }

    function LeafCount(): nat
      requires 0 < |nodes|
      reads this
    {
      |nodes[0]|
    }

    function Capacity(): Result<nat> {
      TreeCapacity(depth)
    }

    function Leaf(index: nat): Option<Fr>
      requires 0 < |nodes|
      reads this
    {
      if index < |nodes[0]| then Some(nodes[0][index]) else None
    }

    method GetRoot() returns (root: Fr)
      requires Valid()
      ensures root == Root(Leaves(), zeroLeaf, depth)
    {
      TopRow(Leaves(), zeroLeaf, depth);
      assert nodes[depth] == TableRow(Leaves(), zeroLeaf, depth, depth);
      root := if depth == 0 && nodes[0] == [] then zeroLeaf else nodes[depth][0];
    }

    /** Append one leaf. Panics, before changing anything, on a full tree. */
    method Insert(leaf: Fr)
      requires Valid() && LeafCount() < Pow2(depth)
      modifies this`nodes
      ensures Valid() && Leaves() == old(Leaves()) + [leaf]
    {
      hide HalvesUp, ZeroRoot, Row;
      ghost var leaves := Leaves();
      ghost var grown := leaves + [leaf];
      RowZero(leaves, zeroLeaf);
      RowZero(grown, zeroLeaf);
      var node, index := leaf, |nodes[0]|;
      for level := 0 to depth
        invariant |nodes| == depth + 1
        invariant index == Shr(|leaves|, level) && node == NodeAt(grown, zeroLeaf, level, index)
        invariant forall l | 0 <= l < level :: nodes[l] == Row(grown, zeroLeaf, l)
        invariant forall l | level <= l <= depth :: nodes[l] == TableRow(leaves, zeroLeaf, depth, l)
      {
        var start := index - index % 2;
        RowAfterInsert(leaves, leaf, zeroLeaf, level);
        var row := if index < |nodes[level]| then nodes[level][index := node]
                   else Resize(nodes[level], index, zeroes[level]) + [node];
        assert row == Row(grown, zeroLeaf, level);
        nodes := nodes[level := row];
        RowGet(grown, zeroLeaf, level, start);
        RowGet(grown, zeroLeaf, level, start + 1);
        node := Poseidon(Get(row, start, zeroes[level]), Get(row, start + 1, zeroes[level]));
        index := index / 2;
        assert start == 2 * index;
      }
      ShrZero(|leaves|, depth);
      TopRow(leaves, zeroLeaf, depth);
      TopRow(grown, zeroLeaf, depth);
      nodes := nodes[depth := if nodes[depth] == [] then [node] else nodes[depth][0 := node]];
      assert nodes[depth] == [node];
      assert nodes[0] == grown;
    }

    /** Append `leaves` in order, all or none, folding only the changed run of each row. */
    method InsertMany(leaves: seq<Fr>) returns (r: Result<()>)
      requires Valid()
      modifies this`nodes
      ensures Valid()
      ensures r == if old(LeafCount()) + |leaves| <= Pow2(depth) then Ok(()) else Err(TreeFull(depth))
      ensures r.Ok? ==> Leaves() == old(Leaves()) + leaves
      ensures r.Err? ==> nodes == old(nodes)
    {
      hide NodeAt, HalvesUp, ZeroRoot, Row;
      var capacity := Capacity().value; // never fails: Valid() keeps the depth constructible
      if |leaves| > capacity - LeafCount() {
        return Err(TreeFull(depth));
      }
      if leaves == [] {
        assert Leaves() + leaves == Leaves();
        return Ok(());
      }
      ghost var before := Leaves();
      ghost var grown := before + leaves;
      RowZero(grown, zeroLeaf);
      var first := LeafCount();
      nodes := nodes[0 := nodes[0] + leaves];
      for level := 0 to depth
        invariant |nodes| == depth + 1
        invariant first == Shr(|before|, level)
        invariant forall l | 0 <= l <= level :: nodes[l] == Row(grown, zeroLeaf, l)
        invariant forall l | level < l <= depth :: nodes[l] == TableRow(before, zeroLeaf, depth, l)
      {
        first := first / 2;
        RowAfterInsertMany(before, leaves, zeroLeaf, depth, level);
        var row := nodes[level + 1];
        var kept := if first <= |row| then row[..first] else row;
        nodes := nodes[level + 1 := kept + ParentRow(nodes[level][2 * first..], zeroes[level])];
      }
      r := Ok(());
    }

    /** Replace an existing leaf and re-hash only its path. */
    method Update(index: nat, leaf: Fr) returns (r: Result<()>)
      requires Valid()
      modifies this`nodes
      ensures Valid()
      ensures r == if index < old(LeafCount()) then Ok(()) else Err(LeafIndexOutOfRange(index, old(LeafCount())))
      ensures r.Ok? ==> Leaves() == old(Leaves())[index := leaf]
      ensures r.Err? ==> nodes == old(nodes)
    {
      hide HalvesUp, ZeroRoot, Row;
      if index >= LeafCount() {
        return Err(LeafIndexOutOfRange(index, LeafCount()));
      }
      ghost var before := Leaves();
      ghost var after := before[index := leaf];
      RowZero(after, zeroLeaf);
      nodes := nodes[0 := nodes[0][index := leaf]];
      var nodeIndex := index;
      for level := 0 to depth
        invariant |nodes| == depth + 1
        invariant nodeIndex == Shr(index, level)
        invariant forall l | 0 <= l <= level :: nodes[l] == Row(after, zeroLeaf, l)
        invariant forall l | level < l <= depth :: nodes[l] == Row(before, zeroLeaf, l)
      {
        var pairStart := nodeIndex - nodeIndex % 2;
        RowGet(after, zeroLeaf, level, pairStart);
        RowGet(after, zeroLeaf, level, pairStart + 1);
        var left := Get(nodes[level], pairStart, zeroes[level]);
        var right := Get(nodes[level], pairStart + 1, zeroes[level]);
        nodeIndex := nodeIndex / 2;
        assert pairStart == 2 * nodeIndex;
        RowAfterUpdate(before, index, leaf, zeroLeaf, level + 1);
        nodes := nodes[level + 1 := nodes[level + 1][nodeIndex := Poseidon(left, right)]];
      }
      r := Ok(());
    }

    /** Drop a suffix of the leaves and rebuild. */
    method Truncate(leafCount: nat) returns (r: Result<()>)
      requires Valid()
      modifies this`nodes
      ensures Valid()
      ensures r == if leafCount <= old(LeafCount()) then Ok(()) else Err(LeafIndexOutOfRange(leafCount, old(LeafCount())))
      ensures r.Ok? ==> Leaves() == old(Leaves())[..leafCount]
      ensures r.Err? ==> nodes == old(nodes)
    {
      var current := LeafCount();
      if leafCount > current {
        return Err(LeafIndexOutOfRange(leafCount, current));
      }
      var leaves := nodes[0][..leafCount];
      RowZero(leaves, zeroLeaf);
      nodes := BuildTable(depth, zeroLeaf, leaves);
      r := Ok(());
    }

    /** The finished left-hand nodes on the next free leaf's path, zero where it turns left. */
    method NextLeafFrontier() returns (r: Result<seq<Fr>>)
      requires Valid()
      ensures r == if LeafCount() < Pow2(depth) then Ok(FrontierRow(Leaves(), zeroLeaf, depth)) else Err(TreeFull(depth))
    {
      var index := LeafCount();
      var capacity := Capacity().value; // never fails: Valid() keeps the depth constructible
      if index >= capacity {
        return Err(TreeFull(depth));
      }
      ghost var leaves := Leaves();
      var row, position := [], index;
      for level := 0 to depth
        invariant |row| == level && position == Shr(index, level)
        invariant forall l | 0 <= l < level :: row[l] == NextFrontierAt(leaves, zeroLeaf, l)
      {
        HalvesUpBounds(index, level);
        row := row + [if position % 2 == 1 then nodes[level][position - 1] else ZERO];
        position := position / 2;
      }
      assert row == FrontierRow(leaves, zeroLeaf, depth);
      r := Ok(row);
    }

    /** Inclusion proof of a stored leaf. Panics on an index past the leaves. */
    method CreateProof(index: nat) returns (proof: InclusionProof)
      requires Valid() && index < LeafCount()
      ensures proof == ProofAt(Leaves(), zeroLeaf, depth, index)
    {
      var siblings, at := [], index;
      for level := 0 to depth
        invariant |siblings| == level && at == Shr(index, level)
        invariant forall l | 0 <= l < level :: siblings[l] == SiblingAt(Leaves(), zeroLeaf, index, l)
      {
        var sibling := if at % 2 == 0 then at + 1 else at - 1;
        RowGet(Leaves(), zeroLeaf, level, sibling);
        siblings := siblings + [Get(nodes[level], sibling, zeroes[level])];
        at := at / 2;
      }
      assert siblings == Siblings(Leaves(), zeroLeaf, depth, index);
      var root := GetRoot();
      proof := InclusionProof(nodes[0][index], index, siblings, root);
    }
  }

  /** Level `level` of the next free leaf's frontier. */
  function NextFrontierAt(leaves: seq<Fr>, zero: Fr, level: nat): Fr {
    if Bit(|leaves|, level) then NodeAt(leaves, zero, level, Shr(|leaves|, level) - 1) else ZERO
  }

  function FrontierRow(leaves: seq<Fr>, zero: Fr, depth: nat): seq<Fr> {
    seq(depth, level requires 0 <= level => NextFrontierAt(leaves, zero, level))
  }
}
