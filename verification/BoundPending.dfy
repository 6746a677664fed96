/**
 The calldata-bound pending commitment: one pass from the tree's frontier instead of a path per
 note. What it states is determined by the frontier row, and a row that reproduces the current
 root leads to the one true new root.
 */
module BoundPendingCommitments {
  import opened Binary
  import opened NodeHash
  import opened TreeErrors
  import opened InclusionProofs
  import opened IncrementalTree
  import opened IndexedTree
  import opened AppendFrontier
  import opened PendingCommitments

  datatype Bound = Bound(
    currentNoteIndex: nat,
    currentNotesRoot: Fr,
    pendingNoteIds: seq<Fr>,
    frontier: seq<Fr>,
    newNotesRoot: Fr,
    newNoteIndex: nat)
  {
    /** `note_ids`: what is posted, the batch without its padding. */
    function NoteIds(): seq<Fr>
      requires currentNoteIndex <= newNoteIndex <= currentNoteIndex + |pendingNoteIds|
    {
      pendingNoteIds[..newNoteIndex - currentNoteIndex]
    }
  }

  datatype BoundError =
    | InvalidBatchSize(batchSize: nat)
    | NoNotes
    | TooManyNotes(count: nat, batchSize: nat)
    | ZeroNoteId
    | DuplicateNoteId
    | TreeError(error: TreeError)

  datatype BoundResult = Committed(bound: Bound) | Rejected(error: BoundError)

  /** The commitment of a batch over a leaf log. */
  function BoundCommit(leaves: seq<Fr>, depth: nat, batchSize: nat, ids: seq<Fr>): Bound
    requires |ids| <= batchSize
  {
    Bound(|leaves|, Root(leaves, ZERO, depth), Padded(ids, batchSize), FrontierRow(leaves, ZERO, depth),
          Root(leaves + ids, ZERO, depth), |leaves| + |ids|)
  }

  /** What is wrong with a batch before any tree is looked at, in the order it is looked for. */
  ghost function BatchFault(batchSize: nat, ids: seq<Fr>): Option<BoundError> {
    if !(1 <= batchSize <= MAX_PENDING_BATCH_SIZE) then Some(InvalidBatchSize(batchSize))
    else if ids == [] then Some(NoNotes)
    else if |ids| > batchSize then Some(TooManyNotes(|ids|, batchSize))
    else if ZERO in ids then Some(ZeroNoteId)
    else if !Distinct(ids) then Some(DuplicateNoteId)
    else None
  }

  method CheckBatch(batchSize: nat, ids: seq<Fr>) returns (fault: Option<BoundError>)
    ensures fault == BatchFault(batchSize, ids)
  {
    if !(1 <= batchSize <= MAX_PENDING_BATCH_SIZE) {
      return Some(InvalidBatchSize(batchSize));
    }
    if ids == [] {
      return Some(NoNotes);
    }
    if |ids| > batchSize {
      return Some(TooManyNotes(|ids|, batchSize));
    }
    if ZERO in ids {
      return Some(ZeroNoteId);
    }
    var seen: set<Fr> := {};
    for i := 0 to |ids|
      invariant Distinct(ids[..i])
      invariant forall id :: id in seen <==> id in ids[..i]
    {
      DistinctSnoc(ids[..i], ids[i]);
      assert ids[..i + 1] == ids[..i] + [ids[i]];
      DistinctPrefix(ids[..i + 1], ids);
      if ids[i] in seen {
        return Some(DuplicateNoteId);
      }
      seen := seen + {ids[i]};
    }
    assert ids[..|ids|] == ids;
    fault := None;
  }

  /** `build_bound_pending_commitment` over the indexed tree, which changes only on success. */
  method BuildBoundIndexed(tree: IndexedMerkleTree, batchSize: nat, ids: seq<Fr>) returns (r: BoundResult)
    requires tree.Valid()
    modifies tree, tree.tree
    ensures tree.Valid()
    ensures var leaves, fault, depth := old(tree.tree.Leaves()), BatchFault(batchSize, ids), tree.tree.depth;
      r == if fault.Some? then Rejected(fault.value)
        else if |leaves| + |ids| > Pow2(depth) then Rejected(TreeError(TreeFull(depth)))
        else if exists id :: id in ids && id in leaves then Rejected(TreeError(DuplicateLeaf))
        else Committed(BoundCommit(leaves, depth, batchSize, ids))
    ensures tree.tree.Leaves() == if r.Committed? then old(tree.tree.Leaves()) + ids else old(tree.tree.Leaves())
  {
    hide AreZeroes, IsTable, Root, Pow2;
    var fault := CheckBatch(batchSize, ids);
    if fault.Some? {
      return Rejected(fault.value);
    }
    var padded := ids + seq(batchSize - |ids|, _ => ZERO);
    var currentRoot := tree.tree.GetRoot();
    var currentIndex := tree.tree.LeafCount();
    var frontier := tree.tree.NextLeafFrontier();
    if frontier.Err? {
      return Rejected(TreeError(frontier.error));
    }
    FreshIff(tree.tree.Leaves(), ids);
    var appended := tree.InsertMany(ids);
    if appended.Err? {
      return Rejected(TreeError(appended.error));
    }
    var newRoot := tree.tree.GetRoot();
    r := Committed(Bound(currentIndex, currentRoot, padded, frontier.value, newRoot, tree.tree.LeafCount()));
  }

  lemma FreshIff(leaves: seq<Fr>, ids: seq<Fr>)
    requires Distinct(ids)
    ensures Fresh(leaves, ids) <==> !exists id :: id in ids && id in leaves
  {
    if Fresh(leaves, ids) {
      forall id | id in ids
        ensures id !in leaves
      {
        var i :| 0 <= i < |ids| && ids[i] == id;
      }
    }
  }

  /** The same over the append frontier, which can refuse only a batch that does not fit. */
  method BuildBoundFrontier(frontier: NotesFrontier, batchSize: nat, ids: seq<Fr>) returns (r: BoundResult)
    requires frontier.Valid()
    modifies frontier
    ensures frontier.Valid()
    ensures var count, fault := old(frontier.leafCount), BatchFault(batchSize, ids);
      && (r.Committed? <==> fault.None? && count + |ids| <= Pow2(frontier.depth))
      && (r.Rejected? ==> r.error == if fault.Some? then fault.value else TreeError(TreeFull(frontier.depth)))
    ensures r.Rejected? ==> frontier.leafCount == old(frontier.leafCount) && frontier.frontier == old(frontier.frontier)
    ensures r.Committed? ==> forall leaves | old(frontier.Represents(leaves)) ::
      r.bound == BoundCommit(leaves, frontier.depth, batchSize, ids) && frontier.Represents(leaves + ids)
  {
    hide AreZeroes, Root, Pow2, SlotsAfterAll, SlotsOf, SlotsRoot, CompletionsOf, SlotFrontier;
    var fault := CheckBatch(batchSize, ids);
    if fault.Some? {
      return Rejected(fault.value);
    }
    var padded := ids + seq(batchSize - |ids|, _ => ZERO);
    var currentRoot := frontier.GetRoot();
    var currentIndex := frontier.leafCount;
    var row := frontier.NextLeafFrontier();
    if row.Err? {
      return Rejected(TreeError(row.error));
    }
    ghost var slots := frontier.frontier;
    var work := new NotesFrontier.Clone(frontier);
    var appended := work.AppendMany(ids);
    if appended.Err? {
      return Rejected(TreeError(appended.error));
    }
    frontier.frontier, frontier.leafCount := work.frontier, work.leafCount;
    var newRoot := frontier.GetRoot();
    r := Committed(Bound(currentIndex, currentRoot, padded, row.value, newRoot, frontier.leafCount));
    forall leaves | |leaves| == currentIndex && slots == SlotsOf(leaves, frontier.depth)
      ensures r.bound == BoundCommit(leaves, frontier.depth, batchSize, ids) && frontier.Represents(leaves + ids)
    {
      RootRefines(leaves, frontier.depth);
      RootRefines(leaves + ids, frontier.depth);
      FrontierRefines(leaves, frontier.depth);
      AppendAllRefines(leaves, ids, frontier.depth);
    }
  }

  /** Posting a commitment's note ids and padding them again gives back its words. */
  lemma NoteIdsArePosted(leaves: seq<Fr>, depth: nat, batchSize: nat, ids: seq<Fr>)
    requires |ids| <= batchSize
    ensures var bound := BoundCommit(leaves, depth, batchSize, ids);
      bound.NoteIds() == ids && Padded(bound.NoteIds(), batchSize) == bound.pendingNoteIds
  {
    assert Padded(ids, batchSize)[..|ids|] == ids;
  }

  // ----- one pass from the frontier row -----

  /** The slots a frontier row stands for at a next index inside the tree. */
  function SlotsOfRow(row: seq<Fr>, index: nat): (slots: Slots)
    ensures |slots| == |row| + 1
  {
    seq(|row| + 1, k requires 0 <= k => if k < |row| && Bit(index, k) then Some(row[k]) else None)
  }

  /** The current root the circuit computes from the row. */
  function RowRoot(row: seq<Fr>, index: nat): Fr {
    SlotsRoot(SlotsOfRow(row, index), index, |row|)
  }

  /** The new root it computes: the row's slots with the ids appended. */
  function RowRootAfter(row: seq<Fr>, index: nat, ids: seq<Fr>): Fr
    requires index + |ids| <= Pow2(|row|)
  {
    SlotsRoot(SlotsAfterAll(SlotsOfRow(row, index), index, ids), index + |ids|, |row|)
  }

  /** Where the next leaf's path turns right, the row holds the tree's node on its left. */
  predicate RowEntryOk(leaves: seq<Fr>, row: seq<Fr>, k: nat)
    requires k < |row|
  {
    Bit(|leaves|, k) ==> row[k] == NextFrontierAt(leaves, ZERO, k)
  }

  /** Such a row of a tree with room carries all its slots. */
  lemma RowHoldsSlots(leaves: seq<Fr>, row: seq<Fr>)
    requires |leaves| < Pow2(|row|)
    requires forall k | 0 <= k < |row| :: RowEntryOk(leaves, row, k)
    ensures SlotsOfRow(row, |leaves|) == SlotsOf(leaves, |row|)
  {
    hide NodeAt, Shr, Pow2, Bit, RowEntryOk;
    NoTopBit(|leaves|, |row|);
    forall k | 0 <= k <= |row|
      ensures SlotsOfRow(row, |leaves|)[k] == SlotsOf(leaves, |row|)[k]
    {
      if k < |row| {
        RowSlot(leaves, row, k);
      }
    }
  }

  lemma RowSlot(leaves: seq<Fr>, row: seq<Fr>, k: nat)
    requires k < |row| && RowEntryOk(leaves, row, k)
    ensures SlotsOfRow(row, |leaves|)[k] == SlotsOf(leaves, |row|)[k]
  {
    hide NodeAt, Shr, Bit;
    assert SlotsOf(leaves, |row|)[k] == SlotOf(leaves, k);
  }

  lemma NoTopBit(n: nat, depth: nat)
    requires n < Pow2(depth)
    ensures !Bit(n, depth)
  {
    ShrZero(n, depth);
  }

  /** Completeness: from a tree's own frontier row the one pass computes its root and its next root. */
  lemma RowComputes(leaves: seq<Fr>, depth: nat, ids: seq<Fr>)
    requires |leaves| < Pow2(depth) && |leaves| + |ids| <= Pow2(depth)
    ensures var row := FrontierRow(leaves, ZERO, depth);
      && RowRoot(row, |leaves|) == Root(leaves, ZERO, depth)
      && RowRootAfter(row, |leaves|, ids) == Root(leaves + ids, ZERO, depth)
  {
    hide NodeAt, Shr, Root, SlotsRoot, SlotsAfterAll, SlotsOf, SlotsOfRow;
    RowHoldsSlots(leaves, FrontierRow(leaves, ZERO, depth));
    RootRefines(leaves, depth);
    AppendAllRefines(leaves, ids, depth);
    RootRefines(leaves + ids, depth);
  }

  /** A commitment passes its own check: one pass over the row and the posted ids yields its two roots and its next index. */
  lemma CommitmentComputes(leaves: seq<Fr>, depth: nat, batchSize: nat, ids: seq<Fr>)
    requires |ids| <= batchSize && |leaves| < Pow2(depth) && |leaves| + |ids| <= Pow2(depth)
    ensures var bound := BoundCommit(leaves, depth, batchSize, ids);
      && |bound.frontier| == depth && bound.currentNoteIndex + |bound.NoteIds()| == bound.newNoteIndex <= Pow2(depth)
      && RowRoot(bound.frontier, bound.currentNoteIndex) == bound.currentNotesRoot
      && RowRootAfter(bound.frontier, bound.currentNoteIndex, bound.NoteIds()) == bound.newNotesRoot
  {
    hide Root, RowRoot, RowRootAfter, Pow2;
    NoteIdsArePosted(leaves, depth, batchSize, ids);
    RowComputes(leaves, depth, ids);
  }

  /** Trees that agree on frontier row and next index agree on the current root and every new one. */
  lemma FrontierDetermines(a: seq<Fr>, b: seq<Fr>, depth: nat, ids: seq<Fr>)
    requires |a| == |b| < Pow2(depth) && |a| + |ids| <= Pow2(depth)
    requires FrontierRow(a, ZERO, depth) == FrontierRow(b, ZERO, depth)
    ensures Root(a, ZERO, depth) == Root(b, ZERO, depth)
    ensures Root(a + ids, ZERO, depth) == Root(b + ids, ZERO, depth)
  {
    hide Root, FrontierRow, RowRoot, RowRootAfter;
    RowComputes(a, depth, ids);
    RowComputes(b, depth, ids);
  }

  /** The current root is the climb from the empty slot along the row's siblings. */
  lemma {:induction false} PathIsFold(slots: Slots, index: nat, depth: nat, level: nat)
    requires |slots| == depth + 1 && level <= depth
    ensures Fold(ZERO, index, SlotSiblings(slots, index, depth)[..level]) == PathRoot(slots, index, level)
  {
    if level > 0 {
      PathIsFold(slots, index, depth, level - 1);
      var siblings := SlotSiblings(slots, index, depth);
      assert siblings[..level][..level - 1] == siblings[..level - 1];
    }
  }

  /**
   Soundness: a row that reproduces a tree's current root at its next index leads to the root of
   that tree with the ids appended, whatever else the row holds, or exhibits a hash collision.
   */
  lemma FrontierBinds(leaves: seq<Fr>, row: seq<Fr>, ids: seq<Fr>) returns (c: Option<Collision>)
    requires |leaves| < Pow2(|row|) && |leaves| + |ids| <= Pow2(|row|)
    requires RowRoot(row, |leaves|) == Root(leaves, ZERO, |row|)
    ensures c.Some? ==> c.value.Valid()
    ensures c.None? ==> RowRootAfter(row, |leaves|, ids) == Root(leaves + ids, ZERO, |row|)
  {
    hide NodeAt, Shr, Root, SlotsAfterAll, Fold, SlotsOf;
    var depth, index := |row|, |leaves|;
    var climb := SlotSiblings(SlotsOfRow(row, index), index, depth);
    PathIsFold(SlotsOfRow(row, index), index, depth, depth);
    assert climb[..depth] == climb;
    c := RowBinding(leaves, ZERO, depth, climb);
    if c.None? {
      forall k | 0 <= k < depth
        ensures RowEntryOk(leaves, row, k)
      {
        assert climb[k] == SiblingAt(leaves, ZERO, index, k);
      }
      RowHoldsSlots(leaves, row);
      AppendAllRefines(leaves, ids, depth);
      RootRefines(leaves + ids, depth);
    }
  }
}
