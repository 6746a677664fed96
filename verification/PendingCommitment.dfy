/**
 Pending-note commitments: the sibling rows and roots a circuit uses to step from the
 current notes root to the next one, and what accepting them proves.
 */
module PendingCommitments {
  import opened Binary
  import opened NodeHash
  import opened TreeErrors
  import opened InclusionProofs
  import opened IncrementalTree
  import opened IndexedTree
  import opened AppendFrontier
  import opened InputHashes
  import opened Bytes
  import opened FieldCodec
  import Sha256

  datatype Pending = Pending(
    currentNoteIndex: nat,
    currentNotesRoot: Fr,
    pendingNoteIds: seq<Fr>,
    siblings: seq<seq<Fr>>,
    newNotesRoot: Fr,
    newNoteIndex: nat,
    inputHash: nat)
  {
    /** The words the circuit is bound to: the padded ids, both roots and both indices. */
    function Words(): seq<nat> {
      WordsOf(pendingNoteIds, currentNotesRoot, newNotesRoot, currentNoteIndex, newNoteIndex)
    }
  }

  function WordsOf(padded: seq<Fr>, currentRoot: Fr, newRoot: Fr, currentIndex: nat, newIndex: nat): seq<nat> {
    Values(padded) + [currentRoot.value, newRoot.value, currentIndex, newIndex]
  }

  const MAX_PENDING_BATCH_SIZE: nat := 4096

  /** The ids that are inserted; zero ids are skip slots. */
  function NonZero(ids: seq<Fr>): (kept: seq<Fr>)
    ensures |kept| <= |ids|
  {
    if ids == [] then []
    else NonZero(ids[..|ids| - 1]) + if ids[|ids| - 1] == ZERO then [] else [ids[|ids| - 1]]
  }

  function Padded(ids: seq<Fr>, size: nat): (padded: seq<Fr>)
    requires |ids| <= size
    ensures |padded| == size
  {
    ids + seq(size - |ids|, _ => ZERO)
  }

  function ZeroRow(depth: nat): seq<Fr> {
    seq(depth, _ => ZERO)
  }

  /** The row of slot `i`: the inserted id's siblings right after its insertion, or zeros. */
  function RowsOf(leaves: seq<Fr>, zero: Fr, depth: nat, ids: seq<Fr>): (rows: seq<seq<Fr>>)
    ensures |rows| == |ids|
  {
    if ids == [] then []
    else
      var last := |ids| - 1;
      var before := leaves + NonZero(ids[..last]);
      RowsOf(leaves, zero, depth, ids[..last])
      + [if ids[last] == ZERO then ZeroRow(depth) else Siblings(before + [ids[last]], zero, depth, |before|)]
  }

  /** The commitment over a leaf log. */
  function Commit(leaves: seq<Fr>, zero: Fr, depth: nat, padded: seq<Fr>): Pending {
    var after := leaves + NonZero(padded);
    Pending(|leaves|, Root(leaves, zero, depth), padded, RowsOf(leaves, zero, depth, padded), Root(after, zero, depth), |after|,
            InputHash(WordsOf(padded, Root(leaves, zero, depth), Root(after, zero, depth), |leaves|, |after|)))
  }

  lemma {:induction false} NonZeroOfPadded(ids: seq<Fr>, size: nat)
    requires |ids| <= size
    ensures NonZero(Padded(ids, size)) == NonZero(ids)
    decreases size
  {
    if |ids| < size {
      NonZeroOfPadded(ids, size - 1);
      assert Padded(ids, size)[..size - 1] == Padded(ids, size - 1);
    } else {
      assert Padded(ids, size) == ids;
    }
  }

  lemma {:induction false} NonZeroPrefix(ids: seq<Fr>, n: nat)
    requires n <= |ids|
    ensures NonZero(ids[..n]) <= NonZero(ids)
    decreases |ids|
  {
    if n < |ids| {
      NonZeroPrefix(ids[..|ids| - 1], n);
      assert ids[..|ids| - 1][..n] == ids[..n];
    } else {
      assert ids[..n] == ids;
    }
  }

  // ----- the circuit's view -----

  /** One slot: a zero id is skipped; otherwise the row must open the empty slot under the current root. */
  function SlotStep(zero: Fr, depth: nat, state: Option<(Fr, nat)>, id: Fr, row: seq<Fr>): Option<(Fr, nat)> {
    if state.None? then None
    else
      var (root, index) := state.value;
      if id == ZERO then Some((root, index))
      else if |row| == depth && index < Pow2(depth) && Fold(zero, index, row) == root then
        Some((Fold(id, index, row), index + 1))
      else None
  }

  /** Stepping from `(root, index)` through all the slots. */
  function RootChain(zero: Fr, depth: nat, root: Fr, index: nat, ids: seq<Fr>, rows: seq<seq<Fr>>): Option<(Fr, nat)>
    requires |rows| == |ids|
  {
    if ids == [] then Some((root, index))
    else
      var last := |ids| - 1;
      SlotStep(zero, depth, RootChain(zero, depth, root, index, ids[..last], rows[..last]), ids[last], rows[last])
  }

  /** The next free slot has the same siblings before and after it is filled. */
  lemma FreeSlotPath(leaves: seq<Fr>, leaf: Fr, zero: Fr, depth: nat)
    ensures Siblings(leaves + [leaf], zero, depth, |leaves|) == Siblings(leaves, zero, depth, |leaves|)
  {
    hide NodeAt, Shr, HalvesUp;
    var n := |leaves|;
    forall level | 0 <= level < depth
      ensures SiblingAt(leaves + [leaf], zero, n, level) == SiblingAt(leaves, zero, n, level)
    {
      if Bit(n, level) {
        NodeAtPrefix(leaves + [leaf], leaves, n, zero, level, Shr(n, level) - 1);
      } else {
        HalvesUpSucc(n, level);
        HalvesUpBounds(n, level);
        EmptyNode(leaves + [leaf], zero, level, Shr(n, level) + 1);
        EmptyNode(leaves, zero, level, Shr(n, level) + 1);
      }
    }
  }

  /** Climbing a leaf's own siblings reaches the root. */
  lemma OwnPath(leaves: seq<Fr>, zero: Fr, depth: nat, index: nat)
    requires index < Pow2(depth)
    ensures Fold(Get(leaves, index, zero), index, Siblings(leaves, zero, depth, index)) == Root(leaves, zero, depth)
  {
    hide NodeAt, Shr, Fold;
    FoldPath(leaves, zero, depth, index, depth);
    ShrZero(index, depth);
    assert Siblings(leaves, zero, depth, index)[..depth] == Siblings(leaves, zero, depth, index);
  }

  /** The row of an insertion opens the empty slot before it and the new leaf after it. */
  lemma RowOpensBoth(leaves: seq<Fr>, leaf: Fr, zero: Fr, depth: nat)
    requires |leaves| < Pow2(depth)
    ensures var row := Siblings(leaves + [leaf], zero, depth, |leaves|);
      && Fold(zero, |leaves|, row) == Root(leaves, zero, depth)
      && Fold(leaf, |leaves|, row) == Root(leaves + [leaf], zero, depth)
  {
    hide NodeAt, Shr, Fold, Siblings, Root;
    FreeSlotPath(leaves, leaf, zero, depth);
    OwnPath(leaves, zero, depth, |leaves|);
    OwnPath(leaves + [leaf], zero, depth, |leaves|);
  }

  /**
   Completeness: the commitment's rows carry the circuit from the current root and index to
   the new ones, slot by slot.
   */
  lemma {:induction false} CommitChains(leaves: seq<Fr>, zero: Fr, depth: nat, ids: seq<Fr>)
    requires |leaves| + |NonZero(ids)| <= Pow2(depth)
    ensures RootChain(zero, depth, Root(leaves, zero, depth), |leaves|, ids, RowsOf(leaves, zero, depth, ids))
         == Some((Root(leaves + NonZero(ids), zero, depth), |leaves| + |NonZero(ids)|))
  {
    hide Root, Fold, Siblings, Pow2;
    if ids == [] {
      assert leaves + NonZero(ids) == leaves;
    } else {
      var last := |ids| - 1;
      CommitChains(leaves, zero, depth, ids[..last]);
      var before := leaves + NonZero(ids[..last]);
      assert RowsOf(leaves, zero, depth, ids)[..last] == RowsOf(leaves, zero, depth, ids[..last]);
      if ids[last] != ZERO {
        RowOpensBoth(before, ids[last], zero, depth);
        assert before + [ids[last]] == leaves + NonZero(ids);
      } else {
        assert NonZero(ids) == NonZero(ids[..last]);
      }
    }
  }

  /**
   Soundness: any rows the circuit accepts from a tree's root end at the root of the tree with
   the ids appended, or they exhibit a hash collision.
   */
  lemma {:induction false} ChainBinds(leaves: seq<Fr>, zero: Fr, depth: nat, ids: seq<Fr>, rows: seq<seq<Fr>>)
    returns (c: Option<Collision>)
    requires |rows| == |ids|
    requires RootChain(zero, depth, Root(leaves, zero, depth), |leaves|, ids, rows).Some?
    ensures c.Some? ==> c.value.Valid()
    ensures c.None? ==>
      RootChain(zero, depth, Root(leaves, zero, depth), |leaves|, ids, rows)
      == Some((Root(leaves + NonZero(ids), zero, depth), |leaves| + |NonZero(ids)|))
  {
    hide Root, Fold, Siblings, Pow2;
    if ids == [] {
      assert leaves + NonZero(ids) == leaves;
      return None;
    }
    var last := |ids| - 1;
    c := ChainBinds(leaves, zero, depth, ids[..last], rows[..last]);
    if c.Some? {
      return;
    }
    var before := leaves + NonZero(ids[..last]);
    if ids[last] == ZERO {
      assert NonZero(ids) == NonZero(ids[..last]);
    } else {
      c := RowBinding(before, zero, depth, rows[last]);
      RowOpensBoth(before, ids[last], zero, depth);
      FreeSlotPath(before, ids[last], zero, depth);
      assert before + [ids[last]] == leaves + NonZero(ids);
    }
  }

  lemma RowBinding(leaves: seq<Fr>, zero: Fr, depth: nat, row: seq<Fr>) returns (c: Option<Collision>)
    requires |row| == depth && |leaves| < Pow2(depth) && Fold(zero, |leaves|, row) == Root(leaves, zero, depth)
    ensures c.Some? ==> c.value.Valid()
    ensures c.None? ==> row == Siblings(leaves, zero, depth, |leaves|)
  {
    hide Fold, NodeAt, Shr, Siblings;
    ShrZero(|leaves|, depth);
    c := PathBinding(leaves, zero, depth, zero, |leaves|, row);
  }

  // ----- building the commitment -----

  /** The words of a commitment over counts that fit a tree; their hash never panics. */
  method HashWords(padded: seq<Fr>, currentRoot: Fr, newRoot: Fr, currentIndex: nat, newIndex: nat, ghost depth: nat)
    returns (hash: nat)
    requires depth < USIZE_BITS && currentIndex <= Pow2(depth) && newIndex <= Pow2(depth)
    ensures hash == InputHash(WordsOf(padded, currentRoot, newRoot, currentIndex, newIndex))
  {
    WordsFit(padded, currentRoot, newRoot, currentIndex, newIndex, depth);
    hide FitsWord, InputHash;
    var result := Sha256BigInt(WordsOf(padded, currentRoot, newRoot, currentIndex, newIndex));
    hash := result.value;
  }

  lemma WordsFit(padded: seq<Fr>, currentRoot: Fr, newRoot: Fr, currentIndex: nat, newIndex: nat, depth: nat)
    requires depth < USIZE_BITS && currentIndex <= Pow2(depth) && newIndex <= Pow2(depth)
    ensures var words := WordsOf(padded, currentRoot, newRoot, currentIndex, newIndex);
      forall i | 0 <= i < |words| :: FitsWord(words[i])
  {
    hide FitsWord, Pow2;
    forall f: Fr {
      FieldFitsWord(f);
    }
    CountFitsWord(currentIndex, depth);
    CountFitsWord(newIndex, depth);
  }

  /** Commitments of one batch size with one input hash agree on ids, roots and indices, or SHA-256 collides. */
  lemma HashBindsWords(p: Pending, q: Pending, depth: nat)
    requires |p.pendingNoteIds| == |q.pendingNoteIds| && p.inputHash == q.inputHash && depth < USIZE_BITS
    requires p.inputHash == InputHash(p.Words()) && p.currentNoteIndex <= Pow2(depth) && p.newNoteIndex <= Pow2(depth)
    requires q.inputHash == InputHash(q.Words()) && q.currentNoteIndex <= Pow2(depth) && q.newNoteIndex <= Pow2(depth)
    ensures WordsCollide(p.Words(), q.Words()) || p == q.(siblings := p.siblings)
  {
    hide InputHash, WordsCollide, FitsWord, Pow2;
    WordsFit(p.pendingNoteIds, p.currentNotesRoot, p.newNotesRoot, p.currentNoteIndex, p.newNoteIndex, depth);
    WordsFit(q.pendingNoteIds, q.currentNotesRoot, q.newNotesRoot, q.currentNoteIndex, q.newNoteIndex, depth);
    InputHashBinds(p.Words(), q.Words());
    if p.Words() == q.Words() {
      WordsDetermine(p, q);
    }
  }

  lemma WordsDetermine(p: Pending, q: Pending)
    requires |p.pendingNoteIds| == |q.pendingNoteIds| && p.Words() == q.Words()
    ensures p.pendingNoteIds == q.pendingNoteIds && p.currentNotesRoot == q.currentNotesRoot && p.newNotesRoot == q.newNotesRoot
    ensures p.currentNoteIndex == q.currentNoteIndex && p.newNoteIndex == q.newNoteIndex
  {
    var n := |p.pendingNoteIds|;
    forall i | 0 <= i < n
      ensures p.pendingNoteIds[i] == q.pendingNoteIds[i]
    {
      assert p.Words()[i] == p.pendingNoteIds[i].value && q.Words()[i] == q.pendingNoteIds[i].value;
    }
    assert p.Words()[n..] == q.Words()[n..];
    assert p.Words()[n] == p.currentNotesRoot.value && p.Words()[n + 1] == p.newNotesRoot.value;
    assert q.Words()[n] == q.currentNotesRoot.value && q.Words()[n + 1] == q.newNotesRoot.value;
    assert p.Words()[n + 2] == p.currentNoteIndex && p.Words()[n + 3] == p.newNoteIndex;
    assert q.Words()[n + 2] == q.currentNoteIndex && q.Words()[n + 3] == q.newNoteIndex;
  }

  /**
   The input hash is SHA-256 of the padded ids, the current and the new root, and the current and
   the new index, each as 32 big-endian bytes.
   */
  lemma CommitHash(leaves: seq<Fr>, zero: Fr, depth: nat, padded: seq<Fr>)
    ensures var after := leaves + NonZero(padded);
      Commit(leaves, zero, depth, padded).inputHash == FromBigEndian(Sha256.Sha(
        FieldsBytes(padded) + FieldBytes(Root(leaves, zero, depth)) + FieldBytes(Root(after, zero, depth))
        + BigEndian(|leaves|, 32) + BigEndian(|after|, 32)))
  {
    hide Commit, InputHash, WordsOf, FromBigEndian, BigEndian, FieldsBytes, FieldBytes, Root, NonZero;
    WordsHashed(padded, Root(leaves, zero, depth), Root(leaves + NonZero(padded), zero, depth), |leaves|, |leaves + NonZero(padded)|);
    CommitHashes(leaves, zero, depth, padded);
  }

  lemma CommitHashes(leaves: seq<Fr>, zero: Fr, depth: nat, padded: seq<Fr>)
    ensures var after := leaves + NonZero(padded);
      Commit(leaves, zero, depth, padded).inputHash
      == InputHash(WordsOf(padded, Root(leaves, zero, depth), Root(after, zero, depth), |leaves|, |after|))
  {
    hide Root, NonZero, RowsOf, WordsOf, InputHash;
  }

  lemma WordsHashed(padded: seq<Fr>, currentRoot: Fr, newRoot: Fr, currentIndex: nat, newIndex: nat)
    ensures InputHash(WordsOf(padded, currentRoot, newRoot, currentIndex, newIndex)) == FromBigEndian(Sha256.Sha(
      FieldsBytes(padded) + FieldBytes(currentRoot) + FieldBytes(newRoot) + BigEndian(currentIndex, 32) + BigEndian(newIndex, 32)))
  {
    hide InputHash, Values, FromBigEndian, BigEndian, FieldsBytes, FieldBytes;
    HashedBytes(padded, currentRoot, newRoot, currentIndex, newIndex);
  }

  /** Row `i` holds zeros for a skipped slot, and otherwise the siblings of its id among the ids up to it. */
  lemma {:induction false} RowAt(leaves: seq<Fr>, zero: Fr, depth: nat, ids: seq<Fr>, i: nat)
    requires i < |ids|
    ensures RowsOf(leaves, zero, depth, ids)[i] ==
      if ids[i] == ZERO then seq(depth, _ => ZERO)
      else Siblings(leaves + NonZero(ids[..i + 1]), zero, depth, |leaves| + |NonZero(ids[..i])|)
    decreases |ids|
  {
    hide Siblings, NonZero;
    var last := |ids| - 1;
    if i < last {
      RowAt(leaves, zero, depth, ids[..last], i);
      assert ids[..last][..i] == ids[..i] && ids[..last][..i + 1] == ids[..i + 1];
    } else {
      LastRow(leaves, zero, depth, ids);
      NonZeroStep(leaves, ids, last);
      assert ids[..i + 1] == ids && |leaves + NonZero(ids[..i])| == |leaves| + |NonZero(ids[..i])|;
    }
  }

  lemma LastRow(leaves: seq<Fr>, zero: Fr, depth: nat, ids: seq<Fr>)
    requires ids != []
    ensures var (last, before) := (|ids| - 1, leaves + NonZero(ids[..|ids| - 1]));
      RowsOf(leaves, zero, depth, ids)[last] ==
        if ids[last] == ZERO then seq(depth, _ => ZERO) else Siblings(before + [ids[last]], zero, depth, |before|)
  {
    hide Siblings, NonZero;
  }

  /** Non-zero ids are counted before anything is built. */
  method CountNonZero(ids: seq<Fr>) returns (count: nat)
    ensures count == |NonZero(ids)|
  {
    count := 0;
    for i := 0 to |ids|
      invariant count == |NonZero(ids[..i])|
    {
      NonZeroNext(ids, i);
      if ids[i] != ZERO {
        count := count + 1;
      }
    }
    assert ids[..|ids|] == ids;
  }

  /** Append one id and give its siblings in the tree as it then stands. */
  method InsertWithRow(work: Imt, id: Fr) returns (row: seq<Fr>)
    requires work.Valid() && |work.Leaves()| < Pow2(work.depth)
    modifies work
    ensures work.Valid() && work.Leaves() == old(work.Leaves()) + [id]
    ensures row == Siblings(work.Leaves(), work.zeroLeaf, work.depth, |old(work.Leaves())|)
  {
    hide AreZeroes, IsTable, Root, Siblings, Pow2, NodeAt, ZeroRoot, Get;
    work.Insert(id);
    var proof := work.CreateProof(work.LeafCount() - 1);
    row := proof.siblings;
  }

  /** The slots' loop over the working copy: the rows, and the non-zero ids appended. */
  method AppendRows(work: Imt, padded: seq<Fr>) returns (siblings: seq<seq<Fr>>)
    requires work.Valid() && |work.Leaves()| + |NonZero(padded)| <= Pow2(work.depth)
    modifies work
    ensures work.Valid() && work.Leaves() == old(work.Leaves()) + NonZero(padded)
    ensures siblings == RowsOf(old(work.Leaves()), work.zeroLeaf, work.depth, padded)
  {
    hide AreZeroes, IsTable, Root, Siblings, NonZero, RowsOf, Fresh, Pow2, NodeAt, ZeroRoot, Get;
    ghost var leaves := work.Leaves();
    siblings := [];
    NoIds(leaves);
    NoRows(leaves, work.zeroLeaf, work.depth);
    for i := 0 to |padded|
      invariant work.Valid() && work.Leaves() == leaves + NonZero(padded[..i])
      invariant siblings == RowsOf(leaves, work.zeroLeaf, work.depth, padded[..i])
    {
      NonZeroStep(leaves, padded, i);
      NextRow(leaves, work.zeroLeaf, work.depth, padded, i);
      if padded[i] == ZERO {
        siblings := siblings + [ZeroRow(work.depth)];
        continue;
      }
      var row := InsertWithRow(work, padded[i]);
      siblings := siblings + [row];
    }
    assert padded[..|padded|] == padded;
  }

  /** `build_pending_commitment` over a copy of the level table; `None` where its assertions panic. */
  method BuildPendingCommitment(tree: Imt, treeDepth: nat, batchSize: nat, ids: seq<Fr>) returns (built: Option<Pending>)
    requires tree.Valid()
    ensures built.Some? <==>
      && |ids| <= batchSize <= MAX_PENDING_BATCH_SIZE && treeDepth == tree.depth
      && |tree.Leaves()| + |NonZero(ids)| <= Pow2(tree.depth)
    ensures built.Some? ==> built.value == Commit(tree.Leaves(), tree.zeroLeaf, treeDepth, Padded(ids, batchSize))
  {
    hide AreZeroes, IsTable, Root, Siblings, NonZero, RowsOf, WordsOf, InputHash, Fresh, Pow2;
    var inserted := CountNonZero(ids);
    if batchSize > MAX_PENDING_BATCH_SIZE || |ids| > batchSize || treeDepth != tree.depth
       || inserted > Pow2(tree.depth) - tree.LeafCount() {
      return None;
    }
    ghost var leaves, zero := tree.Leaves(), tree.zeroLeaf;
    var currentRoot := tree.GetRoot();
    var padded := ids + seq(batchSize - |ids|, _ => ZERO);
    assert padded == Padded(ids, batchSize);
    NonZeroOfPadded(ids, batchSize);
    var work := new Imt.Clone(tree);
    var siblings := AppendRows(work, padded);
    var newRoot := work.GetRoot();
    var hash := HashWords(padded, currentRoot, newRoot, tree.LeafCount(), work.LeafCount(), treeDepth);
    built := Some(Pending(tree.LeafCount(), currentRoot, padded, siblings, newRoot, work.LeafCount(), hash));
  }

  lemma NoIds(leaves: seq<Fr>)
    ensures leaves + NonZero([]) == leaves
  {}

  /** Slot `i` appends its id unless it is a skip slot, and leaves room for the rest. */
  lemma NonZeroStep(leaves: seq<Fr>, ids: seq<Fr>, i: nat)
    requires i < |ids|
    ensures var before := leaves + NonZero(ids[..i]);
      leaves + NonZero(ids[..i + 1]) == if ids[i] == ZERO then before else before + [ids[i]]
    ensures |NonZero(ids[..i])| + (if ids[i] == ZERO then 0 else 1) <= |NonZero(ids)|
  {
    assert ids[..i + 1][..i] == ids[..i];
    NonZeroPrefix(ids, i + 1);
  }

  lemma NonZeroNext(ids: seq<Fr>, i: nat)
    requires i < |ids|
    ensures NonZero(ids[..i + 1]) == if ids[i] == ZERO then NonZero(ids[..i]) else NonZero(ids[..i]) + [ids[i]]
  {
    assert ids[..i + 1][..i] == ids[..i];
  }

  datatype InputError = EmptyBatch | BatchTooLarge | TreeRefused(error: TreeError)

  datatype InputResult = Built(pending: Pending) | Refused(error: InputError)

  /** `insert_with_siblings` of the indexed tree. */
  method InsertWithSiblings(work: IndexedMerkleTree, id: Fr) returns (r: Result<seq<Fr>>)
    requires work.Valid()
    modifies work, work.tree
    ensures work.Valid()
    ensures r.Ok? <==> id !in old(work.tree.Leaves()) && |old(work.tree.Leaves())| < Pow2(work.tree.depth)
    ensures r.Ok? ==>
      && work.tree.Leaves() == old(work.tree.Leaves()) + [id]
      && r.value == Siblings(work.tree.Leaves(), ZERO, work.tree.depth, |old(work.tree.Leaves())|)
  {
    hide AreZeroes, IsTable, Root, Siblings, Indexes, Pow2, NodeAt, ZeroRoot, Get;
    var inserted := work.Insert(id);
    if inserted.Err? {
      return Err(inserted.error);
    }
    var proof := work.CreateProof(id);
    UniqueIndex(work, id, proof.value.index);
    r := Ok(proof.value.siblings);
  }

  /** The slots' loop over the working copy of an indexed tree, up to the first id it refuses. */
  method InsertRows(work: IndexedMerkleTree, padded: seq<Fr>) returns (r: Result<seq<seq<Fr>>>)
    requires work.Valid()
    modifies work, work.tree
    ensures work.Valid()
    ensures r.Ok? <==>
      && |old(work.tree.Leaves())| + |NonZero(padded)| <= Pow2(work.tree.depth)
      && Fresh(old(work.tree.Leaves()), NonZero(padded))
    ensures r.Ok? ==>
      && work.tree.Leaves() == old(work.tree.Leaves()) + NonZero(padded)
      && r.value == RowsOf(old(work.tree.Leaves()), ZERO, work.tree.depth, padded)
  {
    hide AreZeroes, IsTable, Root, Siblings, NonZero, RowsOf, Indexes, Fresh, Pow2, NodeAt, ZeroRoot, Get;
    ghost var leaves := work.tree.Leaves();
    var siblings: seq<seq<Fr>> := [];
    NoIds(leaves);
    NoRows(leaves, ZERO, work.tree.depth);
    for i := 0 to |padded|
      invariant work.Valid() && work.tree.Leaves() == leaves + NonZero(padded[..i])
      invariant siblings == RowsOf(leaves, ZERO, work.tree.depth, padded[..i])
      invariant Fresh(leaves, NonZero(padded[..i]))
      invariant |leaves| + |NonZero(padded[..i])| <= Pow2(work.tree.depth)
    {
      NonZeroStep(leaves, padded, i);
      NextRow(leaves, ZERO, work.tree.depth, padded, i);
      FreshStep(leaves, padded, i);
      if padded[i] == ZERO {
        siblings := siblings + [ZeroRow(work.tree.depth)];
        continue;
      }
      var inserted := InsertWithSiblings(work, padded[i]);
      if inserted.Err? {
        return Err(inserted.error);
      }
      siblings := siblings + [inserted.value];
    }
    assert padded[..|padded|] == padded;
    r := Ok(siblings);
  }

  /** `build_pending_commitment_input` over the indexed tree, which changes only on success. */
  method BuildIndexedInput(tree: IndexedMerkleTree, batchSize: nat, ids: seq<Fr>) returns (r: InputResult)
    requires tree.Valid()
    modifies tree, tree.tree
    ensures tree.Valid()
    ensures r.Built? <==>
      && 0 < |ids| <= batchSize
      && |old(tree.tree.Leaves())| + |NonZero(ids)| <= Pow2(tree.tree.depth)
      && Fresh(old(tree.tree.Leaves()), NonZero(ids))
    ensures r.Built? ==>
      && r.pending == Commit(old(tree.tree.Leaves()), ZERO, tree.tree.depth, Padded(ids, batchSize))
      && tree.tree.Leaves() == old(tree.tree.Leaves()) + NonZero(ids)
    ensures r.Refused? ==> tree.tree.Leaves() == old(tree.tree.Leaves()) && tree.indices == old(tree.indices)
    ensures r.Refused? ==> (r.error == EmptyBatch <==> ids == []) && (r.error == BatchTooLarge <==> |ids| > batchSize)
  {
    hide AreZeroes, IsTable, Root, Siblings, NonZero, RowsOf, WordsOf, Indexes, Fresh, Pow2, InputHash;
    if ids == [] {
      return Refused(EmptyBatch);
    }
    if |ids| > batchSize {
      return Refused(BatchTooLarge);
    }
    ghost var leaves := tree.tree.Leaves();
    var currentRoot := tree.tree.GetRoot();
    var currentIndex := tree.tree.LeafCount();
    var padded := ids + seq(batchSize - |ids|, _ => ZERO);
    assert padded == Padded(ids, batchSize);
    NonZeroOfPadded(ids, batchSize);
    var work := new IndexedMerkleTree.Clone(tree);
    var inserted := InsertRows(work, padded);
    if inserted.Err? {
      return Refused(TreeRefused(inserted.error));
    }
    var siblings := inserted.value;
    var newRoot := work.tree.GetRoot();
    var hash := HashWords(padded, currentRoot, newRoot, currentIndex, work.tree.LeafCount(), tree.tree.depth);
    tree.tree.nodes := work.tree.nodes;
    tree.indices := work.indices;
    r := Built(Pending(currentIndex, currentRoot, padded, siblings, newRoot, work.tree.LeafCount(), hash));
  }

  lemma NoRows(leaves: seq<Fr>, zero: Fr, depth: nat)
    ensures RowsOf(leaves, zero, depth, []) == []
    ensures Fresh(leaves, NonZero([])) && NonZero([]) == []
  {}

  lemma NextRow(leaves: seq<Fr>, zero: Fr, depth: nat, ids: seq<Fr>, i: nat)
    requires i < |ids|
    ensures var before := leaves + NonZero(ids[..i]);
      RowsOf(leaves, zero, depth, ids[..i + 1])
      == RowsOf(leaves, zero, depth, ids[..i])
         + [if ids[i] == ZERO then ZeroRow(depth) else Siblings(before + [ids[i]], zero, depth, |before|)]
  {
    assert ids[..i + 1][..i] == ids[..i];
  }

  lemma FreshSnoc(leaves: seq<Fr>, batch: seq<Fr>, id: Fr)
    ensures Fresh(leaves, batch + [id]) <==> Fresh(leaves, batch) && id !in leaves && id !in batch
  {
    var longer := batch + [id];
    assert longer[|batch|] == id;
    if Fresh(leaves, longer) {
      assert forall i | 0 <= i < |batch| :: longer[i] == batch[i];
    }
  }

  lemma FreshPrefix(leaves: seq<Fr>, prefix: seq<Fr>, batch: seq<Fr>)
    requires prefix <= batch && Fresh(leaves, batch)
    ensures Fresh(leaves, prefix)
  {
    assert forall i | 0 <= i < |prefix| :: prefix[i] == batch[i];
  }

  lemma InEither(a: seq<Fr>, b: seq<Fr>, id: Fr)
    ensures id in a + b <==> id in a || id in b
  {}

  /** A batch stays fresh exactly as long as each new id is neither in the tree nor earlier in the batch. */
  lemma FreshStep(leaves: seq<Fr>, ids: seq<Fr>, i: nat)
    requires i < |ids| && Fresh(leaves, NonZero(ids[..i]))
    ensures Fresh(leaves, NonZero(ids[..i + 1])) <==> ids[i] == ZERO || ids[i] !in leaves + NonZero(ids[..i])
    ensures Fresh(leaves, NonZero(ids)) ==> Fresh(leaves, NonZero(ids[..i + 1]))
  {
    hide NonZero, Fresh;
    NonZeroNext(ids, i);
    FreshSnoc(leaves, NonZero(ids[..i]), ids[i]);
    InEither(leaves, NonZero(ids[..i]), ids[i]);
    FreshSoFar(leaves, ids, i + 1);
  }

  lemma FreshSoFar(leaves: seq<Fr>, ids: seq<Fr>, n: nat)
    requires n <= |ids|
    ensures Fresh(leaves, NonZero(ids)) ==> Fresh(leaves, NonZero(ids[..n]))
  {
    hide NonZero, Fresh;
    NonZeroPrefix(ids, n);
    if Fresh(leaves, NonZero(ids)) {
      FreshPrefix(leaves, NonZero(ids[..n]), NonZero(ids));
    }
  }

  lemma UniqueIndex(work: IndexedMerkleTree, leaf: Fr, index: nat)
    requires work.Valid() && work.tree.Leaves() != [] && work.tree.Leaves()[|work.tree.Leaves()| - 1] == leaf
    requires index < |work.tree.Leaves()| && Get(work.tree.Leaves(), index, ZERO) == leaf
    ensures index == |work.tree.Leaves()| - 1
  {
    hide AreZeroes, IsTable;
  }

  // ----- the frontier form -----

  /** The rows a frontier yields, whatever subtrees its slots hold. */
  function SlotRows(slots: Slots, count: nat, ids: seq<Fr>): (rows: seq<seq<Fr>>)
    requires 0 < |slots| && count + |NonZero(ids)| <= Pow2(|slots| - 1)
    ensures |rows| == |ids|
  {
    if ids == [] then []
    else
      var last := |ids| - 1;
      NonZeroPrefix(ids, last);
      var before := NonZero(ids[..last]);
      SlotRows(slots, count, ids[..last])
      + [if ids[last] == ZERO then ZeroRow(|slots| - 1)
         else SlotSiblings(SlotsAfterAll(slots, count, before), count + |before|, |slots| - 1)]
  }

  function SlotCommit(slots: Slots, count: nat, padded: seq<Fr>): Pending
    requires 0 < |slots| && count + |NonZero(padded)| <= Pow2(|slots| - 1)
  {
    var after := SlotsAfterAll(slots, count, NonZero(padded));
    var depth := |slots| - 1;
    var (currentRoot, newRoot) := (SlotsRoot(slots, count, depth), SlotsRoot(after, count + |NonZero(padded)|, depth));
    Pending(count, currentRoot, padded, SlotRows(slots, count, padded), newRoot, count + |NonZero(padded)|,
            InputHash(WordsOf(padded, currentRoot, newRoot, count, count + |NonZero(padded)|)))
  }

  ghost predicate Distinct(ids: seq<Fr>) {
    forall i, j | 0 <= i < j < |ids| :: ids[i] != ids[j]
  }

  lemma NoDistinct()
    ensures NonZero([]) == [] && Distinct(NonZero([]))
  {}

  lemma DistinctSnoc(ids: seq<Fr>, id: Fr)
    ensures Distinct(ids + [id]) <==> Distinct(ids) && id !in ids
  {
    FreshSnoc([], ids, id);
  }

  lemma DistinctPrefix(prefix: seq<Fr>, ids: seq<Fr>)
    requires prefix <= ids
    ensures Distinct(ids) ==> Distinct(prefix)
  {
    assert forall i | 0 <= i < |prefix| :: prefix[i] == ids[i];
  }

  lemma SlotRowsNext(slots: Slots, count: nat, ids: seq<Fr>, i: nat)
    requires 0 < |slots| && i < |ids| && count + |NonZero(ids[..i + 1])| <= Pow2(|slots| - 1)
    ensures |NonZero(ids[..i])| <= |NonZero(ids[..i + 1])|
    ensures var before := NonZero(ids[..i]);
      SlotRows(slots, count, ids[..i + 1])
      == SlotRows(slots, count, ids[..i])
         + [if ids[i] == ZERO then ZeroRow(|slots| - 1)
            else SlotSiblings(SlotsAfterAll(slots, count, before), count + |before|, |slots| - 1)]
  {
    hide SlotSiblings, SlotsAfterAll, Pow2;
    NonZeroNext(ids, i);
    assert ids[..i + 1][..i] == ids[..i];
  }

  /** One more id through the frontier. */
  lemma SlotsAfterNext(slots: Slots, count: nat, ids: seq<Fr>, i: nat)
    requires 0 < |slots| && i < |ids| && ids[i] != ZERO && count + |NonZero(ids[..i + 1])| <= Pow2(|slots| - 1)
    ensures var before := NonZero(ids[..i]);
      && NonZero(ids[..i + 1]) == before + [ids[i]]
      && LowZero(count + |before|) < |slots|
      && SlotsAfterAll(slots, count, NonZero(ids[..i + 1]))
         == SlotsAfter(SlotsAfterAll(slots, count, before), ids[i], LowZero(count + |before|))
  {
    hide NonZero, Pow2, LowZero, SlotsAfter;
    var before, after := NonZero(ids[..i]), NonZero(ids[..i + 1]);
    NonZeroNext(ids, i);
    assert after == before + [ids[i]] && after[..|before|] == before;
    LowZeroBound(count + |before|, |slots| - 1);
  }

  /** The frontier wrapper's check for a repeated non-zero id. */
  method CheckDistinct(ids: seq<Fr>) returns (distinct: bool)
    ensures distinct <==> Distinct(NonZero(ids))
  {
    hide NonZero, Distinct;
    var seen: set<Fr> := {};
    NoDistinct();
    for i := 0 to |ids|
      invariant Distinct(NonZero(ids[..i]))
      invariant forall id :: id in seen <==> id in NonZero(ids[..i])
    {
      NonZeroNext(ids, i);
      NonZeroPrefix(ids, i + 1);
      DistinctSnoc(NonZero(ids[..i]), ids[i]);
      DistinctPrefix(NonZero(ids[..i + 1]), NonZero(ids));
      if ids[i] != ZERO {
        if ids[i] in seen {
          return false;
        }
        seen := seen + {ids[i]};
      }
    }
    assert ids[..|ids|] == ids;
    distinct := true;
  }

  /** The commitment of a padded batch over the slots, and the slots after its non-zero ids. */
  ghost predicate BuiltFrom(slots: Slots, count: nat, batchSize: nat, ids: seq<Fr>, pending: Pending, after: Slots) {
    && |ids| <= batchSize && NonZero(Padded(ids, batchSize)) == NonZero(ids)
    && 0 < |slots| && count + |NonZero(ids)| <= Pow2(|slots| - 1)
    && pending == SlotCommit(slots, count, Padded(ids, batchSize))
    && after == SlotsAfterAll(slots, count, NonZero(ids))
  }

  /** `build_pending_commitment_fields` over the frontier, which changes only on success. */
  method BuildFrontierInput(frontier: NotesFrontier, batchSize: nat, ids: seq<Fr>) returns (r: InputResult)
    requires frontier.Valid()
    modifies frontier
    ensures frontier.Valid()
    ensures r.Built? <==>
      && 0 < |ids| <= batchSize
      && old(frontier.leafCount) + |NonZero(ids)| <= Pow2(frontier.depth)
      && Distinct(NonZero(ids))
    ensures r.Built? ==>
      && frontier.leafCount == old(frontier.leafCount) + |NonZero(ids)|
      && BuiltFrom(old(frontier.frontier), old(frontier.leafCount), batchSize, ids, r.pending, frontier.frontier)
    ensures r.Refused? ==> frontier.leafCount == old(frontier.leafCount) && frontier.frontier == old(frontier.frontier)
  {
    hide AreZeroes, NonZero, SlotRows, SlotsAfterAll, SlotsAfter, SlotSiblings, SlotsRoot, Completion, WordsOf, Pow2, Root, LowZero, InputHash;
    var distinct := CheckDistinct(ids);
    if !distinct {
      return Refused(TreeRefused(DuplicateLeaf));
    }
    if ids == [] {
      return Refused(EmptyBatch);
    }
    if |ids| > batchSize {
      return Refused(BatchTooLarge);
    }
    ghost var slots, count := frontier.frontier, frontier.leafCount;
    var currentRoot := frontier.GetRoot();
    var padded := ids + seq(batchSize - |ids|, _ => ZERO);
    assert padded == Padded(ids, batchSize);
    NonZeroOfPadded(ids, batchSize);
    var work := new NotesFrontier.Clone(frontier);
    var siblings: seq<seq<Fr>> := [];
    NoSlotRows(slots, count);
    for i := 0 to |padded|
      invariant work.Valid() && fresh(work) && work.depth == frontier.depth
      invariant count + |NonZero(padded[..i])| <= Pow2(frontier.depth)
      invariant work.leafCount == count + |NonZero(padded[..i])|
      invariant work.frontier == SlotsAfterAll(slots, count, NonZero(padded[..i]))
      invariant siblings == SlotRows(slots, count, padded[..i])
      invariant frontier.Valid() && frontier.frontier == slots && frontier.leafCount == count
    {
      NonZeroNext(padded, i);
      NonZeroPrefix(padded, i + 1);
      if padded[i] == ZERO {
        SlotRowsNext(slots, count, padded, i);
        siblings := siblings + [seq(frontier.depth, _ => ZERO)];
        continue;
      }
      var appended := work.AppendWithSiblings(padded[i]);
      if appended.Err? {
        return Refused(TreeRefused(appended.error));
      }
      SlotRowsNext(slots, count, padded, i);
      SlotsAfterNext(slots, count, padded, i);
      siblings := siblings + [appended.value.1];
    }
    assert padded[..|padded|] == padded;
    var newRoot := work.GetRoot();
    var hash := HashWords(padded, currentRoot, newRoot, frontier.leafCount, work.leafCount, frontier.depth);
    r := Built(Pending(frontier.leafCount, currentRoot, padded, siblings, newRoot, work.leafCount, hash));
    frontier.frontier, frontier.leafCount := work.frontier, work.leafCount;
  }

  lemma NoSlotRows(slots: Slots, count: nat)
    requires 0 < |slots| && count <= Pow2(|slots| - 1)
    ensures NonZero([]) == [] && SlotRows(slots, count, []) == [] && SlotsAfterAll(slots, count, []) == slots
  {}

  lemma {:induction false} SlotRowsRefine(leaves: seq<Fr>, depth: nat, ids: seq<Fr>)
    requires |leaves| + |NonZero(ids)| <= Pow2(depth)
    ensures SlotRows(SlotsOf(leaves, depth), |leaves|, ids) == RowsOf(leaves, ZERO, depth, ids)
  {
    hide Siblings, SlotSiblings, SlotsOf, Pow2;
    if ids != [] {
      var last := |ids| - 1;
      SlotRowsRefine(leaves, depth, ids[..last]);
      NonZeroPrefix(ids, last);
      var before := NonZero(ids[..last]);
      AppendAllRefines(leaves, before, depth);
      SiblingsRefine(leaves + before, ids[last], depth);
    }
  }

  /** For the frontier of a leaf log, both tree forms build the same commitment. */
  lemma FrontierCommitAgrees(leaves: seq<Fr>, depth: nat, padded: seq<Fr>)
    requires |leaves| + |NonZero(padded)| <= Pow2(depth)
    ensures SlotCommit(SlotsOf(leaves, depth), |leaves|, padded) == Commit(leaves, ZERO, depth, padded)
  {
    hide Siblings, SlotSiblings, SlotsOf, Pow2, Root, SlotsRoot, InputHash, WordsOf, NonZero, SlotRows, RowsOf, SlotsAfterAll;
    SlotRowsRefine(leaves, depth, padded);
    AppendAllRefines(leaves, NonZero(padded), depth);
    RootRefines(leaves, depth);
    RootRefines(leaves + NonZero(padded), depth);
  }
}
