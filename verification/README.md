# Verification of the tree, prover and signing cores

Dafny models of the repository's stateful and arithmetic cores, with machine-checked proofs of
what they promise. `dafny verify dfyconfig.toml` checks everything.

**Merkle trees** (`crates/core/src/imt.rs`). Five implementations keep one padded binary tree over
an append-only leaf log: the level table, its batched insertion, the constant-space append
frontier, the stateful sharded tree and the stateless sharded root and witness. `NodeHash.NodeAt`
is their one definition, over an uninterpreted two-input hash. `IncrementalTree`, `AppendFrontier`
and `MutableShardedTree` are classes updated in place. The sharded tree is also given as a value
(`ShardedState`), which its class is proved to follow step by step; the invariant, the equality
with the flat tree, the witnesses, the dirty set, what is accepted and safety over all runs are
proved on the value. Both snapshot
formats, the indexed tree and both pending-note commitments (`crates/core/src/witness.rs`,
`crates/core/src/witness/bound_pending.rs`, `bindings/node/src/lib.rs`) stand on top.

**Multi-scalar multiplication** (`crates/prover/src/msm.rs`). Digit recoding from 64-bit limbs,
the FREE/SCHEDULED/HOT bucket scheduler as a class, Montgomery's shared inversion over an abstract
field, and the running-sum and Horner reductions, up to the group sum of `s_i * P_i`.

**Smaller machines.** The serial job queue as an interleaving step system around its lock
sections; the authenticated reader against a source with arbitrary answers; BLAKE-512's update and
padding; both EdDSA key profiles; the QAP witness map and its H query; the compact zkey codec.

Hypotheses are predicates, never built in: `AbelianGroup.Abelian`, `Field.FieldLaws`,
`CurvePoints.CurveLaws` (the group value of a chord-and-tangent sum is the sum of the group values;
that the sum is on the curve, commutes and is the reflected third point is proved),
`Eddsa.CurveOrder` (the base point has order exactly `l`), `WitnessMap.DomainLaws` (the inverse
transform interpolates) and `CompactPoints.FieldCodecLaws` (Montgomery form is a bijection, a
square has two opposite roots, the root oracle returns one whenever there is one, the order is
total). Hashes are uninterpreted and not assumed injective: statements that need it return or
exhibit the collision.

Where the code and its comments disagree, the code is followed:

- `close` (`bindings/node/src/queue.rs:79-82`) says that for an idle queue the pool is released
  before the callback runs, and that closing a closed queue only registers the callback. A thread
  that has taken the pool drops it only after it has left the lock, so a second closer (lines
  90-94), or one that comes while the drainer drops the pool (lines 110-113), calls back at once.
  `QueueReleases.EarlyIff` gives the exact condition over all continuations, and two lemmas reach it.
- A sharded tree of depth 33 or more accepts marks that its snapshot cannot encode
  (`crates/core/src/imt.rs:1135-1233`); `ShardedSnapshots.EncodableIff` says exactly when.
- Inflating a compact zkey is not free of panics (`crates/prover/src/compact_zkey.rs:707`);
  `CompactZkeyCodec.Inflate` says exactly when it panics, and `ShortFilePanics` gives such files.

## Model

| member | source | states |
|---|---|---|
| NodeHash.ParentOfRow | crates/core/src/imt.rs:773-788 | folding a row pairwise from any even position on, a missing right child read as zero, gives exactly that part of the row above |
| NodeHash.RowGet | crates/core/src/imt.rs:398-428 | reading a stored row with the level zero as default reads the padded tree at every index |
| NodeHash.NodeAtLocal | crates/core/src/imt.rs:773-788 | a node depends only on the leaves below it |
| IncrementalTree.ZeroRootsFrom | crates/core/src/imt.rs:173-183 | the zero roots are the roots of empty subtrees of every height |
| IncrementalTree.BuildTable | crates/core/src/imt.rs:229-244 | a bulk build stores, row by row, the padded tree over its leaves, including the one-entry top row of an empty tree of positive depth |
| IncrementalTree.RowAfterInsert | crates/core/src/imt.rs:246-284 | replacing or adding the new ancestor at its index turns each row of the old log into that row of the longer one |
| IncrementalTree.RowAfterInsertMany | crates/core/src/imt.rs:286-307 | re-folding only the changed run of a row gives the whole row over the longer log |
| IncrementalTree.RowAfterUpdate | crates/core/src/imt.rs:326-349 | re-hashing one path gives every row over the updated log |
| IncrementalTree.Imt.constructor | crates/core/src/imt.rs:204-244 | the table of a new tree is the bulk build over the given leaves |
| IncrementalTree.Imt.GetRoot | crates/core/src/imt.rs:364-378 | the root is that of the padded tree, for empty, depth-0 and full trees too |
| IncrementalTree.Imt.Insert | crates/core/src/imt.rs:246-284 | the whole node table becomes the one a bulk build over the log plus the leaf gives |
| IncrementalTree.Imt.InsertMany | crates/core/src/imt.rs:286-307 | the same for a batch; a batch past the capacity is refused and changes no node |
| IncrementalTree.Imt.Update | crates/core/src/imt.rs:326-349 | the same for a replaced leaf; an index past the log is refused and changes no node |
| IncrementalTree.Imt.Truncate | crates/core/src/imt.rs:351-362 | the same for a shortened log; a longer count is refused and changes no node |
| IncrementalTree.Imt.NextLeafFrontier | crates/core/src/imt.rs:380-396 | the left-hand nodes on the next free path, or the full-tree error exactly on a full tree |
| IncrementalTree.Imt.CreateProof | crates/core/src/imt.rs:398-428 | the proof of a stored leaf is the padded tree's own proof |
| InclusionProofs.VerifyPath | crates/core/src/imt.rs:1081-1098 | accepts exactly when the index is used up and the path climbs to the root |
| InclusionProofs.VerifyProofAtDepth | crates/core/src/imt.rs:1100-1104 | accepts exactly a verified path of the pinned length |
| InclusionProofs.FoldPath | crates/core/src/imt.rs:1081-1098 | climbing the tree's own siblings passes through the tree's own nodes at every level |
| InclusionProofs.FoldConcat | crates/core/src/imt.rs:1995-2030 | climbing two glued paths is climbing one after the other |
| InclusionProofs.ProofAccepted | crates/core/src/imt.rs:1100-1104 | completeness: the tree's proof of any slot, filled or empty, is accepted at its depth |
| InclusionProofs.PathBinding | crates/core/src/imt.rs:1081-1098 | a path that reaches a tree's node uses the tree's leaf and siblings, or two inputs with one hash are exhibited |
| InclusionProofs.ProofBinding | crates/core/src/imt.rs:1100-1104 | binding at the pinned depth: an accepted proof is the tree's own proof of that slot (the zero leaf where it is empty), or a collision is exhibited |
| AppendFrontier.Increment | crates/core/src/imt.rs:539-580 | adding one clears the run of low ones, sets the next bit and leaves the rest |
| AppendFrontier.AppendRefines | crates/core/src/imt.rs:539-580 | merging the low slots of a log gives the slots of the longer log: slot k holds the last complete height-k subtree exactly when bit k of the count is set |
| AppendFrontier.AppendKeepsMatch | crates/core/src/imt.rs:539-580 | occupied slots keep matching the bits of the leaf count, whatever the slots hold |
| AppendFrontier.RootRefines | crates/core/src/imt.rs:517-537 | the root climbed through slots and zero roots is the flat tree's root, full trees included |
| AppendFrontier.SiblingsRefine | crates/core/src/imt.rs:606-629 | the siblings read off before an append are the flat proof siblings of the appended leaf |
| AppendFrontier.FrontierRefines | crates/core/src/imt.rs:631-653 | the next-leaf frontier read off the slots is the level table's |
| AppendFrontier.CompletionRefines | crates/core/src/imt.rs:539-580 | a shard is emitted exactly when the new count is a multiple of the shard size, with the root of a tree over that shard's own leaves |
| AppendFrontier.AppendAllRefines | crates/core/src/imt.rs:582-604 | a batch refines the flat tree over the longer log |
| AppendFrontier.CompletionsRefine | crates/core/src/imt.rs:582-604 | a batch emits exactly the shards it fills, in order, each with its root in the final log |
| AppendFrontier.New | crates/core/src/imt.rs:462-485 | a new frontier represents the empty log; the first failing check of the geometry or a capacity decides the error |
| AppendFrontier.NotesFrontier.GetRoot | crates/core/src/imt.rs:517-537 | for every log the slots represent, the flat root of that log |
| AppendFrontier.NotesFrontier.Append | crates/core/src/imt.rs:539-580 | the slots after the merge and the completed shard, if any; a full tree is refused unchanged |
| AppendFrontier.NotesFrontier.AppendMany | crates/core/src/imt.rs:582-604 | repeated appends, all or none, with exactly their completed shards |
| AppendFrontier.NotesFrontier.AppendWithSiblings | crates/core/src/imt.rs:606-629 | an append together with the siblings of the appended leaf |
| AppendFrontier.NotesFrontier.NextLeafFrontier | crates/core/src/imt.rs:631-653 | the slots on the next free path, or the full-tree error exactly on a full tree |
| Sharding.NodeInShard | crates/core/src/imt.rs:1942-1950 | a node below the cut is a node of its shard's own tree |
| Sharding.NodeInCap | crates/core/src/imt.rs:1952-1978 | a node above the cut is a node of the cap tree over shard roots padded with the empty shard root |
| Sharding.CapRoot | crates/core/src/imt.rs:1980-1993 | the cap's root is the flat root |
| Sharding.SiblingsSplit | crates/core/src/imt.rs:1995-2030 | a flat path is the within-shard path followed by the cap path |
| Sharding.ShardRoots | crates/core/src/imt.rs:1942-1950 | the shard roots are the flat tree's row at the cut |
| Sharding.CapLevels | crates/core/src/imt.rs:1952-1978 | every cap level is the flat row of its height |
| Sharding.ShardedRoot | crates/core/src/imt.rs:1980-1993 | the stateless sharded root equals the flat root |
| Sharding.ShardedWitness | crates/core/src/imt.rs:1995-2030 | the stateless sharded witness equals the flat proof |
| ShardedState.FirstClash | crates/core/src/imt.rs:1831-1844 | the first batch offset that would fill a slot marked for another note, if any |
| ShardedState.VerifyFrozenPath | crates/core/src/imt.rs:1887-1919 | succeeds exactly for a path of the shard's height that climbs to that completed shard's root |
| ShardedInvariant.CountBounds | crates/core/src/imt.rs:1823-1829 | the tree is full exactly when every shard is completed |
| ShardedInvariant.RollOverKeeps | crates/core/src/imt.rs:1863-1885 | freezing a full shard keeps the invariant and the leaf count |
| ShardedInvariant.PushAllKeeps | crates/core/src/imt.rs:1592-1625 | any run of leaves keeps the invariant and the marked slots and adds its length to the count |
| ShardedInvariant.PushRun | crates/core/src/imt.rs:1592-1625 | leaves that stay inside the live shard can be added at once with at most one rollover |
| ShardedInvariant.AppendManyIsAppendEach | crates/core/src/imt.rs:1592-1625 | a batch succeeds exactly when repeated append does, with the same resulting state |
| ShardedInvariant.MarkKeeps | crates/core/src/imt.rs:1627-1671 | marking, future leaves included, keeps both owned maps inverse and every other part of the invariant |
| ShardedInvariant.UnmarkKeeps | crates/core/src/imt.rs:1673-1682 | unmarking keeps the invariant |
| ShardedInvariant.AdoptKeeps | crates/core/src/imt.rs:1684-1720 | adopting a verified recovered path keeps the invariant |
| ShardedInvariant.RewindKeeps | crates/core/src/imt.rs:1762-1793 | rewinding inside the live shard keeps the invariant and leaves exactly the requested count |
| ShardedInvariant.DrainKeeps | crates/core/src/imt.rs:1795-1803 | draining the dirty set keeps the invariant |
| ShardedWitnesses.WitnessAccepted | crates/core/src/imt.rs:1727-1760 | a witness exists exactly for an owned note whose leaf is in the tree, names it, and is accepted at the tree's depth against the current root; the error tells an unmarked note from a leaf not yet in the tree |
| ShardedWitnesses.RootIsFlat | crates/core/src/imt.rs:1722-1725 | the sharded root is the flat root of the log the state represents |
| ShardedWitnesses.PushRepresents | crates/core/src/imt.rs:1578-1590 | an append moves state and log together |
| ShardedWitnesses.RewindRepresents | crates/core/src/imt.rs:1762-1793 | a rewind moves state and log together |
| ShardedWitnesses.PushGenuine | crates/core/src/imt.rs:1863-1885 | appending keeps every frozen path equal to the flat path, the ones a rollover freezes included |
| ShardedWitnesses.WitnessIsFlat | crates/core/src/imt.rs:1727-1760 | with genuine frozen paths a witness is the flat tree's own proof |
| ShardedWitnesses.AdoptedGenuine | crates/core/src/imt.rs:1684-1720 | an adopted path is the flat path, or a collision is exhibited |
| ShardedRuns.RestoreSound | crates/core/src/imt.rs:1441-1515 | whatever the snapshot, a restored tree satisfies the invariant |
| ShardedRuns.SortedIsOwned | crates/core/src/imt.rs:1556-1560 | the sorted list is strictly ascending in leaf index and holds every owned note below the bound once, and no other |
| ShardedRuns.RestoreSnapshot | crates/core/src/imt.rs:1441-1515 | restoring a snapshot gives back roots, leaves and owned paths; only the dirty set is lost |
| ShardedRuns.ApplyKeeps | crates/core/src/imt.rs:1578-1803 | every operation that succeeds keeps the invariant |
| ShardedRuns.EmptyRepresents | crates/core/src/imt.rs:1414-1439 | the empty tree satisfies the invariant and represents the empty log |
| ShardedRuns.RunRepresents | crates/core/src/imt.rs:1578-1803 | over every run, from any tree that represents a log and with restores of any earlier snapshot, the state represents the log kept so far |
| ShardedRuns.RunSafe | crates/core/src/imt.rs:1578-1803 | over every such run the root is the flat root of the log, and an owned note has an accepted witness exactly when its leaf is in the log |
| ShardedRuns.RunFromSnapshot | crates/core/src/imt.rs:1441-1515 | from any snapshot the restore accepts, whatever its completed roots are, every witness of every later state is accepted against that state's root |
| ShardedRuns.RunWitnessesAreFlat | crates/core/src/imt.rs:1578-1803 | over every such run that starts with genuine frozen paths each witness is the flat proof, or the run exhibits a collision |
| MutableShardedTree.New | crates/core/src/imt.rs:1414-1439 | a new tree is in the empty state; the first failing check of the geometry or a capacity decides the error |
| MutableShardedTree.ShardedNotesTree.GetRoot | crates/core/src/imt.rs:1722-1725 | the cap tree's root is the root of the state |
| MutableShardedTree.ShardedNotesTree.GetWitness | crates/core/src/imt.rs:1727-1760 | the witness the state defines, errors included |
| MutableShardedTree.ShardedNotesTree.SyncLiveRoot | crates/core/src/imt.rs:1846-1861 | the cap tree holds the completed roots and the live root again |
| MutableShardedTree.ShardedNotesTree.DoRollOver | crates/core/src/imt.rs:1863-1885 | live shard, cap, roots, owned paths and dirty set after freezing; besides the notes that were dirty exactly those whose record the freeze changed are |
| MutableShardedTree.ShardedNotesTree.DoAppend | crates/core/src/imt.rs:1578-1590 | the state after one append, or the error and the state unchanged |
| MutableShardedTree.ShardedNotesTree.DoAppendMany | crates/core/src/imt.rs:1592-1625 | the state after the whole batch with cap updates coalesced and shards rebuilt or extended, or the error and the state unchanged |
| MutableShardedTree.ShardedNotesTree.DoMarkOwned | crates/core/src/imt.rs:1627-1671 | the state after marking, or the error and the state unchanged |
| MutableShardedTree.ShardedNotesTree.DoUnmarkOwned | crates/core/src/imt.rs:1673-1682 | the state after unmarking and whether the note was known |
| MutableShardedTree.ShardedNotesTree.DoAdoptFrozen | crates/core/src/imt.rs:1684-1720 | the state after adoption, or the error and the state unchanged |
| MutableShardedTree.ShardedNotesTree.CheckFrozenPath | crates/core/src/imt.rs:1887-1919 | the verdict on a recovered path |
| MutableShardedTree.ShardedNotesTree.RebuildCap | crates/core/src/imt.rs:1921-1929 | a cap rebuilt from the roots holds them |
| MutableShardedTree.ShardedNotesTree.DoRewindLive | crates/core/src/imt.rs:1762-1793 | the rewound state, or the error and the state unchanged; returns each note owned at or past the new end once and no other, strictly ascending in leaf index |
| MutableShardedTree.ShardedNotesTree.DrainDirty | crates/core/src/imt.rs:1795-1803 | returns exactly the notes owned under a dirty id, strictly ascending in leaf index, and leaves no note dirty |
| MutableShardedTree.ShardedNotesTree.TakeSnapshot | crates/core/src/imt.rs:1805-1813 | the snapshot of the state: its notes are exactly the owned ones, strictly ascending in leaf index |
| MutableShardedTree.FromSnapshot | crates/core/src/imt.rs:1441-1515 | restoring succeeds exactly where the snapshot is consistent, into exactly that state; the first bad note decides the error |
| MutableShardedTree.RemovedLeaves | crates/core/src/imt.rs:1762-1793 | unmarking the notes past the new end leaves exactly the maps a rewind keeps |
| MutableShardedTree.OwnedRangeAscends | crates/core/src/imt.rs:1762-1793 | the notes owned in a range of leaves come in strictly ascending leaf order |
| DirtyTracking.ApplyTracks | crates/core/src/imt.rs:1578-1793 | every operation that succeeds, a drain aside, keeps the dirty notes still owned and adds exactly those whose record is new or changed, and an adopted note |
| DirtyTracking.StoreIsBehind | crates/core/src/imt.rs:1795-1803 | over every run, restores of earlier snapshots included, a copy of the owned notes with each drain laid over it holds the current record of every note that is not dirty |
| DirtyTracking.StoreRestores | crates/core/src/imt.rs:1441-1515 | after every run that ends with a drain that store, over the ids still owned, is the owned notes, and a snapshot made from it restores the tree |
| ShardedAcceptance.AcceptedIff | crates/core/src/imt.rs:1578-1793 | every operation succeeds exactly when the leaf log and the marks allow it, and is otherwise refused with the error of the first thing that does not fit |
| ShardedAcceptance.NotesFollow | crates/core/src/imt.rs:1578-1803 | an operation that succeeds leaves exactly the notes it should; appending keeps every id, leaf and frozen path |
| ShardedAcceptance.RestoreIff | crates/core/src/imt.rs:1441-1515 | a snapshot is restored exactly when its counts fit, no two notes share an id or a leaf and each agrees with the roots and leaves; the tree then owns exactly those notes |
| FieldCodec.FieldIff | crates/core/src/imt.rs:1373-1381 | a field reads back exactly from its canonical bytes |
| FieldCodec.ReadFieldsIff | crates/core/src/imt.rs:1383-1395 | reading fields succeeds exactly on their encoding, at any cursor |
| FieldCodec.AppendFields | crates/core/src/imt.rs:1352-1356 | the buffer grows by exactly the fields' encoding |
| FieldCodec.ReadFieldsAt | crates/core/src/imt.rs:1383-1395 | the cursor loop computes the reader function |
| FrontierSnapshots.EncodeSnapshot | crates/core/src/imt.rs:666-687 | the bytes are the encoding of the frontier's state |
| FrontierSnapshots.DecodeIff | crates/core/src/imt.rs:689-770 | decoding gives a frontier exactly for the encoding of a frontier whose slots match its count: both round trips at once |
| FrontierSnapshots.SnapshotSize | crates/core/src/imt.rs:666-687 | at most 24 + (depth + 1) + 32 * depth bytes |
| FrontierSnapshots.SnapshotLayout | crates/core/src/imt.rs:666-687 | where the magic, the version, the geometry, both counts and the slots stand in the bytes |
| FrontierSnapshots.PersistRestores | crates/core/src/imt.rs:665-770 | the frontier of any log that fits the tree comes back from its bytes, with the flat root of the log |
| FrontierSnapshots.FromSnapshotBytes | crates/core/src/imt.rs:689-770 | the loop accepts exactly what the decoder function accepts and builds that frontier |
| ShardedSnapshots.EncodeSnapshot | crates/core/src/imt.rs:1135-1233 | the growing buffer computes the encoder function, errors included |
| ShardedSnapshots.DecodeSnapshot | crates/core/src/imt.rs:1235-1349 | the cursor loop computes the decoder function, errors included |
| ShardedSnapshots.ReadRecordIff | crates/core/src/imt.rs:1235-1349 | an owned-note record reads back exactly from its encoding, at any cursor |
| ShardedSnapshots.DecodeThenEncode | crates/core/src/imt.rs:1235-1349 | a decoded snapshot encodes to the bytes it came from |
| ShardedSnapshots.SnapshotLayout | crates/core/src/imt.rs:1204-1213 | where the magic, the version, the geometry, the three counts, the roots, the leaves and the records stand in the bytes |
| ShardedSnapshots.RecordLayout | crates/core/src/imt.rs:1215-1231 | where a record has its id, its leaf index, its path flag and its path |
| ShardedSnapshots.EncodeThenDecode | crates/core/src/imt.rs:1135-1233 | an encoded snapshot decodes to itself |
| ShardedSnapshots.PersistRestores | crates/core/src/imt.rs:1805-1821 | a tree whose counts and owned leaf indices fit 32 bits is encodable, and reading it back restores it, dirty set aside |
| ShardedSnapshots.EncodableIff | crates/core/src/imt.rs:1135-1233 | a tree of any depth is encodable if and only if its three counts and every owned leaf index are below 2^32 |
| ShardedSnapshots.FarMarkCannotPersist | crates/core/src/imt.rs:1135-1233 | a tree of depth 33 accepts a mark at its future leaf 2^32 and can then not be encoded |
| IndexedTree.IndexedMerkleTree.Insert | crates/core/src/imt.rs:914-933 | a repeated or overflowing leaf is refused unchanged; otherwise the log grows and the index stays its inverse |
| IndexedTree.IndexedMerkleTree.InsertMany | crates/core/src/imt.rs:935-958 | a batch goes in exactly when it fits and no leaf repeats, in the tree or in the batch; else nothing changes |
| IndexedTree.IndexedMerkleTree.Truncate | crates/core/src/imt.rs:979-1001 | the log is cut and the index stays its inverse |
| IndexedTree.IndexedMerkleTree.CreateProof | crates/core/src/imt.rs:964-977 | a proof exists exactly for a stored leaf and is the flat proof at its index |
| PendingCommitments.BuildPendingCommitment | crates/core/src/witness.rs:467-533 | the commitment over the tree's log: padded ids, skip rows, sibling rows, both roots, both indices and the input hash; none exactly where the assertions panic |
| PendingCommitments.AppendRows | crates/core/src/witness.rs:500-510 | the slots' loop gives the row of every slot and appends the non-zero ids |
| PendingCommitments.RowOpensBoth | crates/core/src/witness.rs:502-510 | a row opens the empty slot under the root before the insertion and the new leaf under the root after it |
| PendingCommitments.RowAt | crates/core/src/witness.rs:500-510 | row i is zeros for a padding slot, and otherwise the siblings of its id in the tree with the ids up to it |
| PendingCommitments.CommitHash | crates/core/src/witness.rs:515-520 | the input hash is SHA-256 of the padded ids, the current and the new root, the current and the new index, in that order, 32 big-endian bytes each |
| PendingCommitments.CommitChains | crates/core/src/witness.rs:467-533 | the rows lead slot by slot from the current root and index to the new ones |
| PendingCommitments.ChainBinds | crates/core/src/witness.rs:467-533 | any rows that chain from a tree's root end at the root of the tree with the ids appended, or a collision is exhibited |
| PendingCommitments.HashBindsWords | crates/core/src/witness.rs:515-520 | commitments of one batch size with one input hash agree on ids, roots and indices, or SHA-256 collides |
| InputHashes.Sha256BigInt | crates/core/src/hash_utils.rs:16-22 | the digest of the inputs as 32 big-endian bytes each; none exactly where an input of 2^256 or more panics |
| InputHashes.InputHashBinds | crates/core/src/hash_utils.rs:16-22 | equal hashes over equally many words mean equal words, or a collision of SHA-256 |
| InputHashes.HashedBytes | crates/core/src/hash_utils.rs:16-22 | the hashed words as one byte string: field elements, two more, two counts |
| PendingCommitments.BuildIndexedInput | bindings/node/src/lib.rs:862-927 | succeeds exactly for a non-empty, fitting batch of fresh ids; then commitment, input hash included, and tree move together, else the tree is unchanged |
| PendingCommitments.InsertRows | bindings/node/src/lib.rs:891-900 | the slots' loop succeeds exactly when the ids fit and are fresh, with the row of every slot |
| PendingCommitments.CheckDistinct | bindings/node/src/lib.rs:768-786 | true exactly when no non-zero id repeats in the batch |
| PendingCommitments.BuildFrontierInput | bindings/node/src/lib.rs:768-786 | the same over the frontier, with the in-batch duplicate check |
| PendingCommitments.FrontierCommitAgrees | bindings/node/src/lib.rs:808-927 | over one leaf log both tree forms build the same commitment |
| BoundPendingCommitments.CheckBatch | crates/core/src/witness/bound_pending.rs:208-224 | the first fault of a batch: its size, no note, too many, a zero id, a repeat |
| BoundPendingCommitments.BuildBoundIndexed | crates/core/src/witness/bound_pending.rs:203-256 | commits exactly a faultless batch that fits and repeats no leaf of the tree, with the first failing check as the error; on refusal the tree is unchanged |
| BoundPendingCommitments.BuildBoundFrontier | crates/core/src/witness/bound_pending.rs:203-256 | commits exactly a faultless batch that fits; for every log the slots represent the result is that of the log, and the frontier moves on to the longer log |
| BoundPendingCommitments.NoteIdsArePosted | crates/core/src/witness/bound_pending.rs:119-122 | the posted ids are the batch, and padding them again gives the committed words |
| BoundPendingCommitments.RowComputes | crates/core/src/witness/bound_pending.rs:229-237 | from a tree's own frontier row one pass computes its current root and its new root |
| BoundPendingCommitments.CommitmentComputes | crates/core/src/witness/bound_pending.rs:229-252 | every commitment passes its own check: one pass over its row and its posted ids yields its two roots and its next index |
| BoundPendingCommitments.FrontierDetermines | crates/core/src/witness/bound_pending.rs:229-237 | trees that agree on frontier row and next index have the same current root and the same new root for every batch |
| BoundPendingCommitments.FrontierBinds | crates/core/src/witness/bound_pending.rs:229-237 | a row that reproduces a tree's current root at its next index leads to that tree's new root, or a hash collision is exhibited |
| BitOps.AndMask | crates/prover/src/msm.rs:902-911 | masking with 2^k - 1 keeps the remainder modulo 2^k |
| ScalarWindows.WindowIsBits | crates/prover/src/msm.rs:902-911 | a window across at most one limb boundary is the bits of the scalar's integer |
| SignedDigits.SignedWindows | crates/prover/src/msm.rs:847-870 | the carrying pass emits the balanced digit of every window and the final carry |
| SignedDigits.SignedWindowDigit | crates/prover/src/msm.rs:820-842 | the backward walk finds the same balanced digit for one window alone |
| SignedDigits.DigitRange | crates/prover/src/msm.rs:820-842 | every digit lies in [-2^(w-1), 2^(w-1)) and fits 16 bits |
| SignedDigits.PartialSum | crates/prover/src/msm.rs:847-870 | up to any window the digits and the pending carry represent the low bits exactly |
| SignedDigits.FinalCarry | crates/prover/src/msm.rs:867-869 | the last window absorbs the carry for every scalar below the BN254 modulus at every width 3 to 16 |
| SignedDigits.DigitsReconstruct | crates/prover/src/msm.rs:847-870 | the digits add up to the scalar as an integer |
| BatchInversion.ProductNonZero | crates/prover/src/msm.rs:572-607 | no denominator of a batch is zero, so the shared inverse exists |
| CurvePoints.AddIsSum | crates/prover/src/msm.rs:604-641 | chord-and-tangent addition gives the reflected third point of the line, as stated without division, and nothing else fits that description |
| CurvePoints.AddCloses | crates/prover/src/msm.rs:604-641 | from the field laws alone the sum of two points of the curve is on the curve |
| CurvePoints.SumCommutes | crates/prover/src/msm.rs:604-641 | the sum does not depend on the order of the points |
| CurvePoints.NegValue | crates/prover/src/msm.rs:604-641 | a reflected point is the opposite in the group |
| BatchInversion.Classify | crates/prover/src/msm.rs:587-602 | each entry records chord, tangent or identity and the product of the denominators before it |
| BatchInversion.PeelEntry | crates/prover/src/msm.rs:604-641 | peeling one inverse gives that entry's own sum and the inverse for the rest |
| BatchInversion.ApplyAll | crates/prover/src/msm.rs:572-641 | with one inversion every target becomes the sum of its old value and its point: the reflected third point of the chord or tangent, and on the curve if both are; no other bucket changes |
| WindowBuckets.AppliedSum | crates/prover/src/msm.rs:572-641 | applying a batch moves each pending point into its bucket's group value |
| WindowBuckets.AffineBuckets.constructor | crates/prover/src/msm.rs:461-472 | every bucket starts at the identity |
| WindowBuckets.AffineBuckets.AddPoint | crates/prover/src/msm.rs:485-511 | for every bucket, value plus overflow plus pending plus deferred grows by exactly the point; the refill loop ends with room in the batch |
| WindowBuckets.AffineBuckets.Schedule | crates/prover/src/msm.rs:513-521 | a scheduled addition keeps batch targets pairwise distinct and what every bucket holds |
| WindowBuckets.AffineBuckets.Defer | crates/prover/src/msm.rs:524-529 | a deferred point is counted for its bucket, after spilling when the list is full |
| WindowBuckets.AffineBuckets.SpillDeferred | crates/prover/src/msm.rs:534-545 | every deferred point moves to its bucket's overflow; all sums stay |
| WindowBuckets.AffineBuckets.RetryDeferred | crates/prover/src/msm.rs:548-569 | settled and kept points conserve every bucket's sum; batch and list together do not grow |
| WindowBuckets.AffineBuckets.ApplyBatch | crates/prover/src/msm.rs:572-641 | all sums stay, the batch is empty and no bucket is scheduled |
| WindowBuckets.AffineBuckets.Finish | crates/prover/src/msm.rs:644-657 | ends with batch and deferred list empty and all sums unchanged |
| WindowBuckets.AffineBuckets.AddDigit | crates/prover/src/msm.rs:476-482 | the weighted sum of the buckets grows by exactly digit times base |
| WindowBuckets.AffineBuckets.WindowSum | crates/prover/src/msm.rs:661-680 | the running sums compute sum of (k + 1) times bucket k, overflow included |
| RunningSums.WeightedUpdate | crates/prover/src/msm.rs:373-393 | adding a point to bucket k adds (k + 1) times it to the weighted sum |
| RunningSums.RunningStep | crates/prover/src/msm.rs:395-406 | one bucket folded into the two running sums keeps the weighted sum so far |
| RunningSums.WindowSum | crates/prover/src/msm.rs:395-406 | two running sums from the top bucket down compute the weighted sum |
| RunningSums.CombinationStep | crates/prover/src/msm.rs:888-900 | doubling a combination and adding the next digits is the combination of the doubled coefficients |
| MultiScalarMultiplication.XyzzWindow | crates/prover/src/msm.rs:354-371 | one window of the XYZZ form is the combination of the bases with that window's digits |
| MultiScalarMultiplication.BatchAffineWindow | crates/prover/src/msm.rs:273-300 | the batch-affine form gives the same, for every batch size |
| MultiScalarMultiplication.DigitSumSplits | crates/prover/src/msm.rs:888-900 | the high digits, weighted from any window on, complete the sum of the low ones |
| MultiScalarMultiplication.ReduceWindowSums | crates/prover/src/msm.rs:888-900 | Horner over the windows combines all digits of every scalar |
| MultiScalarMultiplication.MsmWithAccumulation | crates/prover/src/msm.rs:212-271 | for every base and scalar list, width 3 to 16, accumulator and batch size: the group sum of s_i P_i over the shorter length |
| MultiScalarMultiplication.SplitTrivialScalars | crates/prover/src/msm.rs:106-168 | declines exactly below one eighth trivial scalars; otherwise the same sum |
| MultiScalarMultiplication.WindowBitsAllowed | crates/prover/src/msm.rs:170-190 | both width policies stay within 3 to 16 |
| MultiScalarMultiplication.MsmWithWindow | crates/prover/src/msm.rs:193-208 | the same sum whichever accumulator the size selects |
| MultiScalarMultiplication.MsmBigint | crates/prover/src/msm.rs:64-91 | the same sum with or without the split, under either width policy |
| SerialQueues.SerialQueue.constructor | bindings/node/src/queue.rs:35-52 | an open idle queue that owns its pool |
| SerialQueues.SerialQueue.Submit | bindings/node/src/queue.rs:57-77 | refuses as closed exactly on a closed queue, as full exactly on an open one with capacity jobs outstanding, and then changes nothing; otherwise the job waits behind the others and a drainer is started exactly when none is active |
| SerialQueues.SerialQueue.Close | bindings/node/src/queue.rs:83-95 | closes the queue; an active queue keeps its pool and registers the callback behind the others, an idle one hands its pool over |
| SerialQueues.SerialQueue.Take | bindings/node/src/queue.rs:97-119 | takes the job that has waited longest; with none waiting the queue goes idle, and a closed one hands over its pool and every registered callback |
| SerialQueues.SerialQueue.FreeSlot | bindings/node/src/queue.rs:122-126 | the lock section that frees a slot before completion |
| SerialQueues.StepKeeps | bindings/node/src/queue.rs:57-131 | every step of every submitter, closer and drainer keeps the invariant |
| SerialQueues.Safety | bindings/node/src/queue.rs:57-131 | in every interleaving: no panic, at most one drainer, waiting implies active, outstanding is waiting plus running and within capacity, jobs run once each in acceptance order, an open queue owns its pool, release callbacks only after every accepted job completed and, unless their closer was exposed, only once the pool was dropped |
| SerialQueues.StepDecreases | bindings/node/src/queue.rs:97-131 | every internal step lowers what is left to do |
| SerialQueues.DrainTerminates | bindings/node/src/queue.rs:97-131 | however drainer and closers interleave they stop within the measure |
| SerialQueues.AtRest | bindings/node/src/queue.rs:83-131 | at rest every accepted job is completed; once closed the pool was dropped once and every registered callback ran once |
| SerialQueues.ClosedRefuses | bindings/node/src/queue.rs:59-61 | after close a submission changes nothing |
| SerialQueues.SubmitIff | bindings/node/src/queue.rs:57-77 | in every run a submission is refused as closed exactly on a closed queue and as full exactly on an open one whose waiting and executing jobs number capacity; otherwise exactly that job is accepted, and a drainer is started exactly when there is none |
| QueueReleases.WhoHoldsThePool | bindings/node/src/queue.rs:90-116 | the queue is idle with its pool taken and not dropped exactly while a closer or a dropping drainer holds it past the lock |
| QueueReleases.CloseExposes | bindings/node/src/queue.rs:83-95 | a close leaves its callback callable ahead of the pool exactly while the pool is so held |
| QueueReleases.CoveredRunsAfterPool | bindings/node/src/queue.rs:79-116 | in every continuation a callback whose closer was not exposed runs only once the pool has been dropped |
| QueueReleases.EarlyIff | bindings/node/src/queue.rs:79-95 | some continuation of a close runs its callback before the pool is dropped if and only if the pool is held past the lock when close takes it |
| QueueReleases.SecondCloserMayRunEarly | bindings/node/src/queue.rs:83-95 | the second of two closers of an idle queue may be such a closer |
| QueueReleases.CloseDuringDropMayRunEarly | bindings/node/src/queue.rs:104-116 | so may a closer that comes while the drainer is about to drop the pool |
| AuthenticatedReaders.Open | crates/prover/src/authenticated_reader.rs:26-64 | a reader is returned only for a snapshot whose digest is the pin; a source that delivers any artifact below 2^64 bytes, in whatever pieces, is accepted exactly under that artifact's digest, with it as the snapshot, and refused as a mismatch under any other |
| AuthenticatedReaders.AppendChunk | crates/prover/src/authenticated_reader.rs:35-55 | the recorded digests stay those of the snapshot's chunks |
| AuthenticatedReaders.AuthenticatedReader.BufferIsSnapshot | crates/prover/src/authenticated_reader.rs:88-103 | bytes of an authenticated buffer are the snapshot's, or the chunk collides with it |
| AuthenticatedReaders.AuthenticatedReader.CacheChunk | crates/prover/src/authenticated_reader.rs:66-85 | success leaves the chunk cached and authenticated; any failure leaves nothing cached; the change error is raised only for a differing chunk; an honest source succeeds |
| AuthenticatedReaders.AuthenticatedReader.Read | crates/prover/src/authenticated_reader.rs:88-103 | against any source, after any seeks and failures, returned bytes are the snapshot's at that position or a collision is in the buffer; the count is exact; errors move nothing |
| AuthenticatedReaders.AuthenticatedReader.Seek | crates/prover/src/authenticated_reader.rs:106-117 | the requested position, past the end included, or an error and no move when it leaves 64 bits |
| Blake512Hash.LengthCarry | crates/core/src/blake512.rs:101-109 | the carry loop is the carry function |
| Blake512Hash.CarryBlock | crates/core/src/blake512.rs:101-109 | counting one block carries the four limbs of t to those of t + 1024 |
| Blake512Hash.CarryNothing | crates/core/src/blake512.rs:101-109 | within a block nothing carries, by way of a negative limb too |
| Blake512Hash.AbsorbConcat | crates/core/src/blake512.rs:186-204 | two updates are one update of the concatenation |
| Blake512Hash.SplitInvariant | crates/core/src/blake512.rs:186-204 | any split of a message leaves the same state |
| Blake512Hash.WholeBlocks | crates/core/src/blake512.rs:186-204 | after q whole blocks the state is the standard chain so far with counter 1024 q |
| Blake512Hash.FlushPartial | crates/core/src/blake512.rs:206-240 | the block where the message ends is compressed with the message length as counter, suppressed exactly when it holds no message bit |
| Blake512Hash.FlushEmpty | crates/core/src/blake512.rs:226-234 | the second padding block is compressed with the counter suppressed and leaves the count alone |
| Blake512Hash.LimbBytes | crates/core/src/blake512.rs:207-216 | the four truncated limbs spell the 128-bit big-endian length |
| Blake512Hash.PaddingAt | crates/core/src/blake512.rs:207-245 | every byte of the padding: a one bit after the message, a one bit before the length, zeros between, and no more blocks than that takes |
| Blake512Hash.PaddingInjective | crates/core/src/blake512.rs:207-245 | no two messages share a padded form |
| Blake512Hash.LimbsInRange | crates/core/src/blake512.rs:98-109 | below 2^128 bits every limb is a 32-bit word and together they are the count |
| Blake512Hash.CountersAreStandard | crates/core/src/blake512.rs:186-240 | every compression of a hash saw in-range limbs that spell the message bits so far, and a suppressed counter exactly for a block with no message bit |
| Blake512Hash.Blake512.Update | crates/core/src/blake512.rs:186-204 | the loops absorb the data as the update function does |
| Blake512Hash.Blake512.CompressBlock | crates/core/src/blake512.rs:147-184 | a full block is counted, carried and compressed |
| Blake512Hash.Blake512.Padding | crates/core/src/blake512.rs:206-240 | completes the padded message of section 2.2 of "SHA-3 proposal BLAKE": chaining value and log of compressions are the standard's |
| Blake512Hash.Blake512.Digest | crates/core/src/blake512.rs:242-249 | the digest is the standard hash of everything absorbed |
| Blake512Hash.Blake512OneShot | crates/core/src/blake512.rs:253-257 | the one-shot digest is the standard hash |
| Blake512Hash.Blake512Pieces | crates/core/src/blake512.rs:186-249 | any sequence of updates gives the standard hash of the concatenation |
| ScalarMultiplication.MulPointEscalar | crates/core/src/babyjubjub.rs:334-344 | low-bit-first double-and-add is iterated addition, for a scalar of any size |
| ScalarMultiplication.BaseMul | crates/core/src/secret_arithmetic.rs:133-177 | the 256-step high-bit-first ladder is iterated addition, zero and high bits included |
| Eddsa.ResponseEquation | crates/core/src/secret_arithmetic.rs:65-83 | the reduced response times the base point is commitment plus challenge times cofactor times key |
| Eddsa.EquationFromEight | crates/core/src/eddsa.rs:315-337 | a response whose key part is eight times the public key satisfies the verifier's equation |
| Eddsa.PruneBuffer | crates/core/src/eddsa.rs:138-143 | the masks clear three bits, clear the top one and set the next |
| Eddsa.PrunedRange | crates/core/src/eddsa.rs:138-143 | a clamped scalar is a multiple of 8 in [2^254, 2^255) |
| Eddsa.PrunedValue | crates/core/src/eddsa.rs:138-143 | the clamp keeps every bit from the fourth to the 254th |
| Eddsa.ShiftRightThree | crates/core/src/eddsa.rs:160-166 | the in-place loop shifts every byte by three with the next byte's low bits |
| Eddsa.ShiftDivides | crates/core/src/eddsa.rs:160-166 | the byte-wise shift is exact division by 8 |
| Eddsa.DerivePublicKey | crates/core/src/eddsa.rs:154-167 | the derived public key is the derived secret scalar times the base point |
| Eddsa.Sign | crates/core/src/eddsa.rs:201-231 | a seed-key signature satisfies the equation for the derived public key, and its commitment is the base point times the digest of the second half of the seed hash followed by the 32 message bytes, modulo the order |
| Eddsa.CommitmentBindsMessage | crates/core/src/eddsa.rs:212-218 | one seed key signs two messages with one commitment only if they are equal or two different 64-byte nonce inputs have digests that agree modulo the order |
| Eddsa.NonceLimit | crates/core/src/secret_arithmetic.rs:29-31 | the bound is the largest multiple of the order below 2^512 |
| Eddsa.DeterministicNonce | crates/core/src/eddsa.rs:241-267 | the first counter whose digest is an acceptable nonce, or none exactly when no counter is |
| Eddsa.PublicKeyFromScalar | crates/core/src/babyjubjub.rs:347-350 | the public key is the scalar times the base point |
| Eddsa.VerifyScalarCompat | crates/core/src/eddsa.rs:315-337 | accepts exactly when both points are not the identity and the equation holds |
| Eddsa.SignScalarCompat | crates/core/src/eddsa.rs:274-311 | internal verification fails exactly for a public key that is not the secret's, counters run out exactly when none is acceptable, and otherwise the signature verifies with the first acceptable nonce times the base point |
| Polynomials.EvalProduct | crates/prover/src/qap.rs:368-381 | a product polynomial evaluates to the product of the values |
| Polynomials.EvalDistributed | crates/prover/src/qap.rs:362-366 | distributing powers of g moves the evaluation point by g |
| Polynomials.FftDual | crates/prover/src/qap.rs:215-238 | a transform moves from one side of an inner product to the other |
| WitnessMap.MoveToCoset | crates/prover/src/qap.rs:362-366 | values on the base domain become the interpolant's values at the odd powers of the doubled domain |
| WitnessMap.FinishEvaluations | crates/prover/src/qap.rs:313-385 | A times B minus C at the odd points, C the row products, or exactly the dimension errors |
| WitnessMap.EvaluateChecked | crates/prover/src/qap.rs:160-171 | the row's sum, or an error exactly for a signal out of range |
| WitnessMap.EvaluateRow | crates/prover/src/qap.rs:98-107 | a compact row sums like its nested form |
| WitnessMap.FinishWitnessMap | crates/prover/src/qap.rs:276-311 | public inputs below the constraint rows of A, then the odd values |
| WitnessMap.WitnessMapFromMatrices | crates/prover/src/qap.rs:182-213 | succeeds exactly for two matrices of the right size with signals in range; the result is the witness map of their rows |
| WitnessMap.WitnessMapFromCompactMatrices | crates/prover/src/qap.rs:242-272 | the compact matrices give the witness map of their nested form |
| WitnessMap.QueryDomain | crates/prover/src/qap.rs:224-231 | the query of a domain of n points lives on the doubled domain, n = 1 included |
| WitnessMap.NumeratorVanishes | crates/prover/src/qap.rs:340-349 | A times B minus C vanishes on the whole base domain, public-input and padding rows included |
| WitnessMap.WitnessMapTimesQuery | crates/prover/src/qap.rs:215-238 | the inner product of the map with the query is (A(t) B(t) - C(t)) times delta inverse |
| WitnessMap.MapMeetsQuery | crates/prover/src/qap.rs:182-238 | so it is for every pair of matrices and assignment the map accepts |
| WitnessMap.WitnessDomainIff | crates/prover/src/qap.rs:132-158 | there is a domain exactly for a positive number of assigned public inputs and a smallest fitting power of two with a root, a doubled root and room; the error is unsatisfiable exactly for the inputs |
| WitnessMap.RowSumIsDot | crates/prover/src/qap.rs:160-180 | a row evaluates to the inner product of its coefficients with the signals it names |
| WitnessMap.MapIsQap | crates/prover/src/qap.rs:182-238 | there are A, B and C with the values of both matrices, public inputs below the rows of A, and the row products on the base domain, whose A(t) B(t) - C(t), times delta inverse, is the inner product of the map with the query |
| CompactPoints.ParsedPoint | crates/prover/src/zkey.rs:1104-1124 | a canonical raw point is written back from its coordinates byte for byte |
| CompactPoints.ChooseRecovers | crates/prover/src/compact_zkey.rs:679-691 | whichever root of y squared the oracle returned, the sign of y leads back to y |
| CompactPoints.PointRoundTrip | crates/prover/src/compact_zkey.rs:631-674 | a canonical raw point decodes back to itself exactly when it is on the curve or at infinity |
| CompactZkey.PointsRoundTrip | crates/prover/src/compact_zkey.rs:590-624 | a section of points on the curve decodes back byte for byte |
| CompactZkey.ColumnsRoundTrip | crates/prover/src/compact_zkey.rs:418-433 | splitting coefficient records into columns loses nothing |
| CompactZkey.SectionRoundTrip | crates/prover/src/compact_zkey.rs:387-436 | every section the encoder takes decodes back byte for byte |
| CompactZkey.LayoutAssembles | crates/prover/src/compact_zkey.rs:345-385 | the layout lists every byte of the zkey in order |
| CompactZkey.TableParses | crates/prover/src/compact_zkey.rs:482-534 | the section table reads back with the zkey's length as its sum |
| CompactZkey.PointsExact | crates/prover/src/compact_zkey.rs:590-624 | a section that decodes back byte for byte has every point on its curve |
| CompactZkey.BodyRoundTrip | crates/prover/src/compact_zkey.rs:538-586 | for every zkey the encoder takes with points on their curves the body decodes back to it and ends with the last payload |
| CompactZkey.BodyRoundTripIff | crates/prover/src/compact_zkey.rs:538-586 | an accepted zkey's body decodes back to it if and only if all its points are on their curves |
| ZkeyAcceptance.PayloadBySection | crates/prover/src/compact_zkey.rs:388-434 | by section number: canonical G1 points in 3, 5, 6, 8 and 9, canonical G2 points in 7, a well-formed coefficient list in 4 and anything elsewhere are encoded, and nothing else; point payloads are half the length, others the whole |
| ZkeyAcceptance.LayoutOfZkey | crates/prover/src/compact_zkey.rs:345-386 | the layout of a zkey put together from sections is those sections |
| ZkeyAcceptance.BodyIff | crates/prover/src/compact_zkey.rs:233-254 | a body is built exactly when every section is one of those |
| ZkeyFormat.CompressedPoint | crates/prover/src/compact_zkey.rs:398-416 | a point is its x, little-endian, with bit 255 of the last word set exactly when y is the larger root |
| ZkeyFormat.CompressedInfinity | crates/prover/src/compact_zkey.rs:398-416 | the point at infinity is bit 254 of the last word and nothing else |
| ZkeyFormat.CompressSplit | crates/prover/src/compact_zkey.rs:398-416 | the points of a section keep their order |
| ZkeyFormat.ColumnsAt | crates/prover/src/compact_zkey.rs:418-433 | where the matrix, the constraint, the signal and the value of every record stand in the payload |
| ZkeyFormat.TableAt | crates/prover/src/compact_zkey.rs:247-251 | entry i of the table is number, length and encoding byte of section i |
| ZkeyFormat.BodyAt | crates/prover/src/compact_zkey.rs:245-254 | version, section count, table and payloads, in that order |
| ZkeyFormat.FileAt | crates/prover/src/compact_zkey.rs:258-263 | magic, digest and length of the zkey, and the frame, at their offsets |
| CompactZkeyCodec.EncodePoints | crates/prover/src/compact_zkey.rs:394-417 | the loop compresses every point, or refuses a non-canonical one |
| CompactZkeyCodec.EncodeCoefficients | crates/prover/src/compact_zkey.rs:418-433 | count, three index columns, values; refused exactly when the count does not fit the length |
| CompactZkeyCodec.EncodeSection | crates/prover/src/compact_zkey.rs:387-436 | the payload of the section, or a refusal |
| CompactZkeyCodec.DecompressConcat | crates/prover/src/compact_zkey.rs:600-622 | decoding in batches is decoding the whole |
| CompactZkeyCodec.DecodePoints | crates/prover/src/compact_zkey.rs:590-624 | batches of the reader decode to the section's region, exactly when all bytes are there and every point is one; an invalid point is reported with the section and the index of the first that fails |
| CompactZkeyCodec.FillColumn | crates/prover/src/compact_zkey.rs:710-725 | a column read in batches lands in its place in every record |
| CompactZkeyCodec.DecodeCoefficients | crates/prover/src/compact_zkey.rs:702-727 | the records gathered from the columns; a section below four bytes panics, and only such a one |
| CompactZkeyCodec.ReadHeader | crates/prover/src/compact_zkey.rs:482-534 | succeeds exactly on a consistent table adding up to the declared length |
| CompactZkeyCodec.StopsAtShort | crates/prover/src/compact_zkey.rs:557-577 | the first section that does not decode is a coefficient section below four bytes exactly when the loop reaches such a one |
| CompactZkeyCodec.DecodeAllSections | crates/prover/src/compact_zkey.rs:557-577 | the section loop computes the sections function; it panics exactly when it reaches a coefficient section below four bytes |
| CompactZkeyCodec.Inflate | crates/prover/src/compact_zkey.rs:281-301 | succeeds exactly on a header, a frame, a body ending with its last section and the digest the header names; panics, and reports a length, frame or digest error, exactly on the inputs named |
| CompactZkeyCodec.ShortFilePanics | crates/prover/src/compact_zkey.rs:702-708 | a body with one coefficient section of fewer than four bytes is such an input |
| CompactZkeyCodec.ScanLayout | crates/prover/src/compact_zkey.rs:345-385 | the position loop computes the layout function |
| CompactZkeyCodec.Encode | crates/prover/src/compact_zkey.rs:233-271 | a file is returned exactly when every section is taken and the file inflates back to the zkey |
| CompactZkeyCodec.FileRoundTrip | crates/prover/src/compact_zkey.rs:233-271 | with a lossless frame the file inflates to the zkey, so the internal check passes, exactly when all points are on their curves |
| ZkeyAcceptance.EncodedIff | crates/prover/src/compact_zkey.rs:233-271 | with a lossless frame a zkey put together from sections becomes a file that inflates back to it if and only if every section is taken by its number and its points are on their curves |
| IncrementalTree.Imt.Clone | crates/core/src/imt.rs:184-191 | a copy has the same leaves and table |
| AppendFrontier.NotesFrontier.Clone | crates/core/src/imt.rs:451-459 | a copy has the same slots and count |
| Sharding.FoldPairs | crates/core/src/imt.rs:1952-1978 | one level of the cap folds into the next |
| Sharding.CapPath | crates/core/src/imt.rs:1995-2030 | the siblings of a shard in the cap tree |
| MutableShardedTree.ShardedNotesTree.FreezeOwned | crates/core/src/imt.rs:1863-1885 | exactly the owned notes of the full shard get their path, and each of them is dirty |
| MutableShardedTree.ShardedNotesTree.AppendSegment | crates/core/src/imt.rs:1592-1625 | one segment of a batch, rebuilt or inserted leaf by leaf, is that many appends |
| MutableShardedTree.ShardedNotesTree.UnmarkAll | crates/core/src/imt.rs:1762-1793 | unmarking each dropped note in turn |
| MutableShardedTree.ShardedNotesTree.Record | crates/core/src/imt.rs:1441-1515 | one persisted note is checked and recorded as the restore function does |
| MutableShardedTree.ShardedNotesTree.RecordAll | crates/core/src/imt.rs:1441-1515 | all persisted notes, stopping at the first bad one |
| IndexedTree.New | crates/core/src/imt.rs:869-875 | a new indexed tree is empty; a depth past the index type is refused |
| IndexedTree.FromLeaves | crates/core/src/imt.rs:877-893 | a tree is built exactly from distinct leaves that fit it; the first failing check decides the error |
| IndexedTree.IndexedMerkleTree.Clone | crates/core/src/imt.rs:795-800 | a copy has the same leaves |
| WindowBuckets.AffineBuckets.Place | crates/prover/src/msm.rs:503-508 | the first point of an empty bucket becomes its value and is counted once |
| WindowBuckets.AffineBuckets.AddOverflow | crates/prover/src/msm.rs:499-502 | a hot bucket's point is counted in its overflow |
| WindowBuckets.AffineBuckets.SpillOne | crates/prover/src/msm.rs:541-544 | one deferred point moves to the overflow and its bucket turns hot |
| WindowBuckets.AffineBuckets.RetryOne | crates/prover/src/msm.rs:550-567 | one waiting point is settled or kept in place, conserving every bucket with the list so far |
| MultiScalarMultiplication.XyzzAdd | crates/prover/src/msm.rs:386-391 | one base changes the weighted sum by digit times base |
| MultiScalarMultiplication.DoubleTimes | crates/prover/src/msm.rs:894-896 | width doublings multiply by 2^width |
| MultiScalarMultiplication.SplitStep | crates/prover/src/msm.rs:119-127 | each pair goes to the rest or the ones and the two together stay the whole sum |
| MultiScalarMultiplication.SumOnes | crates/prover/src/msm.rs:138-163 | the sum of the bases whose scalar is one |
| AuthenticatedReaders.Source.Fill | crates/prover/src/authenticated_reader.rs:35-46 | reads on through short and interrupted answers until full or at the end |
| AuthenticatedReaders.AuthenticatedReader.constructor | crates/prover/src/authenticated_reader.rs:57-64 | a reader over authenticated chunks starts at the beginning with nothing cached |
| Blake512Hash.Blake512.constructor | crates/core/src/blake512.rs:137-145 | the fresh state |
| Blake512Hash.Blake512.LengthBytes | crates/core/src/blake512.rs:207-216 | the length bytes are the message length in bits |
| Blake512Hash.Blake512.FillAndOpen | crates/core/src/blake512.rs:227-234 | the marker block is compressed with the message length and the next block is zeros so far, its counter suppressed |
| Blake512Hash.OneBlockTail | crates/core/src/blake512.rs:218-227 | a tail of at most 111 bytes, the marker and the length fill the last block |
| Blake512Hash.TwoBlockTail | crates/core/src/blake512.rs:227-234 | a longer tail takes one more block |
| Eddsa.SeedKey | crates/core/src/eddsa.rs:203-211 | the clamped scalar and the multiple of its exact eighth |
| Eddsa.TimesModOrder | crates/core/src/secret_arithmetic.rs:65-73 | scalars act modulo the order |
| WitnessMap.IfftInPlace | crates/prover/src/qap.rs:362-366 | the buffer is overwritten with the interpolant |
| WitnessMap.FftInPlace | crates/prover/src/qap.rs:362-366 | the buffer is overwritten with the values on the domain |
| WitnessMap.DistributePowers | crates/prover/src/qap.rs:362-366 | the running power multiplies entry i by c g^i |
| WitnessMap.MultiplyRows | crates/prover/src/qap.rs:333-340 | C holds the row products, zero below the constraints |
| WitnessMap.MultiplySubtract | crates/prover/src/qap.rs:376-382 | a is overwritten with a b - c |
| WitnessMap.EvaluateNested | crates/prover/src/qap.rs:198-210 | both matrices on the base domain, or a stop at a signal out of range |
| WitnessMap.EvaluateCompact | crates/prover/src/qap.rs:259-269 | the base-domain values of the nested form |
| WitnessMap.NumeratorValue | crates/prover/src/qap.rs:368-381 | A times B minus C is one polynomial |
| CompactZkeyCodec.BodyReader.ReadExact | crates/prover/src/compact_zkey.rs:729-737 | all the bytes asked for, or an error |
| CompactZkeyCodec.CopyColumn | crates/prover/src/compact_zkey.rs:424-431 | one column of every record, in order |
| CompactZkeyCodec.EncodeAllSections | crates/prover/src/compact_zkey.rs:252-254 | the payloads in order, or the first refusal |
| CompactZkeyCodec.DecodeBatch | crates/prover/src/compact_zkey.rs:600-622 | a batch decodes like the function, stopping at the first bad point and naming it |
| CompactZkeyCodec.FillBatch | crates/prover/src/compact_zkey.rs:715-722 | a batch of values lands in the records it covers |
| CompactZkeyCodec.FillColumns | crates/prover/src/compact_zkey.rs:710-725 | four columns give back the records |
| CompactZkeyCodec.DecodeSection | crates/prover/src/compact_zkey.rs:566-577 | one section's region, exactly when its payload decodes; a panic exactly for a coefficient section below four bytes |
| CompactZkeyCodec.ReadTable | crates/prover/src/compact_zkey.rs:503-526 | the section table's loop computes the table function |

## Left out

- InclusionProofs.ProofBinding: a two-to-one hash on a finite field cannot be injective, so binding is stated with the colliding pair as the alternative; so are ChainBinds, AdoptedGenuine and RunWitnessesAreFlat.
- AuthenticatedReaders.AuthenticatedReader.Read: for the same reason a wrong byte is excluded up to a chunk with the same digest, which is left in the buffer; which of two colliding artifacts the pin meant is not decided.
- IncrementalTree.Imt.Insert: the panic on a full tree is a precondition; the checked forms return the error.
- PendingCommitments.BuildPendingCommitment: decimal strings and JSON are not modelled; the commitment is a record of numbers.
- PendingCommitments.BuildIndexedInput: the tree trait shared by both forms is modelled as one method per form.
- BoundPendingCommitments.BuildBoundIndexed: the calldata binding of the words (a chained Poseidon commitment, a Keccak challenge and a polynomial evaluation) and the packed-bytes entry point are not modelled.
- MutableShardedTree.ShardedNotesTree.DoAppend: the error returns after checks that cannot fail (a cap or live tree refusing an update, a rollover mismatch) are proved unreachable and do not appear.
- MutableShardedTree.ShardedNotesTree.DrainDirty: the order of a hash map's iteration is not modelled; results are in leaf order as the source sorts them.
- ShardedSnapshots.EncodableIff: overflow of buffer lengths past the index type is not modelled.
- BatchInversion.ApplyAll: points off the curve are covered (no zero denominator, the reflected third point), but have no group value.
- CurvePoints.AffineAdd: that the addition is associative is part of the hypothesis CurveLaws; the XYZZ and projective coordinates of accumulated sums are group elements here.
- MultiScalarMultiplication.MsmBigint: parallel window scheduling, the SIMD kernels and the streaming query that reuses buckets across chunks are not modelled; each window is serial.
- SerialQueues.Safety: a job's execution and a completion are single steps; a poisoned lock and the pool's own worker scheduling are not modelled.
- SerialQueues.AtRest: liveness is stated as a bound on internal steps; fairness of the threads that take them is assumed.
- AuthenticatedReaders.Open: the hexadecimal pin is given parsed or as absent; the source's answers are an arbitrary finite list.
- Blake512Hash.Blake512.CompressBlock: the round function and the constant tables are one uninterpreted function of chaining value, block and counter.
- Eddsa.Sign: messages of 2^256 or more, on which the source panics, are excluded; Poseidon and HMAC-SHA512 are uninterpreted; the projective addition formula is the group operation by hypothesis.
- Eddsa.SignScalarCompat: the checked constructors of scalars and points are preconditions (a secret strictly between zero and the order).
- WitnessMap.FinishEvaluations: the inverse transform is uninterpreted with its interpolation law; SIMD transforms and the workspace form are not modelled.
- WitnessMap.WitnessMapFromCompactMatrices: a compact matrix is required to be well formed, as its only constructor makes it.
- CompactZkeyCodec.Inflate: the zstd frame is a partial function from frame to body; window limits, checksums, allocation failures and stream errors are not modelled. A body the table, a section or its end makes malformed is one error, and a batch cut short ahead of a bad point is reported as malformed.
- CompactZkey.BodyRoundTrip: the zkey's length is below 2^64, the width of its length fields.
- Poseidon, SHA-256, Keccak, AES-CTR, HKDF, pairings and arkworks internals: uninterpreted or absent.
- C ABI and Node marshalling, N-API promises, handles, decimal and JSON formatting: glue.
- Parallelism, zeroization, constant-time selection, phase timing: the model is serial and value-level.
- OrderedMerkleTree, getters, note commitments, the additive cipher, calldata and hex parsers: true but easy members.
- stealth.rs: its content is the bilinearity of a pairing library.
