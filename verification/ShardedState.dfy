/**
 The sharded notes tree as a value: its operations, the invariant every one of them keeps,
 and what they mean for the flat tree over the leaf log.

 The class in `ShardedNotesTree` is proved to perform exactly these steps.
 */
module ShardedState {
  import opened Binary
  import opened NodeHash
  import opened TreeErrors
  import opened InclusionProofs
  import opened Sharding

  /** Persisted witness state of one owned note; the path is frozen once its shard completes. */
  datatype OwnedNoteWitness = OwnedNoteWitness(noteId: Fr, leafIndex: nat, withinShardSiblings: Option<seq<Fr>>)

  datatype Geometry = Geometry(depth: nat, shardHeight: nat) {
    predicate Valid() {
      0 < shardHeight < depth < USIZE_BITS
    }

    function CapDepth(): nat
      requires Valid()
    {
      depth - shardHeight
    }

    function ShardSize(): nat {
      Pow2(shardHeight)
    }
  }

  datatype NotesState = NotesState(
    completedRoots: seq<Fr>,
    liveLeaves: seq<Fr>,
    ownedNotes: map<Fr, OwnedNoteWitness>,
    ownedLeaves: map<nat, Fr>,
    dirty: set<Fr>)

  const EMPTY_STATE: NotesState := NotesState([], [], map[], map[], {})

  function Count(g: Geometry, s: NotesState): nat {
    |s.completedRoots| * g.ShardSize() + |s.liveLeaves|
  }

  /** The cap's leaves: one root per completed shard, then the live shard's unless it is empty. */
  function CapLeaves(g: Geometry, completed: seq<Fr>, live: seq<Fr>): seq<Fr> {
    completed + if live == [] then [] else [Root(live, ZERO, g.shardHeight)]
  }

  function CapZero(g: Geometry): Fr {
    ZeroRoot(ZERO, g.shardHeight)
  }

  function RootOf(g: Geometry, s: NotesState): Fr
    requires g.Valid()
  {
    Root(CapLeaves(g, s.completedRoots, s.liveLeaves), CapZero(g), g.CapDepth())
  }

  // ----- the invariant -----

  /** At most one partial shard, and no more leaves than the tree holds. */
  ghost predicate Fits(g: Geometry, completed: seq<Fr>, live: seq<Fr>)
    requires g.Valid()
  {
    && |completed| <= Pow2(g.CapDepth())
    && |live| < g.ShardSize()
    && (|completed| == Pow2(g.CapDepth()) ==> live == [])
  }

  /** The note map and the leaf map are inverse to each other. */
  ghost predicate Inverse(notes: map<Fr, OwnedNoteWitness>, leaves: map<nat, Fr>) {
    && (forall id | id in notes :: notes[id].noteId == id && notes[id].leafIndex in leaves && leaves[notes[id].leafIndex] == id)
    && (forall i | i in leaves :: leaves[i] in notes && notes[leaves[i]].leafIndex == i)
  }

  /** `verify_frozen_path` for a path of a completed shard. */
  predicate FrozenPathOk(g: Geometry, completed: seq<Fr>, id: Fr, leafIndex: nat, siblings: seq<Fr>) {
    && Shr(leafIndex, g.shardHeight) < |completed|
    && |siblings| == g.shardHeight
    && Fold(id, Within(leafIndex, g.shardHeight), siblings) == completed[Shr(leafIndex, g.shardHeight)]
  }

  /** `live.leaf(within)` of a leaf index. */
  function LiveLeaf(g: Geometry, live: seq<Fr>, leafIndex: nat): Option<Fr> {
    var within := Within(leafIndex, g.shardHeight);
    if within < |live| then Some(live[within]) else None
  }

  /** A completed note has a path to its shard's root; any other note is in, or past, the live shard. */
  ghost predicate NoteOk(g: Geometry, completed: seq<Fr>, live: seq<Fr>, note: OwnedNoteWitness) {
    && note.leafIndex < Pow2(g.depth)
    && match note.withinShardSiblings
       case Some(siblings) => FrozenPathOk(g, completed, note.noteId, note.leafIndex, siblings)
       case None =>
         && |completed| <= Shr(note.leafIndex, g.shardHeight)
         && (note.leafIndex < |completed| * g.ShardSize() + |live| ==>
               LiveLeaf(g, live, note.leafIndex) == Some(note.noteId))
  }

  ghost predicate NotesOk(g: Geometry, completed: seq<Fr>, live: seq<Fr>, notes: map<Fr, OwnedNoteWitness>) {
    forall id | id in notes :: NoteOk(g, completed, live, notes[id])
  }

  ghost predicate Inv(g: Geometry, s: NotesState) {
    && g.Valid()
    && Fits(g, s.completedRoots, s.liveLeaves)
    && Inverse(s.ownedNotes, s.ownedLeaves)
    && NotesOk(g, s.completedRoots, s.liveLeaves, s.ownedNotes)
    && s.dirty <= s.ownedNotes.Keys
  }

  // ----- appending -----

  function EnsureRoom(g: Geometry, s: NotesState, additional: nat): Result<()> {
    if additional > Pow2(g.depth) - Count(g, s) then Err(TreeFull(g.depth)) else Ok(())
  }

  /** A leaf may only fill a marked slot when it is the marked note. */
  predicate Clashes(leaves: map<nat, Fr>, leafIndex: nat, id: Fr) {
    leafIndex in leaves && leaves[leafIndex] != id
  }

  predicate InShard(g: Geometry, note: OwnedNoteWitness, shard: nat) {
    Shr(note.leafIndex, g.shardHeight) == shard && note.withinShardSiblings.None?
  }

  function Freeze(g: Geometry, live: seq<Fr>, note: OwnedNoteWitness, shard: nat): OwnedNoteWitness {
    if InShard(g, note, shard) then
      note.(withinShardSiblings := Some(Siblings(live, ZERO, g.shardHeight, Within(note.leafIndex, g.shardHeight))))
    else note
  }

  /** The full live shard becomes a root, and every owned path in it is frozen. */
  function RollOver(g: Geometry, s: NotesState): NotesState {
    var shard := |s.completedRoots|;
    s.(completedRoots := s.completedRoots + [Root(s.liveLeaves, ZERO, g.shardHeight)],
       liveLeaves := [],
       ownedNotes := map id | id in s.ownedNotes :: Freeze(g, s.liveLeaves, s.ownedNotes[id], shard),
       dirty := s.dirty + set id | id in s.ownedNotes && InShard(g, s.ownedNotes[id], shard))
  }

  function RollOverIfFull(g: Geometry, s: NotesState): NotesState {
    if |s.liveLeaves| == g.ShardSize() then RollOver(g, s) else s
  }

  function Push(g: Geometry, s: NotesState, id: Fr): NotesState {
    RollOverIfFull(g, s.(liveLeaves := s.liveLeaves + [id]))
  }

  function PushAll(g: Geometry, s: NotesState, ids: seq<Fr>): NotesState {
    if ids == [] then s else Push(g, PushAll(g, s, ids[..|ids| - 1]), ids[|ids| - 1])
  }

  function Append(g: Geometry, s: NotesState, id: Fr): Result<NotesState> {
    var _ :- EnsureRoom(g, s, 1);
    if Clashes(s.ownedLeaves, Count(g, s), id) then Err(OwnedLeafMismatch(Count(g, s))) else Ok(Push(g, s, id))
  }

  /** The first offset of a batch that would fill a slot marked for another note. */
  function FirstClash(leaves: map<nat, Fr>, first: nat, ids: seq<Fr>, offset: nat): (clash: Option<nat>)
    requires offset <= |ids|
    ensures clash.None? <==> forall i | offset <= i < |ids| :: !Clashes(leaves, first + i, ids[i])
    ensures clash.Some? ==>
      && offset <= clash.value < |ids| && Clashes(leaves, first + clash.value, ids[clash.value])
      && forall i | offset <= i < clash.value :: !Clashes(leaves, first + i, ids[i])
    decreases |ids| - offset
  {
    if offset == |ids| then None
    else if Clashes(leaves, first + offset, ids[offset]) then Some(offset)
    else FirstClash(leaves, first, ids, offset + 1)
  }

  function AppendMany(g: Geometry, s: NotesState, ids: seq<Fr>): Result<NotesState> {
    var _ :- EnsureRoom(g, s, |ids|);
    var clash := FirstClash(s.ownedLeaves, Count(g, s), ids, 0);
    if clash.Some? then Err(OwnedLeafMismatch(Count(g, s) + clash.value)) else Ok(PushAll(g, s, ids))
  }

  /** One append after another, stopping at the first refusal. */
  function AppendEach(g: Geometry, s: NotesState, ids: seq<Fr>): Result<NotesState> {
    if ids == [] then Ok(s)
    else
      var before :- AppendEach(g, s, ids[..|ids| - 1]);
      Append(g, before, ids[|ids| - 1])
  }

  // ----- owned notes -----

  function MarkOwned(g: Geometry, s: NotesState, id: Fr, leafIndex: nat): Result<NotesState> {
    if leafIndex >= Pow2(g.depth) then Err(LeafIndexOutOfRange(leafIndex, Pow2(g.depth)))
    else if Shr(leafIndex, g.shardHeight) < |s.completedRoots| then
      Err(NoteAlreadyCompleted(Shr(leafIndex, g.shardHeight)))
    else if id in s.ownedNotes then
      if s.ownedNotes[id].leafIndex == leafIndex then Ok(s) else Err(DuplicateOwnedLeaf(s.ownedNotes[id].leafIndex))
    else if Clashes(s.ownedLeaves, leafIndex, id) then Err(DuplicateOwnedLeaf(leafIndex))
    else if leafIndex < Count(g, s) && LiveLeaf(g, s.liveLeaves, leafIndex) != Some(id) then
      Err(OwnedLeafMismatch(leafIndex))
    else Ok(Adopted(s, OwnedNoteWitness(id, leafIndex, None)))
  }

  function Adopted(s: NotesState, note: OwnedNoteWitness): NotesState {
    s.(ownedLeaves := s.ownedLeaves[note.leafIndex := note.noteId],
       ownedNotes := s.ownedNotes[note.noteId := note],
       dirty := s.dirty + {note.noteId})
  }

  function UnmarkOwned(s: NotesState, id: Fr): NotesState {
    if id in s.ownedNotes then
      s.(ownedNotes := s.ownedNotes - {id},
         ownedLeaves := s.ownedLeaves - {s.ownedNotes[id].leafIndex},
         dirty := s.dirty - {id})
    else s.(dirty := s.dirty - {id})
  }

  function VerifyFrozenPath(g: Geometry, completed: seq<Fr>, id: Fr, leafIndex: nat, siblings: seq<Fr>): (r: Result<()>)
    ensures r.Ok? <==> FrozenPathOk(g, completed, id, leafIndex, siblings)
  {
    var shard := Shr(leafIndex, g.shardHeight);
    if |siblings| != g.shardHeight then Err(InvalidSiblingCount(g.shardHeight, |siblings|))
    else if shard >= |completed| then Err(ShardNotCompleted(shard))
    else if Fold(id, Within(leafIndex, g.shardHeight), siblings) != completed[shard] then Err(WitnessRootMismatch(shard))
    else Ok(())
  }

  function AdoptFrozen(g: Geometry, s: NotesState, id: Fr, leafIndex: nat, siblings: seq<Fr>): Result<NotesState> {
    var shard := Shr(leafIndex, g.shardHeight);
    if shard >= |s.completedRoots| then Err(ShardNotCompleted(shard))
    else if id in s.ownedNotes && s.ownedNotes[id].leafIndex != leafIndex then
      Err(DuplicateOwnedLeaf(s.ownedNotes[id].leafIndex))
    else if Clashes(s.ownedLeaves, leafIndex, id) then Err(DuplicateOwnedLeaf(leafIndex))
    else
      var _ :- VerifyFrozenPath(g, s.completedRoots, id, leafIndex, siblings);
      Ok(Adopted(s, OwnedNoteWitness(id, leafIndex, Some(siblings))))
  }

  // ----- rewinding -----

  function CompletedCount(g: Geometry, s: NotesState): nat {
    |s.completedRoots| * g.ShardSize()
  }

  /** Drop a suffix of the live shard and every note marked at or past the new end. */
  function RewindLive(g: Geometry, s: NotesState, leafCount: nat): Result<NotesState> {
    if leafCount < CompletedCount(g, s) then Err(RewindBeforeCompleted(CompletedCount(g, s), leafCount))
    else if leafCount > Count(g, s) then Err(LeafIndexOutOfRange(leafCount, Count(g, s)))
    else
      var kept := map id | id in s.ownedNotes && s.ownedNotes[id].leafIndex < leafCount :: s.ownedNotes[id];
      Ok(s.(liveLeaves := s.liveLeaves[..leafCount - CompletedCount(g, s)],
            ownedNotes := kept,
            ownedLeaves := map i | i in s.ownedLeaves && i < leafCount :: s.ownedLeaves[i],
            dirty := s.dirty * kept.Keys))
  }

  /** The owned notes at leaf indices `from..to`, in ascending leaf order. */
  function OwnedRange(leaves: map<nat, Fr>, from: nat, to: nat): seq<Fr>
    decreases to - from
  {
    if from >= to then []
    else (if from in leaves then [leaves[from]] else []) + OwnedRange(leaves, from + 1, to)
  }

  // ----- witnesses -----

  /** The depth-`depth` proof of an owned note: its shard path, then the current cap path. */
  function Witness(g: Geometry, s: NotesState, id: Fr): Result<InclusionProof>
    requires g.Valid()
  {
    if id !in s.ownedNotes then Err(NoteNotMarked)
    else
      var note := s.ownedNotes[id];
      var shard := Shr(note.leafIndex, g.shardHeight);
      var within :-
        match note.withinShardSiblings
        case Some(frozen) => Ok(frozen)
        case None =>
          if shard != |s.completedRoots| || LiveLeaf(g, s.liveLeaves, note.leafIndex) != Some(id)
          then Err(OwnedLeafMismatch(note.leafIndex))
          else Ok(Siblings(s.liveLeaves, ZERO, g.shardHeight, Within(note.leafIndex, g.shardHeight)));
      var cap := CapLeaves(g, s.completedRoots, s.liveLeaves);
      Ok(InclusionProof(id, note.leafIndex, within + Siblings(cap, CapZero(g), g.CapDepth(), shard), RootOf(g, s)))
  }
}
