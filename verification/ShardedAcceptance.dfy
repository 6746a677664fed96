/**
 When the sharded tree takes an operation, told by the leaf log and the marked notes alone; what
 the operation does to the notes; which error refuses it; and which snapshots are restored.
 */
module ShardedAcceptance {
  import opened Binary
  import opened NodeHash
  import opened TreeErrors
  import opened InclusionProofs
  import opened ShardedState
  import opened ShardedInvariant
  import opened ShardedWitnesses
  import opened ShardedRuns

  /** The leaves of a log that lie in whole shards. */
  function WholeLeaves(g: Geometry, log: seq<Fr>): nat {
    Shr(|log|, g.shardHeight) * g.ShardSize()
  }

  /** No note but `id` is marked at `leafIndex`. */
  predicate FreeFor(s: NotesState, leafIndex: nat, id: Fr) {
    leafIndex in s.ownedLeaves ==> s.ownedLeaves[leafIndex] == id
  }

  /** `id` is not marked anywhere but at `leafIndex`. */
  predicate OnlyAt(s: NotesState, id: Fr, leafIndex: nat) {
    id in s.ownedNotes ==> s.ownedNotes[id].leafIndex == leafIndex
  }

  /** The operation suits the log and the marked notes. */
  ghost predicate Suits(g: Geometry, s: NotesState, log: seq<Fr>, op: Op) {
    match op
    case AppendOp(id) => |log| < Pow2(g.depth) && FreeFor(s, |log|, id)
    case AppendManyOp(ids) =>
      |log| + |ids| <= Pow2(g.depth) && forall k | 0 <= k < |ids| :: FreeFor(s, |log| + k, ids[k])
    case MarkOp(id, i) =>
      && WholeLeaves(g, log) <= i < Pow2(g.depth) && OnlyAt(s, id, i) && FreeFor(s, i, id)
      && (i < |log| ==> log[i] == id)
    case UnmarkOp(_) => true
    case AdoptOp(id, i, siblings) =>
      && i < WholeLeaves(g, log) && OnlyAt(s, id, i) && FreeFor(s, i, id)
      && |siblings| == g.shardHeight
      && Fold(id, i, siblings) == NodeAt(log, ZERO, g.shardHeight, Shr(i, g.shardHeight))
    case RewindOp(leafCount) => WholeLeaves(g, log) <= leafCount <= |log|
    case DrainOp => true
  }

  /** The error of an operation that does not suit. */
  ghost predicate Fault(g: Geometry, s: NotesState, log: seq<Fr>, op: Op, error: TreeError) {
    match op
    case AppendOp(id) =>
      error == if |log| >= Pow2(g.depth) then TreeFull(g.depth) else OwnedLeafMismatch(|log|)
    case AppendManyOp(ids) =>
      if |log| + |ids| > Pow2(g.depth) then error == TreeFull(g.depth)
      else exists k | 0 <= k < |ids| :: !FreeFor(s, |log| + k, ids[k]) && error == OwnedLeafMismatch(|log| + k)
                                        && forall j | 0 <= j < k :: FreeFor(s, |log| + j, ids[j])
    case MarkOp(id, i) =>
      error ==
        if i >= Pow2(g.depth) then LeafIndexOutOfRange(i, Pow2(g.depth))
        else if i < WholeLeaves(g, log) then NoteAlreadyCompleted(Shr(i, g.shardHeight))
        else if !OnlyAt(s, id, i) then DuplicateOwnedLeaf(s.ownedNotes[id].leafIndex)
        else if !FreeFor(s, i, id) then DuplicateOwnedLeaf(i)
        else OwnedLeafMismatch(i)
    case AdoptOp(id, i, siblings) =>
      error ==
        if i >= WholeLeaves(g, log) then ShardNotCompleted(Shr(i, g.shardHeight))
        else if !OnlyAt(s, id, i) then DuplicateOwnedLeaf(s.ownedNotes[id].leafIndex)
        else if !FreeFor(s, i, id) then DuplicateOwnedLeaf(i)
        else if |siblings| != g.shardHeight then InvalidSiblingCount(g.shardHeight, |siblings|)
        else WitnessRootMismatch(Shr(i, g.shardHeight))
    case RewindOp(leafCount) =>
      error == if leafCount < WholeLeaves(g, log) then RewindBeforeCompleted(WholeLeaves(g, log), leafCount)
               else LeafIndexOutOfRange(leafCount, |log|)
    case _ => false
  }

  /** What becomes of the notes; appending freezes paths and nothing else. */
  ghost predicate NotesAfter(s: NotesState, next: NotesState, op: Op) {
    match op
    case AppendOp(_) => SameMarks(s, next)
    case AppendManyOp(_) => SameMarks(s, next)
    case MarkOp(id, i) =>
      next.ownedNotes == if id in s.ownedNotes then s.ownedNotes else s.ownedNotes[id := OwnedNoteWitness(id, i, None)]
    case UnmarkOp(id) => next.ownedNotes == s.ownedNotes - {id}
    case AdoptOp(id, i, siblings) => next.ownedNotes == s.ownedNotes[id := OwnedNoteWitness(id, i, Some(siblings))]
    case RewindOp(leafCount) =>
      && (forall id :: id in next.ownedNotes <==> id in s.ownedNotes && s.ownedNotes[id].leafIndex < leafCount)
      && (forall id | id in next.ownedNotes :: next.ownedNotes[id] == s.ownedNotes[id])
    case DrainOp => next.ownedNotes == s.ownedNotes && next.dirty == {}
  }

  /** The same notes at the same leaves, and no frozen path replaced. */
  ghost predicate SameMarks(s: NotesState, next: NotesState) {
    && next.ownedNotes.Keys == s.ownedNotes.Keys
    && forall id | id in s.ownedNotes ::
         && next.ownedNotes[id].leafIndex == s.ownedNotes[id].leafIndex
         && (s.ownedNotes[id].withinShardSiblings.Some? ==> next.ownedNotes[id] == s.ownedNotes[id])
  }

  // ----- acceptance and errors -----

  /** Every operation succeeds exactly when it suits the log, and is refused with the error of what does not suit. */
  lemma AcceptedIff(g: Geometry, s: NotesState, log: seq<Fr>, op: Op)
    requires Inv(g, s) && Represents(g, s, log)
    ensures Apply(g, s, op).Ok? <==> Suits(g, s, log, op)
    ensures Apply(g, s, op).Err? ==> Fault(g, s, log, op, Apply(g, s, op).error)
  {
    hide Pow2, Shr, NodeAt, NotesOk, Inverse, Fold, Push, PushAll, Fits, FirstClash;
    CountWithin(g, s);
    match op {
      case AppendManyOp(ids) => BatchAccepted(g, s, log, ids);
      case MarkOp(id, i) => MarkAccepted(g, s, log, id, i);
      case AdoptOp(id, i, siblings) => AdoptAccepted(g, s, log, id, i, siblings);
      case _ =>
    }
  }

  lemma BatchAccepted(g: Geometry, s: NotesState, log: seq<Fr>, ids: seq<Fr>)
    requires Inv(g, s) && Represents(g, s, log)
    ensures AppendMany(g, s, ids).Ok? <==> Suits(g, s, log, AppendManyOp(ids))
    ensures AppendMany(g, s, ids).Err? ==> Fault(g, s, log, AppendManyOp(ids), AppendMany(g, s, ids).error)
  {
    hide Pow2, Shr, NodeAt, NotesOk, Inverse, PushAll, Fits;
    CountWithin(g, s);
    forall k | 0 <= k < |ids|
      ensures Clashes(s.ownedLeaves, |log| + k, ids[k]) <==> !FreeFor(s, |log| + k, ids[k])
    {}
  }

  lemma MarkAccepted(g: Geometry, s: NotesState, log: seq<Fr>, id: Fr, i: nat)
    requires Inv(g, s) && Represents(g, s, log)
    ensures MarkOwned(g, s, id, i).Ok? <==> Suits(g, s, log, MarkOp(id, i))
    ensures MarkOwned(g, s, id, i).Err? ==> Fault(g, s, log, MarkOp(id, i), MarkOwned(g, s, id, i).error)
  {
    hide Pow2, Shr, NodeAt, Fold;
    var shards := |s.completedRoots|;
    PastShards(g, shards, i);
    if shards <= Shr(i, g.shardHeight) && i < |log| {
      LiveIndex(g, shards, |s.liveLeaves|, i);
      LiveIsChunk(g, log, s.liveLeaves, shards, i);
      if id in s.ownedNotes && s.ownedNotes[id].leafIndex == i {
        assert NoteOk(g, s.completedRoots, s.liveLeaves, s.ownedNotes[id]);
      }
    }
  }

  lemma AdoptAccepted(g: Geometry, s: NotesState, log: seq<Fr>, id: Fr, i: nat, siblings: seq<Fr>)
    requires Inv(g, s) && Represents(g, s, log)
    ensures AdoptFrozen(g, s, id, i, siblings).Ok? <==> Suits(g, s, log, AdoptOp(id, i, siblings))
    ensures AdoptFrozen(g, s, id, i, siblings).Err? ==>
      Fault(g, s, log, AdoptOp(id, i, siblings), AdoptFrozen(g, s, id, i, siblings).error)
  {
    hide Pow2, Shr, NodeAt, Fold, NotesOk, Inverse, Fits;
    PastShards(g, |s.completedRoots|, i);
    if |siblings| == g.shardHeight {
      FoldWithin(id, i, g.shardHeight, siblings);
    }
  }

  /** An operation that succeeds leaves exactly the notes it should. */
  lemma NotesFollow(g: Geometry, s: NotesState, op: Op)
    requires Inv(g, s) && Apply(g, s, op).Ok?
    ensures NotesAfter(s, Apply(g, s, op).value, op)
  {
    hide Pow2, Shr, NotesOk, Inverse, Fold, Push, PushAll, Fits;
    match op {
      case AppendOp(id) => PushSame(g, s, id);
      case AppendManyOp(ids) => PushAllSame(g, s, ids);
      case _ =>
    }
  }

  lemma PushSame(g: Geometry, s: NotesState, id: Fr)
    ensures SameMarks(s, Push(g, s, id))
  {
    hide Pow2, Shr, Root;
  }

  lemma {:induction false} PushAllSame(g: Geometry, s: NotesState, ids: seq<Fr>)
    ensures SameMarks(s, PushAll(g, s, ids))
  {
    hide Push;
    if ids != [] {
      PushAllSame(g, s, ids[..|ids| - 1]);
      PushSame(g, PushAll(g, s, ids[..|ids| - 1]), ids[|ids| - 1]);
    }
  }

  // ----- snapshots -----

  /** Sorted or not, no two persisted notes share an id or a leaf. */
  ghost predicate NotesApart(notes: seq<OwnedNoteWitness>) {
    forall i, j | 0 <= i < j < |notes| :: notes[i].noteId != notes[j].noteId && notes[i].leafIndex != notes[j].leafIndex
  }

  ghost predicate AllOk(g: Geometry, completed: seq<Fr>, live: seq<Fr>, notes: seq<OwnedNoteWitness>) {
    forall i | 0 <= i < |notes| :: NoteOk(g, completed, live, notes[i])
  }

  /** The recorded maps hold the notes and nothing else. */
  ghost predicate Records(owned: Owned, notes: seq<OwnedNoteWitness>) {
    && (forall id :: id in owned.0 <==> exists i | 0 <= i < |notes| :: notes[i].noteId == id)
    && (forall leaf :: leaf in owned.1 <==> exists i | 0 <= i < |notes| :: notes[i].leafIndex == leaf)
    && (forall i | 0 <= i < |notes| :: notes[i].noteId in owned.0 && owned.0[notes[i].noteId] == notes[i])
  }

  lemma RestoreOneIff(g: Geometry, completed: seq<Fr>, live: seq<Fr>, owned: Owned, note: OwnedNoteWitness)
    requires g.Valid()
    ensures RestoreOne(g, completed, live, owned, note).Ok? <==>
      NoteOk(g, completed, live, note) && note.noteId !in owned.0 && note.leafIndex !in owned.1
    ensures RestoreOne(g, completed, live, owned, note).Ok? ==>
      RestoreOne(g, completed, live, owned, note).value == (owned.0[note.noteId := note], owned.1[note.leafIndex := note.noteId])
  {
    hide Pow2, Shr, Fold;
  }

  lemma RecordsOneMore(owned: Owned, notes: seq<OwnedNoteWitness>, note: OwnedNoteWitness)
    requires Records(owned, notes) && note.noteId !in owned.0 && note.leafIndex !in owned.1
    ensures Records((owned.0[note.noteId := note], owned.1[note.leafIndex := note.noteId]), notes + [note])
  {
    var more := notes + [note];
    assert more[|notes|] == note && forall i | 0 <= i < |notes| :: more[i] == notes[i];
  }

  lemma ApartOneMore(g: Geometry, completed: seq<Fr>, live: seq<Fr>, owned: Owned, notes: seq<OwnedNoteWitness>, note: OwnedNoteWitness)
    requires Records(owned, notes)
    ensures NotesApart(notes + [note]) <==> NotesApart(notes) && note.noteId !in owned.0 && note.leafIndex !in owned.1
    ensures AllOk(g, completed, live, notes + [note]) <==> AllOk(g, completed, live, notes) && NoteOk(g, completed, live, note)
  {
    hide NoteOk;
    var more := notes + [note];
    assert more[|notes|] == note && forall i | 0 <= i < |notes| :: more[i] == notes[i];
  }

  lemma {:induction false} RestoreAllIff(g: Geometry, completed: seq<Fr>, live: seq<Fr>, notes: seq<OwnedNoteWitness>)
    requires g.Valid()
    ensures RestoreAll(g, completed, live, notes).Ok? <==> NotesApart(notes) && AllOk(g, completed, live, notes)
    ensures RestoreAll(g, completed, live, notes).Ok? ==> Records(RestoreAll(g, completed, live, notes).value, notes)
  {
    hide RestoreOne, NoteOk, Records, NotesApart, AllOk;
    if notes == [] {
      NothingRecorded(g, completed, live);
    } else {
      var last := |notes| - 1;
      RestoreAllIff(g, completed, live, notes[..last]);
      assert notes == notes[..last] + [notes[last]];
      if RestoreAll(g, completed, live, notes[..last]).Ok? {
        var owned := RestoreAll(g, completed, live, notes[..last]).value;
        RestoreOneIff(g, completed, live, owned, notes[last]);
        ApartOneMore(g, completed, live, owned, notes[..last], notes[last]);
        if RestoreOne(g, completed, live, owned, notes[last]).Ok? {
          RecordsOneMore(owned, notes[..last], notes[last]);
        }
      } else {
        PrefixOk(g, completed, live, notes, last);
      }
    }
  }

  lemma NothingRecorded(g: Geometry, completed: seq<Fr>, live: seq<Fr>)
    ensures NotesApart([]) && AllOk(g, completed, live, []) && Records((map[], map[]), [])
  {}

  lemma PrefixOk(g: Geometry, completed: seq<Fr>, live: seq<Fr>, notes: seq<OwnedNoteWitness>, n: nat)
    requires n <= |notes|
    ensures NotesApart(notes) ==> NotesApart(notes[..n])
    ensures AllOk(g, completed, live, notes) ==> AllOk(g, completed, live, notes[..n])
  {
    hide NoteOk;
  }

  /**
   A snapshot is restored exactly when its geometry is valid, its shards and leaves fit, no two
   notes share an id or a leaf, and each note agrees with the roots and leaves; the tree then owns
   exactly those notes.
   */
  lemma RestoreIff(snapshot: ShardedTreeSnapshot)
    ensures var g := Geometry(snapshot.depth, snapshot.shardHeight);
      && (Restore(snapshot).Ok? <==>
            && g.Valid() && Fits(g, snapshot.completedRoots, snapshot.liveLeaves)
            && NotesApart(snapshot.ownedNotes)
            && AllOk(g, snapshot.completedRoots, snapshot.liveLeaves, snapshot.ownedNotes))
      && (Restore(snapshot).Ok? ==>
            var s := Restore(snapshot).value;
            && s.completedRoots == snapshot.completedRoots && s.liveLeaves == snapshot.liveLeaves && s.dirty == {}
            && Records((s.ownedNotes, s.ownedLeaves), snapshot.ownedNotes))
  {
    hide Pow2, RestoreAll, NotesApart, AllOk, Records;
    var g := Geometry(snapshot.depth, snapshot.shardHeight);
    if g.Valid() {
      RestoreAllIff(g, snapshot.completedRoots, snapshot.liveLeaves, snapshot.ownedNotes);
    }
  }
}
