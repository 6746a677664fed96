/**
 Snapshots of the sharded tree, and safety over whole runs of its operations.
 */
module ShardedRuns {
  import opened Binary
  import opened NodeHash
  import opened TreeErrors
  import opened InclusionProofs
  import opened Sharding
  import opened ShardedState
  import opened ShardedInvariant
  import opened ShardedWitnesses

  // ----- snapshot and restore -----

  datatype ShardedTreeSnapshot = ShardedTreeSnapshot(
    depth: nat,
    shardHeight: nat,
    completedRoots: seq<Fr>,
    liveLeaves: seq<Fr>,
    ownedNotes: seq<OwnedNoteWitness>)

  type Owned = (map<Fr, OwnedNoteWitness>, map<nat, Fr>)

  /** The owned notes below leaf index `to`, sorted by leaf index. */
  function OwnedSorted(notes: map<Fr, OwnedNoteWitness>, leaves: map<nat, Fr>, to: nat): seq<OwnedNoteWitness>
    requires Inverse(notes, leaves)
  {
    if to == 0 then []
    else OwnedSorted(notes, leaves, to - 1) + if to - 1 in leaves then [notes[leaves[to - 1]]] else []
  }

  ghost predicate Ascending(notes: seq<OwnedNoteWitness>) {
    forall i, j | 0 <= i < j < |notes| :: notes[i].leafIndex < notes[j].leafIndex
  }

  predicate IsOwnedBelow(notes: map<Fr, OwnedNoteWitness>, to: nat, note: OwnedNoteWitness) {
    note.noteId in notes && notes[note.noteId] == note && note.leafIndex < to
  }

  lemma OwnedNext(notes: map<Fr, OwnedNoteWitness>, leaves: map<nat, Fr>, to: nat, note: OwnedNoteWitness)
    requires Inverse(notes, leaves) && 0 < to
    ensures IsOwnedBelow(notes, to, note) <==>
      IsOwnedBelow(notes, to - 1, note) || (to - 1 in leaves && note == notes[leaves[to - 1]])
  {}

  lemma CountNext(notes: map<Fr, OwnedNoteWitness>, leaves: map<nat, Fr>, to: nat)
    requires Inverse(notes, leaves) && 0 < to
    ensures |NotesBelow(notes, to)| == |NotesBelow(notes, to - 1)| + if to - 1 in leaves then 1 else 0
  {
    if to - 1 in leaves {
      assert NotesBelow(notes, to) == NotesBelow(notes, to - 1)[leaves[to - 1] := notes[leaves[to - 1]]];
    } else {
      assert NotesBelow(notes, to) == NotesBelow(notes, to - 1);
    }
  }

  /** The sorted list is strictly ascending and holds each owned note below `to` once, and no other. */
  lemma {:induction false} SortedIsOwned(notes: map<Fr, OwnedNoteWitness>, leaves: map<nat, Fr>, to: nat)
    requires Inverse(notes, leaves)
    ensures Ascending(OwnedSorted(notes, leaves, to))
    ensures forall note :: note in OwnedSorted(notes, leaves, to) <==> IsOwnedBelow(notes, to, note)
    ensures |OwnedSorted(notes, leaves, to)| == |NotesBelow(notes, to)|
  {
    if to == 0 {
      assert NotesBelow(notes, 0) == map[];
    } else {
      SortedIsOwned(notes, leaves, to - 1);
      CountNext(notes, leaves, to);
      var before, sorted := OwnedSorted(notes, leaves, to - 1), OwnedSorted(notes, leaves, to);
      var next := if to - 1 in leaves then [notes[leaves[to - 1]]] else [];
      SortedMore(notes, leaves, to, before, next);
      assert sorted == before + next;
    }
  }

  lemma SortedMore(notes: map<Fr, OwnedNoteWitness>, leaves: map<nat, Fr>, to: nat,
                   before: seq<OwnedNoteWitness>, next: seq<OwnedNoteWitness>)
    requires Inverse(notes, leaves) && 0 < to && Ascending(before)
    requires forall note :: note in before <==> IsOwnedBelow(notes, to - 1, note)
    requires next == if to - 1 in leaves then [notes[leaves[to - 1]]] else []
    ensures Ascending(before + next)
    ensures forall note :: note in before + next <==> IsOwnedBelow(notes, to, note)
  {
    forall note
      ensures note in before + next <==> IsOwnedBelow(notes, to, note)
    {
      OwnedNext(notes, leaves, to, note);
      assert note in next <==> (to - 1 in leaves && note == notes[leaves[to - 1]]);
    }
    forall i | 0 <= i < |before|
      ensures before[i].leafIndex < to - 1
    {
      assert before[i] in before;
    }
  }

  /** Every owned note lies inside the tree, so its snapshot lists them all. */
  lemma SnapshotLists(g: Geometry, s: NotesState)
    requires Inv(g, s)
    ensures Ascending(Snapshot(g, s).ownedNotes)
    ensures forall note: OwnedNoteWitness :: note in Snapshot(g, s).ownedNotes
                                        <==> note.noteId in s.ownedNotes && s.ownedNotes[note.noteId] == note
    ensures |Snapshot(g, s).ownedNotes| == |s.ownedNotes|
  {
    hide Pow2, OwnedSorted, Ascending;
    SortedIsOwned(s.ownedNotes, s.ownedLeaves, Pow2(g.depth));
    NotesInTree(g, s);
    assert NotesBelow(s.ownedNotes, Pow2(g.depth)) == s.ownedNotes;
  }

  lemma NotesInTree(g: Geometry, s: NotesState)
    requires Inv(g, s)
    ensures forall id | id in s.ownedNotes :: s.ownedNotes[id].leafIndex < Pow2(g.depth)
  {
    forall id | id in s.ownedNotes
      ensures s.ownedNotes[id].leafIndex < Pow2(g.depth)
    {
      assert NoteOk(g, s.completedRoots, s.liveLeaves, s.ownedNotes[id]);
    }
  }

  ghost function Snapshot(g: Geometry, s: NotesState): ShardedTreeSnapshot
    requires Inv(g, s)
  {
    ShardedTreeSnapshot(g.depth, g.shardHeight, s.completedRoots, s.liveLeaves,
                        OwnedSorted(s.ownedNotes, s.ownedLeaves, Pow2(g.depth)))
  }

  function CheckGeometry(depth: nat, shardHeight: nat): (r: Result<Geometry>)
    ensures r.Ok? <==> Geometry(depth, shardHeight).Valid()
    ensures r.Ok? ==> r.value == Geometry(depth, shardHeight)
  {
    if shardHeight == 0 || shardHeight >= depth then Err(InvalidGeometry(depth, shardHeight))
    else
      var _ :- TreeCapacity(shardHeight);
      var _ :- TreeCapacity(depth);
      Ok(Geometry(depth, shardHeight))
  }

  /** Validate one persisted note against the restored roots and leaves, and record it. */
  function RestoreOne(g: Geometry, completed: seq<Fr>, live: seq<Fr>, owned: Owned, note: OwnedNoteWitness): Result<Owned> {
    var shard := Shr(note.leafIndex, g.shardHeight);
    if note.leafIndex >= Pow2(g.depth) then Err(InvalidSnapshot)
    else if note.noteId in owned.0 || note.leafIndex in owned.1 then Err(InvalidSnapshot)
    else
      var _ :-
        if shard < |completed| then
          if note.withinShardSiblings.None? then Err(InvalidSnapshot)
          else VerifyFrozenPath(g, completed, note.noteId, note.leafIndex, note.withinShardSiblings.value)
        else if note.withinShardSiblings.Some? then Err(InvalidSnapshot)
        else if note.leafIndex < |completed| * g.ShardSize() + |live| && LiveLeaf(g, live, note.leafIndex) != Some(note.noteId) then
          Err(OwnedLeafMismatch(note.leafIndex))
        else Ok(());
      Ok((owned.0[note.noteId := note], owned.1[note.leafIndex := note.noteId]))
  }

  function RestoreAll(g: Geometry, completed: seq<Fr>, live: seq<Fr>, notes: seq<OwnedNoteWitness>): Result<Owned> {
    if notes == [] then Ok((map[], map[]))
    else
      var owned :- RestoreAll(g, completed, live, notes[..|notes| - 1]);
      RestoreOne(g, completed, live, owned, notes[|notes| - 1])
  }

  function Restore(snapshot: ShardedTreeSnapshot): Result<NotesState> {
    var g :- CheckGeometry(snapshot.depth, snapshot.shardHeight);
    if |snapshot.completedRoots| > Pow2(g.CapDepth()) then Err(InvalidSnapshot)
    else if |snapshot.liveLeaves| >= g.ShardSize() then Err(InvalidSnapshot)
    else if |snapshot.completedRoots| == Pow2(g.CapDepth()) && snapshot.liveLeaves != [] then Err(InvalidSnapshot)
    else
      var owned :- RestoreAll(g, snapshot.completedRoots, snapshot.liveLeaves, snapshot.ownedNotes);
      Ok(NotesState(snapshot.completedRoots, snapshot.liveLeaves, owned.0, owned.1, {}))
  }

  lemma {:induction false} RestoreAllSound(g: Geometry, completed: seq<Fr>, live: seq<Fr>, notes: seq<OwnedNoteWitness>)
    ensures RestoreAll(g, completed, live, notes).Ok? ==>
      var owned := RestoreAll(g, completed, live, notes).value;
      Inverse(owned.0, owned.1) && NotesOk(g, completed, live, owned.0)
  {
    hide Pow2, Shr, FrozenPathOk, LiveLeaf;
    if notes != [] {
      RestoreAllSound(g, completed, live, notes[..|notes| - 1]);
    }
  }

  /** Whatever bytes a snapshot came from, a restored tree satisfies the invariant. */
  lemma RestoreSound(snapshot: ShardedTreeSnapshot)
    ensures Restore(snapshot).Ok? ==> Inv(Geometry(snapshot.depth, snapshot.shardHeight), Restore(snapshot).value)
  {
    hide Pow2, NotesOk, Inverse;
    RestoreAllSound(Geometry(snapshot.depth, snapshot.shardHeight), snapshot.completedRoots, snapshot.liveLeaves,
                    snapshot.ownedNotes);
  }

  function NotesBelow(notes: map<Fr, OwnedNoteWitness>, to: nat): map<Fr, OwnedNoteWitness> {
    map id | id in notes && notes[id].leafIndex < to :: notes[id]
  }

  function LeavesBelow(leaves: map<nat, Fr>, to: nat): map<nat, Fr> {
    map i | i in leaves && i < to :: leaves[i]
  }

  lemma RestoreNext(g: Geometry, s: NotesState, to: nat)
    requires Inv(g, s) && 0 < to && to - 1 in s.ownedLeaves
    ensures RestoreOne(g, s.completedRoots, s.liveLeaves,
                       (NotesBelow(s.ownedNotes, to - 1), LeavesBelow(s.ownedLeaves, to - 1)),
                       s.ownedNotes[s.ownedLeaves[to - 1]])
         == Ok((NotesBelow(s.ownedNotes, to), LeavesBelow(s.ownedLeaves, to)))
  {
    hide Pow2, Shr, Fold, LiveLeaf;
    var note := s.ownedNotes[s.ownedLeaves[to - 1]];
    assert NoteOk(g, s.completedRoots, s.liveLeaves, note);
    assert NotesBelow(s.ownedNotes, to) == NotesBelow(s.ownedNotes, to - 1)[note.noteId := note];
    assert LeavesBelow(s.ownedLeaves, to) == LeavesBelow(s.ownedLeaves, to - 1)[note.leafIndex := note.noteId];
  }

  lemma {:induction false} RestoreSorted(g: Geometry, s: NotesState, to: nat)
    requires Inv(g, s)
    ensures RestoreAll(g, s.completedRoots, s.liveLeaves, OwnedSorted(s.ownedNotes, s.ownedLeaves, to))
         == Ok((NotesBelow(s.ownedNotes, to), LeavesBelow(s.ownedLeaves, to)))
  {
    hide Pow2, Shr, NotesOk, RestoreOne;
    if to == 0 {
      assert NotesBelow(s.ownedNotes, 0) == map[] && LeavesBelow(s.ownedLeaves, 0) == map[];
    } else {
      RestoreSorted(g, s, to - 1);
      var before, sorted := OwnedSorted(s.ownedNotes, s.ownedLeaves, to - 1), OwnedSorted(s.ownedNotes, s.ownedLeaves, to);
      if to - 1 in s.ownedLeaves {
        assert sorted[..|sorted| - 1] == before;
        RestoreNext(g, s, to);
      } else {
        assert sorted == before;
        assert NotesBelow(s.ownedNotes, to) == NotesBelow(s.ownedNotes, to - 1);
        assert LeavesBelow(s.ownedLeaves, to) == LeavesBelow(s.ownedLeaves, to - 1);
      }
    }
  }

  /** Restoring a snapshot gives back the tree: roots, leaves and owned paths; only the dirty set is lost. */
  lemma RestoreSnapshot(g: Geometry, s: NotesState)
    requires Inv(g, s)
    ensures Restore(Snapshot(g, s)) == Ok(s.(dirty := {}))
  {
    hide Pow2, RestoreAll, OwnedSorted;
    RestoreSorted(g, s, Pow2(g.depth));
    NotesInTree(g, s);
    assert NotesBelow(s.ownedNotes, Pow2(g.depth)) == s.ownedNotes;
    assert LeavesBelow(s.ownedLeaves, Pow2(g.depth)) == s.ownedLeaves;
  }

  // ----- runs -----

  datatype Op =
    | AppendOp(id: Fr)
    | AppendManyOp(ids: seq<Fr>)
    | MarkOp(id: Fr, leafIndex: nat)
    | UnmarkOp(id: Fr)
    | AdoptOp(id: Fr, leafIndex: nat, siblings: seq<Fr>)
    | RewindOp(leafCount: nat)
    | DrainOp

  ghost function Apply(g: Geometry, s: NotesState, op: Op): Result<NotesState>
    requires Inv(g, s)
  {
    match op
    case AppendOp(id) => Append(g, s, id)
    case AppendManyOp(ids) => AppendMany(g, s, ids)
    case MarkOp(id, leafIndex) => MarkOwned(g, s, id, leafIndex)
    case UnmarkOp(id) => Ok(UnmarkOwned(s, id))
    case AdoptOp(id, leafIndex, siblings) => AdoptFrozen(g, s, id, leafIndex, siblings)
    case RewindOp(leafCount) => RewindLive(g, s, leafCount)
    case DrainOp => Ok(s.(dirty := {}))
  }

  /** The leaf log after an operation that succeeded. */
  function LogAfter(log: seq<Fr>, op: Op): seq<Fr> {
    match op
    case AppendOp(id) => log + [id]
    case AppendManyOp(ids) => log + ids
    case RewindOp(leafCount) => if leafCount <= |log| then log[..leafCount] else log
    case _ => log
  }

  lemma ApplyKeeps(g: Geometry, s: NotesState, op: Op)
    requires Inv(g, s)
    ensures Apply(g, s, op).Ok? ==> Inv(g, Apply(g, s, op).value)
  {
    hide Pow2, Inverse, NotesOk, Push, PushAll, UnmarkOwned;
    CountWithin(g, s);
    match op
    case AppendOp(id) => if Append(g, s, id).Ok? { PushKeeps(g, s, id); }
    case AppendManyOp(ids) => if AppendMany(g, s, ids).Ok? { PushAllKeeps(g, s, ids); }
    case MarkOp(id, leafIndex) => MarkKeeps(g, s, id, leafIndex);
    case UnmarkOp(id) => UnmarkKeeps(g, s, id);
    case AdoptOp(id, leafIndex, siblings) => AdoptKeeps(g, s, id, leafIndex, siblings);
    case RewindOp(leafCount) => RewindKeeps(g, s, leafCount);
    case DrainOp =>
  }

  lemma {:induction false} PushAllRepresents(g: Geometry, s: NotesState, log: seq<Fr>, ids: seq<Fr>)
    requires Inv(g, s) && Represents(g, s, log)
    requires Count(g, s) + |ids| <= Pow2(g.depth) && NoClash(s.ownedLeaves, Count(g, s), ids)
    ensures Represents(g, PushAll(g, s, ids), log + ids)
    ensures AllGenuine(g, log, s.ownedNotes) ==> AllGenuine(g, log + ids, PushAll(g, s, ids).ownedNotes)
  {
    hide Inv, Push, Count, Pow2, Represents, AllGenuine;
    if ids == [] {
      assert log + ids == log;
    } else {
      var last := |ids| - 1;
      var t := PushAll(g, s, ids[..last]);
      PushAllRepresents(g, s, log, ids[..last]);
      PushAllKeeps(g, s, ids[..last]);
      assert !Clashes(s.ownedLeaves, Count(g, s) + last, ids[last]);
      PushRepresents(g, t, log + ids[..last], ids[last]);
      if AllGenuine(g, log, s.ownedNotes) {
        PushGenuine(g, t, log + ids[..last], ids[last]);
      }
      assert log + ids[..last] + [ids[last]] == log + ids;
    }
  }

  /** Every operation moves the state and the leaf log together. */
  lemma ApplyRepresents(g: Geometry, s: NotesState, log: seq<Fr>, op: Op)
    requires Inv(g, s) && Represents(g, s, log) && Apply(g, s, op).Ok?
    ensures Represents(g, Apply(g, s, op).value, LogAfter(log, op))
  {
    hide Pow2, Inverse, NotesOk, Push, NodeAt;
    CountWithin(g, s);
    match op
    case AppendOp(id) => PushRepresents(g, s, log, id);
    case AppendManyOp(ids) => PushAllRepresents(g, s, log, ids);
    case RewindOp(leafCount) => RewindRepresents(g, s, log, leafCount);
    case _ =>
  }

  lemma RewindGenuine(g: Geometry, s: NotesState, log: seq<Fr>, leafCount: nat)
    requires Inv(g, s) && Represents(g, s, log) && AllGenuine(g, log, s.ownedNotes)
    requires RewindLive(g, s, leafCount).Ok?
    ensures AllGenuine(g, log[..leafCount], RewindLive(g, s, leafCount).value.ownedNotes)
  {
    hide Pow2, Shr, NodeAt, Genuine, NoteOk;
    forall id | id in RewindLive(g, s, leafCount).value.ownedNotes
      ensures Genuine(g, log[..leafCount], s.ownedNotes[id])
    {
      if s.ownedNotes[id].withinShardSiblings.Some? {
        FrozenInWholeShard(g, s, s.ownedNotes[id]);
      }
      GenuineShortens(g, log, leafCount, s.ownedNotes[id]);
    }
  }

  /** ... and keeps frozen paths equal to the flat paths, unless a recovered path exhibits a collision. */
  lemma ApplyGenuine(g: Geometry, s: NotesState, log: seq<Fr>, op: Op) returns (c: Option<Collision>)
    requires Inv(g, s) && Represents(g, s, log) && AllGenuine(g, log, s.ownedNotes) && Apply(g, s, op).Ok?
    ensures c.Some? ==> c.value.Valid()
    ensures c.None? ==> AllGenuine(g, LogAfter(log, op), Apply(g, s, op).value.ownedNotes)
  {
    hide Pow2, Inverse, NotesOk, NodeAt, Push, Siblings, Fold, Chunk;
    c := None;
    CountWithin(g, s);
    match op
    case AppendOp(id) => PushGenuine(g, s, log, id);
    case AppendManyOp(ids) => PushAllRepresents(g, s, log, ids);
    case RewindOp(leafCount) => RewindGenuine(g, s, log, leafCount);
    case AdoptOp(id, leafIndex, siblings) =>
      c := AdoptedGenuine(g, s, log, OwnedNoteWitness(id, leafIndex, Some(siblings)));
    case _ =>
  }

  /** A configuration: the state and the leaf log kept so far. */
  datatype Config = Config(state: NotesState, log: seq<Fr>)

  const EMPTY_CONFIG: Config := Config(EMPTY_STATE, [])

  /** An operation, or going back to the snapshot taken after the first `taken` events. */
  datatype Event = Perform(op: Op) | GoBack(taken: nat)

  ghost function Performed(g: Geometry, before: Config, op: Op): (c: Config)
    requires Inv(g, before.state)
    ensures Inv(g, c.state)
  {
    ApplyKeeps(g, before.state, op);
    match Apply(g, before.state, op)
    case Ok(next) => Config(next, LogAfter(before.log, op))
    case Err(_) => before
  }

  ghost function Restored(g: Geometry, checkpoint: Config): (c: Config)
    requires Inv(g, checkpoint.state)
    ensures Inv(g, c.state)
  {
    RestoreSnapshot(g, checkpoint.state);
    RestoreSound(Snapshot(g, checkpoint.state));
    checkpoint.(state := Restore(Snapshot(g, checkpoint.state)).value)
  }

  /** Run `events` from `start`; what is refused, or names no earlier snapshot, changes nothing. */
  ghost function Run(g: Geometry, start: Config, events: seq<Event>): (c: Config)
    requires Inv(g, start.state)
    ensures Inv(g, c.state)
    decreases |events|
  {
    if events == [] then start
    else
      var last := |events| - 1;
      var before := Run(g, start, events[..last]);
      match events[last]
      case Perform(op) => Performed(g, before, op)
      case GoBack(taken) => if taken <= last then Restored(g, Run(g, start, events[..taken])) else before
  }

  lemma EmptyRepresents(g: Geometry)
    requires g.Valid()
    ensures Inv(g, EMPTY_CONFIG.state) && Represents(g, EMPTY_CONFIG.state, EMPTY_CONFIG.log)
    ensures AllGenuine(g, EMPTY_CONFIG.log, EMPTY_CONFIG.state.ownedNotes)
  {
    hide Pow2;
    ShrZero(0, g.shardHeight);
  }

  lemma {:induction false} RunRepresents(g: Geometry, start: Config, events: seq<Event>)
    requires Inv(g, start.state) && Represents(g, start.state, start.log)
    ensures Represents(g, Run(g, start, events).state, Run(g, start, events).log)
    decreases |events|
  {
    hide Apply, Inv, Pow2, Restore, Snapshot;
    if events != [] {
      var last := |events| - 1;
      var before := Run(g, start, events[..last]);
      RunRepresents(g, start, events[..last]);
      match events[last]
      case Perform(op) =>
        if Apply(g, before.state, op).Ok? {
          ApplyRepresents(g, before.state, before.log, op);
        }
      case GoBack(taken) =>
        if taken <= last {
          RunRepresents(g, start, events[..taken]);
          RestoreSnapshot(g, Run(g, start, events[..taken]).state);
        }
    }
  }

  lemma {:induction false} RunGenuine(g: Geometry, start: Config, events: seq<Event>) returns (c: Option<Collision>)
    requires Inv(g, start.state) && Represents(g, start.state, start.log) && AllGenuine(g, start.log, start.state.ownedNotes)
    ensures c.Some? ==> c.value.Valid()
    ensures c.None? ==> AllGenuine(g, Run(g, start, events).log, Run(g, start, events).state.ownedNotes)
    decreases |events|
  {
    hide Apply, Inv, Genuine, Restore, Snapshot, Represents;
    if events == [] {
      return None;
    }
    var last := |events| - 1;
    var before := Run(g, start, events[..last]);
    c := RunGenuine(g, start, events[..last]);
    match events[last]
    case Perform(op) =>
      if c.None? && Apply(g, before.state, op).Ok? {
        RunRepresents(g, start, events[..last]);
        c := ApplyGenuine(g, before.state, before.log, op);
      }
    case GoBack(taken) =>
      if taken <= last {
        c := RunGenuine(g, start, events[..taken]);
        RestoreSnapshot(g, Run(g, start, events[..taken]).state);
      }
  }

  /** Every note owned at an index below `count` has a witness accepted against `root`; no other note has one. */
  ghost predicate WitnessesServe(g: Geometry, s: NotesState, count: nat, root: Fr)
    requires Inv(g, s)
  {
    forall id | id in s.ownedNotes ::
      if s.ownedNotes[id].leafIndex < count then
        && Witness(g, s, id).Ok?
        && Witness(g, s, id).value.leaf == id
        && Witness(g, s, id).value.index == s.ownedNotes[id].leafIndex
        && Witness(g, s, id).value.root == root
        && Accepts(Witness(g, s, id).value, g.depth)
      else Witness(g, s, id) == Err(OwnedLeafMismatch(s.ownedNotes[id].leafIndex))
  }

  lemma InvServes(g: Geometry, s: NotesState)
    requires Inv(g, s)
    ensures WitnessesServe(g, s, Count(g, s), RootOf(g, s))
  {
    hide Inv, Accepts, Pow2, Shr, NodeAt, Fold, Root;
    forall id {
      WitnessAccepted(g, s, id);
    }
  }

  /**
   Safety of every run, restores of earlier snapshots included, from the empty tree or any other
   that represents a log: the root is the flat root of the leaf log, and every owned note whose
   leaf is in the log has a witness that is accepted against that root.
   */
  lemma RunSafe(g: Geometry, start: Config, events: seq<Event>)
    requires Inv(g, start.state) && Represents(g, start.state, start.log)
    ensures var Config(s, log) := Run(g, start, events);
      && RootOf(g, s) == Root(log, ZERO, g.depth)
      && WitnessesServe(g, s, |log|, Root(log, ZERO, g.depth))
  {
    hide Run, Inv, WitnessesServe, Pow2, Shr, NodeAt, Root;
    var Config(s, log) := Run(g, start, events);
    RunRepresents(g, start, events);
    RootIsFlat(g, s, log);
    InvServes(g, s);
  }

  /**
   Whatever an accepted snapshot claims its completed shards to be, every witness given out after
   restoring it, in every run from there, is accepted against the root of that moment.
   */
  lemma RunFromSnapshot(snapshot: ShardedTreeSnapshot, log: seq<Fr>, events: seq<Event>)
    requires Restore(snapshot).Ok?
    ensures var g := Geometry(snapshot.depth, snapshot.shardHeight);
      && Inv(g, Restore(snapshot).value)
      && var s := Run(g, Config(Restore(snapshot).value, log), events).state;
         WitnessesServe(g, s, Count(g, s), RootOf(g, s))
  {
    hide Restore, Run, Inv, WitnessesServe;
    RestoreSound(snapshot);
    var g := Geometry(snapshot.depth, snapshot.shardHeight);
    InvServes(g, Run(g, Config(Restore(snapshot).value, log), events).state);
  }

  /** In every run each witness is the flat tree's own proof, or the run exhibits a hash collision. */
  lemma RunWitnessesAreFlat(g: Geometry, start: Config, events: seq<Event>) returns (c: Option<Collision>)
    requires Inv(g, start.state) && Represents(g, start.state, start.log) && AllGenuine(g, start.log, start.state.ownedNotes)
    ensures c.Some? ==> c.value.Valid()
    ensures c.None? ==>
      var Config(s, log) := Run(g, start, events);
      forall id | id in s.ownedNotes && s.ownedNotes[id].leafIndex < |log| ::
        Witness(g, s, id) == Ok(ProofAt(log, ZERO, g.depth, s.ownedNotes[id].leafIndex))
  {
    hide Run, NotesOk, Inverse, Accepts, Pow2, Shr, NodeAt, Fold, Root;
    var Config(s, log) := Run(g, start, events);
    RunRepresents(g, start, events);
    c := RunGenuine(g, start, events);
    if c.None? {
      forall id | id in s.ownedNotes && s.ownedNotes[id].leafIndex < |log|
        ensures Witness(g, s, id) == Ok(ProofAt(log, ZERO, g.depth, s.ownedNotes[id].leafIndex))
      {
        WitnessAccepted(g, s, id);
        WitnessIsFlat(g, s, log, id);
      }
    }
  }
}
