/**
 The dirty set of the sharded tree: every operation marks exactly the notes whose records it
 changes, so what the drains hand out keeps a store of the owned notes up to date.
 */
module DirtyTracking {
  import opened Binary
  import opened NodeHash
  import opened TreeErrors
  import opened ShardedState
  import opened ShardedRuns

  predicate Changed(s: NotesState, next: NotesState, id: Fr)
    requires id in next.ownedNotes
  {
    id !in s.ownedNotes || s.ownedNotes[id] != next.ownedNotes[id]
  }

  /** Among the notes still owned the dirty ones are those that were, the touched and those new or changed. */
  ghost predicate Tracks(s: NotesState, next: NotesState, touched: set<Fr>) {
    && next.dirty <= next.ownedNotes.Keys
    && forall id | id in next.ownedNotes :: id in next.dirty <==> id in s.dirty || id in touched || Changed(s, next, id)
  }

  /** The ids an operation marks even where their record stays: a path adopted again. */
  function Touched(op: Op): set<Fr> {
    match op
    case AdoptOp(id, _, _) => {id}
    case _ => {}
  }

  // ----- one operation -----

  /** The same notes, and no record but an open one replaced by its frozen form. */
  ghost predicate Froze(s: NotesState, next: NotesState) {
    && next.ownedNotes.Keys == s.ownedNotes.Keys
    && forall id | id in s.ownedNotes ::
         next.ownedNotes[id] == s.ownedNotes[id] ||
         (s.ownedNotes[id].withinShardSiblings.None? && next.ownedNotes[id].withinShardSiblings.Some?)
  }

  lemma RollOverTracks(g: Geometry, s: NotesState)
    requires s.dirty <= s.ownedNotes.Keys
    ensures Tracks(s, RollOver(g, s), {}) && Froze(s, RollOver(g, s))
  {
    hide Shr, Root;
  }

  lemma PushTracks(g: Geometry, s: NotesState, id: Fr)
    requires s.dirty <= s.ownedNotes.Keys
    ensures Tracks(s, Push(g, s, id), {}) && Froze(s, Push(g, s, id))
  {
    hide RollOver, Pow2;
    RollOverTracks(g, s.(liveLeaves := s.liveLeaves + [id]));
  }

  lemma {:induction false} PushAllTracks(g: Geometry, s: NotesState, ids: seq<Fr>)
    requires s.dirty <= s.ownedNotes.Keys
    ensures Tracks(s, PushAll(g, s, ids), {}) && Froze(s, PushAll(g, s, ids))
  {
    hide Push;
    if ids != [] {
      var before := PushAll(g, s, ids[..|ids| - 1]);
      PushAllTracks(g, s, ids[..|ids| - 1]);
      PushTracks(g, before, ids[|ids| - 1]);
    }
  }

  /** Every operation that succeeds, a drain aside, marks exactly what it changes. */
  lemma ApplyTracks(g: Geometry, s: NotesState, op: Op)
    requires Inv(g, s) && op != DrainOp && Apply(g, s, op).Ok?
    ensures Tracks(s, Apply(g, s, op).value, Touched(op))
  {
    hide Pow2, Shr, NotesOk, Push, PushAll, FrozenPathOk;
    match op
    case AppendOp(id) => PushTracks(g, s, id);
    case AppendManyOp(ids) => PushAllTracks(g, s, ids);
    case _ =>
  }

  // ----- the store behind a run -----

  /** What a drain hands out. */
  function Drained(s: NotesState): map<Fr, OwnedNoteWitness> {
    map id | id in s.ownedNotes && id in s.dirty :: s.ownedNotes[id]
  }

  /** Every owned note is dirty, or its record is in the store. */
  ghost predicate Behind(s: NotesState, store: map<Fr, OwnedNoteWitness>) {
    forall id | id in s.ownedNotes && id !in s.dirty :: id in store && store[id] == s.ownedNotes[id]
  }

  /**
   A store over a run: first a copy of the owned notes, then each drain's records laid over it;
   going back to a snapshot starts again from the snapshot's notes.
   */
  ghost function Stored(g: Geometry, start: Config, events: seq<Event>): map<Fr, OwnedNoteWitness>
    requires Inv(g, start.state)
    decreases |events|
  {
    if events == [] then start.state.ownedNotes
    else
      var last := |events| - 1;
      var store := Stored(g, start, events[..last]);
      match events[last]
      case Perform(op) => if op == DrainOp then store + Drained(Run(g, start, events[..last]).state) else store
      case GoBack(taken) => if taken <= last then Run(g, start, events[..taken]).state.ownedNotes else store
  }

  lemma TracksKeepsBehind(s: NotesState, next: NotesState, touched: set<Fr>, store: map<Fr, OwnedNoteWitness>)
    requires Tracks(s, next, touched) && Behind(s, store)
    ensures Behind(next, store)
  {}

  lemma DrainCatchesUp(s: NotesState, store: map<Fr, OwnedNoteWitness>)
    requires Behind(s, store)
    ensures Behind(s.(dirty := {}), store + Drained(s))
  {}

  /** At every moment the notes that are not dirty are in the store with their current records. */
  lemma {:induction false} StoreIsBehind(g: Geometry, start: Config, events: seq<Event>)
    requires Inv(g, start.state)
    ensures Behind(Run(g, start, events).state, Stored(g, start, events))
    decreases |events|
  {
    hide Inv, Apply, Tracks, Behind, Snapshot, Restore;
    if events == [] {
      StoreStarts(start.state);
    } else {
      var last := |events| - 1;
      var before := Run(g, start, events[..last]).state;
      StoreIsBehind(g, start, events[..last]);
      match events[last]
      case Perform(op) => PerformedBehind(g, Run(g, start, events[..last]), op, Stored(g, start, events[..last]));
      case GoBack(taken) =>
        if taken <= last {
          var checkpoint := Run(g, start, events[..taken]).state;
          RestoreSnapshot(g, checkpoint);
          StoreStarts(checkpoint.(dirty := {}));
        }
    }
  }

  lemma StoreStarts(s: NotesState)
    ensures Behind(s, s.ownedNotes)
  {}

  lemma PerformedBehind(g: Geometry, before: Config, op: Op, store: map<Fr, OwnedNoteWitness>)
    requires Inv(g, before.state) && Behind(before.state, store)
    ensures Behind(Performed(g, before, op).state, if op == DrainOp then store + Drained(before.state) else store)
  {
    hide Inv, Tracks, Behind, Drained, Append, AppendMany, MarkOwned, UnmarkOwned, AdoptFrozen, RewindLive;
    if op == DrainOp {
      DrainCatchesUp(before.state, store);
    } else if Apply(g, before.state, op).Ok? {
      ApplyTracks(g, before.state, op);
      TracksKeepsBehind(before.state, Apply(g, before.state, op).value, Touched(op), store);
    }
  }

  /** The store's records of the notes still owned. */
  function Kept(store: map<Fr, OwnedNoteWitness>, s: NotesState): map<Fr, OwnedNoteWitness> {
    map id | id in store && id in s.ownedNotes :: store[id]
  }

  /**
   After every run that ends with a drain the store holds the owned notes, paths included, and a
   snapshot taken from it restores to the tree.
   */
  lemma StoreRestores(g: Geometry, start: Config, events: seq<Event>)
    requires Inv(g, start.state) && events != [] && events[|events| - 1] == Perform(DrainOp)
    ensures var s := Run(g, start, events).state;
      && Kept(Stored(g, start, events), s) == s.ownedNotes
      && Restore(ShardedTreeSnapshot(g.depth, g.shardHeight, s.completedRoots, s.liveLeaves,
                   OwnedSorted(Kept(Stored(g, start, events), s), s.ownedLeaves, Pow2(g.depth)))) == Ok(s)
  {
    hide OwnedSorted, Pow2, NotesOk, Fits, Stored, Restore;
    StoreIsBehind(g, start, events);
    var s := Run(g, start, events).state;
    assert s.dirty == {};
    assert Kept(Stored(g, start, events), s) == s.ownedNotes;
    RestoreSnapshot(g, s);
  }
}
