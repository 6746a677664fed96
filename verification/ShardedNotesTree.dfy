/**
 The mutable sharded notes tree: a live shard, a cap tree over the shard roots, and the
 owned-note maps. Each method performs the step of the same name in `ShardedState`.
 */
module MutableShardedTree {
  import opened Binary
  import opened NodeHash
  import opened TreeErrors
  import opened InclusionProofs
  import opened IncrementalTree
  import opened Sharding
  import opened ShardedState
  import opened ShardedInvariant
  import opened ShardedWitnesses
  import opened ShardedRuns
  import opened DirtyTracking

  class ShardedNotesTree {
    const g: Geometry
    var completedRoots: seq<Fr>
    var live: Imt
    var liveLeaves: seq<Fr>
    var cap: Imt
    var ownedNotes: map<Fr, OwnedNoteWitness>
    var ownedLeaves: map<nat, Fr>
    var dirtyOwnedNotes: set<Fr>

    function State(): NotesState
      reads this
    {
      NotesState(completedRoots, liveLeaves, ownedNotes, ownedLeaves, dirtyOwnedNotes)
    }

    /** `tree` is an incremental tree of the given shape over `leaves`. */
    static ghost predicate Holds(tree: Imt, depth: nat, zero: Fr, leaves: seq<Fr>)
      reads tree
    {
      tree.Valid() && tree.depth == depth && tree.zeroLeaf == zero && tree.Leaves() == leaves
    }

    /** The live tree holds the live leaves, and the cap tree holds `roots`. */
    ghost predicate Trees(roots: seq<Fr>)
      reads this, live, cap
    {
      && live != cap
      && g.Valid()
      && Holds(live, g.shardHeight, ZERO, liveLeaves)
      && Holds(cap, g.CapDepth(), CapZero(g), roots)
    }

    ghost predicate Valid()
      reads this, live, cap
    {
      Inv(g, State()) && Trees(CapLeaves(g, completedRoots, liveLeaves))
    }

    constructor (geometry: Geometry)
      requires geometry.Valid()
      ensures Valid() && g == geometry && State() == EMPTY_STATE
      ensures fresh(live) && fresh(cap)
    {
      var zeroes := ZeroRootsFrom(geometry.depth, ZERO);
      var l := new Imt(geometry.shardHeight, ZERO, []);
      var c := new Imt(geometry.CapDepth(), zeroes[geometry.shardHeight], []);
      g := geometry;
      completedRoots, live, liveLeaves, cap := [], l, [], c;
      ownedNotes, ownedLeaves, dirtyOwnedNotes := map[], map[], {};
    }

    method GetRoot() returns (root: Fr)
      requires Valid()
      ensures root == RootOf(g, State())
    {
      root := cap.GetRoot();
    }

    method GetWitness(id: Fr) returns (r: Result<InclusionProof>)
      requires Valid()
      ensures r == Witness(g, State(), id)
    {
      hide Inv, Accepts, Pow2;
      WitnessAccepted(g, State(), id);
      if id !in ownedNotes {
        return Err(NoteNotMarked);
      }
      var owned := ownedNotes[id];
      var shard, within := Shr(owned.leafIndex, g.shardHeight), Within(owned.leafIndex, g.shardHeight);
      var siblings;
      if owned.withinShardSiblings.Some? {
        siblings := owned.withinShardSiblings.value;
      } else {
        if shard != |completedRoots| || live.Leaf(within) != Some(id) {
          return Err(OwnedLeafMismatch(owned.leafIndex));
        }
        var local := live.CreateProof(within);
        siblings := local.siblings;
      }
      WitnessReachesCap(g, State(), id);
      var capProof := cap.CreateProof(shard);
      var root := GetRoot();
      r := Ok(InclusionProof(id, owned.leafIndex, siblings + capProof.siblings, root));
    }

    // ----- appending -----

    /** Write the live root into the cap: a new cap leaf for a new shard, else an update. */
    method SyncLiveRoot()
      requires g.Valid() && liveLeaves != []
      requires |completedRoots| < Pow2(g.CapDepth())
      requires exists before :: Trees(CapLeaves(g, completedRoots, before))
      modifies cap
      ensures Trees(CapLeaves(g, completedRoots, liveLeaves))
    {
      ghost var before :| Trees(CapLeaves(g, completedRoots, before));
      var shard := |completedRoots|;
      var root := live.GetRoot();
      if cap.LeafCount() == shard {
        cap.Insert(root);
      } else {
        var _ := cap.Update(shard, root);
      }
      assert cap.Leaves() == CapLeaves(g, completedRoots, liveLeaves);
    }

    /** Freeze the owned paths of the full live shard and start an empty one. */
    method DoRollOver()
      requires Loose(g, State()) && |liveLeaves| == g.ShardSize()
      requires Trees(CapLeaves(g, completedRoots, liveLeaves))
      modifies this
      ensures Valid() && State() == RollOver(g, old(State()))
      ensures Tracks(old(State()), State(), {})
      ensures fresh(live) && cap == old(cap) && unchanged(cap)
    {
      ghost var s := State();
      RollOverKeeps(g, s);
      RollOverTracks(g, s);
      FreezeOwned();
      var root := live.GetRoot();
      completedRoots := completedRoots + [root];
      assert completedRoots == CapLeaves(g, s.completedRoots, s.liveLeaves);
      assert CapLeaves(g, completedRoots, []) == completedRoots;
      live := new Imt(g.shardHeight, ZERO, []);
      liveLeaves := [];
    }

    /** Every owned note of the full live shard gets its path and turns dirty; no other note changes. */
    method FreezeOwned()
      requires Loose(g, State()) && |liveLeaves| == g.ShardSize()
      requires Trees(CapLeaves(g, completedRoots, liveLeaves))
      modifies this`ownedNotes, this`dirtyOwnedNotes
      ensures ownedNotes == RollOver(g, old(State())).ownedNotes
      ensures dirtyOwnedNotes == RollOver(g, old(State())).dirty
      ensures forall id | id in old(ownedNotes) && InShard(g, old(ownedNotes)[id], |completedRoots|) ::
        id in dirtyOwnedNotes && ownedNotes[id].withinShardSiblings.Some?
    {
      hide Pow2, Shr, Inverse, Siblings;
      ghost var s := State();
      var shard := |completedRoots|;
      var pending := ownedNotes.Keys;
      while pending != {}
        invariant pending <= s.ownedNotes.Keys == ownedNotes.Keys
        invariant forall id | id in ownedNotes ::
          ownedNotes[id] == if id in pending then s.ownedNotes[id] else Freeze(g, s.liveLeaves, s.ownedNotes[id], shard)
        invariant dirtyOwnedNotes
               == s.dirty + set id | id in s.ownedNotes && id !in pending && InShard(g, s.ownedNotes[id], shard)
        decreases pending
      {
        var id :| id in pending;
        var owned := ownedNotes[id];
        pending := pending - {id};
        if InShard(g, owned, shard) {
          var within := Within(owned.leafIndex, g.shardHeight);
          // The stored leaf is the note, so the source's mismatch error cannot occur here.
          MarkedLeafPresent(g, s, owned);
          var proof := live.CreateProof(within);
          ownedNotes := ownedNotes[id := owned.(withinShardSiblings := Some(proof.siblings))];
          dirtyOwnedNotes := dirtyOwnedNotes + {id};
        }
      }
    }

    method DoAppend(id: Fr) returns (r: Result<()>)
      requires Valid()
      modifies this, live, cap
      ensures Valid()
      ensures r.Ok? <==> Append(g, old(State()), id).Ok?
      ensures r.Ok? ==> State() == Append(g, old(State()), id).value
      ensures r.Err? ==> r.error == Append(g, old(State()), id).error && State() == old(State())
      ensures (live == old(live) || fresh(live)) && cap == old(cap)
    {
      hide Pow2, Inverse, NotesOk, RollOver, Root;
      ghost var s := State();
      var room := CheckRoom(1);
      if room.Err? {
        return room;
      }
      if Clashes(ownedLeaves, LeafCount(), id) {
        return Err(OwnedLeafMismatch(LeafCount()));
      }
      CountBounds(g, s);
      assert NoClash(s.ownedLeaves, Count(g, s), [id]);
      ExtendLive(g, s, [id]);
      live.Insert(id);
      liveLeaves := liveLeaves + [id];
      assert Trees(CapLeaves(g, completedRoots, s.liveLeaves));
      SyncLiveRoot();
      if |liveLeaves| == g.ShardSize() {
        DoRollOver();
      }
      r := Ok(());
    }

    function LeafCount(): nat
      reads this
    {
      |completedRoots| * g.ShardSize() + |liveLeaves|
    }

    method CheckRoom(additional: nat) returns (r: Result<()>)
      requires Valid()
      ensures r == EnsureRoom(g, State(), additional)
    {
      r := if additional > Pow2(g.depth) - LeafCount() then Err(TreeFull(g.depth)) else Ok(());
    }

    /** Append a batch: segment by segment, each shard rebuilt when that is cheaper, one cap update a shard. */
    method DoAppendMany(ids: seq<Fr>) returns (r: Result<()>)
      requires Valid()
      modifies this, live, cap
      ensures Valid()
      ensures r.Ok? <==> AppendMany(g, old(State()), ids).Ok?
      ensures r.Ok? ==> State() == AppendMany(g, old(State()), ids).value
      ensures r.Err? ==> r.error == AppendMany(g, old(State()), ids).error && State() == old(State())
    {
      hide Inv, Pow2, RollOver, PushAll, Root, Trees, CapLeaves;
      ghost var s := State();
      var room := CheckRoom(|ids|);
      if room.Err? {
        return room;
      }
      var first := LeafCount();
      for offset := 0 to |ids|
        invariant forall i | 0 <= i < offset :: !Clashes(ownedLeaves, first + i, ids[i])
      {
        if Clashes(ownedLeaves, first + offset, ids[offset]) {
          return Err(OwnedLeafMismatch(first + offset));
        }
      }
      var remaining := ids;
      ghost var done := 0;
      PushNone(g, s);
      assert ids[..0] == [];
      while remaining != []
        invariant Valid() && (live == old(live) || fresh(live)) && cap == old(cap)
        invariant done <= |ids| && remaining == ids[done..]
        invariant State() == PushAll(g, s, ids[..done])
        decreases |remaining|
      {
        PushAllKeepsPrefix(g, s, ids, done);
        var take := AppendSegment(remaining, s.ownedLeaves, first + done);
        PushAllConcat(g, s, ids[..done], ids[done..done + take]);
        assert remaining[..take] == ids[done..done + take];
        assert ids[..done] + ids[done..done + take] == ids[..done + take];
        remaining := remaining[take..];
        done := done + take;
      }
      assert ids[..done] == ids;
      r := Ok(());
    }

    /** Append as much of `remaining` as fits in the live shard. */
    method AppendSegment(remaining: seq<Fr>, ghost leaves: map<nat, Fr>, ghost first: nat) returns (take: nat)
      requires Valid() && remaining != [] && ownedLeaves == leaves && first == LeafCount()
      requires LeafCount() + |remaining| <= Pow2(g.depth)
      requires NoClash(leaves, first, remaining)
      modifies this, live, cap
      ensures Valid() && (live == old(live) || fresh(live)) && cap == old(cap)
      ensures 0 < take <= |remaining|
      ensures State() == PushAll(g, old(State()), remaining[..take])
    {
      hide Pow2, Inverse, NotesOk, RollOver, Root, PushAll, AreZeroes;
      ghost var s := State();
      CountBounds(g, s);
      var room := g.ShardSize() - |liveLeaves|;
      take := if room <= |remaining| then room else |remaining|;
      var segment := remaining[..take];
      var rebuildCost := |liveLeaves| + take - 1;
      var incrementalCost := take * g.shardHeight;
      ExtendLive(g, s, segment);
      PushRun(g, s, segment);
      liveLeaves := liveLeaves + segment;
      if rebuildCost < incrementalCost {
        live := new Imt(g.shardHeight, ZERO, liveLeaves);
      } else {
        for i := 0 to |segment|
          invariant Holds(live, g.shardHeight, ZERO, s.liveLeaves + segment[..i])
          invariant Holds(cap, g.CapDepth(), CapZero(g), CapLeaves(g, completedRoots, s.liveLeaves))
          invariant live != cap && State() == s.(liveLeaves := s.liveLeaves + segment)
          invariant live == old(live) && cap == old(cap)
        {
          live.Insert(segment[i]);
          assert segment[..i + 1] == segment[..i] + [segment[i]];
        }
        assert segment[..|segment|] == segment;
      }
      assert Trees(CapLeaves(g, completedRoots, s.liveLeaves));
      SyncLiveRoot();
      if |liveLeaves| == g.ShardSize() {
        DoRollOver();
      }
    }

    // ----- owned notes -----

    method DoMarkOwned(id: Fr, leafIndex: nat) returns (r: Result<()>)
      requires Valid()
      modifies this
      ensures Valid() && live == old(live) && cap == old(cap)
      ensures r.Ok? <==> MarkOwned(g, old(State()), id, leafIndex).Ok?
      ensures r.Ok? ==> State() == MarkOwned(g, old(State()), id, leafIndex).value
      ensures r.Err? ==> r.error == MarkOwned(g, old(State()), id, leafIndex).error && State() == old(State())
    {
      hide Inv, Pow2;
      MarkKeeps(g, State(), id, leafIndex);
      if leafIndex >= Pow2(g.depth) {
        return Err(LeafIndexOutOfRange(leafIndex, Pow2(g.depth)));
      }
      var shard := Shr(leafIndex, g.shardHeight);
      if shard < |completedRoots| {
        return Err(NoteAlreadyCompleted(shard));
      }
      if id in ownedNotes {
        var existing := ownedNotes[id];
        return if existing.leafIndex == leafIndex then Ok(()) else Err(DuplicateOwnedLeaf(existing.leafIndex));
      }
      if Clashes(ownedLeaves, leafIndex, id) {
        return Err(DuplicateOwnedLeaf(leafIndex));
      }
      if leafIndex < LeafCount() && live.Leaf(Within(leafIndex, g.shardHeight)) != Some(id) {
        return Err(OwnedLeafMismatch(leafIndex));
      }
      ownedLeaves := ownedLeaves[leafIndex := id];
      ownedNotes := ownedNotes[id := OwnedNoteWitness(id, leafIndex, None)];
      dirtyOwnedNotes := dirtyOwnedNotes + {id};
      r := Ok(());
    }

    method DoUnmarkOwned(id: Fr) returns (known: bool)
      requires Valid()
      modifies this
      ensures Valid() && live == old(live) && cap == old(cap)
      ensures known <==> id in old(ownedNotes)
      ensures State() == UnmarkOwned(old(State()), id)
    {
      hide Inv, Pow2;
      UnmarkKeeps(g, State(), id);
      dirtyOwnedNotes := dirtyOwnedNotes - {id};
      known := id in ownedNotes;
      if known {
        var owned := ownedNotes[id];
        ownedNotes := ownedNotes - {id};
        ownedLeaves := ownedLeaves - {owned.leafIndex};
      }
    }

    method DoAdoptFrozen(id: Fr, leafIndex: nat, siblings: seq<Fr>) returns (r: Result<()>)
      requires Valid()
      modifies this
      ensures Valid() && live == old(live) && cap == old(cap)
      ensures r.Ok? <==> AdoptFrozen(g, old(State()), id, leafIndex, siblings).Ok?
      ensures r.Ok? ==> State() == AdoptFrozen(g, old(State()), id, leafIndex, siblings).value
      ensures r.Err? ==> r.error == AdoptFrozen(g, old(State()), id, leafIndex, siblings).error && State() == old(State())
    {
      hide Inv, Pow2, Fold;
      AdoptKeeps(g, State(), id, leafIndex, siblings);
      var shard := Shr(leafIndex, g.shardHeight);
      if shard >= |completedRoots| {
        return Err(ShardNotCompleted(shard));
      }
      if id in ownedNotes && ownedNotes[id].leafIndex != leafIndex {
        return Err(DuplicateOwnedLeaf(ownedNotes[id].leafIndex));
      }
      if Clashes(ownedLeaves, leafIndex, id) {
        return Err(DuplicateOwnedLeaf(leafIndex));
      }
      var checked := CheckFrozenPath(id, leafIndex, siblings);
      if checked.Err? {
        return checked;
      }
      ownedLeaves := ownedLeaves[leafIndex := id];
      ownedNotes := ownedNotes[id := OwnedNoteWitness(id, leafIndex, Some(siblings))];
      dirtyOwnedNotes := dirtyOwnedNotes + {id};
      r := Ok(());
    }

    /** `verify_frozen_path`: hash the path up and compare with the completed shard's root. */
    method CheckFrozenPath(id: Fr, leafIndex: nat, siblings: seq<Fr>) returns (r: Result<()>)
      ensures r == VerifyFrozenPath(g, completedRoots, id, leafIndex, siblings)
    {
      if |siblings| != g.shardHeight {
        return Err(InvalidSiblingCount(g.shardHeight, |siblings|));
      }
      var shard := Shr(leafIndex, g.shardHeight);
      if shard >= |completedRoots| {
        return Err(ShardNotCompleted(shard));
      }
      var node, index := id, Within(leafIndex, g.shardHeight);
      for i := 0 to |siblings|
        invariant node == Fold(id, Within(leafIndex, g.shardHeight), siblings[..i])
        invariant index == Shr(Within(leafIndex, g.shardHeight), i)
      {
        assert siblings[..i + 1][..i] == siblings[..i];
        node := if index % 2 == 0 then Poseidon(node, siblings[i]) else Poseidon(siblings[i], node);
        index := index / 2;
      }
      assert siblings[..|siblings|] == siblings;
      r := if node != completedRoots[shard] then Err(WitnessRootMismatch(shard)) else Ok(());
    }

    // ----- rewinding and persisting -----

    method RebuildCap()
      requires g.Valid() && Holds(live, g.shardHeight, ZERO, liveLeaves)
      requires Fits(g, completedRoots, liveLeaves)
      modifies this`cap
      ensures fresh(cap) && Trees(CapLeaves(g, completedRoots, liveLeaves))
    {
      var zeroes := ZeroRootsFrom(g.depth, ZERO);
      var roots := completedRoots;
      if liveLeaves != [] {
        var root := live.GetRoot();
        roots := roots + [root];
      }
      assert roots == CapLeaves(g, completedRoots, liveLeaves);
      cap := new Imt(g.CapDepth(), zeroes[g.shardHeight], roots);
    }

    /** Rewind inside the live shard, returning the unmarked notes in ascending leaf order. */
    method DoRewindLive(leafCount: nat) returns (r: Result<seq<Fr>>)
      requires Valid()
      modifies this
      ensures Valid()
      ensures r.Ok? <==> RewindLive(g, old(State()), leafCount).Ok?
      ensures r.Ok? ==> State() == RewindLive(g, old(State()), leafCount).value
      ensures r.Ok? ==> forall id :: id in r.value <==> id in old(ownedNotes) && leafCount <= old(ownedNotes)[id].leafIndex
      ensures r.Ok? ==> InLeafOrder(old(ownedNotes), r.value)
      ensures r.Err? ==> r.error == RewindLive(g, old(State()), leafCount).error && State() == old(State())
    {
      hide Pow2, NotesOk, Root, PushAll, UnmarkEach, OwnedRange, Inverse, InLeafOrder;
      ghost var s := State();
      RewindKeeps(g, s, leafCount);
      var completedLeafCount := |completedRoots| * g.ShardSize();
      if leafCount < completedLeafCount {
        return Err(RewindBeforeCompleted(completedLeafCount, leafCount));
      }
      if leafCount > LeafCount() {
        return Err(LeafIndexOutOfRange(leafCount, LeafCount()));
      }
      var removed := OwnedRange(ownedLeaves, leafCount, Pow2(g.depth));
      OwnedRangeSound(g, s, leafCount);
      OwnedRangeAscends(s.ownedNotes, s.ownedLeaves, leafCount, Pow2(g.depth));
      UnmarkAll(removed);
      RemovedLeaves(g, s, leafCount, removed);
      liveLeaves := liveLeaves[..leafCount - completedLeafCount];
      live := new Imt(g.shardHeight, ZERO, liveLeaves);
      assert State() == RewindLive(g, s, leafCount).value;
      RebuildCap();
      assert State() == RewindLive(g, s, leafCount).value;
      r := Ok(removed);
    }

    /** `unmark_owned` for each id in turn. */
    method UnmarkAll(ids: seq<Fr>)
      requires Valid()
      modifies this
      ensures Valid() && live == old(live) && cap == old(cap)
      ensures State() == UnmarkEach(old(State()), ids)
    {
      hide Inv;
      assert ids[..0] == [];
      for i := 0 to |ids|
        invariant Valid() && live == old(live) && cap == old(cap)
        invariant State() == UnmarkEach(old(State()), ids[..i])
      {
        assert ids[..i + 1][..i] == ids[..i];
        var _ := DoUnmarkOwned(ids[i]);
      }
      assert ids[..|ids|] == ids;
    }

    /** Check one persisted note against the restored trees and record it. */
    method Record(owned: OwnedNoteWitness) returns (r: Result<()>)
      requires g.Valid() && Holds(live, g.shardHeight, ZERO, liveLeaves)
      modifies this`ownedNotes, this`ownedLeaves
      ensures var spec := RestoreOne(g, completedRoots, liveLeaves, (old(ownedNotes), old(ownedLeaves)), owned);
        && (r.Ok? ==> spec == Ok((ownedNotes, ownedLeaves)))
        && (r.Err? ==> spec == Err(r.error))
    {
      hide Pow2;
      if owned.leafIndex >= Pow2(g.depth) {
        return Err(InvalidSnapshot);
      }
      if owned.noteId in ownedNotes || owned.leafIndex in ownedLeaves {
        return Err(InvalidSnapshot);
      }
      if Shr(owned.leafIndex, g.shardHeight) < |completedRoots| {
        if owned.withinShardSiblings.None? {
          return Err(InvalidSnapshot);
        }
        var path := CheckFrozenPath(owned.noteId, owned.leafIndex, owned.withinShardSiblings.value);
        if path.Err? {
          return Err(path.error);
        }
      } else {
        if owned.withinShardSiblings.Some? {
          return Err(InvalidSnapshot);
        }
        if owned.leafIndex < LeafCount() && live.Leaf(Within(owned.leafIndex, g.shardHeight)) != Some(owned.noteId) {
          return Err(OwnedLeafMismatch(owned.leafIndex));
        }
      }
      ownedLeaves := ownedLeaves[owned.leafIndex := owned.noteId];
      ownedNotes := ownedNotes[owned.noteId := owned];
      r := Ok(());
    }

    method RecordAll(notes: seq<OwnedNoteWitness>) returns (r: Result<()>)
      requires g.Valid() && Holds(live, g.shardHeight, ZERO, liveLeaves)
      requires ownedNotes == map[] && ownedLeaves == map[]
      modifies this`ownedNotes, this`ownedLeaves
      ensures var spec := RestoreAll(g, completedRoots, liveLeaves, notes);
        && (r.Ok? ==> spec == Ok((ownedNotes, ownedLeaves)))
        && (r.Err? ==> spec == Err(r.error))
    {
      hide Pow2, RestoreOne;
      for i := 0 to |notes|
        invariant Holds(live, g.shardHeight, ZERO, liveLeaves)
        invariant RestoreAll(g, completedRoots, liveLeaves, notes[..i]) == Ok((ownedNotes, ownedLeaves))
      {
        assert notes[..i + 1][..i] == notes[..i];
        RestoreAllStops(g, completedRoots, liveLeaves, notes, i + 1);
        var recorded := Record(notes[i]);
        if recorded.Err? {
          return recorded;
        }
      }
      assert notes[..|notes|] == notes;
      r := Ok(());
    }

    method TakeSnapshot() returns (snapshot: ShardedTreeSnapshot)
      requires Valid()
      ensures snapshot == Snapshot(g, State())
      ensures Ascending(snapshot.ownedNotes)
      ensures forall note :: note in snapshot.ownedNotes <==> note.noteId in ownedNotes && ownedNotes[note.noteId] == note
    {
      hide OwnedSorted, Pow2, Ascending, NotesOk, Inverse;
      SnapshotLists(g, State());
      snapshot := ShardedTreeSnapshot(g.depth, g.shardHeight, completedRoots, liveLeaves,
                                      OwnedSorted(ownedNotes, ownedLeaves, Pow2(g.depth)));
    }

    method DrainDirty() returns (drained: seq<OwnedNoteWitness>)
      requires Valid()
      modifies this`dirtyOwnedNotes
      ensures Valid()
      ensures State() == old(State()).(dirty := {})
      ensures Ascending(drained)
      ensures forall note :: note in drained <==>
        note.noteId in old(dirtyOwnedNotes) && old(ownedNotes)[note.noteId] == note
    {
      hide OwnedSorted, Pow2, Ascending;
      DirtySorted(g, State());
      drained := OwnedSorted(Drained(State()), DirtyLeaves(State()), Pow2(g.depth));
      dirtyOwnedNotes := {};
    }
  }

  /** `new`: an empty tree, or the first geometry check that fails. */
  method New(depth: nat, shardHeight: nat) returns (r: Result<ShardedNotesTree>)
    ensures r.Ok? <==> 0 < shardHeight < depth < USIZE_BITS
    ensures r.Err? ==>
      r.error == if shardHeight == 0 || shardHeight >= depth then InvalidGeometry(depth, shardHeight)
        else CapacityOverflow(if shardHeight >= USIZE_BITS then shardHeight else depth)
    ensures r.Ok? ==>
      && fresh(r.value) && fresh(r.value.live) && fresh(r.value.cap) && r.value.Valid()
      && r.value.g == Geometry(depth, shardHeight) && r.value.State() == EMPTY_STATE
  {
    hide Pow2, Inv, Root;
    var checked := CheckGeometry(depth, shardHeight);
    if checked.Err? {
      return Err(checked.error);
    }
    var tree := new ShardedNotesTree(checked.value);
    r := Ok(tree);
  }

  /** `from_snapshot`: rebuild both trees, then check and record every persisted note. */
  method FromSnapshot(snapshot: ShardedTreeSnapshot) returns (r: Result<ShardedNotesTree>)
    ensures r.Ok? <==> Restore(snapshot).Ok?
    ensures r.Ok? ==>
      && fresh(r.value) && fresh(r.value.live) && fresh(r.value.cap) && r.value.Valid()
      && r.value.g == Geometry(snapshot.depth, snapshot.shardHeight)
      && r.value.State() == Restore(snapshot).value
    ensures r.Err? ==> r.error == Restore(snapshot).error
  {
    hide Inv, Pow2, Root, RestoreAll;
    var checked := CheckGeometry(snapshot.depth, snapshot.shardHeight);
    if checked.Err? {
      return Err(checked.error);
    }
    var g := checked.value;
    if |snapshot.completedRoots| > Pow2(g.CapDepth()) || |snapshot.liveLeaves| >= g.ShardSize()
       || (|snapshot.completedRoots| == Pow2(g.CapDepth()) && snapshot.liveLeaves != []) {
      return Err(InvalidSnapshot);
    }
    var tree := new ShardedNotesTree(g);
    tree.completedRoots := snapshot.completedRoots;
    tree.liveLeaves := snapshot.liveLeaves;
    tree.live := new Imt(g.shardHeight, ZERO, tree.liveLeaves);
    tree.RebuildCap();
    var recorded := tree.RecordAll(snapshot.ownedNotes);
    if recorded.Err? {
      return Err(recorded.error);
    }
    RestoreSound(snapshot);
    r := Ok(tree);
  }

  /** The first bad note decides the error of the whole restore. */
  lemma {:induction false} RestoreAllStops(g: Geometry, completed: seq<Fr>, live: seq<Fr>, notes: seq<OwnedNoteWitness>, n: nat)
    requires n <= |notes|
    ensures RestoreAll(g, completed, live, notes[..n]).Err? ==>
      RestoreAll(g, completed, live, notes) == RestoreAll(g, completed, live, notes[..n])
    decreases |notes|
  {
    hide RestoreOne;
    if n < |notes| {
      RestoreAllStops(g, completed, live, notes[..|notes| - 1], n);
      assert notes[..|notes| - 1][..n] == notes[..n];
    } else {
      assert notes[..n] == notes;
    }
  }

  // ----- what the methods need of the state -----

  /** The live leaf at a marked note's position in a full live shard is that note. */
  lemma MarkedLeafPresent(g: Geometry, s: NotesState, note: OwnedNoteWitness)
    requires Loose(g, s) && |s.liveLeaves| == g.ShardSize()
    requires NoteOk(g, s.completedRoots, s.liveLeaves, note) && InShard(g, note, |s.completedRoots|)
    ensures LiveLeaf(g, s.liveLeaves, note.leafIndex) == Some(note.noteId)
  {
    hide Pow2, Shr, NotesOk, Inverse, Fold;
    PastShards(g, |s.completedRoots| + 1, note.leafIndex);
    assert (|s.completedRoots| + 1) * g.ShardSize() == |s.completedRoots| * g.ShardSize() + g.ShardSize();
  }

  lemma PushNone(g: Geometry, s: NotesState)
    ensures PushAll(g, s, []) == s
  {}

  lemma PushAllKeepsPrefix(g: Geometry, s: NotesState, ids: seq<Fr>, done: nat)
    requires Inv(g, s) && done <= |ids| && Count(g, s) + |ids| <= Pow2(g.depth)
    requires NoClash(s.ownedLeaves, Count(g, s), ids)
    ensures var t := PushAll(g, s, ids[..done]);
      && Inv(g, t) && t.ownedLeaves == s.ownedLeaves && Count(g, t) == Count(g, s) + done
      && NoClash(s.ownedLeaves, Count(g, s) + done, ids[done..])
  {
    hide Inv, Count, Clashes, PushAll, Pow2;
    PushAllKeeps(g, s, ids[..done]);
    forall i | 0 <= i < |ids| - done
      ensures !Clashes(s.ownedLeaves, Count(g, s) + done + i, ids[done..][i])
    {
      assert !Clashes(s.ownedLeaves, Count(g, s) + (done + i), ids[done + i]);
    }
  }

  function UnmarkEach(s: NotesState, ids: seq<Fr>): NotesState {
    if ids == [] then s else UnmarkOwned(UnmarkEach(s, ids[..|ids| - 1]), ids[|ids| - 1])
  }

  /** Unmarking each of `ids` removes those ids from both maps and the dirty set. */
  lemma {:induction false} UnmarkEachRemoves(s: NotesState, ids: seq<Fr>)
    requires Inverse(s.ownedNotes, s.ownedLeaves)
    ensures var t := UnmarkEach(s, ids);
      && t.completedRoots == s.completedRoots && t.liveLeaves == s.liveLeaves
      && t.ownedNotes == s.ownedNotes - (set id | id in ids)
      && t.ownedLeaves == (map i | i in s.ownedLeaves && s.ownedLeaves[i] !in ids :: s.ownedLeaves[i])
      && t.dirty == s.dirty - (set id | id in ids)
  {
    if ids != [] {
      var last := |ids| - 1;
      UnmarkEachRemoves(s, ids[..last]);
      assert forall id :: id in ids <==> id in ids[..last] || id == ids[last];
      var t := UnmarkEach(s, ids);
      assert t.ownedNotes == s.ownedNotes - set id | id in ids;
      assert t.ownedLeaves == map i | i in s.ownedLeaves && s.ownedLeaves[i] !in ids :: s.ownedLeaves[i];
      assert t.dirty == s.dirty - set id | id in ids;
    }
  }

  /** The range lists exactly the notes owned at indices `from..to`. */
  lemma {:induction false} OwnedRangeMembers(leaves: map<nat, Fr>, from: nat, to: nat, id: Fr)
    ensures id in OwnedRange(leaves, from, to) <==> (exists i | from <= i < to && i in leaves :: leaves[i] == id)
    decreases if from < to then to - from else 0
  {
    if from < to {
      OwnedRangeMembers(leaves, from + 1, to, id);
      var rest := OwnedRange(leaves, from + 1, to);
      assert id in OwnedRange(leaves, from, to) <==> (from in leaves && leaves[from] == id) || id in rest;
    }
  }

  lemma OwnedRangeSound(g: Geometry, s: NotesState, leafCount: nat)
    requires Inv(g, s)
    ensures forall id :: id in OwnedRange(s.ownedLeaves, leafCount, Pow2(g.depth))
                    <==> id in s.ownedNotes && leafCount <= s.ownedNotes[id].leafIndex
  {
    hide OwnedRange, Pow2;
    forall id
      ensures id in OwnedRange(s.ownedLeaves, leafCount, Pow2(g.depth))
         <==> id in s.ownedNotes && leafCount <= s.ownedNotes[id].leafIndex
    {
      OwnedRangeMembers(s.ownedLeaves, leafCount, Pow2(g.depth), id);
      if id in s.ownedNotes {
        assert NoteOk(g, s.completedRoots, s.liveLeaves, s.ownedNotes[id]);
      }
    }
  }

  /** Owned notes, each once, in ascending order of their leaves. */
  ghost predicate InLeafOrder(notes: map<Fr, OwnedNoteWitness>, ids: seq<Fr>) {
    && (forall k | 0 <= k < |ids| :: ids[k] in notes)
    && (forall i, j | 0 <= i < j < |ids| :: notes[ids[i]].leafIndex < notes[ids[j]].leafIndex)
  }

  /** The range lists its notes in strictly ascending leaf order. */
  lemma {:induction false} OwnedRangeAscends(notes: map<Fr, OwnedNoteWitness>, leaves: map<nat, Fr>, from: nat, to: nat)
    requires Inverse(notes, leaves)
    ensures var range := OwnedRange(leaves, from, to);
      InLeafOrder(notes, range) && forall k | 0 <= k < |range| :: from <= notes[range[k]].leafIndex
    decreases if from < to then to - from else 0
  {
    if from < to {
      OwnedRangeAscends(notes, leaves, from + 1, to);
      var rest := OwnedRange(leaves, from + 1, to);
      if from in leaves {
        FirstInOrder(notes, leaves[from], rest, from);
      } else {
        assert OwnedRange(leaves, from, to) == rest;
      }
    }
  }

  lemma FirstInOrder(notes: map<Fr, OwnedNoteWitness>, first: Fr, rest: seq<Fr>, from: nat)
    requires first in notes && notes[first].leafIndex == from
    requires InLeafOrder(notes, rest) && forall k | 0 <= k < |rest| :: from < notes[rest[k]].leafIndex
    ensures InLeafOrder(notes, [first] + rest)
    ensures forall k | 0 <= k < |[first] + rest| :: from <= notes[([first] + rest)[k]].leafIndex
  {
    var range := [first] + rest;
    assert forall k | 0 < k < |range| :: range[k] == rest[k - 1];
  }

  /** Unmarking the notes past the new end leaves exactly the maps a rewind keeps. */
  lemma RemovedLeaves(g: Geometry, s: NotesState, leafCount: nat, removed: seq<Fr>)
    requires Inv(g, s) && RewindLive(g, s, leafCount).Ok?
    requires forall id :: id in removed <==> id in s.ownedNotes && leafCount <= s.ownedNotes[id].leafIndex
    ensures var (t, next) := (UnmarkEach(s, removed), RewindLive(g, s, leafCount).value);
      && t.completedRoots == s.completedRoots && t.liveLeaves == s.liveLeaves
      && t.ownedNotes == next.ownedNotes && t.ownedLeaves == next.ownedLeaves && t.dirty == next.dirty
  {
    hide Pow2, NotesOk, UnmarkEach;
    UnmarkEachRemoves(s, removed);
    var t, next := UnmarkEach(s, removed), RewindLive(g, s, leafCount).value;
    assert t.ownedNotes == next.ownedNotes;
    assert t.ownedLeaves == next.ownedLeaves;
    assert t.dirty == next.dirty;
  }

  function DirtyLeaves(s: NotesState): map<nat, Fr> {
    map i | i in s.ownedLeaves && s.ownedLeaves[i] in s.dirty :: s.ownedLeaves[i]
  }

  /** The dirty notes in leaf order are exactly the notes owned under a dirty id. */
  lemma DirtySorted(g: Geometry, s: NotesState)
    requires Inv(g, s)
    ensures Inverse(Drained(s), DirtyLeaves(s))
    ensures var drained := OwnedSorted(Drained(s), DirtyLeaves(s), Pow2(g.depth));
      && Ascending(drained)
      && forall note :: note in drained <==> note.noteId in s.dirty && s.ownedNotes[note.noteId] == note
  {
    hide Pow2, OwnedSorted, Ascending, NotesOk;
    SortedIsOwned(Drained(s), DirtyLeaves(s), Pow2(g.depth));
    NotesInTree(g, s);
  }
}
