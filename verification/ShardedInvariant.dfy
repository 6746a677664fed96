/** Every operation of the sharded tree keeps its invariant. */
module ShardedInvariant {
  import opened Binary
  import opened NodeHash
  import opened TreeErrors
  import opened InclusionProofs
  import opened Sharding
  import opened ShardedState

  // ----- counting -----

  lemma CapacitySplits(g: Geometry)
    requires g.Valid()
    ensures Pow2(g.depth) == Pow2(g.CapDepth()) * g.ShardSize()
  {
    Pow2Add(g.CapDepth(), g.shardHeight);
  }

  /** Whole shards bound the count; the tree is full exactly when every shard is completed. */
  lemma CountBounds(g: Geometry, s: NotesState)
    requires g.Valid() && Fits(g, s.completedRoots, s.liveLeaves)
    ensures Count(g, s) <= Pow2(g.depth)
    ensures Count(g, s) < Pow2(g.depth) <==> |s.completedRoots| < Pow2(g.CapDepth())
    ensures Count(g, s) < Pow2(g.depth) ==> (|s.completedRoots| + 1) * g.ShardSize() <= Pow2(g.depth)
  {
    hide Pow2;
    CapacitySplits(g);
    var c, size, cap := |s.completedRoots|, g.ShardSize(), Pow2(g.CapDepth());
    if c < cap {
      MulMonotone(c + 1, cap, size);
      assert (c + 1) * size == c * size + size;
    } else {
      assert c * size == cap * size;
      assert Count(g, s) == Pow2(g.depth);
    }
  }

  /** An index at or past the completed shards but before the end lies in the live shard. */
  lemma LiveIndex(g: Geometry, shards: nat, live: nat, index: nat)
    requires shards <= Shr(index, g.shardHeight) && live <= g.ShardSize()
    requires index < shards * g.ShardSize() + live
    ensures Shr(index, g.shardHeight) == shards
    ensures Within(index, g.shardHeight) < live
  {
    hide Pow2, Shr;
    var shard, size := Shr(index, g.shardHeight), g.ShardSize();
    var within := Within(index, g.shardHeight);
    assert (shards + 1) * size == shards * size + size;
    if shards < shard {
      MulMonotone(shards + 1, shard, size);
    }
  }

  lemma PastShards(g: Geometry, shards: nat, index: nat)
    ensures shards <= Shr(index, g.shardHeight) <==> shards * g.ShardSize() <= index
  {
    hide Pow2, Shr;
    var shard, size := Shr(index, g.shardHeight), g.ShardSize();
    var within := Within(index, g.shardHeight);
    if shards <= shard {
      MulMonotone(shards, shard, size);
    } else {
      MulMonotone(shard + 1, shards, size);
      assert (shard + 1) * size == shard * size + size;
    }
  }

  /** Position `k` of the live shard, as a global index. */
  lemma LivePosition(g: Geometry, shards: nat, k: nat)
    requires k < g.ShardSize()
    ensures Shr(shards * g.ShardSize() + k, g.shardHeight) == shards
    ensures Within(shards * g.ShardSize() + k, g.shardHeight) == k
  {
    hide Pow2, Shr;
    var index, size := shards * g.ShardSize() + k, g.ShardSize();
    ShrSplits(index, g.shardHeight);
    assert (shards + 1) * size == shards * size + size;
    QuotientUnique(index, shards, Shr(index, g.shardHeight), size);
  }

  // ----- appending -----

  /** The invariant with the live shard allowed to be full, as it is just before a rollover. */
  ghost predicate Loose(g: Geometry, s: NotesState) {
    && g.Valid()
    && |s.completedRoots| <= Pow2(g.CapDepth())
    && |s.liveLeaves| <= g.ShardSize()
    && (|s.completedRoots| == Pow2(g.CapDepth()) ==> s.liveLeaves == [])
    && Inverse(s.ownedNotes, s.ownedLeaves)
    && NotesOk(g, s.completedRoots, s.liveLeaves, s.ownedNotes)
    && s.dirty <= s.ownedNotes.Keys
  }

  ghost predicate NoClash(leaves: map<nat, Fr>, first: nat, ids: seq<Fr>) {
    forall i | 0 <= i < |ids| :: !Clashes(leaves, first + i, ids[i])
  }

  /** A note sees the right leaf in the extended live shard. */
  lemma NoteAfterExtend(g: Geometry, s: NotesState, ids: seq<Fr>, id: Fr)
    requires Inv(g, s) && id in s.ownedNotes
    requires |s.liveLeaves| + |ids| <= g.ShardSize()
    requires NoClash(s.ownedLeaves, Count(g, s), ids)
    ensures NoteOk(g, s.completedRoots, s.liveLeaves + ids, s.ownedNotes[id])
  {
    hide Fold, Root, NodeAt, Siblings, Pow2, Shr;
    var note, shards, live := s.ownedNotes[id], |s.completedRoots|, s.liveLeaves + ids;
    assert NoteOk(g, s.completedRoots, s.liveLeaves, note);
    if note.withinShardSiblings.None? && note.leafIndex < shards * g.ShardSize() + |live| {
      LiveIndex(g, shards, |live|, note.leafIndex);
      var within := Within(note.leafIndex, g.shardHeight);
      if note.leafIndex >= Count(g, s) {
        var i := note.leafIndex - Count(g, s);
        assert !Clashes(s.ownedLeaves, Count(g, s) + i, ids[i]);
        assert live[within] == ids[i];
      } else {
        LiveIndex(g, shards, |s.liveLeaves|, note.leafIndex);
      }
    }
  }

  lemma ExtendLive(g: Geometry, s: NotesState, ids: seq<Fr>)
    requires Inv(g, s) && |s.liveLeaves| + |ids| <= g.ShardSize()
    requires |s.completedRoots| < Pow2(g.CapDepth()) || ids == []
    requires NoClash(s.ownedLeaves, Count(g, s), ids)
    ensures Loose(g, s.(liveLeaves := s.liveLeaves + ids))
  {
    hide NoteOk, Pow2;
    assert ids == [] ==> s.liveLeaves + ids == s.liveLeaves;
    forall id | id in s.ownedNotes
      ensures NoteOk(g, s.completedRoots, s.liveLeaves + ids, s.ownedNotes[id])
    {
      NoteAfterExtend(g, s, ids, id);
    }
  }

  /** Freezing a note of the full shard gives a path to the shard's root. */
  lemma FreezeClimbs(g: Geometry, live: seq<Fr>, leafIndex: nat, id: Fr)
    requires LiveLeaf(g, live, leafIndex) == Some(id)
    ensures var within := Within(leafIndex, g.shardHeight);
      Fold(id, within, Siblings(live, ZERO, g.shardHeight, within)) == Root(live, ZERO, g.shardHeight)
  {
    hide NodeAt, Pow2, Shr, Fold;
    var within := Within(leafIndex, g.shardHeight);
    ShrZero(within, g.shardHeight);
    FoldPath(live, ZERO, g.shardHeight, within, g.shardHeight);
    var siblings := Siblings(live, ZERO, g.shardHeight, within);
    assert siblings[..g.shardHeight] == siblings;
  }

  lemma NoteAfterRollOver(g: Geometry, s: NotesState, id: Fr)
    requires Loose(g, s) && |s.liveLeaves| == g.ShardSize() && id in s.ownedNotes
    ensures NoteOk(g, s.completedRoots + [Root(s.liveLeaves, ZERO, g.shardHeight)], [],
                   Freeze(g, s.liveLeaves, s.ownedNotes[id], |s.completedRoots|))
  {
    hide NodeAt, Pow2, Shr, Fold, Siblings, Root;
    var note, shards, size := s.ownedNotes[id], |s.completedRoots|, g.ShardSize();
    assert NoteOk(g, s.completedRoots, s.liveLeaves, note);
    assert (shards + 1) * size == shards * size + size;
    if note.withinShardSiblings.None? {
      PastShards(g, shards + 1, note.leafIndex);
      if InShard(g, note, shards) {
        FreezeClimbs(g, s.liveLeaves, note.leafIndex, note.noteId);
      }
    }
  }

  lemma RollOverKeeps(g: Geometry, s: NotesState)
    requires Loose(g, s) && |s.liveLeaves| == g.ShardSize()
    ensures Inv(g, RollOver(g, s))
    ensures Count(g, RollOver(g, s)) == Count(g, s)
  {
    hide NoteOk, Pow2, Root, InShard;
    var next := RollOver(g, s);
    assert next.ownedNotes.Keys == s.ownedNotes.Keys;
    forall id | id in s.ownedNotes
      ensures NoteOk(g, next.completedRoots, [], next.ownedNotes[id])
    {
      NoteAfterRollOver(g, s, id);
    }
    var shards, size := |s.completedRoots|, g.ShardSize();
    assert (shards + 1) * size == shards * size + size;
  }

  /** A run of leaves that stays inside the live shard is one extension and at most one rollover. */
  lemma {:induction false} PushRun(g: Geometry, s: NotesState, ids: seq<Fr>)
    requires |s.liveLeaves| + |ids| <= g.ShardSize() && |s.liveLeaves| < g.ShardSize()
    ensures PushAll(g, s, ids) == RollOverIfFull(g, s.(liveLeaves := s.liveLeaves + ids))
  {
    hide RollOver, Pow2;
    if ids == [] {
      assert s.liveLeaves + ids == s.liveLeaves;
    } else {
      var last := |ids| - 1;
      PushRun(g, s, ids[..last]);
      assert s.liveLeaves + ids[..last] + [ids[last]] == s.liveLeaves + ids;
    }
  }

  lemma {:induction false} PushAllConcat(g: Geometry, s: NotesState, a: seq<Fr>, b: seq<Fr>)
    ensures PushAll(g, s, a + b) == PushAll(g, PushAll(g, s, a), b)
  {
    hide Push;
    if b == [] {
      assert a + b == a;
    } else {
      PushAllConcat(g, s, a, b[..|b| - 1]);
      assert (a + b)[..|a + b| - 1] == a + b[..|b| - 1];
    }
  }

  /** One push keeps the invariant and adds one leaf; the marked slots stay as they are. */
  lemma PushKeeps(g: Geometry, s: NotesState, id: Fr)
    requires Inv(g, s) && Count(g, s) < Pow2(g.depth)
    requires !Clashes(s.ownedLeaves, Count(g, s), id)
    ensures Inv(g, Push(g, s, id))
    ensures Count(g, Push(g, s, id)) == Count(g, s) + 1
    ensures Push(g, s, id).ownedLeaves == s.ownedLeaves
  {
    hide NotesOk, Inverse, Pow2, Root;
    CountBounds(g, s);
    assert NoClash(s.ownedLeaves, Count(g, s), [id]);
    ExtendLive(g, s, [id]);
    var extended := s.(liveLeaves := s.liveLeaves + [id]);
    if |extended.liveLeaves| == g.ShardSize() {
      RollOverKeeps(g, extended);
    }
  }

  lemma {:induction false} PushAllKeeps(g: Geometry, s: NotesState, ids: seq<Fr>)
    requires Inv(g, s) && Count(g, s) + |ids| <= Pow2(g.depth)
    requires NoClash(s.ownedLeaves, Count(g, s), ids)
    ensures Inv(g, PushAll(g, s, ids))
    ensures Count(g, PushAll(g, s, ids)) == Count(g, s) + |ids|
    ensures PushAll(g, s, ids).ownedLeaves == s.ownedLeaves
  {
    hide Inv, Push, Count, Pow2;
    if ids != [] {
      var last := |ids| - 1;
      PushAllKeeps(g, s, ids[..last]);
      assert !Clashes(s.ownedLeaves, Count(g, s) + last, ids[last]);
      PushKeeps(g, PushAll(g, s, ids[..last]), ids[last]);
    }
  }

  /** `append_many` is repeated `append`: it succeeds on the same batches, with the same result. */
  lemma {:induction false} AppendManyIsAppendEach(g: Geometry, s: NotesState, ids: seq<Fr>)
    requires Inv(g, s)
    ensures AppendMany(g, s, ids).Ok? <==> AppendEach(g, s, ids).Ok?
    ensures AppendMany(g, s, ids).Ok? ==> AppendMany(g, s, ids) == AppendEach(g, s, ids)
  {
    hide Inv, Push, Count, Pow2, Clashes;
    CountWithin(g, s);
    if ids != [] {
      var last := |ids| - 1;
      AppendManyIsAppendEach(g, s, ids[..last]);
      if AppendMany(g, s, ids[..last]).Ok? {
        PushAllKeeps(g, s, ids[..last]);
      }
    }
  }

  lemma CountWithin(g: Geometry, s: NotesState)
    requires Inv(g, s)
    ensures Count(g, s) <= Pow2(g.depth)
  {
    CountBounds(g, s);
  }

  // ----- the other operations -----

  /** Recording a note at a free slot, under a free id, keeps the maps inverse. */
  lemma AdoptedKeeps(g: Geometry, s: NotesState, note: OwnedNoteWitness)
    requires Inv(g, s) && NoteOk(g, s.completedRoots, s.liveLeaves, note)
    requires note.noteId in s.ownedNotes ==> s.ownedNotes[note.noteId].leafIndex == note.leafIndex
    requires !Clashes(s.ownedLeaves, note.leafIndex, note.noteId)
    ensures Inv(g, Adopted(s, note))
  {
    hide NoteOk, Pow2;
  }

  lemma MarkKeeps(g: Geometry, s: NotesState, id: Fr, leafIndex: nat)
    requires Inv(g, s)
    ensures MarkOwned(g, s, id, leafIndex).Ok? ==> Inv(g, MarkOwned(g, s, id, leafIndex).value)
  {
    hide Pow2, Inverse, NotesOk;
    if MarkOwned(g, s, id, leafIndex).Ok? && id !in s.ownedNotes {
      AdoptedKeeps(g, s, OwnedNoteWitness(id, leafIndex, None));
    }
  }

  lemma UnmarkKeeps(g: Geometry, s: NotesState, id: Fr)
    requires Inv(g, s)
    ensures Inv(g, UnmarkOwned(s, id))
  {
    hide NoteOk, Pow2;
  }

  lemma ShardBelowCapacity(g: Geometry, leafIndex: nat)
    requires g.Valid() && Shr(leafIndex, g.shardHeight) < Pow2(g.CapDepth())
    ensures leafIndex < Pow2(g.depth)
  {
    ShrShr(leafIndex, g.shardHeight, g.CapDepth());
    ShrZero(Shr(leafIndex, g.shardHeight), g.CapDepth());
    ShrZero(leafIndex, g.depth);
  }

  lemma AdoptKeeps(g: Geometry, s: NotesState, id: Fr, leafIndex: nat, siblings: seq<Fr>)
    requires Inv(g, s)
    ensures AdoptFrozen(g, s, id, leafIndex, siblings).Ok? ==> Inv(g, AdoptFrozen(g, s, id, leafIndex, siblings).value)
  {
    hide Pow2, Inverse, NotesOk, Fold;
    if AdoptFrozen(g, s, id, leafIndex, siblings).Ok? {
      ShardBelowCapacity(g, leafIndex);
      AdoptedKeeps(g, s, OwnedNoteWitness(id, leafIndex, Some(siblings)));
    }
  }

  lemma NoteAfterRewind(g: Geometry, s: NotesState, leafCount: nat, id: Fr)
    requires Inv(g, s) && id in s.ownedNotes && s.ownedNotes[id].leafIndex < leafCount
    requires CompletedCount(g, s) <= leafCount <= Count(g, s)
    ensures NoteOk(g, s.completedRoots, s.liveLeaves[..leafCount - CompletedCount(g, s)], s.ownedNotes[id])
  {
    hide Pow2, Shr, Fold;
    var note := s.ownedNotes[id];
    assert NoteOk(g, s.completedRoots, s.liveLeaves, note);
    if note.withinShardSiblings.None? {
      LiveIndex(g, |s.completedRoots|, leafCount - CompletedCount(g, s), note.leafIndex);
    }
  }

  lemma RewindKeeps(g: Geometry, s: NotesState, leafCount: nat)
    requires Inv(g, s)
    ensures RewindLive(g, s, leafCount).Ok? ==>
      && Inv(g, RewindLive(g, s, leafCount).value)
      && Count(g, RewindLive(g, s, leafCount).value) == leafCount
  {
    hide Pow2, NoteOk;
    if RewindLive(g, s, leafCount).Ok? {
      var next := RewindLive(g, s, leafCount).value;
      forall id | id in next.ownedNotes
        ensures NoteOk(g, next.completedRoots, next.liveLeaves, next.ownedNotes[id])
      {
        NoteAfterRewind(g, s, leafCount, id);
      }
    }
  }

  lemma DrainKeeps(g: Geometry, s: NotesState)
    requires Inv(g, s)
    ensures Inv(g, s.(dirty := {}))
  {}
}
