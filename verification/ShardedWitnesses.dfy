/**
 What the sharded tree promises: its root is the flat root of the leaf log, and every
 witness it hands out is accepted against that root, over any run of operations.
 */
module ShardedWitnesses {
  import opened Binary
  import opened NodeHash
  import opened TreeErrors
  import opened InclusionProofs
  import opened IncrementalTree
  import opened Sharding
  import opened ShardedState
  import opened ShardedInvariant

  // ----- every witness is accepted -----

  /** Below the cut, climbing a path only looks at the position inside the shard. */
  lemma {:induction false} FoldWithin(node: Fr, index: nat, height: nat, siblings: seq<Fr>)
    requires |siblings| <= height
    ensures Fold(node, index, siblings) == Fold(node, Within(index, height), siblings)
  {
    hide Shr, Pow2;
    if siblings != [] {
      var last := |siblings| - 1;
      FoldWithin(node, index, height, siblings[..last]);
      ShrWithin(index, height, last);
      Stride(Shr(index, height), height, last + 1);
    }
  }

  /** The within-shard path of a witness climbs to the cap leaf of its shard. */
  lemma WitnessReachesCap(g: Geometry, s: NotesState, id: Fr)
    requires Inv(g, s) && Witness(g, s, id).Ok?
    ensures var (note, cap) := (s.ownedNotes[id], CapLeaves(g, s.completedRoots, s.liveLeaves));
      var within := Witness(g, s, id).value.siblings[..g.shardHeight];
      && Shr(note.leafIndex, g.shardHeight) < |cap|
      && |within| == g.shardHeight
      && Fold(id, note.leafIndex, within) == cap[Shr(note.leafIndex, g.shardHeight)]
  {
    hide Shr, Pow2, NodeAt, Fold, Root;
    var note, within := s.ownedNotes[id], Witness(g, s, id).value.siblings[..g.shardHeight];
    assert NoteOk(g, s.completedRoots, s.liveLeaves, note);
    FoldWithin(id, note.leafIndex, g.shardHeight, within);
    match note.withinShardSiblings
    case Some(frozen) =>
      assert within == frozen;
    case None =>
      FreezeClimbs(g, s.liveLeaves, note.leafIndex, id);
      assert within == Siblings(s.liveLeaves, ZERO, g.shardHeight, Within(note.leafIndex, g.shardHeight));
  }

  /** Climbing from a cap leaf along its cap path reaches the current root. */
  lemma CapClimbs(g: Geometry, s: NotesState, shard: nat)
    requires Inv(g, s) && shard < |CapLeaves(g, s.completedRoots, s.liveLeaves)|
    ensures var cap := CapLeaves(g, s.completedRoots, s.liveLeaves);
      Fold(cap[shard], shard, Siblings(cap, CapZero(g), g.CapDepth(), shard)) == RootOf(g, s)
  {
    hide Shr, Pow2, NodeAt, Fold, NotesOk, Inverse;
    var cap := CapLeaves(g, s.completedRoots, s.liveLeaves);
    var siblings := Siblings(cap, CapZero(g), g.CapDepth(), shard);
    FoldPath(cap, CapZero(g), g.CapDepth(), shard, g.CapDepth());
    assert siblings[..g.CapDepth()] == siblings;
    ShrZero(shard, g.CapDepth());
  }

  /**
   A witness exists exactly for an owned note whose leaf is in the tree, names that note and
   leaf, and is accepted at the tree's depth against the current root; the error tells an unmarked
   note from a leaf that is not in the tree.
   */
  lemma WitnessAccepted(g: Geometry, s: NotesState, id: Fr)
    requires Inv(g, s)
    ensures Witness(g, s, id).Ok? <==> id in s.ownedNotes && s.ownedNotes[id].leafIndex < Count(g, s)
    ensures Witness(g, s, id).Ok? ==>
      var proof := Witness(g, s, id).value;
      && proof.leaf == id && proof.index == s.ownedNotes[id].leafIndex && proof.root == RootOf(g, s)
      && Accepts(proof, g.depth)
    ensures Witness(g, s, id).Err? ==>
      Witness(g, s, id).error == if id in s.ownedNotes then OwnedLeafMismatch(s.ownedNotes[id].leafIndex) else NoteNotMarked
  {
    hide Shr, Pow2, NodeAt, Fold, Root, Siblings;
    if id in s.ownedNotes {
      var note := s.ownedNotes[id];
      assert NoteOk(g, s.completedRoots, s.liveLeaves, note);
      WitnessExists(g, s, note);
      if Witness(g, s, id).Ok? {
        var proof := Witness(g, s, id).value;
        var within, above := proof.siblings[..g.shardHeight], proof.siblings[g.shardHeight..];
        WitnessReachesCap(g, s, id);
        CapClimbs(g, s, Shr(note.leafIndex, g.shardHeight));
        FoldConcat(id, note.leafIndex, within, above);
        assert within + above == proof.siblings;
      }
    }
  }

  lemma WitnessExists(g: Geometry, s: NotesState, note: OwnedNoteWitness)
    requires Inv(g, s) && NoteOk(g, s.completedRoots, s.liveLeaves, note)
    ensures note.withinShardSiblings.Some? ==> note.leafIndex < Count(g, s)
    ensures note.withinShardSiblings.None? ==>
      (note.leafIndex < Count(g, s) <==>
         && Shr(note.leafIndex, g.shardHeight) == |s.completedRoots|
         && LiveLeaf(g, s.liveLeaves, note.leafIndex) == Some(note.noteId))
  {
    hide Shr, Pow2, Fold, NotesOk, Inverse;
    PastShards(g, |s.completedRoots|, note.leafIndex);
    if note.withinShardSiblings.None? && note.leafIndex < Count(g, s) {
      LiveIndex(g, |s.completedRoots|, |s.liveLeaves|, note.leafIndex);
    }
  }

  // ----- the leaf log -----

  /** The state holds the whole shards of the log as roots and the rest as live leaves. */
  ghost predicate Represents(g: Geometry, s: NotesState, log: seq<Fr>)
    requires g.Valid()
  {
    && |log| == Count(g, s)
    && Shr(|log|, g.shardHeight) == |s.completedRoots|
    && (forall i | 0 <= i < |s.completedRoots| :: s.completedRoots[i] == NodeAt(log, ZERO, g.shardHeight, i))
    && s.liveLeaves == log[|s.completedRoots| * g.ShardSize()..]
  }

  /** The cap's leaves are the flat tree's row at the cut. */
  lemma CapIsRow(g: Geometry, s: NotesState, log: seq<Fr>)
    requires Inv(g, s) && Represents(g, s, log)
    ensures CapLeaves(g, s.completedRoots, s.liveLeaves) == Row(log, ZERO, g.shardHeight)
  {
    hide NodeAt, Shr, NotesOk, Inverse, Pow2;
    var shards := |s.completedRoots|;
    ShardStarts(|log|, g.shardHeight, shards);
    HalvesUpBounds(|log|, g.shardHeight);
    if s.liveLeaves != [] {
      ShardRoot(log, ZERO, g.shardHeight, shards);
      assert Chunk(log, g.shardHeight, shards) == s.liveLeaves;
    }
  }

  /** The sharded root is the flat depth-`depth` root of the log. */
  lemma RootIsFlat(g: Geometry, s: NotesState, log: seq<Fr>)
    requires Inv(g, s) && Represents(g, s, log)
    ensures RootOf(g, s) == Root(log, ZERO, g.depth)
  {
    hide NodeAt, Shr, NotesOk, Inverse, Represents;
    CapIsRow(g, s, log);
    CapRoot(log, ZERO, g.shardHeight, g.CapDepth());
  }

  lemma ShardsOfLongerLog(g: Geometry, log: seq<Fr>, more: seq<Fr>, i: nat)
    requires i < Shr(|log|, g.shardHeight)
    ensures NodeAt(log + more, ZERO, g.shardHeight, i) == NodeAt(log, ZERO, g.shardHeight, i)
  {
    NodeAtPrefix(log + more, log, |log|, ZERO, g.shardHeight, i);
  }

  /** Extending the log inside the live shard. */
  lemma ExtendRepresents(g: Geometry, s: NotesState, log: seq<Fr>, id: Fr)
    requires Inv(g, s) && Represents(g, s, log)
    ensures var (t, longer) := (s.(liveLeaves := s.liveLeaves + [id]), log + [id]);
      && |longer| == Count(g, t)
      && (forall i | 0 <= i < |t.completedRoots| :: t.completedRoots[i] == NodeAt(longer, ZERO, g.shardHeight, i))
      && |t.completedRoots| * g.ShardSize() <= |longer|
      && t.liveLeaves == longer[|t.completedRoots| * g.ShardSize()..]
  {
    hide NodeAt, Shr, NotesOk, Inverse, Pow2;
    forall i | 0 <= i < |s.completedRoots|
      ensures s.completedRoots[i] == NodeAt(log + [id], ZERO, g.shardHeight, i)
    {
      ShardsOfLongerLog(g, log, [id], i);
    }
  }

  lemma PushRepresents(g: Geometry, s: NotesState, log: seq<Fr>, id: Fr)
    requires Inv(g, s) && Represents(g, s, log)
    ensures Represents(g, Push(g, s, id), log + [id])
  {
    hide NodeAt, Shr, NotesOk, Inverse, Pow2, Freeze, InShard;
    var longer, shards, size := log + [id], |s.completedRoots|, g.ShardSize();
    ExtendRepresents(g, s, log, id);
    var live := s.liveLeaves + [id];
    assert (shards + 1) * size == shards * size + size;
    if |live| == size {
      LivePosition(g, shards + 1, 0);
      ShardRoot(longer, ZERO, g.shardHeight, shards);
      assert Chunk(longer, g.shardHeight, shards) == live;
    } else {
      LivePosition(g, shards, |live|);
    }
  }

  lemma RewindRepresents(g: Geometry, s: NotesState, log: seq<Fr>, leafCount: nat)
    requires Inv(g, s) && Represents(g, s, log) && RewindLive(g, s, leafCount).Ok?
    ensures Represents(g, RewindLive(g, s, leafCount).value, log[..leafCount])
  {
    hide NodeAt, Shr, NotesOk, Inverse, Pow2;
    var shards := |s.completedRoots|;
    LivePosition(g, shards, leafCount - CompletedCount(g, s));
    assert log[..leafCount] + log[leafCount..] == log;
    forall i | 0 <= i < shards
      ensures s.completedRoots[i] == NodeAt(log[..leafCount], ZERO, g.shardHeight, i)
    {
      ShardsOfLongerLog(g, log[..leafCount], log[leafCount..], i);
    }
  }

  // ----- witnesses equal to the flat proof -----

  /** The frozen path is the flat tree's path, and the leaf is the log's. */
  ghost predicate Genuine(g: Geometry, log: seq<Fr>, note: OwnedNoteWitness) {
    note.withinShardSiblings.Some? ==>
      && note.leafIndex < |log| && log[note.leafIndex] == note.noteId
      && note.withinShardSiblings.value
         == Siblings(Chunk(log, g.shardHeight, Shr(note.leafIndex, g.shardHeight)), ZERO, g.shardHeight,
                     Within(note.leafIndex, g.shardHeight))
  }

  ghost predicate AllGenuine(g: Geometry, log: seq<Fr>, notes: map<Fr, OwnedNoteWitness>) {
    forall id | id in notes :: Genuine(g, log, notes[id])
  }

  /** The last, partial or just filled, shard of a log is its live part. */
  lemma LiveIsChunk(g: Geometry, log: seq<Fr>, live: seq<Fr>, shards: nat, leafIndex: nat)
    requires shards * g.ShardSize() <= |log| && live == log[shards * g.ShardSize()..] && |live| <= g.ShardSize()
    ensures Chunk(log, g.shardHeight, shards) == live
    ensures Shr(leafIndex, g.shardHeight) == shards && Within(leafIndex, g.shardHeight) < |live| ==>
      leafIndex < |log| && log[leafIndex] == live[Within(leafIndex, g.shardHeight)]
  {
    hide Shr, Pow2;
    var within := Within(leafIndex, g.shardHeight);
    if Shr(leafIndex, g.shardHeight) == shards && within < |live| {
      assert leafIndex == shards * g.ShardSize() + within;
    }
  }

  /** With genuine frozen paths, a witness is the flat tree's own proof. */
  lemma WitnessIsFlat(g: Geometry, s: NotesState, log: seq<Fr>, id: Fr)
    requires Inv(g, s) && Represents(g, s, log) && AllGenuine(g, log, s.ownedNotes)
    requires Witness(g, s, id).Ok?
    ensures Witness(g, s, id).value == ProofAt(log, ZERO, g.depth, s.ownedNotes[id].leafIndex)
  {
    hide NodeAt, Shr, NotesOk, Pow2, Siblings, Root, Chunk, RootOf, CapLeaves;
    var note, shards := s.ownedNotes[id], |s.completedRoots|;
    assert Genuine(g, log, note);
    RootIsFlat(g, s, log);
    CapIsRow(g, s, log);
    SiblingsSplit(log, ZERO, g.shardHeight, g.CapDepth(), note.leafIndex);
    LiveIsChunk(g, log, s.liveLeaves, shards, note.leafIndex);
  }

  /** Whole shards of the log are the same in a longer log. */
  lemma GenuineExtends(g: Geometry, log: seq<Fr>, more: seq<Fr>, note: OwnedNoteWitness)
    requires Genuine(g, log, note)
    requires note.withinShardSiblings.Some? ==> (Shr(note.leafIndex, g.shardHeight) + 1) * g.ShardSize() <= |log|
    ensures Genuine(g, log + more, note)
  {
    hide NodeAt, Shr, Pow2, Siblings;
    if note.withinShardSiblings.Some? {
      var shard := Shr(note.leafIndex, g.shardHeight);
      assert (shard + 1) * g.ShardSize() == shard * g.ShardSize() + g.ShardSize();
      assert Chunk(log + more, g.shardHeight, shard) == Chunk(log, g.shardHeight, shard);
    }
  }

  /** ... and in a shorter log that still covers them. */
  lemma GenuineShortens(g: Geometry, log: seq<Fr>, length: nat, note: OwnedNoteWitness)
    requires Genuine(g, log, note) && length <= |log|
    requires note.withinShardSiblings.Some? ==> (Shr(note.leafIndex, g.shardHeight) + 1) * g.ShardSize() <= length
    ensures Genuine(g, log[..length], note)
  {
    hide NodeAt, Shr, Pow2, Siblings;
    if note.withinShardSiblings.Some? {
      var shard := Shr(note.leafIndex, g.shardHeight);
      assert (shard + 1) * g.ShardSize() == shard * g.ShardSize() + g.ShardSize();
      assert Chunk(log[..length], g.shardHeight, shard) == Chunk(log, g.shardHeight, shard);
    }
  }

  /** A frozen note lies in a whole shard. */
  lemma FrozenInWholeShard(g: Geometry, s: NotesState, note: OwnedNoteWitness)
    requires Inv(g, s) && NoteOk(g, s.completedRoots, s.liveLeaves, note) && note.withinShardSiblings.Some?
    ensures (Shr(note.leafIndex, g.shardHeight) + 1) * g.ShardSize() <= CompletedCount(g, s)
  {
    hide Shr, Pow2, Fold, NotesOk, Inverse;
    MulMonotone(Shr(note.leafIndex, g.shardHeight) + 1, |s.completedRoots|, g.ShardSize());
  }

  lemma PushNoteGenuine(g: Geometry, s: NotesState, log: seq<Fr>, id: Fr, note: OwnedNoteWitness)
    requires Inv(g, s) && Represents(g, s, log) && NoteOk(g, s.completedRoots, s.liveLeaves + [id], note)
    requires Genuine(g, log, note)
    ensures Genuine(g, log + [id], note)
    ensures |s.liveLeaves| + 1 == g.ShardSize() ==>
      Genuine(g, log + [id], Freeze(g, s.liveLeaves + [id], note, |s.completedRoots|))
  {
    hide NodeAt, Shr, Pow2, Siblings, Fold, NotesOk, Inverse;
    var longer, live, shards, size := log + [id], s.liveLeaves + [id], |s.completedRoots|, g.ShardSize();
    if note.withinShardSiblings.Some? {
      MulMonotone(Shr(note.leafIndex, g.shardHeight) + 1, shards, size);
      GenuineExtends(g, log, [id], note);
    } else if InShard(g, note, shards) && |live| == size {
      PastShards(g, shards + 1, note.leafIndex);
      assert (shards + 1) * size == shards * size + size;
      LiveIsChunk(g, longer, live, shards, note.leafIndex);
    }
  }

  /** Appending keeps every frozen path equal to the flat path, including the ones a rollover freezes. */
  lemma PushGenuine(g: Geometry, s: NotesState, log: seq<Fr>, id: Fr)
    requires Inv(g, s) && Represents(g, s, log) && AllGenuine(g, log, s.ownedNotes)
    requires Count(g, s) < Pow2(g.depth) && !Clashes(s.ownedLeaves, Count(g, s), id)
    ensures AllGenuine(g, log + [id], Push(g, s, id).ownedNotes)
  {
    hide Genuine, Freeze, Represents, NoteOk, Pow2, Count, Root;
    assert NoClash(s.ownedLeaves, Count(g, s), [id]);
    forall key | key in s.ownedNotes
      ensures Genuine(g, log + [id], s.ownedNotes[key])
      ensures |s.liveLeaves| + 1 == g.ShardSize() ==>
        Genuine(g, log + [id], Freeze(g, s.liveLeaves + [id], s.ownedNotes[key], |s.completedRoots|))
    {
      NoteAfterExtend(g, s, [id], key);
      PushNoteGenuine(g, s, log, id, s.ownedNotes[key]);
    }
  }

  /** An adopted path is the flat path, or it exhibits a hash collision. */
  lemma AdoptedGenuine(g: Geometry, s: NotesState, log: seq<Fr>, note: OwnedNoteWitness) returns (c: Option<Collision>)
    requires Inv(g, s) && Represents(g, s, log)
    requires note.withinShardSiblings.Some?
    requires FrozenPathOk(g, s.completedRoots, note.noteId, note.leafIndex, note.withinShardSiblings.value)
    ensures c.Some? ==> c.value.Valid()
    ensures c.None? ==> Genuine(g, log, note)
  {
    hide NodeAt, Shr, Pow2, Siblings, Fold, NotesOk, Inverse;
    var shard, within := Shr(note.leafIndex, g.shardHeight), Within(note.leafIndex, g.shardHeight);
    var chunk := Chunk(log, g.shardHeight, shard);
    MulMonotone(shard + 1, |s.completedRoots|, g.ShardSize());
    assert (shard + 1) * g.ShardSize() == shard * g.ShardSize() + g.ShardSize();
    ShardRoot(log, ZERO, g.shardHeight, shard);
    ShrZero(within, g.shardHeight);
    c := PathBinding(chunk, ZERO, g.shardHeight, note.noteId, within, note.withinShardSiblings.value);
    assert log[note.leafIndex] == chunk[within];
  }
}
