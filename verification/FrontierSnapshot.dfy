/**
 The binary snapshot of the append frontier: decoding accepts exactly the encodings of
 frontiers whose slots match their leaf count, and gives that frontier back.
 */
module FrontierSnapshots {
  import opened Binary
  import opened NodeHash
  import opened TreeErrors
  import opened IncrementalTree
  import opened AppendFrontier
  import opened ShardedState
  import opened ShardedRuns
  import opened Bytes
  import opened FieldCodec

  /** The bytes of "CVYFRONT". */
  const MAGIC: seq<Byte> := [67, 86, 89, 70, 82, 79, 78, 84]
  const VERSION: Byte := 1
  const HEADER_LEN: nat := 24

  datatype FrontierState = FrontierState(depth: nat, shardHeight: nat, leafCount: nat, slots: Slots) {
    ghost predicate Valid() {
      Geometry(depth, shardHeight).Valid() && SlotsMatch(slots, leafCount, depth)
    }
  }

  function Header(depth: Byte, shardHeight: Byte, leafCount: nat, slotCount: nat): (bytes: seq<Byte>)
    ensures |bytes| == HEADER_LEN
  {
    MAGIC + [VERSION, depth, shardHeight, 0] + BigEndian(leafCount, 8) + BigEndian(slotCount, 4)
  }

  function SlotBytes(slot: Option<Fr>): seq<Byte> {
    match slot
    case Some(f) => [1] + FieldBytes(f)
    case None => [0]
  }

  function SlotsBytes(slots: Slots): seq<Byte> {
    if slots == [] then [] else SlotsBytes(slots[..|slots| - 1]) + SlotBytes(slots[|slots| - 1])
  }

  function Encode(f: FrontierState): seq<Byte>
    requires f.depth < 256 && f.shardHeight < 256
  {
    Header(f.depth, f.shardHeight, f.leafCount, |f.slots|) + SlotsBytes(f.slots)
  }

  lemma NextSlotBytes(slots: Slots, i: nat)
    requires i < |slots|
    ensures SlotsBytes(slots[..i + 1]) == SlotsBytes(slots[..i]) + SlotBytes(slots[i])
  {
    assert slots[..i + 1][..i] == slots[..i];
  }

  lemma NoSlotBytes()
    ensures SlotsBytes([]) == []
  {}

  /** `encode_snapshot`. */
  method EncodeSnapshot(frontier: NotesFrontier) returns (bytes: seq<Byte>)
    requires frontier.Valid()
    ensures bytes == Encode(FrontierState(frontier.depth, frontier.shardHeight, frontier.leafCount, frontier.frontier))
  {
    hide Header, SlotBytes, SlotsBytes, AreZeroes, SlotsMatch;
    var slots := frontier.frontier;
    NoSlotBytes();
    bytes := Header(frontier.depth, frontier.shardHeight, frontier.leafCount, |slots|);
    for i := 0 to |slots|
      invariant bytes == Header(frontier.depth, frontier.shardHeight, frontier.leafCount, |slots|) + SlotsBytes(slots[..i])
    {
      NextSlotBytes(slots, i);
      bytes := bytes + SlotBytes(slots[i]);
    }
    assert slots[..|slots|] == slots;
  }

  /** One slot: a presence flag that must agree with bit `level` of the leaf count, then the field. */
  function ReadSlot(bytes: seq<Byte>, cursor: nat, level: nat, leafCount: nat): Parsed<Option<Fr>> {
    if cursor >= |bytes| then Err(InvalidSnapshot)
    else
      var (slot, next) :-
        match bytes[cursor]
        case 0 => Ok((None, cursor + 1))
        case 1 => (var (f, end) :- ReadField(bytes, cursor + 1); Ok((Some(f), end)))
        case _ => Err(InvalidSnapshot);
      if slot.Some? != Bit(leafCount, level) then Err(InvalidSnapshot) else Ok((slot, next))
  }

  function ReadSlots(bytes: seq<Byte>, cursor: nat, levels: nat, leafCount: nat): Parsed<Slots> {
    if levels == 0 then Ok(([], cursor))
    else
      var (slots, next) :- ReadSlots(bytes, cursor, levels - 1, leafCount);
      var (slot, end) :- ReadSlot(bytes, next, levels - 1, leafCount);
      Ok((slots + [slot], end))
  }

  /** `from_snapshot_bytes`, check by check. */
  function Decode(bytes: seq<Byte>): Result<FrontierState> {
    if |bytes| < HEADER_LEN then Err(InvalidSnapshot)
    else if bytes[..8] != MAGIC then Err(InvalidSnapshot)
    else if bytes[8] != VERSION then Err(InvalidSnapshot)
    else if bytes[11] != 0 then Err(InvalidSnapshot)
    else
      var depth, shardHeight := bytes[9], bytes[10];
      var leafCount, slotCount := FromBigEndian(bytes[12..20]), FromBigEndian(bytes[20..24]);
      var _ :- CheckGeometry(depth, shardHeight);
      if leafCount > Pow2(depth) then Err(InvalidSnapshot)
      else if slotCount != depth + 1 then Err(InvalidSnapshot)
      else
        var (slots, end) :- ReadSlots(bytes, HEADER_LEN, slotCount, leafCount);
        if end != |bytes| then Err(InvalidSnapshot) else Ok(FrontierState(depth, shardHeight, leafCount, slots))
  }

  // ----- the codec is a bijection -----

  lemma ReadSlotIff(bytes: seq<Byte>, cursor: nat, level: nat, leafCount: nat, slot: Option<Fr>, next: nat)
    ensures ReadSlot(bytes, cursor, level, leafCount) == Ok((slot, next))
       <==> next == cursor + |SlotBytes(slot)| && At(bytes, cursor, SlotBytes(slot)) && slot.Some? == Bit(leafCount, level)
  {
    hide Bit, FieldBytes, ReadField;
    if cursor < |bytes| {
      var flag: Byte := if slot.Some? then 1 else 0;
      assert bytes[cursor..cursor + 1] == [bytes[cursor]];
      assert At(bytes, cursor, [flag]) <==> bytes[cursor] == flag;
      if slot.Some? {
        ReadFieldIff(bytes, cursor + 1, slot.value, next);
        AtConcat(bytes, cursor, [1], FieldBytes(slot.value));
        if ReadSlot(bytes, cursor, level, leafCount) == Ok((slot, next)) {
          assert ReadField(bytes, cursor + 1).value == (slot.value, next);
        }
      }
    }
  }

  ghost predicate SlotsAgree(slots: Slots, leafCount: nat) {
    forall k | 0 <= k < |slots| :: slots[k].Some? <==> Bit(leafCount, k)
  }

  lemma {:induction false} ReadSlotsEnd(bytes: seq<Byte>, cursor: nat, levels: nat, leafCount: nat)
    ensures ReadSlots(bytes, cursor, levels, leafCount).Ok? ==> |ReadSlots(bytes, cursor, levels, leafCount).value.0| == levels
  {
    hide ReadSlot;
    if levels > 0 {
      ReadSlotsEnd(bytes, cursor, levels - 1, leafCount);
    }
  }

  lemma {:induction false} ReadSlotsIff(bytes: seq<Byte>, cursor: nat, leafCount: nat, slots: Slots, next: nat)
    requires cursor <= |bytes|
    ensures ReadSlots(bytes, cursor, |slots|, leafCount) == Ok((slots, next))
       <==> next == cursor + |SlotsBytes(slots)| && At(bytes, cursor, SlotsBytes(slots)) && SlotsAgree(slots, leafCount)
  {
    hide ReadSlot, SlotBytes, Bit;
    if slots != [] {
      var last := |slots| - 1;
      var before, slot := slots[..last], slots[last];
      var middle := cursor + |SlotsBytes(before)|;
      ReadSlotsIff(bytes, cursor, leafCount, before, middle);
      ReadSlotIff(bytes, middle, last, leafCount, slot, next);
      AtConcat(bytes, cursor, SlotsBytes(before), SlotBytes(slot));
      ReadSlotsEnd(bytes, cursor, last, leafCount);
      assert before + [slot] == slots;
      assert SlotsAgree(slots, leafCount) <==> SlotsAgree(before, leafCount) && (slot.Some? <==> Bit(leafCount, last));
      if ReadSlots(bytes, cursor, |slots|, leafCount) == Ok((slots, next)) {
        var (g, at) := ReadSlots(bytes, cursor, last, leafCount).value;
        var read := ReadSlot(bytes, at, last, leafCount).value.0;
        assert slots == g + [read] && g == before && read == slot;
        ReadSlotsIff(bytes, cursor, leafCount, before, at);
      }
    }
  }

  /** The fixed header fields stand at the start exactly when each is read back. */
  lemma HeaderIff(bytes: seq<Byte>, depth: Byte, shardHeight: Byte, leafCount: nat, slotCount: nat)
    requires |bytes| >= HEADER_LEN && leafCount < Pow256(8) && slotCount < Pow256(4)
    ensures At(bytes, 0, Header(depth, shardHeight, leafCount, slotCount))
       <==> && bytes[..8] == MAGIC && bytes[8] == VERSION && bytes[9] == depth && bytes[10] == shardHeight && bytes[11] == 0
            && FromBigEndian(bytes[12..20]) == leafCount && FromBigEndian(bytes[20..24]) == slotCount
  {
    hide BigEndian, FromBigEndian, Pow256;
    var flags := [VERSION, depth, shardHeight, 0];
    AtConcat(bytes, 0, MAGIC + flags + BigEndian(leafCount, 8), BigEndian(slotCount, 4));
    AtConcat(bytes, 0, MAGIC + flags, BigEndian(leafCount, 8));
    AtConcat(bytes, 0, MAGIC, flags);
    BigEndianIff(bytes[12..20], leafCount);
    BigEndianIff(bytes[20..24], slotCount);
    assert bytes[8..12] == [bytes[8], bytes[9], bytes[10], bytes[11]];
    assert bytes[0..8] == bytes[..8];
  }

  lemma CountFits(depth: nat)
    requires depth < USIZE_BITS
    ensures Pow2(depth) < Pow256(8) && depth + 1 < Pow256(4)
  {
    Pow256Values();
    Pow2Monotone(depth, 63);
    PowersOfTwo();
    Pow2Add(32, 31);
  }

  /** Decoding and encoding are inverse bijections between valid frontiers and accepted bytes. */
  lemma DecodeIff(bytes: seq<Byte>, f: FrontierState)
    ensures Decode(bytes) == Ok(f) <==> f.Valid() && Encode(f) == bytes
  {
    hide BigEndian, FromBigEndian, Pow256, Pow2, Bit, Header, ReadSlots, SlotsBytes;
    if f.Valid() {
      CountFits(f.depth);
      if |bytes| >= HEADER_LEN {
        HeaderIff(bytes, f.depth, f.shardHeight, f.leafCount, |f.slots|);
        ReadSlotsIff(bytes, HEADER_LEN, f.leafCount, f.slots, |bytes|);
        WholeBuffer(bytes, Header(f.depth, f.shardHeight, f.leafCount, |f.slots|), SlotsBytes(f.slots));
        if Decode(bytes) == Ok(f) {
          assert ReadSlots(bytes, HEADER_LEN, |f.slots|, f.leafCount).value == (f.slots, |bytes|);
        }
      }
    } else if Decode(bytes) == Ok(f) {
      ReadSlotsIff(bytes, HEADER_LEN, f.leafCount, f.slots, |bytes|);
      ReadSlotsEnd(bytes, HEADER_LEN, f.depth + 1, f.leafCount);
    }
  }

  /** The bytes of a snapshot: the 24-byte header, then each slot by its presence byte and node. */
  lemma SnapshotLayout(f: FrontierState)
    requires f.Valid()
    ensures var bytes := Encode(f);
      && bytes[..12] == [67, 86, 89, 70, 82, 79, 78, 84, 1, f.depth, f.shardHeight, 0]
      && FromBigEndian(bytes[12..20]) == f.leafCount && FromBigEndian(bytes[20..24]) == f.depth + 1
      && bytes[24..] == SlotsBytes(f.slots)
  {
    hide BigEndian, FromBigEndian, Pow256, SlotsBytes, Header, Pow2, Bit;
    var bytes := Encode(f);
    CountFits(f.depth);
    WholeBuffer(bytes, Header(f.depth, f.shardHeight, f.leafCount, |f.slots|), SlotsBytes(f.slots));
    HeaderIff(bytes, f.depth, f.shardHeight, f.leafCount, |f.slots|);
    assert bytes[..12] == bytes[..8] + [bytes[8], bytes[9], bytes[10], bytes[11]];
  }

  /** The frontier of any log that fits the tree comes back from its bytes, with the log's root. */
  lemma PersistRestores(leaves: seq<Fr>, g: Geometry)
    requires g.Valid() && |leaves| <= Pow2(g.depth)
    ensures var f := FrontierState(g.depth, g.shardHeight, |leaves|, SlotsOf(leaves, g.depth));
      && f.Valid()
      && Decode(Encode(f)) == Ok(f)
      && SlotsRoot(Decode(Encode(f)).value.slots, |leaves|, g.depth) == Root(leaves, ZERO, g.depth)
  {
    hide Decode, Encode, SlotsOf, SlotsRoot, Root, SlotsMatch;
    var f := FrontierState(g.depth, g.shardHeight, |leaves|, SlotsOf(leaves, g.depth));
    SlotsOfMatch(leaves, g.depth);
    DecodeIff(Encode(f), f);
    RootRefines(leaves, g.depth);
  }

  lemma WholeBuffer(bytes: seq<Byte>, head: seq<Byte>, tail: seq<Byte>)
    ensures bytes == head + tail <==> |bytes| == |head| + |tail| && At(bytes, 0, head) && At(bytes, |head|, tail)
  {
    AtConcat(bytes, 0, head, tail);
    assert bytes[0..|bytes|] == bytes;
  }

  // ----- size -----

  function Present(slots: Slots): nat {
    if slots == [] then 0 else Present(slots[..|slots| - 1]) + if slots[|slots| - 1].Some? then 1 else 0
  }

  lemma {:induction false} SlotsBytesSize(slots: Slots)
    ensures |SlotsBytes(slots)| == |slots| + 32 * Present(slots)
  {
    if slots != [] {
      SlotsBytesSize(slots[..|slots| - 1]);
    }
  }

  lemma {:induction false} PresentBound(slots: Slots)
    ensures Present(slots) <= |slots|
    ensures (forall k | 0 <= k < |slots| :: slots[k].None?) ==> Present(slots) == 0
  {
    if slots != [] {
      PresentBound(slots[..|slots| - 1]);
    }
  }

  /** At most `depth` slots are occupied: a full tree occupies only the top one. */
  lemma OccupiedSlots(f: FrontierState)
    requires f.Valid()
    ensures Present(f.slots) <= f.depth
  {
    var below := f.slots[..f.depth];
    PresentBound(below);
    if f.leafCount == Pow2(f.depth) {
      forall k | 0 <= k < f.depth
        ensures below[k].None?
      {
        FullBits(f.depth, k);
        assert Pow2(f.depth - k) == 2 * Pow2(f.depth - k - 1);
        assert f.slots[k].Some? <==> Bit(f.leafCount, k);
      }
    } else {
      ShrZero(f.leafCount, f.depth);
      assert f.slots[f.depth].Some? <==> Bit(f.leafCount, f.depth);
    }
  }

  /** A depth-30 snapshot is at most 1,015 bytes. */
  lemma SnapshotSize(f: FrontierState)
    requires f.Valid()
    ensures |Encode(f)| <= HEADER_LEN + (f.depth + 1) + 32 * f.depth
    ensures f.depth == 30 ==> |Encode(f)| <= 1015
  {
    OccupiedSlots(f);
    SlotsBytesSize(f.slots);
  }

  // ----- the decoder as the source runs it -----

  lemma {:induction false} ReadSlotsStop(bytes: seq<Byte>, cursor: nat, i: nat, levels: nat, leafCount: nat)
    requires i <= levels
    ensures ReadSlots(bytes, cursor, i, leafCount).Err? ==>
      ReadSlots(bytes, cursor, levels, leafCount) == ReadSlots(bytes, cursor, i, leafCount)
  {
    hide ReadSlot;
    if i < levels {
      ReadSlotsStop(bytes, cursor, i, levels - 1, leafCount);
    }
  }

  /** The cursor's loop over the slots. */
  method ReadSlotsAt(bytes: seq<Byte>, from: nat, levels: nat, leafCount: nat) returns (r: Parsed<Slots>)
    ensures r == ReadSlots(bytes, from, levels, leafCount)
  {
    hide ReadSlot;
    var slots, cursor := [], from;
    for level := 0 to levels
      invariant ReadSlots(bytes, from, level, leafCount) == Ok((slots, cursor))
    {
      ReadSlotsStop(bytes, from, level + 1, levels, leafCount);
      var one := ReadSlot(bytes, cursor, level, leafCount);
      if one.Err? {
        return Err(one.error);
      }
      slots, cursor := slots + [one.value.0], one.value.1;
    }
    r := Ok((slots, cursor));
  }

  /** Restore a frontier from bytes: the decoded state, or the decoder's error. */
  method FromSnapshotBytes(bytes: seq<Byte>) returns (r: Result<NotesFrontier>)
    ensures r.Ok? <==> Decode(bytes).Ok?
    ensures r.Err? ==> r.error == Decode(bytes).error
    ensures r.Ok? ==>
      && fresh(r.value) && r.value.Valid()
      && FrontierState(r.value.depth, r.value.shardHeight, r.value.leafCount, r.value.frontier) == Decode(bytes).value
  {
    hide FromBigEndian, Pow2, Bit, AreZeroes, ReadSlots;
    if |bytes| < HEADER_LEN || bytes[..8] != MAGIC || bytes[8] != VERSION || bytes[11] != 0 {
      return Err(InvalidSnapshot);
    }
    var depth, shardHeight := bytes[9], bytes[10];
    var leafCount, slotCount := FromBigEndian(bytes[12..20]), FromBigEndian(bytes[20..24]);
    var checked := CheckGeometry(depth, shardHeight);
    if checked.Err? {
      return Err(checked.error);
    }
    if leafCount > Pow2(depth) || slotCount != depth + 1 {
      return Err(InvalidSnapshot);
    }
    var tree := new NotesFrontier(depth, shardHeight);
    var read := ReadSlotsAt(bytes, HEADER_LEN, slotCount, leafCount);
    if read.Err? {
      return Err(read.error);
    }
    var (slots, cursor) := read.value;
    if cursor != |bytes| {
      return Err(InvalidSnapshot);
    }
    ReadSlotsEnd(bytes, HEADER_LEN, slotCount, leafCount);
    ReadSlotsIff(bytes, HEADER_LEN, leafCount, slots, cursor);
    tree.frontier, tree.leafCount := slots, leafCount;
    r := Ok(tree);
  }
}
