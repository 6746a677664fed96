/**
 The binary snapshot of the sharded tree: `Decode` accepts exactly the byte strings `Encode`
 produces, and the two are inverse to each other.
 */
module ShardedSnapshots {
  import opened Binary
  import opened NodeHash
  import opened TreeErrors
  import opened InclusionProofs
  import opened ShardedState
  import opened ShardedInvariant
  import opened ShardedRuns
  import opened Bytes
  import opened FieldCodec

  /** The bytes of "CYST". */
  const MAGIC: seq<Byte> := [67, 89, 83, 84]
  const VERSION: Byte := 1
  const HEADER_LEN: nat := 20
  const U32_LIMIT: nat := 0x1_0000_0000

  /** Magic, version, geometry, reserved byte and the three counts. */
  function Header(depth: Byte, shardHeight: Byte, completed: nat, live: nat, owned: nat): (bytes: seq<Byte>)
    ensures |bytes| == HEADER_LEN
  {
    MAGIC + [VERSION, depth, shardHeight, 0] + BigEndian(completed, 4) + BigEndian(live, 4) + BigEndian(owned, 4)
  }

  /** The part of a record before its frozen path. */
  function RecordHead(note: OwnedNoteWitness): (bytes: seq<Byte>)
    ensures |bytes| == 40
  {
    FieldBytes(note.noteId) + BigEndian(note.leafIndex, 4) + [if note.withinShardSiblings.Some? then 1 else 0, 0, 0, 0]
  }

  function RecordBytes(shardHeight: nat, note: OwnedNoteWitness): Result<seq<Byte>> {
    if note.leafIndex >= U32_LIMIT then Err(InvalidSnapshot)
    else
      match note.withinShardSiblings
      case None => Ok(RecordHead(note))
      case Some(siblings) =>
        if |siblings| != shardHeight then Err(InvalidSiblingCount(shardHeight, |siblings|))
        else Ok(RecordHead(note) + FieldsBytes(siblings))
  }

  function RecordsBytes(shardHeight: nat, notes: seq<OwnedNoteWitness>): Result<seq<Byte>> {
    if notes == [] then Ok([])
    else
      var before :- RecordsBytes(shardHeight, notes[..|notes| - 1]);
      var record :- RecordBytes(shardHeight, notes[|notes| - 1]);
      Ok(before + record)
  }

  /** The shape checks both directions make. */
  function CheckShape(depth: nat, shardHeight: nat, completed: nat, live: nat): Result<()> {
    if shardHeight == 0 || shardHeight >= depth then Err(InvalidGeometry(depth, shardHeight))
    else
      var shardSize :- TreeCapacity(shardHeight);
      var maxShards :- TreeCapacity(depth - shardHeight);
      if completed > maxShards then Err(InvalidSnapshot)
      else if live >= shardSize then Err(InvalidSnapshot)
      else if completed == maxShards && live != 0 then Err(InvalidSnapshot)
      else Ok(())
  }

  function Encode(s: ShardedTreeSnapshot): Result<seq<Byte>> {
    var _ :- CheckShape(s.depth, s.shardHeight, |s.completedRoots|, |s.liveLeaves|);
    if s.depth >= 256 || s.shardHeight >= 256 then Err(InvalidSnapshot)
    else if |s.completedRoots| >= U32_LIMIT || |s.liveLeaves| >= U32_LIMIT || |s.ownedNotes| >= U32_LIMIT then
      Err(InvalidSnapshot)
    else
      var records :- RecordsBytes(s.shardHeight, s.ownedNotes);
      Ok(Header(s.depth, s.shardHeight, |s.completedRoots|, |s.liveLeaves|, |s.ownedNotes|)
         + FieldsBytes(s.completedRoots) + FieldsBytes(s.liveLeaves) + records)
  }

  /** The encoder as the source runs it: the size checks, then a growing buffer. */
  method EncodeSnapshot(s: ShardedTreeSnapshot) returns (r: Result<seq<Byte>>)
    ensures r == Encode(s)
  {
    hide Header, FieldsBytes, RecordBytes, CheckShape;
    var shape := CheckShape(s.depth, s.shardHeight, |s.completedRoots|, |s.liveLeaves|);
    if shape.Err? {
      return Err(shape.error);
    }
    if s.depth >= 256 || s.shardHeight >= 256
       || |s.completedRoots| >= U32_LIMIT || |s.liveLeaves| >= U32_LIMIT || |s.ownedNotes| >= U32_LIMIT {
      return Err(InvalidSnapshot);
    }
    var bytes := Header(s.depth, s.shardHeight, |s.completedRoots|, |s.liveLeaves|, |s.ownedNotes|);
    bytes := AppendFields(bytes, s.completedRoots);
    bytes := AppendFields(bytes, s.liveLeaves);
    ghost var fixed := bytes;
    for i := 0 to |s.ownedNotes|
      invariant RecordsBytes(s.shardHeight, s.ownedNotes[..i]).Ok?
      invariant bytes == fixed + RecordsBytes(s.shardHeight, s.ownedNotes[..i]).value
    {
      assert s.ownedNotes[..i + 1][..i] == s.ownedNotes[..i];
      RecordsStop(s.shardHeight, s.ownedNotes, i + 1);
      var record := RecordBytes(s.shardHeight, s.ownedNotes[i]);
      if record.Err? {
        return Err(record.error);
      }
      bytes := bytes + record.value;
    }
    assert s.ownedNotes[..|s.ownedNotes|] == s.ownedNotes;
    r := Ok(bytes);
  }

  lemma {:induction false} RecordsStop(shardHeight: nat, notes: seq<OwnedNoteWitness>, n: nat)
    requires n <= |notes|
    ensures RecordsBytes(shardHeight, notes[..n]).Err? ==> RecordsBytes(shardHeight, notes) == RecordsBytes(shardHeight, notes[..n])
    decreases |notes|
  {
    hide RecordBytes;
    if n < |notes| {
      RecordsStop(shardHeight, notes[..|notes| - 1], n);
      assert notes[..|notes| - 1][..n] == notes[..n];
    } else {
      assert notes[..n] == notes;
    }
  }

  // ----- decoding -----

  /** One owned-note record at `cursor`. */
  function ReadRecord(bytes: seq<Byte>, cursor: nat, shardHeight: nat): Parsed<OwnedNoteWitness> {
    var (id, c1) :- ReadField(bytes, cursor);
    var (leafIndex, c2) :- ReadU32(bytes, c1);
    if c2 >= |bytes| then Err(InvalidSnapshot)
    else if c2 + 4 > |bytes| then Err(InvalidSnapshot)
    else if bytes[c2 + 1..c2 + 4] != [0, 0, 0] then Err(InvalidSnapshot)
    else
      match bytes[c2]
      case 0 => Ok((OwnedNoteWitness(id, leafIndex, None), c2 + 4))
      case 1 => (var (siblings, end) :- ReadFields(bytes, c2 + 4, shardHeight);
                 Ok((OwnedNoteWitness(id, leafIndex, Some(siblings)), end)))
      case _ => Err(InvalidSnapshot)
  }

  function ReadRecords(bytes: seq<Byte>, cursor: nat, shardHeight: nat, count: nat): Parsed<seq<OwnedNoteWitness>> {
    if count == 0 then Ok(([], cursor))
    else
      var (notes, next) :- ReadRecords(bytes, cursor, shardHeight, count - 1);
      var (note, end) :- ReadRecord(bytes, next, shardHeight);
      Ok((notes + [note], end))
  }

  function Decode(bytes: seq<Byte>): Result<ShardedTreeSnapshot> {
    if |bytes| < HEADER_LEN then Err(InvalidSnapshot)
    else if bytes[..4] != MAGIC then Err(InvalidSnapshot)
    else if bytes[4] != VERSION then Err(InvalidSnapshot)
    else if bytes[7] != 0 then Err(InvalidSnapshot)
    else
      var depth, shardHeight := bytes[5], bytes[6];
      var completed, live, owned := FromBigEndian(bytes[8..12]), FromBigEndian(bytes[12..16]), FromBigEndian(bytes[16..20]);
      var _ :- CheckShape(depth, shardHeight, completed, live);
      if 32 * (completed + live) > |bytes| - HEADER_LEN then Err(InvalidSnapshot)
      else if 40 * owned > |bytes| - HEADER_LEN - 32 * (completed + live) then Err(InvalidSnapshot)
      else
        var (roots, c1) :- ReadFields(bytes, HEADER_LEN, completed);
        var (leaves, c2) :- ReadFields(bytes, c1, live);
        var (notes, c3) :- ReadRecords(bytes, c2, shardHeight, owned);
        if c3 != |bytes| then Err(InvalidSnapshot)
        else Ok(ShardedTreeSnapshot(depth, shardHeight, roots, leaves, notes))
  }

  /** The decoder as the source runs it: one cursor through the fields and records. */
  method DecodeSnapshot(bytes: seq<Byte>) returns (r: Result<ShardedTreeSnapshot>)
    ensures r == Decode(bytes)
  {
    hide FromBigEndian, CheckShape, ReadRecord, ReadFields;
    if |bytes| < HEADER_LEN || bytes[..4] != MAGIC || bytes[4] != VERSION || bytes[7] != 0 {
      return Err(InvalidSnapshot);
    }
    var depth, shardHeight := bytes[5], bytes[6];
    var completed, live, owned := FromBigEndian(bytes[8..12]), FromBigEndian(bytes[12..16]), FromBigEndian(bytes[16..20]);
    var shape := CheckShape(depth, shardHeight, completed, live);
    if shape.Err? {
      return Err(shape.error);
    }
    var fixedBytes := 32 * (completed + live);
    if fixedBytes > |bytes| - HEADER_LEN || 40 * owned > |bytes| - HEADER_LEN - fixedBytes {
      return Err(InvalidSnapshot);
    }
    var roots := ReadFieldsAt(bytes, HEADER_LEN, completed);
    if roots.Err? {
      return Err(roots.error);
    }
    var leaves := ReadFieldsAt(bytes, roots.value.1, live);
    if leaves.Err? {
      return Err(leaves.error);
    }
    var notes, cursor := [], leaves.value.1;
    for i := 0 to owned
      invariant ReadRecords(bytes, leaves.value.1, shardHeight, i) == Ok((notes, cursor))
    {
      ReadRecordsStop(bytes, leaves.value.1, shardHeight, i + 1, owned);
      var one := ReadRecord(bytes, cursor, shardHeight);
      if one.Err? {
        return Err(one.error);
      }
      notes, cursor := notes + [one.value.0], one.value.1;
    }
    r := if cursor != |bytes| then Err(InvalidSnapshot)
         else Ok(ShardedTreeSnapshot(depth, shardHeight, roots.value.0, leaves.value.0, notes));
  }

  lemma {:induction false} ReadRecordsStop(bytes: seq<Byte>, cursor: nat, shardHeight: nat, i: nat, count: nat)
    requires i <= count
    ensures ReadRecords(bytes, cursor, shardHeight, i).Err? ==>
      ReadRecords(bytes, cursor, shardHeight, count) == ReadRecords(bytes, cursor, shardHeight, i)
  {
    hide ReadRecord;
    if i < count {
      ReadRecordsStop(bytes, cursor, shardHeight, i, count - 1);
    }
  }

  // ----- the codec is a bijection -----

  /** A record's head stands at a cursor exactly when its four parts are read back. */
  lemma RecordHeadIff(bytes: seq<Byte>, cursor: nat, note: OwnedNoteWitness)
    requires note.leafIndex < U32_LIMIT
    ensures At(bytes, cursor, RecordHead(note))
       <==> && ReadField(bytes, cursor) == Ok((note.noteId, cursor + 32))
            && ReadU32(bytes, cursor + 32) == Ok((note.leafIndex, cursor + 36))
            && cursor + 40 <= |bytes|
            && bytes[cursor + 36] == (if note.withinShardSiblings.Some? then 1 else 0)
            && bytes[cursor + 37..cursor + 40] == [0, 0, 0]
  {
    hide ReadField, ReadU32, FieldBytes, BigEndian;
    Pow256Values();
    var flag: Byte := if note.withinShardSiblings.Some? then 1 else 0;
    ReadFieldIff(bytes, cursor, note.noteId, cursor + 32);
    ReadU32Iff(bytes, cursor + 32, note.leafIndex, cursor + 36);
    AtConcat(bytes, cursor, FieldBytes(note.noteId) + BigEndian(note.leafIndex, 4), [flag, 0, 0, 0]);
    AtConcat(bytes, cursor, FieldBytes(note.noteId), BigEndian(note.leafIndex, 4));
    AtConcat(bytes, cursor + 36, [flag], [0, 0, 0]);
    assert [flag] + [0, 0, 0] == [flag, 0, 0, 0];
    if cursor + 40 <= |bytes| {
      assert bytes[cursor + 36..cursor + 37] == [bytes[cursor + 36]];
    }
  }

  lemma ReadRecordIff(bytes: seq<Byte>, cursor: nat, shardHeight: nat, note: OwnedNoteWitness, next: nat)
    ensures ReadRecord(bytes, cursor, shardHeight) == Ok((note, next))
       <==> && RecordBytes(shardHeight, note).Ok?
            && next == cursor + |RecordBytes(shardHeight, note).value|
            && At(bytes, cursor, RecordBytes(shardHeight, note).value)
  {
    hide ReadField, ReadU32, ReadFields, FieldBytes, BigEndian, RecordHead, FromBigEndian;
    Pow256Values();
    if ReadRecord(bytes, cursor, shardHeight).Ok? {
      var (read, end) := ReadRecord(bytes, cursor, shardHeight).value;
      ReadRecordEnd(bytes, cursor, shardHeight);
      if read.withinShardSiblings.Some? {
        ReadFieldsIff(bytes, cursor + 40, read.withinShardSiblings.value, end);
        AtConcat(bytes, cursor, RecordHead(read), FieldsBytes(read.withinShardSiblings.value));
      }
    }
    if RecordBytes(shardHeight, note).Ok? && At(bytes, cursor, RecordBytes(shardHeight, note).value) {
      if note.withinShardSiblings.Some? {
        AtConcat(bytes, cursor, RecordHead(note), FieldsBytes(note.withinShardSiblings.value));
        ReadFieldsIff(bytes, cursor + 40, note.withinShardSiblings.value, cursor + 40 + 32 * shardHeight);
      }
      RecordHeadIff(bytes, cursor, note);
    }
  }

  /** What a successful record read says about the bytes of its head. */
  lemma ReadRecordEnd(bytes: seq<Byte>, cursor: nat, shardHeight: nat)
    requires ReadRecord(bytes, cursor, shardHeight).Ok?
    ensures var (note, end) := ReadRecord(bytes, cursor, shardHeight).value;
      && note.leafIndex < U32_LIMIT
      && At(bytes, cursor, RecordHead(note))
      && match note.withinShardSiblings
         case None => end == cursor + 40
         case Some(siblings) => |siblings| == shardHeight && ReadFields(bytes, cursor + 40, shardHeight) == Ok((siblings, end))
  {
    hide FieldBytes, BigEndian, RecordHead, ReadFields, FromBigEndian, FieldFromBytes;
    Pow256Values();
    var (note, end) := ReadRecord(bytes, cursor, shardHeight).value;
    assert ReadField(bytes, cursor).value == (note.noteId, cursor + 32);
    assert ReadU32(bytes, cursor + 32).value == (note.leafIndex, cursor + 36);
    ReadU32Iff(bytes, cursor + 32, note.leafIndex, cursor + 36);
    RecordHeadIff(bytes, cursor, note);
    ReadFieldsEnd(bytes, cursor + 40, shardHeight);
    if note.withinShardSiblings.Some? {
      assert ReadFields(bytes, cursor + 40, shardHeight).value == (note.withinShardSiblings.value, end);
    }
  }

  lemma {:induction false} ReadRecordsEnd(bytes: seq<Byte>, cursor: nat, shardHeight: nat, count: nat)
    ensures ReadRecords(bytes, cursor, shardHeight, count).Ok? ==> |ReadRecords(bytes, cursor, shardHeight, count).value.0| == count
  {
    hide ReadRecord;
    if count > 0 {
      ReadRecordsEnd(bytes, cursor, shardHeight, count - 1);
    }
  }

  lemma {:induction false} ReadRecordsIff(bytes: seq<Byte>, cursor: nat, shardHeight: nat, notes: seq<OwnedNoteWitness>, next: nat)
    requires cursor <= |bytes|
    ensures ReadRecords(bytes, cursor, shardHeight, |notes|) == Ok((notes, next))
       <==> && RecordsBytes(shardHeight, notes).Ok?
            && next == cursor + |RecordsBytes(shardHeight, notes).value|
            && At(bytes, cursor, RecordsBytes(shardHeight, notes).value)
  {
    hide ReadRecord, RecordBytes;
    if notes != [] {
      var last := |notes| - 1;
      var before, note := notes[..last], notes[last];
      assert before + [note] == notes;
      ReadRecordsEnd(bytes, cursor, shardHeight, last);
      if ReadRecords(bytes, cursor, shardHeight, |notes|) == Ok((notes, next)) {
        var (g, at) := ReadRecords(bytes, cursor, shardHeight, last).value;
        var read := ReadRecord(bytes, at, shardHeight).value.0;
        assert notes == g + [read] && g == before && read == note;
        assert ReadRecord(bytes, at, shardHeight).value == (note, next);
        ReadRecordsIff(bytes, cursor, shardHeight, before, at);
        ReadRecordIff(bytes, at, shardHeight, note, next);
        AtConcat(bytes, cursor, RecordsBytes(shardHeight, before).value, RecordBytes(shardHeight, note).value);
      }
      if RecordsBytes(shardHeight, notes).Ok? && At(bytes, cursor, RecordsBytes(shardHeight, notes).value) {
        var head, record := RecordsBytes(shardHeight, before).value, RecordBytes(shardHeight, note).value;
        AtConcat(bytes, cursor, head, record);
        ReadRecordsIff(bytes, cursor, shardHeight, before, cursor + |head|);
        ReadRecordIff(bytes, cursor + |head|, shardHeight, note, cursor + |head| + |record|);
      }
    }
  }

  lemma {:induction false} RecordsSize(shardHeight: nat, notes: seq<OwnedNoteWitness>)
    ensures RecordsBytes(shardHeight, notes).Ok? ==> 40 * |notes| <= |RecordsBytes(shardHeight, notes).value|
  {
    if notes != [] {
      RecordsSize(shardHeight, notes[..|notes| - 1]);
    }
  }

  lemma HeaderIff(bytes: seq<Byte>, depth: Byte, shardHeight: Byte, completed: nat, live: nat, owned: nat)
    requires |bytes| >= HEADER_LEN && completed < U32_LIMIT && live < U32_LIMIT && owned < U32_LIMIT
    ensures At(bytes, 0, Header(depth, shardHeight, completed, live, owned))
       <==> && bytes[..4] == MAGIC && bytes[4] == VERSION && bytes[5] == depth && bytes[6] == shardHeight && bytes[7] == 0
            && FromBigEndian(bytes[8..12]) == completed && FromBigEndian(bytes[12..16]) == live
            && FromBigEndian(bytes[16..20]) == owned
  {
    hide BigEndian, FromBigEndian, Pow256;
    Pow256Values();
    var flags := [VERSION, depth, shardHeight, 0];
    AtConcat(bytes, 0, MAGIC + flags + BigEndian(completed, 4) + BigEndian(live, 4), BigEndian(owned, 4));
    AtConcat(bytes, 0, MAGIC + flags + BigEndian(completed, 4), BigEndian(live, 4));
    AtConcat(bytes, 0, MAGIC + flags, BigEndian(completed, 4));
    AtConcat(bytes, 0, MAGIC, flags);
    BigEndianIff(bytes[8..12], completed);
    BigEndianIff(bytes[12..16], live);
    BigEndianIff(bytes[16..20], owned);
    assert bytes[4..8] == [bytes[4], bytes[5], bytes[6], bytes[7]];
    assert bytes[0..4] == bytes[..4];
  }

  /** The body after the header, as one concatenation. */
  lemma BodyIff(bytes: seq<Byte>, head: seq<Byte>, roots: seq<Byte>, leaves: seq<Byte>, records: seq<Byte>)
    ensures bytes == head + roots + leaves + records
       <==> && |bytes| == |head| + |roots| + |leaves| + |records|
            && At(bytes, 0, head) && At(bytes, |head|, roots) && At(bytes, |head| + |roots|, leaves)
            && At(bytes, |head| + |roots| + |leaves|, records)
  {
    AtConcat(bytes, 0, head + roots + leaves, records);
    AtConcat(bytes, 0, head + roots, leaves);
    AtConcat(bytes, 0, head, roots);
    assert bytes[0..|bytes|] == bytes;
  }

  lemma CountsFit(bytes: seq<Byte>)
    requires |bytes| >= HEADER_LEN
    ensures FromBigEndian(bytes[8..12]) < U32_LIMIT && FromBigEndian(bytes[12..16]) < U32_LIMIT
    ensures FromBigEndian(bytes[16..20]) < U32_LIMIT
  {
    Pow256Values();
    FromBigEndianBound(bytes[8..12]);
    FromBigEndianBound(bytes[12..16]);
    FromBigEndianBound(bytes[16..20]);
  }

  /** A decoded snapshot encodes to the bytes it came from. */
  lemma DecodeThenEncode(bytes: seq<Byte>)
    ensures Decode(bytes).Ok? ==> Encode(Decode(bytes).value) == Ok(bytes)
  {
    hide BigEndian, FromBigEndian, CheckShape, ReadFields, ReadRecords, FieldsBytes, RecordsBytes, Header;
    if Decode(bytes).Ok? {
      var s := Decode(bytes).value;
      CountsFit(bytes);
      var completed, live, owned := FromBigEndian(bytes[8..12]), FromBigEndian(bytes[12..16]), FromBigEndian(bytes[16..20]);
      var c1, c2 := HEADER_LEN + 32 * completed, HEADER_LEN + 32 * completed + 32 * live;
      ReadFieldsEnd(bytes, HEADER_LEN, completed);
      ReadFieldsEnd(bytes, c1, live);
      ReadRecordsEnd(bytes, c2, s.shardHeight, owned);
      assert ReadFields(bytes, HEADER_LEN, completed).value == (s.completedRoots, c1);
      assert ReadFields(bytes, c1, live).value == (s.liveLeaves, c2);
      assert ReadRecords(bytes, c2, s.shardHeight, owned).value == (s.ownedNotes, |bytes|);
      ReadFieldsIff(bytes, HEADER_LEN, s.completedRoots, c1);
      ReadFieldsIff(bytes, c1, s.liveLeaves, c2);
      ReadRecordsIff(bytes, c2, s.shardHeight, s.ownedNotes, |bytes|);
      HeaderIff(bytes, s.depth, s.shardHeight, completed, live, owned);
      BodyIff(bytes, Header(s.depth, s.shardHeight, completed, live, owned), FieldsBytes(s.completedRoots),
              FieldsBytes(s.liveLeaves), RecordsBytes(s.shardHeight, s.ownedNotes).value);
    }
  }

  /** An encoded snapshot decodes to itself. */
  lemma EncodeThenDecode(s: ShardedTreeSnapshot)
    ensures Encode(s).Ok? ==> Decode(Encode(s).value) == Ok(s)
  {
    hide BigEndian, FromBigEndian, CheckShape, ReadFields, ReadRecords, FieldsBytes, RecordsBytes, Header;
    if Encode(s).Ok? {
      var bytes := Encode(s).value;
      var completed, live, owned := |s.completedRoots|, |s.liveLeaves|, |s.ownedNotes|;
      var c1, c2 := HEADER_LEN + 32 * completed, HEADER_LEN + 32 * completed + 32 * live;
      RecordsSize(s.shardHeight, s.ownedNotes);
      BodyIff(bytes, Header(s.depth, s.shardHeight, completed, live, owned), FieldsBytes(s.completedRoots),
              FieldsBytes(s.liveLeaves), RecordsBytes(s.shardHeight, s.ownedNotes).value);
      HeaderIff(bytes, s.depth, s.shardHeight, completed, live, owned);
      ReadFieldsIff(bytes, HEADER_LEN, s.completedRoots, c1);
      ReadFieldsIff(bytes, c1, s.liveLeaves, c2);
      ReadRecordsIff(bytes, c2, s.shardHeight, s.ownedNotes, |bytes|);
    }
  }

  /** The bytes of a snapshot: the 20-byte header, the completed roots, the live leaves, the records. */
  lemma SnapshotLayout(s: ShardedTreeSnapshot)
    requires Encode(s).Ok?
    ensures var (bytes, c, l) := (Encode(s).value, |s.completedRoots|, |s.liveLeaves|);
      && |bytes| >= HEADER_LEN + 32 * c + 32 * l
      && bytes[..8] == [67, 89, 83, 84, 1, s.depth, s.shardHeight, 0]
      && FromBigEndian(bytes[8..12]) == c && FromBigEndian(bytes[12..16]) == l && FromBigEndian(bytes[16..20]) == |s.ownedNotes|
      && bytes[20..20 + 32 * c] == FieldsBytes(s.completedRoots)
      && bytes[20 + 32 * c..20 + 32 * c + 32 * l] == FieldsBytes(s.liveLeaves)
      && RecordsBytes(s.shardHeight, s.ownedNotes) == Ok(bytes[20 + 32 * c + 32 * l..])
  {
    hide BigEndian, FromBigEndian, CheckShape, FieldsBytes, RecordsBytes, Header, Pow256;
    var (bytes, c, l) := (Encode(s).value, |s.completedRoots|, |s.liveLeaves|);
    var head := Header(s.depth, s.shardHeight, c, l, |s.ownedNotes|);
    var records := RecordsBytes(s.shardHeight, s.ownedNotes).value;
    BodyIff(bytes, head, FieldsBytes(s.completedRoots), FieldsBytes(s.liveLeaves), records);
    HeaderIff(bytes, s.depth, s.shardHeight, c, l, |s.ownedNotes|);
    assert bytes[..8] == bytes[..4] + [bytes[4], bytes[5], bytes[6], bytes[7]];
    assert bytes[20 + 32 * c + 32 * l..] == bytes[20 + 32 * c + 32 * l..20 + 32 * c + 32 * l + |records|];
  }

  /** The bytes of a record: id, leaf index, flag, three zeros, and the frozen path if there is one. */
  lemma RecordLayout(shardHeight: nat, note: OwnedNoteWitness)
    requires RecordBytes(shardHeight, note).Ok?
    ensures var bytes := RecordBytes(shardHeight, note).value;
      && |bytes| >= 40
      && bytes[..32] == FieldBytes(note.noteId) && FromBigEndian(bytes[32..36]) == note.leafIndex
      && bytes[36..40] == [if note.withinShardSiblings.Some? then 1 else 0, 0, 0, 0]
      && bytes[40..] == if note.withinShardSiblings.Some? then FieldsBytes(note.withinShardSiblings.value) else []
  {
    hide FieldBytes, BigEndian, FromBigEndian, Pow256;
    Pow256Values();
    BigEndianDecodes(note.leafIndex, 4);
    assert RecordHead(note)[32..36] == BigEndian(note.leafIndex, 4);
    assert RecordBytes(shardHeight, note).value[32..36] == RecordHead(note)[32..36];
  }

  // ----- which trees can be persisted -----

  /** Every count and every owned leaf index fits its 32-bit field. */
  ghost predicate FitsU32(s: NotesState) {
    && |s.completedRoots| < U32_LIMIT && |s.liveLeaves| < U32_LIMIT && |s.ownedNotes| < U32_LIMIT
    && forall i | i in s.ownedLeaves :: i < U32_LIMIT
  }

  /** A tree of any depth is encodable if and only if it fits the 32-bit fields. */
  lemma EncodableIff(g: Geometry, s: NotesState)
    requires Inv(g, s)
    ensures Encode(Snapshot(g, s)).Ok? <==> FitsU32(s)
  {
    hide Pow2, Shr, Fold, RecordsBytes, Header, FieldsBytes, OwnedSorted, NotesOk;
    SortedRecordsEncode(g, s, Pow2(g.depth));
    SnapshotLists(g, s);
    NotesInTree(g, s);
    Pow2Monotone(g.shardHeight, g.depth);
  }

  lemma {:induction false} SortedRecordsEncode(g: Geometry, s: NotesState, to: nat)
    requires Inv(g, s)
    ensures RecordsBytes(g.shardHeight, OwnedSorted(s.ownedNotes, s.ownedLeaves, to)).Ok?
       <==> forall i | i in s.ownedLeaves && i < to :: i < U32_LIMIT
  {
    hide Pow2, Shr, Fold, RecordHead, FieldsBytes;
    if to > 0 {
      SortedRecordsEncode(g, s, to - 1);
      var before, sorted := OwnedSorted(s.ownedNotes, s.ownedLeaves, to - 1), OwnedSorted(s.ownedNotes, s.ownedLeaves, to);
      if to - 1 in s.ownedLeaves {
        var note := s.ownedNotes[s.ownedLeaves[to - 1]];
        assert NoteOk(g, s.completedRoots, s.liveLeaves, note);
        assert sorted[..|sorted| - 1] == before;
      } else {
        assert sorted == before;
      }
    }
  }

  /**
   Persisting a sharded tree and reading it back restores the tree, except for the dirty set,
   whenever it fits the 32-bit fields.
   */
  lemma PersistRestores(g: Geometry, s: NotesState)
    requires Inv(g, s) && FitsU32(s)
    ensures Encode(Snapshot(g, s)).Ok? && Decode(Encode(Snapshot(g, s)).value).Ok?
    ensures Restore(Decode(Encode(Snapshot(g, s)).value).value) == Ok(s.(dirty := {}))
  {
    hide Encode, Decode, Inv, Restore, Snapshot, FitsU32;
    EncodableIff(g, s);
    EncodeThenDecode(Snapshot(g, s));
    RestoreSnapshot(g, s);
  }

  /** A tree of depth 33 may mark its future leaf `2^32`, and then it cannot be persisted. */
  lemma FarMarkCannotPersist(shardHeight: nat, id: Fr)
    requires 0 < shardHeight < 33
    ensures var g := Geometry(33, shardHeight); var marked := MarkOwned(g, EMPTY_STATE, id, U32_LIMIT);
      && Inv(g, EMPTY_STATE) && marked.Ok? && Inv(g, marked.value)
      && Encode(Snapshot(g, marked.value)).Err?
  {
    hide Encode, Snapshot;
    var g := Geometry(33, shardHeight);
    EmptyRepresents(g);
    Pow2Of32();
    MarkKeeps(g, EMPTY_STATE, id, U32_LIMIT);
    var marked := MarkOwned(g, EMPTY_STATE, id, U32_LIMIT).value;
    assert U32_LIMIT in marked.ownedLeaves;
    EncodableIff(g, marked);
  }

  lemma Pow2Of32()
    ensures Pow2(32) == U32_LIMIT && Pow2(33) == 2 * U32_LIMIT
  {
    assert Pow2(8) == 256 by { assert Pow2(6) == 64; }
    Pow2Add(8, 8);
    Pow2Add(16, 16);
  }
}
