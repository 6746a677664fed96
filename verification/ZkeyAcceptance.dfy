/**
 Which zkeys the encoder takes, by section number: canonical points in sections 3, 5 to 9, a
 well-formed coefficient list in section 4 and anything elsewhere. Every zkey put together from
 such sections, with its points on their curves, is encoded.
 */
module ZkeyAcceptance {
  import opened Bytes
  import opened Binary
  import opened LittleEndianBytes
  import opened TreeErrors
  import opened CompactPoints
  import opened CompactZkey
  import opened CompactZkeyCodec

  // ----- canonical words -----

  /** The `k`-th 32-byte word is there and stands for a base-field element. */
  predicate WordOk(bytes: seq<Byte>, k: nat) {
    32 * k + 32 <= |bytes| && LittleEndianValue(bytes[32 * k..32 * k + 32]) < FQ_MODULUS
  }

  ghost predicate WordsOk(bytes: seq<Byte>) {
    forall k: nat | 32 * k < |bytes| :: WordOk(bytes, k)
  }

  lemma WordsSplit(a: seq<Byte>, b: seq<Byte>, m: nat)
    requires |a| == 32 * m
    ensures WordsOk(a + b) <==> WordsOk(a) && WordsOk(b)
  {
    hide LittleEndianValue;
    forall k: nat | k < m
      ensures WordOk(a + b, k) <==> WordOk(a, k)
    {
      assert (a + b)[32 * k..32 * k + 32] == a[32 * k..32 * k + 32];
    }
    forall k: nat
      ensures WordOk(a + b, m + k) <==> WordOk(b, k)
    {
      if 32 * k + 32 <= |b| {
        assert (a + b)[32 * (m + k)..32 * (m + k) + 32] == b[32 * k..32 * k + 32];
      }
    }
    if WordsOk(a + b) {
      forall k: nat | 32 * k < |b|
        ensures WordOk(b, k)
      {
        assert WordOk(a + b, m + k);
      }
    } else if WordsOk(a) && WordsOk(b) {
      forall k: nat | 32 * k < |a + b|
        ensures WordOk(a + b, k)
      {
        if k >= m {
          assert WordOk(b, k - m);
          assert m + (k - m) == k;
        }
      }
    }
  }

  lemma OneWord(bytes: seq<Byte>)
    requires |bytes| == 32
    ensures WordsOk(bytes) <==> LittleEndianValue(bytes) < FQ_MODULUS
  {
    hide LittleEndianValue;
    assert bytes[0..32] == bytes;
    assert WordsOk(bytes) ==> WordOk(bytes, 0);
  }

  lemma {:induction false} ParseWordsIff(bytes: seq<Byte>)
    requires |bytes| % 32 == 0
    ensures ParseWords(bytes).Some? <==> WordsOk(bytes)
  {
    hide LittleEndianValue, WordsOk;
    if bytes == [] {
      NoWords();
    } else {
      ParseWordsIff(bytes[32..]);
      OneWord(bytes[..32]);
      WordsSplit(bytes[..32], bytes[32..], 1);
      assert bytes == bytes[..32] + bytes[32..];
    }
  }

  lemma NoWords()
    ensures WordsOk([])
  {}

  lemma ParsePointIff(curve: Curve, raw: seq<Byte>)
    requires |raw| == RawBytes(curve)
    ensures ParsePoint(curve, raw).Some? <==> WordsOk(raw)
  {
    hide ParseWords, WordsOk, MapFromMontgomery;
    var half := CompactBytes(curve);
    ParseWordsIff(raw[..half]);
    ParseWordsIff(raw[half..]);
    WordsSplit(raw[..half], raw[half..], Words(curve));
    assert raw == raw[..half] + raw[half..];
  }

  /** A point section is compressed exactly when each of its words is canonical. */
  lemma {:induction false} CompressAllIff(curve: Curve, bytes: seq<Byte>)
    requires FieldCodecLaws() && RawAligned(curve, |bytes|)
    ensures CompressAll(curve, bytes).Some? <==> WordsOk(bytes)
    decreases |bytes|
  {
    hide FieldCodecLaws, RawAligned, ParsePoint, CompressPoint, WordsOk;
    if bytes == [] {
      NoWords();
    } else {
      RawPeel(curve, |bytes|);
      var raw, rest := bytes[..RawBytes(curve)], bytes[RawBytes(curve)..];
      CompressAllIff(curve, rest);
      ParsePointIff(curve, raw);
      WordsSplit(raw, rest, 2 * Words(curve));
      assert bytes == raw + rest;
    }
  }

  // ----- one section by its number -----

  const G1_SECTIONS: set<nat> := {3, 5, 6, 8, 9}
  const G2_SECTION: nat := 7
  const COEFFICIENT_SECTION: nat := 4

  /** A section the encoder takes. */
  ghost predicate SectionTaken(id: nat, bytes: seq<Byte>) {
    if id in G1_SECTIONS then |bytes| % 64 == 0 && WordsOk(bytes)
    else if id == G2_SECTION then |bytes| % 128 == 0 && WordsOk(bytes)
    else if id == COEFFICIENT_SECTION then |bytes| >= 4 && |bytes| == 4 + 44 * LittleEndianValue(bytes[..4])
    else true
  }

  /** Its points are on the curve its number stands for. */
  predicate SectionOnCurve(id: nat, bytes: seq<Byte>) {
    && (id in G1_SECTIONS && |bytes| % 64 == 0 ==> AllOnCurve(G1, bytes))
    && (id == G2_SECTION && |bytes| % 128 == 0 ==> AllOnCurve(G2, bytes))
  }

  function EntryFor(id: nat, bytes: seq<Byte>): Entry {
    Entry(Section(id, |bytes|, ForSection(id)), bytes)
  }

  /** A section is encoded exactly when it is taken; points come out at half their length, anything else at its own. */
  lemma PayloadBySection(id: nat, bytes: seq<Byte>)
    requires FieldCodecLaws() && id < LIMB && |bytes| < U64_LIMIT
    ensures var payload := EncodePayload(EntryFor(id, bytes));
      && (payload.Some? <==> SectionTaken(id, bytes))
      && (payload.Some? ==>
            2 * |payload.value| == (if id in G1_SECTIONS || id == G2_SECTION then 1 else 2) * |bytes|)
  {
    hide FieldCodecLaws, CompressAll, WordsOk, LittleEndianValue, Columns, Records;
    if id in G1_SECTIONS && |bytes| % 64 == 0 {
      CompressAllIff(G1, bytes);
    } else if id == G2_SECTION && |bytes| % 128 == 0 {
      CompressAllIff(G2, bytes);
    } else if id == COEFFICIENT_SECTION && |bytes| >= 4 && |bytes| == 4 + 44 * CountOf(bytes) {
      FlattenRecords(bytes[4..], CountOf(bytes));
      ColumnsLength(Records(bytes[4..], CountOf(bytes)));
    }
  }

  lemma OnCurveBySection(id: nat, bytes: seq<Byte>)
    ensures EntryOnCurve(EntryFor(id, bytes)) <==> SectionOnCurve(id, bytes)
  {
    hide AllOnCurve;
  }

  // ----- a zkey by its sections -----

  datatype Part = Part(id: nat, bytes: seq<Byte>)

  ghost predicate PartsFit(parts: seq<Part>) {
    |parts| <= MAX_SECTIONS && forall i | 0 <= i < |parts| :: parts[i].id < LIMB && |parts[i].bytes| < U64_LIMIT
  }

  function PartsBytes(parts: seq<Part>): seq<Byte> {
    if parts == [] then []
    else LittleEndian(parts[0].id, 4) + LittleEndian(|parts[0].bytes|, 8) + parts[0].bytes + PartsBytes(parts[1..])
  }

  /** A zkey of a version with these sections. */
  function ZkeyOf(version: nat, parts: seq<Part>): seq<Byte> {
    ZKEY_MAGIC + LittleEndian(version, 4) + LittleEndian(|parts|, 4) + PartsBytes(parts)
  }

  function EntriesOf(parts: seq<Part>): (entries: seq<Entry>)
    ensures |entries| == |parts|
  {
    seq(|parts|, i requires 0 <= i < |parts| => EntryFor(parts[i].id, parts[i].bytes))
  }

  lemma {:induction false} LayoutOfParts(parts: seq<Part>)
    requires forall i | 0 <= i < |parts| :: parts[i].id < LIMB && |parts[i].bytes| < U64_LIMIT
    ensures LayoutFrom(PartsBytes(parts), |parts|) == Some(EntriesOf(parts))
  {
    hide LittleEndian, LittleEndianValue, ForSection;
    if parts != [] {
      var (id, bytes) := (parts[0].id, parts[0].bytes);
      LayoutOfParts(parts[1..]);
      HeaderWritten(id, |bytes|);
      var rest := PartsBytes(parts);
      var head := Header(id, |bytes|);
      assert rest == head + bytes + PartsBytes(parts[1..]);
      assert rest[..4] == head[..4] && rest[4..12] == head[4..12];
      assert rest[12..12 + |bytes|] == bytes && rest[12 + |bytes|..] == PartsBytes(parts[1..]);
      assert EntriesOf(parts) == [EntryFor(id, bytes)] + EntriesOf(parts[1..]);
    }
  }

  /** The layout of a zkey put together from sections is those sections. */
  lemma LayoutOfZkey(version: nat, parts: seq<Part>)
    requires PartsFit(parts) && version < LIMB
    ensures ZkeyLayout(ZkeyOf(version, parts)) == Some((version, EntriesOf(parts)))
  {
    hide LittleEndian, LittleEndianValue, LayoutFrom, EntriesOf, Pow2;
    Widths();
    LittleEndianDecodes(version, 4);
    LittleEndianDecodes(|parts|, 4);
    LayoutOfParts(parts);
    var zkey := ZkeyOf(version, parts);
    assert zkey[..4] == ZKEY_MAGIC && zkey[4..8] == LittleEndian(version, 4) && zkey[8..12] == LittleEndian(|parts|, 4);
    assert zkey[12..] == PartsBytes(parts);
  }

  lemma {:induction false} PayloadsIff(entries: seq<Entry>)
    requires FieldCodecLaws() && EntriesOk(entries)
    ensures Payloads(entries).Some? <==> forall i | 0 <= i < |entries| :: EncodePayload(entries[i]).Some?
  {
    hide FieldCodecLaws, EncodePayload, EntryOk;
    if entries != [] {
      PayloadsIff(entries[1..]);
      AllShift(entries);
    }
  }

  lemma AllShift(entries: seq<Entry>)
    requires FieldCodecLaws() && EntriesOk(entries) && entries != []
    ensures (forall i | 0 <= i < |entries| :: EncodePayload(entries[i]).Some?)
       <==> EncodePayload(entries[0]).Some? && forall i | 0 <= i < |entries[1..]| :: EncodePayload(entries[1..][i]).Some?
  {
    hide FieldCodecLaws, EncodePayload, EntryOk;
    assert forall i | 0 < i < |entries| :: entries[i] == entries[1..][i - 1];
  }

  /** A zkey's body is built exactly when every section is taken. */
  lemma BodyIff(version: nat, parts: seq<Part>)
    requires FieldCodecLaws() && PartsFit(parts) && version < LIMB
    ensures EncodeBody(ZkeyOf(version, parts)).Some? <==> forall i | 0 <= i < |parts| :: SectionTaken(parts[i].id, parts[i].bytes)
  {
    hide FieldCodecLaws, ZkeyOf, Payloads, EncodePayload, SectionTaken, Table;
    LayoutOfZkey(version, parts);
    var zkey := ZkeyOf(version, parts);
    LayoutAssembles(zkey[12..], LittleEndianValue(zkey[8..12]));
    var entries := EntriesOf(parts);
    PayloadsIff(entries);
    forall i | 0 <= i < |parts|
      ensures EncodePayload(entries[i]).Some? <==> SectionTaken(parts[i].id, parts[i].bytes)
    {
      PayloadBySection(parts[i].id, parts[i].bytes);
    }
  }

  /**
   With a lossless frame, a zkey put together from sections becomes a file that inflates back to
   it if and only if every section is taken and its points are on their curves.
   */
  lemma EncodedIff(version: nat, parts: seq<Part>, frame: seq<Byte>, maxZkeyBytes: nat)
    requires FieldCodecLaws() && PartsFit(parts) && version < LIMB
    requires |ZkeyOf(version, parts)| < U64_LIMIT && |ZkeyOf(version, parts)| <= maxZkeyBytes
    requires EncodeBody(ZkeyOf(version, parts)).Some? ==> Unframe(frame) == EncodeBody(ZkeyOf(version, parts))
    ensures var zkey := ZkeyOf(version, parts);
      (EncodeBody(zkey).Some? && InflateOf(FileOf(zkey, frame), maxZkeyBytes) == Some(zkey))
      <==> forall i | 0 <= i < |parts| :: SectionTaken(parts[i].id, parts[i].bytes) && SectionOnCurve(parts[i].id, parts[i].bytes)
  {
    hide FieldCodecLaws, ZkeyOf, EncodeBody, InflateOf, FileOf, SectionTaken, SectionOnCurve, EntryOnCurve;
    BodyIff(version, parts);
    var zkey := ZkeyOf(version, parts);
    if EncodeBody(zkey).Some? {
      FileRoundTrip(zkey, frame, maxZkeyBytes);
      LayoutOfZkey(version, parts);
      forall i | 0 <= i < |parts|
        ensures EntryOnCurve(EntriesOf(parts)[i]) <==> SectionOnCurve(parts[i].id, parts[i].bytes)
      {
        OnCurveBySection(parts[i].id, parts[i].bytes);
      }
    }
  }
}
