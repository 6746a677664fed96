/**
 The bytes a compact zkey consists of, position by position: the file header, the section table,
 compressed points and coefficient columns.
 */
module ZkeyFormat {
  import opened Bytes
  import opened Binary
  import opened LittleEndianBytes
  import opened TreeErrors
  import opened Sha256
  import opened CompactPoints
  import opened CompactZkey
  import opened CompactZkeyCodec
  import opened ZkeyAcceptance

  // ----- compressed points -----

  /** The last word of a compressed point. */
  function LastWord(bytes: seq<Byte>): seq<Byte>
    requires |bytes| >= 32
  {
    bytes[|bytes| - 32..]
  }

  /** A flag adds its bits, at the top of the last word, to what the word stands for. */
  lemma FlagValue(bytes: seq<Byte>, flag: Flag)
    requires |bytes| >= 32 && bytes[|bytes| - 1] < 64
    ensures LittleEndianValue(LastWord(WithFlag(bytes, flag))) == LittleEndianValue(LastWord(bytes)) + FlagBits(flag) * Pow2(248)
  {
    hide LittleEndianValue, Pow2;
    var (word, flagged) := (LastWord(bytes), LastWord(WithFlag(bytes, flag)));
    assert word == word[..31] + [word[31]] && flagged == word[..31] + [word[31] + FlagBits(flag)];
    LastByte(word[..31], word[31]);
    LastByte(word[..31], word[31] + FlagBits(flag));
    MulDistributes(word[31], FlagBits(flag), Pow2(248));
  }

  lemma SevenBits()
    ensures Pow2(7) == 128
  {
    assert Pow2(6) == 64;
  }

  lemma FlagPowers()
    ensures FlagBits(Positive) * Pow2(248) == 0
    ensures FlagBits(Infinity) * Pow2(248) == Pow2(254)
    ensures FlagBits(Negative) * Pow2(248) == Pow2(255)
  {
    hide Pow2;
    SixBits();
    SevenBits();
    Pow2Add(248, 6);
    Pow2Add(248, 7);
  }

  /** The last word a coordinate is written with is its last element. */
  lemma {:induction false} LastWordValue(c: Coordinate)
    requires InField(c) && c != []
    ensures |WordBytes(c)| >= 32 && LittleEndianValue(LastWord(WordBytes(c))) == c[|c| - 1]
  {
    hide LittleEndian, LittleEndianValue, Pow2;
    ModulusFits();
    if |c| == 1 {
      LittleEndianDecodes(c[0], 32);
      assert WordBytes(c[1..]) == [];
      assert LastWord(WordBytes(c)) == LittleEndian(c[0], 32);
    } else {
      LastWordValue(c[1..]);
      assert LastWord(WordBytes(c)) == LastWord(WordBytes(c[1..]));
    }
  }

  /**
   A compressed point is `x`, little-endian, with bit 255 of its last word set when `y` is the
   larger of the two roots.
   */
  lemma CompressedPoint(curve: Curve, x: Coordinate, y: Coordinate)
    requires Canonical(curve, x) && !(IsZero(x) && IsZero(y))
    ensures var (r, words) := (CompressPoint(curve, x, y), WordBytes(x));
      && |r| == |words| && r[..|r| - 32] == words[..|r| - 32]
      && LittleEndianValue(LastWord(r)) == x[|x| - 1] + if Less(curve, Negate(curve, y), y) then Pow2(255) else 0
  {
    hide LittleEndianValue, Pow2, WordBytes, WithFlag, IsZero, LastWord, CompressPoint, FlagOf;
    FiniteBytes(curve, x, y);
    FinitePoint(x, FlagOf(curve, y));
  }

  lemma FiniteBytes(curve: Curve, x: Coordinate, y: Coordinate)
    requires Canonical(curve, x) && !(IsZero(x) && IsZero(y))
    ensures WordBytes(x) != [] && WordBytes(x)[|WordBytes(x)| - 1] < 64
    ensures CompressPoint(curve, x, y) == WithFlag(WordBytes(x), FlagOf(curve, y))
    ensures FlagOf(curve, y) == if Less(curve, Negate(curve, y), y) then Negative else Positive
  {
    hide WordBytes, IsZero;
    WordsTopBitsFree(x);
  }

  /** The point at infinity is bit 254 of the last word, and nothing else. */
  lemma CompressedInfinity(curve: Curve, x: Coordinate, y: Coordinate)
    requires Canonical(curve, x) && IsZero(x) && IsZero(y)
    ensures var r := CompressPoint(curve, x, y);
      r[..|r| - 32] == Zeros(|r| - 32) && LittleEndianValue(LastWord(r)) == Pow2(254)
  {
    hide LittleEndianValue, Pow2, WordBytes, WithFlag, Zeros, InfinityBytes, LastWord;
    InfinityPoint(curve);
  }

  lemma FinitePoint(x: Coordinate, flag: Flag)
    requires InField(x) && x != [] && flag != Infinity
    ensures WordBytes(x) != [] && WordBytes(x)[|WordBytes(x)| - 1] < 64
    ensures var (words, r) := (WordBytes(x), WithFlag(WordBytes(x), flag));
      && |r| == |words| == 32 * |x| && r[..|r| - 32] == words[..|r| - 32]
      && LittleEndianValue(LastWord(r)) == x[|x| - 1] + if flag == Negative then Pow2(255) else 0
  {
    hide LittleEndianValue, Pow2, WordBytes, FlagBits;
    WordsTopBitsFree(x);
    FlagPowers();
    FlagValue(WordBytes(x), flag);
    LastWordValue(x);
  }

  lemma InfinityPoint(curve: Curve)
    ensures var r := InfinityBytes(curve);
      && r[..|r| - 32] == Zeros(|r| - 32)
      && LittleEndianValue(LastWord(r)) == Pow2(254)
  {
    hide LittleEndianValue, Pow2, FlagBits;
    var zeros := Zeros(CompactBytes(curve));
    FlagPowers();
    FlagValue(zeros, Infinity);
    ZeroWord();
    assert LastWord(zeros) == Zeros(32);
  }

  lemma ZeroWord()
    ensures LittleEndianValue(Zeros(32)) == 0
  {
    ZeroBytes(32);
    LittleEndianDecodes(0, 32);
    hide LittleEndian, LittleEndianValue, Pow2;
  }

  /** The first point of a section comes first in its payload. */
  lemma FirstPoint(curve: Curve, bytes: seq<Byte>)
    requires FieldCodecLaws() && RawAligned(curve, |bytes|) && bytes != [] && CompressAll(curve, bytes).Some?
    ensures RawBytes(curve) <= |bytes| && RawAligned(curve, |bytes| - RawBytes(curve))
    ensures var (raw, rest) := (bytes[..RawBytes(curve)], bytes[RawBytes(curve)..]);
      && ParsePoint(curve, raw).Some? && Canonical(curve, ParsePoint(curve, raw).value.0)
      && CompressAll(curve, rest).Some?
      && CompressAll(curve, bytes).value
         == CompressPoint(curve, ParsePoint(curve, raw).value.0, ParsePoint(curve, raw).value.1) + CompressAll(curve, rest).value
  {
    hide FieldCodecLaws, RawAligned, ParsePoint, CompressPoint;
    RawPeel(curve, |bytes|);
    ParsedPoint(curve, bytes[..RawBytes(curve)]);
  }

  /** The points of a section keep their order: any whole number of them is compressed before the rest. */
  lemma {:induction false} CompressSplit(curve: Curve, a: seq<Byte>, b: seq<Byte>)
    requires FieldCodecLaws() && RawAligned(curve, |a|) && RawAligned(curve, |b|)
    requires RawAligned(curve, |a + b|) && CompressAll(curve, a + b).Some?
    ensures CompressAll(curve, a).Some? && CompressAll(curve, b).Some?
    ensures CompressAll(curve, a + b).value == CompressAll(curve, a).value + CompressAll(curve, b).value
    decreases |a|
  {
    hide FieldCodecLaws, RawAligned, ParsePoint, CompressPoint, WordsOk, CompressAll, RawBytes;
    if a == [] {
      NoPoints(curve);
      assert a + b == b;
    } else {
      var n := RawBytes(curve);
      CompressAllIff(curve, a + b);
      RawPeel(curve, |a|);
      WordsPrefix(curve, a, b);
      CompressAllIff(curve, a);
      FirstPoint(curve, a + b);
      FirstPoint(curve, a);
      assert (a + b)[..n] == a[..n] && (a + b)[n..] == a[n..] + b;
      CompressSplit(curve, a[n..], b);
    }
  }

  lemma NoPoints(curve: Curve)
    requires FieldCodecLaws()
    ensures CompressAll(curve, []) == Some([])
  {}

  lemma WordsPrefix(curve: Curve, a: seq<Byte>, b: seq<Byte>)
    requires RawAligned(curve, |a|) && WordsOk(a + b)
    ensures WordsOk(a)
  {
    hide WordsOk;
    WordsSplit(a, b, |a| / 32);
  }

  // ----- coefficient columns -----

  /** The payload of section 4: the count, then all matrices, constraints, signals and values. */
  lemma ColumnsAt(bytes: seq<Byte>, r: nat)
    requires FieldCodecLaws() && |bytes| >= 4 && |bytes| == 4 + 44 * CountOf(bytes) && r < CountOf(bytes)
    requires |bytes| < U64_LIMIT
    ensures var (n, payload) := (CountOf(bytes), EncodePayload(EntryFor(4, bytes)));
      var record := bytes[4 + 44 * r..4 + 44 * r + 44];
      && payload.Some? && |payload.value| == |bytes| && payload.value[..4] == bytes[..4]
      && payload.value[4 + 4 * r..4 + 4 * r + 4] == record[..4]
      && payload.value[4 + 4 * n + 4 * r..4 + 4 * n + 4 * r + 4] == record[4..8]
      && payload.value[4 + 8 * n + 4 * r..4 + 8 * n + 4 * r + 4] == record[8..12]
      && payload.value[4 + 12 * n + 32 * r..4 + 12 * n + 32 * r + 32] == record[12..]
  {
    hide FieldCodecLaws, LittleEndianValue, Column, Flatten, Columns, EncodePayload;
    var n := CountOf(bytes);
    CoefficientPayload(bytes);
    var (records, payload) := (Records(bytes[4..], n), EncodePayload(EntryFor(4, bytes)).value);
    var columns := payload[4..];
    ColumnPositions(records, r);
    assert records[r] == bytes[4 + 44 * r..4 + 44 * r + 44];
    PayloadSlice(payload, columns, 4 * r, 4);
    PayloadSlice(payload, columns, 4 * n + 4 * r, 4);
    PayloadSlice(payload, columns, 8 * n + 4 * r, 4);
    PayloadSlice(payload, columns, 12 * n + 32 * r, 32);
  }

  lemma CoefficientPayload(bytes: seq<Byte>)
    requires FieldCodecLaws() && |bytes| >= 4 && |bytes| == 4 + 44 * CountOf(bytes) && |bytes| < U64_LIMIT
    ensures AllWide(Records(bytes[4..], CountOf(bytes)), COEFFICIENT_RAW)
    ensures var (payload, records) := (EncodePayload(EntryFor(4, bytes)), Records(bytes[4..], CountOf(bytes)));
      payload.Some? && |payload.value| == |bytes| && payload.value[..4] == bytes[..4] && payload.value[4..] == Columns(records)
  {
    hide FieldCodecLaws, LittleEndianValue, Columns, Records;
    FlattenRecords(bytes[4..], CountOf(bytes));
    ColumnsLength(Records(bytes[4..], CountOf(bytes)));
  }

  lemma PayloadSlice(payload: seq<Byte>, columns: seq<Byte>, at: nat, width: nat)
    requires |payload| >= 4 && payload[4..] == columns && at + width <= |columns|
    ensures payload[4 + at..4 + at + width] == columns[at..at + width]
  {}

  lemma ColumnPositions(records: seq<seq<Byte>>, r: nat)
    requires AllWide(records, COEFFICIENT_RAW) && r < |records|
    ensures var (n, columns) := (|records|, Columns(records));
      && |columns| == COEFFICIENT_RAW * n
      && columns[4 * r..4 * r + 4] == records[r][..4]
      && columns[4 * n + 4 * r..4 * n + 4 * r + 4] == records[r][4..8]
      && columns[8 * n + 4 * r..8 * n + 4 * r + 4] == records[r][8..12]
      && columns[12 * n + 32 * r..12 * n + 32 * r + 32] == records[r][12..]
  {
    hide Flatten, Column;
    ColumnsLength(records);
    ColumnCell(records, 0, 4, r);
    ColumnCell(records, 4, 4, r);
    ColumnCell(records, 8, 4, r);
    ColumnCell(records, 12, 32, r);
    var (a, b, c, d) := (Flatten(Column(records, 0, 4)), Flatten(Column(records, 4, 4)), Flatten(Column(records, 8, 4)),
                         Flatten(Column(records, 12, 32)));
    var n := |records|;
    var all := a + b + c + d;
    assert all[4 * r..4 * r + 4] == a[4 * r..4 * r + 4];
    assert all[4 * n + 4 * r..4 * n + 4 * r + 4] == b[4 * r..4 * r + 4];
    assert all[8 * n + 4 * r..8 * n + 4 * r + 4] == c[4 * r..4 * r + 4];
    assert all[12 * n + 32 * r..12 * n + 32 * r + 32] == d[32 * r..32 * r + 32];
  }

  // ----- the body and the file -----

  /** The encoding byte of a section, by its number. */
  function EncodingByte(id: nat): Byte {
    if id in G1_SECTIONS then 1 else if id == G2_SECTION then 2 else if id == COEFFICIENT_SECTION then 3 else 0
  }

  /** Entry `i` of the table: number, length and encoding byte of section `i`. */
  lemma {:induction false} TableAt(parts: seq<Part>, i: nat)
    requires i < |parts| && forall k | 0 <= k < |parts| :: parts[k].id < LIMB && |parts[k].bytes| < U64_LIMIT
    ensures |Table(EntriesOf(parts))| == 13 * |parts|
    ensures var entry := Table(EntriesOf(parts))[13 * i..13 * i + 13];
      && LittleEndianValue(entry[..4]) == parts[i].id
      && LittleEndianValue(entry[4..12]) == |parts[i].bytes|
      && entry[12] == EncodingByte(parts[i].id)
    decreases |parts|
  {
    hide LittleEndianValue, LittleEndian, Header;
    var table := Table(EntriesOf(parts));
    assert EntriesOf(parts)[1..] == EntriesOf(parts[1..]);
    TableLength(parts[1..]);
    if i == 0 {
      HeaderWritten(parts[0].id, |parts[0].bytes|);
      var head := Header(parts[0].id, |parts[0].bytes|);
      assert table[13 * i..13 * i + 13] == head + [Tag(ForSection(parts[0].id))];
      assert (head + [Tag(ForSection(parts[0].id))])[..4] == head[..4];
      assert (head + [Tag(ForSection(parts[0].id))])[4..12] == head[4..12];
    } else {
      TableAt(parts[1..], i - 1);
      assert table[13 * i..13 * i + 13] == Table(EntriesOf(parts[1..]))[13 * (i - 1)..13 * (i - 1) + 13];
    }
  }

  lemma {:induction false} TableLength(parts: seq<Part>)
    ensures |Table(EntriesOf(parts))| == 13 * |parts|
  {
    hide TableEntry;
    if parts != [] {
      TableLength(parts[1..]);
      assert EntriesOf(parts)[1..] == EntriesOf(parts[1..]);
    }
  }

  /** Version, section count, table and payloads, in that order. */
  lemma BodyAt(version: nat, parts: seq<Part>)
    requires FieldCodecLaws() && PartsFit(parts) && version < LIMB && EncodeBody(ZkeyOf(version, parts)).Some?
    ensures EntriesOk(EntriesOf(parts)) && Payloads(EntriesOf(parts)).Some?
    ensures var body := EncodeBody(ZkeyOf(version, parts)).value;
      && |body| >= 8 + 13 * |parts|
      && LittleEndianValue(body[..4]) == version && LittleEndianValue(body[4..8]) == |parts|
      && body[8..8 + 13 * |parts|] == Table(EntriesOf(parts))
      && body[8 + 13 * |parts|..] == Payloads(EntriesOf(parts)).value
  {
    hide FieldCodecLaws, LittleEndian, LittleEndianValue, Table, Payloads, ZkeyOf, EntriesOf, Pow2;
    Widths();
    LittleEndianDecodes(version, 4);
    LittleEndianDecodes(|parts|, 4);
    LayoutOfZkey(version, parts);
    TableLength(parts);
    var zkey := ZkeyOf(version, parts);
    LayoutAssembles(zkey[12..], LittleEndianValue(zkey[8..12]));
    var body := EncodeBody(zkey).value;
    assert body == LittleEndian(version, 4) + LittleEndian(|parts|, 4) + Table(EntriesOf(parts)) + Payloads(EntriesOf(parts)).value;
    assert body[..4] == LittleEndian(version, 4) && body[4..8] == LittleEndian(|parts|, 4);
  }

  /** `CVYZKC01`, the digest and the length of the zkey, and the frame. */
  lemma FileAt(zkey: seq<Byte>, frame: seq<Byte>)
    requires |zkey| < U64_LIMIT
    ensures var file := FileOf(zkey, frame);
      && |file| == 48 + |frame|
      && file[..8] == [0x43, 0x56, 0x59, 0x5a, 0x4b, 0x43, 0x30, 0x31]
      && file[8..40] == Sha(zkey)
      && LittleEndianValue(file[40..48]) == |zkey|
      && file[48..] == frame
  {
    hide LittleEndian, LittleEndianValue, Pow2;
    Widths();
    LittleEndianDecodes(|zkey|, 8);
    var file := FileOf(zkey, frame);
    assert file[40..48] == LittleEndian(|zkey|, 8);
  }
}
