/**
 The compact zkey: section layout, per-section encodings and the body they make up; decoding
 what the encoder wrote restores the zkey byte for byte.
 */
module CompactZkey {
  import opened Bytes
  import opened Binary
  import opened LittleEndianBytes
  import opened TreeErrors
  import opened Divisibility
  import opened CompactPoints

  const MAX_SECTIONS: nat := 64
  const U64_LIMIT: nat := 0x1_0000_0000_0000_0000
  const COEFFICIENT_RAW: nat := 44

  /** `zkey` in ASCII. */
  const ZKEY_MAGIC: seq<Byte> := [0x7a, 0x6b, 0x65, 0x79]

  datatype Encoding = Raw | PointsG1 | PointsG2 | Coefficients

  datatype Section = Section(id: nat, zkeyBytes: nat, encoding: Encoding)

  /** One section of a zkey with its bytes. */
  datatype Entry = Entry(section: Section, bytes: seq<Byte>)

  function Tag(encoding: Encoding): Byte {
    match encoding case Raw => 0 case PointsG1 => 1 case PointsG2 => 2 case Coefficients => 3
  }

  function FromTag(tag: Byte): Option<Encoding> {
    match tag case 0 => Some(Raw) case 1 => Some(PointsG1) case 2 => Some(PointsG2) case 3 => Some(Coefficients) case _ => None
  }

  /** The encoding of a Groth16 section id. */
  function ForSection(id: nat): Encoding {
    if id in {3, 5, 6, 8, 9} then PointsG1 else if id == 7 then PointsG2 else if id == 4 then Coefficients else Raw
  }

  function CurveOf(encoding: Encoding): Curve {
    if encoding == PointsG2 then G2 else G1
  }

  // ----- point sections -----

  /** A whole number of compressed points: a multiple of `CompactBytes(curve)`. */
  predicate Aligned(curve: Curve, length: nat) {
    match curve case G1 => length % 32 == 0 case G2 => length % 64 == 0
  }

  /** A whole number of raw points: a multiple of `RawBytes(curve)`. */
  predicate RawAligned(curve: Curve, length: nat) {
    match curve case G1 => length % 64 == 0 case G2 => length % 128 == 0
  }

  lemma AlignedSum(curve: Curve, a: nat, b: nat)
    requires Aligned(curve, a) && Aligned(curve, b)
    ensures Aligned(curve, a + b) && (a >= b ==> Aligned(curve, a - b))
  {
    match curve
    case G1 => Multiples32(a, b);
    case G2 => Multiples64(a, b);
  }

  lemma AlignedPeel(curve: Curve, length: nat)
    requires Aligned(curve, length) && length > 0
    ensures Aligned(curve, CompactBytes(curve)) && 0 < CompactBytes(curve) <= length && Aligned(curve, length - CompactBytes(curve))
  {
    match curve
    case G1 => Multiples32(length, 0);
    case G2 => Multiples64(length, 0);
  }

  lemma UnitAligned(curve: Curve)
    ensures Aligned(curve, CompactBytes(curve)) && CompactBytes(curve) > 0
  {}

  lemma RawPeel(curve: Curve, length: nat)
    requires RawAligned(curve, length) && length > 0
    ensures 0 < RawBytes(curve) <= length && RawAligned(curve, length - RawBytes(curve))
  {
    match curve
    case G1 => Multiples64(length, 0);
    case G2 => Multiples128(length);
  }

  /** Every point compressed, in order; `None` for a non-canonical point. */
  function CompressAll(curve: Curve, bytes: seq<Byte>): (compact: Option<seq<Byte>>)
    requires FieldCodecLaws() && RawAligned(curve, |bytes|)
    ensures compact.Some? ==> 2 * |compact.value| == |bytes|
  {
    if bytes == [] then Some([])
    else
      RawPeel(curve, |bytes|);
      var raw := bytes[..RawBytes(curve)];
      match ParsePoint(curve, raw)
      case None => None
      case Some((x, y)) =>
        ParsedPoint(curve, raw);
        match CompressAll(curve, bytes[RawBytes(curve)..])
        case None => None
        case Some(rest) => Some(CompressPoint(curve, x, y) + rest)
  }

  /** Every point decompressed, in order. */
  function DecompressAll(curve: Curve, compact: seq<Byte>): (raw: Option<seq<Byte>>)
    requires Aligned(curve, |compact|)
  {
    if compact == [] then Some([])
    else
      AlignedPeel(curve, |compact|);
      match DecompressPoint(curve, compact[..CompactBytes(curve)])
      case None => None
      case Some(point) =>
        (match DecompressAll(curve, compact[CompactBytes(curve)..])
         case None => None
         case Some(rest) => Some(point + rest))
  }

  /** Every point of the section is on its curve, or the point at infinity. */
  predicate AllOnCurve(curve: Curve, bytes: seq<Byte>)
    requires RawAligned(curve, |bytes|)
  {
    bytes == [] ||
    (RawPeel(curve, |bytes|);
     match ParsePoint(curve, bytes[..RawBytes(curve)])
     case None => false
     case Some((x, y)) => OnCurve(curve, x, y) && AllOnCurve(curve, bytes[RawBytes(curve)..]))
  }

  lemma WholePoints(curve: Curve, compact: seq<Byte>, bytes: seq<Byte>)
    requires RawAligned(curve, |bytes|) && 2 * |compact| == |bytes|
    ensures Aligned(curve, |compact|)
  {
    match curve
    case G1 => Halves64(|bytes|);
    case G2 => Halves128(|bytes|);
  }

  lemma DecompressStep(curve: Curve, first: seq<Byte>, rest: seq<Byte>, point: seq<Byte>, tail: seq<Byte>)
    requires |first| == CompactBytes(curve) && Aligned(curve, |rest|)
    requires DecompressPoint(curve, first) == Some(point) && DecompressAll(curve, rest) == Some(tail)
    ensures Aligned(curve, |first + rest|) && DecompressAll(curve, first + rest) == Some(point + tail)
  {
    hide DecompressPoint, Aligned;
    UnitAligned(curve);
    AlignedSum(curve, |first|, |rest|);
    assert (first + rest)[..CompactBytes(curve)] == first && (first + rest)[CompactBytes(curve)..] == rest;
  }

  lemma {:induction false} PointsRoundTrip(curve: Curve, bytes: seq<Byte>)
    requires FieldCodecLaws() && RawAligned(curve, |bytes|)
    requires AllOnCurve(curve, bytes) && CompressAll(curve, bytes).Some?
    ensures var compact := CompressAll(curve, bytes).value;
      Aligned(curve, |compact|) && DecompressAll(curve, compact) == Some(bytes)
  {
    hide FieldCodecLaws, DecompressPoint, CompressPoint, ParsePoint, OnCurve;
    if bytes != [] {
      var raw, tail := bytes[..RawBytes(curve)], bytes[RawBytes(curve)..];
      var (x, y) := ParsePoint(curve, raw).value;
      PointsRoundTrip(curve, tail);
      PointRoundTrip(curve, raw);
      var first, rest := CompressPoint(curve, x, y), CompressAll(curve, tail).value;
      DecompressStep(curve, first, rest, raw, tail);
      assert bytes == raw + tail;
    }
  }

  lemma DecompressSplit(curve: Curve, first: seq<Byte>, rest: seq<Byte>)
    requires |first| == CompactBytes(curve) && Aligned(curve, |rest|)
    ensures Aligned(curve, |first + rest|)
    ensures DecompressAll(curve, first + rest).Some? ==>
      DecompressPoint(curve, first).Some? && DecompressAll(curve, rest).Some? &&
      DecompressAll(curve, first + rest).value == DecompressPoint(curve, first).value + DecompressAll(curve, rest).value
  {
    hide DecompressPoint, Aligned;
    UnitAligned(curve);
    AlignedSum(curve, |first|, |rest|);
    assert (first + rest)[..CompactBytes(curve)] == first && (first + rest)[CompactBytes(curve)..] == rest;
  }

  lemma EqualParts(a: seq<Byte>, b: seq<Byte>, c: seq<Byte>, d: seq<Byte>)
    requires a + b == c + d && |a| == |c|
    ensures a == c && b == d
  {
    assert a == (a + b)[..|a|] && c == (c + d)[..|c|];
    assert b == (a + b)[|a|..] && d == (c + d)[|c|..];
  }

  /** ... and a section that comes back has every point on its curve. */
  lemma {:induction false} PointsExact(curve: Curve, bytes: seq<Byte>)
    requires FieldCodecLaws() && RawAligned(curve, |bytes|) && CompressAll(curve, bytes).Some?
    requires Aligned(curve, |CompressAll(curve, bytes).value|)
    requires DecompressAll(curve, CompressAll(curve, bytes).value) == Some(bytes)
    ensures AllOnCurve(curve, bytes)
  {
    hide FieldCodecLaws, DecompressPoint, CompressPoint, ParsePoint, OnCurve, DecompressAll;
    if bytes != [] {
      RawPeel(curve, |bytes|);
      var raw, tail := bytes[..RawBytes(curve)], bytes[RawBytes(curve)..];
      var (x, y) := ParsePoint(curve, raw).value;
      ParsedPoint(curve, raw);
      var first, rest := CompressPoint(curve, x, y), CompressAll(curve, tail).value;
      WholePoints(curve, rest, tail);
      DecompressSplit(curve, first, rest);
      DecompressedLength(curve, first);
      assert bytes == raw + tail;
      EqualParts(DecompressPoint(curve, first).value, DecompressAll(curve, rest).value, raw, tail);
      PointRoundTrip(curve, raw);
      PointsExact(curve, tail);
    }
  }

  lemma {:induction false} DecompressedLengths(curve: Curve, compact: seq<Byte>)
    requires FieldCodecLaws() && Aligned(curve, |compact|) && DecompressAll(curve, compact).Some?
    ensures |DecompressAll(curve, compact).value| == 2 * |compact|
    decreases |compact|
  {
    hide FieldCodecLaws, DecompressPoint;
    if compact != [] {
      AlignedPeel(curve, |compact|);
      DecompressedLength(curve, compact[..CompactBytes(curve)]);
      DecompressedLengths(curve, compact[CompactBytes(curve)..]);
    }
  }

  // ----- coefficient sections -----

  /** Cells of one width, end to end. */
  function Flatten(cells: seq<seq<Byte>>): seq<Byte> {
    if cells == [] then [] else Flatten(cells[..|cells| - 1]) + cells[|cells| - 1]
  }

  ghost predicate AllWide(cells: seq<seq<Byte>>, width: nat) {
    forall r | 0 <= r < |cells| :: |cells[r]| == width
  }

  lemma {:induction false} FlattenLength(cells: seq<seq<Byte>>, width: nat)
    requires AllWide(cells, width)
    ensures |Flatten(cells)| == |cells| * width
  {
    if cells != [] {
      FlattenLength(cells[..|cells| - 1], width);
      MulDistributes(|cells| - 1, 1, width);
    }
  }

  lemma {:induction false} FlattenAt(cells: seq<seq<Byte>>, width: nat, r: nat)
    requires AllWide(cells, width) && r < |cells|
    ensures r * width + width <= |Flatten(cells)|
    ensures 0 <= r * width && Flatten(cells)[r * width..r * width + width] == cells[r]
  {
    var init := cells[..|cells| - 1];
    FlattenLength(init, width);
    MulNonNegative(r, width);
    if r < |init| {
      FlattenAt(init, width, r);
      assert Flatten(cells)[r * width..r * width + width] == Flatten(init)[r * width..r * width + width];
    }
  }

  lemma MulNonNegative(a: nat, b: nat)
    ensures 0 <= a * b
  {}

  /** The 44-byte records of a section, each `matrix | constraint | signal | value`. */
  function Records(bytes: seq<Byte>, count: nat): (records: seq<seq<Byte>>)
    requires |bytes| == COEFFICIENT_RAW * count
    ensures |records| == count
  {
    seq(count, r requires 0 <= r < count => bytes[COEFFICIENT_RAW * r..COEFFICIENT_RAW * r + COEFFICIENT_RAW])
  }

  lemma {:induction false} FlattenRecords(bytes: seq<Byte>, count: nat)
    requires |bytes| == COEFFICIENT_RAW * count
    ensures AllWide(Records(bytes, count), COEFFICIENT_RAW) && Flatten(Records(bytes, count)) == bytes
  {
    if count > 0 {
      var init := bytes[..COEFFICIENT_RAW * (count - 1)];
      FlattenRecords(init, count - 1);
      forall r | 0 <= r < count - 1
        ensures Records(bytes, count)[r] == Records(init, count - 1)[r]
      {}
      assert Records(bytes, count)[..count - 1] == Records(init, count - 1);
      assert bytes == init + bytes[COEFFICIENT_RAW * (count - 1)..];
    }
  }

  function Column(records: seq<seq<Byte>>, offset: nat, width: nat): (cells: seq<seq<Byte>>)
    requires AllWide(records, COEFFICIENT_RAW) && offset + width <= COEFFICIENT_RAW
    ensures |cells| == |records|
  {
    seq(|records|, r requires 0 <= r < |records| => records[r][offset..offset + width])
  }

  /** The columns of a coefficient section, one after the other. */
  function Columns(records: seq<seq<Byte>>): seq<Byte>
    requires AllWide(records, COEFFICIENT_RAW)
  {
    Flatten(Column(records, 0, 4)) + Flatten(Column(records, 4, 4)) + Flatten(Column(records, 8, 4)) + Flatten(Column(records, 12, 32))
  }

  /** Record `r` gathered back from the columns. */
  function Gathered(columns: seq<Byte>, count: nat, r: nat): (record: seq<Byte>)
    requires |columns| == COEFFICIENT_RAW * count && r < count
    ensures |record| == COEFFICIENT_RAW
  {
    columns[4 * r..4 * r + 4] + columns[4 * count + 4 * r..4 * count + 4 * r + 4] +
    columns[8 * count + 4 * r..8 * count + 4 * r + 4] + columns[12 * count + 32 * r..12 * count + 32 * r + 32]
  }

  function GatheredAll(columns: seq<Byte>, count: nat): (records: seq<seq<Byte>>)
    requires |columns| == COEFFICIENT_RAW * count
    ensures |records| == count
  {
    seq(count, r requires 0 <= r < count => Gathered(columns, count, r))
  }

  lemma ColumnCell(records: seq<seq<Byte>>, offset: nat, width: nat, r: nat)
    requires AllWide(records, COEFFICIENT_RAW) && offset + width <= COEFFICIENT_RAW && r < |records|
    ensures |Flatten(Column(records, offset, width))| == |records| * width
    ensures 0 <= r * width && r * width + width <= |records| * width
    ensures Flatten(Column(records, offset, width))[r * width..r * width + width] == records[r][offset..offset + width]
  {
    FlattenLength(Column(records, offset, width), width);
    FlattenAt(Column(records, offset, width), width, r);
  }

  lemma ColumnsLength(records: seq<seq<Byte>>)
    requires AllWide(records, COEFFICIENT_RAW)
    ensures |Columns(records)| == COEFFICIENT_RAW * |records|
  {
    FlattenLength(Column(records, 0, 4), 4);
    FlattenLength(Column(records, 4, 4), 4);
    FlattenLength(Column(records, 8, 4), 4);
    FlattenLength(Column(records, 12, 32), 32);
    hide Flatten;
  }

  /** Splitting records into columns loses nothing. */
  lemma ColumnsRoundTrip(records: seq<seq<Byte>>)
    requires AllWide(records, COEFFICIENT_RAW)
    ensures |Columns(records)| == COEFFICIENT_RAW * |records|
    ensures GatheredAll(Columns(records), |records|) == records
  {
    ColumnsLength(records);
    forall r | 0 <= r < |records|
      ensures Gathered(Columns(records), |records|, r) == records[r]
    {
      GatheredRecord(records, r);
    }
    hide Columns, Gathered;
  }

  lemma GatheredRecord(records: seq<seq<Byte>>, r: nat)
    requires AllWide(records, COEFFICIENT_RAW) && r < |records|
    ensures |Columns(records)| == COEFFICIENT_RAW * |records|
    ensures Gathered(Columns(records), |records|, r) == records[r]
  {
    hide Flatten, Column, Gathered;
    ColumnsLength(records);
    ColumnCell(records, 0, 4, r);
    ColumnCell(records, 4, 4, r);
    ColumnCell(records, 8, 4, r);
    ColumnCell(records, 12, 32, r);
    FourCells(Flatten(Column(records, 0, 4)), Flatten(Column(records, 4, 4)), Flatten(Column(records, 8, 4)),
              Flatten(Column(records, 12, 32)), |records|, r);
    RecordParts(records[r]);
  }

  lemma RecordParts(record: seq<Byte>)
    requires |record| == COEFFICIENT_RAW
    ensures record[0..4] + record[4..8] + record[8..12] + record[12..44] == record
  {}

  lemma FourCells(a: seq<Byte>, b: seq<Byte>, c: seq<Byte>, d: seq<Byte>, n: nat, r: nat)
    requires |a| == |b| == |c| == 4 * n && |d| == 32 * n && r < n
    ensures Gathered(a + b + c + d, n, r) == a[4 * r..4 * r + 4] + b[4 * r..4 * r + 4] + c[4 * r..4 * r + 4] + d[32 * r..32 * r + 32]
  {
    var all := a + b + c + d;
    assert all[4 * r..4 * r + 4] == a[4 * r..4 * r + 4];
    assert all[4 * n + 4 * r..4 * n + 4 * r + 4] == b[4 * r..4 * r + 4];
    assert all[8 * n + 4 * r..8 * n + 4 * r + 4] == c[4 * r..4 * r + 4];
    assert all[12 * n + 32 * r..12 * n + 32 * r + 32] == d[32 * r..32 * r + 32];
  }

  // ----- one section -----

  predicate IsPoints(encoding: Encoding) {
    encoding == PointsG1 || encoding == PointsG2
  }

  /** Bytes that make up whole points, in point sections. */
  predicate WholeUnits(section: Section) {
    IsPoints(section.encoding) ==> RawAligned(CurveOf(section.encoding), section.zkeyBytes)
  }

  predicate EntryOk(entry: Entry) {
    && entry.section.zkeyBytes == |entry.bytes| < U64_LIMIT
    && entry.section.id < LIMB
    && entry.section.encoding == ForSection(entry.section.id)
  }

  const LIMB: nat := 0x1_0000_0000

  function CountOf(bytes: seq<Byte>): nat
    requires |bytes| >= 4
  {
    LittleEndianValue(bytes[..4])
  }

  /** `encode_section`; `None` where the zkey is refused. */
  function EncodePayload(entry: Entry): (payload: Option<seq<Byte>>)
    requires FieldCodecLaws() && EntryOk(entry)
  {
    var bytes := entry.bytes;
    match entry.section.encoding
    case Raw => Some(bytes)
    case Coefficients =>
      if |bytes| < 4 || COEFFICIENT_RAW * CountOf(bytes) + 4 != |bytes| then None
      else
        FlattenRecords(bytes[4..], CountOf(bytes));
        Some(bytes[..4] + Columns(Records(bytes[4..], CountOf(bytes))))
    case _ => if !WholeUnits(entry.section) then None else CompressAll(CurveOf(entry.section.encoding), bytes)
  }

  function PayloadLength(section: Section): nat {
    if IsPoints(section.encoding) then section.zkeyBytes / 2 else section.zkeyBytes
  }

  /** The region a payload decodes to; `None` where decoding fails (or, below four bytes of coefficients, panics). */
  function DecodePayload(section: Section, payload: seq<Byte>): Option<seq<Byte>>
    requires WholeUnits(section) && |payload| == PayloadLength(section)
  {
    match section.encoding
    case Raw => Some(payload)
    case Coefficients =>
      if |payload| < 4 || COEFFICIENT_RAW * CountOf(payload) + 4 != |payload| then None
      else Some(payload[..4] + Flatten(GatheredAll(payload[4..], CountOf(payload))))
    case _ =>
      PayloadAligned(section);
      DecompressAll(CurveOf(section.encoding), payload)
  }

  /** All points of a point section are on the curve. */
  predicate EntryOnCurve(entry: Entry) {
    IsPoints(entry.section.encoding) && entry.section.zkeyBytes == |entry.bytes| && WholeUnits(entry.section) ==>
      AllOnCurve(CurveOf(entry.section.encoding), entry.bytes)
  }

  lemma SectionRoundTrip(entry: Entry)
    requires FieldCodecLaws() && EntryOk(entry) && EntryOnCurve(entry) && EncodePayload(entry).Some?
    ensures WholeUnits(entry.section) && |EncodePayload(entry).value| == PayloadLength(entry.section)
    ensures DecodePayload(entry.section, EncodePayload(entry).value) == Some(entry.bytes)
  {
    hide FieldCodecLaws, Columns, GatheredAll, Flatten, Records, CompressAll, DecompressAll, AllOnCurve, LittleEndianValue;
    if entry.section.encoding == Coefficients {
      var bytes := entry.bytes;
      var count, records := CountOf(bytes), Records(bytes[4..], CountOf(bytes));
      FlattenRecords(bytes[4..], count);
      ColumnsRoundTrip(records);
      var payload := EncodePayload(entry).value;
      assert payload[..4] == bytes[..4] && payload[4..] == Columns(records);
      assert bytes == bytes[..4] + bytes[4..];
    } else if IsPoints(entry.section.encoding) {
      PointsRoundTrip(CurveOf(entry.section.encoding), entry.bytes);
    }
  }

  // ----- the zkey's layout -----

  function Header(id: nat, length: nat): (bytes: seq<Byte>)
    ensures |bytes| == 12
  {
    LittleEndian(id, 4) + LittleEndian(length, 8)
  }

  /** The sections of what is left of a zkey; nothing may follow the last one. */
  function LayoutFrom(rest: seq<Byte>, count: nat): (entries: Option<seq<Entry>>)
    decreases count
  {
    if count == 0 then if rest == [] then Some([]) else None
    else if |rest| < 12 then None
    else
      var (id, length) := (LittleEndianValue(rest[..4]), LittleEndianValue(rest[4..12]));
      if 12 + length > |rest| then None
      else
        match LayoutFrom(rest[12 + length..], count - 1)
        case None => None
        case Some(entries) => Some([Entry(Section(id, length, ForSection(id)), rest[12..12 + length])] + entries)
  }

  /** `zkey_layout`: the version and every section with its bytes. */
  function ZkeyLayout(zkey: seq<Byte>): Option<(nat, seq<Entry>)> {
    if |zkey| < 12 || zkey[..4] != ZKEY_MAGIC || LittleEndianValue(zkey[8..12]) > MAX_SECTIONS then None
    else
      match LayoutFrom(zkey[12..], LittleEndianValue(zkey[8..12]))
      case None => None
      case Some(entries) => Some((LittleEndianValue(zkey[4..8]), entries))
  }

  /** Sections as a zkey stores them. */
  function Assembled(entries: seq<Entry>): seq<Byte> {
    if entries == [] then []
    else Header(entries[0].section.id, entries[0].section.zkeyBytes) + entries[0].bytes + Assembled(entries[1..])
  }

  ghost predicate EntriesOk(entries: seq<Entry>) {
    forall i | 0 <= i < |entries| :: EntryOk(entries[i])
  }

  lemma Widths()
    ensures Pow2(8 * 4) == LIMB && Pow2(8 * 8) == U64_LIMIT
  {
    PowersOfTwo();
    hide Pow2;
    Pow2Add(32, 32);
  }

  /** A section header is read back as it was written. */
  lemma HeaderParsed(rest: seq<Byte>)
    requires |rest| >= 12
    ensures var (id, length) := (LittleEndianValue(rest[..4]), LittleEndianValue(rest[4..12]));
      id < LIMB && length < U64_LIMIT && Header(id, length) == rest[..12]
  {
    hide LittleEndianValue, LittleEndian, Pow2;
    Widths();
    LittleEndianBound(rest[..4]);
    LittleEndianBound(rest[4..12]);
    LittleEndianEncodes(rest[..4]);
    LittleEndianEncodes(rest[4..12]);
    assert rest[..12] == rest[..4] + rest[4..12];
  }

  lemma HeaderWritten(id: nat, length: nat)
    requires id < LIMB && length < U64_LIMIT
    ensures LittleEndianValue(Header(id, length)[..4]) == id
    ensures LittleEndianValue(Header(id, length)[4..12]) == length
  {
    hide LittleEndianValue, LittleEndian, Pow2;
    Widths();
    LittleEndianDecodes(id, 4);
    LittleEndianDecodes(length, 8);
    assert Header(id, length)[..4] == LittleEndian(id, 4) && Header(id, length)[4..12] == LittleEndian(length, 8);
  }

  /** A layout lists the zkey's bytes, all of them. */
  lemma {:induction false} LayoutAssembles(rest: seq<Byte>, count: nat)
    requires LayoutFrom(rest, count).Some?
    ensures var entries := LayoutFrom(rest, count).value;
      |entries| == count && EntriesOk(entries) && Assembled(entries) == rest
    decreases count
  {
    hide LittleEndianValue, Header, ForSection, Assembled, EntriesOk;
    if count == 0 {
      NothingAssembled();
    } else {
      var id, length := LittleEndianValue(rest[..4]), LittleEndianValue(rest[4..12]);
      HeaderParsed(rest);
      LayoutAssembles(rest[12 + length..], count - 1);
      AssembleOne(Entry(Section(id, length, ForSection(id)), rest[12..12 + length]), LayoutFrom(rest[12 + length..], count - 1).value);
      assert rest == rest[..12] + rest[12..12 + length] + rest[12 + length..];
    }
  }

  lemma NothingAssembled()
    ensures EntriesOk([]) && Assembled([]) == []
  {}

  lemma AssembleOne(entry: Entry, tail: seq<Entry>)
    requires EntryOk(entry) && EntriesOk(tail)
    ensures EntriesOk([entry] + tail)
    ensures Assembled([entry] + tail) == Header(entry.section.id, entry.section.zkeyBytes) + entry.bytes + Assembled(tail)
  {
    hide EntryOk, Header;
    assert ([entry] + tail)[1..] == tail;
  }

  // ----- the body -----

  function TableEntry(section: Section): (bytes: seq<Byte>)
    ensures |bytes| == 13
  {
    Header(section.id, section.zkeyBytes) + [Tag(section.encoding)]
  }

  function Table(entries: seq<Entry>): seq<Byte> {
    if entries == [] then [] else TableEntry(entries[0].section) + Table(entries[1..])
  }

  /** Every payload in order; `None` as soon as one section is refused. */
  function Payloads(entries: seq<Entry>): Option<seq<Byte>>
    requires FieldCodecLaws() && EntriesOk(entries)
  {
    if entries == [] then Some([])
    else
      match EncodePayload(entries[0])
      case None => None
      case Some(payload) =>
        (match Payloads(entries[1..])
         case None => None
         case Some(rest) => Some(payload + rest))
  }

  /** The body `encode` hands to the compressor. */
  function EncodeBody(zkey: seq<Byte>): Option<seq<Byte>>
    requires FieldCodecLaws()
  {
    match ZkeyLayout(zkey)
    case None => None
    case Some((version, entries)) =>
      LayoutAssembles(zkey[12..], LittleEndianValue(zkey[8..12]));
      match Payloads(entries)
      case None => None
      case Some(payloads) => Some(LittleEndian(version, 4) + LittleEndian(|entries|, 4) + Table(entries) + payloads)
  }

  /** The table's sections, the length they add up to, and what follows. */
  function ParseTable(rest: seq<Byte>, count: nat, total: nat): (table: Option<(seq<Section>, nat, seq<Byte>)>)
    ensures table.Some? ==> forall i | 0 <= i < |table.value.0| :: WholeUnits(table.value.0[i])
    decreases count
  {
    if count == 0 then Some(([], total, rest))
    else if |rest| < 13 then None
    else
      match FromTag(rest[12])
      case None => None
      case Some(encoding) =>
        var section := Section(LittleEndianValue(rest[..4]), LittleEndianValue(rest[4..12]), encoding);
        if !WholeUnits(section) || total + 12 + section.zkeyBytes >= U64_LIMIT then None
        else
          match ParseTable(rest[13..], count - 1, total + 12 + section.zkeyBytes)
          case None => None
          case Some((sections, sum, tail)) => Some(([section] + sections, sum, tail))
  }

  /** `read_body_header`. */
  function ReadBodyHeader(body: seq<Byte>, zkeyBytes: nat): (header: Option<(nat, seq<Section>, seq<Byte>)>)
    ensures header.Some? ==> forall i | 0 <= i < |header.value.1| :: WholeUnits(header.value.1[i])
  {
    if |body| < 8 then None
    else
      var count := LittleEndianValue(body[4..8]);
      if count > MAX_SECTIONS || count > (if zkeyBytes < 12 then 0 else zkeyBytes - 12) / 12 then None
      else
        match ParseTable(body[8..], count, 12)
        case None => None
        case Some((sections, total, rest)) =>
          if total != zkeyBytes then None else Some((LittleEndianValue(body[..4]), sections, rest))
  }

  /** The sections of a zkey from their payloads, and what follows the last payload. */
  function DecodeSections(rest: seq<Byte>, sections: seq<Section>): Option<(seq<Byte>, seq<Byte>)>
    requires forall i | 0 <= i < |sections| :: WholeUnits(sections[i])
  {
    if sections == [] then Some(([], rest))
    else
      var length := PayloadLength(sections[0]);
      if |rest| < length then None
      else
        match DecodePayload(sections[0], rest[..length])
        case None => None
        case Some(region) =>
          (match DecodeSections(rest[length..], sections[1..])
           case None => None
           case Some((tail, after)) => Some((Header(sections[0].id, sections[0].zkeyBytes) + region + tail, after)))
  }

  /** `decode_body` before the digest check: the zkey, and the bytes after the last section. */
  function DecodeBody(body: seq<Byte>, zkeyBytes: nat): Option<(seq<Byte>, seq<Byte>)> {
    match ReadBodyHeader(body, zkeyBytes)
    case None => None
    case Some((version, sections, rest)) =>
      match DecodeSections(rest, sections)
      case None => None
      case Some((tail, after)) =>
        Some((ZKEY_MAGIC + LittleEndian(version, 4) + LittleEndian(|sections|, 4) + tail, after))
  }

  // ----- the round trip -----

  function SectionsOf(entries: seq<Entry>): (sections: seq<Section>)
    ensures |sections| == |entries|
  {
    seq(|entries|, i requires 0 <= i < |entries| => entries[i].section)
  }

  lemma {:induction false} PayloadsWhole(entries: seq<Entry>)
    requires FieldCodecLaws() && EntriesOk(entries) && Payloads(entries).Some?
    ensures forall i | 0 <= i < |entries| :: EncodePayload(entries[i]).Some? && WholeUnits(entries[i].section)
    ensures forall i | 0 <= i < |entries| :: WholeUnits(SectionsOf(entries)[i])
  {
    hide FieldCodecLaws, WholeUnits;
    if entries != [] {
      PayloadsWhole(entries[1..]);
      EncodedWhole(entries[0]);
      assert forall i | 1 <= i < |entries| :: entries[i] == entries[1..][i - 1];
    }
  }

  lemma EncodedWhole(entry: Entry)
    requires FieldCodecLaws() && EntryOk(entry) && EncodePayload(entry).Some?
    ensures WholeUnits(entry.section)
  {}

  /** One table entry is read back. */
  lemma TableEntryParsed(section: Section, tail: seq<Byte>)
    requires section.id < LIMB && section.zkeyBytes < U64_LIMIT
    ensures var bytes := TableEntry(section) + tail;
      && |bytes| >= 13 && FromTag(bytes[12]) == Some(section.encoding) && bytes[13..] == tail
      && LittleEndianValue(bytes[..4]) == section.id && LittleEndianValue(bytes[4..12]) == section.zkeyBytes
  {
    hide LittleEndianValue, Header;
    HeaderWritten(section.id, section.zkeyBytes);
    var bytes, header := TableEntry(section) + tail, Header(section.id, section.zkeyBytes);
    assert bytes[..4] == header[..4] && bytes[4..12] == header[4..12];
  }

  /** One table entry in front of the rest of the table. */
  lemma TablePrepend(section: Section, rest: seq<Byte>, count: nat, total: nat)
    requires section.id < LIMB && WholeUnits(section) && total + 12 + section.zkeyBytes < U64_LIMIT
    ensures ParseTable(TableEntry(section) + rest, count + 1, total) ==
      match ParseTable(rest, count, total + 12 + section.zkeyBytes)
      case None => None
      case Some((sections, sum, tail)) => Some(([section] + sections, sum, tail))
  {
    hide LittleEndianValue, TableEntry, WholeUnits;
    TableEntryParsed(section, rest);
  }

  lemma {:induction false} TableParses(entries: seq<Entry>, total: nat, tail: seq<Byte>)
    requires EntriesOk(entries) && (forall i | 0 <= i < |entries| :: WholeUnits(entries[i].section))
    requires total + |Assembled(entries)| < U64_LIMIT
    ensures ParseTable(Table(entries) + tail, |entries|, total) == Some((SectionsOf(entries), total + |Assembled(entries)|, tail))
  {
    hide TableEntry, WholeUnits, Header, ParseTable;
    if entries == [] {
      assert Table(entries) + tail == tail;
      TableEnd(tail, total);
    } else {
      var section, rest := entries[0].section, entries[1..];
      TablePrepend(section, Table(rest) + tail, |rest|, total);
      assert Table(entries) + tail == TableEntry(section) + (Table(rest) + tail);
      TableParses(rest, total + 12 + section.zkeyBytes, tail);
      assert SectionsOf(entries) == [section] + SectionsOf(rest);
    }
  }

  lemma TableEnd(rest: seq<Byte>, total: nat)
    ensures ParseTable(rest, 0, total) == Some(([], total, rest))
  {}

  lemma {:induction false} SectionsDecode(entries: seq<Entry>, tail: seq<Byte>)
    requires FieldCodecLaws() && EntriesOk(entries) && Payloads(entries).Some?
    requires forall i | 0 <= i < |entries| :: EntryOnCurve(entries[i])
    ensures (forall i | 0 <= i < |entries| :: WholeUnits(SectionsOf(entries)[i]))
    ensures DecodeSections(Payloads(entries).value + tail, SectionsOf(entries)) == Some((Assembled(entries), tail))
  {
    hide FieldCodecLaws, EncodePayload, DecodePayload, WholeUnits, EntryOnCurve, PayloadLength;
    PayloadsWhole(entries);
    if entries == [] {
      assert [] + tail == tail;
    } else {
      var entry, rest := entries[0], entries[1..];
      SectionRoundTrip(entry);
      SectionsDecode(rest, tail);
      var payload, payloads := EncodePayload(entry).value, Payloads(rest).value;
      var all := Payloads(entries).value + tail;
      assert all == payload + (payloads + tail);
      assert all[..|payload|] == payload && all[|payload|..] == payloads + tail;
      assert SectionsOf(entries)[1..] == SectionsOf(rest);
    }
  }

  /**
   For every zkey the encoder takes whose points are on their curves, the body decodes back to
   it byte for byte, and ends where the last payload ends.
   */
  lemma BodyRoundTrip(zkey: seq<Byte>)
    requires FieldCodecLaws() && |zkey| < U64_LIMIT && EncodeBody(zkey).Some?
    requires AllPointsOnCurve(zkey)
    ensures DecodeBody(EncodeBody(zkey).value, |zkey|) == Some((zkey, []))
  {
    hide FieldCodecLaws, EntryOnCurve, LittleEndian, LittleEndianValue, Table, Payloads, Assembled, DecodeSections, ParseTable, SectionsOf, WholeUnits;
    var (version, entries) := ZkeyLayout(zkey).value;
    LayoutAssembles(zkey[12..], LittleEndianValue(zkey[8..12]));
    var payloads := Payloads(entries).value;
    PayloadsWhole(entries);
    TableParses(entries, 12, payloads);
    SectionsDecode(entries, []);
    assert payloads + [] == payloads;
    HeadWords(version, |entries|, Table(entries) + payloads, zkey);
    AssembledLength(entries);
    assert EncodeBody(zkey).value == LittleEndian(version, 4) + LittleEndian(|entries|, 4) + (Table(entries) + payloads);
  }

  lemma {:induction false} AssembledLength(entries: seq<Entry>)
    ensures 12 * |entries| <= |Assembled(entries)|
  {
    if entries != [] {
      AssembledLength(entries[1..]);
    }
  }

  /** The version and the count in front of the table, and in front of the zkey's sections. */
  lemma HeadWords(version: nat, count: nat, tail: seq<Byte>, zkey: seq<Byte>)
    requires |zkey| >= 12 && zkey[..4] == ZKEY_MAGIC
    requires version == LittleEndianValue(zkey[4..8]) && count == LittleEndianValue(zkey[8..12]) <= MAX_SECTIONS
    ensures var body := LittleEndian(version, 4) + LittleEndian(count, 4) + tail;
      LittleEndianValue(body[..4]) == version && LittleEndianValue(body[4..8]) == count && body[8..] == tail
    ensures ZKEY_MAGIC + LittleEndian(version, 4) + LittleEndian(count, 4) + zkey[12..] == zkey
  {
    hide LittleEndian, LittleEndianValue, Pow2;
    Widths();
    LittleEndianBound(zkey[4..8]);
    LittleEndianEncodes(zkey[4..8]);
    LittleEndianEncodes(zkey[8..12]);
    LittleEndianDecodes(version, 4);
    LittleEndianDecodes(count, 4);
    var body := LittleEndian(version, 4) + LittleEndian(count, 4) + tail;
    assert body[..4] == LittleEndian(version, 4) && body[4..8] == LittleEndian(count, 4);
    assert zkey == zkey[..4] + zkey[4..8] + zkey[8..12] + zkey[12..];
  }

  // ----- exactly which zkeys round trip -----

  lemma PointsPayload(section: Section, payload: seq<Byte>)
    requires IsPoints(section.encoding) && WholeUnits(section) && |payload| == PayloadLength(section)
    ensures Aligned(CurveOf(section.encoding), |payload|)
    ensures DecodePayload(section, payload) == DecompressAll(CurveOf(section.encoding), payload)
  {
    hide DecompressAll;
    PayloadAligned(section);
  }

  lemma PayloadAligned(section: Section)
    requires IsPoints(section.encoding) && WholeUnits(section)
    ensures Aligned(CurveOf(section.encoding), PayloadLength(section)) && Aligned(CurveOf(section.encoding), 0)
    ensures 2 * PayloadLength(section) == section.zkeyBytes
  {
    match CurveOf(section.encoding)
    case G1 => Halves64(section.zkeyBytes);
    case G2 => Halves128(section.zkeyBytes);
  }

  lemma PointRegionLength(section: Section, payload: seq<Byte>)
    requires FieldCodecLaws() && IsPoints(section.encoding) && WholeUnits(section) && |payload| == PayloadLength(section)
    requires DecodePayload(section, payload).Some?
    ensures |DecodePayload(section, payload).value| == section.zkeyBytes
  {
    hide FieldCodecLaws, DecompressAll, WholeUnits, PayloadLength, Aligned, DecodePayload, RawBytes;
    PayloadAligned(section);
    PointsPayload(section, payload);
    DecompressedLengths(CurveOf(section.encoding), payload);
  }

  lemma CoefficientRegionLength(payload: seq<Byte>)
    requires |payload| >= 4 && COEFFICIENT_RAW * CountOf(payload) + 4 == |payload|
    ensures |payload[..4] + Flatten(GatheredAll(payload[4..], CountOf(payload)))| == |payload|
  {
    hide Flatten, LittleEndianValue, Gathered;
    var records := GatheredAll(payload[4..], CountOf(payload));
    assert AllWide(records, COEFFICIENT_RAW);
    FlattenLength(records, COEFFICIENT_RAW);
  }

  /** A decoded region fills its section. */
  lemma RegionLength(section: Section, payload: seq<Byte>)
    requires FieldCodecLaws() && WholeUnits(section) && |payload| == PayloadLength(section)
    requires DecodePayload(section, payload).Some?
    ensures |DecodePayload(section, payload).value| == section.zkeyBytes
  {
    hide FieldCodecLaws, DecompressAll, Flatten, GatheredAll, LittleEndianValue, WholeUnits;
    if section.encoding == Coefficients {
      CoefficientRegionLength(payload);
    } else if IsPoints(section.encoding) {
      PointRegionLength(section, payload);
    }
  }

  lemma SectionExact(entry: Entry)
    requires FieldCodecLaws() && EntryOk(entry) && EncodePayload(entry).Some?
    requires WholeUnits(entry.section) && |EncodePayload(entry).value| == PayloadLength(entry.section)
    requires DecodePayload(entry.section, EncodePayload(entry).value) == Some(entry.bytes)
    ensures EntryOnCurve(entry)
  {
    hide FieldCodecLaws, CompressAll, DecompressAll, AllOnCurve, Columns, GatheredAll, Flatten, Records, LittleEndianValue;
    hide RawAligned, Aligned, CountOf;
    if IsPoints(entry.section.encoding) {
      PayloadAligned(entry.section);
      PointsExact(CurveOf(entry.section.encoding), entry.bytes);
    }
  }

  lemma EncodedLength(entry: Entry)
    requires FieldCodecLaws() && EntryOk(entry) && EncodePayload(entry).Some?
    ensures WholeUnits(entry.section) && |EncodePayload(entry).value| == PayloadLength(entry.section)
  {
    hide FieldCodecLaws, CompressAll, Columns, Records, LittleEndianValue;
    if entry.section.encoding == Coefficients {
      FlattenRecords(entry.bytes[4..], CountOf(entry.bytes));
      ColumnsLength(Records(entry.bytes[4..], CountOf(entry.bytes)));
    }
  }

  /** Sections that come back have every point on its curve. */
  lemma {:induction false} SectionsExact(entries: seq<Entry>, tail: seq<Byte>)
    requires FieldCodecLaws() && EntriesOk(entries) && Payloads(entries).Some?
    requires forall i | 0 <= i < |entries| :: WholeUnits(SectionsOf(entries)[i])
    requires DecodeSections(Payloads(entries).value + tail, SectionsOf(entries)).Some?
    requires DecodeSections(Payloads(entries).value + tail, SectionsOf(entries)).value.0 == Assembled(entries)
    ensures forall i | 0 <= i < |entries| :: EntryOnCurve(entries[i])
  {
    hide FieldCodecLaws, EncodePayload, DecodePayload, WholeUnits, EntryOnCurve, PayloadLength, Header;
    if entries != [] {
      var entry, rest := entries[0], entries[1..];
      EncodedLength(entry);
      var payload, payloads := EncodePayload(entry).value, Payloads(rest).value;
      var all := Payloads(entries).value + tail;
      assert all == payload + (payloads + tail);
      assert all[..|payload|] == payload && all[|payload|..] == payloads + tail;
      assert SectionsOf(entries)[1..] == SectionsOf(rest) && SectionsOf(entries)[0] == entry.section;
      PayloadsWhole(rest);
      RegionLength(entry.section, payload);
      var region := DecodePayload(entry.section, payload).value;
      var decoded := DecodeSections(payloads + tail, SectionsOf(rest)).value.0;
      var header := Header(entry.section.id, entry.section.zkeyBytes);
      EqualParts(header + region, decoded, header + entry.bytes, Assembled(rest));
      EqualParts(header, region, header, entry.bytes);
      SectionExact(entry);
      SectionsExact(rest, tail);
      assert forall i | 1 <= i < |entries| :: entries[i] == rest[i - 1];
    }
  }

  /** The exact condition: an accepted zkey's body decodes back to it if and only if all its points are on their curves. */
  lemma BodyRoundTripIff(zkey: seq<Byte>)
    requires FieldCodecLaws() && |zkey| < U64_LIMIT && EncodeBody(zkey).Some?
    ensures DecodeBody(EncodeBody(zkey).value, |zkey|) == Some((zkey, [])) <==> AllPointsOnCurve(zkey)
  {
    if AllPointsOnCurve(zkey) {
      BodyRoundTrip(zkey);
    } else if DecodeBody(EncodeBody(zkey).value, |zkey|) == Some((zkey, [])) {
      BodyExact(zkey);
    }
    hide EncodeBody, DecodeBody;
  }

  /** Every point of every point section is on its curve. */
  predicate AllPointsOnCurve(zkey: seq<Byte>)
    requires ZkeyLayout(zkey).Some?
  {
    forall i | 0 <= i < |ZkeyLayout(zkey).value.1| :: EntryOnCurve(ZkeyLayout(zkey).value.1[i])
  }

  lemma BodyExact(zkey: seq<Byte>)
    requires FieldCodecLaws() && |zkey| < U64_LIMIT && EncodeBody(zkey).Some?
    requires DecodeBody(EncodeBody(zkey).value, |zkey|) == Some((zkey, []))
    ensures AllPointsOnCurve(zkey)
  {
    hide FieldCodecLaws, EntryOnCurve, LittleEndian, LittleEndianValue, Table, Payloads, Assembled, DecodeSections, ParseTable, SectionsOf, WholeUnits;
    var (version, entries) := ZkeyLayout(zkey).value;
    LayoutAssembles(zkey[12..], LittleEndianValue(zkey[8..12]));
    var payloads := Payloads(entries).value;
    PayloadsWhole(entries);
    TableParses(entries, 12, payloads);
    HeadWords(version, |entries|, Table(entries) + payloads, zkey);
    AssembledLength(entries);
    assert EncodeBody(zkey).value == LittleEndian(version, 4) + LittleEndian(|entries|, 4) + (Table(entries) + payloads);
    assert payloads + [] == payloads;
    var head := ZKEY_MAGIC + LittleEndian(version, 4) + LittleEndian(|entries|, 4);
    EqualParts(head, DecodeSections(payloads, SectionsOf(entries)).value.0, head, zkey[12..]);
    SectionsExact(entries, []);
  }
}
