/**
 The compact zkey encoder and decoder as they run: loops over sections, points and columns
 against a reader that gives up its bytes once, proved to compute the codec's functions.
 */
module CompactZkeyCodec {
  import opened Bytes
  import opened Binary
  import opened LittleEndianBytes
  import opened Sha256
  import opened TreeErrors
  import opened CompactPoints
  import opened CompactZkey

  datatype ZkeyError =
    | NotAZkey
    | Lossy
    | Malformed
    | TooLarge
    | InvalidPoint(section: nat, index: nat)
    | DigestMismatch
    | Zstd
    | Panicked

  /** What decoding a body can fail with before its digest is compared. */
  predicate BodyError(error: ZkeyError) {
    error == Malformed || error == Panicked || error.InvalidPoint?
  }

  datatype Outcome<+T> = Good(value: T) | Bad(error: ZkeyError)

  const POINTS_PER_BATCH: nat := 65536
  const COEFFICIENTS_PER_BATCH: nat := 65536

  function Least(a: nat, b: nat): nat {
    if a <= b then a else b
  }

  /** The decompressed body, consumed from the front. */
  class BodyReader {
    var rest: seq<Byte>

    constructor (body: seq<Byte>)
      ensures rest == body
    {
      rest := body;
    }

    /** `read_exact`: all `n` bytes, or an error. */
    method ReadExact(n: nat) returns (outcome: Outcome<seq<Byte>>)
      modifies this
      ensures outcome.Good? <==> n <= |old(rest)|
      ensures outcome.Good? ==> outcome.value == old(rest)[..n] && rest == old(rest)[n..]
      ensures outcome.Bad? ==> outcome.error == Malformed && rest == old(rest)
    {
      if n > |rest| {
        return Bad(Malformed);
      }
      outcome := Good(rest[..n]);
      rest := rest[n..];
    }
  }

  // ----- encoding -----

  /** Compress a point section point by point. */
  method EncodePoints(curve: Curve, bytes: seq<Byte>) returns (outcome: Outcome<seq<Byte>>)
    requires FieldCodecLaws()
    ensures outcome.Good? <==> RawAligned(curve, |bytes|) && CompressAll(curve, bytes).Some?
    ensures outcome.Good? ==> outcome.value == CompressAll(curve, bytes).value
    ensures outcome.Bad? ==> outcome.error == Lossy
  {
    hide FieldCodecLaws, ParsePoint, CompressPoint, Canonical;
    if !RawAligned(curve, |bytes|) {
      return Bad(Lossy);
    }
    var body: seq<Byte>, left := [], bytes;
    assert Continues(CompressAll(curve, bytes), [], CompressAll(curve, bytes)) by { NothingBefore(CompressAll(curve, bytes)); }
    while left != []
      invariant RawAligned(curve, |left|)
      invariant Continues(CompressAll(curve, bytes), body, CompressAll(curve, left))
      decreases |left|
    {
      RawPeel(curve, |left|);
      var raw := left[..RawBytes(curve)];
      var point := ParsePoint(curve, raw);
      if point.None? {
        return Bad(Lossy);
      }
      ParsedPoint(curve, raw);
      var (x, y) := point.value;
      ContinueStep(CompressAll(curve, bytes), body, CompressAll(curve, left), CompressPoint(curve, x, y),
                   CompressAll(curve, left[RawBytes(curve)..]));
      body := body + CompressPoint(curve, x, y);
      left := left[RawBytes(curve)..];
    }
    NothingAfter(CompressAll(curve, bytes), body);
    outcome := Good(body);
  }

  /** `whole` is `done` followed by what `left` gives, and fails exactly when `left` fails. */
  predicate Continues(whole: Option<seq<Byte>>, done: seq<Byte>, left: Option<seq<Byte>>) {
    whole == match left case None => None case Some(tail) => Some(done + tail)
  }

  lemma NothingBefore(whole: Option<seq<Byte>>)
    ensures Continues(whole, [], whole)
  {
    assert whole.Some? ==> [] + whole.value == whole.value;
  }

  lemma NothingAfter(whole: Option<seq<Byte>>, done: seq<Byte>)
    requires Continues(whole, done, Some([]))
    ensures whole == Some(done)
  {
    assert done + [] == done;
  }

  lemma ContinueStep(whole: Option<seq<Byte>>, done: seq<Byte>, left: Option<seq<Byte>>, piece: seq<Byte>, rest: Option<seq<Byte>>)
    requires Continues(whole, done, left)
    requires left == match rest case None => None case Some(tail) => Some(piece + tail)
    ensures Continues(whole, done + piece, rest)
  {
    assert rest.Some? ==> done + (piece + rest.value) == done + piece + rest.value;
  }

  /** Copy one column out of every record. */
  method CopyColumn(records: seq<seq<Byte>>, offset: nat, width: nat) returns (column: seq<Byte>)
    requires AllWide(records, COEFFICIENT_RAW) && offset + width <= COEFFICIENT_RAW
    ensures column == Flatten(Column(records, offset, width))
  {
    column := [];
    ghost var cells := Column(records, offset, width);
    for r := 0 to |records|
      invariant column == Flatten(cells[..r])
    {
      column := column + records[r][offset..offset + width];
      assert cells[..r + 1][..r] == cells[..r] && cells[..r + 1][r] == cells[r];
    }
    assert cells[..|records|] == cells;
  }

  /** `encode_section`'s coefficient arm: the count, three index columns, the values. */
  method EncodeCoefficients(bytes: seq<Byte>) returns (outcome: Outcome<seq<Byte>>)
    ensures outcome.Good? <==> |bytes| >= 4 && COEFFICIENT_RAW * CountOf(bytes) + 4 == |bytes|
    ensures outcome.Good? ==>
      AllWide(Records(bytes[4..], CountOf(bytes)), COEFFICIENT_RAW) &&
      outcome.value == bytes[..4] + Columns(Records(bytes[4..], CountOf(bytes)))
    ensures outcome.Bad? ==> outcome.error == Lossy
  {
    hide Flatten, Column, LittleEndianValue;
    if |bytes| < 4 || COEFFICIENT_RAW * CountOf(bytes) + 4 != |bytes| {
      return Bad(Lossy);
    }
    var records := Records(bytes[4..], CountOf(bytes));
    FlattenRecords(bytes[4..], CountOf(bytes));
    var body := bytes[..4];
    ghost var columns: seq<Byte> := [];
    for column := 0 to 3
      invariant body == bytes[..4] + columns
      invariant column == 0 ==> columns == []
      invariant column == 1 ==> columns == Flatten(Column(records, 0, 4))
      invariant column == 2 ==> columns == Flatten(Column(records, 0, 4)) + Flatten(Column(records, 4, 4))
      invariant column == 3 ==>
        columns == Flatten(Column(records, 0, 4)) + Flatten(Column(records, 4, 4)) + Flatten(Column(records, 8, 4))
    {
      var cells := CopyColumn(records, column * 4, 4);
      body := body + cells;
      columns := columns + cells;
    }
    var values := CopyColumn(records, 12, 32);
    outcome := Good(body + values);
    assert body + values == bytes[..4] + (columns + values);
  }

  /** `encode_section`. */
  method EncodeSection(entry: Entry) returns (outcome: Outcome<seq<Byte>>)
    requires FieldCodecLaws() && EntryOk(entry)
    ensures outcome.Good? <==> EncodePayload(entry).Some?
    ensures outcome.Good? ==> outcome.value == EncodePayload(entry).value
    ensures outcome.Bad? ==> outcome.error == Lossy
  {
    hide FieldCodecLaws, CompressAll, Columns, Records, LittleEndianValue;
    match entry.section.encoding {
      case Raw => outcome := Good(entry.bytes);
      case Coefficients => outcome := EncodeCoefficients(entry.bytes);
      case _ => outcome := EncodePoints(CurveOf(entry.section.encoding), entry.bytes);
    }
  }

  // ----- decoding -----

  /** Whether the compressed point at position `k` of a list is there and decompresses. */
  predicate PointDecodes(curve: Curve, compact: seq<Byte>, k: nat) {
    var at := k * CompactBytes(curve);
    0 <= at <= at + CompactBytes(curve) <= |compact| && DecompressPoint(curve, compact[at..at + CompactBytes(curve)]).Some?
  }

  /** Whether it is there and does not decompress. */
  predicate PointFails(curve: Curve, compact: seq<Byte>, k: nat) {
    var at := k * CompactBytes(curve);
    0 <= at <= at + CompactBytes(curve) <= |compact| && DecompressPoint(curve, compact[at..at + CompactBytes(curve)]).None?
  }

  /** Decompress one batch, stopping at the first point that is not one. */
  method DecodeBatch(curve: Curve, compact: seq<Byte>) returns (raw: Option<seq<Byte>>, failed: nat)
    requires Aligned(curve, |compact|)
    ensures raw == DecompressAll(curve, compact)
    ensures forall k | 0 <= k < failed :: PointDecodes(curve, compact, k)
    ensures if raw.None? then PointFails(curve, compact, failed) else failed * CompactBytes(curve) == |compact|
  {
    hide DecompressPoint, PointDecodes, PointFails;
    var region: seq<Byte>, left := [], compact;
    failed := 0;
    NothingBefore(DecompressAll(curve, compact));
    while left != []
      invariant Aligned(curve, |left|)
      invariant Continues(DecompressAll(curve, compact), region, DecompressAll(curve, left))
      invariant 0 <= failed * CompactBytes(curve) <= |compact| && left == compact[failed * CompactBytes(curve)..]
      invariant forall k | 0 <= k < failed :: PointDecodes(curve, compact, k)
      decreases |left|
    {
      AlignedPeel(curve, |left|);
      PointAt(curve, compact, failed);
      var point := DecompressPoint(curve, left[..CompactBytes(curve)]);
      if point.None? {
        return None, failed;
      }
      ContinueStep(DecompressAll(curve, compact), region, DecompressAll(curve, left), point.value,
                   DecompressAll(curve, left[CompactBytes(curve)..]));
      region := region + point.value;
      left := left[CompactBytes(curve)..];
      failed := failed + 1;
    }
    NothingAfter(DecompressAll(curve, compact), region);
    raw := Some(region);
  }

  /** The point at position `k` is the first of what follows the `k` before it. */
  lemma PointAt(curve: Curve, compact: seq<Byte>, k: nat)
    requires 0 <= k * CompactBytes(curve) && k * CompactBytes(curve) + CompactBytes(curve) <= |compact|
    ensures (k + 1) * CompactBytes(curve) == k * CompactBytes(curve) + CompactBytes(curve)
    ensures var left := compact[k * CompactBytes(curve)..];
      && (PointDecodes(curve, compact, k) <==> DecompressPoint(curve, left[..CompactBytes(curve)]).Some?)
      && (PointFails(curve, compact, k) <==> DecompressPoint(curve, left[..CompactBytes(curve)]).None?)
      && left[CompactBytes(curve)..] == compact[(k + 1) * CompactBytes(curve)..]
  {
    hide DecompressPoint;
    MulDistributes(k, 1, CompactBytes(curve));
    var (at, n) := (k * CompactBytes(curve), CompactBytes(curve));
    assert compact[at..][..n] == compact[at..at + n] && compact[at..][n..] == compact[at + n..];
  }

  /** Two decoded parts end to end; either failing fails the whole. */
  function Join(a: Option<seq<Byte>>, b: Option<seq<Byte>>): Option<seq<Byte>> {
    match (a, b) case (Some(x), Some(y)) => Some(x + y) case _ => None
  }

  lemma JoinAssociates(a: Option<seq<Byte>>, b: Option<seq<Byte>>, c: Option<seq<Byte>>)
    ensures Join(Join(a, b), c) == Join(a, Join(b, c))
  {
    if a.Some? && b.Some? && c.Some? {
      assert a.value + b.value + c.value == a.value + (b.value + c.value);
    }
  }

  lemma JoinEmpty(b: Option<seq<Byte>>)
    ensures Join(Some([]), b) == b
  {
    assert b.Some? ==> [] + b.value == b.value;
  }

  lemma DecompressPrepend(curve: Curve, point: seq<Byte>, tail: seq<Byte>)
    requires |point| == CompactBytes(curve) && Aligned(curve, |tail|)
    ensures Aligned(curve, |point + tail|)
    ensures DecompressAll(curve, point + tail) == Join(DecompressPoint(curve, point), DecompressAll(curve, tail))
  {
    hide DecompressPoint, Aligned;
    UnitAligned(curve);
    AlignedSum(curve, |point|, |tail|);
    assert (point + tail)[..CompactBytes(curve)] == point && (point + tail)[CompactBytes(curve)..] == tail;
  }

  /** Batches decode like the whole. */
  lemma {:induction false} DecompressConcat(curve: Curve, a: seq<Byte>, b: seq<Byte>)
    requires Aligned(curve, |a|) && Aligned(curve, |b|)
    ensures Aligned(curve, |a + b|)
    ensures DecompressAll(curve, a + b) == Join(DecompressAll(curve, a), DecompressAll(curve, b))
    decreases |a|
  {
    hide DecompressPoint, DecompressAll, Join, Aligned, CompactBytes;
    AlignedSum(curve, |a|, |b|);
    if a == [] {
      assert a + b == b;
      EmptyDecompresses(curve);
      JoinEmpty(DecompressAll(curve, b));
    } else {
      AlignedPeel(curve, |a|);
      var n := CompactBytes(curve);
      var point, tail := a[..n], a[n..];
      AlignedSum(curve, |tail|, |b|);
      DecompressConcat(curve, tail, b);
      assert a == point + tail && a + b == point + (tail + b);
      DecompressPrepend(curve, point, tail);
      DecompressPrepend(curve, point, tail + b);
      JoinAssociates(DecompressPoint(curve, point), DecompressAll(curve, tail), DecompressAll(curve, b));
    }
  }

  /** `decode_points`: read and decompress one batch at a time. */
  method DecodePoints(reader: BodyReader, section: Section) returns (outcome: Outcome<seq<Byte>>)
    requires IsPoints(section.encoding) && WholeUnits(section)
    modifies reader
    ensures var length := PayloadLength(section);
      outcome.Good? <==> length <= |old(reader.rest)| && DecodePayload(section, old(reader.rest)[..length]).Some?
    ensures outcome.Good? ==>
      outcome.value == DecodePayload(section, old(reader.rest)[..PayloadLength(section)]).value &&
      reader.rest == old(reader.rest)[PayloadLength(section)..]
    ensures outcome.Bad? ==> outcome.error == Malformed || outcome.error.InvalidPoint?
    ensures outcome.Bad? && outcome.error.InvalidPoint? ==>
      && outcome.error.section == section.id
      && (forall k | 0 <= k < outcome.error.index :: PointDecodes(CurveOf(section.encoding), old(reader.rest), k))
      && PointFails(CurveOf(section.encoding), old(reader.rest), outcome.error.index)
  {
    hide DecompressPoint, DecompressAll, Aligned, CompactBytes, DecodePayload, PayloadLength, WholeUnits, PointDecodes, PointFails;
    var curve := CurveOf(section.encoding);
    var length := PayloadLength(section);
    PayloadAligned(section);
    var region: seq<Byte> := [];
    var done, batch := 0, 0;
    ghost var all := reader.rest;
    ghost var points := 0;
    EmptyDecompresses(curve);
    if length <= |all| {
      PointsPayload(section, all[..length]);
    }
    while done < length
      invariant done <= length && done <= |all| && Aligned(curve, done) && reader.rest == all[done..]
      invariant DecompressAll(curve, all[..done]) == Some(region)
      invariant points * CompactBytes(curve) == done && (done < length ==> points == batch * POINTS_PER_BATCH)
      invariant forall k | 0 <= k < points :: PointDecodes(curve, all, k)
      decreases length - done
    {
      var size := Least(length - done, POINTS_PER_BATCH * CompactBytes(curve));
      AlignedSum(curve, length, done);
      BatchAligned(curve);
      AlignedSum(curve, done, size);
      var read := reader.ReadExact(size);
      if read.Bad? {
        return Bad(read.error);
      }
      assert all[..done + size] == all[..done] + read.value;
      DecompressConcat(curve, all[..done], read.value);
      var raw, failed := DecodeBatch(curve, read.value);
      BatchPoints(curve, all, points, read.value, failed);
      if raw.None? {
        AlignedSum(curve, length, done + size);
        FailedBatch(curve, all[..done + size], if length <= |all| then all[done + size..length] else []);
        assert length <= |all| ==> all[..length] == all[..done + size] + all[done + size..length];
        return Bad(InvalidPoint(section.id, batch * POINTS_PER_BATCH + failed));
      }
      if size == POINTS_PER_BATCH * CompactBytes(curve) {
        SameCount(failed, POINTS_PER_BATCH, CompactBytes(curve));
      }
      points := points + failed;
      region := region + raw.value;
      done := done + size;
      batch := batch + 1;
    }
    outcome := Good(region);
  }

  /** What a batch says of its points holds of the points of the whole list. */
  lemma BatchPoints(curve: Curve, all: seq<Byte>, points: nat, batch: seq<Byte>, failed: nat)
    requires var at := points * CompactBytes(curve); 0 <= at && at + |batch| <= |all| && batch == all[at..at + |batch|]
    requires forall k | 0 <= k < failed :: PointDecodes(curve, batch, k)
    requires forall k | 0 <= k < points :: PointDecodes(curve, all, k)
    ensures forall k | 0 <= k < points + failed :: PointDecodes(curve, all, k)
    ensures PointFails(curve, batch, failed) ==> PointFails(curve, all, points + failed)
    ensures (points + failed) * CompactBytes(curve) == points * CompactBytes(curve) + failed * CompactBytes(curve)
  {
    hide PointDecodes, PointFails;
    MulDistributes(points, failed, CompactBytes(curve));
    forall k | points <= k < points + failed
      ensures PointDecodes(curve, all, k)
    {
      PointShifts(curve, all, points, batch, k - points);
    }
    PointShifts(curve, all, points, batch, failed);
  }

  lemma PointShifts(curve: Curve, all: seq<Byte>, points: nat, batch: seq<Byte>, k: nat)
    requires var at := points * CompactBytes(curve); 0 <= at && at + |batch| <= |all| && batch == all[at..at + |batch|]
    ensures PointDecodes(curve, batch, k) ==> PointDecodes(curve, all, points + k)
    ensures PointFails(curve, batch, k) ==> PointFails(curve, all, points + k)
  {
    hide DecompressPoint;
    var n := CompactBytes(curve);
    MulDistributes(points, k, n);
    if 0 <= k * n && k * n + n <= |batch| {
      SliceOfSlice(all, points * n, |batch|, k * n, n);
    }
  }

  lemma SameCount(a: nat, b: nat, unit: nat)
    requires unit > 0 && a * unit == b * unit
    ensures a == b
  {
    MulDistributes(a - b, b, unit);
    if a > b {
      MulMonotone(1, a - b, unit);
    } else if b > a {
      MulMonotone(1, b - a, unit);
    }
  }

  lemma BatchAligned(curve: Curve)
    ensures Aligned(curve, POINTS_PER_BATCH * CompactBytes(curve)) && POINTS_PER_BATCH * CompactBytes(curve) > 0
  {
    assert POINTS_PER_BATCH * CompactBytes(curve) == match curve case G1 => 2097152 case G2 => 4194304;
  }

  lemma EmptyDecompresses(curve: Curve)
    ensures DecompressAll(curve, []) == Some([])
  {}

  lemma FailedBatch(curve: Curve, a: seq<Byte>, b: seq<Byte>)
    requires Aligned(curve, |a|) && Aligned(curve, |b|) && DecompressAll(curve, a).None?
    ensures Aligned(curve, |a + b|) && DecompressAll(curve, a + b).None?
  {
    hide DecompressAll;
    DecompressConcat(curve, a, b);
  }

  /** The bytes of cell `r` in a column of the given width. */
  function Cell(column: seq<Byte>, width: nat, r: nat): seq<Byte>
    requires r * width + width <= |column| && 0 <= r * width
  {
    column[r * width..r * width + width]
  }

  lemma CellFits(count: nat, width: nat, r: nat)
    requires r < count
    ensures 0 <= r * width && r * width + width <= count * width
  {
    MulDistributes(r, 1, width);
    MulMonotone(r + 1, count, width);
  }

  /** A batch of a column is the column from there on. */
  lemma CellOfBatch(column: seq<Byte>, width: nat, done: nat, entries: nat, e: nat)
    requires e < entries && 0 <= done * width && done * width + entries * width <= |column|
    ensures 0 <= e * width && e * width + width <= entries * width
    ensures 0 <= (done + e) * width && (done + e) * width + width <= |column|
    ensures Cell(column[done * width..done * width + entries * width], width, e) == Cell(column, width, done + e)
  {
    CellFits(entries, width, e);
    MulDistributes(done, e, width);
    SliceOfSlice(column, done * width, entries * width, e * width, width);
  }

  lemma SliceOfSlice(bytes: seq<Byte>, start: nat, size: nat, from: nat, count: nat)
    requires start + size <= |bytes| && from + count <= size
    ensures bytes[start..start + size][from..from + count] == bytes[start + from..start + from + count]
  {
    var part := bytes[start..start + size];
    var (a, b) := (part[from..from + count], bytes[start + from..start + from + count]);
    forall i | 0 <= i < count
      ensures a[i] == b[i]
    {
      assert a[i] == part[from + i] == bytes[start + from + i];
    }
  }

  function Overwritten(record: seq<Byte>, offset: nat, value: seq<Byte>): (r: seq<Byte>)
    requires offset + |value| <= |record|
    ensures |r| == |record|
  {
    record[..offset] + value + record[offset + |value|..]
  }

  /** Read one column, a batch at a time, and write it into its place in every record. */
  method FillColumn(reader: BodyReader, records: seq<seq<Byte>>, offset: nat, width: nat) returns (outcome: Outcome<seq<seq<Byte>>>)
    requires AllWide(records, COEFFICIENT_RAW) && 0 < width && offset + width <= COEFFICIENT_RAW
    modifies reader
    ensures outcome.Good? <==> |records| * width <= |old(reader.rest)|
    ensures outcome.Bad? ==> outcome.error == Malformed
    ensures outcome.Good? ==>
      reader.rest == old(reader.rest)[|records| * width..] && |outcome.value| == |records| &&
      AllWide(outcome.value, COEFFICIENT_RAW) &&
      forall r | 0 <= r < |records| ::
        0 <= r * width && r * width + width <= |old(reader.rest)| &&
        outcome.value[r] == Overwritten(records[r], offset, Cell(old(reader.rest), width, r))
  {
    var filled := records;
    var done := 0;
    ghost var column := reader.rest;
    while done < |records|
      invariant done <= |records| == |filled| && AllWide(filled, COEFFICIENT_RAW)
      invariant 0 <= done * width <= |column| && reader.rest == column[done * width..]
      invariant forall r | 0 <= r < done ::
        0 <= r * width && r * width + width <= |column| && filled[r] == Overwritten(records[r], offset, Cell(column, width, r))
      invariant forall r | done <= r < |records| :: filled[r] == records[r]
      decreases |records| - done
    {
      var entries := Least(|records| - done, COEFFICIENTS_PER_BATCH);
      MulDistributes(done, entries, width);
      MulMonotone(done + entries, |records|, width);
      MulMonotone(0, entries, width);
      var read := reader.ReadExact(entries * width);
      if read.Bad? {
        return Bad(read.error);
      }
      assert read.value == column[done * width..done * width + entries * width];
      filled := FillBatch(filled, read.value, offset, width, done, entries, column);
      done := done + entries;
    }
    outcome := Good(filled);
  }

  /** The values of one batch into the records it covers. */
  method FillBatch(records: seq<seq<Byte>>, values: seq<Byte>, offset: nat, width: nat, done: nat, entries: nat, ghost column: seq<Byte>)
    returns (filled: seq<seq<Byte>>)
    requires AllWide(records, COEFFICIENT_RAW) && offset + width <= COEFFICIENT_RAW && done + entries <= |records|
    requires 0 <= done * width && 0 <= entries * width && done * width + entries * width <= |column|
    requires values == column[done * width..done * width + entries * width]
    ensures |filled| == |records| && AllWide(filled, COEFFICIENT_RAW)
    ensures forall r | 0 <= r < done :: filled[r] == records[r]
    ensures forall r | done <= r < done + entries ::
      0 <= r * width && r * width + width <= |column| && filled[r] == Overwritten(records[r], offset, Cell(column, width, r))
    ensures forall r | done + entries <= r < |records| :: filled[r] == records[r]
  {
    filled := records;
    for e := 0 to entries
      invariant |filled| == |records| && AllWide(filled, COEFFICIENT_RAW)
      invariant forall r | 0 <= r < done :: filled[r] == records[r]
      invariant forall r | done <= r < done + e ::
        0 <= r * width && r * width + width <= |column| && filled[r] == Overwritten(records[r], offset, Cell(column, width, r))
      invariant forall r | done + e <= r < |records| :: filled[r] == records[r]
    {
      CellOfBatch(column, width, done, entries, e);
      var value := values[e * width..e * width + width];
      filled := filled[done + e := Overwritten(filled[done + e], offset, value)];
    }
  }

  /** The four columns written into a blank record make up the gathered record. */
  lemma FilledRecord(columns: seq<Byte>, rest: seq<Byte>, count: nat, r: nat, blank: seq<Byte>)
    requires |columns| == COEFFICIENT_RAW * count && r < count && columns <= rest && |blank| == COEFFICIENT_RAW
    ensures
      Overwritten(Overwritten(Overwritten(Overwritten(blank, 0, Cell(rest, 4, r)), 4, Cell(rest[4 * count..], 4, r)),
                              8, Cell(rest[4 * count..][4 * count..], 4, r)),
                  12, Cell(rest[4 * count..][4 * count..][4 * count..], 32, r)) == Gathered(columns, count, r)
  {
    var (a, b) := (Cell(rest, 4, r), Cell(rest[4 * count..], 4, r));
    var (c, d) := (Cell(rest[4 * count..][4 * count..], 4, r), Cell(rest[4 * count..][4 * count..][4 * count..], 32, r));
    FourWrites(blank, a, b, c, d);
    CellsOfColumns(columns, rest, count, r);
  }

  lemma FourWrites(blank: seq<Byte>, a: seq<Byte>, b: seq<Byte>, c: seq<Byte>, d: seq<Byte>)
    requires |blank| == COEFFICIENT_RAW && |a| == |b| == |c| == 4 && |d| == 32
    ensures Overwritten(Overwritten(Overwritten(Overwritten(blank, 0, a), 4, b), 8, c), 12, d) == a + b + c + d
  {
    var one := Overwritten(blank, 0, a);
    var two := Overwritten(one, 4, b);
    var three := Overwritten(two, 8, c);
    assert one[..4] == a;
    assert two[..8] == a + b;
    assert three[..12] == a + b + c;
  }

  lemma CellsOfColumns(columns: seq<Byte>, rest: seq<Byte>, count: nat, r: nat)
    requires |columns| == COEFFICIENT_RAW * count && r < count && columns <= rest
    ensures Cell(rest, 4, r) == columns[4 * r..4 * r + 4]
    ensures Cell(rest[4 * count..], 4, r) == columns[4 * count + 4 * r..4 * count + 4 * r + 4]
    ensures Cell(rest[4 * count..][4 * count..], 4, r) == columns[8 * count + 4 * r..8 * count + 4 * r + 4]
    ensures Cell(rest[4 * count..][4 * count..][4 * count..], 32, r) == columns[12 * count + 32 * r..12 * count + 32 * r + 32]
  {
    var one, two := rest[4 * count..], rest[4 * count..][4 * count..];
    assert two == rest[8 * count..] && two[4 * count..] == rest[12 * count..];
  }

  /** `decode_coefficients`; a section below four bytes cannot hold its own count and panics. */
  method DecodeCoefficients(reader: BodyReader, section: Section) returns (outcome: Outcome<seq<Byte>>)
    requires section.encoding == Coefficients
    modifies reader
    ensures outcome.Good? <==> section.zkeyBytes <= |old(reader.rest)| && DecodePayload(section, old(reader.rest)[..section.zkeyBytes]).Some?
    ensures outcome.Good? ==>
      outcome.value == DecodePayload(section, old(reader.rest)[..section.zkeyBytes]).value &&
      reader.rest == old(reader.rest)[section.zkeyBytes..]
    ensures outcome == Bad(Panicked) <==> section.zkeyBytes < 4
    ensures outcome.Bad? ==> BodyError(outcome.error)
  {
    hide Flatten, Gathered, LittleEndianValue;
    if section.zkeyBytes < 4 {
      return Bad(Panicked);
    }
    ghost var body := reader.rest;
    var head := reader.ReadExact(4);
    if head.Bad? {
      return Bad(head.error);
    }
    var count := LittleEndianValue(head.value);
    assert section.zkeyBytes <= |body| ==> CountOf(body[..section.zkeyBytes]) == count by {
      assert section.zkeyBytes <= |body| ==> body[..section.zkeyBytes][..4] == body[..4];
    }
    if COEFFICIENT_RAW * count + 4 != section.zkeyBytes {
      return Bad(Malformed);
    }
    var records := FillColumns(reader, count);
    if records.Bad? {
      return Bad(records.error);
    }
    assert body[..section.zkeyBytes][4..] == body[4..][..COEFFICIENT_RAW * count];
    assert body[..section.zkeyBytes][..4] == head.value;
    outcome := Good(head.value + Flatten(records.value));
  }

  /** All four columns, into blank records. */
  method FillColumns(reader: BodyReader, count: nat) returns (outcome: Outcome<seq<seq<Byte>>>)
    modifies reader
    ensures outcome.Good? <==> COEFFICIENT_RAW * count <= |old(reader.rest)|
    ensures outcome.Bad? ==> outcome.error == Malformed
    ensures outcome.Good? ==>
      outcome.value == GatheredAll(old(reader.rest)[..COEFFICIENT_RAW * count], count) &&
      reader.rest == old(reader.rest)[COEFFICIENT_RAW * count..]
  {
    hide Gathered, Overwritten, Cell;
    ghost var rest := reader.rest;
    var blank := seq(COEFFICIENT_RAW, _ => 0 as Byte);
    var matrix := FillColumn(reader, seq(count, _ => blank), 0, 4);
    if matrix.Bad? {
      return Bad(matrix.error);
    }
    var constraint := FillColumn(reader, matrix.value, 4, 4);
    if constraint.Bad? {
      return Bad(constraint.error);
    }
    var signal := FillColumn(reader, constraint.value, 8, 4);
    if signal.Bad? {
      return Bad(signal.error);
    }
    var value := FillColumn(reader, signal.value, 12, 32);
    if value.Bad? {
      return Bad(value.error);
    }
    forall r | 0 <= r < count
      ensures value.value[r] == Gathered(rest[..COEFFICIENT_RAW * count], count, r)
    {
      FilledRecord(rest[..COEFFICIENT_RAW * count], rest, count, r, blank);
    }
    outcome := value;
  }

  /** A coefficient section too short for its own count. */
  predicate IsShort(section: Section) {
    section.encoding == Coefficients && section.zkeyBytes < 4
  }

  /** One section's region. */
  method DecodeSection(reader: BodyReader, section: Section) returns (outcome: Outcome<seq<Byte>>)
    requires WholeUnits(section)
    modifies reader
    ensures var length := PayloadLength(section);
      outcome.Good? <==> length <= |old(reader.rest)| && DecodePayload(section, old(reader.rest)[..length]).Some?
    ensures outcome.Good? ==>
      outcome.value == DecodePayload(section, old(reader.rest)[..PayloadLength(section)]).value &&
      reader.rest == old(reader.rest)[PayloadLength(section)..]
    ensures outcome == Bad(Panicked) <==> IsShort(section)
    ensures outcome.Bad? ==> BodyError(outcome.error)
  {
    hide WholeUnits;
    match section.encoding {
      case Raw => outcome := reader.ReadExact(section.zkeyBytes);
      case Coefficients => outcome := DecodeCoefficients(reader, section);
      case _ => outcome := DecodePoints(reader, section);
    }
  }

  /** The table read so far, in front of what the rest of it gives. */
  predicate TableContinues(whole: Option<(seq<Section>, nat, seq<Byte>)>, sections: seq<Section>, left: Option<(seq<Section>, nat, seq<Byte>)>) {
    whole == match left case None => None case Some((more, total, rest)) => Some((sections + more, total, rest))
  }

  lemma TableStep(whole: Option<(seq<Section>, nat, seq<Byte>)>, sections: seq<Section>, section: Section,
                  left: Option<(seq<Section>, nat, seq<Byte>)>, next: Option<(seq<Section>, nat, seq<Byte>)>)
    requires TableContinues(whole, sections, left) && TableContinues(left, [section], next)
    ensures TableContinues(whole, sections + [section], next)
  {
    assert next.Some? ==> sections + ([section] + next.value.0) == sections + [section] + next.value.0;
  }

  /** `read_body_header`: the version and the checked section table. */
  method ReadHeader(reader: BodyReader, zkeyBytes: nat) returns (outcome: Outcome<(nat, seq<Section>)>)
    modifies reader
    ensures outcome.Good? <==> ReadBodyHeader(old(reader.rest), zkeyBytes).Some?
    ensures outcome.Good? ==>
      var (version, sections, rest) := ReadBodyHeader(old(reader.rest), zkeyBytes).value;
      outcome.value == (version, sections) && reader.rest == rest
    ensures outcome.Bad? ==> outcome.error == Malformed
  {
    hide LittleEndianValue, WholeUnits;
    ghost var body := reader.rest;
    var header := reader.ReadExact(8);
    if header.Bad? {
      return Bad(header.error);
    }
    assert header.value[..4] == body[..4] && header.value[4..8] == body[4..8];
    var version, count := LittleEndianValue(header.value[..4]), LittleEndianValue(header.value[4..8]);
    if count > MAX_SECTIONS || count > (if zkeyBytes < 12 then 0 else zkeyBytes - 12) / 12 {
      return Bad(Malformed);
    }
    var table := ReadTable(reader, count);
    if table.Bad? {
      return Bad(table.error);
    }
    var (sections, total) := table.value;
    if total != zkeyBytes {
      return Bad(Malformed);
    }
    outcome := Good((version, sections));
  }

  /** The section table's loop. */
  method ReadTable(reader: BodyReader, count: nat) returns (outcome: Outcome<(seq<Section>, nat)>)
    modifies reader
    ensures outcome.Good? <==> ParseTable(old(reader.rest), count, 12).Some?
    ensures outcome.Good? ==>
      ParseTable(old(reader.rest), count, 12).value == (outcome.value.0, outcome.value.1, reader.rest)
    ensures outcome.Bad? ==> outcome.error == Malformed
  {
    hide LittleEndianValue, WholeUnits;
    ghost var whole := ParseTable(reader.rest, count, 12);
    var sections: seq<Section>, total: nat := [], 12;
    assert whole.Some? ==> [] + whole.value.0 == whole.value.0;
    for i := 0 to count
      invariant TableContinues(whole, sections, ParseTable(reader.rest, count - i, total))
    {
      ghost var left := reader.rest;
      var read := reader.ReadExact(13);
      if read.Bad? {
        return Bad(read.error);
      }
      var entry := read.value;
      assert entry[..4] == left[..4] && entry[4..12] == left[4..12] && entry[12] == left[12];
      var encoding := FromTag(entry[12]);
      if encoding.None? {
        return Bad(Malformed);
      }
      var section := Section(LittleEndianValue(entry[..4]), LittleEndianValue(entry[4..12]), encoding.value);
      if !WholeUnits(section) || total + 12 + section.zkeyBytes >= U64_LIMIT {
        return Bad(Malformed);
      }
      TableStep(whole, sections, section, ParseTable(left, count - i, total),
                ParseTable(reader.rest, count - i - 1, total + 12 + section.zkeyBytes));
      total := total + 12 + section.zkeyBytes;
      sections := sections + [section];
    }
    assert sections + [] == sections;
    outcome := Good((sections, total));
  }

  /** Every section before some short one decodes, so the loop reaches the short one. */
  ghost predicate ReachesShort(rest: seq<Byte>, sections: seq<Section>)
    requires forall i | 0 <= i < |sections| :: WholeUnits(sections[i])
  {
    exists i | 0 <= i < |sections| :: IsShort(sections[i]) && DecodeSections(rest, sections[..i]).Some?
  }

  /** Decoding `sections` and one more is decoding them and then the one. */
  lemma {:induction false} DecodeOneMore(rest: seq<Byte>, sections: seq<Section>, last: Section)
    requires WholeUnits(last) && forall i | 0 <= i < |sections| :: WholeUnits(sections[i])
    ensures DecodeSections(rest, sections + [last]) ==
      match DecodeSections(rest, sections)
      case None => None
      case Some((zkey, after)) =>
        var length := PayloadLength(last);
        if length > |after| || DecodePayload(last, after[..length]).None? then None
        else Some((zkey + (Header(last.id, last.zkeyBytes) + DecodePayload(last, after[..length]).value), after[length..]))
    decreases |sections|
  {
    hide DecodePayload, WholeUnits, Header, PayloadLength;
    if sections == [] {
      DecodeJust(rest, last);
    } else {
      assert (sections + [last])[0] == sections[0] && (sections + [last])[1..] == sections[1..] + [last];
      var length := PayloadLength(sections[0]);
      if length <= |rest| {
        DecodeOneMore(rest[length..], sections[1..], last);
        var decoded := DecodeSections(rest[length..], sections[1..]);
        if DecodePayload(sections[0], rest[..length]).Some? && decoded.Some? && PayloadLength(last) <= |decoded.value.1| {
          var first := Header(sections[0].id, sections[0].zkeyBytes) + DecodePayload(sections[0], rest[..length]).value;
          var payload := DecodePayload(last, decoded.value.1[..PayloadLength(last)]);
          if payload.Some? {
            var more := Header(last.id, last.zkeyBytes) + payload.value;
            assert first + (decoded.value.0 + more) == first + decoded.value.0 + more;
          }
        }
      }
    }
  }

  lemma DecodeJust(rest: seq<Byte>, section: Section)
    requires WholeUnits(section)
    ensures var length := PayloadLength(section);
      DecodeSections(rest, [] + [section]) ==
        if length > |rest| || DecodePayload(section, rest[..length]).None? then None
        else Some(([] + (Header(section.id, section.zkeyBytes) + DecodePayload(section, rest[..length]).value), rest[length..]))
  {
    hide DecodePayload, WholeUnits, Header, PayloadLength;
    assert ([] + [section])[1..] == [];
    var length := PayloadLength(section);
    if length <= |rest| && DecodePayload(section, rest[..length]).Some? {
      var piece := Header(section.id, section.zkeyBytes) + DecodePayload(section, rest[..length]).value;
      assert piece + [] == [] + piece;
    }
  }

  /** Once a section fails, no longer list decodes. */
  lemma {:induction false} DecodeStops(rest: seq<Byte>, sections: seq<Section>, n: nat)
    requires n <= |sections| && forall i | 0 <= i < |sections| :: WholeUnits(sections[i])
    ensures DecodeSections(rest, sections[..n]).None? ==> DecodeSections(rest, sections).None?
    decreases |sections|
  {
    hide DecodePayload, WholeUnits, Header, PayloadLength, DecodeSections;
    if n == |sections| {
      assert sections[..n] == sections;
    } else {
      var last := |sections| - 1;
      DecodeStops(rest, sections[..last], n);
      assert sections[..last][..n] == sections[..n];
      DecodeOneMore(rest, sections[..last], sections[last]);
      assert sections[..last] + [sections[last]] == sections;
    }
  }

  /** The loop stops at the first section that does not decode: a short one exactly when one is reached. */
  lemma StopsAtShort(rest: seq<Byte>, sections: seq<Section>, stop: nat)
    requires stop < |sections| && forall i | 0 <= i < |sections| :: WholeUnits(sections[i])
    requires DecodeSections(rest, sections[..stop]).Some? && DecodeSections(rest, sections[..stop + 1]).None?
    ensures ReachesShort(rest, sections) <==> IsShort(sections[stop])
    ensures DecodeSections(rest, sections).None?
  {
    hide DecodePayload, WholeUnits, Header, PayloadLength, DecodeSections;
    DecodeStops(rest, sections, stop + 1);
    forall i | 0 <= i < stop
      ensures !IsShort(sections[i])
    {
      DecodedNotShort(rest, sections[..stop], i);
    }
    forall i | stop < i < |sections|
      ensures DecodeSections(rest, sections[..i]).None?
    {
      DecodeStops(rest, sections[..i], stop + 1);
      assert sections[..i][..stop + 1] == sections[..stop + 1];
    }
  }

  /** Among sections that decode none is short. */
  lemma DecodedNotShort(rest: seq<Byte>, sections: seq<Section>, i: nat)
    requires i < |sections| && forall k | 0 <= k < |sections| :: WholeUnits(sections[k])
    requires DecodeSections(rest, sections).Some?
    ensures !IsShort(sections[i])
  {
    hide DecodeSections, WholeUnits;
    DecodeStops(rest, sections, i + 1);
    DecodeOneMore(rest, sections[..i], sections[i]);
    assert sections[..i] + [sections[i]] == sections[..i + 1];
  }

  /** The section loop of `decode_body`; it panics exactly when it reaches a short coefficient section. */
  method DecodeAllSections(reader: BodyReader, sections: seq<Section>) returns (outcome: Outcome<seq<Byte>>)
    requires forall i | 0 <= i < |sections| :: WholeUnits(sections[i])
    modifies reader
    ensures outcome.Good? <==> DecodeSections(old(reader.rest), sections).Some?
    ensures outcome.Good? ==> DecodeSections(old(reader.rest), sections).value == (outcome.value, reader.rest)
    ensures outcome == Bad(Panicked) <==> ReachesShort(old(reader.rest), sections)
    ensures outcome.Bad? ==> BodyError(outcome.error)
  {
    hide DecodePayload, WholeUnits, Header, PayloadLength, DecodeSections, IsShort;
    ghost var body := reader.rest;
    var zkey: seq<Byte> := [];
    DecodeNone(body);
    assert sections[..0] == [];
    for i := 0 to |sections|
      invariant DecodeSections(body, sections[..i]) == Some((zkey, reader.rest))
    {
      var section := sections[i];
      DecodeOneMore(body, sections[..i], section);
      assert sections[..i] + [section] == sections[..i + 1];
      var region := DecodeSection(reader, section);
      if region.Bad? {
        StopsAtShort(body, sections, i);
        return Bad(region.error);
      }
      zkey := zkey + (Header(section.id, section.zkeyBytes) + region.value);
    }
    assert sections[..|sections|] == sections;
    forall i | 0 <= i < |sections|
      ensures !IsShort(sections[i])
    {
      DecodedNotShort(body, sections, i);
    }
    outcome := Good(zkey);
  }

  lemma DecodeNone(rest: seq<Byte>)
    ensures DecodeSections(rest, []) == Some(([], rest))
  {}

  // ----- the file -----

  /** `CVYZKC01` in ASCII. */
  const MAGIC: seq<Byte> := [0x43, 0x56, 0x59, 0x5a, 0x4b, 0x43, 0x30, 0x31]
  const HEADER_BYTES: nat := 48

  const DECOMPRESS: seq<Byte> -> Option<seq<Byte>>

  /** The body of one whole zstd frame. */
  function Unframe(frame: seq<Byte>): Option<seq<Byte>> {
    DECOMPRESS(frame)
  }

  /** The file `encode` writes around a compressed body. */
  function FileOf(zkey: seq<Byte>, frame: seq<Byte>): seq<Byte> {
    MAGIC + Sha(zkey) + LittleEndian(|zkey|, 8) + frame
  }

  /** What a compact file decodes to, if anything. */
  function InflateOf(file: seq<Byte>, maxZkeyBytes: nat): Option<seq<Byte>> {
    if |file| < HEADER_BYTES || file[..8] != MAGIC || LittleEndianValue(file[40..48]) > maxZkeyBytes then None
    else
      match Unframe(file[48..])
      case None => None
      case Some(body) =>
        match DecodeBody(body, LittleEndianValue(file[40..48]))
        case None => None
        case Some((zkey, after)) => if after == [] && Sha(zkey) == file[8..40] then Some(zkey) else None
  }

  /** The declared length of a file with the right magic. */
  function DeclaredBytes(file: seq<Byte>): Option<nat> {
    if |file| < HEADER_BYTES || file[..8] != MAGIC then None else Some(LittleEndianValue(file[40..48]))
  }

  /** The body of a file that passes the header, the length bound and the frame. */
  function BodyOf(file: seq<Byte>, maxZkeyBytes: nat): Option<seq<Byte>> {
    match DeclaredBytes(file)
    case None => None
    case Some(zkeyBytes) => if zkeyBytes > maxZkeyBytes then None else Unframe(file[48..])
  }

  /** Header, frame and table are in order, and the sections lead to a short coefficient section. */
  ghost predicate InflatePanics(file: seq<Byte>, maxZkeyBytes: nat) {
    && BodyOf(file, maxZkeyBytes).Some?
    && var header := ReadBodyHeader(BodyOf(file, maxZkeyBytes).value, DeclaredBytes(file).value);
       header.Some? && ReachesShort(header.value.2, header.value.1)
  }

  /** `inflate`: header, frame, body, digest, and nothing after the last section. */
  method Inflate(file: seq<Byte>, maxZkeyBytes: nat) returns (outcome: Outcome<seq<Byte>>)
    ensures outcome.Good? <==> InflateOf(file, maxZkeyBytes).Some?
    ensures outcome.Good? ==> outcome.value == InflateOf(file, maxZkeyBytes).value
    ensures outcome == Bad(Panicked) <==> InflatePanics(file, maxZkeyBytes)
    ensures outcome == Bad(TooLarge) <==> DeclaredBytes(file).Some? && DeclaredBytes(file).value > maxZkeyBytes
    ensures outcome == Bad(Zstd) <==>
      DeclaredBytes(file).Some? && DeclaredBytes(file).value <= maxZkeyBytes && BodyOf(file, maxZkeyBytes).None?
    ensures outcome == Bad(DigestMismatch) <==>
      && BodyOf(file, maxZkeyBytes).Some?
      && var decoded := DecodeBody(BodyOf(file, maxZkeyBytes).value, DeclaredBytes(file).value);
         decoded.Some? && Sha(decoded.value.0) != file[8..40]
  {
    hide LittleEndianValue, DecodeSections, ReadBodyHeader, LittleEndian, ReachesShort;
    if |file| < HEADER_BYTES || file[..8] != MAGIC {
      return Bad(Malformed);
    }
    var zkeyBytes := LittleEndianValue(file[40..48]);
    if zkeyBytes > maxZkeyBytes {
      return Bad(TooLarge);
    }
    var body := Unframe(file[48..]);
    if body.None? {
      return Bad(Zstd);
    }
    var reader := new BodyReader(body.value);
    var header := ReadHeader(reader, zkeyBytes);
    if header.Bad? {
      return Bad(header.error);
    }
    var (version, sections) := header.value;
    var zkey := ZKEY_MAGIC + LittleEndian(version, 4) + LittleEndian(|sections|, 4);
    var rest := DecodeAllSections(reader, sections);
    if rest.Bad? {
      return Bad(rest.error);
    }
    zkey := zkey + rest.value;
    if Sha(zkey) != file[8..40] {
      return Bad(DigestMismatch);
    }
    if reader.rest != [] {
      return Bad(Malformed);
    }
    outcome := Good(zkey);
  }

  /** `zkey_layout`'s loop over the section headers. */
  method ScanLayout(zkey: seq<Byte>) returns (layout: Option<(nat, seq<Entry>)>)
    ensures layout == ZkeyLayout(zkey)
  {
    hide LittleEndianValue, LayoutFrom;
    if |zkey| < 12 || zkey[..4] != ZKEY_MAGIC || LittleEndianValue(zkey[8..12]) > MAX_SECTIONS {
      return None;
    }
    var count := LittleEndianValue(zkey[8..12]);
    var position := 12;
    var entries: seq<Entry> := [];
    ghost var whole := LayoutFrom(zkey[12..], count);
    assert whole.Some? ==> [] + whole.value == whole.value;
    for i := 0 to count
      invariant 12 <= position <= |zkey|
      invariant EntriesContinue(whole, entries, LayoutFrom(zkey[position..], count - i))
    {
      ghost var rest := zkey[position..];
      LayoutStep(rest, count - i);
      if |zkey| - position < 12 {
        return None;
      }
      var id, length := LittleEndianValue(zkey[position..position + 4]), LittleEndianValue(zkey[position + 4..position + 12]);
      var end := position + 12 + length;
      assert rest[..4] == zkey[position..position + 4] && rest[4..12] == zkey[position + 4..position + 12];
      if end > |zkey| {
        return None;
      }
      var entry := Entry(Section(id, length, ForSection(id)), zkey[position + 12..end]);
      assert rest[12..12 + length] == zkey[position + 12..end] && rest[12 + length..] == zkey[end..];
      EntriesStep(whole, entries, entry, LayoutFrom(rest, count - i), LayoutFrom(zkey[end..], count - i - 1));
      entries := entries + [entry];
      position := end;
    }
    LayoutEnd(zkey[position..]);
    if position != |zkey| {
      return None;
    }
    assert entries + [] == entries;
    layout := Some((LittleEndianValue(zkey[4..8]), entries));
  }

  lemma LayoutEnd(rest: seq<Byte>)
    ensures LayoutFrom(rest, 0) == if rest == [] then Some([]) else None
  {}

  /** One section header read off the front. */
  lemma LayoutStep(rest: seq<Byte>, count: nat)
    requires count > 0
    ensures |rest| < 12 ==> LayoutFrom(rest, count) == None
    ensures |rest| >= 12 ==>
      var (id, length) := (LittleEndianValue(rest[..4]), LittleEndianValue(rest[4..12]));
      if 12 + length > |rest| then LayoutFrom(rest, count) == None
      else EntriesContinue(LayoutFrom(rest, count), [Entry(Section(id, length, ForSection(id)), rest[12..12 + length])],
                           LayoutFrom(rest[12 + length..], count - 1))
  {
    hide LittleEndianValue;
  }

  predicate EntriesContinue(whole: Option<seq<Entry>>, entries: seq<Entry>, left: Option<seq<Entry>>) {
    whole == match left case None => None case Some(more) => Some(entries + more)
  }

  lemma EntriesStep(whole: Option<seq<Entry>>, entries: seq<Entry>, entry: Entry, left: Option<seq<Entry>>, next: Option<seq<Entry>>)
    requires EntriesContinue(whole, entries, left) && EntriesContinue(left, [entry], next)
    ensures EntriesContinue(whole, entries + [entry], next)
  {
    assert next.Some? ==> entries + ([entry] + next.value) == entries + [entry] + next.value;
  }

  /**
   `encode`: a file only when decoding it gives the zkey back; the internal check is the only
   thing left to fail once every section is accepted.
   */
  method Encode(zkey: seq<Byte>, compress: seq<Byte> -> seq<Byte>) returns (outcome: Outcome<seq<Byte>>)
    requires FieldCodecLaws()
    ensures outcome.Good? <==>
      EncodeBody(zkey).Some? &&
      InflateOf(FileOf(zkey, compress(EncodeBody(zkey).value)), |zkey|) == Some(zkey)
    ensures outcome.Good? ==> outcome.value == FileOf(zkey, compress(EncodeBody(zkey).value))
  {
    hide FieldCodecLaws, EncodePayload, LittleEndian, LittleEndianValue, InflateOf, ZkeyLayout, TableEntry;
    var layout := ScanLayout(zkey);
    if layout.None? {
      return Bad(if |zkey| >= 12 && zkey[..4] == ZKEY_MAGIC && LittleEndianValue(zkey[8..12]) > MAX_SECTIONS then Lossy else NotAZkey);
    }
    var (version, entries) := layout.value;
    LayoutOk(zkey);
    var table: seq<Byte> := [];
    for i := 0 to |entries|
      invariant Table(entries) == table + Table(entries[i..])
    {
      table := table + TableEntry(entries[i].section);
      assert entries[i..][1..] == entries[i + 1..];
    }
    var payloads := EncodeAllSections(entries);
    if payloads.Bad? {
      return Bad(payloads.error);
    }
    var body := LittleEndian(version, 4) + LittleEndian(|entries|, 4) + table + payloads.value;
    assert table + [] == table;
    var file := FileOf(zkey, compress(body));
    var decoded := Inflate(file, |zkey|);
    if decoded.Bad? || decoded.value != zkey {
      return Bad(Lossy);
    }
    outcome := Good(file);
  }

  lemma LayoutOk(zkey: seq<Byte>)
    requires ZkeyLayout(zkey).Some?
    ensures EntriesOk(ZkeyLayout(zkey).value.1)
  {
    LayoutAssembles(zkey[12..], LittleEndianValue(zkey[8..12]));
    hide LittleEndianValue;
  }

  /** The section loop of `encode`. */
  method EncodeAllSections(entries: seq<Entry>) returns (outcome: Outcome<seq<Byte>>)
    requires FieldCodecLaws() && EntriesOk(entries)
    ensures outcome.Good? <==> Payloads(entries).Some?
    ensures outcome.Good? ==> outcome.value == Payloads(entries).value
  {
    hide FieldCodecLaws, EncodePayload, EntryOk;
    var body: seq<Byte> := [];
    assert entries[0..] == entries;
    NothingBefore(Payloads(entries));
    for i := 0 to |entries|
      invariant Continues(Payloads(entries), body, Payloads(entries[i..]))
    {
      var payload := EncodeSection(entries[i]);
      assert entries[i..][0] == entries[i] && entries[i..][1..] == entries[i + 1..];
      if payload.Bad? {
        return Bad(payload.error);
      }
      ContinueStep(Payloads(entries), body, Payloads(entries[i..]), payload.value, Payloads(entries[i + 1..]));
      body := body + payload.value;
    }
    NothingAfter(Payloads(entries), body);
    outcome := Good(body);
  }

  /**
   With a lossless frame around the body, the file inflates to the zkey exactly when all its
   points are on their curves: then, and only then, `encode` accepts its own output.
   */
  lemma FileRoundTrip(zkey: seq<Byte>, frame: seq<Byte>, maxZkeyBytes: nat)
    requires FieldCodecLaws() && |zkey| < U64_LIMIT && |zkey| <= maxZkeyBytes && EncodeBody(zkey).Some?
    requires Unframe(frame) == EncodeBody(zkey)
    ensures InflateOf(FileOf(zkey, frame), maxZkeyBytes) == Some(zkey) <==> AllPointsOnCurve(zkey)
  {
    hide FieldCodecLaws, LittleEndian, LittleEndianValue, DecodeBody, EncodeBody, Pow2, ZkeyLayout, AllPointsOnCurve;
    BodyRoundTripIff(zkey);
    Widths();
    LittleEndianDecodes(|zkey|, 8);
    var file := FileOf(zkey, frame);
    assert file[..8] == MAGIC && file[8..40] == Sha(zkey) && file[40..48] == LittleEndian(|zkey|, 8) && file[48..] == frame;
  }

  // ----- a file that panics -----

  /** The body of version 1 with one coefficient section of `n` bytes and no payload. */
  function ShortBody(n: nat): seq<Byte> {
    LittleEndian(1, 4) + LittleEndian(1, 4) + TableEntry(Section(4, n, Coefficients))
  }

  lemma ShortBodyHeader(n: nat)
    requires n < 4
    ensures ReadBodyHeader(ShortBody(n), 24 + n) == Some((1, [Section(4, n, Coefficients)], []))
  {
    hide LittleEndian, LittleEndianValue;
    Widths();
    LittleEndianDecodes(1, 4);
    LittleEndianDecodes(4, 4);
    LittleEndianDecodes(n, 8);
    var section := Section(4, n, Coefficients);
    var body, entry := ShortBody(n), TableEntry(section);
    assert body[..4] == LittleEndian(1, 4) && body[4..8] == LittleEndian(1, 4) && body[8..] == entry;
    assert entry[..4] == LittleEndian(4, 4) && entry[4..12] == LittleEndian(n, 8) && entry[12] == 3;
    assert entry[13..] == [];
    assert FromTag(entry[12]) == Some(Coefficients) && WholeUnits(section) && [section] + [] == [section];
    assert ParseTable(entry[13..], 0, 24 + n) == Some(([], 24 + n, []));
    assert ParseTable(entry, 1, 12) == Some(([Section(4, n, Coefficients)], 24 + n, []));
  }

  /** Any file around such a body panics, whatever digest it names. */
  lemma ShortFilePanics(zkey: seq<Byte>, frame: seq<Byte>, maxZkeyBytes: nat, n: nat)
    requires n < 4 && |zkey| == 24 + n <= maxZkeyBytes && Unframe(frame) == Some(ShortBody(n))
    ensures InflatePanics(FileOf(zkey, frame), maxZkeyBytes)
  {
    hide LittleEndian, LittleEndianValue, ReadBodyHeader, ShortBody, DecodeSections;
    Widths();
    LittleEndianDecodes(|zkey|, 8);
    var file := FileOf(zkey, frame);
    assert file[..8] == MAGIC && file[40..48] == LittleEndian(|zkey|, 8) && file[48..] == frame;
    ShortBodyHeader(n);
    DecodeNone([]);
    var sections := [Section(4, n, Coefficients)];
    assert sections[..0] == [] && IsShort(sections[0]);
  }
}
