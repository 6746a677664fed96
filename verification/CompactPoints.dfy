/**
 Compressed curve points of the compact zkey: 32-byte words for `x`, the sign of `y` in the top
 bits, and the root of the curve equation chosen by that sign.
 */
module CompactPoints {
  import opened Binary
  import opened Bytes
  import opened LittleEndianBytes
  import opened TreeErrors

  datatype Curve = G1 | G2

  /** The BN254 base field modulus. */
  const FQ_MODULUS: nat := 21888242871839275222246405745257275088696311157297823662689037894645226208583

  /** Base-field elements per coordinate. */
  function Words(curve: Curve): (n: nat)
    ensures 1 <= n <= 2
  {
    match curve case G1 => 1 case G2 => 2
  }

  /** A coordinate by its canonical integers, `c0` before `c1`. */
  type Coordinate = seq<nat>

  predicate InField(c: Coordinate) {
    forall i | 0 <= i < |c| :: c[i] < FQ_MODULUS
  }

  predicate Canonical(curve: Curve, c: Coordinate) {
    |c| == Words(curve) && InField(c)
  }

  // ----- the field, as far as the codec needs it -----

  const TO_MONTGOMERY: nat -> nat
  const FROM_MONTGOMERY: nat -> nat
  const SQUARE: (Curve, Coordinate) -> Coordinate
  const NEGATE: (Curve, Coordinate) -> Coordinate
  const CURVE_RHS: (Curve, Coordinate) -> Coordinate
  const ROOT: (Curve, Coordinate) -> Option<Coordinate>
  const LESS: (Curve, Coordinate, Coordinate) -> bool

  function Montgomery(v: nat): nat { TO_MONTGOMERY(v) }

  function FromMontgomery(v: nat): nat { FROM_MONTGOMERY(v) }

  function Square(curve: Curve, y: Coordinate): Coordinate { SQUARE(curve, y) }

  function Negate(curve: Curve, y: Coordinate): Coordinate { NEGATE(curve, y) }

  /** `x^3 + b`. */
  function CurveRhs(curve: Curve, x: Coordinate): Coordinate { CURVE_RHS(curve, x) }

  /** Some square root, when there is one. */
  function Root(curve: Curve, v: Coordinate): Option<Coordinate> { ROOT(curve, v) }

  predicate Less(curve: Curve, a: Coordinate, b: Coordinate) { LESS(curve, a, b) }

  ghost predicate MontgomeryLaw(v: nat) {
    v < FQ_MODULUS ==>
      && Montgomery(v) < FQ_MODULUS && FromMontgomery(v) < FQ_MODULUS
      && FromMontgomery(Montgomery(v)) == v && Montgomery(FromMontgomery(v)) == v
  }

  ghost predicate NegateLaw(curve: Curve, y: Coordinate) {
    Canonical(curve, y) ==> Canonical(curve, Negate(curve, y)) && Negate(curve, Negate(curve, y)) == y
  }

  /** Two elements have one square exactly when they are equal or opposite. */
  ghost predicate SquareLaw(curve: Curve, y: Coordinate, z: Coordinate) {
    Canonical(curve, y) && Canonical(curve, z) ==>
      (Square(curve, y) == Square(curve, z) <==> y == z || y == Negate(curve, z))
  }

  /** The root returned is a root, and one is returned whenever there is one. */
  ghost predicate RootLaw(curve: Curve, v: Coordinate, y: Coordinate) {
    match Root(curve, v)
    case Some(root) => Canonical(curve, root) && Square(curve, root) == v
    case None => Canonical(curve, y) ==> Square(curve, y) != v
  }

  ghost predicate OrderLaw(curve: Curve, y: Coordinate, z: Coordinate) {
    y == z || (Less(curve, y, z) <==> !Less(curve, z, y))
  }

  ghost predicate FieldCodecLaws() {
    && (forall v :: MontgomeryLaw(v)) && Montgomery(0) == 0
    && (forall curve, y :: NegateLaw(curve, y))
    && (forall curve, y, z :: SquareLaw(curve, y, z))
    && (forall curve, v, y :: RootLaw(curve, v, y))
    && (forall curve, y, z :: OrderLaw(curve, y, z))
  }

  // ----- 32-byte words -----

  function WordBytes(c: Coordinate): (bytes: seq<Byte>)
    ensures |bytes| == 32 * |c|
  {
    if c == [] then [] else LittleEndian(c[0], 32) + WordBytes(c[1..])
  }

  /** Whole words, each below the modulus. */
  function ParseWords(bytes: seq<Byte>): (c: Option<Coordinate>)
    requires |bytes| % 32 == 0
    ensures c.Some? ==> 32 * |c.value| == |bytes| && InField(c.value)
  {
    if bytes == [] then Some([])
    else if LittleEndianValue(bytes[..32]) >= FQ_MODULUS then None
    else
      match ParseWords(bytes[32..])
      case None => None
      case Some(rest) => Some([LittleEndianValue(bytes[..32])] + rest)
  }

  lemma ModulusFits()
    ensures FQ_MODULUS < Pow2(254) < Pow2(8 * 32)
  {
    PowersOfTwo();
    hide Pow2;
    Pow2Add(32, 32);
    Pow2Add(64, 64);
    Pow2Add(128, 64);
    Pow2Add(192, 32);
    Pow2Add(224, 16);
    assert Pow2(8) == 256 by { EightBits(0); PowZero(); }
    Pow2Add(240, 8);
    Pow2Add(248, 6);
    SixBits();
    Pow2Add(248, 8);
  }

  lemma PowZero()
    ensures Pow2(0) == 1
  {}

  lemma SixBits()
    ensures Pow2(6) == 64
  {}

  lemma {:induction false} ParseWritten(c: Coordinate)
    requires InField(c)
    ensures ParseWords(WordBytes(c)) == Some(c)
  {
    hide Pow2, LittleEndian, LittleEndianValue;
    if c != [] {
      ParseWritten(c[1..]);
      ModulusFits();
      LittleEndianDecodes(c[0], 32);
      var bytes := WordBytes(c);
      assert bytes[..32] == LittleEndian(c[0], 32) && bytes[32..] == WordBytes(c[1..]);
      assert c == [c[0]] + c[1..];
    }
  }

  lemma {:induction false} WriteParsed(bytes: seq<Byte>)
    requires |bytes| % 32 == 0 && ParseWords(bytes).Some?
    ensures WordBytes(ParseWords(bytes).value) == bytes
  {
    hide LittleEndian, LittleEndianValue;
    if bytes != [] {
      WriteParsed(bytes[32..]);
      LittleEndianEncodes(bytes[..32]);
      var rest := ParseWords(bytes[32..]).value;
      assert ParseWords(bytes).value[1..] == rest;
      assert bytes == bytes[..32] + bytes[32..];
    }
  }

  function MapMontgomery(c: Coordinate): (r: Coordinate)
    ensures |r| == |c|
  {
    seq(|c|, i requires 0 <= i < |c| => Montgomery(c[i]))
  }

  function MapFromMontgomery(c: Coordinate): (r: Coordinate)
    ensures |r| == |c|
  {
    seq(|c|, i requires 0 <= i < |c| => FromMontgomery(c[i]))
  }

  lemma MontgomeryInverse(c: Coordinate)
    requires FieldCodecLaws() && InField(c)
    ensures InField(MapFromMontgomery(c)) && MapMontgomery(MapFromMontgomery(c)) == c
  {
    forall i | 0 <= i < |c|
      ensures FromMontgomery(c[i]) < FQ_MODULUS && Montgomery(FromMontgomery(c[i])) == c[i]
    {
      assert MontgomeryLaw(c[i]);
    }
  }

  // ----- raw points -----

  function RawBytes(curve: Curve): nat { 64 * Words(curve) }

  function CompactBytes(curve: Curve): nat { 32 * Words(curve) }

  /** Two coordinates in Montgomery limbs, as a zkey stores them. */
  function RawPoint(x: Coordinate, y: Coordinate): seq<Byte> {
    WordBytes(MapMontgomery(x)) + WordBytes(MapMontgomery(y))
  }

  /** `deserialize_g1` and `deserialize_g2`: both coordinates canonical. */
  function ParsePoint(curve: Curve, raw: seq<Byte>): (point: Option<(Coordinate, Coordinate)>)
    requires |raw| == RawBytes(curve)
  {
    var half := CompactBytes(curve);
    match (ParseWords(raw[..half]), ParseWords(raw[half..]))
    case (Some(x), Some(y)) => Some((MapFromMontgomery(x), MapFromMontgomery(y)))
    case _ => None
  }

  lemma ParsedPoint(curve: Curve, raw: seq<Byte>)
    requires FieldCodecLaws() && |raw| == RawBytes(curve) && ParsePoint(curve, raw).Some?
    ensures var (x, y) := ParsePoint(curve, raw).value;
      Canonical(curve, x) && Canonical(curve, y) && RawPoint(x, y) == raw
  {
    hide WordBytes, ParseWords, MapMontgomery, MapFromMontgomery, FieldCodecLaws;
    var half := CompactBytes(curve);
    WriteParsed(raw[..half]);
    WriteParsed(raw[half..]);
    MontgomeryInverse(ParseWords(raw[..half]).value);
    MontgomeryInverse(ParseWords(raw[half..]).value);
    assert raw == raw[..half] + raw[half..];
  }

  // ----- flags in the last byte -----

  datatype Flag = Positive | Infinity | Negative

  function FlagBits(flag: Flag): nat {
    match flag case Positive => 0 case Infinity => 64 case Negative => 128
  }

  /** The flag or-ed into a byte whose top two bits are free. */
  function WithFlag(bytes: seq<Byte>, flag: Flag): (r: seq<Byte>)
    requires bytes != [] && bytes[|bytes| - 1] < 64
    ensures |r| == |bytes|
  {
    bytes[|bytes| - 1 := bytes[|bytes| - 1] + FlagBits(flag)]
  }

  /** The flag and the bytes without it; both bits set is no flag. */
  function SplitFlag(bytes: seq<Byte>): (r: Option<(seq<Byte>, Flag)>)
    requires bytes != []
    ensures r.Some? ==> |r.value.0| == |bytes|
  {
    var last := bytes[|bytes| - 1];
    var cleared := bytes[|bytes| - 1 := last % 64];
    match last / 64
    case 0 => Some((cleared, Positive))
    case 1 => Some((cleared, Infinity))
    case 2 => Some((cleared, Negative))
    case _ => None
  }

  lemma SplitWith(bytes: seq<Byte>, flag: Flag)
    requires bytes != [] && bytes[|bytes| - 1] < 64
    ensures SplitFlag(WithFlag(bytes, flag)) == Some((bytes, flag))
  {
    var last := bytes[|bytes| - 1];
    assert WithFlag(bytes, flag)[|bytes| - 1] == last + FlagBits(flag);
    assert WithFlag(bytes, flag)[|bytes| - 1 := last] == bytes;
  }

  lemma TopBitsFree(v: nat)
    requires v < FQ_MODULUS
    ensures LittleEndian(v, 32)[31] < 64
  {
    hide Pow2, LittleEndian, LittleEndianValue;
    var bytes := LittleEndian(v, 32);
    ModulusFits();
    LittleEndianDecodes(v, 32);
    assert bytes == bytes[..31] + [bytes[31]];
    LastByte(bytes[..31], bytes[31]);
    Pow2Add(248, 6);
    SixBits();
    if bytes[31] >= 64 {
      MulMonotone(64, bytes[31], Pow2(248));
    }
  }

  lemma {:induction false} WordsTopBitsFree(c: Coordinate)
    requires InField(c) && c != []
    ensures WordBytes(c) != [] && WordBytes(c)[|WordBytes(c)| - 1] < 64
  {
    hide LittleEndian;
    if |c| == 1 {
      TopBitsFree(c[0]);
      assert WordBytes(c[1..]) == [];
    } else {
      WordsTopBitsFree(c[1..]);
    }
  }

  // ----- compressed points -----

  predicate IsZero(c: Coordinate) {
    forall i | 0 <= i < |c| :: c[i] == 0
  }

  function Zeros(n: nat): seq<Byte> {
    seq(n, _ => 0)
  }

  /** Zero `x` with the infinity flag. */
  function InfinityBytes(curve: Curve): (r: seq<Byte>)
    ensures |r| == CompactBytes(curve)
  {
    WithFlag(Zeros(CompactBytes(curve)), Infinity)
  }

  function FlagOf(curve: Curve, y: Coordinate): Flag {
    if Less(curve, Negate(curve, y), y) then Negative else Positive
  }

  /** arkworks' compressed affine encoding. */
  function CompressPoint(curve: Curve, x: Coordinate, y: Coordinate): (r: seq<Byte>)
    requires Canonical(curve, x)
    ensures |r| == CompactBytes(curve)
  {
    WordsTopBitsFree(x);
    if IsZero(x) && IsZero(y) then InfinityBytes(curve) else WithFlag(WordBytes(x), FlagOf(curve, y))
  }

  /** `choose_root`: of a root and its negation, the one the sign names. */
  function ChooseRoot(curve: Curve, root: Coordinate, flag: Flag): Coordinate {
    var negated := Negate(curve, root);
    var (smaller, larger) := if Less(curve, root, negated) then (root, negated) else (negated, root);
    if flag == Positive then smaller else larger
  }

  /** `decode_g1` and `decode_g2`; `None` where they return false. */
  function DecompressPoint(curve: Curve, compact: seq<Byte>): (raw: Option<seq<Byte>>)
    requires |compact| == CompactBytes(curve)
  {
    match SplitFlag(compact)
    case None => None
    case Some((words, flag)) =>
      (match ParseWords(words)
       case None => None
       case Some(x) =>
         if flag == Infinity then
           if compact != InfinityBytes(curve) then None else Some(Zeros(RawBytes(curve)))
         else
           match Root(curve, CurveRhs(curve, x))
           case None => None
           case Some(root) => Some(RawPoint(x, ChooseRoot(curve, root, flag))))
  }

  /** Whichever root of `y^2` the oracle returned, the sign of `y` leads back to `y`. */
  lemma ChooseRecovers(curve: Curve, root: Coordinate, y: Coordinate)
    requires FieldCodecLaws() && Canonical(curve, root) && Canonical(curve, y)
    requires Square(curve, root) == Square(curve, y)
    ensures ChooseRoot(curve, root, FlagOf(curve, y)) == y
  {
    assert SquareLaw(curve, root, y);
    assert NegateLaw(curve, y);
    assert OrderLaw(curve, y, Negate(curve, y));
    hide FieldCodecLaws;
  }

  /** Either choice is a root. */
  lemma ChosenIsRoot(curve: Curve, root: Coordinate, flag: Flag)
    requires FieldCodecLaws() && Canonical(curve, root)
    ensures Canonical(curve, ChooseRoot(curve, root, flag))
    ensures Square(curve, ChooseRoot(curve, root, flag)) == Square(curve, root)
  {
    assert NegateLaw(curve, root);
    assert SquareLaw(curve, Negate(curve, root), root);
    hide FieldCodecLaws;
  }

  predicate OnCurve(curve: Curve, x: Coordinate, y: Coordinate) {
    (IsZero(x) && IsZero(y)) || Square(curve, y) == CurveRhs(curve, x)
  }

  lemma {:induction false} ZeroWords(n: nat)
    ensures WordBytes(seq(n, _ => 0)) == Zeros(32 * n)
  {
    if n > 0 {
      ZeroWords(n - 1);
      assert seq(n, _ => 0)[1..] == seq(n - 1, _ => 0);
      ZeroBytes(32);
      hide LittleEndian;
    }
  }

  lemma {:induction false} ZeroBytes(n: nat)
    ensures LittleEndian(0, n) == Zeros(n)
  {
    if n > 0 {
      ZeroBytes(n - 1);
    }
  }

  /** The point at infinity is spelt as zeros, and only so. */
  lemma InfinityIsZeros(curve: Curve, x: Coordinate, y: Coordinate)
    requires FieldCodecLaws() && Canonical(curve, x) && Canonical(curve, y) && IsZero(x) && IsZero(y)
    ensures RawPoint(x, y) == Zeros(RawBytes(curve))
    ensures WordBytes(x) == Zeros(CompactBytes(curve))
  {
    hide WordBytes;
    var n := Words(curve);
    assert x == seq(n, _ => 0) && y == x && MapMontgomery(x) == x;
    ZeroWords(n);
  }

  /** Raw points determine their coordinates. */
  lemma RawPointInjective(curve: Curve, x: Coordinate, y: Coordinate, z: Coordinate)
    requires FieldCodecLaws() && Canonical(curve, x) && Canonical(curve, y) && Canonical(curve, z)
    requires RawPoint(x, y) == RawPoint(x, z)
    ensures y == z
  {
    hide WordBytes, ParseWords;
    var half := CompactBytes(curve);
    assert WordBytes(MapMontgomery(y)) == RawPoint(x, y)[half..] && WordBytes(MapMontgomery(z)) == RawPoint(x, z)[half..];
    forall i | 0 <= i < Words(curve)
      ensures MapMontgomery(y)[i] < FQ_MODULUS && MapMontgomery(z)[i] < FQ_MODULUS
      ensures FromMontgomery(MapMontgomery(y)[i]) == y[i] && FromMontgomery(MapMontgomery(z)[i]) == z[i]
    {
      assert MontgomeryLaw(y[i]) && MontgomeryLaw(z[i]);
    }
    ParseWritten(MapMontgomery(y));
    ParseWritten(MapMontgomery(z));
    assert forall i | 0 <= i < |y| :: y[i] == z[i];
  }

  /**
   A canonical raw point comes back byte for byte exactly when it is on the curve (or is the
   point at infinity): the root taken on decoding puts every decoded point there.
   */
  lemma PointRoundTrip(curve: Curve, raw: seq<Byte>)
    requires FieldCodecLaws() && |raw| == RawBytes(curve) && ParsePoint(curve, raw).Some?
    ensures var (x, y) := ParsePoint(curve, raw).value;
      && Canonical(curve, x)
      && (DecompressPoint(curve, CompressPoint(curve, x, y)) == Some(raw) <==> OnCurve(curve, x, y))
  {
    hide WordBytes, ParseWords, RawPoint, ParsePoint, FieldCodecLaws, ChooseRoot, FlagOf, WithFlag, SplitFlag;
    var (x, y) := ParsePoint(curve, raw).value;
    ParsedPoint(curve, raw);
    WordsTopBitsFree(x);
    ParseWritten(x);
    if IsZero(x) && IsZero(y) {
      InfinityIsZeros(curve, x, y);
      SplitWith(WordBytes(x), Infinity);
    } else {
      SplitWith(WordBytes(x), FlagOf(curve, y));
      FiniteRoundTrip(curve, x, y);
    }
  }

  lemma FiniteRoundTrip(curve: Curve, x: Coordinate, y: Coordinate)
    requires FieldCodecLaws() && Canonical(curve, x) && Canonical(curve, y)
    ensures FlagOf(curve, y) != Infinity
    ensures var v := CurveRhs(curve, x);
      var root := Root(curve, v);
      (root.Some? && RawPoint(x, ChooseRoot(curve, root.value, FlagOf(curve, y))) == RawPoint(x, y)) <==> Square(curve, y) == v
  {
    hide RawPoint, ChooseRoot;
    var v := CurveRhs(curve, x);
    assert RootLaw(curve, v, y);
    hide FieldCodecLaws;
    if Root(curve, v).Some? {
      var root := Root(curve, v).value;
      ChosenIsRoot(curve, root, FlagOf(curve, y));
      if Square(curve, y) == v {
        ChooseRecovers(curve, root, y);
      } else if RawPoint(x, ChooseRoot(curve, root, FlagOf(curve, y))) == RawPoint(x, y) {
        RawPointInjective(curve, x, ChooseRoot(curve, root, FlagOf(curve, y)), y);
      }
    }
  }

  /** Every decoded point fills its place in the section. */
  lemma DecompressedLength(curve: Curve, compact: seq<Byte>)
    requires FieldCodecLaws() && |compact| == CompactBytes(curve) && DecompressPoint(curve, compact).Some?
    ensures |DecompressPoint(curve, compact).value| == RawBytes(curve)
  {
    hide ParseWords, WordBytes, ChooseRoot, WithFlag;
    var (words, flag) := SplitFlag(compact).value;
    var x := ParseWords(words).value;
    if flag != Infinity {
      var v := CurveRhs(curve, x);
      assert RootLaw(curve, v, x);
      ChosenIsRoot(curve, Root(curve, v).value, flag);
    }
    hide FieldCodecLaws;
  }
}
