/**
 The witness map of the Groth16 prover: `A * B - C` at the odd points of the doubled domain,
 and why its inner product with the H query is `(A(t) B(t) - C(t)) / delta`.
 */
module WitnessMap {
  import opened Binary
  import opened TreeErrors
  import opened Field
  import opened Polynomials

  datatype QapError = Unsatisfiable | PolynomialDegreeTooLarge

  datatype Outcome<+T> = Good(value: T) | Bad(error: QapError)

  // ----- evaluation domains -----

  datatype Domain = Domain(size: nat, generator: F)

  /** The generator of the domain of `2^k` points, where the field has one. */
  const ROOTS: nat -> Option<F>

  const INVERSE_FFT: (F, seq<F>) -> seq<F>

  function Ifft(g: F, v: seq<F>): seq<F> {
    INVERSE_FFT(g, v)
  }

  function NewDomain(count: nat): Option<Domain> {
    var k := CeilLog2(count);
    match ROOTS(k)
    case None => None
    case Some(g) => Some(Domain(Pow2(k), g))
  }

  /** The inverse transform of a domain interpolates: transforming it back gives the values. */
  ghost predicate Interpolates(k: nat, v: seq<F>) {
    ROOTS(k).Some? && |v| == Pow2(k) ==>
      |Ifft(ROOTS(k).value, v)| == |v| && Fft(Ifft(ROOTS(k).value, v), ROOTS(k).value, |v|) == v
  }

  ghost predicate DomainLaws() {
    FieldLaws() && forall k, v :: Interpolates(k, v)
  }

  /** The largest count with a next power of two in the platform's index type. */
  const POWER_LIMIT: nat := 0x8000_0000_0000_0000

  function DoubleOf(domain: Domain): Outcome<Domain> {
    if 2 * domain.size > POWER_LIMIT then Bad(PolynomialDegreeTooLarge)
    else
      match NewDomain(2 * domain.size)
      case None => Bad(PolynomialDegreeTooLarge)
      case Some(double) =>
        if double.size != 2 * domain.size || FMul(double.generator, double.generator) != domain.generator
        then Bad(PolynomialDegreeTooLarge)
        else Good(double)
  }

  /** `witness_domain`: room for every constraint and public input, with a domain twice as large over it. */
  function WitnessDomain(inputs: nat, constraints: nat, signals: nat): Outcome<Domain> {
    if inputs == 0 || inputs > signals then Bad(Unsatisfiable)
    else if constraints + inputs > POWER_LIMIT then Bad(PolynomialDegreeTooLarge)
    else
      match NewDomain(constraints + inputs)
      case None => Bad(PolynomialDegreeTooLarge)
      case Some(domain) => if DoubleOf(domain).Good? then Good(domain) else Bad(PolynomialDegreeTooLarge)
  }

  ghost predicate IsDomain(domain: Domain) {
    exists k: nat :: domain.size == Pow2(k) && ROOTS(k) == Some(domain.generator)
  }

  lemma NewDomainCovers(count: nat)
    requires NewDomain(count).Some?
    ensures IsDomain(NewDomain(count).value) && count <= NewDomain(count).value.size && NewDomain(count).value.size > 0
  {
    CeilLog2Covers(count);
    assert ROOTS(CeilLog2(count)) == Some(NewDomain(count).value.generator);
  }

  lemma Interpolated(domain: Domain, v: seq<F>)
    requires DomainLaws() && IsDomain(domain) && |v| == domain.size
    ensures |Ifft(domain.generator, v)| == |v|
    ensures Fft(Ifft(domain.generator, v), domain.generator, |v|) == v
  {
    hide FieldLaws, Fft;
    var k: nat :| domain.size == Pow2(k) && ROOTS(k) == Some(domain.generator);
    assert Interpolates(k, v);
  }

  // ----- the values the map returns -----

  /** The rows of C: the products on the constraint rows, zero below. */
  function ProductRows(a: seq<F>, b: seq<F>, constraints: nat): (c: seq<F>)
    requires |a| == |b|
    ensures |c| == |a|
  {
    seq(|a|, i requires 0 <= i < |a| => if i < constraints then FMul(a[i], b[i]) else FZERO)
  }

  /** The polynomials through base-domain values. */
  function AB(g: F, a: seq<F>, b: seq<F>, x: F): F {
    FMul(Eval(Ifft(g, a), x), Eval(Ifft(g, b), x))
  }

  function OddValue(g: F, eta: F, a: seq<F>, b: seq<F>, c: seq<F>, i: nat): F {
    var x := Pow(eta, 2 * i + 1);
    FSub(AB(g, a, b, x), Eval(Ifft(g, c), x))
  }

  /** `A * B - C` at the odd powers of the doubled domain's generator. */
  function OddValues(g: F, eta: F, a: seq<F>, b: seq<F>, constraints: nat): (h: seq<F>)
    requires |a| == |b|
    ensures |h| == |a|
  {
    seq(|a|, i requires 0 <= i < |a| => OddValue(g, eta, a, b, ProductRows(a, b, constraints), i))
  }

  // ----- in-place transforms -----

  method IfftInPlace(domain: Domain, v: array<F>)
    requires DomainLaws() && IsDomain(domain) && v.Length == domain.size
    modifies v
    ensures v[..] == Ifft(domain.generator, old(v[..]))
  {
    hide FieldLaws;
    Interpolated(domain, v[..]);
    var coefficients := Ifft(domain.generator, v[..]);
    forall i | 0 <= i < v.Length {
      v[i] := coefficients[i];
    }
  }

  method FftInPlace(domain: Domain, v: array<F>)
    requires v.Length == domain.size
    modifies v
    ensures v[..] == Fft(old(v[..]), domain.generator, domain.size)
  {
    var values := Fft(v[..], domain.generator, domain.size);
    forall i | 0 <= i < v.Length {
      v[i] := values[i];
    }
  }

  /** `distribute_powers_and_mul_by_const`. */
  method DistributePowers(v: array<F>, g: F, c: F)
    requires FieldLaws()
    modifies v
    ensures v[..] == Distributed(old(v[..]), g, c)
  {
    hide FieldLaws;
    var pow := c;
    FMulOne(c);
    for i := 0 to v.Length
      invariant pow == FMul(c, Pow(g, i))
      invariant forall j | 0 <= j < i :: v[j] == Distributed(old(v[..]), g, c)[j]
      invariant forall j | i <= j < v.Length :: v[j] == old(v[j])
    {
      DistributedAt(old(v[..]), g, c, i);
      v[i] := FMul(v[i], pow);
      FMulAssoc(c, Pow(g, i), g);
      FMulComm(Pow(g, i), g);
      pow := FMul(pow, g);
    }
  }

  /** Base-domain values moved to the odd points: interpolate, shift, evaluate. */
  method MoveToCoset(domain: Domain, eta: F, v: array<F>)
    requires DomainLaws() && IsDomain(domain) && v.Length == domain.size && FMul(eta, eta) == domain.generator
    modifies v
    ensures forall i | 0 <= i < v.Length :: v[i] == Eval(Ifft(domain.generator, old(v[..])), Pow(eta, 2 * i + 1))
  {
    hide FieldLaws, Eval, Distributed;
    IfftInPlace(domain, v);
    DistributePowers(v, eta, FONE);
    FftInPlace(domain, v);
    forall i | 0 <= i < v.Length
      ensures v[i] == Eval(Ifft(domain.generator, old(v[..])), Pow(eta, 2 * i + 1))
    {
      CosetPoint(Ifft(domain.generator, old(v[..])), eta, domain.generator, i);
    }
  }

  lemma CosetPoint(p: seq<F>, eta: F, g: F, i: nat)
    requires FieldLaws() && FMul(eta, eta) == g
    ensures Eval(Distributed(p, eta, FONE), Pow(g, i)) == Eval(p, Pow(eta, 2 * i + 1))
  {
    hide FieldLaws;
    EvalDistributed(p, eta, FONE, Pow(g, i));
    PowSquare(eta, i);
    FMulOne(Eval(p, FMul(eta, Pow(g, i))));
    hide Eval;
  }

  /** The rows of C from those of A and B. */
  method MultiplyRows(a: array<F>, b: array<F>, constraints: nat) returns (c: array<F>)
    requires a.Length == b.Length && constraints <= a.Length
    ensures fresh(c) && c[..] == ProductRows(a[..], b[..], constraints)
  {
    c := new F[a.Length](_ => FZERO);
    for i := 0 to constraints
      invariant forall j | 0 <= j < a.Length :: c[j] == if j < i then FMul(a[j], b[j]) else FZERO
    {
      c[i] := FMul(a[i], b[i]);
    }
  }

  /** `a * b - c`, in place of `a`. */
  method MultiplySubtract(a: array<F>, b: array<F>, c: array<F>)
    requires a.Length == b.Length == c.Length && a != b && a != c
    modifies a
    ensures forall i | 0 <= i < a.Length :: a[i] == FSub(FMul(old(a[i]), b[i]), c[i])
  {
    for i := 0 to a.Length
      invariant forall j | 0 <= j < i :: a[j] == FSub(FMul(old(a[j]), b[j]), c[j])
      invariant forall j | i <= j < a.Length :: a[j] == old(a[j])
    {
      a[i] := FMul(a[i], b[i]);
      a[i] := FSub(a[i], c[i]);
    }
  }

  /** `finish_evaluations`: the odd values replace `a`. */
  method FinishEvaluations(domain: Domain, a: array<F>, b: array<F>, constraints: nat) returns (outcome: Outcome<()>)
    requires DomainLaws() && IsDomain(domain) && a != b
    modifies a, b
    ensures a.Length != domain.size || b.Length != domain.size || constraints > domain.size ==> outcome == Bad(Unsatisfiable)
    ensures a.Length == b.Length == domain.size && constraints <= domain.size ==>
      outcome == match DoubleOf(domain) case Good(_) => Good(()) case Bad(e) => Bad(e)
    ensures outcome.Good? ==>
      a[..] == OddValues(domain.generator, DoubleOf(domain).value.generator, old(a[..]), old(b[..]), constraints)
  {
    hide FieldLaws, Eval, Pow, Ifft;
    if a.Length != domain.size || b.Length != domain.size || constraints > domain.size {
      return Bad(Unsatisfiable);
    }
    var double := DoubleOf(domain);
    if double.Bad? {
      return Bad(double.error);
    }
    var eta := double.value.generator;
    var c := MultiplyRows(a, b, constraints);
    MoveToCoset(domain, eta, a);
    MoveToCoset(domain, eta, b);
    MoveToCoset(domain, eta, c);
    MultiplySubtract(a, b, c);
    outcome := Good(());
  }

  // ----- constraint matrices -----

  /** A row lists coefficients with the signals they multiply. */
  type Row = seq<(F, nat)>

  /** The sum of the first `n` entries of a row. */
  function RowSum(row: Row, assignment: seq<F>, n: nat): F
    requires n <= |row|
    requires forall k | 0 <= k < n :: row[k].1 < |assignment|
  {
    if n == 0 then FZERO else FAdd(RowSum(row, assignment, n - 1), FMul(row[n - 1].0, assignment[row[n - 1].1]))
  }

  predicate InRange(row: Row, signals: nat) {
    forall k | 0 <= k < |row| :: row[k].1 < signals
  }

  /** `evaluate_checked`: a signal outside the assignment is an error. */
  method EvaluateChecked(row: Row, assignment: seq<F>) returns (outcome: Outcome<F>)
    ensures outcome.Good? <==> InRange(row, |assignment|)
    ensures outcome.Bad? ==> outcome.error == Unsatisfiable
    ensures outcome.Good? ==> outcome.value == RowSum(row, assignment, |row|)
  {
    var sum := FZERO;
    for k := 0 to |row|
      invariant forall j | 0 <= j < k :: row[j].1 < |assignment|
      invariant sum == RowSum(row, assignment, k)
    {
      var (coefficient, signal) := row[k];
      if signal >= |assignment| {
        return Bad(Unsatisfiable);
      }
      sum := FAdd(sum, FMul(coefficient, assignment[signal]));
    }
    outcome := Good(sum);
  }

  /** A matrix in compressed sparse rows. */
  datatype CompactMatrix = CompactMatrix(rowOffsets: seq<nat>, coefficients: seq<F>, signals: seq<nat>) {
    function NumRows(): nat {
      if |rowOffsets| == 0 then 0 else |rowOffsets| - 1
    }

    /** Offsets ascend to the number of entries, and every signal is in range. */
    ghost predicate Valid(width: nat) {
      && |coefficients| == |signals|
      && (forall r | 0 <= r < NumRows() :: Ascends(r))
      && (forall k | 0 <= k < |signals| :: signals[k] < width)
    }

    predicate Ascends(r: nat)
      requires r < NumRows()
    {
      rowOffsets[r] <= rowOffsets[r + 1] <= |coefficients|
    }

    /** The row as the nested form lists it. */
    function NestedRow(r: nat): Row
      requires r < NumRows() && Ascends(r) && |coefficients| == |signals|
    {
      seq(rowOffsets[r + 1] - rowOffsets[r], k requires 0 <= k < rowOffsets[r + 1] - rowOffsets[r] =>
        (coefficients[rowOffsets[r] + k], signals[rowOffsets[r] + k]))
    }

    ghost function Nested(width: nat): (rows: seq<Row>)
      requires Valid(width)
      ensures |rows| == NumRows()
    {
      seq(NumRows(), r requires 0 <= r < NumRows() => NestedRow(r))
    }
  }

  /** `evaluate_row` gives the nested row's sum. */
  method EvaluateRow(matrix: CompactMatrix, r: nat, assignment: seq<F>) returns (sum: F)
    requires matrix.Valid(|assignment|) && r < matrix.NumRows()
    ensures InRange(matrix.NestedRow(r), |assignment|)
    ensures sum == RowSum(matrix.NestedRow(r), assignment, |matrix.NestedRow(r)|)
  {
    ghost var row := matrix.NestedRow(r);
    var start, end := matrix.rowOffsets[r], matrix.rowOffsets[r + 1];
    sum := FZERO;
    for k := start to end
      invariant sum == RowSum(row, assignment, k - start)
    {
      sum := FAdd(sum, FMul(matrix.coefficients[k], assignment[matrix.signals[k]]));
    }
  }

  /** All rows in range: what the nested map requires of its matrix. */
  ghost predicate RowsInRange(rows: seq<Row>, signals: nat) {
    forall r | 0 <= r < |rows| :: InRange(rows[r], signals)
  }

  function RowValue(rows: seq<Row>, assignment: seq<F>, r: nat): F
    requires r < |rows| && InRange(rows[r], |assignment|)
  {
    RowSum(rows[r], assignment, |rows[r]|)
  }

  /** Base-domain values: the rows, then the given tail of public inputs, then zeros. */
  ghost function BaseValues(rows: seq<Row>, inputs: nat, assignment: seq<F>, size: nat): (v: seq<F>)
    requires RowsInRange(rows, |assignment|) && inputs <= |assignment|
    ensures |v| == size
  {
    seq(size, i requires 0 <= i < size =>
      if i < |rows| then RowValue(rows, assignment, i)
      else if i < |rows| + inputs then assignment[i - |rows|] else FZERO)
  }

  /** What the witness map is for: both matrices on the base domain, moved to the odd points. */
  ghost function WitnessMapOf(a: seq<Row>, b: seq<Row>, inputs: nat, assignment: seq<F>, domain: Domain): seq<F>
    requires |a| == |b| && RowsInRange(a, |assignment|) && RowsInRange(b, |assignment|) && inputs <= |assignment|
    requires DoubleOf(domain).Good?
  {
    OddValues(domain.generator, DoubleOf(domain).value.generator,
              BaseValues(a, inputs, assignment, domain.size), BaseValues(b, 0, assignment, domain.size), |a|)
  }

  /** `finish_witness_map`: append the public inputs to A, then finish. */
  method FinishWitnessMap(domain: Domain, a: array<F>, b: array<F>, inputs: nat, constraints: nat, assignment: seq<F>)
    returns (outcome: Outcome<seq<F>>)
    requires DomainLaws() && a != b && a.Length == b.Length == domain.size
    requires WitnessDomain(inputs, constraints, |assignment|) == Good(domain)
    modifies a, b
    ensures outcome == Good(OddValues(domain.generator, DoubleOf(domain).value.generator,
              WithInputs(old(a[..]), inputs, constraints, assignment), old(b[..]), constraints))
  {
    hide FieldLaws, OddValues;
    NewDomainCovers(constraints + inputs);
    for i := 0 to inputs
      invariant forall j | 0 <= j < domain.size ::
        a[j] == if constraints <= j < constraints + i then assignment[j - constraints] else old(a[j])
      invariant b[..] == old(b[..])
    {
      a[constraints + i] := assignment[i];
    }
    assert a[..] == WithInputs(old(a[..]), inputs, constraints, assignment);
    var finished := FinishEvaluations(domain, a, b, constraints);
    outcome := Good(a[..]);
  }

  function WithInputs(a: seq<F>, inputs: nat, constraints: nat, assignment: seq<F>): (r: seq<F>)
    requires inputs <= |assignment|
    ensures |r| == |a|
  {
    seq(|a|, j requires 0 <= j < |a| => if constraints <= j < constraints + inputs then assignment[j - constraints] else a[j])
  }

  /** The public inputs overwrite the zeros below the constraint rows. */
  lemma InputsBelowRows(rows: seq<Row>, inputs: nat, assignment: seq<F>, size: nat)
    requires RowsInRange(rows, |assignment|) && inputs <= |assignment| && |rows| + inputs <= size
    ensures WithInputs(BaseValues(rows, 0, assignment, size), inputs, |rows|, assignment) == BaseValues(rows, inputs, assignment, size)
  {
    hide RowsInRange;
  }

  /** Both matrices evaluated row by row; the first signal out of range stops it. */
  method EvaluateNested(left: seq<Row>, right: seq<Row>, assignment: seq<F>, size: nat)
    returns (ok: bool, a: array<F>, b: array<F>)
    requires |left| == |right| <= size
    ensures fresh(a) && fresh(b) && a != b && a.Length == b.Length == size
    ensures ok <==> RowsInRange(left, |assignment|) && RowsInRange(right, |assignment|)
    ensures ok ==> a[..] == BaseValues(left, 0, assignment, size) && b[..] == BaseValues(right, 0, assignment, size)
  {
    hide InRange;
    a, b := new F[size](_ => FZERO), new F[size](_ => FZERO);
    for r := 0 to |left|
      invariant forall j | 0 <= j < r :: InRange(left[j], |assignment|) && InRange(right[j], |assignment|)
      invariant forall j | 0 <= j < size :: a[j] == if j < r then RowValue(left, assignment, j) else FZERO
      invariant forall j | 0 <= j < size :: b[j] == if j < r then RowValue(right, assignment, j) else FZERO
    {
      var leftValue := EvaluateChecked(left[r], assignment);
      if leftValue.Bad? {
        ok := false;
        return;
      }
      var rightValue := EvaluateChecked(right[r], assignment);
      if rightValue.Bad? {
        ok := false;
        return;
      }
      a[r], b[r] := leftValue.value, rightValue.value;
    }
    ok := true;
  }

  /** `witness_map_from_matrices`, over nested matrices. */
  method WitnessMapFromMatrices(matrices: seq<seq<Row>>, inputs: nat, constraints: nat, assignment: seq<F>)
    returns (outcome: Outcome<seq<F>>)
    requires DomainLaws()
    ensures WitnessDomain(inputs, constraints, |assignment|).Bad? ==>
      outcome == Bad(WitnessDomain(inputs, constraints, |assignment|).error)
    ensures WitnessDomain(inputs, constraints, |assignment|).Good? ==>
      (outcome.Good? <==>
         |matrices| >= 2 && |matrices[0]| == |matrices[1]| == constraints &&
         RowsInRange(matrices[0], |assignment|) && RowsInRange(matrices[1], |assignment|)) &&
      (outcome.Bad? ==> outcome.error == Unsatisfiable)
    ensures outcome.Good? ==>
      outcome.value == WitnessMapOf(matrices[0], matrices[1], inputs, assignment,
                                    WitnessDomain(inputs, constraints, |assignment|).value)
  {
    hide FieldLaws, OddValues, DoubleOf, RowsInRange, BaseValues, WithInputs;
    var found := WitnessDomain(inputs, constraints, |assignment|);
    if found.Bad? {
      return Bad(found.error);
    }
    var domain := found.value;
    NewDomainCovers(constraints + inputs);
    if |matrices| < 2 || |matrices[0]| != constraints || |matrices[1]| != constraints {
      return Bad(Unsatisfiable);
    }
    var ok, a, b := EvaluateNested(matrices[0], matrices[1], assignment, domain.size);
    if !ok {
      return Bad(Unsatisfiable);
    }
    InputsBelowRows(matrices[0], inputs, assignment, domain.size);
    outcome := FinishWitnessMap(domain, a, b, inputs, constraints, assignment);
  }

  /** The rows of compact matrices evaluated: the base values of their nested form. */
  method EvaluateCompact(left: CompactMatrix, right: CompactMatrix, assignment: seq<F>, size: nat)
    returns (a: array<F>, b: array<F>)
    requires left.Valid(|assignment|) && right.Valid(|assignment|) && left.NumRows() == right.NumRows() <= size
    ensures fresh(a) && fresh(b) && a != b && a.Length == b.Length == size
    ensures RowsInRange(left.Nested(|assignment|), |assignment|) && RowsInRange(right.Nested(|assignment|), |assignment|)
    ensures a[..] == BaseValues(left.Nested(|assignment|), 0, assignment, size)
    ensures b[..] == BaseValues(right.Nested(|assignment|), 0, assignment, size)
  {
    NestedInRange(left, |assignment|);
    NestedInRange(right, |assignment|);
    hide InRange;
    ghost var leftRows, rightRows := left.Nested(|assignment|), right.Nested(|assignment|);
    a, b := new F[size](_ => FZERO), new F[size](_ => FZERO);
    for r := 0 to left.NumRows()
      invariant forall j | 0 <= j < size :: a[j] == if j < r then RowValue(leftRows, assignment, j) else FZERO
      invariant forall j | 0 <= j < size :: b[j] == if j < r then RowValue(rightRows, assignment, j) else FZERO
    {
      var l := EvaluateRow(left, r, assignment);
      var m := EvaluateRow(right, r, assignment);
      a[r], b[r] := l, m;
    }
  }

  lemma NestedInRange(matrix: CompactMatrix, width: nat)
    requires matrix.Valid(width)
    ensures RowsInRange(matrix.Nested(width), width)
  {
    forall r | 0 <= r < matrix.NumRows()
      ensures InRange(matrix.Nested(width)[r], width)
    {
      var row := matrix.NestedRow(r);
      assert forall k | 0 <= k < |row| :: row[k].1 == matrix.signals[matrix.rowOffsets[r] + k];
    }
  }

  /** `witness_map_from_compact_matrices`: the same map as over the nested rows. */
  method WitnessMapFromCompactMatrices(left: CompactMatrix, right: CompactMatrix, inputs: nat, constraints: nat, assignment: seq<F>)
    returns (outcome: Outcome<seq<F>>)
    requires DomainLaws() && left.Valid(|assignment|) && right.Valid(|assignment|)
    ensures WitnessDomain(inputs, constraints, |assignment|).Bad? ==>
      outcome == Bad(WitnessDomain(inputs, constraints, |assignment|).error)
    ensures WitnessDomain(inputs, constraints, |assignment|).Good? ==>
      (outcome.Good? <==> left.NumRows() == right.NumRows() == constraints) &&
      (outcome.Bad? ==> outcome.error == Unsatisfiable)
    ensures outcome.Good? ==>
      RowsInRange(left.Nested(|assignment|), |assignment|) && RowsInRange(right.Nested(|assignment|), |assignment|) &&
      outcome.value == WitnessMapOf(left.Nested(|assignment|), right.Nested(|assignment|), inputs, assignment,
                                    WitnessDomain(inputs, constraints, |assignment|).value)
  {
    hide FieldLaws, OddValues, DoubleOf, RowsInRange, BaseValues, WithInputs;
    var found := WitnessDomain(inputs, constraints, |assignment|);
    if found.Bad? {
      return Bad(found.error);
    }
    var domain := found.value;
    NewDomainCovers(constraints + inputs);
    if left.NumRows() != constraints || right.NumRows() != constraints {
      return Bad(Unsatisfiable);
    }
    var a, b := EvaluateCompact(left, right, assignment, domain.size);
    InputsBelowRows(left.Nested(|assignment|), inputs, assignment, domain.size);
    outcome := FinishWitnessMap(domain, a, b, inputs, constraints, assignment);
  }

  // ----- the H query -----

  function PowerAt(t: F, delta: F, i: nat): F {
    FMul(delta, Pow(t, i))
  }

  /** `delta * t^i` for `i < count`, then zeros up to the domain. */
  function PaddedPowers(t: F, delta: F, count: nat, size: nat): (s: seq<F>)
    ensures |s| == size
  {
    seq(size, i requires 0 <= i < size => if i < count then PowerAt(t, delta, i) else FZERO)
  }

  /** Every second entry, from the second on. */
  function OddEntries(v: seq<F>): (r: seq<F>)
    ensures |r| == |v| / 2
  {
    seq(|v| / 2, i requires 0 <= i < |v| / 2 => v[2 * i + 1])
  }

  /** `h_query_scalars`. */
  function HQueryScalars(maxPower: nat, t: F, deltaInverse: F): Outcome<seq<F>> {
    var count := 2 * maxPower + 1;
    if count > POWER_LIMIT then Bad(PolynomialDegreeTooLarge)
    else
      match NewDomain(if count < 2 then 2 else count)
      case None => Bad(PolynomialDegreeTooLarge)
      case Some(domain) => Good(OddEntries(Ifft(domain.generator, PaddedPowers(t, deltaInverse, count, domain.size))))
  }

  /** The query of a domain of `2^k` points lives on the doubled domain. */
  lemma QueryDomain(domain: Domain, double: Domain)
    requires IsDomain(domain) && NewDomain(2 * domain.size) == Some(double) && double.size == 2 * domain.size
    ensures var count := 2 * (domain.size - 1) + 1;
      domain.size > 0 && NewDomain(if count < 2 then 2 else count) == Some(double)
  {
    var k: nat :| domain.size == Pow2(k) && ROOTS(k) == Some(domain.generator);
    var n := domain.size;
    CeilLog2Exact(2 * n, k);
    if n > 1 {
      CeilLog2Exact(2 * n - 1, k);
    }
  }

  /** `A * B - C` as one polynomial of `2n - 1` coefficients. */
  function Numerator(g: F, a: seq<F>, b: seq<F>, c: seq<F>): seq<F> {
    Plus(Product(Ifft(g, a), Ifft(g, b)), Negated(Ifft(g, c)))
  }

  lemma NumeratorValue(g: F, a: seq<F>, b: seq<F>, c: seq<F>, x: F)
    requires FieldLaws()
    ensures Eval(Numerator(g, a, b, c), x) == FSub(AB(g, a, b, x), Eval(Ifft(g, c), x))
  {
    hide FieldLaws, Eval, Product, Plus, Negated;
    EvalPlus(Product(Ifft(g, a), Ifft(g, b)), Negated(Ifft(g, c)), x);
    EvalProduct(Ifft(g, a), Ifft(g, b), x);
    EvalNegated(Ifft(g, c), x);
  }

  /** On the base domain the numerator vanishes: on constraint rows by C, below because A or B is zero there. */
  lemma NumeratorVanishes(domain: Domain, eta: F, a: seq<F>, b: seq<F>, constraints: nat, i: nat)
    requires DomainLaws() && IsDomain(domain) && |a| == |b| == domain.size && i < domain.size
    requires FMul(eta, eta) == domain.generator
    requires i >= constraints ==> FMul(a[i], b[i]) == FZERO
    ensures Eval(Numerator(domain.generator, a, b, ProductRows(a, b, constraints)), Pow(eta, 2 * i)) == FZERO
  {
    hide FieldLaws, Eval, Numerator;
    var g, c := domain.generator, ProductRows(a, b, constraints);
    PowSquare(eta, i);
    NumeratorValue(g, a, b, c, Pow(g, i));
    Interpolated(domain, a);
    Interpolated(domain, b);
    Interpolated(domain, c);
    FftAt(Ifft(g, a), g, |a|, i);
    FftAt(Ifft(g, b), g, |a|, i);
    FftAt(Ifft(g, c), g, |a|, i);
    FSubZero(FMul(a[i], b[i]), c[i]);
  }

  lemma {:induction false} DotPowers(p: seq<F>, t: F, c: F)
    requires FieldLaws()
    ensures Dot(p, PaddedPowers(t, c, |p|, |p|)) == FMul(c, Eval(p, t))
  {
    hide FieldLaws;
    if p == [] {
      FMulZero(c);
    } else {
      var s, rest := PaddedPowers(t, c, |p|, |p|), p[1..];
      DotPowers(rest, t, FMul(c, t));
      assert s[1..] == PaddedPowers(t, FMul(c, t), |rest|, |rest|) by {
        forall i | 0 <= i < |rest|
          ensures s[1..][i] == PaddedPowers(t, FMul(c, t), |rest|, |rest|)[i]
        {
          FMulAssoc(c, t, Pow(t, i));
        }
      }
      FMulOne(c);
      FMulComm(p[0], c);
      FMulAssoc(c, t, Eval(rest, t));
      FDistrib(c, p[0], FMul(t, Eval(rest, t)));
    }
  }

  /** An inner product whose even entries vanish is that of the odd entries. */
  lemma {:induction false} DotOdd(u: seq<F>, v: seq<F>)
    requires FieldLaws() && |u| == |v| && |u| % 2 == 0
    requires forall i | 0 <= i < |u| / 2 :: u[2 * i] == FZERO
    ensures Dot(u, v) == Dot(OddEntries(u), OddEntries(v))
    decreases |u|
  {
    hide FieldLaws;
    if u != [] {
      assert forall i | 0 <= i < |u[2..]| / 2 :: u[2..][2 * i] == u[2 * (i + 1)];
      DotOdd(u[2..], v[2..]);
      assert u[1..][1..] == u[2..] && v[1..][1..] == v[2..];
      assert u[0] == u[2 * 0] && OddEntries(u)[0] == u[1] && OddEntries(v)[0] == v[1];
      assert OddEntries(u)[1..] == OddEntries(u[2..]) && OddEntries(v)[1..] == OddEntries(v[2..]);
      FMulZero(v[0]);
      FAddZero(Dot(u[1..], v[1..]));
    }
  }

  /**
   The inner product of the witness map with the H query is `(A(t) B(t) - C(t)) * delta_inverse`,
   for any values whose products vanish below the constraint rows.
   */
  lemma WitnessMapTimesQuery(domain: Domain, a: seq<F>, b: seq<F>, constraints: nat, t: F, deltaInverse: F)
    requires DomainLaws() && IsDomain(domain) && DoubleOf(domain).Good? && |a| == |b| == domain.size
    requires forall i | constraints <= i < domain.size :: FMul(a[i], b[i]) == FZERO
    ensures var (g, eta) := (domain.generator, DoubleOf(domain).value.generator);
      var query := HQueryScalars(domain.size - 1, t, deltaInverse);
      && query.Good? && |query.value| == |a|
      && Dot(OddValues(g, eta, a, b, constraints), query.value) ==
         FMul(deltaInverse, FSub(AB(g, a, b, t), Eval(Ifft(g, ProductRows(a, b, constraints)), t)))
  {
    hide FieldLaws, Eval, Numerator, Fft, Dot, OddEntries, PaddedPowers, AB, Pow;
    var g, double, n := domain.generator, DoubleOf(domain).value, domain.size;
    var eta, c := double.generator, ProductRows(a, b, constraints);
    NewDomainCovers(2 * n);
    QueryDomain(domain, double);
    var p, count := Numerator(g, a, b, c), 2 * n - 1;
    NumeratorLength(domain, a, b, c);
    var s := PaddedPowers(t, deltaInverse, count, 2 * n);
    Interpolated(double, s);
    var l := Ifft(eta, s);
    OddEntriesOfNumerator(domain, eta, a, b, constraints);
    DotOdd(Fft(p, eta, 2 * n), l);
    FftDual(p, l, eta);
    TruncatedFft(l, eta, s, t, deltaInverse, count);
    DotPowers(p, t, deltaInverse);
    NumeratorValue(g, a, b, c, t);
  }

  lemma NumeratorLength(domain: Domain, a: seq<F>, b: seq<F>, c: seq<F>)
    requires DomainLaws() && IsDomain(domain) && domain.size > 0 && |a| == |b| == |c| == domain.size
    ensures |Numerator(domain.generator, a, b, c)| == 2 * domain.size - 1
  {
    hide FieldLaws;
    Interpolated(domain, a);
    Interpolated(domain, b);
    Interpolated(domain, c);
  }

  lemma OddEntriesOfNumerator(domain: Domain, eta: F, a: seq<F>, b: seq<F>, constraints: nat)
    requires DomainLaws() && IsDomain(domain) && |a| == |b| == domain.size && FMul(eta, eta) == domain.generator
    requires forall i | constraints <= i < domain.size :: FMul(a[i], b[i]) == FZERO
    ensures var values := Fft(Numerator(domain.generator, a, b, ProductRows(a, b, constraints)), eta, 2 * domain.size);
      && (forall i | 0 <= i < |values| / 2 :: values[2 * i] == FZERO)
      && OddEntries(values) == OddValues(domain.generator, eta, a, b, constraints)
  {
    hide FieldLaws, Eval, Numerator, Fft, AB, Pow, ProductRows;
    var g, n, c := domain.generator, domain.size, ProductRows(a, b, constraints);
    var p := Numerator(g, a, b, c);
    var values := Fft(p, eta, 2 * n);
    forall i | 0 <= i < n
      ensures values[2 * i] == FZERO && values[2 * i + 1] == OddValue(g, eta, a, b, c, i)
    {
      FftAt(p, eta, 2 * n, 2 * i);
      FftAt(p, eta, 2 * n, 2 * i + 1);
      NumeratorVanishes(domain, eta, a, b, constraints, i);
      NumeratorValue(g, a, b, c, Pow(eta, 2 * i + 1));
    }
  }

  /** Fewer values of the same transform are its prefix; here, the powers without the padding. */
  lemma TruncatedFft(l: seq<F>, eta: F, s: seq<F>, t: F, delta: F, count: nat)
    requires count <= |s| && s == PaddedPowers(t, delta, count, |s|) && Fft(l, eta, |s|) == s
    ensures Fft(l, eta, count) == PaddedPowers(t, delta, count, count)
  {
    hide Fft, PowerAt;
    forall i | 0 <= i < count
      ensures Fft(l, eta, count)[i] == s[i]
    {
      FftAt(l, eta, count, i);
      FftAt(l, eta, |s|, i);
    }
  }

  /** The values either map builds meet the query's condition: B is zero below the constraint rows. */
  lemma MapMeetsQuery(a: seq<Row>, b: seq<Row>, inputs: nat, assignment: seq<F>, domain: Domain, t: F, deltaInverse: F)
    requires DomainLaws() && WitnessDomain(inputs, |a|, |assignment|) == Good(domain)
    requires |a| == |b| && RowsInRange(a, |assignment|) && RowsInRange(b, |assignment|)
    ensures IsDomain(domain)
    ensures var (g, left, right) := (domain.generator, BaseValues(a, inputs, assignment, domain.size), BaseValues(b, 0, assignment, domain.size));
      var query := HQueryScalars(domain.size - 1, t, deltaInverse);
      && query.Good? && |query.value| == domain.size
      && Dot(WitnessMapOf(a, b, inputs, assignment, domain), query.value) ==
         FMul(deltaInverse, FSub(AB(g, left, right, t), Eval(Ifft(g, ProductRows(left, right, |a|)), t)))
  {
    hide FieldLaws, Eval, Dot, AB, OddValues, HQueryScalars, ProductRows, DoubleOf, RowsInRange;
    NewDomainCovers(|a| + inputs);
    var left, right := BaseValues(a, inputs, assignment, domain.size), BaseValues(b, 0, assignment, domain.size);
    forall i | |a| <= i < domain.size
      ensures FMul(left[i], right[i]) == FZERO
    {
      FMulZero(left[i]);
    }
    WitnessMapTimesQuery(domain, left, right, |a|, t, deltaInverse);
  }

  // ----- the map without its own definitions -----

  /** `2^k` is the smallest power of two that holds `count` points. */
  predicate Smallest(k: nat, count: nat) {
    count <= Pow2(k) && (k > 0 ==> Pow2(k - 1) < count)
  }

  /** The domain of `2^k` points, with the domain twice as large over it and inside the index type. */
  ghost predicate Doubles(k: nat, domain: Domain) {
    && domain.size == Pow2(k) && ROOTS(k) == Some(domain.generator)
    && 2 * Pow2(k) <= POWER_LIMIT
    && ROOTS(k + 1).Some? && FMul(ROOTS(k + 1).value, ROOTS(k + 1).value) == domain.generator
  }

  lemma DoubleIff(k: nat, domain: Domain)
    requires domain.size == Pow2(k) && ROOTS(k) == Some(domain.generator)
    ensures DoubleOf(domain).Good? <==> Doubles(k, domain)
    ensures DoubleOf(domain).Good? ==> DoubleOf(domain).value == Domain(Pow2(k + 1), ROOTS(k + 1).value)
    ensures DoubleOf(domain).Bad? ==> DoubleOf(domain).error == PolynomialDegreeTooLarge
  {
    CeilLog2Exact(2 * domain.size, k);
  }

  /**
   The map has a domain exactly for a positive number of public inputs that are all assigned and
   a smallest fitting power of two with a root, a doubled root and room; the error is unsatisfiable
   exactly for the inputs.
   */
  lemma WitnessDomainIff(inputs: nat, constraints: nat, signals: nat, domain: Domain)
    ensures WitnessDomain(inputs, constraints, signals) == Good(domain) <==>
      0 < inputs <= signals && exists k: nat :: Smallest(k, constraints + inputs) && Doubles(k, domain)
    ensures WitnessDomain(inputs, constraints, signals) == Bad(Unsatisfiable) <==> !(0 < inputs <= signals)
  {
    hide Pow2;
    if 0 < inputs <= signals {
      var count := constraints + inputs;
      var k := CeilLog2(count);
      CeilLog2Smallest(count);
      if ROOTS(k).Some? {
        DoubleIff(k, Domain(Pow2(k), ROOTS(k).value));
      }
      forall j: nat | Smallest(j, count)
        ensures j == k
      {
        SmallestUnique(j, k, count);
      }
    }
  }

  lemma CeilLog2Smallest(count: nat)
    requires count > 0
    ensures Smallest(CeilLog2(count), count)
  {
    CeilLog2Covers(count);
  }

  lemma SmallestUnique(j: nat, k: nat, count: nat)
    requires Smallest(j, count) && Smallest(k, count)
    ensures j == k
  {
    hide Pow2;
    if j < k {
      Pow2Monotone(j, k - 1);
    } else if k < j {
      Pow2Monotone(k, j - 1);
    }
  }

  /** The sum of a row is the inner product of its coefficients with the signals it names. */
  lemma {:induction false} RowSumIsDot(row: Row, assignment: seq<F>)
    requires FieldLaws() && InRange(row, |assignment|)
    ensures RowSum(row, assignment, |row|) ==
      Dot(seq(|row|, k requires 0 <= k < |row| => row[k].0), seq(|row|, k requires 0 <= k < |row| => assignment[row[k].1]))
  {
    hide FieldLaws;
    if row != [] {
      var last := |row| - 1;
      var init := row[..last];
      RowSumIsDot(init, assignment);
      RowSumPrefix(row, assignment, last);
      var (c, z) := (seq(|row|, k requires 0 <= k < |row| => row[k].0), seq(|row|, k requires 0 <= k < |row| => assignment[row[k].1]));
      assert c == seq(last, k requires 0 <= k < last => init[k].0) + [row[last].0];
      assert z == seq(last, k requires 0 <= k < last => assignment[init[k].1]) + [assignment[row[last].1]];
      DotSnoc(c[..last], z[..last], row[last].0, assignment[row[last].1]);
    }
  }

  lemma {:induction false} RowSumPrefix(row: Row, assignment: seq<F>, n: nat)
    requires n <= |row| && InRange(row, |assignment|)
    ensures RowSum(row[..n], assignment, n) == RowSum(row, assignment, n)
    decreases n
  {
    if n > 0 {
      RowSumPrefix(row, assignment, n - 1);
      RowSumPrefix(row[..n], assignment, n - 1);
      assert row[..n][..n - 1] == row[..n - 1];
    }
  }

  lemma {:induction false} DotSnoc(u: seq<F>, v: seq<F>, a: F, b: F)
    requires FieldLaws() && |u| == |v|
    ensures Dot(u + [a], v + [b]) == FAdd(Dot(u, v), FMul(a, b))
  {
    hide FieldLaws;
    if u == [] {
      FAddComm(FMul(a, b), FZERO);
      assert ([] + [a])[1..] == [] && ([] + [b])[1..] == [];
    } else {
      DotSnoc(u[1..], v[1..], a, b);
      assert (u + [a])[1..] == u[1..] + [a] && (v + [b])[1..] == v[1..] + [b];
      FAddAssoc(FMul(u[0], v[0]), Dot(u[1..], v[1..]), FMul(a, b));
    }
  }

  /** The value of a matrix at base point `i`: its row, a public input below the rows, or zero. */
  ghost predicate MatrixValue(p: seq<F>, rows: seq<Row>, inputs: nat, assignment: seq<F>, g: F, i: nat) {
    Eval(p, Pow(g, i)) ==
      if i < |rows| && InRange(rows[i], |assignment|) then RowSum(rows[i], assignment, |rows[i]|)
      else if |rows| <= i < |rows| + inputs <= |rows| + |assignment| then assignment[i - |rows|]
      else FZERO
  }

  ghost predicate ProductValue(a: seq<F>, b: seq<F>, c: seq<F>, constraints: nat, g: F, i: nat) {
    Eval(c, Pow(g, i)) == if i < constraints then FMul(Eval(a, Pow(g, i)), Eval(b, Pow(g, i))) else FZERO
  }

  /**
   What the map is for: there are polynomials A, B and C that take, on the base domain, the values
   of the matrices with the public inputs below A's rows, and the row products, such that the inner
   product of the map with the H query is `(A(t) B(t) - C(t)) * delta_inverse`.
   */
  lemma MapIsQap(a: seq<Row>, b: seq<Row>, inputs: nat, assignment: seq<F>, domain: Domain, t: F, deltaInverse: F)
    returns (p: seq<F>, q: seq<F>, r: seq<F>)
    requires DomainLaws() && WitnessDomain(inputs, |a|, |assignment|) == Good(domain)
    requires |a| == |b| && RowsInRange(a, |assignment|) && RowsInRange(b, |assignment|)
    ensures |p| == |q| == |r| == domain.size
    ensures forall i | 0 <= i < domain.size ::
      && MatrixValue(p, a, inputs, assignment, domain.generator, i)
      && MatrixValue(q, b, 0, assignment, domain.generator, i)
      && ProductValue(p, q, r, |a|, domain.generator, i)
    ensures var query := HQueryScalars(domain.size - 1, t, deltaInverse);
      && query.Good? && |query.value| == domain.size
      && Dot(WitnessMapOf(a, b, inputs, assignment, domain), query.value)
         == FMul(deltaInverse, FSub(FMul(Eval(p, t), Eval(q, t)), Eval(r, t)))
  {
    hide FieldLaws, Eval, Dot, Pow, OddValues, HQueryScalars, DoubleOf, RowsInRange, Fft, Ifft;
    MapMeetsQuery(a, b, inputs, assignment, domain, t, deltaInverse);
    NewDomainCovers(|a| + inputs);
    var g, left, right := domain.generator, BaseValues(a, inputs, assignment, domain.size), BaseValues(b, 0, assignment, domain.size);
    var products := ProductRows(left, right, |a|);
    p, q, r := Ifft(g, left), Ifft(g, right), Ifft(g, products);
    forall i | 0 <= i < domain.size
      ensures Eval(p, Pow(g, i)) == left[i] && Eval(q, Pow(g, i)) == right[i] && Eval(r, Pow(g, i)) == products[i]
    {
      ValueAt(domain, left, i);
      ValueAt(domain, right, i);
      ValueAt(domain, products, i);
    }
    Interpolated(domain, left);
    Interpolated(domain, right);
    Interpolated(domain, products);
    forall i | 0 <= i < domain.size
      ensures MatrixValue(p, a, inputs, assignment, g, i) && MatrixValue(q, b, 0, assignment, g, i)
      ensures ProductValue(p, q, r, |a|, g, i)
    {
      BaseValueMeans(a, inputs, assignment, domain.size, i);
      BaseValueMeans(b, 0, assignment, domain.size, i);
    }
  }

  lemma ValueAt(domain: Domain, v: seq<F>, i: nat)
    requires DomainLaws() && IsDomain(domain) && |v| == domain.size && i < domain.size
    ensures Eval(Ifft(domain.generator, v), Pow(domain.generator, i)) == v[i]
  {
    hide FieldLaws, Eval, Pow, Ifft;
    Interpolated(domain, v);
    FftAt(Ifft(domain.generator, v), domain.generator, |v|, i);
  }

  lemma BaseValueMeans(rows: seq<Row>, inputs: nat, assignment: seq<F>, size: nat, i: nat)
    requires RowsInRange(rows, |assignment|) && inputs <= |assignment| && i < size
    ensures BaseValues(rows, inputs, assignment, size)[i] ==
      if i < |rows| && InRange(rows[i], |assignment|) then RowSum(rows[i], assignment, |rows[i]|)
      else if |rows| <= i < |rows| + inputs <= |rows| + |assignment| then assignment[i - |rows|]
      else FZERO
  {
    hide InRange;
  }
}
