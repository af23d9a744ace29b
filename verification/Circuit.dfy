/** The eight-gate circuit of the landed cost: the fixed-point witness (zk/witness/generator.py),
    the gate table (zk/compiler/plonk_adapter.py) and the rows and instance bindings of the
    proving backend (zk/rust_backend/src/main.rs). The field is the integers modulo p. */
module Circuit {
  import opened Common
  import opened NumberTheory
  import opened Decimals
  import opened Engine

  const FIXED_POINT_SCALE: nat := 1_000_000
  const GATE_COUNT: nat := 8
  const INSTANCE_COUNT: nat := 13

  /** `to_fixed_point` of an amount in cents. */
  function ToFixedPoint(cents: nat, p: nat): nat
    requires 0 < p
  {
    Rescale(Mul(Cents(cents), Dec(FIXED_POINT_SCALE, 0)), 0) % p
  }

  /** The fixed-point value is exact: the 28-digit product only drops zeros. */
  lemma FixedPointExact(cents: nat, p: nat)
    requires 0 < p && cents < LIMIT
    ensures ToFixedPoint(cents, p) == cents * 10_000 % p
  {
    assert Pow10(2) == 100 && Pow10(3) == 1000;
    Pow10Add(3, 3);
    var n := cents * FIXED_POINT_SCALE;
    FitIntZeros(cents, 6);
    FitValue(Dec(n, -2));
    RescaleAt(Mul(Cents(cents), Dec(FIXED_POINT_SCALE, 0)), -2, n, 0);
    Associate(cents, 10_000, 100);
    HalfUpExact(cents * 10_000, 100);
  }

  // ------------------------------------------------------------------------- wires

  datatype Wire =
    | CustomsValue | Quantity | ExtendedValue | OneWire | Duty | S301 | Mpf | Hmf
    | FeePartial | MpfHmfSum | FeeFull | BaseSum | LandedCost | Freight | Insurance

  /** The fixed-point numbers the wires are computed from. */
  datatype Inputs = Inputs(customsValue: nat, quantity: nat, freight: nat, insurance: nat, duty: nat, s301: nat, mpf: nat, hmf: nat, landed: nat)

  /** The inputs as the source encodes them, modulo p. */
  function Encode(r: Request, b: Breakdown, p: nat): Inputs
    requires 0 < p
  {
    Inputs(ToFixedPoint(r.customsValue, p), r.quantity % p, ToFixedPoint(r.freight, p), ToFixedPoint(r.insurance, p),
           ToFixedPoint(b.duty, p), ToFixedPoint(b.section301, p), ToFixedPoint(b.mpf, p), ToFixedPoint(b.hmf, p), ToFixedPoint(b.landed, p))
  }

  /** The wire map of `generate_assignment`, reduced where the source reduces it. */
  function WireValue(x: Inputs, p: nat, w: Wire): nat
    requires 0 < p
  {
    match w
    case CustomsValue => x.customsValue
    case Quantity => x.quantity
    case ExtendedValue => x.customsValue * x.quantity % p
    case OneWire => 1
    case Duty => x.duty
    case S301 => x.s301
    case Mpf => x.mpf
    case Hmf => x.hmf
    case FeePartial => (x.duty + x.s301) % p
    case MpfHmfSum => (x.mpf + x.hmf) % p
    case FeeFull => ((x.duty + x.s301) % p + (x.mpf + x.hmf) % p) % p
    case BaseSum => (x.customsValue * x.quantity % p + x.freight + x.insurance) % p
    case LandedCost => x.landed
    case Freight => x.freight
    case Insurance => x.insurance
  }

  datatype Assignment = Assignment(aCol: seq<nat>, bCol: seq<nat>, cCol: seq<nat>)

  function Columns(v: Wire -> nat): Assignment {
    Assignment(
      [v(CustomsValue), v(Duty), v(S301), v(Mpf), v(Hmf), v(Duty), v(FeePartial), v(BaseSum)],
      [v(Quantity), v(OneWire), v(OneWire), v(OneWire), v(OneWire), v(S301), v(MpfHmfSum), v(FeeFull)],
      [v(ExtendedValue), v(Duty), v(S301), v(Mpf), v(Hmf), v(FeePartial), v(FeeFull), v(LandedCost)])
  }

  /** `generate_assignment`. */
  function GenerateAssignment(x: Inputs, p: nat): Assignment
    requires 0 < p
  {
    Columns((w: Wire) => WireValue(x, p, w))
  }

  // ------------------------------------------------------------------------- gates

  datatype Gate = Gate(a: Wire, b: Wire, c: Wire, qL: int, qR: int, qM: int, qO: int, qC: int)

  function MulGate(a: Wire, b: Wire, c: Wire, p: nat): Gate {
    Gate(a, b, c, 0, 0, 1, p - 1, 0)
  }

  function AddGate(a: Wire, b: Wire, c: Wire, p: nat): Gate {
    Gate(a, b, c, 1, 1, 0, p - 1, 0)
  }

  /** The gate table. */
  function Gates(p: nat): (g: seq<Gate>)
    ensures |g| == GATE_COUNT
  {
    [MulGate(CustomsValue, Quantity, ExtendedValue, p), MulGate(Duty, OneWire, Duty, p),
     MulGate(S301, OneWire, S301, p), MulGate(Mpf, OneWire, Mpf, p), MulGate(Hmf, OneWire, Hmf, p),
     AddGate(Duty, S301, FeePartial, p), AddGate(FeePartial, MpfHmfSum, FeeFull, p),
     AddGate(BaseSum, FeeFull, LandedCost, p)]
  }

  /** The general selector equation of a gate over its three wire values. */
  predicate Selects(g: Gate, a: int, b: int, c: int, p: nat)
    requires 0 < p
  {
    (g.qL * a + g.qR * b + g.qM * (a * b) + g.qO * c + g.qC) % p == 0
  }

  predicate RowHolds(row: nat, a: int, b: int, c: int, p: nat)
    requires 0 < p
  {
    (if row < 5 then a * b - c else a + b - c) % p == 0
  }

  /** The assignment puts the wires of every gate into its row. */
  lemma ColumnsFollowGates(v: Wire -> nat, p: nat, i: nat)
    requires i < GATE_COUNT
    ensures var s, g := Columns(v), Gates(p)[i];
      && |s.aCol| == |s.bCol| == |s.cCol| == GATE_COUNT
      && s.aCol[i] == v(g.a) && s.bCol[i] == v(g.b) && s.cCol[i] == v(g.c)
  {}

  lemma MinusOne(x: int, c: int, p: nat)
    requires 0 < p
    ensures (x + (p - 1) * c) % p == (x - c) % p
  {
    assert (p - 1) * c == p * c - c;
    ModShift(p, x - c, c);
  }

  /** MINUS_ONE is p - 1, so the table's equation is the row's own modulo p. */
  lemma SelectorIsRow(i: nat, a: int, b: int, c: int, p: nat)
    requires 0 < p && i < GATE_COUNT
    ensures Selects(Gates(p)[i], a, b, c, p) <==> RowHolds(i, a, b, c, p)
  {
    MinusOne(a * b, c, p);
    MinusOne(a + b, c, p);
    var g := Gates(p)[i];
    if i < 5 {
      assert g.qL == g.qR == g.qC == 0 && g.qM == 1 && g.qO == p - 1;
    } else {
      assert g.qL == g.qR == 1 && g.qC == g.qM == 0 && g.qO == p - 1;
    }
  }

  /** `verify_gate_constraints`. */
  method VerifyGateConstraints(s: Assignment, p: nat) returns (results: seq<bool>)
    requires 0 < p && |s.aCol| == |s.bCol| == |s.cCol| == GATE_COUNT
    ensures |results| == GATE_COUNT
    ensures forall i :: 0 <= i < GATE_COUNT ==> results[i] == Selects(Gates(p)[i], s.aCol[i], s.bCol[i], s.cCol[i], p)
  {
    results := [];
    for index := 0 to 5
      invariant |results| == index
      invariant forall i :: 0 <= i < index ==> results[i] == RowHolds(i, s.aCol[i], s.bCol[i], s.cCol[i], p)
    {
      results := results + [(s.aCol[index] * s.bCol[index] - s.cCol[index]) % p == 0];
    }
    for index := 5 to 8
      invariant |results| == index
      invariant forall i :: 0 <= i < index ==> results[i] == RowHolds(i, s.aCol[i], s.bCol[i], s.cCol[i], p)
    {
      results := results + [(s.aCol[index] + s.bCol[index] - s.cCol[index]) % p == 0];
    }
    forall i | 0 <= i < GATE_COUNT
      ensures results[i] == Selects(Gates(p)[i], s.aCol[i], s.bCol[i], s.cCol[i], p)
    {
      SelectorIsRow(i, s.aCol[i], s.bCol[i], s.cCol[i], p);
    }
  }

  // --------------------------------------------------------------- generated witnesses

  /** What the landed cost should be. */
  function Total(x: Inputs): nat {
    x.customsValue * x.quantity + x.freight + x.insurance + x.duty + x.s301 + x.mpf + x.hmf
  }

  predicate GeneratedGate(x: Inputs, p: nat, i: nat)
    requires 0 < p && i < 8
  {
    var s := GenerateAssignment(x, p);
    Selects(Gates(p)[i], s.aCol[i], s.bCol[i], s.cCol[i], p)
  }

  lemma ReducedAway(p: nat, a: int)
    requires 0 < p
    ensures (a - a % p) % p == 0
  {
    ModTwice(p, a);
    ModDiff(p, a, a % p);
  }

  /** The fees and the base, reduced on the way, still add up modulo p. */
  lemma ReducedTotal(x: Inputs, p: nat)
    requires 0 < p
    ensures (WireValue(x, p, BaseSum) + WireValue(x, p, FeeFull)) % p == Total(x) % p
  {
    SumsReduced(p, x.customsValue * x.quantity, x.freight + x.insurance, x.duty + x.s301, x.mpf + x.hmf);
  }

  lemma SumsReduced(p: nat, e: int, g: int, d: int, m: int)
    requires 0 < p
    ensures ((e % p + g) % p + (d % p + m % p) % p) % p == (e + g + d + m) % p
  {
    ModTwice(p, e);
    ModAdd(p, e % p, e, g, g);
    ReducedSum(p, d % p, m % p, d, m);
    ReducedSum(p, (e % p + g) % p, (d % p + m % p) % p, e + g, d + m);
  }

  /** Whatever landed cost a witness claims: the generated columns satisfy all eight gates if
      and only if it is, modulo p, the extended value with freight, insurance and all fees. */
  lemma GeneratedHoldsExactly(x: Inputs, p: nat)
    requires 0 < p
    ensures (forall i :: 0 <= i < 8 ==> GeneratedGate(x, p, i)) <==> x.landed % p == Total(x) % p
  {
    LastGate(x, p);
    forall i | 0 <= i < 7 ensures GeneratedGate(x, p, i) {
      if i == 0 || i >= 5 { ComputedGate(x, p, i); } else { CopyGate(x, p, i); }
    }
  }

  lemma LastGate(x: Inputs, p: nat)
    requires 0 < p
    ensures GeneratedGate(x, p, 7) <==> x.landed % p == Total(x) % p
  {
    var b, f := WireValue(x, p, BaseSum), WireValue(x, p, FeeFull);
    SelectorIsRow(7, b, f, x.landed, p);
    ModDiff(p, b + f, x.landed);
    ReducedTotal(x, p);
  }

  lemma ComputedGate(x: Inputs, p: nat, i: nat)
    requires 0 < p && (i == 0 || i == 5 || i == 6)
    ensures GeneratedGate(x, p, i)
  {
    if i == 0 {
      RowOfReduced(0, x.customsValue, x.quantity, p);
    } else if i == 5 {
      RowOfReduced(5, x.duty, x.s301, p);
    } else {
      RowOfReduced(6, WireValue(x, p, FeePartial), WireValue(x, p, MpfHmfSum), p);
    }
  }

  lemma RowOfReduced(i: nat, a: nat, b: nat, p: nat)
    requires 0 < p && i < GATE_COUNT
    ensures Selects(Gates(p)[i], a, b, (if i < 5 then a * b else a + b) % p, p)
  {
    var exact := if i < 5 then a * b else a + b;
    SelectorIsRow(i, a, b, exact % p, p);
    ReducedAway(p, exact);
  }

  lemma CopyGate(x: Inputs, p: nat, i: nat)
    requires 0 < p && 1 <= i < 5
    ensures GeneratedGate(x, p, i)
  {
    var s := GenerateAssignment(x, p);
    SelectorIsRow(i, s.aCol[i], s.bCol[i], s.cCol[i], p);
    ReducedAway(p, 0);
  }

  // --------------------------------------------------------------- honest witnesses

  /** The inputs over the integers: fixed-point amounts without any reduction. */
  function Unreduced(r: Request, b: Breakdown): Inputs {
    Inputs(r.customsValue * 10_000, r.quantity, r.freight * 10_000, r.insurance * 10_000,
           b.duty * 10_000, b.section301 * 10_000, b.mpf * 10_000, b.hmf * 10_000, b.landed * 10_000)
  }

  /** The wires over the integers. */
  function Exact(x: Inputs, w: Wire): nat {
    match w
    case CustomsValue => x.customsValue
    case Quantity => x.quantity
    case ExtendedValue => x.customsValue * x.quantity
    case OneWire => 1
    case Duty => x.duty
    case S301 => x.s301
    case Mpf => x.mpf
    case Hmf => x.hmf
    case FeePartial => x.duty + x.s301
    case MpfHmfSum => x.mpf + x.hmf
    case FeeFull => x.duty + x.s301 + x.mpf + x.hmf
    case BaseSum => x.customsValue * x.quantity + x.freight + x.insurance
    case LandedCost => x.landed
    case Freight => x.freight
    case Insurance => x.insurance
  }

  /** What the engine guarantees of the encoded amounts. */
  predicate Balanced(x: Inputs) {
    && 0 < x.customsValue && 0 < x.quantity && x.landed < LIMIT * 10_000
    && x.landed == x.customsValue * x.quantity + x.freight + x.insurance + x.duty + x.s301 + x.mpf + x.hmf
  }

  lemma SuccessIsBalanced(r: Request)
    requires Valid(r) && Calculate(r).Ok?
    ensures Balanced(Unreduced(r, Calculate(r).value))
  {
    LandedIsExactSum(r);
    Scaled(r.customsValue, r.quantity);
  }

  lemma Scaled(v: nat, q: nat)
    ensures v * 10_000 * q == v * q * 10_000
  {
    Associate(v, 10_000, q);
    Associate(v, q, 10_000);
  }

  predicate GateHolds(i: nat, a: nat, b: nat, c: nat) {
    c == if i < 5 then a * b else a + b
  }

  /** Every gate holds over the integers, whatever the modulus. */
  lemma GatesHoldExactly(x: Inputs, p: nat, i: nat)
    requires Balanced(x) && i < GATE_COUNT
    ensures var g := Gates(p)[i]; GateHolds(i, Exact(x, g.a), Exact(x, g.b), Exact(x, g.c))
  {}

  /** No wire of a successful calculation reaches LIMIT in fixed point. */
  lemma ExactBound(x: Inputs, w: Wire)
    requires Balanced(x)
    ensures Exact(x, w) < LIMIT * 10_000
  {
    MulMonotone(1, x.customsValue, x.quantity);
    MulMonotone(1, x.quantity, x.customsValue);
  }

  predicate Reduces(x: Inputs, y: Inputs, p: nat)
    requires 0 < p
  {
    && x.customsValue == y.customsValue % p && x.quantity == y.quantity % p && x.freight == y.freight % p && x.insurance == y.insurance % p
    && x.duty == y.duty % p && x.s301 == y.s301 % p && x.mpf == y.mpf % p && x.hmf == y.hmf % p && x.landed == y.landed % p
  }

  lemma EncodeReduces(r: Request, p: nat)
    requires Valid(r) && Calculate(r).Ok? && 0 < p
    ensures Reduces(Encode(r, Calculate(r).value, p), Unreduced(r, Calculate(r).value), p)
  {
    LandedIsExactSum(r);
    var b := Calculate(r).value;
    FixedPointExact(r.customsValue, p);
    FixedPointExact(r.freight, p);
    FixedPointExact(r.insurance, p);
    FixedPointExact(b.duty, p);
    FixedPointExact(b.section301, p);
    FixedPointExact(b.mpf, p);
    FixedPointExact(b.hmf, p);
    FixedPointExact(b.landed, p);
  }

  lemma ReducedSum(p: nat, x: int, y: int, a: int, b: int)
    requires 0 < p && x == a % p && y == b % p
    ensures (x + y) % p == (a + b) % p
  {
    ModTwice(p, a);
    ModTwice(p, b);
    ModAdd(p, x, a, y, b);
  }

  lemma ReducedProduct(p: nat, x: int, y: int, a: int, b: int)
    requires 0 < p && x == a % p && y == b % p
    ensures (x * y) % p == (a * b) % p
  {
    ModTwice(p, a);
    ModTwice(p, b);
    ModMul(p, x, a, y, b);
  }

  lemma ReducedTriple(p: nat, x: int, y: int, z: int, a: int, b: int, c: int)
    requires 0 < p && x == a % p && y == b % p && z == c % p
    ensures (x + y + z) % p == (a + b + c) % p
  {
    ReducedSum(p, x, y, a, b);
    ModTwice(p, c);
    ModAdd(p, x + y, a + b, z, c);
  }

  lemma FeesReduced(p: nat, d: int, s: int, m: int, h: int, d': int, s': int, m': int, h': int)
    requires 0 < p && d == d' % p && s == s' % p && m == m' % p && h == h' % p
    ensures ((d + s) % p + (m + h) % p) % p == (d' + s' + m' + h') % p
  {
    ReducedSum(p, d, s, d', s');
    ReducedSum(p, m, h, m', h');
    ReducedSum(p, (d + s) % p, (m + h) % p, d' + s', m' + h');
  }

  lemma BaseReduced(p: nat, v: int, q: int, f: int, i: int, v': int, q': int, f': int, i': int)
    requires 0 < p && v == v' % p && q == q' % p && f == f' % p && i == i' % p
    ensures (v * q % p + f + i) % p == (v' * q' + f' + i') % p
  {
    ReducedProduct(p, v, q, v', q');
    ReducedTriple(p, v * q % p, f, i, v' * q', f', i');
  }

  /** The wires of the source are the integer wires modulo p. */
  lemma WireIsReduced(x: Inputs, y: Inputs, p: nat, w: Wire)
    requires 1 < p && Reduces(x, y, p)
    ensures WireValue(x, p, w) == Exact(y, w) % p
  {
    match w {
      case ExtendedValue => ReducedProduct(p, x.customsValue, x.quantity, y.customsValue, y.quantity);
      case FeePartial => ReducedSum(p, x.duty, x.s301, y.duty, y.s301);
      case MpfHmfSum => ReducedSum(p, x.mpf, x.hmf, y.mpf, y.hmf);
      case FeeFull => FeesReduced(p, x.duty, x.s301, x.mpf, x.hmf, y.duty, y.s301, y.mpf, y.hmf);
      case BaseSum => BaseReduced(p, x.customsValue, x.quantity, x.freight, x.insurance, y.customsValue, y.quantity, y.freight, y.insurance);
      case OneWire => ModIs(p, 1, 0, 1);
      case _ =>
    }
  }

  lemma ReducedRow(i: nat, p: nat, a: nat, b: nat, c: nat)
    requires 0 < p && GateHolds(i, a, b, c)
    ensures RowHolds(i, a % p, b % p, c % p, p)
  {
    ModTwice(p, c);
    if i < 5 {
      ReducedProduct(p, a % p, b % p, a, b);
      ModDiff(p, a % p * (b % p), c % p);
    } else {
      ReducedSum(p, a % p, b % p, a, b);
      ModDiff(p, a % p + b % p, c % p);
    }
  }

  /** Row i of an assignment: as the gate table, as the backend and, without wrap-around, over
      the integers. */
  ghost predicate Satisfied(s: Assignment, p: nat, i: nat)
    requires 0 < p && i < GATE_COUNT && |s.aCol| == |s.bCol| == |s.cCol| == GATE_COUNT
  {
    && Selects(Gates(p)[i], s.aCol[i], s.bCol[i], s.cCol[i], p)
    && RowHolds(i, s.aCol[i], s.bCol[i], s.cCol[i], p)
    && (LIMIT * 10_000 <= p ==> GateHolds(i, s.aCol[i], s.bCol[i], s.cCol[i]))
  }

  lemma RowFromExact(i: nat, p: nat, a: nat, b: nat, c: nat, a': nat, b': nat, c': nat)
    requires 0 < p && a == a' % p && b == b' % p && c == c' % p && GateHolds(i, a', b', c')
    requires a' < LIMIT * 10_000 && b' < LIMIT * 10_000 && c' < LIMIT * 10_000
    ensures RowHolds(i, a, b, c, p) && (LIMIT * 10_000 <= p ==> GateHolds(i, a, b, c))
  {
    ReducedRow(i, p, a', b', c');
    if LIMIT * 10_000 <= p {
      ModIs(p, a', 0, a');
      ModIs(p, b', 0, b');
      ModIs(p, c', 0, c');
    }
  }

  lemma BalancedRow(x: Inputs, y: Inputs, p: nat, i: nat)
    requires 1 < p && Reduces(x, y, p) && Balanced(y) && i < GATE_COUNT
    ensures var g := Gates(p)[i]; var a, b, c := WireValue(x, p, g.a), WireValue(x, p, g.b), WireValue(x, p, g.c);
      RowHolds(i, a, b, c, p) && (LIMIT * 10_000 <= p ==> GateHolds(i, a, b, c))
  {
    var g := Gates(p)[i];
    var a, b, c := Exact(y, g.a), Exact(y, g.b), Exact(y, g.c);
    WireIsReduced(x, y, p, g.a);
    WireIsReduced(x, y, p, g.b);
    WireIsReduced(x, y, p, g.c);
    GatesHoldExactly(y, p, i);
    ExactBound(y, g.a);
    ExactBound(y, g.b);
    ExactBound(y, g.c);
    RowFromExact(i, p, WireValue(x, p, g.a), WireValue(x, p, g.b), WireValue(x, p, g.c), a, b, c);
  }

  lemma AssignmentSatisfied(x: Inputs, y: Inputs, p: nat, i: nat)
    requires 1 < p && Reduces(x, y, p) && Balanced(y) && i < GATE_COUNT
    ensures var s := GenerateAssignment(x, p); |s.aCol| == |s.bCol| == |s.cCol| == GATE_COUNT && Satisfied(s, p, i)
  {
    var s, v := GenerateAssignment(x, p), (w: Wire) => WireValue(x, p, w);
    ColumnsFollowGates(v, p, i);
    BalancedRow(x, y, p, i);
    SelectorIsRow(i, s.aCol[i], s.bCol[i], s.cCol[i], p);
  }

  /** The assignment generated for any request that succeeds satisfies every gate, over any
      modulus; over a modulus beyond the 28-digit bound no wire is reduced. */
  lemma HonestWitness(r: Request, p: nat, i: nat)
    requires Valid(r) && Calculate(r).Ok? && 1 < p && i < GATE_COUNT
    ensures var s := GenerateAssignment(Encode(r, Calculate(r).value, p), p);
      |s.aCol| == |s.bCol| == |s.cCol| == GATE_COUNT && Satisfied(s, p, i)
  {
    var b := Calculate(r).value;
    EncodeReduces(r, p);
    SuccessIsBalanced(r);
    AssignmentSatisfied(Encode(r, b, p), Unreduced(r, b), p, i);
  }

  // --------------------------------------------------------------- the proving backend

  /** The rows of the backend's region: three advice columns and two selectors; beyond the gate
      rows only the first column is assigned, to the public bindings. */
  datatype Region = Region(a: seq<int>, b: seq<int>, c: seq<int>, mul: seq<bool>, add: seq<bool>, landedCell: int, bindingCells: seq<int>)

  datatype ImportCircuit = ImportCircuit(aCol: seq<int>, bCol: seq<int>, cCol: seq<int>, publicBindings: seq<int>)

  /** `build_circuit`: the instance values after the first become the bindings. */
  function BuildCircuit(s: Assignment, instance: seq<int>): Option<ImportCircuit> {
    if |s.aCol| != GATE_COUNT || |s.bCol| != GATE_COUNT || |s.cCol| != GATE_COUNT || |instance| != INSTANCE_COUNT then None
    else Some(ImportCircuit(s.aCol, s.bCol, s.cCol, instance[1..]))
  }

  /** `synthesize`, row by row. */
  method Synthesize(x: ImportCircuit) returns (region: Region)
    requires |x.aCol| == |x.bCol| == |x.cCol| == GATE_COUNT
    ensures region.a == x.aCol + x.publicBindings && region.b == x.bCol && region.c == x.cCol
    ensures |region.mul| == |region.add| == GATE_COUNT
    ensures forall row :: 0 <= row < GATE_COUNT ==> region.mul[row] == (row < 5) && region.add[row] == (row >= 5)
    ensures region.landedCell == x.cCol[7] && region.bindingCells == x.publicBindings
  {
    var a, b, c: seq<int>, mul, add: seq<bool> := [], [], [], [], [];
    var landedCostCell := 0;
    for row := 0 to GATE_COUNT
      invariant a == x.aCol[..row] && b == x.bCol[..row] && c == x.cCol[..row]
      invariant |mul| == |add| == row && forall i :: 0 <= i < row ==> mul[i] == (i < 5) && add[i] == (i >= 5)
      invariant row > 7 ==> landedCostCell == x.cCol[7]
    {
      a, b, c := a + [x.aCol[row]], b + [x.bCol[row]], c + [x.cCol[row]];
      mul, add := mul + [row < 5], add + [row >= 5];
      if row == 7 {
        landedCostCell := x.cCol[row];
      }
    }
    var bindingCells: seq<int> := [];
    for offset := 0 to |x.publicBindings|
      invariant a == x.aCol + x.publicBindings[..offset] && bindingCells == x.publicBindings[..offset]
    {
      var value := x.publicBindings[offset];
      a := a + [value];
      bindingCells := bindingCells + [value];
    }
    return Region(a, b, c, mul, add, landedCostCell, bindingCells);
  }

  /** The backend's constraints: the two gates wherever their selectors are on, and the instance
      column, the landed cost first. */
  ghost predicate Accepts(region: Region, instance: seq<int>, p: nat)
    requires 0 < p && |region.mul| == |region.add| == |region.b| == |region.c| <= |region.a| && |instance| == |region.bindingCells| + 1
  {
    && (forall row :: 0 <= row < |region.mul| ==>
          && (region.mul[row] ==> (region.a[row] * region.b[row] - region.c[row]) % p == 0)
          && (region.add[row] ==> (region.a[row] + region.b[row] - region.c[row]) % p == 0))
    && region.landedCell % p == instance[0] % p
    && forall i :: 0 <= i < |region.bindingCells| ==> region.bindingCells[i] % p == instance[i + 1] % p
  }

  /** All eight gates of the table hold. */
  ghost predicate GatesSelect(s: Assignment, p: nat)
    requires 0 < p && |s.aCol| == |s.bCol| == |s.cCol| == GATE_COUNT
  {
    forall i :: 0 <= i < GATE_COUNT ==> Selects(Gates(p)[i], s.aCol[i], s.bCol[i], s.cCol[i], p)
  }

  /** The backend accepts what it builds from an assignment and an instance exactly when all
      eight gates of the table hold and the instance starts with the landed cost wire. */
  method ProveRegion(s: Assignment, instance: seq<int>, p: nat) returns (region: Region)
    requires 0 < p && |s.aCol| == |s.bCol| == |s.cCol| == GATE_COUNT && |instance| == INSTANCE_COUNT
    ensures |region.mul| == |region.add| == |region.b| == |region.c| <= |region.a| && |instance| == |region.bindingCells| + 1
    ensures Accepts(region, instance, p)
            <==> GatesSelect(s, p) && instance[0] % p == s.cCol[7] % p
  {
    var circuit := BuildCircuit(s, instance).value;
    region := Synthesize(circuit);
    forall i | 0 <= i < GATE_COUNT
      ensures Selects(Gates(p)[i], s.aCol[i], s.bCol[i], s.cCol[i], p)
              <==> (region.mul[i] ==> (region.a[i] * region.b[i] - region.c[i]) % p == 0)
                   && (region.add[i] ==> (region.a[i] + region.b[i] - region.c[i]) % p == 0)
    {
      SelectorIsRow(i, s.aCol[i], s.bCol[i], s.cCol[i], p);
    }
  }

  /** The backend is given eight rows and thirteen instance values, or nothing is built. */
  lemma BuildsShaped(s: Assignment, instance: seq<int>)
    ensures BuildCircuit(s, instance).Some? <==> |s.aCol| == |s.bCol| == |s.cCol| == 8 && |instance| == 13
    ensures BuildCircuit(s, instance).Some? ==> |BuildCircuit(s, instance).value.publicBindings| == 12
  {}

  /** The region of generated columns meets the constraints exactly when the claimed landed cost
      and the first instance value are both, modulo p, what the inputs add up to. */
  lemma AcceptedClaim(x: Inputs, p: nat, first: int)
    requires 0 < p
    ensures var s := GenerateAssignment(x, p);
      && |s.aCol| == |s.bCol| == |s.cCol| == 8
      && (GatesSelect(s, p) && first % p == s.cCol[7] % p <==> x.landed % p == Total(x) % p && first % p == Total(x) % p)
  {
    GeneratedHoldsExactly(x, p);
    GeneratedGates(x, p);
    LandedWire(x, p);
  }

  lemma GeneratedGates(x: Inputs, p: nat)
    requires 0 < p
    ensures var s := GenerateAssignment(x, p);
      && |s.aCol| == |s.bCol| == |s.cCol| == 8
      && (GatesSelect(s, p) <==> forall i :: 0 <= i < 8 ==> GeneratedGate(x, p, i))
  {
    var s := GenerateAssignment(x, p);
    if forall i :: 0 <= i < 8 ==> GeneratedGate(x, p, i) {
      forall i | 0 <= i < 8 ensures Selects(Gates(p)[i], s.aCol[i], s.bCol[i], s.cCol[i], p) {
        assert GeneratedGate(x, p, i);
      }
    }
  }

  lemma HonestGatesSelect(r: Request, p: nat)
    requires Valid(r) && Calculate(r).Ok? && 1 < p
    ensures var s := GenerateAssignment(Encode(r, Calculate(r).value, p), p);
      |s.aCol| == |s.bCol| == |s.cCol| == GATE_COUNT && GatesSelect(s, p)
  {
    var s := GenerateAssignment(Encode(r, Calculate(r).value, p), p);
    HonestWitness(r, p, 0);
    forall i | 0 <= i < GATE_COUNT ensures Selects(Gates(p)[i], s.aCol[i], s.bCol[i], s.cCol[i], p) {
      HonestWitness(r, p, i);
    }
  }

  lemma LandedWire(x: Inputs, p: nat)
    requires 0 < p
    ensures |GenerateAssignment(x, p).cCol| == GATE_COUNT && GenerateAssignment(x, p).cCol[7] == x.landed
  {}

  /** For every request that succeeds the backend accepts the region it builds from the generated
      assignment and any instance that starts with the fixed-point landed cost. */
  method ProveHonest(r: Request, p: nat, bindings: seq<int>) returns (region: Region, instance: seq<int>)
    requires Valid(r) && Calculate(r).Ok? && 1 < p && |bindings| + 1 == INSTANCE_COUNT
    ensures instance == [ToFixedPoint(Calculate(r).value.landed, p)] + bindings
    ensures |region.mul| == |region.add| == |region.b| == |region.c| <= |region.a| && |instance| == |region.bindingCells| + 1
    ensures Accepts(region, instance, p)
  {
    var x := Encode(r, Calculate(r).value, p);
    var s := GenerateAssignment(x, p);
    instance := [x.landed] + bindings;
    HonestGatesSelect(r, p);
    LandedWire(x, p);
    region := ProveRegion(s, instance, p);
  }
}
