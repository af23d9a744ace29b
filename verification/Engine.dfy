/** The landed-cost engine (core/engine.py, core/tariffs.py) over the 28-digit decimal context.
    Amounts are in cents: request validation has already quantized them. */
module Engine {
  import opened Common
  import opened Decimals

  datatype Failure = NoTariffRule | InvalidOperation

  datatype Result<+T> = Ok(value: T) | Err(error: Failure) {
    predicate IsFailure() {
      Err?
    }
    function PropagateFailure<U>(): Result<U>
      requires Err?
    {
      Err(error)
    }
    function Extract(): T
      requires Ok?
    {
      value
    }
  }

  /** Rates are in units of 0.0001. */
  datatype TariffRule = TariffRule(hsPrefix: string, ruleRef: string, dutyRate: nat, section301Rate: nat, section301Origins: set<string>)

  const TARIFF_RULES: seq<TariffRule> := [
    TariffRule("8471300100", "HTS-8471300100", 0, 0, {}),
    TariffRule("8507600000", "HTS-8507600000", 340, 2500, {"CN"}),
    TariffRule("6110200000", "HTS-6110200000", 1650, 0, {}),
    TariffRule("6403990000", "HTS-6403990000", 3750, 0, {}),
    TariffRule("8703220000", "HTS-8703220000", 250, 0, {}),
    TariffRule("9403600000", "HTS-9403600000", 0, 0, {})]

  const TARIFF_SCALE: nat := 4
  const MPF_RATE: nat := 3464
  const HMF_RATE: nat := 1250
  const FEE_SCALE: nat := 6
  const MPF_MIN: nat := 3271
  const MPF_MAX: nat := 63462

  datatype Request = Request(
    hsCode: string, country: string, customsValue: nat, freight: nat, insurance: nat, quantity: nat, shippingMode: string)

  /** What request validation guarantees about the numbers. */
  predicate Valid(r: Request) {
    0 < r.customsValue < LIMIT && r.freight < LIMIT && r.insurance < LIMIT && 1 <= r.quantity <= 1_000_000
  }

  /** The amounts of `CalculationResult`. */
  datatype Breakdown = Breakdown(extended: nat, duty: nat, section301: nat, mpf: nat, hmf: nat, landed: nat)

  function LookupTariffRule(rules: seq<TariffRule>, hsCode: string): Result<TariffRule> {
    if rules == [] then Err(NoTariffRule)
    else if hsCode == rules[0].hsPrefix then Ok(rules[0])
    else LookupTariffRule(rules[1..], hsCode)
  }

  function Quantized(d: Dec): Result<nat> {
    match Money(d)
    case Some(c) => Ok(c)
    case None => Err(InvalidOperation)
  }

  function Clamp(amount: nat, low: nat, high: nat): nat {
    if amount < low then low else if amount > high then high else amount
  }

  /** `clamp_money`. */
  function ClampMoney(d: Dec, low: nat, high: nat): Result<nat> {
    var amount :- Quantized(d);
    Ok(Clamp(amount, low, high))
  }

  function Times(amount: nat, rate: nat, scale: nat): Dec {
    Mul(Cents(amount), Dec(rate, -(scale as int)))
  }

  /** The sum that the source writes, added from left to right. */
  function SumOf(first: Dec, rest: seq<nat>): Dec {
    if rest == [] then first else Add(SumOf(first, rest[..|rest| - 1]), Cents(rest[|rest| - 1]))
  }

  /** `calculate_import_landed_cost` once the rule is found. */
  function CalculateWith(rule: TariffRule, r: Request): Result<Breakdown> {
    var extended :- Quantized(Mul(Cents(r.customsValue), Dec(r.quantity, 0)));
    var duty :- Quantized(Times(extended, rule.dutyRate, TARIFF_SCALE));
    var section301 :- if r.country in rule.section301Origins then Quantized(Times(extended, rule.section301Rate, TARIFF_SCALE)) else Ok(0);
    var mpf :- ClampMoney(Times(extended, MPF_RATE, FEE_SCALE), MPF_MIN, MPF_MAX);
    var hmf :- if r.shippingMode == "ocean" then Quantized(Times(extended, HMF_RATE, FEE_SCALE)) else Ok(0);
    var landed :- Quantized(SumOf(Cents(extended), [r.freight, r.insurance, duty, section301, mpf, hmf]));
    Ok(Breakdown(extended, duty, section301, mpf, hmf, landed))
  }

  function Calculate(r: Request): Result<Breakdown> {
    var rule :- LookupTariffRule(TARIFF_RULES, r.hsCode);
    CalculateWith(rule, r)
  }

  // -------------------------------------------------------------------- closed form

  predicate RatesBelowOne(rule: TariffRule) {
    rule.dutyRate <= 3750 && rule.section301Rate <= 2500
  }

  lemma {:induction false} LookupFinds(rules: seq<TariffRule>, hsCode: string)
    ensures match LookupTariffRule(rules, hsCode)
      case Ok(rule) => rule in rules && rule.hsPrefix == hsCode
      case Err(e) => e == NoTariffRule && forall rule :: rule in rules ==> rule.hsPrefix != hsCode
  {
    if rules != [] && hsCode != rules[0].hsPrefix {
      LookupFinds(rules[1..], hsCode);
      assert rules == [rules[0]] + rules[1..];
    }
  }

  lemma TableRatesBelowOne(rule: TariffRule)
    requires rule in TARIFF_RULES
    ensures RatesBelowOne(rule)
  {}

  function DutyOf(rule: TariffRule, extended: nat): nat {
    Charge(extended, rule.dutyRate, TARIFF_SCALE)
  }

  function Section301Of(rule: TariffRule, r: Request, extended: nat): nat {
    if r.country in rule.section301Origins then Charge(extended, rule.section301Rate, TARIFF_SCALE) else 0
  }

  function MpfOf(extended: nat): nat {
    Clamp(Charge(extended, MPF_RATE, FEE_SCALE), MPF_MIN, MPF_MAX)
  }

  function HmfOf(r: Request, extended: nat): nat {
    if r.shippingMode == "ocean" then Charge(extended, HMF_RATE, FEE_SCALE) else 0
  }

  /** The exact sum of the rounded components. */
  function TotalOf(rule: TariffRule, r: Request): nat {
    var e := r.customsValue * r.quantity;
    e + r.freight + r.insurance + DutyOf(rule, e) + Section301Of(rule, r, e) + MpfOf(e) + HmfOf(r, e)
  }

  /** A rate of an amount that fits in the context is never an invalid operation. */
  lemma TimesQuantized(amount: nat, rate: nat, scale: nat)
    requires amount < LIMIT && rate <= Pow10(scale)
    ensures Quantized(Times(amount, rate, scale)) == Ok(Charge(amount, rate, scale))
  {
    ChargeIsMoney(amount, rate, scale);
    ChargeBelow(amount, rate, scale);
  }

  function SumNat(first: nat, rest: seq<nat>): nat {
    if rest == [] then first else SumNat(first, rest[..|rest| - 1]) + rest[|rest| - 1]
  }

  lemma {:induction false} SumTotals(first: nat, rest: seq<nat>)
    requires first < LIMIT
    ensures Totals(SumOf(Cents(first), rest), SumNat(first, rest))
  {
    if rest == [] {
    } else {
      var front, last := rest[..|rest| - 1], rest[|rest| - 1];
      SumTotals(first, front);
      AddCents(SumOf(Cents(first), front), SumNat(first, front), last);
    }
  }

  lemma SumQuantized(first: nat, rest: seq<nat>)
    requires first < LIMIT
    ensures var s := SumNat(first, rest);
      Quantized(SumOf(Cents(first), rest)) == if s < LIMIT then Ok(s) else Err(InvalidOperation)
  {
    SumTotals(first, rest);
    MoneyOfTotal(SumOf(Cents(first), rest), SumNat(first, rest));
  }

  lemma SumNext(first: nat, rest: seq<nat>, x: nat)
    ensures SumNat(first, rest + [x]) == SumNat(first, rest) + x
  {
    assert (rest + [x])[..|rest|] == rest;
  }

  lemma SumOfSix(first: nat, a: nat, b: nat, c: nat, d: nat, e: nat, f: nat)
    ensures SumNat(first, [a, b, c, d, e, f]) == first + a + b + c + d + e + f
  {
    SumNext(first, [], a);
    SumNext(first, [a], b);
    SumNext(first, [a, b], c);
    SumNext(first, [a, b, c], d);
    SumNext(first, [a, b, c, d], e);
    SumNext(first, [a, b, c, d, e], f);
    assert [] + [a] == [a] && [a] + [b] == [a, b] && [a, b] + [c] == [a, b, c] && [a, b, c] + [d] == [a, b, c, d];
    assert [a, b, c, d] + [e] == [a, b, c, d, e] && [a, b, c, d, e] + [f] == [a, b, c, d, e, f];
  }

  lemma ScalePowers()
    ensures Pow10(TARIFF_SCALE) == 10_000 && Pow10(FEE_SCALE) == 1_000_000
  {
    assert Pow10(3) == 1000;
  }

  /** Exactly when a request succeeds, and what it then gives: every product is exact in the
      context or rounded as `Charge` says, and the landed cost is the exact sum. */
  lemma CalculateWithExact(rule: TariffRule, r: Request)
    requires RatesBelowOne(rule)
    ensures var e := r.customsValue * r.quantity;
      CalculateWith(rule, r) == if e < LIMIT && TotalOf(rule, r) < LIMIT
        then Ok(Breakdown(e, DutyOf(rule, e), Section301Of(rule, r, e), MpfOf(e), HmfOf(r, e), TotalOf(rule, r)))
        else Err(InvalidOperation)
  {
    var e := r.customsValue * r.quantity;
    MoneyOfMultiple(r.customsValue, r.quantity);
    if e < LIMIT {
      ScalePowers();
      TimesQuantized(e, rule.dutyRate, TARIFF_SCALE);
      TimesQuantized(e, rule.section301Rate, TARIFF_SCALE);
      TimesQuantized(e, MPF_RATE, FEE_SCALE);
      TimesQuantized(e, HMF_RATE, FEE_SCALE);
      var duty, s301, mpf, hmf := DutyOf(rule, e), Section301Of(rule, r, e), MpfOf(e), HmfOf(r, e);
      SumQuantized(e, [r.freight, r.insurance, duty, s301, mpf, hmf]);
      SumOfSix(e, r.freight, r.insurance, duty, s301, mpf, hmf);
    }
  }

  // --------------------------------------------------------------------- properties

  /** The landed cost is the sum of its components, the extended value the exact product, and
      the merchandise fee lies between its statutory bounds. */
  lemma LandedIsExactSum(r: Request)
    requires Calculate(r).Ok?
    ensures var b := Calculate(r).value;
      && b.extended == r.customsValue * r.quantity
      && b.landed == b.extended + r.freight + r.insurance + b.duty + b.section301 + b.mpf + b.hmf
      && 3_271 <= b.mpf <= 63_462 && b.landed < LIMIT
  {
    LookupFinds(TARIFF_RULES, r.hsCode);
    var rule := LookupTariffRule(TARIFF_RULES, r.hsCode).value;
    TableRatesBelowOne(rule);
    CalculateWithExact(rule, r);
  }

  /** Same goods, origin and mode, with no amount and no quantity larger. */
  predicate NoMore(a: Request, b: Request) {
    && a.hsCode == b.hsCode && a.country == b.country && a.shippingMode == b.shippingMode
    && a.customsValue <= b.customsValue && a.quantity <= b.quantity && a.freight <= b.freight && a.insurance <= b.insurance
  }

  lemma ProductMonotone(a: nat, b: nat, x: nat, y: nat)
    requires a <= b && x <= y
    ensures a * x <= b * y
  {
    MulMonotone(a, b, x);
    MulMonotone(x, y, b);
  }

  lemma TotalMonotone(rule: TariffRule, a: Request, b: Request)
    requires NoMore(a, b)
    ensures TotalOf(rule, a) <= TotalOf(rule, b) && a.customsValue * a.quantity <= b.customsValue * b.quantity
  {
    ProductMonotone(a.customsValue, b.customsValue, a.quantity, b.quantity);
    var d, e := a.customsValue * a.quantity, b.customsValue * b.quantity;
    ChargeMonotone(d, e, rule.dutyRate, TARIFF_SCALE);
    ChargeMonotone(d, e, rule.section301Rate, TARIFF_SCALE);
    ChargeMonotone(d, e, MPF_RATE, FEE_SCALE);
    ChargeMonotone(d, e, HMF_RATE, FEE_SCALE);
  }

  /** The landed cost is monotone in customs value, quantity, freight and insurance, through all
      the roundings, and a request that fits leaves every smaller one fitting. */
  lemma LandedMonotone(a: Request, b: Request)
    requires NoMore(a, b) && Calculate(b).Ok?
    ensures Calculate(a).Ok? && Calculate(a).value.landed <= Calculate(b).value.landed
  {
    LookupFinds(TARIFF_RULES, b.hsCode);
    var rule := LookupTariffRule(TARIFF_RULES, b.hsCode).value;
    TableRatesBelowOne(rule);
    TotalMonotone(rule, a, b);
    CalculateWithExact(rule, a);
    CalculateWithExact(rule, b);
  }

  // ---------------------------------------------------------------- distance to the formula

  /** A fee of the unrounded formula, in units of 10^-6 cents. */
  function RawFee(extended: nat, rate: nat, scale: nat): nat
    requires scale <= 6
  {
    extended * rate * Pow10(6 - scale)
  }

  /** The landed cost without any rounding, in units of 10^-6 cents. */
  function RawTotal(rule: TariffRule, r: Request): nat {
    var e := r.customsValue * r.quantity;
    1_000_000 * (e + r.freight + r.insurance)
    + RawFee(e, rule.dutyRate, TARIFF_SCALE)
    + (if r.country in rule.section301Origins then RawFee(e, rule.section301Rate, TARIFF_SCALE) else 0)
    + RawMpf(e)
    + (if r.shippingMode == "ocean" then RawFee(e, HMF_RATE, FEE_SCALE) else 0)
  }

  predicate Near(a: int, b: int, distance: int) {
    -distance <= a - b <= distance
  }

  /** The exact charge for an amount, and the charge off by more than half a cent. */
  predicate OffByMoreThanHalfCent(charge: nat, amount: nat, rate: nat, scale: nat)
    requires scale <= 6
  {
    !Near(1_000_000 * charge, RawFee(amount, rate, scale), 500_000)
  }

  lemma OffExactly(amount: nat, rate: nat, scale: nat)
    requires amount < LIMIT && rate <= 3750 && (scale == TARIFF_SCALE || scale == FEE_SCALE)
    ensures OffByMoreThanHalfCent(Charge(amount, rate, scale), amount, rate, scale) <==> DoublyRounded(amount * rate, Pow10(scale))
  {
    ScalePowers();
    assert Pow10(0) == 1 && Pow10(2) == 100;
    ChargeWithinHalfCent(amount, rate, scale);
  }

  /** For every request that succeeds: the duty, the additional duty and the harbour fee are each
      off by more than half a cent exactly when their product is rounded doubly. */
  lemma ComponentsOffExactly(rule: TariffRule, r: Request)
    requires RatesBelowOne(rule) && CalculateWith(rule, r).Ok?
    ensures var b := CalculateWith(rule, r).value;
      OffByMoreThanHalfCent(b.duty, b.extended, rule.dutyRate, TARIFF_SCALE) <==> DoublyRounded(b.extended * rule.dutyRate, Pow10(TARIFF_SCALE))
    ensures var b := CalculateWith(rule, r).value; r.country in rule.section301Origins ==>
      (OffByMoreThanHalfCent(b.section301, b.extended, rule.section301Rate, TARIFF_SCALE)
       <==> DoublyRounded(b.extended * rule.section301Rate, Pow10(TARIFF_SCALE)))
    ensures var b := CalculateWith(rule, r).value; r.shippingMode == "ocean" ==>
      (OffByMoreThanHalfCent(b.hmf, b.extended, HMF_RATE, FEE_SCALE) <==> DoublyRounded(b.extended * HMF_RATE, Pow10(FEE_SCALE)))
  {
    CalculateWithExact(rule, r);
    var e := r.customsValue * r.quantity;
    OffExactly(e, rule.dutyRate, TARIFF_SCALE);
    OffExactly(e, rule.section301Rate, TARIFF_SCALE);
    OffExactly(e, HMF_RATE, FEE_SCALE);
  }

  /** 3 * 10^26 + 44 cents of batteries: the exact duty ends in 0.4960 of a cent, which 28 digits
      turn into 0.50, and that rounds up. */
  const BATTERIES: Request := Request("8507600000", "US", 3 * TENTH / 10 + 44, 0, 0, 1, "air")

  lemma BatteryDigits(n: nat)
    requires n == 102 * TENTH + 14_960
    ensures FitInt(n) == 102 * TENTH + 15_000 && DoublyRounded(n, 10_000)
  {
    assert n / 10 >= LIMIT > n / 10 / 10;
    assert Excess(n / 10 / 10) == 0 && Excess(n / 10) == 1;
    assert Excess(n) == 2;
    assert Pow10(1) == 10 && Pow10(2) == 100;
    assert n / 100 == 102 * (TENTH / 100) + 149 && n % 100 == 60;
  }

  /** A request whose duty is off by more than half a cent. */
  lemma DutyCanBeOff()
    ensures Valid(BATTERIES) && Calculate(BATTERIES).Ok?
    ensures var b := Calculate(BATTERIES).value; OffByMoreThanHalfCent(b.duty, b.extended, 340, TARIFF_SCALE)
  {
    var rule := TARIFF_RULES[1];
    assert LookupTariffRule(TARIFF_RULES, BATTERIES.hsCode) == LookupTariffRule(TARIFF_RULES[1..], BATTERIES.hsCode) == Ok(rule);
    BatteriesSucceed(rule);
    ScalePowers();
    BatteryDigits(BATTERIES.customsValue * 340);
    ComponentsOffExactly(rule, BATTERIES);
    CalculateWithExact(rule, BATTERIES);
  }

  lemma BatteriesSucceed(rule: TariffRule)
    requires rule == TariffRule("8507600000", "HTS-8507600000", 340, 2500, {"CN"})
    ensures CalculateWith(rule, BATTERIES).Ok?
  {
    ScalePowers();
    var e := BATTERIES.customsValue;
    CalculateWithExact(rule, BATTERIES);
    ChargeBelow(e, 340, TARIFF_SCALE);
  }

  lemma TariffRounding(n: nat)
    requires Excess(n) <= 4
    ensures Near(10_000 * HalfUp(FitInt(n), 10_000), n, 5_500)
    ensures n < LIMIT ==> Near(10_000 * HalfUp(FitInt(n), 10_000), n, 5_000)
  {
    var k := Excess(n);
    assert Pow10(3) == 1000 && Pow10(4) == 10_000;
    FitIntError(n);
    if k == 4 {
      HalfUpExact(HalfEven(n, 10_000), 10_000);
    } else {
      HalfUpError(FitInt(n), 10_000);
      if k < 3 {
        Pow10Step(k, 3);
      }
      if n < LIMIT {
        FitIntExact(n);
      }
    }
  }

  lemma TariffChargeError(amount: nat, r: nat)
    requires amount < LIMIT && r <= 3750
    ensures Near(1_000_000 * Charge(amount, r, TARIFF_SCALE), RawFee(amount, r, TARIFF_SCALE), 550_000)
    ensures amount * 3750 < LIMIT ==> Near(1_000_000 * Charge(amount, r, TARIFF_SCALE), RawFee(amount, r, TARIFF_SCALE), 500_000)
  {
    var n := amount * r;
    ScalePowers();
    assert Pow10(2) == 100;
    ExcessOfCharge(amount, r, TARIFF_SCALE);
    TariffRounding(n);
    ProductMonotone(amount, amount, r, 3750);
  }

  lemma FeeChargeError(amount: nat, r: nat)
    requires amount < LIMIT && r <= 3750
    ensures Near(1_000_000 * Charge(amount, r, FEE_SCALE), RawFee(amount, r, FEE_SCALE), 505_000)
    ensures amount * 3750 < LIMIT ==> Near(1_000_000 * Charge(amount, r, FEE_SCALE), RawFee(amount, r, FEE_SCALE), 500_000)
  {
    var n := amount * r;
    var k := Excess(n);
    ScalePowers();
    assert Pow10(0) == 1 && Pow10(2) == 100 && Pow10(4) == 10_000;
    assert Excess(n) <= 4 by {
      ExcessOfCharge(amount, r, TARIFF_SCALE);
    }
    FitIntError(n);
    HalfUpError(FitInt(n), 1_000_000);
    if k < 4 {
      Pow10Step(k, 4);
    }
    if amount * 3750 < LIMIT {
      ProductMonotone(amount, amount, r, 3750);
      FitIntExact(n);
    }
  }

  lemma ClampNear(a: nat, raw: nat, low: nat, high: nat, distance: int)
    requires low <= high && 0 <= distance && Near(1_000_000 * a, raw, distance)
    ensures Near(1_000_000 * Clamp(a, low, high), Clamp(raw, 1_000_000 * low, 1_000_000 * high), distance)
  {}

  lemma SumNear(exact: nat, a: nat, b: nat, c: nat, d: nat, w: nat, x: nat, y: nat, z: nat, tariff: int, mpf: int, hmf: int)
    requires Near(1_000_000 * a, w, tariff) && Near(1_000_000 * b, x, tariff)
    requires Near(1_000_000 * c, y, mpf) && Near(1_000_000 * d, z, hmf)
    ensures Near(1_000_000 * (exact + a + b + c + d), 1_000_000 * exact + w + x + y + z, 2 * tariff + mpf + hmf)
  {}

  function RawMpf(extended: nat): nat {
    Clamp(RawFee(extended, MPF_RATE, FEE_SCALE), 1_000_000 * MPF_MIN, 1_000_000 * MPF_MAX)
  }

  /** The merchandise fee is rounded once, or so far above its maximum that both are clamped. */
  lemma MpfNear(extended: nat)
    requires extended < LIMIT
    ensures Near(1_000_000 * MpfOf(extended), RawMpf(extended), if extended * 3750 < LIMIT then 500_000 else 0)
  {
    FeeChargeError(extended, MPF_RATE);
    if extended * 3750 < LIMIT {
      ClampNear(Charge(extended, MPF_RATE, FEE_SCALE), RawFee(extended, MPF_RATE, FEE_SCALE), MPF_MIN, MPF_MAX, 500_000);
    }
  }

  lemma TotalNear(rule: TariffRule, r: Request, tariff: int, mpf: int, hmf: int)
    requires RatesBelowOne(rule) && r.customsValue * r.quantity < LIMIT
    requires if r.customsValue * r.quantity * 3750 < LIMIT then tariff == mpf == hmf == 500_000 else tariff == 550_000 && mpf == 0 && hmf == 505_000
    ensures Near(1_000_000 * TotalOf(rule, r), RawTotal(rule, r), 2 * tariff + mpf + hmf)
  {
    var e := r.customsValue * r.quantity;
    TariffChargeError(e, rule.dutyRate);
    TariffChargeError(e, rule.section301Rate);
    FeeChargeError(e, HMF_RATE);
    MpfNear(e);
    SumNear(e + r.freight + r.insurance, DutyOf(rule, e), Section301Of(rule, r, e), MpfOf(e), HmfOf(r, e),
            RawFee(e, rule.dutyRate, TARIFF_SCALE),
            if r.country in rule.section301Origins then RawFee(e, rule.section301Rate, TARIFF_SCALE) else 0,
            RawMpf(e), if r.shippingMode == "ocean" then RawFee(e, HMF_RATE, FEE_SCALE) else 0, tariff, mpf, hmf);
  }

  /** The landed cost is within two cents of the unrounded formula. Where products outgrow the
      context, and tariff charges are rounded twice, the merchandise fee is at its maximum. */
  lemma LandedNearFormula(rule: TariffRule, r: Request)
    requires RatesBelowOne(rule) && CalculateWith(rule, r).Ok?
    ensures Near(1_000_000 * CalculateWith(rule, r).value.landed, RawTotal(rule, r), 2_000_000)
  {
    CalculateWithExact(rule, r);
    if r.customsValue * r.quantity * 3750 < LIMIT {
      TotalNear(rule, r, 500_000, 500_000, 500_000);
    } else {
      TotalNear(rule, r, 550_000, 0, 505_000);
    }
  }
}
