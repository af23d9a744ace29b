/** The tariff dataset and the fees in figures (core/tariffs.py, core/engine.py): what each HS
    code, the merchandise processing fee and the harbour maintenance fee cost. */
module TariffSchedule {
  import opened Common
  import opened Decimals
  import opened Engine

  // ---------------------------------------------------------------------- dataset

  /** Rates in units of 0.0001; the additional one applies to goods of the listed origins. */
  datatype Rates = Rates(duty: nat, additional: nat, origins: set<string>)

  function RatesOf(hsCode: string): Option<Rates> {
    if hsCode == "8471300100" || hsCode == "9403600000" then Some(Rates(0, 0, {}))
    else if hsCode == "8507600000" then Some(Rates(340, 2_500, {"CN"}))
    else if hsCode == "6110200000" then Some(Rates(1_650, 0, {}))
    else if hsCode == "6403990000" then Some(Rates(3_750, 0, {}))
    else if hsCode == "8703220000" then Some(Rates(250, 0, {}))
    else None
  }

  predicate Matches(rule: TariffRule, rates: Rates) {
    rates == Rates(rule.dutyRate, rule.section301Rate, rule.section301Origins) && rule.ruleRef == "HTS-" + rule.hsPrefix
  }

  lemma RowMatches(rule: TariffRule)
    requires rule in TARIFF_RULES
    ensures RatesOf(rule.hsPrefix).Some? && Matches(rule, RatesOf(rule.hsPrefix).value)
  {}

  lemma ListedCode(hsCode: string)
    requires RatesOf(hsCode).Some?
    ensures exists rule :: rule in TARIFF_RULES && rule.hsPrefix == hsCode
  {
    var i := if hsCode == "8471300100" then 0 else if hsCode == "8507600000" then 1 else if hsCode == "6110200000" then 2
      else if hsCode == "6403990000" then 3 else if hsCode == "8703220000" then 4 else 5;
    assert TARIFF_RULES[i] in TARIFF_RULES && TARIFF_RULES[i].hsPrefix == hsCode;
  }

  /** The lookup finds the rule with these rates, and none exactly for an unlisted code. */
  lemma LookupFindsRates(hsCode: string)
    ensures match LookupTariffRule(TARIFF_RULES, hsCode)
      case Ok(rule) => RatesOf(hsCode).Some? && Matches(rule, RatesOf(hsCode).value)
      case Err(e) => e == NoTariffRule && RatesOf(hsCode) == None
  {
    var found := LookupTariffRule(TARIFF_RULES, hsCode);
    LookupFinds(TARIFF_RULES, hsCode);
    if found.Ok? {
      RowMatches(found.value);
    } else if RatesOf(hsCode).Some? {
      ListedCode(hsCode);
    }
  }

  // ------------------------------------------------------------------------- fees

  /** The merchandise processing fee is 0.3464 percent, rounded half-up to cents, but at least
      32.71 and at most 634.62; one bound is met exactly below 3271.5 and from 63461.5 cents on. */
  lemma MerchandiseFee(r: Request)
    requires Calculate(r).Ok?
    ensures var fee, exact := Calculate(r).value.mpf, r.customsValue * r.quantity * 3_464;
      && 3_271 <= fee <= 63_462
      && (fee == 3_271 <==> exact < 3_271_500_000)
      && (fee == 63_462 <==> exact >= 63_461_500_000)
      && (3_271 < fee < 63_462 ==> 2_000_000 * fee <= 2 * exact + 1_000_000 < 2_000_000 * fee + 2_000_000)
  {
    Components(r);
    var e := r.customsValue * r.quantity;
    var charge := Charge(e, 3_464, FEE_SCALE);
    ScalePowers();
    if e * 3_464 < LIMIT {
      FitIntExact(e * 3_464);
      HalfUpError(e * 3_464, 1_000_000);
    } else {
      FeeChargeError(e, 3_464);
      assert RawFee(e, 3_464, FEE_SCALE) == e * 3_464 by {
        assert Pow10(0) == 1;
      }
    }
  }

  lemma Components(r: Request)
    requires Calculate(r).Ok?
    ensures var rule := LookupTariffRule(TARIFF_RULES, r.hsCode);
      && rule.Ok? && RatesBelowOne(rule.value)
      && var b, e := Calculate(r).value, r.customsValue * r.quantity;
         && e < LIMIT && b.extended == e && b.duty == DutyOf(rule.value, e) && b.section301 == Section301Of(rule.value, r, e)
         && b.mpf == MpfOf(e) && b.hmf == HmfOf(r, e)
  {
    LookupFinds(TARIFF_RULES, r.hsCode);
    var rule := LookupTariffRule(TARIFF_RULES, r.hsCode).value;
    TableRatesBelowOne(rule);
    CalculateWithExact(rule, r);
  }

  /** x, in units of 1/d, rounded half-up. */
  predicate Rounds(x: nat, d: nat, y: nat) {
    2 * d * y <= 2 * x + d < 2 * d * y + 2 * d
  }

  lemma ChargeRounds(amount: nat, r: nat, scale: nat)
    requires amount * r < LIMIT
    ensures Rounds(amount * r, Pow10(scale), Charge(amount, r, scale))
  {
    FitIntExact(amount * r);
    HalfUpError(amount * r, Pow10(scale));
  }

  /** While products stay below 10^28, duty, additional duty and harbour fee are the rates of the
      schedule and 0.125 percent of the extended value, rounded half-up to cents. */
  lemma FeesInFigures(r: Request)
    requires Calculate(r).Ok? && r.customsValue * r.quantity * 3_750 < 10_000_000_000_000_000_000_000_000_000
    ensures RatesOf(r.hsCode).Some?
    ensures var b, e, rates := Calculate(r).value, r.customsValue * r.quantity, RatesOf(r.hsCode).value;
      && Rounds(e * rates.duty, 10_000, b.duty)
      && (if r.country in rates.origins then Rounds(e * rates.additional, 10_000, b.section301) else b.section301 == 0)
      && (if r.shippingMode == "ocean" then Rounds(e * 1_250, 1_000_000, b.hmf) else b.hmf == 0)
  {
    Components(r);
    LookupFindsRates(r.hsCode);
    ScalePowers();
    var rates, e := RatesOf(r.hsCode).value, r.customsValue * r.quantity;
    ProductMonotone(e, e, rates.duty, 3_750);
    ProductMonotone(e, e, rates.additional, 3_750);
    ChargeRounds(e, rates.duty, TARIFF_SCALE);
    ChargeRounds(e, rates.additional, TARIFF_SCALE);
    ChargeRounds(e, 1_250, FEE_SCALE);
  }

  // ---------------------------------------------------------------------- formula

  /** The unrounded landed cost of a request under these rates, in units of 10^-6 cents. */
  function Formula(rates: Rates, r: Request): int {
    var e := r.customsValue * r.quantity;
    1_000_000 * (e + r.freight + r.insurance)
    + e * rates.duty * 100
    + (if r.country in rates.origins then e * rates.additional * 100 else 0)
    + (if e * 3_464 < 3_271_000_000 then 3_271_000_000 else if e * 3_464 > 63_462_000_000 then 63_462_000_000 else e * 3_464)
    + (if r.shippingMode == "ocean" then e * 1_250 else 0)
  }

  /** Every request that succeeds costs the formula of the schedule to within two cents. */
  lemma LandedNearSchedule(r: Request)
    requires Calculate(r).Ok?
    ensures RatesOf(r.hsCode).Some? && Near(1_000_000 * Calculate(r).value.landed, Formula(RatesOf(r.hsCode).value, r), 2_000_000)
  {
    Components(r);
    LookupFindsRates(r.hsCode);
    var rule, rates := LookupTariffRule(TARIFF_RULES, r.hsCode).value, RatesOf(r.hsCode).value;
    LandedNearFormula(rule, r);
    assert Pow10(0) == 1 && Pow10(2) == 100;
    assert RawTotal(rule, r) == Formula(rates, r);
  }

  const COMPUTERS: Request := Request("8471300100", "US", 10_000, 0, 0, 1, "air")

  lemma NoDuty(rule: TariffRule, e: nat)
    requires rule.dutyRate == 0
    ensures DutyOf(rule, e) == 0
  {
    ScalePowers();
    FitIntExact(0);
  }

  lemma SmallMerchandiseFee()
    ensures MpfOf(10_000) == 3_271
  {
    ScalePowers();
    FitIntExact(34_640_000);
  }

  /** Goods without duty, freight and insurance, not by sea, cost their value and the fee. */
  lemma FreeGoods(rule: TariffRule, r: Request, e: nat)
    requires rule.dutyRate == 0 && rule.section301Rate == 0 && rule.section301Origins == {}
    requires e == r.customsValue * r.quantity && r.freight == r.insurance == 0 && r.shippingMode != "ocean"
    requires e + MpfOf(e) < LIMIT
    ensures CalculateWith(rule, r) == Ok(Breakdown(e, 0, 0, MpfOf(e), 0, e + MpfOf(e)))
  {
    CalculateWithExact(rule, r);
    NoDuty(rule, e);
  }

  /** 100.00 of portable computers by air: the minimum fee makes it 132.71. */
  lemma SmallestFee()
    ensures Calculate(COMPUTERS) == Ok(Breakdown(10_000, 0, 0, 3_271, 0, 13_271))
  {
    SmallMerchandiseFee();
    FreeGoods(TARIFF_RULES[0], COMPUTERS, 10_000);
    assert LookupTariffRule(TARIFF_RULES, COMPUTERS.hsCode) == Ok(TARIFF_RULES[0]);
  }
}
