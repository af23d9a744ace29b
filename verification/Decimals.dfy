/** Decimal arithmetic in a context of 28 digits, as utils/decimal.py uses it: products and sums
    are rounded half-even to 28 digits, money is quantized half-up to cents, and a quantized
    value of more than 28 digits is an invalid operation. All values here are non-negative. */
module Decimals {
  import opened Common
  import opened NumberTheory

  function Pow10(n: nat): (p: nat)
    ensures p >= 1
  {
    if n == 0 then 1 else 10 * Pow10(n - 1)
  }

  /** The first coefficient that has more than 28 digits. */
  const LIMIT: nat := 100_000_000_000_000 * 100_000_000_000_000

  function HalfUp(n: nat, d: nat): nat
    requires 0 < d
  {
    (2 * n + d) / (2 * d)
  }

  function HalfEven(n: nat, d: nat): nat
    requires 0 < d
  {
    var q, r := n / d, n % d;
    if 2 * r < d || (2 * r == d && q % 2 == 0) then q else q + 1
  }

  /** coef * 10^exp */
  datatype Dec = Dec(coef: nat, exp: int)

  /** How many digits a coefficient has beyond 28. */
  function Excess(n: nat): nat {
    if n < LIMIT then 0 else 1 + Excess(n / 10)
  }

  /** The context's rounding of a result; a carry into a 29th digit moves the exponent. */
  function Fit(d: Dec): Dec {
    var k := Excess(d.coef);
    var c := HalfEven(d.coef, Pow10(k));
    if c >= LIMIT then Dec(c / 10, d.exp + k + 1) else Dec(c, d.exp + k)
  }

  function Mul(a: Dec, b: Dec): Dec {
    Fit(Dec(a.coef * b.coef, a.exp + b.exp))
  }

  function Add(a: Dec, b: Dec): Dec {
    var e := if a.exp <= b.exp then a.exp else b.exp;
    Fit(Dec(a.coef * Pow10(a.exp - e) + b.coef * Pow10(b.exp - e), e))
  }

  /** The coefficient of a decimal at another exponent, half-up where digits are dropped. */
  function Rescale(d: Dec, exp: int): nat {
    if d.exp >= exp then d.coef * Pow10(d.exp - exp) else HalfUp(d.coef, Pow10(exp - d.exp))
  }

  /** `money`: half-up to two places, or the context's invalid operation. The result is in cents. */
  function Money(d: Dec): Option<nat> {
    var c := Rescale(d, -2);
    if c < LIMIT then Some(c) else None
  }

  function Cents(c: nat): Dec {
    Dec(c, -2)
  }

  // --------------------------------------------------------------------- rounding

  lemma DivBounds(n: nat, d: nat)
    requires 0 < d
    ensures n / d * d <= n < n / d * d + d
  {}

  lemma MulMonotone(a: nat, b: nat, d: nat)
    requires a <= b
    ensures a * d <= b * d
  {}

  lemma QuotientOrder(x: nat, y: nat, d: nat, u: nat, v: nat)
    requires x * d <= u <= v < y * d + d
    ensures x <= y
  {
    if x > y {
      MulMonotone(y + 1, x, d);
    }
  }

  lemma DivUnique(n: nat, d: nat, q: nat)
    requires 0 < d && q * d <= n < q * d + d
    ensures n / d == q
  {
    DivBounds(n, d);
    var x := n / d;
    QuotientOrder(x, q, d, n, n);
    QuotientOrder(q, x, d, n, n);
  }

  lemma DivMonotone(a: nat, b: nat, d: nat)
    requires 0 < d && a <= b
    ensures a / d <= b / d
  {
    DivBounds(a, d);
    DivBounds(b, d);
    var x, y := a / d, b / d;
    QuotientOrder(x, y, d, a, b);
  }

  /** Half-up is off by at most half a unit. */
  lemma HalfUpError(n: nat, d: nat)
    requires 0 < d
    ensures 2 * n - d < 2 * d * HalfUp(n, d) <= 2 * n + d
  {
    DivBounds(2 * n + d, 2 * d);
    assert HalfUp(n, d) * (2 * d) == 2 * d * HalfUp(n, d);
  }

  lemma HalfUpMonotone(a: nat, b: nat, d: nat)
    requires 0 < d && a <= b
    ensures HalfUp(a, d) <= HalfUp(b, d)
  {
    DivMonotone(2 * a + d, 2 * b + d, 2 * d);
  }

  lemma MulStrict(a: nat, b: nat, m: nat)
    requires a < b && 0 < m
    ensures a * m < b * m
  {
    MulMonotone(a + 1, b, m);
  }

  lemma ScaleBounds(q: nat, n: nat, d: nat, m: nat)
    requires q * (2 * d) <= 2 * n + d < q * (2 * d) + 2 * d && 0 < m
    ensures q * (2 * (d * m)) <= 2 * (n * m) + d * m < q * (2 * (d * m)) + 2 * (d * m)
  {
    var lo := q * (2 * d);
    MulMonotone(lo, 2 * n + d, m);
    MulStrict(2 * n + d, lo + 2 * d, m);
    Associate(q, 2 * d, m);
    Associate(2, d, m);
    Associate(2, n, m);
    Distribute(m, 2 * n, d);
    Distribute(m, lo, 2 * d);
  }

  lemma HalfUpScale(n: nat, d: nat, m: nat)
    requires 0 < d && 0 < m
    ensures d * m > 0 && HalfUp(n * m, d * m) == HalfUp(n, d)
  {
    DivBounds(2 * n + d, 2 * d);
    ScaleBounds(HalfUp(n, d), n, d, m);
    assert d * m > 0;
    DivUnique(2 * (n * m) + d * m, 2 * (d * m), HalfUp(n, d));
  }

  lemma HalfUpExact(q: nat, d: nat)
    requires 0 < d
    ensures HalfUp(q * d, d) == q
  {
    assert q * (2 * d) == 2 * (q * d);
    DivUnique(2 * (q * d) + d, 2 * d, q);
  }

  /** Half-even is off by at most half a unit, too. */
  lemma HalfEvenError(n: nat, d: nat)
    requires 0 < d
    ensures 2 * n - d <= 2 * (HalfEven(n, d) * d) <= 2 * n + d
    ensures n / d <= HalfEven(n, d) <= n / d + 1
  {
    DivBounds(n, d);
    assert n % d == n - n / d * d;
    assert (n / d + 1) * d == n / d * d + d;
  }

  /** ... and a tie goes to the even neighbour. */
  lemma HalfEvenTie(n: nat, d: nat)
    requires 0 < d && (2 * (HalfEven(n, d) * d) == 2 * n - d || 2 * (HalfEven(n, d) * d) == 2 * n + d)
    ensures HalfEven(n, d) % 2 == 0
  {
    var q, r := n / d, n % d;
    assert n == q * d + r;
    assert (q + 1) * d == q * d + d;
    assert 2 * r == d;
  }

  lemma HalfEvenExact(q: nat, d: nat)
    requires 0 < d
    ensures HalfEven(q * d, d) == q
  {
    DivUnique(q * d, d, q);
    assert (q * d) % d == q * d - q * d / d * d;
  }

  lemma HalfEvenMonotone(a: nat, b: nat, d: nat)
    requires 0 < d && a <= b
    ensures HalfEven(a, d) <= HalfEven(b, d)
  {
    DivMonotone(a, b, d);
    if a / d == b / d {
      Remainders(a, b, d);
    }
  }

  /** Rounding to multiples of d keeps a number on its side of every such multiple. */
  lemma HalfEvenSide(n: nat, w: nat, d: nat)
    requires 0 < d
    ensures n <= w * d ==> HalfEven(n, d) <= w && HalfEven(n, d) * d <= w * d
    ensures w * d <= n ==> w <= HalfEven(n, d) && w * d <= HalfEven(n, d) * d
  {
    var h := HalfEven(n, d);
    HalfEvenExact(w, d);
    if n <= w * d {
      HalfEvenMonotone(n, w * d, d);
      MulMonotone(h, w, d);
    }
    if w * d <= n {
      HalfEvenMonotone(w * d, n, d);
      MulMonotone(w, h, d);
    }
  }

  lemma Remainders(a: nat, b: nat, d: nat)
    requires 0 < d && a <= b && a / d == b / d
    ensures a % d <= b % d
  {
    assert a % d == a - a / d * d && b % d == b - b / d * d;
  }

  // ------------------------------------------------------------- the 28-digit context

  lemma {:induction false} Pow10Add(m: nat, n: nat)
    ensures Pow10(m + n) == Pow10(m) * Pow10(n)
  {
    if m > 0 {
      Pow10Add(m - 1, n);
      Associate(10, Pow10(m - 1), Pow10(n));
    }
  }

  const TENTH: nat := 10_000_000_000_000 * 100_000_000_000_000

  /** The excess is the number of dropped digits: what is left has 28. */
  lemma {:induction false} ExcessBounds(n: nat)
    ensures var k := Excess(n); n < LIMIT * Pow10(k) && (k > 0 ==> TENTH * Pow10(k) <= n)
  {
    if n >= LIMIT {
      ExcessBounds(n / 10);
    }
  }

  /** A rounded result as an integer in units of the unrounded one's exponent. */
  function FitInt(n: nat): nat {
    HalfEven(n, Pow10(Excess(n))) * Pow10(Excess(n))
  }

  lemma LargerMagnitude(j: nat, k: nat)
    requires j < k
    ensures LIMIT * Pow10(j) <= TENTH * Pow10(k)
  {
    Pow10Step(j, k);
    MulMonotone(10 * Pow10(j), Pow10(k), TENTH);
  }

  lemma ExcessIs(n: nat, k: nat)
    requires n < LIMIT * Pow10(k) && (k > 0 ==> TENTH * Pow10(k) <= n)
    ensures Excess(n) == k
  {
    var e := Excess(n);
    ExcessBounds(n);
    if e < k { LargerMagnitude(e, k); }
    if k < e { LargerMagnitude(k, e); }
  }

  /** What a context of 28 digits does to a number with k more of them: the nearest multiple of
      10^k, and of two nearest ones the even multiple. */
  lemma ContextRounds(n: nat, k: nat)
    requires n < 10_000_000_000_000_000_000_000_000_000 * Pow10(k)
    requires k > 0 ==> 1_000_000_000_000_000_000_000_000_000 * Pow10(k) <= n
    ensures FitInt(n) % Pow10(k) == 0
    ensures 2 * n - Pow10(k) <= 2 * FitInt(n) <= 2 * n + Pow10(k)
    ensures 2 * FitInt(n) == 2 * n - Pow10(k) || 2 * FitInt(n) == 2 * n + Pow10(k) ==> FitInt(n) / Pow10(k) % 2 == 0
  {
    ExcessIs(n, k);
    HalfEvenNearest(n, Pow10(k));
  }

  lemma HalfEvenNearest(n: nat, d: nat)
    requires 0 < d
    ensures var r := HalfEven(n, d) * d;
      && r % d == 0 && 2 * n - d <= 2 * r <= 2 * n + d
      && (2 * r == 2 * n - d || 2 * r == 2 * n + d ==> r / d % 2 == 0)
  {
    var q := HalfEven(n, d);
    HalfEvenError(n, d);
    DivUnique(q * d, d, q);
    assert (q * d) % d == q * d - q * d / d * d;
    if 2 * (q * d) == 2 * n - d || 2 * (q * d) == 2 * n + d {
      HalfEvenTie(n, d);
    }
  }

  lemma FitIntExact(n: nat)
    requires n < LIMIT
    ensures FitInt(n) == n && HalfEven(n, 1) == n
  {
    HalfEvenExact(n, 1);
  }

  /** Rounding to 28 digits keeps a result on its side of any power of ten above LIMIT. */
  lemma FitIntRange(n: nat)
    requires n >= LIMIT
    ensures var k := Excess(n); k > 0 && TENTH * Pow10(k) <= FitInt(n) <= LIMIT * Pow10(k)
    ensures LIMIT <= FitInt(n)
  {
    var k := Excess(n);
    ExcessBounds(n);
    assert Pow10(k) == 10 * Pow10(k - 1);
    HalfEvenSide(n, TENTH, Pow10(k));
    HalfEvenSide(n, LIMIT, Pow10(k));
  }

  lemma FitIntError(n: nat)
    ensures 2 * n - Pow10(Excess(n)) <= 2 * FitInt(n) <= 2 * n + Pow10(Excess(n))
  {
    HalfEvenError(n, Pow10(Excess(n)));
  }

  lemma {:induction false} ExcessMonotone(a: nat, b: nat)
    requires a <= b
    ensures Excess(a) <= Excess(b)
  {
    if a >= LIMIT {
      ExcessMonotone(a / 10, b / 10);
    }
  }

  lemma Pow10Step(j: nat, k: nat)
    requires j < k
    ensures 10 * Pow10(j) <= Pow10(k)
  {
    if j + 1 < k {
      Pow10Step(j, k - 1);
    }
  }

  /** Rounding to 28 digits is monotone, across changes of the number of dropped digits too. */
  lemma FitIntMonotone(a: nat, b: nat)
    requires a <= b
    ensures FitInt(a) <= FitInt(b)
  {
    var j, k := Excess(a), Excess(b);
    ExcessMonotone(a, b);
    if j == k {
      HalfEvenMonotone(a, b, Pow10(k));
      MulMonotone(HalfEven(a, Pow10(k)), HalfEven(b, Pow10(k)), Pow10(k));
    } else {
      FitIntRange(b);
      Pow10Step(j, k);
      if a < LIMIT { FitIntExact(a); } else { FitIntRange(a); }
    }
  }

  lemma ExcessOfZeros(c: nat, z: nat)
    requires c < LIMIT
    ensures Excess(c * Pow10(z)) <= z
  {
    var k, p := Excess(c * Pow10(z)), Pow10(z);
    ExcessBounds(c * p);
    if k > z {
      Pow10Step(z, k);
      MulMonotone(10 * p, Pow10(k), TENTH);
      Associate(TENTH, 10, p);
      MulStrict(c, LIMIT, p);
      assert false;
    }
  }

  lemma FitIntMultiple(n: nat, q: nat, p: nat)
    requires n == q * p && p == Pow10(Excess(n))
    ensures FitInt(n) == n
  {
    HalfEvenExact(q, p);
  }

  /** Dropping only zeros loses nothing. */
  lemma FitIntZeros(c: nat, z: nat)
    requires c < LIMIT
    ensures FitInt(c * Pow10(z)) == c * Pow10(z)
  {
    var k := Excess(c * Pow10(z));
    ExcessOfZeros(c, z);
    Pow10Add(z - k, k);
    Associate(c, Pow10(z - k), Pow10(k));
    FitIntMultiple(c * Pow10(z), c * Pow10(z - k), Pow10(k));
  }

  /** The rounded decimal has the value FitInt in units of the old exponent. */
  lemma FitValue(d: Dec)
    ensures var f := Fit(d); f.exp >= d.exp && f.coef < LIMIT && f.coef * Pow10(f.exp - d.exp) == FitInt(d.coef)
  {
    var k := Excess(d.coef);
    var p := Pow10(k);
    var c := HalfEven(d.coef, p);
    ExcessBounds(d.coef);
    HalfEvenMonotone(d.coef, LIMIT * p, p);
    HalfEvenExact(LIMIT, p);
    if c >= LIMIT {
      assert c == LIMIT && c / 10 == TENTH;
      assert Pow10(k + 1) == 10 * p;
      Associate(TENTH, 10, p);
    }
  }

  lemma FitExact(d: Dec)
    requires d.coef < LIMIT
    ensures Fit(d) == d
  {
    FitIntExact(d.coef);
  }

  // ------------------------------------------------------------- products, sums, money

  /** The half-up rescaling of n units of 10^e, however the decimal is scaled. */
  lemma RescaleAt(f: Dec, e: int, n: nat, exp: int)
    requires e <= exp && f.exp >= e && f.coef * Pow10(f.exp - e) == n
    ensures Rescale(f, exp) == HalfUp(n, Pow10(exp - e))
  {
    if f.exp >= exp {
      Pow10Add(f.exp - exp, exp - e);
      Associate(f.coef, Pow10(f.exp - exp), Pow10(exp - e));
      HalfUpExact(f.coef * Pow10(f.exp - exp), Pow10(exp - e));
    } else {
      Pow10Add(exp - f.exp, f.exp - e);
      HalfUpScale(f.coef, Pow10(exp - f.exp), Pow10(f.exp - e));
    }
  }

  /** `money(a * b)`: two roundings, half-even to 28 digits and half-up to cents. */
  lemma MoneyOfProduct(a: Dec, b: Dec)
    requires a.exp + b.exp <= -2
    ensures var c := HalfUp(FitInt(a.coef * b.coef), Pow10(-2 - (a.exp + b.exp)));
      Money(Mul(a, b)) == if c < LIMIT then Some(c) else None
  {
    FitValue(Dec(a.coef * b.coef, a.exp + b.exp));
    RescaleAt(Mul(a, b), a.exp + b.exp, FitInt(a.coef * b.coef), -2);
  }

  /** A whole number of cents times an integer is exact or an invalid operation. */
  lemma MoneyOfMultiple(v: nat, q: nat)
    ensures Money(Mul(Cents(v), Dec(q, 0))) == if v * q < LIMIT then Some(v * q) else None
  {
    MoneyOfProduct(Cents(v), Dec(q, 0));
    HalfUpExact(FitInt(v * q), 1);
    if v * q < LIMIT { FitIntExact(v * q); } else { FitIntRange(v * q); }
  }

  /** acc is the sum of s cents, exactly as long as s fits in the context. */
  ghost predicate Totals(acc: Dec, s: nat) {
    && acc.exp >= -2 && (s < LIMIT ==> acc == Cents(s))
    && (s >= LIMIT ==> acc.coef * Pow10(acc.exp + 2) >= LIMIT)
  }

  lemma AddCents(acc: Dec, s: nat, c: nat)
    requires Totals(acc, s)
    ensures Totals(Add(acc, Cents(c)), s + c)
  {
    assert Pow10(0) == 1;
    var sum := acc.coef * Pow10(acc.exp + 2) + c;
    assert Add(acc, Cents(c)) == Fit(Dec(sum, -2));
    FitValue(Dec(sum, -2));
    if sum < LIMIT { FitExact(Dec(sum, -2)); } else { FitIntRange(sum); }
  }

  lemma MoneyOfTotal(acc: Dec, s: nat)
    requires Totals(acc, s)
    ensures Money(acc) == if s < LIMIT then Some(s) else None
  {
    assert Pow10(0) == 1;
  }

  // -------------------------------------------------------- a rate of a money amount

  /** `money(amount * rate)` in cents, for a rate of r units of 10^-scale. */
  function Charge(amount: nat, r: nat, scale: nat): nat {
    HalfUp(FitInt(amount * r), Pow10(scale))
  }

  lemma ChargeIsMoney(amount: nat, r: nat, scale: nat)
    ensures var c := Charge(amount, r, scale);
      Money(Mul(Cents(amount), Dec(r, -(scale as int)))) == if c < LIMIT then Some(c) else None
  {
    MoneyOfProduct(Cents(amount), Dec(r, -(scale as int)));
  }

  lemma ChargeMonotone(a: nat, b: nat, r: nat, scale: nat)
    requires a <= b
    ensures Charge(a, r, scale) <= Charge(b, r, scale)
  {
    MulMonotone(a, b, r);
    FitIntMonotone(a * r, b * r);
    HalfUpMonotone(FitInt(a * r), FitInt(b * r), Pow10(scale));
  }

  /** A rate below one never charges more than the amount. */
  lemma ChargeBelow(amount: nat, r: nat, scale: nat)
    requires amount < LIMIT && r <= Pow10(scale)
    ensures Charge(amount, r, scale) <= amount
  {
    var p := Pow10(scale);
    MulMonotone(r, p, amount);
    FitIntMonotone(amount * r, amount * p);
    FitIntZeros(amount, scale);
    HalfUpMonotone(FitInt(amount * r), amount * p, p);
    HalfUpExact(amount, p);
  }

  /** Dropping digits to reach 28 lifts n onto a half, where the second rounding goes up. p is a
      power of ten. */
  predicate DoublyRounded(n: nat, p: nat)
    requires 0 < p
  {
    2 * (n % p) < p && 2 * (FitInt(n) % p) == p
  }

  lemma NearestUnit(n: nat, q: nat, p: nat, m: nat)
    requires 0 < p && n == q * p + m && m < p
    ensures HalfUp(n, p) == if 2 * m < p then q else q + 1
    ensures n % p == m
  {
    Remainder(n, q, p, m);
    Commute3(q, 2, p);
    if 2 * m < p {
      DivUnique(2 * n + p, 2 * p, q);
    } else {
      Distribute(q, 1, 2 * p);
      DivUnique(2 * n + p, 2 * p, q + 1);
    }
  }

  lemma Remainder(n: nat, q: nat, p: nat, m: nat)
    requires 0 < p && n == q * p + m && m < p
    ensures n % p == m
  {
    DivUnique(n, p, q);
  }

  lemma Commute3(q: nat, a: nat, p: nat)
    ensures q * (a * p) == a * (q * p)
  {
    Associate(q, a, p);
    Associate(a, q, p);
  }

  lemma FitIntSideOf(n: nat, w: nat, x: nat)
    requires x == w * Pow10(Excess(n))
    ensures (n <= x ==> FitInt(n) <= x) && (x <= n ==> x <= FitInt(n))
  {
    HalfEvenSide(n, w, Pow10(Excess(n)));
  }

  /** Rounding that drops fewer digits keeps a number on its side of a multiple of 10^j. */
  lemma FitIntSide(n: nat, c: nat, j: nat)
    requires Excess(n) <= j
    ensures n <= c * Pow10(j) ==> FitInt(n) <= c * Pow10(j)
    ensures c * Pow10(j) <= n ==> c * Pow10(j) <= FitInt(n)
  {
    var w := MultipleOfLess(c, Excess(n), j);
    FitIntSideOf(n, w, c * Pow10(j));
  }

  lemma MultipleOfLess(c: nat, k: nat, j: nat) returns (w: nat)
    requires k <= j
    ensures c * Pow10(j) == w * Pow10(k)
  {
    w := c * Pow10(j - k);
    Pow10Add(j - k, k);
    Associate(c, Pow10(j - k), Pow10(k));
  }

  /** n = qp + m and its rounding f = qp + g are in the same unit, on the same side of its middle. */
  lemma HalfUnitCases(n: nat, p: nat, q: nat, m: nat, f: nat, g: nat)
    requires 0 < p && n == q * p + m && m < p && f == q * p + g && g <= p
    requires if 2 * m < p then 2 * g <= p else 2 * g >= p
    ensures Within(n, p, HalfUp(f, p)) <==> !(2 * m < p && 2 * (f % p) == p)
  {
    if g == p {
      assert (q + 1) * p == q * p + p;
      NearestUnit(f, q + 1, p, 0);
      WithinUnit(n, p, q, m, q + 1);
    } else {
      NearestUnit(f, q, p, g);
      WithinUnit(n, p, q, m, HalfUp(f, p));
    }
  }

  /** h whole units of p are within half a unit of n. */
  predicate Within(n: nat, p: nat, h: nat) {
    2 * n - p <= 2 * (h * p) <= 2 * n + p
  }

  lemma WithinUnit(n: nat, p: nat, q: nat, m: nat, h: nat)
    requires n == q * p + m && m < p && (h == q || h == q + 1)
    ensures Within(n, p, h) <==> if h == q then 2 * m <= p else 2 * m >= p
  {
    assert (q + 1) * p == q * p + p;
  }

  lemma TenParts(q: nat, p: nat, tenth: nat)
    requires p == 10 * tenth
    ensures (10 * q + 5) * tenth == q * p + 5 * tenth && (q + 1) * p == q * p + p
  {
    Associate(q, 10, tenth);
    Distribute(tenth, 10 * q, 5);
  }

  /** Dropping fewer than s digits stays in a unit of 10^s, on the same side of its middle. */
  lemma FitIntInUnit(n: nat, s: nat, q: nat, m: nat)
    requires 0 < s && Excess(n) < s && n == q * Pow10(s) + m && m < Pow10(s)
    ensures var f, p := FitInt(n), Pow10(s);
      0 <= f - q * p <= p && if 2 * m < p then 2 * (f - q * p) <= p else 2 * (f - q * p) >= p
  {
    TenParts(q, Pow10(s), Pow10(s - 1));
    FitIntSide(n, 10 * q + 5, s - 1);
    FitIntSide(n, q, s);
    FitIntSide(n, q + 1, s);
  }

  lemma HalfUnitWhole(n: nat, p: nat)
    requires p == Pow10(Excess(n))
    ensures Within(n, p, HalfUp(FitInt(n), p)) && !DoublyRounded(n, p)
  {
    var h := HalfEven(n, p);
    HalfEvenError(n, p);
    NearestUnit(h * p, h, p, 0);
  }

  lemma HalfUnitInside(n: nat, s: nat, q: nat, m: nat)
    requires 0 < s && Excess(n) < s && n == q * Pow10(s) + m && m < Pow10(s)
    ensures Within(n, Pow10(s), HalfUp(FitInt(n), Pow10(s))) <==> !DoublyRounded(n, Pow10(s))
  {
    FitIntInUnit(n, s, q, m);
    HalfUnitCases(n, Pow10(s), q, m, FitInt(n), FitInt(n) - q * Pow10(s));
    NearestUnit(n, q, Pow10(s), m);
  }

  lemma Parts(n: nat, p: nat) returns (q: nat, m: nat)
    requires 0 < p
    ensures n == q * p + m && m < p
  {
    q := n / p;
    DivBounds(n, p);
    m := n - q * p;
  }

  /** The two roundings together are off by more than half a unit in exactly one case. */
  lemma HalfUnitExactly(n: nat, s: nat)
    requires 0 < s && Excess(n) <= s
    ensures Within(n, Pow10(s), HalfUp(FitInt(n), Pow10(s))) <==> !DoublyRounded(n, Pow10(s))
  {
    if Excess(n) == s {
      HalfUnitWhole(n, Pow10(s));
    } else {
      var q, m := Parts(n, Pow10(s));
      HalfUnitInside(n, s, q, m);
    }
  }

  lemma ExcessOfCharge(amount: nat, r: nat, scale: nat)
    requires amount < LIMIT && r <= Pow10(scale)
    ensures Excess(amount * r) <= scale
  {
    MulMonotone(r, Pow10(scale), amount);
    ExcessMonotone(amount * r, amount * Pow10(scale));
    ExcessOfZeros(amount, scale);
  }

  /** A charge is within half a cent of the exact amount if and only if the product is not
      rounded doubly; within 28 digits it never is. */
  lemma ChargeWithinHalfCent(amount: nat, r: nat, scale: nat)
    requires amount < LIMIT && 0 < scale && r <= Pow10(scale)
    ensures var p := Pow10(scale);
      Within(amount * r, p, Charge(amount, r, scale)) <==> !DoublyRounded(amount * r, p)
    ensures amount * r < LIMIT ==> !DoublyRounded(amount * r, Pow10(scale))
  {
    ExcessOfCharge(amount, r, scale);
    HalfUnitExactly(amount * r, scale);
    if amount * r < LIMIT {
      FitIntExact(amount * r);
    }
  }
}
