/** The field utilities of zk/field_utils.py over an arbitrary prime p in place of the
    literal FIELD_ORDER. Python's `%` with a positive modulus and its three-argument `pow`
    are Dafny's `%` and `Pow(_, _) % p`. Lists the source fills in place are arrays here. */
module FieldUtils {
  import opened NumberTheory
  import opened Polynomials
  import opened Common

  const DOMAIN_SIZE: nat := 8

  // ------------------------------------------------------------------- inverse

  function FieldInv(p: nat, x: int): int
    requires 2 <= p
  {
    Pow(x, p - 2) % p
  }

  /** The exponent p - 2 gives the inverse of everything but 0, and 0 for 0. */
  lemma FieldInvInverts(p: nat, x: int)
    requires IsPrime(p) && 2 < p
    ensures if x % p == 0 then FieldInv(p, x) == 0 else (x * FieldInv(p, x)) % p == 1
  {
    ModTwice(p, Pow(x, p - 2));
    ModMul(p, x, x, FieldInv(p, x), Pow(x, p - 2));
    if x % p == 0 {
      ModIs(p, 0, 0, 0);
      ModMul(p, x, 0, Pow(x, p - 3), Pow(x, p - 3));
    } else {
      Fermat(p, x);
    }
  }

  // ------------------------------------------------------------ roots of unity

  function OmegaOf(p: nat, candidate: int): int
    requires 2 <= p
  {
    Pow(candidate, (p - 1) / DOMAIN_SIZE) % p
  }

  /** The two tests `_find_omega` makes. */
  predicate PassesOmegaTests(p: nat, omega: int)
    requires 2 <= p
  {
    Pow(omega, DOMAIN_SIZE) % p == 1 && Pow(omega, DOMAIN_SIZE / 2) % p != 1
  }

  /** w has order exactly n. */
  ghost predicate PrimitiveRoot(p: nat, w: int, n: nat)
    requires 0 < p
  {
    Pow(w, n) % p == 1 && forall k :: 0 < k < n ==> Pow(w, k) % p != 1
  }

  lemma PowMultiple(p: nat, w: int, a: nat, b: nat)
    requires 2 <= p && Pow(w, a) % p == 1
    ensures Pow(w, a * b) % p == 1
  {
    PowMul(w, a, b);
    ModIs(p, 1, 0, 1);
    PowMod(p, Pow(w, a), 1, b);
    PowOne(b);
  }

  lemma PowCancel(p: nat, w: int, a: nat, b: nat)
    requires 2 <= p && Pow(w, a) % p == 1 && Pow(w, a + b) % p == 1
    ensures Pow(w, b) % p == 1
  {
    PowAdd(w, a, b);
    ModIs(p, 1, 0, 1);
    ModMul(p, Pow(w, a), 1, Pow(w, b), Pow(w, b));
  }

  /** Two tests are enough: passing them means order exactly 8, because a smaller order
      would divide 4. */
  lemma OmegaTestsForceOrderEight(p: nat, w: int)
    requires 2 <= p
    ensures PassesOmegaTests(p, w) <==> PrimitiveRoot(p, w, DOMAIN_SIZE)
  {
    if PassesOmegaTests(p, w) {
      forall k | 0 < k < 8 ensures Pow(w, k) % p != 1 {
        if Pow(w, k) % p == 1 {
          PowMultiple(p, w, k, if k == 6 then 2 else if k == 3 then 4 else if k == 5 then 4 else if k == 7 then 4 else 4 / k);
          if k == 6 || k == 3 {
            PowCancel(p, w, 8, 4);
          } else if k == 5 {
            PowMultiple(p, w, 8, 2);
            PowCancel(p, w, 16, 4);
          } else if k == 7 {
            PowMultiple(p, w, 8, 3);
            PowCancel(p, w, 24, 4);
          }
          assert false;
        }
      }
    }
  }

  /** With 8 dividing p - 1, a candidate passes exactly when it is not a multiple of p and its
      power (p - 1) / 2 is not 1. */
  lemma OmegaCandidateExact(p: nat, c: int)
    requires IsPrime(p) && p % 8 == 1
    ensures PassesOmegaTests(p, OmegaOf(p, c)) <==> c % p != 0 && Pow(c, (p - 1) / 2) % p != 1
  {
    var e := (p - 1) / 8;
    var w := Pow(c, e);
    assert p - 1 == 8 * e && (p - 1) / 2 == 4 * e;
    ModTwice(p, w);
    PowMod(p, w % p, w, 8);
    PowMod(p, w % p, w, 4);
    PowMul(c, e, 8);
    PowMul(c, e, 4);
    if c % p != 0 {
      Fermat(p, c);
    } else {
      ModIs(p, 0, 0, 0);
      ModMul(p, c, 0, Pow(c, 8 * e - 1), Pow(c, 8 * e - 1));
    }
  }

  method FindOmega(p: nat) returns (omega: Option<int>)
    requires 2 <= p
    ensures omega.Some? ==> 0 <= omega.value < p && PrimitiveRoot(p, omega.value, DOMAIN_SIZE)
    ensures omega.Some? ==> exists c :: 2 <= c < 512 && omega.value == OmegaOf(p, c)
                                        && forall b :: 2 <= b < c ==> !PassesOmegaTests(p, OmegaOf(p, b))
    ensures omega.None? <==> forall c :: 2 <= c < 512 ==> !PassesOmegaTests(p, OmegaOf(p, c))
  {
    for candidate := 2 to 512
      invariant forall c :: 2 <= c < candidate ==> !PassesOmegaTests(p, OmegaOf(p, c))
    {
      var w := OmegaOf(p, candidate);
      if PassesOmegaTests(p, w) {
        OmegaTestsForceOrderEight(p, w);
        return Some(w);
      }
    }
    return None;
  }

  // ---------------------------------------------------------------- evaluation

  method PolyEval(p: nat, coeffs: seq<int>, x: int) returns (result: int)
    requires 2 <= p
    ensures result == Value(coeffs, x) % p
  {
    result := 0;
    var xPow := 1;
    for i := 0 to |coeffs|
      invariant result == Eval(coeffs, i, x) % p
      invariant xPow % p == Pow(x, i) % p
    {
      ModAccumulate(p, result, Eval(coeffs, i, x), coeffs[i], xPow, Pow(x, i));
      ModMul(p, x, x, xPow, Pow(x, i));
      ModTwice(p, x * xPow);
      result := (result + coeffs[i] * xPow) % p;
      xPow := x * xPow % p;
    }
  }

  /** What `intt` computes when the domain generator is w. */
  function Intt(p: nat, w: int, values: seq<int>): (coeffs: seq<int>)
    requires 2 <= p
    ensures |coeffs| == |values|
  {
    seq(|values|, k requires 0 <= k < |values| =>
      (Value(values, Pow(FieldInv(p, w), k)) * FieldInv(p, |values|)) % p)
  }

  /** The inner loop of `intt`: one coefficient before scaling. */
  method InttSum(p: nat, omegaInv: int, values: seq<int>, k: nat) returns (s: int)
    requires 2 <= p
    ensures s == Value(values, Pow(omegaInv, k)) % p
  {
    s := 0;
    for j := 0 to |values|
      invariant s == Eval(values, j, Pow(omegaInv, k)) % p
    {
      var t := Pow(omegaInv, k * j);
      PowMul(omegaInv, k, j);
      ModTwice(p, t);
      ModAccumulate(p, s, Eval(values, j, Pow(omegaInv, k)), values[j], t % p, t);
      s := (s + values[j] * (t % p)) % p;
    }
  }

  method InverseNtt(p: nat, w: int, values: seq<int>) returns (coeffs: seq<int>)
    requires 2 <= p
    ensures coeffs == Intt(p, w, values)
  {
    var n := |values|;
    var omegaInv := FieldInv(p, w);
    var nInv := FieldInv(p, n);
    coeffs := [];
    for k := 0 to n
      invariant |coeffs| == k
      invariant forall i :: 0 <= i < k ==> coeffs[i] == Intt(p, w, values)[i]
    {
      var s := InttSum(p, omegaInv, values, k);
      ModTwice(p, Value(values, Pow(omegaInv, k)));
      ModMul(p, s, Value(values, Pow(omegaInv, k)), nInv, nInv);
      coeffs := coeffs + [s * nInv % p];
    }
  }

  // ---------------------------------------------------- addition, multiplication

  ghost predicate Reduced(p: nat, c: seq<int>) {
    forall i :: 0 <= i < |c| ==> 0 <= c[i] < p
  }

  function Reduce(p: nat, c: seq<int>): (r: seq<int>)
    requires 0 < p
    ensures |r| == |c| && forall i :: 0 <= i < |c| ==> r[i] == c[i] % p
  {
    seq(|c|, i requires 0 <= i < |c| => c[i] % p)
  }

  /** The coefficient-wise definition the loops of `poly_add` are checked against. */
  function Sum(p: nat, a: seq<int>, b: seq<int>): (c: seq<int>)
    requires 0 < p
    ensures |c| == (if |a| > |b| then |a| else |b|)
    ensures forall k :: 0 <= k < |c| ==> c[k] == (Coef(a, k) + Coef(b, k)) % p
  {
    seq(if |a| > |b| then |a| else |b|, k => (Coef(a, k) + Coef(b, k)) % p)
  }

  /** The convolution `poly_mul` is checked against; an empty factor gives [0]. */
  function Product(p: nat, a: seq<int>, b: seq<int>): (c: seq<int>)
    requires 0 < p
    ensures |c| == (if a == [] || b == [] then 1 else |a| + |b| - 1)
    ensures forall k :: 0 <= k < |c| ==> c[k] == Conv(a, b, k) % p
  {
    if a == [] || b == [] then
      ConvOutside(a, b, 0);
      [0]
    else
      seq(|a| + |b| - 1, k => Conv(a, b, k) % p)
  }

  /** `poly_mul` multiplies values: at every point the value of the product is the product
      of the values. */
  lemma ProductValue(p: nat, a: seq<int>, b: seq<int>, x: int)
    requires 2 <= p
    ensures Value(Product(p, a, b), x) % p == (Value(a, x) * Value(b, x)) % p
  {
    var c := Product(p, a, b);
    var n := |a| + |b| + 1;
    forall k | 0 <= k < n ensures Coef(c, k) % p == Conv(a, b, k) % p {
      if k < |c| {
        ModTwice(p, Conv(a, b, k));
      } else {
        ConvOutside(a, b, k);
      }
    }
    EvalConv(p, a, b, c, n, x);
    EvalPad(c, n, x);
  }

  lemma SumValue(p: nat, a: seq<int>, b: seq<int>, x: int)
    requires 2 <= p
    ensures Value(Sum(p, a, b), x) % p == (Value(a, x) + Value(b, x)) % p
  {
    var c := Sum(p, a, b);
    forall k | 0 <= k < |c| ensures Coef(c, k) % p == (1 * Coef(a, k) + Coef(b, k)) % p {
      ModTwice(p, Coef(a, k) + Coef(b, k));
    }
    EvalLinear(p, |c|, c, 1, a, b, x);
    EvalPad(a, |c|, x);
    EvalPad(b, |c|, x);
  }

  method PolyAdd(p: nat, a: seq<int>, b: seq<int>) returns (r: seq<int>)
    requires 2 <= p
    ensures r == Sum(p, a, b)
  {
    var n := if |a| > |b| then |a| else |b|;
    var result := new int[n](_ => 0);
    for i := 0 to |a|
      invariant forall k :: 0 <= k < i ==> result[k] == a[k] % p
      invariant forall k :: i <= k < n ==> result[k] == 0
    {
      result[i] := (result[i] + a[i]) % p;
    }
    for i := 0 to |b|
      invariant forall k :: 0 <= k < i ==> result[k] == (Coef(a, k) + b[k]) % p
      invariant forall k :: i <= k < n ==> result[k] == Coef(a, k) % p
    {
      ModTwice(p, Coef(a, i));
      ModAdd(p, result[i], Coef(a, i), b[i], b[i]);
      result[i] := (result[i] + b[i]) % p;
    }
    return result[..];
  }

  method PolyMul(p: nat, a: seq<int>, b: seq<int>) returns (r: seq<int>)
    requires 2 <= p
    ensures r == Product(p, a, b)
  {
    if a == [] || b == [] {
      return [0];
    }
    var n := |a| + |b| - 1;
    var result := new int[n](_ => 0);
    for i := 0 to |a|
      invariant forall k :: 0 <= k < n ==> result[k] == Conv(a[..i], b, k) % p
    {
      assert a[..i + 1][..i] == a[..i];
      if a[i] != 0 {
        for j := 0 to |b|
          invariant forall k :: 0 <= k < n && (k < i || i + j <= k) ==> result[k] == Conv(a[..i], b, k) % p
          invariant forall k :: i <= k < i + j ==> result[k] == Conv(a[..i + 1], b, k) % p
        {
          var old' := Conv(a[..i], b, i + j);
          ModTwice(p, old');
          ModAdd(p, result[i + j], old', a[i] * b[j], a[i] * b[j]);
          result[i + j] := (result[i + j] + a[i] * b[j]) % p;
        }
      }
    }
    assert a[..|a|] == a;
    return result[..];
  }

  // ------------------------------------------------------------- long division

  /** The inner loop of one division step: c * divisor subtracted at the top of rem. */
  ghost predicate Subtracted(p: nat, rem: seq<int>, c: int, d: seq<int>, out: seq<int>)
    requires 0 < p && |d| <= |rem|
  {
    && |out| == |rem|
    && (forall k :: 0 <= k < |rem| - |d| ==> out[k] == rem[k])
    && (forall k :: |rem| - |d| <= k < |rem| ==> out[k] == (rem[k] - c * d[k - (|rem| - |d|)]) % p)
  }

  lemma DivisionStepAt(p: nat, d: seq<int>, q: seq<int>, rem: seq<int>, c: int, out: seq<int>, fk: int, k: nat)
    requires 0 < p && d != [] && |d| <= |rem| && |rem| - |d| < |q| && q[|rem| - |d|] == 0
    requires Subtracted(p, rem, c, d, out)
    requires fk % p == (Conv(q, d, k) + Coef(rem, k)) % p
    ensures fk % p == (Conv(q[|rem| - |d| := c], d, k) + Coef(out, k)) % p
  {
    var s := |rem| - |d|;
    ConvUpdate(q, s, c, d, k);
    if s <= k < |rem| {
      var t := c * d[k - s];
      ModTwice(p, rem[k] - t);
      ModAdd(p, Conv(q, d, k) + t, Conv(q, d, k) + t, out[k], rem[k] - t);
    }
  }

  /** The quotient digit clears the top coefficient of the remainder. */
  lemma TopCleared(p: nat, top: int, lead: int, c: int)
    requires IsPrime(p) && 2 < p && lead % p != 0 && c == top * FieldInv(p, lead) % p
    ensures (top - c * lead) % p == 0
  {
    var inv := FieldInv(p, lead);
    FieldInvInverts(p, lead);
    ModTwice(p, top * inv);
    ModMul(p, c, top * inv, lead, lead);
    Associate(top, inv, lead);
    ModIs(p, 1, 0, 1);
    ModMul(p, top, top, inv * lead, 1);
    ModDiff(p, top, c * lead);
  }

  function Reversed(s: seq<int>): (r: seq<int>)
    ensures |r| == |s| && forall i :: 0 <= i < |s| ==> r[i] == s[|s| - 1 - i]
  {
    seq(|s|, i requires 0 <= i < |s| => s[|s| - 1 - i])
  }

  /** The digits, most significant first, sit at the top of q over zeros. */
  ghost predicate Placed(digits: seq<int>, q: seq<int>) {
    && |digits| <= |q|
    && forall j :: 0 <= j < |q| ==> q[j] == if j >= |q| - |digits| then digits[|q| - 1 - j] else 0
  }

  lemma PlaceDigit(digits: seq<int>, q: seq<int>, c: int)
    requires Placed(digits, q) && |digits| < |q|
    ensures q[|q| - 1 - |digits|] == 0
    ensures Placed(digits + [c], q[|q| - 1 - |digits| := c])
  {}

  /** The state of the long-division loop: q holds the digits found so far in place. */
  ghost predicate Dividing(p: nat, f: seq<int>, d: seq<int>, digits: seq<int>, q: seq<int>, rem: seq<int>) {
    && 0 < p && d != []
    && |q| == (if |f| < |d| then 0 else |f| - |d| + 1)
    && |rem| + |digits| == |f| && Placed(digits, q)
    && (forall k: nat :: k < |rem| || d[|d| - 1] % p != 0 ==> Coef(f, k) % p == (Conv(q, d, k) + Coef(rem, k)) % p)
    && (d[|d| - 1] % p == 0 ==> forall i :: 0 <= i < |digits| ==> digits[i] == 0)
  }

  lemma DivideOnceAt(p: nat, d: seq<int>, q: seq<int>, rem: seq<int>, c: int, out: seq<int>, fk: int, k: nat)
    requires 0 < p && d != [] && |d| <= |rem| && |rem| - |d| < |q| && q[|rem| - |d|] == 0
    requires Subtracted(p, rem, c, d, out)
    requires fk % p == (Conv(q, d, k) + Coef(rem, k)) % p
    requires k == |rem| - 1 ==> out[k] == 0
    ensures fk % p == (Conv(q[|rem| - |d| := c], d, k) + Coef(out[..|rem| - 1], k)) % p
  {
    DivisionStepAt(p, d, q, rem, c, out, fk, k);
    assert Coef(out[..|rem| - 1], k) == Coef(out, k);
  }

  /** The quotient digit: 0 for a non-invertible leading coefficient, else it clears the top. */
  lemma DigitFact(p: nat, top: int, lead: int, c: int)
    requires IsPrime(p) && 2 < p && c == top * FieldInv(p, lead) % p
    ensures if lead % p == 0 then c == 0 else (top - c * lead) % p == 0
  {
    FieldInvInverts(p, lead);
    if lead % p == 0 {
      ModIs(p, 0, 0, 0);
    } else {
      TopCleared(p, top, lead, c);
    }
  }

  /** One round of the loop: find a digit, subtract, drop the top coefficient. */
  lemma DivideOnce(p: nat, f: seq<int>, d: seq<int>, digits: seq<int>, q: seq<int>, rem: seq<int>, c: int, out: seq<int>)
    requires 0 < p && Dividing(p, f, d, digits, q, rem) && |d| <= |rem|
    requires if d[|d| - 1] % p == 0 then c == 0 else (rem[|rem| - 1] - c * d[|d| - 1]) % p == 0
    requires Subtracted(p, rem, c, d, out)
    ensures Dividing(p, f, d, digits + [c], q[|rem| - |d| := c], out[..|rem| - 1])
  {
    PlaceDigit(digits, q, c);
    var q', rem' := q[|rem| - |d| := c], out[..|rem| - 1];
    forall k: nat | k < |rem'| || d[|d| - 1] % p != 0
      ensures Coef(f, k) % p == (Conv(q', d, k) + Coef(rem', k)) % p
    {
      assert k == |rem| - 1 ==> out[k] == 0;
      DivideOnceAt(p, d, q, rem, c, out, Coef(f, k), k);
    }
  }

  /** The inner loop of the source's long division. */
  method SubtractMultiple(p: nat, before: seq<int>, coeff: int, divisor: seq<int>) returns (remainder: seq<int>)
    requires 0 < p && divisor != [] && |divisor| <= |before|
    ensures Subtracted(p, before, coeff, divisor, remainder)
    ensures Reduced(p, before) ==> Reduced(p, remainder)
  {
    remainder := before;
    for i := 0 to |divisor|
      invariant |remainder| == |before|
      invariant forall k :: 0 <= k < |before| - |divisor| || |before| - |divisor| + i <= k < |before| ==> remainder[k] == before[k]
      invariant forall k :: |before| - |divisor| <= k < |before| - |divisor| + i ==>
                  remainder[k] == (before[k] - coeff * divisor[k - (|before| - |divisor|)]) % p
    {
      var idx := |remainder| - |divisor| + i;
      remainder := remainder[idx := (remainder[idx] - coeff * divisor[i]) % p];
    }
  }

  /** Long division. It is a division with remainder exactly when the leading coefficient of
      the divisor is invertible or there was nothing above the divisor's degree to cancel. */
  method PolyDivmod(p: nat, dividend: seq<int>, divisor: seq<int>) returns (quotient: seq<int>, remainder: seq<int>)
    requires IsPrime(p) && 2 < p && divisor != []
    ensures |quotient| == if |dividend| < |divisor| then 0 else |dividend| - |divisor| + 1
    ensures |remainder| == if |dividend| < |divisor| then |dividend| else |divisor| - 1
    ensures Reduced(p, quotient) && (Reduced(p, dividend) ==> Reduced(p, remainder))
    ensures IsDivision(p, dividend, divisor, quotient, remainder)
            <==> (divisor[|divisor| - 1] % p != 0
                  || forall k :: |divisor| - 1 <= k < |dividend| ==> dividend[k] % p == 0)
  {
    remainder := dividend;
    quotient := [];
    var degDiv := |divisor| - 1;
    var leadInv := FieldInv(p, divisor[|divisor| - 1]);
    ghost var q := seq(if |dividend| < |divisor| then 0 else |dividend| - degDiv, _ => 0);
    forall k ensures Conv(q, divisor, k) == 0 {
      ConvZeros(q, divisor, k);
    }
    while |remainder| > degDiv
      invariant |dividend| >= |divisor| ==> degDiv <= |remainder|
      invariant Dividing(p, dividend, divisor, quotient, q, remainder)
      invariant Reduced(p, quotient) && (Reduced(p, dividend) ==> Reduced(p, remainder))
    {
      var coeff := remainder[|remainder| - 1] * leadInv % p;
      DigitFact(p, remainder[|remainder| - 1], divisor[|divisor| - 1], coeff);
      var reduced := SubtractMultiple(p, remainder, coeff, divisor);
      DivideOnce(p, dividend, divisor, quotient, q, remainder, coeff, reduced);
      q := q[|remainder| - |divisor| := coeff];
      quotient := quotient + [coeff];
      remainder := reduced[..|reduced| - 1];
    }
    DivisionExact(p, dividend, divisor, quotient, q, remainder);
    quotient := Reversed(quotient);
    assert quotient == q;
  }

  lemma DivisionExact(p: nat, f: seq<int>, d: seq<int>, digits: seq<int>, q: seq<int>, r: seq<int>)
    requires 0 < p && Dividing(p, f, d, digits, q, r) && |r| < |d| && |digits| == |q|
    ensures IsDivision(p, f, d, q, r)
            <==> d[|d| - 1] % p != 0 || forall k :: |d| - 1 <= k < |f| ==> f[k] % p == 0
  {
    if d[|d| - 1] % p == 0 {
      ModIs(p, 0, 0, 0);
      forall k: nat ensures Conv(q, d, k) == 0 {
        ConvZeros(q, d, k);
      }
      if IsDivision(p, f, d, q, r) {
        forall k | |d| - 1 <= k < |f| ensures f[k] % p == 0 {
          assert Coef(f, k) % p == (Conv(q, d, k) + Coef(r, k)) % p;
        }
      }
    }
  }

  /** The list identity callers rely on: multiplying back and adding the remainder gives the
      dividend, at the dividend's own length. */
  lemma DivisionRecombines(p: nat, f: seq<int>, d: seq<int>, q: seq<int>, r: seq<int>)
    requires 2 <= p && f != [] && IsDivision(p, f, d, q, r)
    requires |q| == if |f| < |d| then 0 else |f| - |d| + 1
    requires |r| == if |f| < |d| then |f| else |d| - 1
    ensures Sum(p, Product(p, q, d), r) == Reduce(p, f)
  {
    var m := Product(p, q, d);
    forall k | 0 <= k < |f|
      ensures Sum(p, m, r)[k] == f[k] % p
    {
      assert Coef(f, k) % p == (Conv(q, d, k) + Coef(r, k)) % p;
      if k < |m| {
        ModTwice(p, Conv(q, d, k));
      } else {
        ConvOutside(q, d, k);
      }
      ModAdd(p, Coef(m, k), Conv(q, d, k), Coef(r, k), Coef(r, k));
    }
  }

  // ------------------------------------------------------------ linear divisors

  /** poly[i] + poly[i+1] * z + poly[i+2] * z^2 + ... */
  function Horner(poly: seq<int>, i: nat, z: int): int
    decreases |poly| - i
  {
    if i >= |poly| then 0 else poly[i] + z * Horner(poly, i + 1, z)
  }

  lemma {:induction false} HornerTail(poly: seq<int>, n: nat, z: int)
    requires n <= |poly|
    ensures Eval(poly, n, z) + Pow(z, n) * Horner(poly, n, z) == Value(poly, z)
    decreases |poly| - n
  {
    if n < |poly| {
      HornerTail(poly, n + 1, z);
      Distribute(poly[n], z * Horner(poly, n + 1, z), Pow(z, n));
      Associate(Pow(z, n), z, Horner(poly, n + 1, z));
    }
  }

  lemma {:induction false} ConvLinear(q: seq<int>, z: int, k: int)
    ensures Conv(q, [-z, 1], k) == Coef(q, k - 1) - z * Coef(q, k)
  {
    if q != [] {
      ConvLinear(q[..|q| - 1], z, k);
    }
  }

  lemma SyntheticDivision(p: nat, poly: seq<int>, z: int, q: seq<int>, r: int)
    requires 0 < p && poly != [] && |q| == |poly| - 1 && r % p == Horner(poly, 0, z) % p
    requires forall k :: 0 <= k < |q| ==> q[k] % p == Horner(poly, k + 1, z) % p
    ensures IsDivision(p, poly, [-z, 1], q, [r])
  {
    forall k: nat
      ensures Coef(poly, k) % p == (Conv(q, [-z, 1], k) + Coef([r], k)) % p
    {
      var here, next := Horner(poly, k, z), Horner(poly, k + 1, z);
      ConvLinear(q, z, k);
      ModMul(p, z, z, Coef(q, k), next);
      ModSub(p, Coef(q, k - 1) + Coef([r], k), here, z * Coef(q, k), z * next);
    }
  }

  /** Synthetic division by X - z: the remainder is the value at z. */
  method PolyDivmodLinear(p: nat, poly: seq<int>, z: int) returns (q: seq<int>, remainder: int)
    requires 2 <= p && poly != []
    ensures |q| == |poly| - 1 && Reduced(p, q)
    ensures remainder == Value(poly, z) % p
    ensures IsDivision(p, poly, [-z, 1], q, [remainder])
  {
    var n := |poly|;
    var quotient := new int[n - 1](_ => 0);
    var running := 0;
    for i := n downto 1
      invariant running % p == (z * Horner(poly, i, z)) % p
      invariant forall k :: i - 1 <= k < n - 1 ==> quotient[k] == Horner(poly, k + 1, z) % p
    {
      ModAdd(p, poly[i], poly[i], running, z * Horner(poly, i + 1, z));
      running := (poly[i] + running) % p;
      quotient[i - 1] := running;
      ModTwice(p, Horner(poly, i, z));
      ModMul(p, running, Horner(poly, i, z), z, z);
      ModTwice(p, running * z);
      running := running * z % p;
    }
    ModAdd(p, poly[0], poly[0], running, z * Horner(poly, 1, z));
    remainder := (poly[0] + running) % p;
    q := quotient[..];
    forall k ensures Horner(poly, k, z) % p % p == Horner(poly, k, z) % p {
      ModTwice(p, Horner(poly, k, z));
    }
    SyntheticDivision(p, poly, z, q, remainder);
    HornerTail(poly, 0, z);
  }

  function Minus(poly: seq<int>, v: int): (r: seq<int>)
    requires poly != []
    ensures |r| == |poly| && forall k :: 0 <= k < |poly| ==> r[k] == poly[k] - (if k == 0 then v else 0)
  {
    poly[0 := poly[0] - v]
  }

  /** (X - z) * q == poly - v holds for the opening quotient exactly when v is the value
      at z, and q is the quotient of the unmodified polynomial in any case. */
  lemma OpeningExact(p: nat, poly: seq<int>, z: int, v: int, q: seq<int>)
    requires 0 < p && poly != []
    requires IsDivision(p, poly, [-z, 1], q, [Value(poly, z) % p])
    ensures IsDivision(p, Minus(poly, v), [-z, 1], q, []) <==> v % p == Value(poly, z) % p
  {
    var w := Value(poly, z) % p;
    ModTwice(p, Value(poly, z));
    assert Coef(poly, 0) % p == (Conv(q, [-z, 1], 0) + Coef([w], 0)) % p;
    if v % p == w % p {
      forall k: nat
        ensures Coef(Minus(poly, v), k) % p == (Conv(q, [-z, 1], k) + Coef([], k)) % p
      {
        assert Coef(poly, k) % p == (Conv(q, [-z, 1], k) + Coef([w], k)) % p;
        if k == 0 {
          ModSub(p, poly[0], Conv(q, [-z, 1], 0) + w, v, w);
        }
      }
    } else if IsDivision(p, Minus(poly, v), [-z, 1], q, []) {
      assert Coef(Minus(poly, v), 0) % p == (Conv(q, [-z, 1], 0) + Coef([], 0)) % p;
      ModSub(p, poly[0], Conv(q, [-z, 1], 0) + w, poly[0] - v, Conv(q, [-z, 1], 0));
      assert false;
    }
  }

  lemma QuotientIgnoresConstant(p: nat, poly: seq<int>, f: seq<int>, z: int, q: seq<int>)
    requires 0 < p && poly != [] && |f| == |poly| && poly[1..] == f[1..]
    requires IsDivision(p, f, [-z, 1], q, [Value(f, z) % p])
    ensures IsDivision(p, poly, [-z, 1], q, [Value(poly, z) % p])
  {
    var d := poly[0] - f[0];
    forall k | 1 <= k < |f| ensures poly[k] == f[k] {
      assert poly[1..][k - 1] == f[1..][k - 1];
    }
    EvalConstant(poly, f, |f|, z);
    forall k: nat
      ensures Coef(poly, k) % p == (Conv(q, [-z, 1], k) + Coef([Value(poly, z) % p], k)) % p
    {
      assert Coef(f, k) % p == (Conv(q, [-z, 1], k) + Coef([Value(f, z) % p], k)) % p;
      if k == 0 {
        ModTwice(p, Value(f, z));
        ModTwice(p, Value(poly, z));
        ModAdd(p, f[0], Conv(q, [-z, 1], 0) + Value(f, z) % p, d, d);
        ModAdd(p, Value(f, z) % p, Value(f, z), d, d);
        ModAdd(p, Conv(q, [-z, 1], 0), Conv(q, [-z, 1], 0), Value(f, z) % p + d, Value(poly, z) % p);
      }
    }
  }

  lemma {:induction false} EvalConstant(c: seq<int>, d: seq<int>, n: nat, x: int)
    requires c != [] && d != [] && 1 <= n && forall k :: 1 <= k < n ==> Coef(c, k) == Coef(d, k)
    ensures Eval(c, n, x) == Eval(d, n, x) + (c[0] - d[0])
  {
    if n > 1 {
      EvalConstant(c, d, n - 1, x);
    } else {
      assert Eval(c, 1, x) == Eval(c, 0, x) + c[0] * Pow(x, 0);
      assert Eval(d, 1, x) == Eval(d, 0, x) + d[0] * Pow(x, 0);
    }
  }

  /** The opening quotient for a claimed value v at z. */
  method KzgOpenCoeffs(p: nat, polyCoeffs: seq<int>, z: int, v: int) returns (q: seq<int>)
    requires 2 <= p && polyCoeffs != []
    ensures |q| == |polyCoeffs| - 1 && Reduced(p, q)
    ensures IsDivision(p, polyCoeffs, [-z, 1], q, [Value(polyCoeffs, z) % p])
    ensures IsDivision(p, Minus(polyCoeffs, v), [-z, 1], q, []) <==> v % p == Value(polyCoeffs, z) % p
  {
    var f := polyCoeffs;
    f := f[0 := (f[0] - v) % p];
    var remainder;
    q, remainder := PolyDivmodLinear(p, f, z);
    QuotientIgnoresConstant(p, polyCoeffs, f, z, q);
    OpeningExact(p, polyCoeffs, z, v, q);
  }

  /** X^n - 1, with the constant term overwritten by 1 when n is 0 as in the source. */
  method VanishingPoly(p: nat, n: nat) returns (coeffs: seq<int>)
    requires 2 <= p
    ensures coeffs == Vanishing(p, n)
  {
    var c := new int[n + 1](_ => 0);
    c[0] := p - 1;
    c[n] := 1;
    coeffs := c[..];
  }

  function Vanishing(p: nat, n: nat): seq<int> {
    if n == 0 then [1] else [p - 1] + seq(n - 1, _ => 0) + [1]
  }
}
