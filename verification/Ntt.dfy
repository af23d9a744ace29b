/** The inverse number-theoretic transform inverts evaluation on the domain, in both
    directions, and a polynomial vanishes on the domain exactly when X^n - 1 divides it. */
module Ntt {
  import opened NumberTheory
  import opened Polynomials
  import opened FieldUtils

  // ------------------------------------------------------------- power sums

  /** 1 + u + ... + u^(n-1). */
  function Geometric(u: int, n: nat): int {
    if n == 0 then 0 else Geometric(u, n - 1) + Pow(u, n - 1)
  }

  lemma {:induction false} GeometricClosed(u: int, n: nat)
    ensures (u - 1) * Geometric(u, n) == Pow(u, n) - 1
  {
    if n > 0 {
      GeometricClosed(u, n - 1);
      Distribute(Geometric(u, n - 1), Pow(u, n - 1), u - 1);
    }
  }

  lemma {:induction false} GeometricOfOne(p: nat, u: int, n: nat)
    requires 2 <= p && u % p == 1
    ensures Geometric(u, n) % p == n % p
  {
    if n > 0 {
      GeometricOfOne(p, u, n - 1);
      ModIs(p, 1, 0, 1);
      PowMod(p, u, 1, n - 1);
      PowOne(n - 1);
      ModAdd(p, Geometric(u, n - 1), n - 1, Pow(u, n - 1), 1);
    }
  }

  /** g and h are inverse roots of unity of order n. */
  ghost predicate InverseRoots(p: nat, g: int, h: int, n: nat)
    requires 0 < p
  {
    PrimitiveRoot(p, g, n) && PrimitiveRoot(p, h, n) && (g * h) % p == 1
  }

  lemma RootProductOne(p: nat, g: int, h: int, m: nat)
    requires 2 <= p && (g * h) % p == 1
    ensures (Pow(g, m) * Pow(h, m)) % p == 1
  {
    PowProduct(g, h, m);
    ModIs(p, 1, 0, 1);
    PowMod(p, g * h, 1, m);
    PowOne(m);
  }

  /** The inverse of a primitive root is a primitive root. */
  lemma InverseRootPrimitive(p: nat, g: int, h: int, n: nat)
    requires 2 <= p && PrimitiveRoot(p, g, n) && (g * h) % p == 1
    ensures PrimitiveRoot(p, h, n)
  {
    ModIs(p, 1, 0, 1);
    RootProductOne(p, g, h, n);
    ModMul(p, Pow(g, n), 1, Pow(h, n), Pow(h, n));
    forall k | 0 < k < n ensures Pow(h, k) % p != 1 {
      RootProductOne(p, g, h, k);
      if Pow(h, k) % p == 1 {
        ModMul(p, Pow(g, k), Pow(g, k), Pow(h, k), 1);
        assert false;
      }
    }
  }

  /** g^t * h^m is a root of unity that is 1 exactly when t == m. */
  lemma MixedRoot(p: nat, g: int, h: int, n: nat, t: nat, m: nat)
    requires 2 <= p && InverseRoots(p, g, h, n) && t < n && m < n
    ensures Pow(Pow(g, t) * Pow(h, m), n) % p == 1
    ensures (Pow(g, t) * Pow(h, m)) % p == 1 <==> t == m
  {
    var a, b := Pow(g, t), Pow(h, m);
    PowProduct(a, b, n);
    PowMul(g, t, n);
    PowMul(h, m, n);
    PowMultiple(p, g, n, t);
    PowMultiple(p, h, n, m);
    assert t * n == n * t && m * n == n * m;
    ModIs(p, 1, 0, 1);
    ModMul(p, Pow(a, n), 1, Pow(b, n), 1);
    var c := if t < m then t else m;
    RootProductOne(p, g, h, c);
    PowAdd(g, t - c, c);
    PowAdd(h, m - c, c);
    var x, y := Pow(g, t - c), Pow(h, m - c);
    Regroup(x, y, Pow(g, c), Pow(h, c));
    ModMul(p, x * y, x * y, Pow(g, c) * Pow(h, c), 1);
    assert (a * b) % p == (x * y) % p;
  }

  lemma MixedSum(p: nat, g: int, h: int, n: nat, t: nat, m: nat)
    requires IsPrime(p) && InverseRoots(p, g, h, n) && t < n && m < n
    ensures Geometric(Pow(g, t) * Pow(h, m), n) % p == (if t == m then n else 0) % p
  {
    var u := Pow(g, t) * Pow(h, m);
    MixedRoot(p, g, h, n, t, m);
    if t == m {
      GeometricOfOne(p, u, n);
    } else {
      GeometricClosed(u, n);
      ModIs(p, 1, 0, 1);
      ModDiff(p, Pow(u, n), 1);
      ModDiff(p, u, 1);
      Euclid(p, u - 1, Geometric(u, n));
      ModIs(p, 0, 0, 0);
    }
  }

  // -------------------------------------------------------- double transform

  /** The first t terms of x, evaluated at g^0, ..., g^(k-1) and summed against h^(m*i). */
  function DoubleSum(x: seq<int>, t: nat, g: int, h: int, m: nat, k: nat): int {
    if k == 0 then 0
    else DoubleSum(x, t, g, h, m, k - 1) + Eval(x, t, Pow(g, k - 1)) * Pow(Pow(h, m), k - 1)
  }

  lemma {:induction false} DoubleSumTerm(x: seq<int>, t: nat, g: int, h: int, m: nat, k: nat)
    ensures DoubleSum(x, t + 1, g, h, m, k)
         == DoubleSum(x, t, g, h, m, k) + Coef(x, t) * Geometric(Pow(g, t) * Pow(h, m), k)
  {
    if k > 0 {
      DoubleSumTerm(x, t, g, h, m, k - 1);
      PowMul(g, k - 1, t);
      PowMul(g, t, k - 1);
      assert (k - 1) * t == t * (k - 1);
      PowProduct(Pow(g, t), Pow(h, m), k - 1);
      TermRing(DoubleSum(x, t, g, h, m, k - 1), Eval(x, t, Pow(g, k - 1)), Coef(x, t),
               Geometric(Pow(g, t) * Pow(h, m), k - 1), Pow(Pow(g, k - 1), t), Pow(Pow(h, m), k - 1));
    }
  }

  lemma TermRing(d: int, e: int, c: int, s: int, u: int, y: int)
    ensures (d + c * s) + (e + c * u) * y == (d + e * y) + c * (s + u * y)
  {
    Distribute(e, c * u, y);
    Associate(c, u, y);
    Distribute(s, u * y, c);
  }

  /** Evaluating on the domain and summing against the inverse root recovers n times the
      coefficient: every other power sum vanishes. */
  lemma {:induction false} DoubleSumValue(p: nat, x: seq<int>, t: nat, g: int, h: int, n: nat, m: nat)
    requires IsPrime(p) && InverseRoots(p, g, h, n) && t <= n && m < n
    ensures DoubleSum(x, t, g, h, m, n) % p == (if m < t then n * Coef(x, m) else 0) % p
  {
    if t == 0 {
      DoubleSumEmpty(x, g, h, m, n);
    } else {
      DoubleSumValue(p, x, t - 1, g, h, n, m);
      DoubleSumTerm(x, t - 1, g, h, m, n);
      MixedSum(p, g, h, n, t - 1, m);
      var c, u := Coef(x, t - 1), Pow(g, t - 1) * Pow(h, m);
      var d, e := DoubleSum(x, t - 1, g, h, m, n), Geometric(u, n);
      if t - 1 == m {
        ModMul(p, c, c, e, n);
        ModAdd(p, d, 0, c * e, c * n);
        assert 0 + c * n == n * c;
      } else {
        ModMul(p, c, c, e, 0);
        ModAdd(p, d, if m < t then n * Coef(x, m) else 0, c * e, 0);
      }
    }
  }

  lemma {:induction false} DoubleSumEmpty(x: seq<int>, g: int, h: int, m: nat, k: nat)
    ensures DoubleSum(x, 0, g, h, m, k) == 0
  {
    if k > 0 {
      DoubleSumEmpty(x, g, h, m, k - 1);
    }
  }

  /** If y holds the values of x at the powers of g, then the value of y at h^m is n * x[m]. */
  lemma TransformTwice(p: nat, x: seq<int>, y: seq<int>, g: int, h: int, m: nat)
    requires IsPrime(p) && InverseRoots(p, g, h, |x|) && |y| == |x| && m < |x|
    requires forall k :: 0 <= k < |x| ==> y[k] % p == Value(x, Pow(g, k)) % p
    ensures Value(y, Pow(h, m)) % p == (|x| * x[m]) % p
  {
    TransformPrefix(p, x, y, g, h, m, |x|);
    DoubleSumValue(p, x, |x|, g, h, |x|, m);
  }

  lemma {:induction false} TransformPrefix(p: nat, x: seq<int>, y: seq<int>, g: int, h: int, m: nat, k: nat)
    requires 0 < p && |y| == |x| && k <= |x|
    requires forall i :: 0 <= i < |x| ==> y[i] % p == Value(x, Pow(g, i)) % p
    ensures Eval(y, k, Pow(h, m)) % p == DoubleSum(x, |x|, g, h, m, k) % p
  {
    if k > 0 {
      TransformPrefix(p, x, y, g, h, m, k - 1);
      var z := Pow(Pow(h, m), k - 1);
      ModMul(p, y[k - 1], Value(x, Pow(g, k - 1)), z, z);
      ModAdd(p, Eval(y, k - 1, Pow(h, m)), DoubleSum(x, |x|, g, h, m, k - 1), y[k - 1] * z, Value(x, Pow(g, k - 1)) * z);
    }
  }

  // ----------------------------------------------------- the inverse transform

  /** The domain generator and its `field_inv` are inverse roots. */
  lemma OmegaInverse(p: nat, w: int, n: nat)
    requires IsPrime(p) && 2 < p && 0 < n && PrimitiveRoot(p, w, n)
    ensures InverseRoots(p, w, FieldInv(p, w), n)
  {
    if w % p == 0 {
      ModIs(p, 0, 0, 0);
      ModMul(p, w, 0, Pow(w, n - 1), Pow(w, n - 1));
      assert false;
    }
    FieldInvInverts(p, w);
    InverseRootPrimitive(p, w, FieldInv(p, w), n);
  }

  lemma ScaleBack(p: nat, n: nat, s: int, c: int)
    requires IsPrime(p) && 2 < p && n % p != 0 && s % p == (n * c) % p
    ensures (s * FieldInv(p, n)) % p == c % p && (FieldInv(p, n) * s) % p == c % p
  {
    var inv := FieldInv(p, n);
    FieldInvInverts(p, n);
    ModIs(p, 1, 0, 1);
    ModMul(p, s, n * c, inv, inv);
    assert (n * c) * inv == (n * inv) * c by { Associate(n, c, inv); Associate(n, inv, c); }
    ModMul(p, n * inv, 1, c, c);
  }

  /** `intt` of the values of f on the domain is f: coefficients come back from evaluations. */
  lemma InttOfValues(p: nat, w: int, f: seq<int>, values: seq<int>)
    requires IsPrime(p) && 2 < p && f != [] && |f| % p != 0 && PrimitiveRoot(p, w, |f|)
    requires |values| == |f| && forall k :: 0 <= k < |f| ==> values[k] % p == Value(f, Pow(w, k)) % p
    ensures Intt(p, w, values) == Reduce(p, f)
  {
    OmegaInverse(p, w, |f|);
    forall m | 0 <= m < |f| ensures Intt(p, w, values)[m] == f[m] % p {
      TransformTwice(p, f, values, w, FieldInv(p, w), m);
      ScaleBack(p, |f|, Value(values, Pow(FieldInv(p, w), m)), f[m]);
    }
  }

  /** Scaling every coefficient by c scales the value by c. */
  lemma ValueScaled(p: nat, c: int, f: seq<int>, h: seq<int>, x: int)
    requires 0 < p && |h| == |f| && forall k :: 0 <= k < |f| ==> h[k] == (f[k] * c) % p
    ensures Value(h, x) % p == (c * Value(f, x)) % p
  {
    forall k | 0 <= k < |f| ensures Coef(h, k) % p == (c * Coef(f, k) + Coef([], k)) % p {
      ScaledTerm(p, f[k], c);
    }
    EvalLinear(p, |f|, h, c, f, [], x);
    EvalZero(|f|, x);
  }

  lemma ScaledTerm(p: nat, a: int, c: int)
    requires 0 < p
    ensures ((a * c) % p) % p == (c * a + 0) % p
  {
    ModTwice(p, a * c);
  }

  /** Evaluating `intt(values)` on the domain gives the values back. */
  lemma ValuesOfIntt(p: nat, w: int, values: seq<int>, i: nat)
    requires IsPrime(p) && 2 < p && i < |values| && |values| % p != 0 && PrimitiveRoot(p, w, |values|)
    ensures Value(Intt(p, w, values), Pow(w, i)) % p == values[i] % p
  {
    var n, v := |values|, FieldInv(p, w);
    OmegaInverse(p, w, n);
    InverseRootsSwap(p, w, v, n);
    var raw := seq(n, k requires 0 <= k => Value(values, Pow(v, k)));
    TransformTwice(p, values, raw, v, w, i);
    ValueScaled(p, FieldInv(p, n), raw, Intt(p, w, values), Pow(w, i));
    ScaleBack(p, n, Value(raw, Pow(w, i)), values[i]);
  }

  lemma InverseRootsSwap(p: nat, g: int, h: int, n: nat)
    requires 0 < p && InverseRoots(p, g, h, n)
    ensures InverseRoots(p, h, g, n)
  {
    assert g * h == h * g;
  }

  /** A polynomial with at most n coefficients that is 0 on the whole domain is 0. */
  lemma VanishingOnDomain(p: nat, w: int, n: nat, r: seq<int>)
    requires IsPrime(p) && 2 < p && 0 < n && n % p != 0 && PrimitiveRoot(p, w, n) && |r| <= n
    requires forall i :: 0 <= i < n ==> Value(r, Pow(w, i)) % p == 0
    ensures forall k :: 0 <= k < |r| ==> r[k] % p == 0
  {
    var f := r + seq(n - |r|, _ => 0);
    var zeros := seq(n, _ => 0);
    ModIs(p, 0, 0, 0);
    forall i | 0 <= i < n ensures zeros[i] % p == Value(f, Pow(w, i)) % p {
      EvalPad(r, n, Pow(w, i));
      EvalPrefix(r, f, n, Pow(w, i));
    }
    InttOfValues(p, w, f, zeros);
    forall k | 0 <= k < |r| ensures r[k] % p == 0 {
      var x := Pow(FieldInv(p, w), k);
      EvalSame(p, n, zeros, [], x);
      EvalZero(n, x);
      ModMul(p, Value(zeros, x), 0, FieldInv(p, n), FieldInv(p, n));
      assert Reduce(p, f)[k] == r[k] % p;
    }
  }

  // ------------------------------------------------------ the vanishing polynomial

  lemma VanishingValue(p: nat, w: int, n: nat, i: nat)
    requires 2 <= p && 0 < n && Pow(w, n) % p == 1
    ensures Value(Vanishing(p, n), Pow(w, i)) % p == 0
  {
    var z, x := Vanishing(p, n), Pow(w, i);
    MiddleZero(p, n, x, n);
    PowMul(w, i, n);
    PowMultiple(p, w, n, i);
    assert i * n == n * i;
    ModIs(p, 1, 0, 1);
    ModAdd(p, p - 1, p - 1, Pow(x, n), 1);
    ModIs(p, p, 1, 0);
  }

  lemma {:induction false} MiddleZero(p: nat, n: nat, x: int, k: nat)
    requires 2 <= p && 1 <= k <= n
    ensures Eval(Vanishing(p, n), k, x) == p - 1
  {
    if k > 1 {
      MiddleZero(p, n, x, k - 1);
    } else {
      assert Eval(Vanishing(p, n), 1, x) == Eval(Vanishing(p, n), 0, x) + (p - 1) * Pow(x, 0);
    }
  }

  /** On the domain a polynomial and its remainder by X^n - 1 have the same values. */
  lemma RemainderValue(p: nat, w: int, n: nat, f: seq<int>, q: seq<int>, r: seq<int>, i: nat)
    requires 2 <= p && 0 < n && Pow(w, n) % p == 1
    requires IsDivision(p, f, Vanishing(p, n), q, r)
    ensures Value(f, Pow(w, i)) % p == Value(r, Pow(w, i)) % p
  {
    var z, x := Vanishing(p, n), Pow(w, i);
    DivisionValue(p, f, z, q, r, x);
    VanishingValue(p, w, n, i);
    ModIs(p, 0, 0, 0);
    ModMul(p, Value(q, x), Value(q, x), Value(z, x), 0);
    ModAdd(p, Value(q, x) * Value(z, x), 0, Value(r, x), Value(r, x));
  }

  lemma ZeroListValue(p: nat, r: seq<int>, x: int)
    requires 0 < p && forall k :: 0 <= k < |r| ==> r[k] % p == 0
    ensures Value(r, x) % p == 0
  {
    ModIs(p, 0, 0, 0);
    EvalSame(p, |r|, r, [], x);
    EvalZero(|r|, x);
  }

  ghost predicate ZeroOnDomain(p: nat, w: int, n: nat, f: seq<int>)
    requires 0 < p
  {
    forall i :: 0 <= i < n ==> Value(f, Pow(w, i)) % p == 0
  }

  /** The quotient check behind the scheme: dividing by X^n - 1 leaves no remainder exactly
      when the dividend is 0 at every power of the domain generator. */
  lemma DivisibleIffVanishing(p: nat, w: int, n: nat, f: seq<int>, q: seq<int>, r: seq<int>)
    requires IsPrime(p) && 2 < p && 0 < n && n % p != 0 && PrimitiveRoot(p, w, n)
    requires IsDivision(p, f, Vanishing(p, n), q, r)
    ensures (forall k :: 0 <= k < |r| ==> r[k] % p == 0) <==> ZeroOnDomain(p, w, n, f)
  {
    forall i | 0 <= i < n ensures Value(f, Pow(w, i)) % p == Value(r, Pow(w, i)) % p {
      RemainderValue(p, w, n, f, q, r, i);
    }
    if forall k :: 0 <= k < |r| ==> r[k] % p == 0 {
      forall i | 0 <= i < n ensures Value(r, Pow(w, i)) % p == 0 {
        ZeroListValue(p, r, Pow(w, i));
      }
    } else {
      if ZeroOnDomain(p, w, n, f) {
        VanishingOnDomain(p, w, n, r);
      }
    }
  }

  /** The i-th domain point, reduced: what `pow(OMEGA, i, FIELD_ORDER)` gives. */
  function Point(p: nat, w: int, i: nat): int
    requires 0 < p
  {
    Pow(w, i) % p
  }

  lemma ValueAtPoint(p: nat, w: int, f: seq<int>, i: nat)
    requires 0 < p
    ensures Value(f, Point(p, w, i)) % p == Value(f, Pow(w, i)) % p
  {
    ModTwice(p, Pow(w, i));
    EvalPoint(p, f, |f|, Point(p, w, i), Pow(w, i));
  }

  /** The 8-point domain of the source: with an omega that passes the two tests of
      `_find_omega`, both round trips hold for every reduced list. */
  lemma EightPointDomain(p: nat, w: int, f: seq<int>, values: seq<int>)
    requires IsPrime(p) && p % 8 == 1 && PassesOmegaTests(p, w)
    requires |f| == DOMAIN_SIZE == |values| && Reduced(p, f) && Reduced(p, values)
    ensures Intt(p, w, seq(8, k requires 0 <= k => Value(f, Point(p, w, k)) % p)) == f
    ensures forall i :: 0 <= i < 8 ==> Value(Intt(p, w, values), Point(p, w, i)) % p == values[i]
  {
    OmegaTestsForceOrderEight(p, w);
    ModIs(p, 8, 0, 8);
    var evals := seq(8, k requires 0 <= k => Value(f, Point(p, w, k)) % p);
    forall k | 0 <= k < 8 ensures evals[k] % p == Value(f, Pow(w, k)) % p {
      ValueAtPoint(p, w, f, k);
      ModTwice(p, Value(f, Pow(w, k)));
    }
    InttOfValues(p, w, f, evals);
    forall i | 0 <= i < 8 ensures Reduce(p, f)[i] == f[i] {
      ModIs(p, f[i], 0, f[i]);
    }
    forall i | 0 <= i < 8 ensures Value(Intt(p, w, values), Point(p, w, i)) % p == values[i] {
      ValueAtPoint(p, w, Intt(p, w, values), i);
      ValuesOfIntt(p, w, values, i);
      ModIs(p, values[i], 0, values[i]);
    }
  }

  lemma EightPointDivision(p: nat, w: int, f: seq<int>, q: seq<int>, r: seq<int>)
    requires IsPrime(p) && p % 8 == 1 && PassesOmegaTests(p, w)
    requires IsDivision(p, f, Vanishing(p, 8), q, r) && Reduced(p, r)
    ensures (forall k :: 0 <= k < |r| ==> r[k] == 0) <==> forall i :: 0 <= i < 8 ==> Value(f, Point(p, w, i)) % p == 0
  {
    OmegaTestsForceOrderEight(p, w);
    ModIs(p, 8, 0, 8);
    DivisibleIffVanishing(p, w, 8, f, q, r);
    forall i | 0 <= i < 8 ensures Value(f, Point(p, w, i)) % p == Value(f, Pow(w, i)) % p {
      ValueAtPoint(p, w, f, i);
    }
    forall k | 0 <= k < |r| ensures r[k] % p == 0 <==> r[k] == 0 {
      ModIs(p, r[k], 0, r[k]);
    }
  }

  lemma VanishingLead(p: nat)
    requires 2 <= p
    ensures |Vanishing(p, 8)| == 9 && Vanishing(p, 8)[8] % p != 0
  {
    ModIs(p, 1, 0, 1);
  }

  /** Dividing by the vanishing polynomial of the source's domain: the computed remainder is all
      zeros exactly when the dividend is 0 at all eight powers of omega. */
  method DivideByVanishing(p: nat, w: int, f: seq<int>) returns (q: seq<int>, r: seq<int>)
    requires IsPrime(p) && p % 8 == 1 && PassesOmegaTests(p, w) && Reduced(p, f)
    ensures (forall k :: 0 <= k < |r| ==> r[k] == 0) <==> forall i :: 0 <= i < 8 ==> Value(f, Point(p, w, i)) % p == 0
    ensures IsDivision(p, f, Vanishing(p, 8), q, r) && Reduced(p, q) && Reduced(p, r)
  {
    var divisor := VanishingPoly(p, DOMAIN_SIZE);
    q, r := PolyDivmod(p, f, divisor);
    VanishingLead(p);
    EightPointDivision(p, w, f, q, r);
  }
}
