/** Which candidates the search of zk/field_utils.py for a root of unity accepts: exactly those
    that are no squares. Euler's criterion is derived from a bound on the roots of polynomials. */
module QuadraticResidues {
  import opened NumberTheory
  import opened Polynomials
  import opened FieldUtils
  import opened Ntt

  // ------------------------------------------------------------------- root count

  ghost predicate Roots(p: nat, f: seq<int>, roots: seq<int>)
    requires 0 < p
  {
    && (forall i :: 0 <= i < |roots| ==> Value(f, roots[i]) % p == 0)
    && forall i, j :: 0 <= i < j < |roots| ==> (roots[i] - roots[j]) % p != 0
  }

  function Quotient(p: nat, f: seq<int>, z: int): (q: seq<int>)
    requires 0 < p && f != []
    ensures |q| == |f| - 1
  {
    seq(|f| - 1, k requires 0 <= k => Horner(f, k + 1, z) % p)
  }

  /** Dividing by X - z keeps the other roots and the leading coefficient. */
  lemma QuotientOfRoot(p: nat, f: seq<int>, z: int)
    requires IsPrime(p) && |f| > 1 && Value(f, z) % p == 0
    ensures Quotient(p, f, z)[|f| - 2] % p == f[|f| - 1] % p
    ensures forall x :: Value(f, x) % p == 0 && (x - z) % p != 0 ==> Value(Quotient(p, f, z), x) % p == 0
  {
    var q := Quotient(p, f, z);
    var r := Horner(f, 0, z);
    HornerTail(f, 0, z);
    assert Value(f, z) == r;
    forall k | 0 <= k < |q| ensures q[k] % p == Horner(f, k + 1, z) % p {
      ModTwice(p, Horner(f, k + 1, z));
    }
    SyntheticDivision(p, f, z, q, r);
    forall x | Value(f, x) % p == 0 && (x - z) % p != 0 ensures Value(q, x) % p == 0 {
      OtherRoot(p, f, z, q, r, x);
    }
  }

  lemma OtherRoot(p: nat, f: seq<int>, z: int, q: seq<int>, r: int, x: int)
    requires IsPrime(p) && IsDivision(p, f, [-z, 1], q, [r]) && r % p == 0
    requires Value(f, x) % p == 0 && (x - z) % p != 0
    ensures Value(q, x) % p == 0
  {
    DivisionValue(p, f, [-z, 1], q, [r], x);
    LinearValue(z, x);
    ConstantValue(r, x);
    FactorIsZero(p, Value(q, x), x - z, r);
  }

  lemma FactorIsZero(p: nat, v: int, u: int, r: int)
    requires IsPrime(p) && (v * u + r) % p == 0 && r % p == 0 && u % p != 0
    ensures v % p == 0
  {
    ModIs(p, 0, 0, 0);
    ModSub(p, v * u + r, 0, r, 0);
    Euclid(p, v, u);
  }

  lemma LinearValue(z: int, x: int)
    ensures Value([-z, 1], x) == x - z
  {
    var d := [-z, 1];
    assert Eval(d, 0, x) == 0 && Pow(x, 0) == 1 && Pow(x, 1) == x;
    assert Eval(d, 1, x) == -z;
  }

  lemma ConstantValue(r: int, x: int)
    ensures Value([r], x) == r
  {
    assert Eval([r], 0, x) == 0 && Pow(x, 0) == 1;
  }

  /** A polynomial whose leading coefficient is not 0 has at most as many roots as its degree. */
  lemma {:induction false} RootBound(p: nat, f: seq<int>, roots: seq<int>)
    requires IsPrime(p) && f != [] && f[|f| - 1] % p != 0 && Roots(p, f, roots)
    ensures |roots| < |f|
    decreases |f|
  {
    if roots != [] {
      var front, z := roots[..|roots| - 1], roots[|roots| - 1];
      if |f| == 1 {
        assert f == [f[0]];
        ConstantValue(f[0], z);
      } else {
        QuotientOfRoot(p, f, z);
        RootBound(p, Quotient(p, f, z), front);
      }
    }
  }

  // ------------------------------------------------------------- Euler's criterion

  predicate RootOf(p: nat, y: int, c: int)
    requires 0 < p
  {
    (y * y) % p == c % p
  }

  ghost predicate IsSquare(p: nat, c: int)
    requires 0 < p
  {
    exists y: int :: RootOf(p, y, c)
  }

  /** The value of X^n - 1. */
  lemma UnityValue(p: nat, n: nat, x: int)
    requires 2 <= p && 0 < n && Pow(x, n) % p == 1
    ensures Value(Vanishing(p, n), x) % p == 0
  {
    MiddleZero(p, n, x, n);
    ModIs(p, 1, 0, 1);
    ModAdd(p, p - 1, p - 1, Pow(x, n), 1);
    ModIs(p, p, 1, 0);
  }

  lemma SquarePower(p: nat, y: int, c: int, m: nat)
    requires IsPrime(p) && p == 2 * m + 1 && RootOf(p, y, c) && c % p != 0
    ensures Pow(c, m) % p == 1
  {
    if y % p == 0 {
      ModIs(p, 0, 0, 0);
      ModMul(p, y, 0, y, 0);
    }
    Fermat(p, y);
    PowAdd(y, m, m);
    PowProduct(y, y, m);
    PowMod(p, c, y * y, m);
  }

  lemma DistinctSquares(p: nat, a: nat, b: nat)
    requires IsPrime(p) && 0 < a < b && a + b < p
    ensures (a * a - b * b) % p != 0
  {
    assert a * a - b * b == (a - b) * (a + b);
    if (a * a - b * b) % p == 0 {
      Euclid(p, a - b, a + b);
      ModIs(p, a + b, 0, a + b);
      ModIs(p, a - b, -1, p + a - b);
    }
  }

  function Squares(m: nat): (r: seq<int>)
    ensures |r| == m && forall i :: 0 <= i < m ==> r[i] == (i + 1) * (i + 1)
  {
    seq(m, i => (i + 1) * (i + 1))
  }

  lemma SquareIsRoot(p: nat, m: nat, i: nat)
    requires IsPrime(p) && p == 2 * m + 1 && i < m
    ensures Value(Vanishing(p, m), Squares(m)[i]) % p == 0
  {
    var c := (i + 1) * (i + 1);
    ModIs(p, i + 1, 0, i + 1);
    if c % p == 0 {
      Euclid(p, i + 1, i + 1);
    }
    SquarePower(p, i + 1, c, m);
    UnityValue(p, m, c);
  }

  /** A root of X^m - 1 that is no square would be one root too many. */
  lemma PowerIsSquare(p: nat, c: int, m: nat)
    requires IsPrime(p) && p == 2 * m + 1 && Pow(c, m) % p == 1
    ensures IsSquare(p, c)
  {
    if !IsSquare(p, c) {
      var roots, f := Squares(m) + [c], Vanishing(p, m);
      assert 0 < m;
      UnityValue(p, m, c);
      forall i | 0 <= i < |roots| ensures Value(f, roots[i]) % p == 0 {
        if i < m {
          SquareIsRoot(p, m, i);
        }
      }
      forall i, j | 0 <= i < j < |roots| ensures (roots[i] - roots[j]) % p != 0 {
        if j < m {
          DistinctSquares(p, i + 1, j + 1);
        } else {
          assert !RootOf(p, i + 1, c);
          ModDiff(p, (i + 1) * (i + 1), c);
        }
      }
      ModIs(p, 1, 0, 1);
      RootBound(p, f, roots);
    }
  }

  /** Euler: c is a nonzero square exactly when its power (p - 1) / 2 is 1. */
  lemma EulerCriterion(p: nat, c: int)
    requires IsPrime(p) && p % 2 == 1
    ensures Pow(c, (p - 1) / 2) % p == 1 <==> c % p != 0 && IsSquare(p, c)
  {
    var m := (p - 1) / 2;
    ModIs(p, 0, 0, 0);
    assert Pow(0, m) == 0 * Pow(0, m - 1);
    if c % p == 0 {
      PowMod(p, c, 0, m);
    } else if Pow(c, m) % p == 1 {
      PowerIsSquare(p, c, m);
    }
    if c % p != 0 && IsSquare(p, c) {
      var y: int :| RootOf(p, y, c);
      SquarePower(p, y, c, m);
    }
  }

  /** With 8 dividing p - 1, a candidate gives a primitive eighth root of unity exactly when it
      is a quadratic non-residue: no number has it as its square. */
  lemma OmegaFromNonResidue(p: nat, c: int)
    requires IsPrime(p) && p % 8 == 1
    ensures PrimitiveRoot(p, OmegaOf(p, c), DOMAIN_SIZE) <==> forall y: int :: !RootOf(p, y, c)
  {
    OmegaTestsForceOrderEight(p, OmegaOf(p, c));
    OmegaCandidateExact(p, c);
    EulerCriterion(p, c);
    if c % p == 0 {
      ModIs(p, 0, 0, 0);
      assert RootOf(p, 0, c);
    }
  }
}
