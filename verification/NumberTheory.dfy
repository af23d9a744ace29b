/** Integers modulo a prime: congruence arithmetic, powers, Euclid's lemma and
    Fermat's little theorem, from which `field_inv` (x to the power p - 2) is shown
    to be an inverse. Congruence is written `a % p == b % p` throughout. */
module NumberTheory {

  ghost predicate IsPrime(p: nat) {
    2 <= p && forall d :: 2 <= d < p ==> p % d != 0
  }

  function Pow(b: int, e: nat): int {
    if e == 0 then 1 else b * Pow(b, e - 1)
  }

  // ------------------------------------------------------------ ring identities

  lemma Distribute(x: int, y: int, z: int)
    ensures (x + y) * z == x * z + y * z
    ensures z * (x + y) == x * z + y * z
  {}

  lemma Associate(x: int, y: int, z: int)
    ensures (x * y) * z == x * (y * z)
    ensures z * (x * y) == x * (y * z)
  {}

  lemma Regroup(a: int, b: int, x: int, y: int)
    ensures (a * b) * (x * y) == (a * x) * (b * y)
  {
    Associate(a, b, x * y);
    Associate(b, x, y);
    Associate(x, b, y);
    Associate(a, x, b * y);
  }

  // ---------------------------------------------------------------- congruence

  /** The remainder is the only representative in [0, p). */
  lemma ModIs(p: nat, a: int, k: int, r: int)
    requires 0 <= r < p && a == p * k + r
    ensures a % p == r
  {
    var q, s := a / p, a % p;
    assert p * (q - k) == r - s;
    assert q - k >= 1 ==> p * (q - k) >= p;
    assert q - k <= -1 ==> p * (q - k) + p <= 0;
  }

  lemma ModShift(p: nat, a: int, k: int)
    requires 0 < p
    ensures (a + p * k) % p == a % p
  {
    assert a + p * k == p * (a / p + k) + a % p;
    ModIs(p, a + p * k, a / p + k, a % p);
  }

  lemma ModTwice(p: nat, a: int)
    requires 0 < p
    ensures (a % p) % p == a % p
  {
    ModIs(p, a % p, 0, a % p);
  }

  /** Congruent numbers differ by a multiple of the modulus. */
  lemma ModWitness(p: nat, a: int, b: int) returns (k: int)
    requires 0 < p && a % p == b % p
    ensures a == b + p * k
  {
    k := a / p - b / p;
    assert p * (a / p) - p * (b / p) == p * k;
  }

  lemma ModAdd(p: nat, a: int, a': int, b: int, b': int)
    requires 0 < p && a % p == a' % p && b % p == b' % p
    ensures (a + b) % p == (a' + b') % p
  {
    var k := ModWitness(p, a, a');
    var l := ModWitness(p, b, b');
    assert a + b == (a' + b') + p * (k + l);
    ModShift(p, a' + b', k + l);
  }

  lemma ModMul(p: nat, a: int, a': int, b: int, b': int)
    requires 0 < p && a % p == a' % p && b % p == b' % p
    ensures (a * b) % p == (a' * b') % p
  {
    var k := ModWitness(p, a, a');
    var l := ModWitness(p, b, b');
    assert a * b == a' * b + p * (k * b) by { Distribute(a', p * k, b); Associate(p, k, b); }
    assert a' * b == a' * b' + p * (a' * l) by { Distribute(b', p * l, a'); Associate(p, l, a'); }
    ModShift(p, a' * b, k * b);
    ModShift(p, a' * b', a' * l);
  }

  lemma ModSub(p: nat, a: int, a': int, b: int, b': int)
    requires 0 < p && a % p == a' % p && b % p == b' % p
    ensures (a - b) % p == (a' - b') % p
  {
    ModMul(p, -1, -1, b, b');
    ModAdd(p, a, a', -b, -b');
  }

  /** One round of a loop that accumulates products modulo p. */
  lemma ModAccumulate(p: nat, acc: int, accExact: int, a: int, b: int, bExact: int)
    requires 0 < p && acc == accExact % p && b % p == bExact % p
    ensures (acc + a * b) % p == (accExact + a * bExact) % p
  {
    ModTwice(p, accExact);
    ModMul(p, a, a, b, bExact);
    ModAdd(p, acc, accExact, a * b, a * bExact);
  }

  /** Two numbers are congruent exactly when their difference is a multiple of p. */
  lemma ModDiff(p: nat, a: int, b: int)
    requires 0 < p
    ensures (a - b) % p == 0 <==> a % p == b % p
  {
    if (a - b) % p == 0 {
      ModIs(p, 0, 0, 0);
      ModAdd(p, a - b, 0, b, b);
    }
    if a % p == b % p {
      ModSub(p, a, b, b, b);
    }
  }

  // -------------------------------------------------------------------- powers

  lemma {:induction false} PowAdd(b: int, d: nat, e: nat)
    ensures Pow(b, d + e) == Pow(b, d) * Pow(b, e)
  {
    if d > 0 {
      PowAdd(b, d - 1, e);
      assert b * (Pow(b, d - 1) * Pow(b, e)) == (b * Pow(b, d - 1)) * Pow(b, e);
    }
  }

  lemma {:induction false} PowMul(b: int, d: nat, e: nat)
    ensures Pow(Pow(b, d), e) == Pow(b, d * e)
  {
    if e > 0 {
      PowMul(b, d, e - 1);
      PowAdd(b, d, d * (e - 1));
      assert d + d * (e - 1) == d * e;
    } else {
      assert d * e == 0;
    }
  }

  lemma {:induction false} PowProduct(a: int, b: int, e: nat)
    ensures Pow(a * b, e) == Pow(a, e) * Pow(b, e)
  {
    if e > 0 {
      PowProduct(a, b, e - 1);
      Regroup(a, b, Pow(a, e - 1), Pow(b, e - 1));
    }
  }

  lemma {:induction false} PowMod(p: nat, a: int, b: int, e: nat)
    requires 0 < p && a % p == b % p
    ensures Pow(a, e) % p == Pow(b, e) % p
  {
    if e > 0 {
      PowMod(p, a, b, e - 1);
      ModMul(p, a, b, Pow(a, e - 1), Pow(b, e - 1));
    }
  }

  lemma {:induction false} PowOne(e: nat)
    ensures Pow(1, e) == 1
  {
    if e > 0 {
      PowOne(e - 1);
    }
  }

  // -------------------------------------------------------------- Euclid's lemma

  /** A prime that divides a product and not the first factor divides the second:
      replacing a by p % a keeps the hypothesis and makes a smaller. */
  lemma {:induction false} EuclidSmall(p: nat, a: int, b: int)
    requires IsPrime(p) && 0 < a < p && (a * b) % p == 0
    ensures b % p == 0
    decreases a
  {
    if a > 1 {
      var q, r := p / a, p % a;
      assert r != 0;
      assert r * b == p * b - q * (a * b) by {
        assert p == q * a + r by { assert a * q == q * a; }
        assert p * b == (q * a) * b + r * b;
        assert (q * a) * b == q * (a * b);
      }
      ModShift(p, 0, b);
      ModIs(p, 0, 0, 0);
      ModMul(p, q, q, a * b, 0);
      ModSub(p, p * b, 0, q * (a * b), q * 0);
      EuclidSmall(p, r, b);
    }
  }

  lemma Euclid(p: nat, a: int, b: int)
    requires IsPrime(p) && (a * b) % p == 0
    ensures a % p == 0 || b % p == 0
  {
    if a % p != 0 {
      ModTwice(p, a);
      ModMul(p, a % p, a, b, b);
      EuclidSmall(p, a % p, b);
    }
  }

  /** Cancelling a factor that is not a multiple of p. */
  lemma Cancel(p: nat, c: int, a: int, b: int)
    requires IsPrime(p) && c % p != 0 && (c * a) % p == (c * b) % p
    ensures a % p == b % p
  {
    ModDiff(p, c * a, c * b);
    assert c * a - c * b == c * (a - b);
    Euclid(p, c, a - b);
    ModDiff(p, a, b);
  }

  // ------------------------------------------------------ Fermat's little theorem

  function Binomial(n: nat, k: nat): nat {
    if k == 0 then 1 else if n == 0 then 0 else Binomial(n - 1, k - 1) + Binomial(n - 1, k)
  }

  lemma {:induction false} BinomialOutside(n: nat, k: nat)
    requires n < k
    ensures Binomial(n, k) == 0
  {
    if n > 0 {
      BinomialOutside(n - 1, k - 1);
      BinomialOutside(n - 1, k);
    }
  }

  /** k * C(n, k) == n * C(n - 1, k - 1). */
  lemma {:induction false} Absorption(n: nat, k: nat)
    requires 1 <= k && 1 <= n
    ensures k * Binomial(n, k) == n * Binomial(n - 1, k - 1)
  {
    if n == 1 {
      if k > 1 {
        BinomialOutside(1, k);
        BinomialOutside(0, k - 1);
      }
    } else {
      var a, c := Binomial(n - 1, k - 1), Binomial(n - 2, k - 1);
      Absorption(n - 1, k);
      if k > 1 {
        Absorption(n - 1, k - 1);
      }
      AbsorptionStep(n, k, a, Binomial(n - 1, k), c, a - c);
    }
  }

  lemma AbsorptionStep(n: nat, k: nat, a: int, b: int, c: int, d: int)
    requires k * b == (n - 1) * c && (k - 1) * a == (n - 1) * d && a == c + d
    ensures k * (a + b) == n * a
  {
    Distribute(a, b, k);
    Distribute(c, d, n - 1);
    Distribute(k - 1, 1, a);
    Distribute(n - 1, 1, a);
  }

  lemma BinomialPrime(p: nat, k: nat)
    requires IsPrime(p) && 1 <= k < p
    ensures Binomial(p, k) % p == 0
  {
    Absorption(p, k);
    ModShift(p, 0, Binomial(p - 1, k - 1));
    ModIs(p, 0, 0, 0);
    Euclid(p, k, Binomial(p, k));
    ModIs(p, k, 0, k);
  }

  /** The sum of C(n, i) * x^i over i < m. */
  function BinomialSum(n: nat, m: nat, x: int): int {
    if m == 0 then 0 else BinomialSum(n, m - 1, x) + Binomial(n, m - 1) * Pow(x, m - 1)
  }

  lemma {:induction false} BinomialSumStep(n: nat, m: nat, x: int)
    ensures BinomialSum(n + 1, m + 1, x) == BinomialSum(n, m + 1, x) + x * BinomialSum(n, m, x)
  {
    if m == 0 {
      assert BinomialSum(n + 1, 1, x) == 1 && BinomialSum(n, 1, x) == 1;
      assert x * 0 == 0;
    } else {
      BinomialSumStep(n, m - 1, x);
      PascalRing(x, Pow(x, m - 1), Binomial(n, m - 1), Binomial(n, m), BinomialSum(n, m - 1, x), BinomialSum(n, m, x));
    }
  }

  lemma PascalRing(x: int, y: int, c: int, d: int, s: int, t: int)
    ensures t + x * s + (c + d) * (x * y) == t + d * (x * y) + x * (s + c * y)
  {
    Distribute(c, d, x * y);
    Associate(c, x, y);
    Associate(x, c, y);
    Distribute(s, c * y, x);
  }

  lemma {:induction false} BinomialTheorem(n: nat, x: int)
    ensures BinomialSum(n, n + 1, x) == Pow(x + 1, n)
  {
    if n == 0 {
      assert BinomialSum(0, 1, x) == 1;
    } else {
      BinomialTheorem(n - 1, x);
      BinomialSumStep(n - 1, n, x);
      BinomialOutside(n - 1, n);
      assert BinomialSum(n - 1, n + 1, x) == BinomialSum(n - 1, n, x) + 0 * Pow(x, n);
      Distribute(x, 1, Pow(x + 1, n - 1));
    }
  }

  lemma {:induction false} BinomialSumPrime(p: nat, m: nat, x: int)
    requires IsPrime(p) && 1 <= m <= p
    ensures BinomialSum(p, m, x) % p == 1
  {
    if m == 1 {
      assert BinomialSum(p, 1, x) == 1;
      ModIs(p, 1, 0, 1);
    } else {
      BinomialSumPrime(p, m - 1, x);
      BinomialPrime(p, m - 1);
      ModIs(p, 0, 0, 0);
      ModIs(p, 1, 0, 1);
      var y := Pow(x, m - 1);
      ModMul(p, Binomial(p, m - 1), 0, y, y);
      ModAdd(p, BinomialSum(p, m - 1, x), 1, Binomial(p, m - 1) * y, 0 * y);
    }
  }

  lemma {:induction false} BinomialFull(n: nat)
    ensures Binomial(n, n) == 1
  {
    if n > 0 {
      BinomialFull(n - 1);
      BinomialOutside(n - 1, n);
    }
  }

  /** The freshman's dream, one step of the induction below. */
  lemma PowPrimeStep(p: nat, x: int)
    requires IsPrime(p)
    ensures Pow(x + 1, p) % p == (Pow(x, p) + 1) % p
  {
    BinomialTheorem(p, x);
    BinomialFull(p);
    BinomialSumPrime(p, p, x);
    ModIs(p, 1, 0, 1);
    ModAdd(p, BinomialSum(p, p, x), 1, Pow(x, p), Pow(x, p));
    assert BinomialSum(p, p + 1, x) == BinomialSum(p, p, x) + Pow(x, p);
  }

  lemma {:induction false} PowPrime(p: nat, x: nat)
    requires IsPrime(p)
    ensures Pow(x, p) % p == x % p
  {
    if x == 0 {
      assert Pow(0, p) == 0 * Pow(0, p - 1);
    } else {
      PowPrime(p, x - 1);
      PowPrimeStep(p, x - 1);
      ModAdd(p, Pow(x - 1, p), x - 1, 1, 1);
    }
  }

  /** Fermat: x^(p-1) is 1 for every x that is not a multiple of p. */
  lemma Fermat(p: nat, x: int)
    requires IsPrime(p) && x % p != 0
    ensures Pow(x, p - 1) % p == 1
  {
    var r := x % p;
    ModTwice(p, x);
    PowMod(p, r, x, p - 1);
    PowPrime(p, r);
    assert Pow(r, p) == r * Pow(r, p - 1);
    assert r * 1 == r;
    Cancel(p, r, Pow(r, p - 1), 1);
    ModIs(p, 1, 0, 1);
  }
}
