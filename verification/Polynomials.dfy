/** Polynomials over the integers, low-degree coefficient first, and the algebra the
    field utilities rest on: sums of terms, convolution, and division with remainder,
    all up to congruence modulo a prime. */
module Polynomials {
  import opened NumberTheory

  /** The coefficient of X^i, which is 0 beyond the list. */
  function Coef(c: seq<int>, i: int): int {
    if 0 <= i < |c| then c[i] else 0
  }

  /** The first n terms of c evaluated at x. */
  function Eval(c: seq<int>, n: nat, x: int): int {
    if n == 0 then 0 else Eval(c, n - 1, x) + Coef(c, n - 1) * Pow(x, n - 1)
  }

  function Value(c: seq<int>, x: int): int {
    Eval(c, |c|, x)
  }

  /** The coefficient of X^k in the product a * b. */
  function Conv(a: seq<int>, b: seq<int>, k: int): int {
    if a == [] then 0
    else Conv(a[..|a| - 1], b, k) + a[|a| - 1] * Coef(b, k - (|a| - 1))
  }

  /** Equal coefficients modulo p, whatever the padding. */
  ghost predicate Same(p: nat, a: seq<int>, b: seq<int>)
    requires 0 < p
  {
    forall k: nat :: Coef(a, k) % p == Coef(b, k) % p
  }

  // ---------------------------------------------------------------- evaluation

  lemma {:induction false} EvalPad(c: seq<int>, n: nat, x: int)
    requires |c| <= n
    ensures Eval(c, n, x) == Value(c, x)
  {
    if n > |c| {
      EvalPad(c, n - 1, x);
    }
  }

  lemma {:induction false} EvalPrefix(c: seq<int>, d: seq<int>, n: nat, x: int)
    requires forall k :: 0 <= k < n ==> Coef(c, k) == Coef(d, k)
    ensures Eval(c, n, x) == Eval(d, n, x)
  {
    if n > 0 {
      EvalPrefix(c, d, n - 1, x);
    }
  }

  /** Evaluation is linear: h == t * f + g term by term gives the same of the values. */
  lemma {:induction false} EvalLinear(p: nat, n: nat, h: seq<int>, t: int, f: seq<int>, g: seq<int>, x: int)
    requires 0 < p
    requires forall k :: 0 <= k < n ==> Coef(h, k) % p == (t * Coef(f, k) + Coef(g, k)) % p
    ensures Eval(h, n, x) % p == (t * Eval(f, n, x) + Eval(g, n, x)) % p
  {
    if n > 0 {
      EvalLinear(p, n - 1, h, t, f, g, x);
      var u, v, y := Coef(f, n - 1), Coef(g, n - 1), Pow(x, n - 1);
      ModMul(p, Coef(h, n - 1), t * u + v, y, y);
      Distribute(t * u, v, y);
      Associate(t, u, y);
      Distribute(Eval(f, n - 1, x), u * y, t);
      ModAdd(p, Eval(h, n - 1, x), t * Eval(f, n - 1, x) + Eval(g, n - 1, x), Coef(h, n - 1) * y, (t * u + v) * y);
    }
  }

  lemma EvalSame(p: nat, n: nat, h: seq<int>, f: seq<int>, x: int)
    requires 0 < p
    requires forall k :: 0 <= k < n ==> Coef(h, k) % p == Coef(f, k) % p
    ensures Eval(h, n, x) % p == Eval(f, n, x) % p
  {
    EvalLinear(p, n, h, 1, f, [], x);
    EvalZero(n, x);
  }

  lemma {:induction false} EvalZero(n: nat, x: int)
    ensures Eval([], n, x) == 0
  {
    if n > 0 {
      EvalZero(n - 1, x);
    }
  }

  lemma {:induction false} EvalPoint(p: nat, c: seq<int>, n: nat, x: int, y: int)
    requires 0 < p && x % p == y % p
    ensures Eval(c, n, x) % p == Eval(c, n, y) % p
  {
    if n > 0 {
      EvalPoint(p, c, n - 1, x, y);
      PowMod(p, x, y, n - 1);
      ModMul(p, Coef(c, n - 1), Coef(c, n - 1), Pow(x, n - 1), Pow(y, n - 1));
      ModAdd(p, Eval(c, n - 1, x), Eval(c, n - 1, y), Coef(c, n - 1) * Pow(x, n - 1), Coef(c, n - 1) * Pow(y, n - 1));
    }
  }

  // ---------------------------------------------------------------- convolution

  /** b multiplied by X^s, as n coefficients. */
  function Shifted(b: seq<int>, s: nat, n: nat): (g: seq<int>)
    ensures |g| == n && forall k :: 0 <= k < n ==> g[k] == Coef(b, k - s)
  {
    seq(n, k => Coef(b, k - s))
  }

  lemma {:induction false} EvalShifted(b: seq<int>, s: nat, n: nat, m: nat, x: int)
    requires m <= n
    ensures Eval(Shifted(b, s, n), m, x) == if m <= s then 0 else Pow(x, s) * Eval(b, m - s, x)
  {
    if m > 0 {
      EvalShifted(b, s, n, m - 1, x);
      if m > s {
        var j := m - 1 - s;
        PowAdd(x, s, j);
        Associate(Coef(b, j), Pow(x, s), Pow(x, j));
        Associate(Pow(x, s), Coef(b, j), Pow(x, j));
        Distribute(Eval(b, j, x), Coef(b, j) * Pow(x, j), Pow(x, s));
      }
    }
  }

  function ConvList(a: seq<int>, b: seq<int>, n: nat): (h: seq<int>)
    ensures |h| == n && forall k :: 0 <= k < n ==> h[k] == Conv(a, b, k)
  {
    seq(n, k => Conv(a, b, k))
  }

  /** A list that carries the convolution of a and b evaluates to the product of their values. */
  lemma {:induction false} EvalConv(p: nat, a: seq<int>, b: seq<int>, h: seq<int>, n: nat, x: int)
    requires 0 < p && |a| + |b| <= n + 1
    requires forall k :: 0 <= k < n ==> Coef(h, k) % p == Conv(a, b, k) % p
    ensures Eval(h, n, x) % p == (Value(a, x) * Value(b, x)) % p
  {
    if a == [] {
      EvalSame(p, n, h, [], x);
      EvalZero(n, x);
    } else {
      var s := |a| - 1;
      var a', top := a[..s], a[s];
      var f, g := ConvList(a', b, n), Shifted(b, s, n);
      EvalLinear(p, n, h, top, g, f, x);
      EvalConv(p, a', b, f, n, x);
      EvalPrefix(a', a, s, x);
      if b != [] || s <= n {
        EvalShifted(b, s, n, n, x);
        if b == [] {
          ZeroTail(b, n, s, x);
        } else {
          EvalPad(b, n - s, x);
        }
      }
      var u, v := Value(a', x), Value(b, x);
      Associate(top, Pow(x, s), v);
      Distribute(u, top * Pow(x, s), v);
      ModAdd(p, top * Eval(g, n, x), top * (Pow(x, s) * v), Eval(f, n, x), u * v);
    }
  }

  lemma ZeroTail(b: seq<int>, n: nat, s: nat, x: int)
    requires b == [] && s <= n
    ensures Eval(b, n - s, x) == 0 == Value(b, x)
  {
    EvalZero(n - s, x);
  }

  lemma {:induction false} ConvOutside(a: seq<int>, b: seq<int>, k: int)
    requires k < 0 || a == [] || b == [] || |a| + |b| <= k + 1
    ensures Conv(a, b, k) == 0
  {
    if a != [] {
      ConvOutside(a[..|a| - 1], b, k);
    }
  }

  lemma {:induction false} ConvZeros(a: seq<int>, b: seq<int>, k: int)
    requires forall i :: 0 <= i < |a| ==> a[i] == 0
    ensures Conv(a, b, k) == 0
  {
    if a != [] {
      ConvZeros(a[..|a| - 1], b, k);
    }
  }

  /** Changing one coefficient of a moves the convolution by that change times b. */
  lemma {:induction false} ConvUpdate(a: seq<int>, s: nat, c: int, b: seq<int>, k: int)
    requires s < |a|
    ensures Conv(a[s := c], b, k) == Conv(a, b, k) + (c - a[s]) * Coef(b, k - s)
  {
    var n := |a| - 1;
    if s == n {
      assert a[s := c][..n] == a[..n];
      Distribute(c - a[s], a[s], Coef(b, k - s));
    } else {
      assert a[s := c][..n] == a[..n][s := c];
      ConvUpdate(a[..n], s, c, b, k);
    }
  }

  lemma {:induction false} ConvDifference(p: nat, a: seq<int>, a': seq<int>, d: seq<int>, b: seq<int>, k: int)
    requires 0 < p && |a| == |a'| == |d| && forall i :: 0 <= i < |a| ==> d[i] == a[i] - a'[i]
    ensures Conv(d, b, k) == Conv(a, b, k) - Conv(a', b, k)
  {
    if a != [] {
      var n := |a| - 1;
      ConvDifference(p, a[..n], a'[..n], d[..n], b, k);
      Distribute(a[n] - a'[n], a'[n], Coef(b, k - n));
    }
  }

  /** Trailing zeros do not change a convolution. */
  lemma {:induction false} ConvPad(a: seq<int>, n: nat, b: seq<int>, k: int)
    ensures Conv(a + seq(n, _ => 0), b, k) == Conv(a, b, k)
  {
    if n > 0 {
      var padded := a + seq(n, _ => 0);
      assert padded[..|padded| - 1] == a + seq(n - 1, _ => 0);
      ConvPad(a, n - 1, b, k);
    } else {
      assert a + seq(0, _ => 0) == a;
    }
  }

  lemma {:induction false} ConvMod(p: nat, a: seq<int>, a': seq<int>, b: seq<int>, k: int)
    requires 0 < p && |a| == |a'| && forall i :: 0 <= i < |a| ==> a[i] % p == a'[i] % p
    ensures Conv(a, b, k) % p == Conv(a', b, k) % p
  {
    if a != [] {
      var n := |a| - 1;
      ConvMod(p, a[..n], a'[..n], b, k);
      ModMul(p, a[n], a'[n], Coef(b, k - n), Coef(b, k - n));
      ModAdd(p, Conv(a[..n], b, k), Conv(a'[..n], b, k), a[n] * Coef(b, k - n), a'[n] * Coef(b, k - n));
    }
  }

  /** If every coefficient of a above s is a multiple of p, the coefficient of the product
      at s + deg b is the product of a[s] and the leading coefficient of b. */
  lemma {:induction false} ConvTop(p: nat, a: seq<int>, s: nat, b: seq<int>)
    requires 0 < p && s < |a| && b != []
    requires forall i :: s < i < |a| ==> a[i] % p == 0
    ensures Conv(a, b, s + |b| - 1) % p == (a[s] * b[|b| - 1]) % p
  {
    var n, k := |a| - 1, s + |b| - 1;
    if n == s {
      ConvOutside(a[..n], b, k);
    } else {
      ConvTop(p, a[..n], s, b);
      ModIs(p, 0, 0, 0);
      ModMul(p, a[n], 0, Coef(b, k - n), Coef(b, k - n));
      ModAdd(p, Conv(a[..n], b, k), a[s] * b[|b| - 1], a[n] * Coef(b, k - n), 0);
    }
  }

  // ------------------------------------------------------- division is unique

  /** f == q * d + r, coefficient by coefficient modulo p, with deg r < deg d. */
  ghost predicate IsDivision(p: nat, f: seq<int>, d: seq<int>, q: seq<int>, r: seq<int>) {
    && 0 < p && d != [] && |r| < |d|
    && forall k: nat :: Coef(f, k) % p == (Conv(q, d, k) + Coef(r, k)) % p
  }

  lemma {:induction false} LastNonzero(p: nat, a: seq<int>) returns (s: nat)
    requires 0 < p && exists i :: 0 <= i < |a| && a[i] % p != 0
    ensures s < |a| && a[s] % p != 0 && forall i :: s < i < |a| ==> a[i] % p == 0
  {
    s := |a| - 1;
    if a[s] % p == 0 {
      s := LastNonzero(p, a[..s]);
    }
  }

  lemma DifferenceTop(p: nat, f: seq<int>, d: seq<int>, q: seq<int>, r: seq<int>, q': seq<int>, r': seq<int>, e: seq<int>, s: nat)
    requires IsDivision(p, f, d, q, r) && IsDivision(p, f, d, q', r')
    requires |q| == |q'| == |e| && forall i :: 0 <= i < |e| ==> e[i] == q[i] - q'[i]
    requires s < |e| && forall i :: s < i < |e| ==> e[i] % p == 0
    ensures (e[s] * d[|d| - 1]) % p == 0
  {
    var k := s + |d| - 1;
    SameTop(p, f, d, q, r, k);
    SameTop(p, f, d, q', r', k);
    ModDiff(p, Conv(q, d, k), Conv(q', d, k));
    ConvDifference(p, q, q', e, d, k);
    ConvTop(p, e, s, d);
  }

  lemma SameTop(p: nat, f: seq<int>, d: seq<int>, q: seq<int>, r: seq<int>, k: nat)
    requires IsDivision(p, f, d, q, r) && |d| - 1 <= k
    ensures Conv(q, d, k) % p == Coef(f, k) % p
  {
    assert Coef(f, k) % p == (Conv(q, d, k) + Coef(r, k)) % p;
    assert Coef(r, k) == 0;
  }

  /** Quotients of equal length agree when the leading coefficient is not a multiple of p:
      the top coefficient where they differ would show in the dividend. */
  lemma QuotientUnique(p: nat, f: seq<int>, d: seq<int>, q: seq<int>, r: seq<int>, q': seq<int>, r': seq<int>)
    requires IsPrime(p) && |q| == |q'|
    requires IsDivision(p, f, d, q, r) && IsDivision(p, f, d, q', r')
    requires d[|d| - 1] % p != 0
    ensures forall i :: 0 <= i < |q| ==> q[i] % p == q'[i] % p
  {
    var e := seq(|q|, i requires 0 <= i < |q| => q[i] - q'[i]);
    if exists i :: 0 <= i < |e| && e[i] % p != 0 {
      var s := LastNonzero(p, e);
      DifferenceTop(p, f, d, q, r, q', r', e, s);
      Euclid(p, e[s], d[|d| - 1]);
      assert false;
    }
    forall i | 0 <= i < |q| ensures q[i] % p == q'[i] % p {
      assert e[i] % p == 0;
      ModDiff(p, q[i], q'[i]);
    }
  }

  lemma RemainderUnique(p: nat, f: seq<int>, d: seq<int>, q: seq<int>, r: seq<int>, q': seq<int>, r': seq<int>)
    requires IsDivision(p, f, d, q, r) && IsDivision(p, f, d, q', r')
    requires |q| == |q'| && forall i :: 0 <= i < |q| ==> q[i] % p == q'[i] % p
    ensures Same(p, r, r')
  {
    forall k: nat ensures Coef(r, k) % p == Coef(r', k) % p {
      ConvMod(p, q, q', d, k);
      assert Coef(f, k) % p == (Conv(q, d, k) + Coef(r, k)) % p;
      ModSub(p, Conv(q, d, k) + Coef(r, k), Conv(q', d, k) + Coef(r', k), Conv(q, d, k), Conv(q', d, k));
    }
  }

  /** Division with remainder is unique, whatever trailing zeros the two answers carry. */
  lemma DivisionUnique(p: nat, f: seq<int>, d: seq<int>, q: seq<int>, r: seq<int>, q': seq<int>, r': seq<int>)
    requires IsPrime(p)
    requires IsDivision(p, f, d, q, r) && IsDivision(p, f, d, q', r')
    requires d[|d| - 1] % p != 0
    ensures Same(p, q, q') && Same(p, r, r')
  {
    var a, b := q + seq(|q'|, _ => 0), q' + seq(|q|, _ => 0);
    forall k: nat
      ensures Conv(a, d, k) == Conv(q, d, k) && Conv(b, d, k) == Conv(q', d, k)
    {
      ConvPad(q, |q'|, d, k);
      ConvPad(q', |q|, d, k);
    }
    QuotientUnique(p, f, d, a, r, b, r');
    RemainderUnique(p, f, d, a, r, b, r');
    forall i: nat ensures Coef(q, i) % p == Coef(q', i) % p {
      assert Coef(a, i) == Coef(q, i) && Coef(b, i) == Coef(q', i);
    }
  }

  /** A division evaluates at every point: f(x) == q(x) * d(x) + r(x). */
  lemma DivisionValue(p: nat, f: seq<int>, d: seq<int>, q: seq<int>, r: seq<int>, x: int)
    requires IsDivision(p, f, d, q, r)
    ensures Value(f, x) % p == (Value(q, x) * Value(d, x) + Value(r, x)) % p
  {
    var n := |f| + |q| + |d|;
    var h := ConvList(q, d, n);
    EvalLinear(p, n, f, 1, h, r, x);
    EvalConv(p, q, d, h, n, x);
    EvalPad(f, n, x);
    EvalPad(r, n, x);
    ModAdd(p, Eval(h, n, x), Value(q, x) * Value(d, x), Value(r, x), Value(r, x));
  }
}
