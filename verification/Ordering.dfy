/** Strict total orders, the sorted enumeration of a finite set, and Python's code-point
    order on strings. */
module Ordering {

  ghost predicate StrictTotalOrder<T(!new)>(less: (T, T) -> bool) {
    && (forall a :: !less(a, a))
    && (forall a, b :: a == b || less(a, b) || less(b, a))
    && (forall a, b, c :: less(a, b) && less(b, c) ==> less(a, c))
  }

  ghost predicate Increasing<T>(s: seq<T>, less: (T, T) -> bool) {
    forall i, j :: 0 <= i < j < |s| ==> less(s[i], s[j])
  }

  ghost predicate NoRepeats<T>(s: seq<T>) {
    forall i, j :: 0 <= i < j < |s| ==> s[i] != s[j]
  }

  lemma {:induction false} LeastExists<T(!new)>(s: set<T>, less: (T, T) -> bool) returns (m: T)
    requires StrictTotalOrder(less) && s != {}
    ensures m in s && forall x :: x in s ==> x == m || less(m, x)
    decreases s
  {
    var y :| y in s;
    m := y;
    if s != {y} {
      var n := LeastExists(s - {y}, less);
      m := if less(y, n) then y else n;
      forall x | x in s ensures x == m || less(m, x) {
        assert x == y || x in s - {y};
        assert y == n || less(y, n) || less(n, y);
      }
    }
  }

  /** `sorted(s)` for a set: every element once, in increasing order. */
  function Sorted<T(!new)>(s: set<T>, less: (T, T) -> bool): (r: seq<T>)
    requires StrictTotalOrder(less)
    ensures Increasing(r, less)
    ensures forall x :: x in r <==> x in s
    ensures |r| == |s|
    decreases s
  {
    if s == {} then [] else
      assert exists m :: m in s && forall x :: x in s ==> x == m || less(m, x) by {
        var m := LeastExists(s, less);
      }
      var m :| m in s && forall x :: x in s ==> x == m || less(m, x);
      [m] + Sorted(s - {m}, less)
  }

  lemma HeadMember<T>(a: seq<T>)
    ensures a != [] ==> a[0] in a
  {}

  /** Increasing sequences with the same elements are equal. */
  lemma {:induction false} IncreasingUnique<T(!new)>(a: seq<T>, b: seq<T>, less: (T, T) -> bool)
    requires StrictTotalOrder(less) && Increasing(a, less) && Increasing(b, less)
    requires forall x :: x in a <==> x in b
    ensures a == b
  {
    HeadMember(a);
    HeadMember(b);
    if a != [] && b != [] {
      assert a[0] in b && b[0] in a;
      assert a[0] == b[0];
      forall x ensures x in a[1..] <==> x in b[1..] {
        assert x in a[1..] ==> x in a && x != a[0];
        assert x in b[1..] ==> x in b && x != b[0];
        assert x in a && x != a[0] ==> x in a[1..];
        assert x in b && x != b[0] ==> x in b[1..];
      }
      IncreasingUnique(a[1..], b[1..], less);
      assert a == [a[0]] + a[1..] && b == [b[0]] + b[1..];
    }
  }

  // -------------------------------------------------------------------- sorting a list

  /** An order in which different elements may stand level. */
  ghost predicate StrictWeakOrder<T(!new)>(less: (T, T) -> bool) {
    && (forall a, b :: less(a, b) ==> !less(b, a))
    && (forall a, b, c :: !less(b, a) && !less(c, b) ==> !less(c, a))
  }

  lemma TotalIsWeak<T(!new)>(less: (T, T) -> bool)
    requires StrictTotalOrder(less)
    ensures StrictWeakOrder(less)
  {}

  ghost predicate InOrder<T>(s: seq<T>, less: (T, T) -> bool) {
    forall i, j :: 0 <= i < j < |s| ==> !less(s[j], s[i])
  }

  function Insert<T>(x: T, s: seq<T>, less: (T, T) -> bool): seq<T> {
    if s == [] || !less(x, s[|s| - 1]) then s + [x] else Insert(x, s[..|s| - 1], less) + [s[|s| - 1]]
  }

  /** `sorted(s)` for a list: stable, every element as often as it was there. */
  function SortedList<T>(s: seq<T>, less: (T, T) -> bool): seq<T> {
    if s == [] then [] else Insert(s[|s| - 1], SortedList(s[..|s| - 1], less), less)
  }

  lemma {:induction false} InsertPermutes<T>(x: T, s: seq<T>, less: (T, T) -> bool)
    ensures multiset(Insert(x, s, less)) == multiset(s) + multiset{x}
  {
    if s != [] && less(x, s[|s| - 1]) {
      InsertPermutes(x, s[..|s| - 1], less);
      assert s == s[..|s| - 1] + [s[|s| - 1]];
    }
  }

  lemma InsertMembers<T>(x: T, s: seq<T>, less: (T, T) -> bool)
    ensures forall y :: y in Insert(x, s, less) <==> y == x || y in s
  {
    InsertPermutes(x, s, less);
    forall y ensures y in Insert(x, s, less) <==> y == x || y in s {
      assert y in Insert(x, s, less) <==> y in multiset(Insert(x, s, less));
      assert y in s <==> y in multiset(s);
    }
  }

  lemma {:induction false} InsertKeepsOrder<T(!new)>(x: T, s: seq<T>, less: (T, T) -> bool)
    requires StrictWeakOrder(less) && InOrder(s, less)
    ensures InOrder(Insert(x, s, less), less)
  {
    if s != [] {
      var n := |s| - 1;
      if less(x, s[n]) {
        var r := Insert(x, s[..n], less);
        InsertKeepsOrder(x, s[..n], less);
        InsertMembers(x, s[..n], less);
        forall i | 0 <= i < |r| ensures !less(s[n], r[i]) {
          assert r[i] in r;
        }
      } else {
        forall i | 0 <= i < |s| ensures !less(x, s[i]) {
          assert i < n ==> !less(s[n], s[i]);
        }
      }
    }
  }

  lemma {:induction false} InsertKeepsDistinct<T>(x: T, s: seq<T>, less: (T, T) -> bool)
    requires NoRepeats(s) && x !in s
    ensures NoRepeats(Insert(x, s, less))
  {
    if s != [] && less(x, s[|s| - 1]) {
      var n := |s| - 1;
      InsertKeepsDistinct(x, s[..n], less);
      InsertMembers(x, s[..n], less);
      var r := Insert(x, s[..n], less);
      forall i | 0 <= i < |r| ensures r[i] != s[n] {
        assert r[i] in r;
        assert s[n] in s;
      }
    }
  }

  /** A sorted list is an ordered permutation, so it repeats nothing if the list did not. */
  lemma {:induction false} SortedListIs<T(!new)>(s: seq<T>, less: (T, T) -> bool)
    requires StrictWeakOrder(less)
    ensures InOrder(SortedList(s, less), less) && multiset(SortedList(s, less)) == multiset(s)
    ensures forall x :: x in SortedList(s, less) <==> x in s
    ensures NoRepeats(s) ==> NoRepeats(SortedList(s, less))
  {
    if s != [] {
      var front, last := s[..|s| - 1], s[|s| - 1];
      var r := SortedList(front, less);
      assert s == front + [last];
      SortedListIs(front, less);
      InsertPermutes(last, r, less);
      InsertMembers(last, r, less);
      InsertKeepsOrder(last, r, less);
      if NoRepeats(s) {
        InsertKeepsDistinct(last, r, less);
      }
    }
  }

  /** Without repetitions, ordered by a total order means strictly increasing. */
  lemma DistinctIncreases<T(!new)>(s: seq<T>, less: (T, T) -> bool)
    requires StrictTotalOrder(less) && InOrder(s, less) && NoRepeats(s)
    ensures Increasing(s, less)
  {}

  lemma IncreasingDistinct<T(!new)>(s: seq<T>, less: (T, T) -> bool)
    requires StrictTotalOrder(less) && Increasing(s, less)
    ensures NoRepeats(s) && InOrder(s, less)
  {
    TotalIsWeak(less);
  }

  /** Code-point order on strings, as Python compares `str`. */
  predicate StringLess(a: string, b: string) {
    b != "" && (a == "" || a[0] < b[0] || (a[0] == b[0] && StringLess(a[1..], b[1..])))
  }

  lemma {:induction false} StringLessTotal(a: string, b: string)
    ensures !StringLess(a, a)
    ensures a == b || StringLess(a, b) || StringLess(b, a)
    decreases |a| + |b|
  {
    if a != "" && b != "" && a[0] == b[0] {
      StringLessTotal(a[1..], b[1..]);
      assert a == [a[0]] + a[1..] && b == [b[0]] + b[1..];
    } else if a != "" {
      StringLessTotal(a[1..], "");
    }
  }

  lemma {:induction false} StringLessTransitive(a: string, b: string, c: string)
    requires StringLess(a, b) && StringLess(b, c)
    ensures StringLess(a, c)
  {
    if a != "" && a[0] == b[0] && b[0] == c[0] {
      StringLessTransitive(a[1..], b[1..], c[1..]);
    }
  }

  lemma StringLessOrder()
    ensures StrictTotalOrder(StringLess)
  {
    forall a, b ensures !StringLess(a, a) && (a == b || StringLess(a, b) || StringLess(b, a)) {
      StringLessTotal(a, b);
    }
    forall a, b, c | StringLess(a, b) && StringLess(b, c) ensures StringLess(a, c) {
      StringLessTransitive(a, b, c);
    }
  }

  /** a is a proper prefix of b, or has the lower character where they first differ. */
  ghost predicate CodePointLess(a: string, b: string) {
    exists k :: LessAt(a, b, k)
  }

  ghost predicate LessAt(a: string, b: string, k: int) {
    0 <= k <= |a| && k < |b| && a[..k] == b[..k] && (k == |a| || a[k] < b[k])
  }

  lemma {:induction false} StringLessIsCodePointLess(a: string, b: string)
    ensures StringLess(a, b) <==> CodePointLess(a, b)
  {
    if StringLess(a, b) {
      var k := FirstDifference(a, b);
    }
    if k :| LessAt(a, b, k) {
      LessAtIsLess(a, b, k);
    }
  }

  lemma {:induction false} FirstDifference(a: string, b: string) returns (k: nat)
    requires StringLess(a, b)
    ensures LessAt(a, b, k)
  {
    k := 0;
    if a != "" && a[0] == b[0] {
      var j := FirstDifference(a[1..], b[1..]);
      k := j + 1;
      assert a[..k] == [a[0]] + a[1..][..j] && b[..k] == [b[0]] + b[1..][..j];
    }
  }

  lemma {:induction false} LessAtIsLess(a: string, b: string, k: nat)
    requires LessAt(a, b, k)
    ensures StringLess(a, b)
  {
    if k > 0 {
      assert a[..k][0] == a[0] && b[..k][0] == b[0];
      assert a[1..][..k - 1] == a[..k][1..] && b[1..][..k - 1] == b[..k][1..];
      LessAtIsLess(a[1..], b[1..], k - 1);
    }
  }

  /** Increasing by name means increasing by code points. */
  lemma IncreasingByCodePoints(s: seq<string>)
    requires Increasing(s, StringLess)
    ensures forall i, j :: 0 <= i < j < |s| ==> CodePointLess(s[i], s[j])
  {
    forall i, j | 0 <= i < j < |s| ensures CodePointLess(s[i], s[j]) {
      StringLessIsCodePointLess(s[i], s[j]);
    }
  }

  /** `sorted(keys)` for string keys: increasing by code points. */
  function SortedStrings(s: set<string>): (r: seq<string>)
    ensures Increasing(r, StringLess)
    ensures forall i, j :: 0 <= i < j < |r| ==> CodePointLess(r[i], r[j])
    ensures forall x :: x in r <==> x in s
    ensures |r| == |s|
  {
    StringLessOrder();
    IncreasingByCodePoints(Sorted(s, StringLess));
    Sorted(s, StringLess)
  }
}
