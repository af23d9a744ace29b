/** Interleavings of the partitions of an audit log: what `verify_audit_chain`
    (core/audit_chain.py) says does not depend on them. */
module ChainInterleaving {
  import opened AuditChain

  /** The records at i and i + 1 change places if they are of different partitions. */
  function Exchange(records: seq<AuditEvent>, i: nat): (r: seq<AuditEvent>)
    ensures |r| == |records|
  {
    if i + 1 < |records| && records[i].chainId != records[i + 1].chainId
    then records[..i] + [records[i + 1], records[i]] + records[i + 2..]
    else records
  }

  /** Another interleaving of the same partitions: neighbours are exchanged, in this order. */
  function Interleave(records: seq<AuditEvent>, exchanges: seq<nat>): (r: seq<AuditEvent>)
    ensures |r| == |records|
  {
    if exchanges == [] then records
    else Exchange(Interleave(records, exchanges[..|exchanges| - 1]), exchanges[|exchanges| - 1])
  }

  lemma {:induction false} SelectConcat(a: seq<AuditEvent>, b: seq<AuditEvent>, c: int)
    ensures Select(a + b, c) == Select(a, c) + Select(b, c)
  {
    if b == [] {
      assert a + b == a;
    } else {
      var front := b[..|b| - 1];
      assert (a + b)[..|a + b| - 1] == a + front;
      SelectConcat(a, front, c);
    }
  }

  lemma SelectPair(x: AuditEvent, y: AuditEvent, c: int)
    requires x.chainId != y.chainId
    ensures Select([x, y], c) == Select([y, x], c)
  {
    assert [x, y][..1] == [x] && [y, x][..1] == [y] && [x][..0] == [] && [y][..0] == [];
    assert Select([x], c) == (if x.chainId == c then [x] else []) && Select([y], c) == if y.chainId == c then [y] else [];
  }

  lemma ExchangeKeepsSelect(records: seq<AuditEvent>, i: nat, c: int)
    ensures Select(Exchange(records, i), c) == Select(records, c)
  {
    if i + 1 < |records| && records[i].chainId != records[i + 1].chainId {
      var x, y, a, b := records[i], records[i + 1], records[..i], records[i + 2..];
      assert records == a + [x, y] + b;
      SelectPair(x, y, c);
      SelectConcat(a, [x, y], c);
      SelectConcat(a, [y, x], c);
      SelectConcat(a + [x, y], b, c);
      SelectConcat(a + [y, x], b, c);
    }
  }

  lemma {:induction false} InterleaveKeepsSelect(records: seq<AuditEvent>, exchanges: seq<nat>, c: int)
    ensures Select(Interleave(records, exchanges), c) == Select(records, c)
  {
    if exchanges != [] {
      var front := exchanges[..|exchanges| - 1];
      InterleaveKeepsSelect(records, front, c);
      ExchangeKeepsSelect(Interleave(records, front), exchanges[|exchanges| - 1], c);
    }
  }

  lemma SameSelectionsSameVerdict(h: Hasher, a: seq<AuditEvent>, b: seq<AuditEvent>, c: int, d: int)
    requires forall e: int :: Select(a, e) == Select(b, e)
    ensures AllChainsValid(h, a) <==> AllChainsValid(h, b)
    ensures FirstBadChain(h, a, c) && FirstBadChain(h, b, d)
            ==> c == d && SingleOutcome(h, Select(a, c)) == SingleOutcome(h, Select(b, d))
  {
    if FirstBadChain(h, a, c) && FirstBadChain(h, b, d) {
      assert !(c < d) && !(d < c);
    }
  }

  /** The verdict does not depend on how partitions are interleaved in the input: exchanging
      neighbouring records of different partitions, as often as one likes, keeps it and, when
      it is not valid, the whole outcome. */
  lemma VerdictIgnoresInterleaving(h: Hasher, records: seq<AuditEvent>, exchanges: seq<nat>, c: int, d: int)
    ensures var other := Interleave(records, exchanges);
      && (AllChainsValid(h, records) <==> AllChainsValid(h, other))
      && (FirstBadChain(h, records, c) && FirstBadChain(h, other, d)
          ==> c == d && SingleOutcome(h, Select(records, c)) == SingleOutcome(h, Select(other, d)))
  {
    var other := Interleave(records, exchanges);
    forall e: int ensures Select(records, e) == Select(other, e) {
      InterleaveKeepsSelect(records, exchanges, e);
    }
    SameSelectionsSameVerdict(h, records, other, c, d);
  }

  lemma ExchangeParts(u: seq<AuditEvent>, x: AuditEvent, y: AuditEvent, v: seq<AuditEvent>)
    requires x.chainId != y.chainId
    ensures Exchange(u + [x] + ([y] + v), |u|) == u + [y] + [x] + v
  {
    var s := u + [x] + ([y] + v);
    assert s[..|u|] == u && s[|u| + 2..] == v && s[|u|] == x && s[|u| + 1] == y;
  }

  lemma CarryPast(s: seq<AuditEvent>, up: seq<nat>, u: seq<AuditEvent>, x: AuditEvent, y: AuditEvent, v: seq<AuditEvent>)
    requires x.chainId != y.chainId && Interleave(s, up) == u + [x] + ([y] + v)
    ensures Interleave(s, up + [|u|]) == u + [y] + [x] + v
  {
    assert (up + [|u|])[..|up|] == up;
    ExchangeParts(u, x, y, v);
  }

  lemma SplitLast(u: seq<AuditEvent>, mid: seq<AuditEvent>, v: seq<AuditEvent>) returns (w: seq<AuditEvent>, front: seq<AuditEvent>, y: AuditEvent)
    requires mid != []
    ensures mid == front + [y] && mid + v == front + ([y] + v) && w == u + front && w + [y] == u + mid && |front| < |mid|
  {
    var n := |mid| - 1;
    front, y := mid[..n], mid[n];
    w := u + front;
  }

  /** A record passes records of other partitions. */
  lemma {:induction false} CarryUp(u: seq<AuditEvent>, x: AuditEvent, mid: seq<AuditEvent>, v: seq<AuditEvent>) returns (up: seq<nat>)
    requires forall r :: r in mid ==> r.chainId != x.chainId
    ensures Interleave(u + [x] + (mid + v), up) == u + mid + [x] + v
    ensures forall k :: 0 <= k < |up| ==> up[k] < |u| + |mid|
    decreases |mid|
  {
    if mid == [] {
      up := [];
      assert u + [x] + (mid + v) == u + mid + [x] + v;
    } else {
      var w, front, y := SplitLast(u, mid, v);
      up := CarryUp(u, x, front, [y] + v);
      CarryPast(u + [x] + (mid + v), up, w, x, y, v);
      up := up + [|w|];
    }
  }

  lemma {:induction false} InterleaveFront(front: seq<AuditEvent>, last: AuditEvent, exchanges: seq<nat>)
    requires forall k :: 0 <= k < |exchanges| ==> exchanges[k] + 1 < |front|
    ensures Interleave(front + [last], exchanges) == Interleave(front, exchanges) + [last]
  {
    if exchanges != [] {
      InterleaveFront(front, last, exchanges[..|exchanges| - 1]);
      var r := Interleave(front, exchanges[..|exchanges| - 1]);
      var i := exchanges[|exchanges| - 1];
      assert (r + [last])[..i] == r[..i] && (r + [last])[i + 2..] == r[i + 2..] + [last];
    }
  }

  lemma {:induction false} InterleaveTwice(records: seq<AuditEvent>, a: seq<nat>, b: seq<nat>)
    ensures Interleave(records, a + b) == Interleave(Interleave(records, a), b)
  {
    if b == [] {
      assert a + b == a;
    } else {
      InterleaveTwice(records, a, b[..|b| - 1]);
      assert (a + b)[..|a + b| - 1] == a + b[..|b| - 1];
    }
  }

  /** Where the last record of a partition is. */
  lemma {:induction false} LastOf(records: seq<AuditEvent>, c: int) returns (i: nat)
    requires Select(records, c) != []
    ensures i < |records| && records[i] == Select(records, c)[|Select(records, c)| - 1] && records[i].chainId == c
    ensures forall k :: i < k < |records| ==> records[k].chainId != c
  {
    var n := |records| - 1;
    if records[n].chainId == c {
      i := n;
    } else {
      i := LastOf(records[..n], c);
    }
  }

  lemma LastParts(records: seq<AuditEvent>, c: int) returns (u: seq<AuditEvent>, x: AuditEvent, mid: seq<AuditEvent>)
    requires Select(records, c) != []
    ensures records == u + [x] + mid && x == Select(records, c)[|Select(records, c)| - 1]
    ensures forall r :: r in mid ==> r.chainId != x.chainId
  {
    var i := LastOf(records, c);
    u, x, mid := records[..i], records[i], records[i + 1..];
  }

  lemma SelectLast(r: seq<AuditEvent>, x: AuditEvent, c: int)
    ensures Select(r + [x], c) == if x.chainId == c then Select(r, c) + [x] else Select(r, c)
  {
    assert (r + [x])[..|r|] == r;
  }

  lemma SelectFront(r: seq<AuditEvent>, s: seq<AuditEvent>, x: AuditEvent, c: int)
    requires Select(r + [x], c) == Select(s + [x], c)
    ensures Select(r, c) == Select(s, c)
  {
    SelectLast(r, x, c);
    SelectLast(s, x, c);
    if x.chainId == c {
      assert (Select(r, c) + [x])[..|Select(r, c)|] == Select(r, c);
      assert (Select(s, c) + [x])[..|Select(s, c)|] == Select(s, c);
    }
  }

  /** Exchanges that bring the last record of the other input to the end. */
  lemma CarryLast(a: seq<AuditEvent>, front: seq<AuditEvent>, last: AuditEvent) returns (up: seq<nat>, r: seq<AuditEvent>)
    requires forall c: int :: Select(a, c) == Select(front + [last], c)
    ensures Interleave(a, up) == r + [last] && |r| + 1 == |a| && forall k :: 0 <= k < |up| ==> up[k] + 1 < |a|
    ensures forall c: int :: Select(r, c) == Select(front, c)
  {
    SelectLast(front, last, last.chainId);
    var u, x, mid := LastParts(a, last.chainId);
    r := u + mid;
    assert x == last;
    up := CarryUp(u, x, mid, []);
    assert mid + [] == mid && u + mid + [x] + [] == r + [x];
    forall c: int ensures Select(r, c) == Select(front, c) {
      InterleaveKeepsSelect(a, up, c);
      SelectFront(r, front, last, c);
    }
  }

  lemma SelectSome(a: seq<AuditEvent>)
    requires a != []
    ensures Select(a, a[|a| - 1].chainId) != []
  {}

  lemma InterleaveThen(a: seq<AuditEvent>, up: seq<nat>, r: seq<AuditEvent>, last: AuditEvent, rest: seq<nat>)
    requires Interleave(a, up) == r + [last] && forall k :: 0 <= k < |rest| ==> rest[k] + 1 < |r|
    ensures Interleave(a, up + rest) == Interleave(r, rest) + [last]
  {
    InterleaveFront(r, last, rest);
    InterleaveTwice(a, up, rest);
  }

  /** Inputs whose partitions are the same sequences are interleavings of each other. */
  lemma {:induction false} SameSelectionsInterleave(a: seq<AuditEvent>, b: seq<AuditEvent>) returns (exchanges: seq<nat>)
    requires forall c: int :: Select(a, c) == Select(b, c)
    ensures Interleave(a, exchanges) == b
    ensures forall k :: 0 <= k < |exchanges| ==> exchanges[k] + 1 < |a|
    decreases |b|
  {
    if b == [] {
      exchanges := [];
      if a != [] {
        SelectSome(a);
      }
    } else {
      var front, last := b[..|b| - 1], b[|b| - 1];
      assert b == front + [last];
      var up, r := CarryLast(a, front, last);
      var rest := SameSelectionsInterleave(r, front);
      InterleaveThen(a, up, r, last, rest);
      exchanges := up + rest;
    }
  }
}
