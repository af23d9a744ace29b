/** The partitioned audit chain of core/audit_chain.py: hashing, verification of one
    partition and of all of them, and what an accepted chain binds. */
module AuditChain {
  import opened Common
  import opened Ordering
  import opened Text
  import opened CanonicalJson
  import opened JsonReader
  import opened VrlHashing

  /** The `'0' * n` of the source. */
  function Zeros(n: nat): (s: string)
    ensures |s| == n
  {
    if n == 0 then "" else Zeros(n - 1) + "0"
  }

  const ZERO_HASH: string := Zeros(64)
  const PARTITIONS: int := 64

  lemma {:induction false} ZerosAre(n: nat)
    ensures forall i :: 0 <= i < n ==> Zeros(n)[i] == '0'
  {
    if n > 0 {
      ZerosAre(n - 1);
    }
  }

  lemma ZeroHashIs()
    ensures |ZERO_HASH| == 64 && forall i :: 0 <= i < 64 ==> ZERO_HASH[i] == '0'
  {
    ZerosAre(64);
  }

  datatype AuditEvent = AuditEvent(
    id: Option<int>,
    chainId: int,
    eventType: string,
    referenceId: Option<string>,
    payload: Json,
    prevHash: string,
    currentHash: string,
    createdAt: string)

  function ChainIdForInput(inputHash: string): (c: int)
    ensures 0 <= c < PARTITIONS
  {
    ReadHex(inputHash) % PARTITIONS
  }

  /** The partition of an input hash is its low six bits: two of its last digit but one, and
      its last digit. */
  lemma ChainIdIsLowSixBits(hash: string)
    requires |hash| >= 2 && IsHex(hash)
    ensures ChainIdForInput(hash) == 16 * (HexValue(hash[|hash| - 2]) % 4) + HexValue(hash[|hash| - 1])
  {
    var n := |hash|;
    HexValueInjective(hash[n - 1], hash[n - 1]);
    HexValueInjective(hash[n - 2], hash[n - 2]);
    var front := hash[..n - 2];
    ReadHexNext(front, hash[n - 2]);
    ReadHexNext(front + [hash[n - 2]], hash[n - 1]);
    assert front + [hash[n - 2]] + [hash[n - 1]] == hash;
    LowSixBits(ReadHex(front), HexValue(hash[n - 2]), HexValue(hash[n - 1]));
  }

  lemma LowSixBits(x: int, c: int, d: int)
    requires 0 <= c < 16 && 0 <= d < 16
    ensures (16 * (16 * x + c) + d) % 64 == 16 * (c % 4) + d
  {
    assert 16 * (16 * x + c) + d == 64 * (4 * x + c / 4) + (16 * (c % 4) + d);
  }

  function HashPayload(e: AuditEvent): Json {
    Obj(map[
      "event_type" := Str(e.eventType),
      "reference_id" := if e.referenceId.Some? then Str(e.referenceId.value) else Null,
      "event_payload" := e.payload,
      "created_at" := Str(e.createdAt)])
  }

  function AuditHash(sha: Sha, prevHash: string, e: AuditEvent): string {
    sha(prevHash + Canonical(HashPayload(e)))
  }

  /** How a record is hashed over its previous hash. The source has one, `AuditHasher(sha)`;
      chain verification uses nothing about it, so it is a parameter. */
  type Hasher = (string, AuditEvent) -> string

  /** `compute_audit_hash`. */
  function AuditHasher(sha: Sha): Hasher {
    (prevHash, e) => AuditHash(sha, prevHash, e)
  }

  /** The record hash covers neither the id, nor the partition, nor the hash fields. */
  ghost predicate IgnoresHashFields(h: Hasher) {
    forall p, e: AuditEvent, i, c: int, x, y :: h(p, e.(id := i, chainId := c, prevHash := x, currentHash := y)) == h(p, e)
  }

  /** Record hashes are ASCII text, as hexadecimal digests are. */
  ghost predicate AsciiHasher(h: Hasher) {
    forall p, e: AuditEvent :: IsAscii(h(p, e))
  }

  lemma AuditHasherIsAscii(sha: Sha)
    requires AsciiDigest(sha)
    ensures AsciiHasher(AuditHasher(sha))
  {}

  lemma {:induction false} ZerosAscii(n: nat)
    ensures IsAscii(Zeros(n))
  {
    if n > 0 {
      ZerosAscii(n - 1);
    }
  }

  lemma AuditHasherIgnoresHashFields(sha: Sha)
    ensures IgnoresHashFields(AuditHasher(sha))
  {
    forall p, e: AuditEvent, i, c: int, x, y
      ensures AuditHash(sha, p, e.(id := i, chainId := c, prevHash := x, currentHash := y)) == AuditHash(sha, p, e)
    {
      assert HashPayload(e.(id := i, chainId := c, prevHash := x, currentHash := y)) == HashPayload(e);
    }
  }

  /** `build_audit_event`: the current hash is computed over the given previous hash. */
  function BuildAuditEvent(h: Hasher, eventType: string, referenceId: Option<string>, payload: Json, prevHash: string, createdAt: string, chainId: int): (e: AuditEvent)
    ensures IgnoresHashFields(h) ==> Linked(h, prevHash, e)
    ensures e.chainId == chainId && e.id.None?
  {
    var draft := AuditEvent(None, chainId, eventType, referenceId, payload, prevHash, "", createdAt);
    draft.(currentHash := h(prevHash, draft))
  }

  /** e continues a chain whose latest hash is prev. */
  predicate Linked(h: Hasher, prev: string, e: AuditEvent) {
    e.prevHash == prev && e.currentHash == h(e.prevHash, e)
  }

  /** The latest hash after the first i records of a chain that starts from start. */
  function HashAfter(start: string, records: seq<AuditEvent>, i: nat): string
    requires i <= |records|
  {
    if i == 0 then start else records[i - 1].currentHash
  }

  ghost predicate ValidFrom(h: Hasher, start: string, records: seq<AuditEvent>) {
    forall i {:trigger HashAfter(start, records, i)} :: 0 <= i < |records| ==> Linked(h, HashAfter(start, records, i), records[i])
  }

  ghost predicate ChainValid(h: Hasher, records: seq<AuditEvent>) {
    ValidFrom(h, ZERO_HASH, records)
  }

  lemma ValidAppend(h: Hasher, start: string, records: seq<AuditEvent>, e: AuditEvent)
    ensures ValidFrom(h, start, records + [e])
            <==> ValidFrom(h, start, records) && Linked(h, HashAfter(start, records, |records|), e)
  {
    var r := records + [e];
    assert forall i :: 0 <= i < |records| ==> HashAfter(start, r, i) == HashAfter(start, records, i);
    if ValidFrom(h, start, r) {
      assert Linked(h, HashAfter(start, r, |records|), r[|records|]);
      forall i | 0 <= i < |records| ensures Linked(h, HashAfter(start, records, i), records[i]) {
        assert Linked(h, HashAfter(start, r, i), r[i]);
      }
    }
  }

  lemma ValidConcat(h: Hasher, start: string, a: seq<AuditEvent>, b: seq<AuditEvent>)
    ensures ValidFrom(h, start, a + b)
            <==> ValidFrom(h, start, a) && ValidFrom(h, HashAfter(start, a, |a|), b)
  {
    var r, mid := a + b, HashAfter(start, a, |a|);
    assert forall i :: 0 <= i < |a| ==> HashAfter(start, r, i) == HashAfter(start, a, i);
    assert forall i :: 0 <= i < |b| ==> HashAfter(start, r, |a| + i) == HashAfter(mid, b, i);
    if ValidFrom(h, start, r) {
      forall i | 0 <= i < |a| ensures Linked(h, HashAfter(start, a, i), a[i]) {
        assert Linked(h, HashAfter(start, r, i), r[i]);
      }
      forall i | 0 <= i < |b| ensures Linked(h, HashAfter(mid, b, i), b[i]) {
        assert Linked(h, HashAfter(start, r, |a| + i), r[|a| + i]);
      }
    }
    if ValidFrom(h, start, a) && ValidFrom(h, mid, b) {
      forall i | 0 <= i < |r| ensures Linked(h, HashAfter(start, r, i), r[i]) {
        if i >= |a| {
          assert Linked(h, HashAfter(mid, b, i - |a|), b[i - |a|]);
        }
      }
    }
  }

  // ------------------------------------------------------------- verification

  datatype VerifyResult = VerifyResult(
    valid: bool, reason: string, checkedRows: nat, lastHash: string, brokenId: Option<int>)

  /** The position of the first record that does not continue the chain. */
  function FirstBreak(h: Hasher, start: string, records: seq<AuditEvent>): (k: nat)
    ensures k <= |records|
    decreases |records|
  {
    if records == [] || !Linked(h, start, records[0]) then 0
    else 1 + FirstBreak(h, records[0].currentHash, records[1..])
  }

  /** FirstBreak is exactly the first break: everything before it links, it does not. */
  lemma {:induction false} FirstBreakExact(h: Hasher, start: string, records: seq<AuditEvent>)
    ensures var k := FirstBreak(h, start, records);
      && ValidFrom(h, start, records[..k])
      && (k < |records| ==> !Linked(h, HashAfter(start, records, k), records[k]))
      && (k == |records| <==> ValidFrom(h, start, records))
    decreases |records|
  {
    var k := FirstBreak(h, start, records);
    if records != [] {
      if Linked(h, start, records[0]) {
        var head, rest := records[..1], records[1..];
        FirstBreakExact(h, records[0].currentHash, rest);
        assert records[..k] == head + rest[..k - 1] && records == head + rest;
        ValidConcat(h, start, head, rest[..k - 1]);
        ValidConcat(h, start, head, rest);
        assert k < |records| ==> HashAfter(start, records, k) == HashAfter(records[0].currentHash, rest, k - 1);
      } else {
        assert HashAfter(start, records, 0) == start;
      }
    }
  }

  /** A scan returns a result, or the comparison of two hashes raises. */
  datatype Scan<+T> = Returned(result: T) | Raised

  /** Comparing the hashes of a record after an ASCII hash raises: the previous hash is not
      ASCII, or it is the right one and the current hash, read next, is not ASCII. */
  predicate Raises(prev: string, e: AuditEvent) {
    !IsAscii(e.prevHash) || (e.prevHash == prev && !IsAscii(e.currentHash))
  }

  /** The result for one partition when no comparison raises, in terms of its first break. */
  function SingleResult(h: Hasher, records: seq<AuditEvent>): VerifyResult {
    var k := FirstBreak(h, ZERO_HASH, records);
    var last := HashAfter(ZERO_HASH, records, k);
    if k == |records| then VerifyResult(true, "Audit chain verified successfully", k, last, None)
    else if records[k].prevHash != last then
      VerifyResult(false, "Previous hash mismatch detected in audit chain", k, last, records[k].id)
    else
      VerifyResult(false, "Current hash mismatch detected in audit chain", k, last, records[k].id)
  }

  /** The scan of one partition raises exactly when comparing the first break does. */
  function SingleOutcome(h: Hasher, records: seq<AuditEvent>): Scan<VerifyResult> {
    var k := FirstBreak(h, ZERO_HASH, records);
    if k < |records| && Raises(HashAfter(ZERO_HASH, records, k), records[k]) then Raised
    else Returned(SingleResult(h, records))
  }

  /** A partition whose first record has a previous hash beyond ASCII makes the scan raise. */
  lemma NonAsciiRaises(h: Hasher, records: seq<AuditEvent>)
    requires records != [] && records[0].prevHash == "\U{E9}"
    ensures SingleOutcome(h, records) == Raised
  {
    ZerosAscii(64);
    assert !IsAscii(records[0].prevHash) by {
      assert records[0].prevHash[0] as int == 0xE9;
    }
    assert !Linked(h, ZERO_HASH, records[0]);
  }

  lemma {:induction false} FirstBreakAt(h: Hasher, start: string, records: seq<AuditEvent>, k: nat)
    requires k <= |records| && ValidFrom(h, start, records[..k])
    requires k < |records| ==> !Linked(h, HashAfter(start, records, k), records[k])
    ensures FirstBreak(h, start, records) == k
    decreases k
  {
    if k > 0 {
      assert Linked(h, HashAfter(start, records[..k], 0), records[..k][0]);
      var rest := records[1..];
      assert records[..k] == records[..1] + rest[..k - 1];
      ValidConcat(h, start, records[..1], rest[..k - 1]);
      assert k < |records| ==> HashAfter(start, records, k) == HashAfter(records[0].currentHash, rest, k - 1);
      FirstBreakAt(h, records[0].currentHash, rest, k - 1);
    }
  }

  method VerifySingleChain(h: Hasher, records: seq<AuditEvent>) returns (outcome: Scan<VerifyResult>)
    requires AsciiHasher(h)
    ensures outcome == SingleOutcome(h, records)
    ensures outcome.Returned? && outcome.result.valid <==> ChainValid(h, records)
    ensures outcome.Returned? && outcome.result.valid ==> outcome.result.checkedRows == |records|
  {
    FirstBreakExact(h, ZERO_HASH, records);
    ZerosAscii(64);
    var previousHash := ZERO_HASH;
    for index := 0 to |records|
      invariant previousHash == HashAfter(ZERO_HASH, records, index) && IsAscii(previousHash)
      invariant ValidFrom(h, ZERO_HASH, records[..index])
    {
      var record := records[index];
      var samePrevious := ConstantTimeEqual(record.prevHash, previousHash);
      if samePrevious != Some(true) {
        FirstBreakAt(h, ZERO_HASH, records, index);
        return if samePrevious.None? then Raised
          else Returned(VerifyResult(false, "Previous hash mismatch detected in audit chain", index, previousHash, record.id));
      }
      var expectedHash := h(record.prevHash, record);
      var sameCurrent := ConstantTimeEqual(record.currentHash, expectedHash);
      if sameCurrent != Some(true) {
        FirstBreakAt(h, ZERO_HASH, records, index);
        return if sameCurrent.None? then Raised
          else Returned(VerifyResult(false, "Current hash mismatch detected in audit chain", index, previousHash, record.id));
      }
      assert records[..index + 1] == records[..index] + [record];
      ValidAppend(h, ZERO_HASH, records[..index], record);
      previousHash := record.currentHash;
    }
    assert records[..|records|] == records;
    FirstBreakAt(h, ZERO_HASH, records, |records|);
    return Returned(VerifyResult(true, "Audit chain verified successfully", |records|, previousHash, None));
  }

  /** A chain with the record at k replaced. */
  function Replaced(records: seq<AuditEvent>, k: nat, e: AuditEvent): (t: seq<AuditEvent>)
    requires k < |records|
    ensures |t| == |records| && t[..k] == records[..k] && t[k] == e && t[k + 1..] == records[k + 1..]
  {
    records[..k] + [e] + records[k + 1..]
  }

  lemma ReplacedPrefix(h: Hasher, records: seq<AuditEvent>, k: nat, e: AuditEvent)
    requires k < |records| && ChainValid(h, records)
    ensures var t := Replaced(records, k, e);
      && ValidFrom(h, ZERO_HASH, t[..k]) && HashAfter(ZERO_HASH, t, k) == HashAfter(ZERO_HASH, records, k)
  {
    ValidPrefix(h, ZERO_HASH, records, k);
  }

  /** One record of a valid chain replaced by any other: a wrong previous hash, or a current hash
      that is not the record's own, is reported there; text beyond ASCII raises. */
  lemma ReplacedRecord(h: Hasher, records: seq<AuditEvent>, k: nat, e: AuditEvent)
    requires k < |records| && ChainValid(h, records)
    ensures var prev, outcome := HashAfter(ZERO_HASH, records, k), SingleOutcome(h, Replaced(records, k, e));
      && (!IsAscii(e.prevHash) && e.prevHash != prev ==> outcome == Raised)
      && (IsAscii(e.prevHash) && e.prevHash != prev ==>
            outcome == Returned(VerifyResult(false, "Previous hash mismatch detected in audit chain", k, prev, e.id)))
      && (IsAscii(e.prevHash) && e.prevHash == prev && !IsAscii(e.currentHash) && e.currentHash != h(prev, e) ==> outcome == Raised)
      && (IsAscii(e.prevHash) && e.prevHash == prev && IsAscii(e.currentHash) && e.currentHash != h(prev, e) ==>
            outcome == Returned(VerifyResult(false, "Current hash mismatch detected in audit chain", k, prev, e.id)))
  {
    var t := Replaced(records, k, e);
    ReplacedPrefix(h, records, k, e);
    if !Linked(h, HashAfter(ZERO_HASH, t, k), t[k]) {
      FirstBreakAt(h, ZERO_HASH, t, k);
    }
  }

  /** A replaced record that links is noticed at its successor, unless it has the same current
      hash; at the end of the chain, and with the same hash, the chain is valid. */
  lemma RelinkedRecord(h: Hasher, records: seq<AuditEvent>, k: nat, e: AuditEvent)
    requires k < |records| && ChainValid(h, records) && AsciiHasher(h) && Linked(h, HashAfter(ZERO_HASH, records, k), e)
    ensures var last, outcome := |records| - 1, SingleOutcome(h, Replaced(records, k, e));
      if k == last || e.currentHash == records[k].currentHash
      then outcome == Returned(VerifyResult(true, "Audit chain verified successfully", |records|, if k == last then e.currentHash else records[last].currentHash, None))
      else outcome == Returned(VerifyResult(false, "Previous hash mismatch detected in audit chain", k + 1, e.currentHash, records[k + 1].id))
  {
    var t := Replaced(records, k, e);
    ReplacedPrefix(h, records, k, e);
    assert t[..k + 1] == t[..k] + [e];
    ValidAppend(h, ZERO_HASH, t[..k], e);
    if k == |records| - 1 {
      assert t[..|t|] == t[..k + 1];
      FirstBreakAt(h, ZERO_HASH, t, |t|);
    } else if e.currentHash == records[k].currentHash {
      SameHashStaysValid(h, records, k, e);
      assert t[..|t|] == t;
      FirstBreakAt(h, ZERO_HASH, t, |t|);
    } else {
      assert HashAfter(ZERO_HASH, records, k + 1) == records[k].currentHash;
      assert Linked(h, records[k].currentHash, records[k + 1]) && records[k + 1] == t[k + 1];
      LinkedHashIsAscii(h, records, k);
      FirstBreakAt(h, ZERO_HASH, t, k + 1);
    }
  }

  lemma LinkedHashIsAscii(h: Hasher, records: seq<AuditEvent>, k: nat)
    requires k < |records| && ChainValid(h, records) && AsciiHasher(h)
    ensures IsAscii(records[k].currentHash)
  {
    assert Linked(h, HashAfter(ZERO_HASH, records, k), records[k]);
  }

  lemma SameHashStaysValid(h: Hasher, records: seq<AuditEvent>, k: nat, e: AuditEvent)
    requires k < |records| && ChainValid(h, records)
    requires Linked(h, HashAfter(ZERO_HASH, records, k), e) && e.currentHash == records[k].currentHash
    ensures ChainValid(h, Replaced(records, k, e))
  {
    var t := Replaced(records, k, e);
    forall i {:trigger HashAfter(ZERO_HASH, t, i)} | 0 <= i < |t| ensures Linked(h, HashAfter(ZERO_HASH, t, i), t[i]) {
      assert Linked(h, HashAfter(ZERO_HASH, records, i), records[i]);
      assert HashAfter(ZERO_HASH, t, i) == HashAfter(ZERO_HASH, records, i);
    }
  }

  // ------------------------------------------------------------- all partitions

  /** The records of one partition, in input order. */
  function Select(records: seq<AuditEvent>, cid: int): (r: seq<AuditEvent>)
    ensures |r| <= |records|
    ensures forall i :: 0 <= i < |r| ==> r[i].chainId == cid && r[i] in records
  {
    if records == [] then []
    else
      var rest := Select(records[..|records| - 1], cid);
      var last := records[|records| - 1];
      if last.chainId == cid then rest + [last] else rest
  }

  function ChainIds(records: seq<AuditEvent>): set<int> {
    set r | r in records :: r.chainId
  }

  function CountIn(records: seq<AuditEvent>, cids: set<int>): nat {
    if records == [] then 0
    else CountIn(records[..|records| - 1], cids) + if records[|records| - 1].chainId in cids then 1 else 0
  }

  lemma {:induction false} CountInAdd(records: seq<AuditEvent>, cids: set<int>, c: int)
    requires c !in cids
    ensures CountIn(records, cids + {c}) == CountIn(records, cids) + |Select(records, c)|
  {
    if records != [] {
      CountInAdd(records[..|records| - 1], cids, c);
    }
  }

  lemma {:induction false} CountInAll(records: seq<AuditEvent>, cids: set<int>)
    requires ChainIds(records) <= cids
    ensures CountIn(records, cids) == |records|
  {
    if records != [] {
      var front := records[..|records| - 1];
      assert ChainIds(front) <= ChainIds(records);
      assert records[|records| - 1].chainId in ChainIds(records);
      CountInAll(front, cids);
    }
  }

  lemma {:induction false} CountInNone(records: seq<AuditEvent>)
    ensures CountIn(records, {}) == 0
  {
    if records != [] {
      CountInNone(records[..|records| - 1]);
    }
  }

  lemma {:induction false} SelectAbsent(records: seq<AuditEvent>, c: int)
    requires c !in ChainIds(records)
    ensures Select(records, c) == []
  {
    if records != [] {
      var front := records[..|records| - 1];
      assert ChainIds(front) <= ChainIds(records);
      assert records[|records| - 1].chainId in ChainIds(records);
      SelectAbsent(front, c);
    }
  }

  predicate IntLess(a: int, b: int) {
    a < b
  }

  ghost predicate AllChainsValid(h: Hasher, records: seq<AuditEvent>) {
    forall c: int :: ChainValid(h, Select(records, c))
  }

  /** c is the lowest-numbered partition that does not verify. */
  ghost predicate FirstBadChain(h: Hasher, records: seq<AuditEvent>, c: int) {
    && !ChainValid(h, Select(records, c))
    && forall d :: d < c ==> ChainValid(h, Select(records, d))
  }

  function AllVerified(n: nat): string {
    "All " + NatText(n) + " audit chain partition(s) verified successfully"
  }

  /** `verify_audit_chain`: valid exactly when every partition is, and otherwise the outcome of
      the lowest-numbered partition that is not: its result, or the exception of its scan. */
  method VerifyAuditChain(h: Hasher, records: seq<AuditEvent>) returns (outcome: Scan<VerifyResult>)
    requires AsciiHasher(h)
    ensures outcome.Returned? && outcome.result.valid <==> AllChainsValid(h, records)
    ensures !AllChainsValid(h, records) ==> exists c: int :: FirstBadChain(h, records, c) && outcome == SingleOutcome(h, Select(records, c))
    ensures AllChainsValid(h, records) ==>
      var r := outcome.result;
      && r.checkedRows == |records| && r.brokenId == None && r.lastHash == HashAfter(ZERO_HASH, records, |records|)
      && r.reason == if records == [] then "Audit chain is empty" else AllVerified(|ChainIds(records)|)
  {
    if records == [] {
      return Returned(VerifyResult(true, "Audit chain is empty", 0, ZERO_HASH, None));
    }
    var chains := GroupByChain(records);
    var cids := Sorted(chains.Keys, IntLess);
    var bad, totalChecked := VerifyInOrder(h, records, chains, cids);
    if bad.Some? {
      return bad.value;
    }
    AllSelected(h, records, cids);
    return Returned(VerifyResult(true, AllVerified(|chains|), totalChecked, records[|records| - 1].currentHash, None));
  }

  lemma AllSelected(h: Hasher, records: seq<AuditEvent>, cids: seq<int>)
    requires forall c :: c in cids <==> c in ChainIds(records)
    requires forall k :: 0 <= k < |cids| ==> ChainValid(h, Select(records, cids[k]))
    ensures AllChainsValid(h, records)
  {
    forall c: int ensures ChainValid(h, Select(records, c)) {
      if c in cids {
        var k :| 0 <= k < |cids| && cids[k] == c;
      } else {
        SelectAbsent(records, c);
      }
    }
  }

  function Taken(cids: seq<int>, i: nat): set<int>
    requires i <= |cids|
  {
    set c | c in cids[..i]
  }

  lemma CountNext(records: seq<AuditEvent>, cids: seq<int>, i: nat)
    requires Increasing(cids, IntLess) && i < |cids|
    ensures CountIn(records, Taken(cids, i + 1)) == CountIn(records, Taken(cids, i)) + |Select(records, cids[i])|
  {
    assert cids[..i + 1] == cids[..i] + [cids[i]];
    assert Taken(cids, i + 1) == Taken(cids, i) + {cids[i]};
    CountInAdd(records, Taken(cids, i), cids[i]);
  }

  lemma CountEnds(records: seq<AuditEvent>, cids: seq<int>)
    requires forall c :: c in cids <==> c in ChainIds(records)
    ensures CountIn(records, Taken(cids, 0)) == 0 && CountIn(records, Taken(cids, |cids|)) == |records|
  {
    assert Taken(cids, 0) == {} && cids[..|cids|] == cids;
    CountInNone(records);
    forall c ensures c in Taken(cids, |cids|) <==> c in ChainIds(records) {
      assert c in cids <==> c in ChainIds(records);
    }
    CountInAll(records, Taken(cids, |cids|));
  }

  /** The loop of the source over the sorted partitions. */
  method VerifyInOrder(h: Hasher, records: seq<AuditEvent>, chains: map<int, seq<AuditEvent>>, cids: seq<int>)
    returns (bad: Option<Scan<VerifyResult>>, totalChecked: nat)
    requires AsciiHasher(h)
    requires Increasing(cids, IntLess) && forall c :: c in cids <==> c in ChainIds(records)
    requires chains.Keys == ChainIds(records) && forall c :: c in chains ==> chains[c] == Select(records, c)
    ensures bad.None? ==> totalChecked == |records| && forall k :: 0 <= k < |cids| ==> ChainValid(h, Select(records, cids[k]))
    ensures bad.Some? ==> !(bad.value.Returned? && bad.value.result.valid)
    ensures bad.Some? ==> exists c: int :: FirstBadChain(h, records, c) && bad.value == SingleOutcome(h, Select(records, c))
  {
    totalChecked := 0;
    CountEnds(records, cids);
    for i := 0 to |cids|
      invariant forall k :: 0 <= k < i ==> ChainValid(h, Select(records, cids[k]))
      invariant totalChecked == CountIn(records, Taken(cids, i))
    {
      var cid := cids[i];
      var r := VerifySingleChain(h, chains[cid]);
      if r.Raised? || !r.result.valid {
        LowerChainsValid(h, records, cids, i);
        return Some(r), totalChecked;
      }
      CountNext(records, cids, i);
      totalChecked := totalChecked + r.result.checkedRows;
    }
    bad := None;
  }

  lemma LowerChainsValid(h: Hasher, records: seq<AuditEvent>, cids: seq<int>, i: nat)
    requires i < |cids| && Increasing(cids, IntLess) && (forall c :: c in cids <==> c in ChainIds(records))
    requires forall k :: 0 <= k < i ==> ChainValid(h, Select(records, cids[k]))
    requires !ChainValid(h, Select(records, cids[i]))
    ensures FirstBadChain(h, records, cids[i])
  {
    forall d | d < cids[i] ensures ChainValid(h, Select(records, d)) {
      if d in cids {
        var k :| 0 <= k < |cids| && cids[k] == d;
        assert k < i || k == i || IntLess(cids[i], d);
      } else {
        SelectAbsent(records, d);
      }
    }
  }

  /** The dictionary of per-partition lists the source builds while scanning the records. */
  method GroupByChain(records: seq<AuditEvent>) returns (chains: map<int, seq<AuditEvent>>)
    ensures chains.Keys == ChainIds(records)
    ensures forall c :: c in chains ==> chains[c] == Select(records, c)
  {
    chains := map[];
    for i := 0 to |records|
      invariant chains.Keys == ChainIds(records[..i])
      invariant forall c :: c in chains ==> chains[c] == Select(records[..i], c)
    {
      var record := records[i];
      var cid := record.chainId;
      var front, next := records[..i], records[..i + 1];
      assert next[..i] == front && next[i] == record;
      if cid !in chains {
        SelectAbsent(front, cid);
        chains := chains[cid := []];
      }
      chains := chains[cid := chains[cid] + [record]];
      assert ChainIds(next) == ChainIds(front) + {cid};
    }
    assert records[..|records|] == records;
  }

  // ------------------------------------------------------------------- binding

  /** Equality in everything the chain hashes cover. */
  predicate SameHashed(a: AuditEvent, b: AuditEvent) {
    && a.prevHash == b.prevHash && a.currentHash == b.currentHash
    && a.eventType == b.eventType && a.referenceId == b.referenceId
    && a.payload == b.payload && a.createdAt == b.createdAt
  }

  lemma PayloadInjective(a: AuditEvent, b: AuditEvent)
    requires HashPayload(a) == HashPayload(b)
    ensures a.eventType == b.eventType && a.referenceId == b.referenceId
    ensures a.payload == b.payload && a.createdAt == b.createdAt
  {
    var f, g := HashPayload(a).fields, HashPayload(b).fields;
    assert f["event_type"] == g["event_type"];
    assert f["reference_id"] == g["reference_id"];
    assert f["event_payload"] == g["event_payload"];
    assert f["created_at"] == g["created_at"];
  }

  predicate Collide(h: Hasher, p: string, a: AuditEvent, q: string, b: AuditEvent) {
    |p| == 64 && |q| == 64 && h(p, a) == h(q, b)
  }

  predicate SameInputs(p: string, a: AuditEvent, q: string, b: AuditEvent) {
    && p == q && a.eventType == b.eventType && a.referenceId == b.referenceId
    && a.payload == b.payload && a.createdAt == b.createdAt
  }

  /** Hashes have 64 characters, and equal hashes of a record of a and one of b come from equal
      previous hashes and equal hashed fields, if the previous hashes have 64 characters. */
  ghost predicate Binding(h: Hasher, a: seq<AuditEvent>, b: seq<AuditEvent>) {
    && (forall p, e :: |h(p, e)| == 64)
    && forall x, y :: x in a && y in b && Collide(h, x.prevHash, x, y.prevHash, y) ==> SameInputs(x.prevHash, x, y.prevHash, y)
  }

  /** The text that is hashed for a record. */
  function HashedText(e: AuditEvent): string {
    e.prevHash + Canonical(HashPayload(e))
  }

  lemma HashedTextBinds(x: AuditEvent, y: AuditEvent)
    requires |x.prevHash| == |y.prevHash| && HashedText(x) == HashedText(y)
    ensures x.prevHash == y.prevHash && HashPayload(x) == HashPayload(y)
  {
    CutFront(x.prevHash, y.prevHash, Canonical(HashPayload(x)), Canonical(HashPayload(y)));
    UniquelyDecodable(HashPayload(x), HashPayload(y));
  }

  /** The source's record hash is binding for two chains if no two of their texts collide: the
      concatenation splits at 64 and canonical texts are uniquely decodable. */
  lemma AuditHasherBinds(sha: Sha, a: seq<AuditEvent>, b: seq<AuditEvent>)
    requires Digest64(sha) && forall x, y :: x in a && y in b ==> Separates(sha, HashedText(x), HashedText(y))
    ensures Binding(AuditHasher(sha), a, b)
  {
    var h := AuditHasher(sha);
    forall p, e ensures |h(p, e)| == 64 {}
    forall x, y | x in a && y in b && Collide(h, x.prevHash, x, y.prevHash, y)
      ensures SameInputs(x.prevHash, x, y.prevHash, y)
    {
      assert Separates(sha, HashedText(x), HashedText(y));
      HashedTextBinds(x, y);
      PayloadInjective(x, y);
    }
  }

  lemma ValidPrefix(h: Hasher, start: string, records: seq<AuditEvent>, k: nat)
    requires ValidFrom(h, start, records) && k <= |records|
    ensures ValidFrom(h, start, records[..k])
    ensures HashAfter(start, records[..k], k) == HashAfter(start, records, k)
  {
    assert records == records[..k] + records[k..];
    ValidConcat(h, start, records[..k], records[k..]);
  }

  lemma LastLink(h: Hasher, start: string, records: seq<AuditEvent>)
    requires (forall p, e :: |h(p, e)| == 64) && |start| == 64 && ValidFrom(h, start, records) && records != []
    ensures var k := |records| - 1;
      Linked(h, HashAfter(start, records, k), records[k]) && |records[k].prevHash| == 64
  {
    var k := |records| - 1;
    assert Linked(h, HashAfter(start, records, k), records[k]);
    if k > 0 {
      assert Linked(h, HashAfter(start, records, k - 1), records[k - 1]);
    }
  }

  lemma BindingPrefix(h: Hasher, a: seq<AuditEvent>, b: seq<AuditEvent>)
    requires Binding(h, a, b) && a != [] && b != []
    ensures Binding(h, a[..|a| - 1], b[..|b| - 1])
  {}

  /** Peeling the last records off two accepted chains that end in the same hash. */
  lemma PeelLast(h: Hasher, start: string, a: seq<AuditEvent>, b: seq<AuditEvent>)
    requires Binding(h, a, b) && |start| == 64 && ValidFrom(h, start, a) && ValidFrom(h, start, b)
    requires a != [] && b != [] && HashAfter(start, a, |a|) == HashAfter(start, b, |b|)
    ensures SameHashed(a[|a| - 1], b[|b| - 1])
    ensures ValidFrom(h, start, a[..|a| - 1]) && ValidFrom(h, start, b[..|b| - 1])
    ensures HashAfter(start, a[..|a| - 1], |a| - 1) == HashAfter(start, b[..|b| - 1], |b| - 1)
  {
    var m, n := |a| - 1, |b| - 1;
    var x, y := a[m], b[n];
    LastLink(h, start, a);
    LastLink(h, start, b);
    assert x in a && y in b && Collide(h, x.prevHash, x, y.prevHash, y);
    assert SameInputs(x.prevHash, x, y.prevHash, y);
    ValidPrefix(h, start, a, m);
    ValidPrefix(h, start, b, n);
  }

  ghost predicate SameChain(a: seq<AuditEvent>, b: seq<AuditEvent>) {
    |a| == |b| && forall i :: 0 <= i < |a| ==> SameHashed(a[i], b[i])
  }

  /** Some record of the chain hashes to the starting hash. */
  ghost predicate ReturnsTo(start: string, a: seq<AuditEvent>) {
    exists e :: e in a && e.currentHash == start
  }

  lemma SameChainNext(a: seq<AuditEvent>, b: seq<AuditEvent>)
    requires |a| == |b| > 0 && SameChain(a[..|a| - 1], b[..|b| - 1]) && SameHashed(a[|a| - 1], b[|b| - 1])
    ensures SameChain(a, b)
  {
    var m := |a| - 1;
    forall i | 0 <= i < |a| ensures SameHashed(a[i], b[i]) {
      if i < m {
        assert SameHashed(a[..m][i], b[..m][i]);
      }
    }
  }

  lemma ReturnsToPrefix(start: string, a: seq<AuditEvent>)
    requires a != [] && ReturnsTo(start, a[..|a| - 1])
    ensures ReturnsTo(start, a)
  {
    var e :| e in a[..|a| - 1] && e.currentHash == start;
    assert e in a;
  }

  /** Two accepted chains of equal length with the same last hash agree at every position in
      every hashed field, the previous and current hashes included. */
  lemma {:induction false} ChainBinds(h: Hasher, start: string, a: seq<AuditEvent>, b: seq<AuditEvent>)
    requires Binding(h, a, b) && |start| == 64 && ValidFrom(h, start, a) && ValidFrom(h, start, b)
    requires HashAfter(start, a, |a|) == HashAfter(start, b, |b|) && |a| == |b|
    ensures SameChain(a, b)
    decreases |a|
  {
    if a != [] {
      PeelLast(h, start, a, b);
      BindingPrefix(h, a, b);
      ChainBinds(h, start, a[..|a| - 1], b[..|b| - 1]);
      SameChainNext(a, b);
    }
  }

  /** Accepted chains of different lengths have the same last hash only if a record of the longer
      one hashes to the starting hash. */
  lemma {:induction false} LengthBinds(h: Hasher, start: string, a: seq<AuditEvent>, b: seq<AuditEvent>)
    requires Binding(h, a, b) && |start| == 64 && ValidFrom(h, start, a) && ValidFrom(h, start, b)
    requires HashAfter(start, a, |a|) == HashAfter(start, b, |b|) && |a| > |b|
    ensures ReturnsTo(start, a)
    decreases |b|
  {
    if b == [] {
      assert a[|a| - 1] in a;
    } else {
      PeelLast(h, start, a, b);
      BindingPrefix(h, a, b);
      LengthBinds(h, start, a[..|a| - 1], b[..|b| - 1]);
      ReturnsToPrefix(start, a);
    }
  }
}
