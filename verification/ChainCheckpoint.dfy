/** Checkpointed verification of one partition (core/chain_checkpoint.py) and when it gives
    the answer of full verification. */
module ChainCheckpoint {
  import opened Common
  import opened Text
  import opened VrlHashing
  import opened AuditChain

  datatype Checkpoint = Checkpoint(
    chainId: int, segmentIndex: nat, lastRecordId: Option<int>, lastCurrentHash: string,
    checkpointHash: string, recordCount: nat)

  /** The checkpoint hash as a function of partition, segment, last id and last hash. */
  type CheckpointHasher = (int, nat, Option<int>, string) -> string

  function IdText(id: Option<int>): string {
    if id.Some? then IntText(id.value) else "None"
  }

  function CheckpointText(chainId: int, segment: nat, id: Option<int>, hash: string): string {
    "checkpoint:" + (IntText(chainId) + (":" + (IntText(segment) + (":" + (IdText(id) + (":" + hash))))))
  }

  /** `compute_checkpoint_hash`. */
  function CheckpointHasherOf(sha: Sha): CheckpointHasher {
    (chainId: int, segment: nat, id: Option<int>, hash: string) => sha(CheckpointText(chainId, segment, id, hash))
  }

  lemma IdTextDecodes(a: Option<int>, b: Option<int>, s: string, t: string)
    requires NotDigitNext(s) && NotDigitNext(t) && IdText(a) + s == IdText(b) + t
    ensures a == b && s == t
  {
    if a.Some? { IntTextSign(a.value); }
    if b.Some? { IntTextSign(b.value); }
    assert (IdText(a) + s)[0] == IdText(a)[0] && (IdText(b) + t)[0] == IdText(b)[0];
    if a.Some? && b.Some? {
      IntTextDecodes(a.value, b.value, s, t);
    } else {
      CutFront(IdText(a), IdText(b), s, t);
    }
  }

  /** The text under a checkpoint hash determines partition, segment, record id and hash. */
  lemma CheckpointTextDecodes(c: int, d: int, i: nat, j: nat, a: Option<int>, b: Option<int>, x: string, y: string)
    requires CheckpointText(c, i, a, x) == CheckpointText(d, j, b, y)
    ensures c == d && i == j && a == b && x == y
  {
    var r, t := ":" + (IdText(a) + (":" + x)), ":" + (IdText(b) + (":" + y));
    var q, s := ":" + (IntText(i) + r), ":" + (IntText(j) + t);
    CutFront("checkpoint:", "checkpoint:", IntText(c) + q, IntText(d) + s);
    IntTextDecodes(c, d, q, s);
    CutFront(":", ":", IntText(i) + r, IntText(j) + t);
    IntTextDecodes(i, j, r, t);
    CutFront(":", ":", IdText(a) + (":" + x), IdText(b) + (":" + y));
    IdTextDecodes(a, b, ":" + x, ":" + y);
    CutFront(":", ":", x, y);
  }

  /** Two texts in full, with and without a record id. */
  lemma CheckpointTextReads(x: string)
    ensures CheckpointText(5, 2, Some(7), x) == "checkpoint:5:2:7:" + x
    ensures CheckpointText(5, 2, None, x) == "checkpoint:5:2:None:" + x
  {
    assert NatText(5) == "5" && NatText(2) == "2" && NatText(7) == "7";
  }

  /** A checkpoint hash that is accepted for one segment is accepted for no other partition or
      segment and for no other last record, unless the two texts collide. */
  lemma CheckpointBinds(sha: Sha, c: int, d: int, i: nat, j: nat, a: Checkpoint, b: Checkpoint)
    requires var g := CheckpointHasherOf(sha); SelfConsistent(g, c, i, a) && SelfConsistent(g, d, j, b)
    requires a.checkpointHash == b.checkpointHash
    requires Separates(sha, CheckpointText(c, i, a.lastRecordId, a.lastCurrentHash), CheckpointText(d, j, b.lastRecordId, b.lastCurrentHash))
    ensures c == d && i == j && a.lastRecordId == b.lastRecordId && a.lastCurrentHash == b.lastCurrentHash
  {
    CheckpointTextDecodes(c, d, i, j, a.lastRecordId, b.lastRecordId, a.lastCurrentHash, b.lastCurrentHash);
  }

  /** Checkpoint hashes are ASCII text, as hexadecimal digests are. */
  ghost predicate AsciiCheckpointHasher(g: CheckpointHasher) {
    forall c, i, a, x :: IsAscii(g(c, i, a, x))
  }

  lemma CheckpointHasherIsAscii(sha: Sha)
    requires AsciiDigest(sha)
    ensures AsciiCheckpointHasher(CheckpointHasherOf(sha))
  {
    forall c: int, i: nat, a: Option<int>, x: string ensures IsAscii(CheckpointHasherOf(sha)(c, i, a, x)) {
      assert CheckpointHasherOf(sha)(c, i, a, x) == sha(CheckpointText(c, i, a, x));
    }
  }

  function CheckpointFor(g: CheckpointHasher, chainId: int, seg: nat, segment: seq<AuditEvent>): Checkpoint
    requires segment != []
  {
    var last := segment[|segment| - 1];
    Checkpoint(chainId, seg, last.id, last.currentHash, g(chainId, seg, last.id, last.currentHash), |segment|)
  }

  /** The stored hash is the hash of the stored id and record hash. */
  predicate SelfConsistent(g: CheckpointHasher, chainId: int, seg: nat, cp: Checkpoint) {
    cp.checkpointHash == g(chainId, seg, cp.lastRecordId, cp.lastCurrentHash)
  }

  // --------------------------------------------------------------------- builder

  /** One checkpoint per complete segment, numbered from seg. */
  function Built(g: CheckpointHasher, chainId: int, interval: nat, rest: seq<AuditEvent>, seg: nat): seq<Checkpoint>
    requires 0 < interval
    decreases |rest|
  {
    if |rest| < interval then []
    else [CheckpointFor(g, chainId, seg, rest[..interval])] + Built(g, chainId, interval, rest[interval..], seg + 1)
  }

  lemma SegmentBounds(n: nat, complete: nat, length: nat, seg: nat)
    requires complete * n <= length && seg < complete
    ensures seg * n + n == (seg + 1) * n <= length
  {
    assert (seg + 1) * n <= complete * n;
  }

  /** One more checkpoint, lo records and seg segments into the input. */
  lemma BuiltNext(g: CheckpointHasher, chainId: int, interval: nat, records: seq<AuditEvent>, seg: nat, lo: nat, hi: nat)
    requires 0 < interval && lo + interval == hi <= |records|
    ensures Built(g, chainId, interval, records[lo..], seg)
            == [CheckpointFor(g, chainId, seg, records[lo..hi])] + Built(g, chainId, interval, records[hi..], seg + 1)
  {
    assert records[lo..][..interval] == records[lo..hi] && records[lo..][interval..] == records[hi..];
  }

  lemma NoMoreSegments(n: nat, interval: nat)
    requires 0 < interval
    ensures (n / interval) * interval <= n < (n / interval) * interval + interval
  {}

  method BuildCheckpointsForChain(g: CheckpointHasher, chainId: int, records: seq<AuditEvent>, interval: nat) returns (checkpoints: seq<Checkpoint>)
    requires 0 < interval
    ensures checkpoints == Built(g, chainId, interval, records, 0)
  {
    checkpoints := [];
    var nComplete := |records| / interval;
    NoMoreSegments(|records|, interval);
    ghost var all := Built(g, chainId, interval, records, 0);
    assert records[0..] == records;
    for seg := 0 to nComplete
      invariant seg * interval <= |records|
      invariant checkpoints + Built(g, chainId, interval, records[seg * interval..], seg) == all
    {
      SegmentBounds(interval, nComplete, |records|, seg);
      var lo, hi := seg * interval, (seg + 1) * interval;
      var segs := records[lo..hi];
      var last := segs[|segs| - 1];
      var cpHash := g(chainId, seg, last.id, last.currentHash);
      BuiltNext(g, chainId, interval, records, seg, lo, hi);
      checkpoints := checkpoints + [Checkpoint(chainId, seg, last.id, last.currentHash, cpHash, |segs|)];
    }
  }

  lemma {:induction false} BuiltAt(g: CheckpointHasher, chainId: int, interval: nat, rest: seq<AuditEvent>, seg: nat, cp: Checkpoint)
    requires 0 < interval && cp in Built(g, chainId, interval, rest, seg)
    ensures cp.segmentIndex >= seg && SelfConsistent(g, chainId, cp.segmentIndex, cp)
    ensures cp.segmentIndex > seg ==> cp in Built(g, chainId, interval, rest[interval..], seg + 1)
    ensures cp.segmentIndex == seg ==> cp == CheckpointFor(g, chainId, seg, rest[..interval])
    decreases |rest|
  {
    if cp != CheckpointFor(g, chainId, seg, rest[..interval]) {
      assert cp in Built(g, chainId, interval, rest[interval..], seg + 1);
      BuiltAt(g, chainId, interval, rest[interval..], seg + 1, cp);
    }
  }

  // -------------------------------------------------------------------- verifiers

  datatype SegmentResult = SegmentResult(
    valid: bool, reason: string, chainId: int, segmentIndex: nat, checkedRows: nat, brokenId: Option<int>)

  /** The outcome for one segment: its first broken link, or else the boundary hash; it raises
      where one of these comparisons does. The hash before the segment may come from a stored
      checkpoint, so it need not be ASCII. */
  function SegmentOutcome(h: Hasher, g: CheckpointHasher, chainId: int, seg: nat, records: seq<AuditEvent>, prev: string, expected: Option<Checkpoint>): (o: Scan<SegmentResult>)
    ensures o.Returned? && o.result.valid ==> FirstBreak(h, prev, records) == |records|
  {
    var k := FirstBreak(h, prev, records);
    if records != [] && !IsAscii(prev) then Raised
    else if k < |records| then
      if Raises(HashAfter(prev, records, k), records[k]) then Raised
      else
        var reason := if records[k].prevHash != HashAfter(prev, records, k)
          then "Previous hash mismatch in segment" else "Current hash mismatch in segment";
        Returned(SegmentResult(false, reason, chainId, seg, k, records[k].id))
    else if expected.Some? && records != [] && !IsAscii(expected.value.checkpointHash) then Raised
    else if expected.Some? && records != []
            && CheckpointFor(g, chainId, seg, records).checkpointHash != expected.value.checkpointHash then
      Returned(SegmentResult(false, "Checkpoint hash mismatch at segment boundary", chainId, seg, |records|, records[|records| - 1].id))
    else
      Returned(SegmentResult(true, "Segment verified", chainId, seg, |records|, None))
  }

  method VerifySegment(h: Hasher, g: CheckpointHasher, chainId: int, seg: nat, records: seq<AuditEvent>, prevHash: string, expected: Option<Checkpoint>) returns (outcome: Scan<SegmentResult>)
    requires AsciiHasher(h) && AsciiCheckpointHasher(g)
    ensures outcome == SegmentOutcome(h, g, chainId, seg, records, prevHash, expected)
  {
    var currentHash := prevHash;
    for index := 0 to |records|
      invariant currentHash == HashAfter(prevHash, records, index)
      invariant index > 0 ==> IsAscii(prevHash) && IsAscii(currentHash)
      invariant ValidFrom(h, prevHash, records[..index])
    {
      var record := records[index];
      var samePrevious := ConstantTimeEqual(record.prevHash, currentHash);
      if samePrevious.None? && !IsAscii(prevHash) {
        return Raised;
      }
      if samePrevious != Some(true) {
        FirstBreakAt(h, prevHash, records, index);
        return if samePrevious.None? then Raised
          else Returned(SegmentResult(false, "Previous hash mismatch in segment", chainId, seg, index, record.id));
      }
      var sameCurrent := ConstantTimeEqual(record.currentHash, h(record.prevHash, record));
      if sameCurrent != Some(true) {
        FirstBreakAt(h, prevHash, records, index);
        return if sameCurrent.None? then Raised
          else Returned(SegmentResult(false, "Current hash mismatch in segment", chainId, seg, index, record.id));
      }
      assert records[..index + 1] == records[..index] + [record];
      ValidAppend(h, prevHash, records[..index], record);
      currentHash := record.currentHash;
    }
    assert records[..|records|] == records;
    FirstBreakAt(h, prevHash, records, |records|);
    if expected.Some? && records != [] {
      var last := records[|records| - 1];
      var same := ConstantTimeEqual(g(chainId, seg, last.id, last.currentHash), expected.value.checkpointHash);
      if same.None? {
        return Raised;
      }
      if !same.value {
        return Returned(SegmentResult(false, "Checkpoint hash mismatch at segment boundary", chainId, seg, |records|, last.id));
      }
    }
    return Returned(SegmentResult(true, "Segment verified", chainId, seg, |records|, None));
  }

  /** The first record of a segment that does not link: the reason in words, its position and
      id, or the exception for text beyond ASCII. */
  lemma SegmentReportsBreak(h: Hasher, g: CheckpointHasher, chainId: int, seg: nat, records: seq<AuditEvent>, prev: string, expected: Option<Checkpoint>, k: nat)
    requires k < |records| && IsAscii(prev) && ValidFrom(h, prev, records[..k])
    ensures var e, before, o := records[k], HashAfter(prev, records, k), SegmentOutcome(h, g, chainId, seg, records, prev, expected);
      && (e.prevHash != before && !IsAscii(e.prevHash) ==> o == Raised)
      && (e.prevHash != before && IsAscii(e.prevHash) ==>
            o == Returned(SegmentResult(false, "Previous hash mismatch in segment", chainId, seg, k, e.id)))
      && (e.prevHash == before && IsAscii(before) && e.currentHash != h(before, e) && !IsAscii(e.currentHash) ==> o == Raised)
      && (e.prevHash == before && IsAscii(before) && e.currentHash != h(before, e) && IsAscii(e.currentHash) ==>
            o == Returned(SegmentResult(false, "Current hash mismatch in segment", chainId, seg, k, e.id)))
  {
    if !Linked(h, HashAfter(prev, records, k), records[k]) {
      FirstBreakAt(h, prev, records, k);
    }
  }

  /** A segment that links is compared with the stored checkpoint at its last record. */
  lemma SegmentReportsBoundary(h: Hasher, g: CheckpointHasher, chainId: int, seg: nat, records: seq<AuditEvent>, prev: string, expected: Option<Checkpoint>)
    requires records != [] && IsAscii(prev) && ValidFrom(h, prev, records)
    ensures var last, n, o := records[|records| - 1], |records|, SegmentOutcome(h, g, chainId, seg, records, prev, expected);
      if expected.Some? && !IsAscii(expected.value.checkpointHash) then o == Raised
      else if expected.Some? && g(chainId, seg, last.id, last.currentHash) != expected.value.checkpointHash then
        o == Returned(SegmentResult(false, "Checkpoint hash mismatch at segment boundary", chainId, seg, n, last.id))
      else o == Returned(SegmentResult(true, "Segment verified", chainId, seg, n, None))
  {
    assert records[..|records|] == records;
    FirstBreakAt(h, prev, records, |records|);
  }

  lemma SegmentAfterUnreadable(h: Hasher, g: CheckpointHasher, chainId: int, seg: nat, records: seq<AuditEvent>, prev: string, expected: Option<Checkpoint>)
    requires !IsAscii(prev)
    ensures var o := SegmentOutcome(h, g, chainId, seg, records, prev, expected);
      o == if records == [] then Returned(SegmentResult(true, "Segment verified", chainId, seg, 0, None)) else Raised
  {}

  function Lookup(cps: map<nat, Checkpoint>, seg: nat): Option<Checkpoint> {
    if seg in cps then Some(cps[seg]) else None
  }

  /** Later checkpoints replace earlier ones for the same segment. */
  function BySegment(known: seq<Checkpoint>): (m: map<nat, Checkpoint>)
    ensures forall s :: s in m ==> m[s] in known && m[s].segmentIndex == s
  {
    if known == [] then map[]
    else
      var cp := known[|known| - 1];
      BySegment(known[..|known| - 1])[cp.segmentIndex := cp]
  }

  ghost predicate LastFor(known: seq<Checkpoint>, s: nat, i: nat) {
    i < |known| && known[i].segmentIndex == s && forall j :: i < j < |known| ==> known[j].segmentIndex != s
  }

  lemma BySegmentNext(front: seq<Checkpoint>, cp: Checkpoint)
    ensures BySegment(front + [cp]) == BySegment(front)[cp.segmentIndex := cp]
  {
    assert (front + [cp])[..|front|] == front;
  }

  /** The last checkpoint given for a segment counts. */
  lemma {:induction false} LastCheckpointCounts(known: seq<Checkpoint>, s: nat, i: nat)
    requires LastFor(known, s, i)
    ensures s in BySegment(known) && BySegment(known)[s] == known[i]
  {
    var n := |known| - 1;
    var front := known[..n];
    BySegmentNext(front, known[n]);
    assert known == front + [known[n]];
    if i < n {
      assert LastFor(front, s, i);
      LastCheckpointCounts(front, s, i);
    }
  }

  lemma {:induction false} OnlyGivenSegments(known: seq<Checkpoint>, s: nat)
    ensures s in BySegment(known) <==> exists cp :: cp in known && cp.segmentIndex == s
  {
    if known != [] {
      var n := |known| - 1;
      OnlyGivenSegments(known[..n], s);
      assert known == known[..n] + [known[n]];
    }
  }

  /** What one verification of a partition is given besides the records. */
  datatype Setup = Setup(h: Hasher, g: CheckpointHasher, chainId: int, interval: nat, cps: map<nat, Checkpoint>)

  ghost predicate AsciiHashes(c: Setup) {
    AsciiHasher(c.h) && AsciiCheckpointHasher(c.g)
  }

  /** Comparing the stored checkpoint's hash raises. */
  predicate Unreadable(c: Setup, seg: nat) {
    seg in c.cps && !IsAscii(c.cps[seg].checkpointHash)
  }

  predicate Skipped(c: Setup, seg: nat) {
    seg in c.cps && SelfConsistent(c.g, c.chainId, seg, c.cps[seg])
  }

  function Rejected(r: SegmentResult, prev: string, total: nat): VerifyResult {
    VerifyResult(false, r.reason, total + r.checkedRows, prev, r.brokenId)
  }

  datatype Step = Stop(r: SegmentResult) | Go(hash: string) | Fail

  /** A complete segment is skipped over its checkpoint, or verified; an incomplete one, which
      can only be the last, is verified without a checkpoint. Fail is an exception. */
  function StepOf(c: Setup, seg: nat, segment: seq<AuditEvent>, prev: string): Step {
    var complete := |segment| == c.interval;
    if complete && Unreadable(c, seg) then Fail
    else if complete && Skipped(c, seg) then Go(c.cps[seg].lastCurrentHash)
    else
      match SegmentOutcome(c.h, c.g, c.chainId, seg, segment, prev, if complete then Lookup(c.cps, seg) else None)
      case Raised => Fail
      case Returned(r) => if r.valid then Go(HashAfter(prev, segment, |segment|)) else Stop(r)
  }

  /** How a segment is decided, given its number and the hash before it. */
  type Stepper = (nat, seq<AuditEvent>, string) -> Step

  function StepperOf(c: Setup): Stepper {
    (seg: nat, segment, prev) => StepOf(c, seg, segment, prev)
  }

  function VerifiedText(complete: nat): string {
    "Chain verified with checkpoints (" + NatText(complete) + " complete segment(s))"
  }

  /** f decides segments as the setup says. */
  ghost predicate Decides(f: Stepper, c: Setup) {
    forall seg: nat, segment, prev {:trigger StepOf(c, seg, segment, prev)} :: f(seg, segment, prev) == StepOf(c, seg, segment, prev)
  }

  /** The verdict for the records from segment seg on, n to a segment, given the hash before them. */
  function CheckedFrom(f: Stepper, n: nat, rest: seq<AuditEvent>, seg: nat, prev: string, total: nat): Scan<VerifyResult>
    requires 0 < n
    decreases |rest|
  {
    var segment := if |rest| < n then rest else rest[..n];
    match f(seg, segment, prev)
    case Fail => Raised
    case Stop(r) => Returned(Rejected(r, prev, total))
    case Go(hash) =>
      if |rest| < n then Returned(VerifyResult(true, VerifiedText(seg), total + |rest|, hash, None))
      else CheckedFrom(f, n, rest[n..], seg + 1, hash, total + n)
  }

  /** The whole verdict on a partition. */
  function Checked(c: Setup, records: seq<AuditEvent>): Scan<VerifyResult>
    requires 0 < c.interval
  {
    CheckedFrom(StepperOf(c), c.interval, records, 0, ZERO_HASH, 0)
  }

  /** One round of the loop over complete segments. */
  method CheckOneSegment(c: Setup, segment: seq<AuditEvent>, seg: nat, prevHash: string) returns (step: Step)
    requires |segment| == c.interval > 0 && AsciiHashes(c)
    ensures step == StepOf(c, seg, segment, prevHash)
  {
    var stored := Lookup(c.cps, seg);
    if stored.Some? {
      var cp := stored.value;
      var same := ConstantTimeEqual(c.g(c.chainId, seg, cp.lastRecordId, cp.lastCurrentHash), cp.checkpointHash);
      if same.None? {
        return Fail;
      }
      if same.value {
        return Go(cp.lastCurrentHash);
      }
    }
    var outcome := VerifySegment(c.h, c.g, c.chainId, seg, segment, prevHash, stored);
    if outcome.Raised? {
      return Fail;
    }
    return if outcome.result.valid then Go(segment[|segment| - 1].currentHash) else Stop(outcome.result);
  }

  /** The records after the last complete segment. */
  method CheckTail(c: Setup, tail: seq<AuditEvent>, seg: nat, prevHash: string) returns (step: Step)
    requires |tail| < c.interval && AsciiHashes(c)
    ensures step == StepOf(c, seg, tail, prevHash)
  {
    if tail == [] {
      return Go(prevHash);
    }
    var outcome := VerifySegment(c.h, c.g, c.chainId, seg, tail, prevHash, None);
    if outcome.Raised? {
      return Fail;
    }
    return if outcome.result.valid then Go(tail[|tail| - 1].currentHash) else Stop(outcome.result);
  }

  /** One more segment decided, lo records and seg segments into the input. */
  lemma SegmentDecided(f: Stepper, n: nat, records: seq<AuditEvent>, seg: nat, prev: string, lo: nat, hi: nat, step: Step)
    requires 0 < n && lo + n == hi <= |records| && step == f(seg, records[lo..hi], prev)
    ensures CheckedFrom(f, n, records[lo..], seg, prev, lo)
            == match step
               case Fail => Raised
               case Stop(r) => Returned(Rejected(r, prev, lo))
               case Go(hash) => CheckedFrom(f, n, records[hi..], seg + 1, hash, hi)
  {
    assert records[lo..][..n] == records[lo..hi] && records[lo..][n..] == records[hi..];
  }

  lemma TailDecided(f: Stepper, n: nat, tail: seq<AuditEvent>, seg: nat, prev: string, total: nat, step: Step)
    requires |tail| < n && step == f(seg, tail, prev)
    ensures CheckedFrom(f, n, tail, seg, prev, total)
            == match step
               case Fail => Raised
               case Stop(r) => Returned(Rejected(r, prev, total))
               case Go(hash) => Returned(VerifyResult(true, VerifiedText(seg), total + |tail|, hash, None))
  {}

  /** One round of the loop, lo records into the input. */
  method CheckRound(c: Setup, ghost f: Stepper, records: seq<AuditEvent>, seg: nat, lo: nat, prevHash: string) returns (step: Step)
    requires 0 < c.interval && Decides(f, c) && AsciiHashes(c) && lo + c.interval <= |records|
    ensures CheckedFrom(f, c.interval, records[lo..], seg, prevHash, lo)
            == match step
               case Fail => Raised
               case Stop(r) => Returned(Rejected(r, prevHash, lo))
               case Go(hash) => CheckedFrom(f, c.interval, records[lo + c.interval..], seg + 1, hash, lo + c.interval)
  {
    var segment := records[lo..lo + c.interval];
    step := CheckOneSegment(c, segment, seg, prevHash);
    SegmentDecided(f, c.interval, records, seg, prevHash, lo, lo + c.interval, step);
  }

  /** The loop over complete segments: the hash and the number of records after them, or the
      result of the first segment that is rejected. */
  method CheckComplete(c: Setup, ghost f: Stepper, records: seq<AuditEvent>, nComplete: nat, start: string)
    returns (rejected: Option<Scan<VerifyResult>>, prevHash: string, totalChecked: nat)
    requires 0 < c.interval && Decides(f, c) && AsciiHashes(c) && nComplete * c.interval <= |records|
    ensures rejected.Some? ==> rejected.value == CheckedFrom(f, c.interval, records, 0, start, 0)
    ensures rejected.None? ==> totalChecked == nComplete * c.interval
    ensures rejected.None? ==>
      CheckedFrom(f, c.interval, records, 0, start, 0) == CheckedFrom(f, c.interval, records[totalChecked..], nComplete, prevHash, totalChecked)
  {
    prevHash, totalChecked := start, 0;
    ghost var goal := CheckedFrom(f, c.interval, records, 0, start, 0);
    assert records[0..] == records;
    for seg := 0 to nComplete
      invariant totalChecked == seg * c.interval <= |records|
      invariant goal == CheckedFrom(f, c.interval, records[totalChecked..], seg, prevHash, totalChecked)
    {
      SegmentBounds(c.interval, nComplete, |records|, seg);
      var step := CheckRound(c, f, records, seg, totalChecked, prevHash);
      if step.Fail? {
        return Some(Raised), prevHash, totalChecked;
      }
      if step.Stop? {
        return Some(Returned(Rejected(step.r, prevHash, totalChecked))), prevHash, totalChecked;
      }
      prevHash := step.hash;
      totalChecked := totalChecked + c.interval;
    }
    rejected := None;
  }

  /** The complete segments and the tail, from the hash the chain starts from. */
  method CheckSegments(c: Setup, ghost f: Stepper, records: seq<AuditEvent>, nComplete: nat, start: string) returns (outcome: Scan<VerifyResult>)
    requires 0 < c.interval && Decides(f, c) && AsciiHashes(c)
    requires nComplete * c.interval <= |records| < nComplete * c.interval + c.interval
    ensures outcome == CheckedFrom(f, c.interval, records, 0, start, 0)
  {
    var rejected, prevHash, totalChecked := CheckComplete(c, f, records, nComplete, start);
    if rejected.Some? {
      return rejected.value;
    }
    var tail := records[totalChecked..];
    var last := CheckTail(c, tail, nComplete, prevHash);
    TailDecided(f, c.interval, tail, nComplete, prevHash, totalChecked, last);
    match last {
      case Fail => return Raised;
      case Stop(r) => return Returned(Rejected(r, prevHash, totalChecked));
      case Go(hash) => return Returned(VerifyResult(true, VerifiedText(nComplete), totalChecked + |tail|, hash, None));
    }
  }

  /** `verify_chain_with_checkpoints`. The empty chain has its own reason text. */
  method VerifyChainWithCheckpoints(h: Hasher, g: CheckpointHasher, chainId: int, records: seq<AuditEvent>, known: seq<Checkpoint>, interval: nat) returns (outcome: Scan<VerifyResult>)
    requires 0 < interval && AsciiHasher(h) && AsciiCheckpointHasher(g)
    ensures records != [] ==> outcome == Checked(Setup(h, g, chainId, interval, BySegment(known)), records)
    ensures records == [] ==> outcome == Returned(VerifyResult(true, "Chain is empty", 0, ZERO_HASH, None))
  {
    if records == [] {
      return Returned(VerifyResult(true, "Chain is empty", 0, ZERO_HASH, None));
    }
    var c := Setup(h, g, chainId, interval, BySegment(known));
    NoMoreSegments(|records|, interval);
    outcome := CheckSegments(c, StepperOf(c), records, |records| / interval, ZERO_HASH);
  }

  lemma {:induction false} ValidReportFrom(c: Setup, rest: seq<AuditEvent>, seg: nat, complete: nat, prev: string, total: nat)
    requires 0 < c.interval && c.cps == map[] && AsciiHashes(c) && IsAscii(prev) && ValidFrom(c.h, prev, rest)
    requires complete * c.interval <= |rest| < complete * c.interval + c.interval
    ensures CheckedFrom(StepperOf(c), c.interval, rest, seg, prev, total)
            == Returned(VerifyResult(true, VerifiedText(seg + complete), total + |rest|, HashAfter(prev, rest, |rest|), None))
    decreases |rest|
  {
    var n := c.interval;
    CountSegments(n, complete, |rest|);
    if complete == 0 {
      ValidStep(c, rest, seg, prev);
    } else {
      SplitValid(c.h, rest, prev, n);
      ValidStep(c, rest[..n], seg, prev);
      ValidReportFrom(c, rest[n..], seg + 1, complete - 1, rest[n - 1].currentHash, total + n);
    }
  }

  lemma SplitValid(h: Hasher, rest: seq<AuditEvent>, prev: string, n: nat)
    requires 0 < n <= |rest| && ValidFrom(h, prev, rest)
    ensures ValidFrom(h, prev, rest[..n]) && ValidFrom(h, rest[n - 1].currentHash, rest[n..])
    ensures HashAfter(prev, rest, |rest|) == HashAfter(rest[n - 1].currentHash, rest[n..], |rest| - n)
  {
    assert rest == rest[..n] + rest[n..];
    ValidConcat(h, prev, rest[..n], rest[n..]);
  }

  lemma CountSegments(n: nat, complete: nat, length: nat)
    requires 0 < n && complete * n <= length < complete * n + n
    ensures complete == 0 <==> length < n
    ensures complete > 0 ==> (complete - 1) * n <= length - n < (complete - 1) * n + n
  {
    if complete > 0 {
      assert (complete - 1) * n == complete * n - n;
    }
  }

  lemma ValidStep(c: Setup, segment: seq<AuditEvent>, seg: nat, prev: string)
    requires c.cps == map[] && AsciiHashes(c) && IsAscii(prev) && ValidFrom(c.h, prev, segment)
    ensures StepOf(c, seg, segment, prev) == Go(HashAfter(prev, segment, |segment|)) && IsAscii(HashAfter(prev, segment, |segment|))
  {
    if segment != [] {
      SegmentReportsBoundary(c.h, c.g, c.chainId, seg, segment, prev, None);
      assert Linked(c.h, HashAfter(prev, segment, |segment| - 1), segment[|segment| - 1]);
    }
  }

  /** What the verifier says of a valid chain without checkpoints, in words and figures. */
  lemma ValidReport(c: Setup, records: seq<AuditEvent>, complete: nat)
    requires 0 < c.interval && c.cps == map[] && AsciiHashes(c) && ChainValid(c.h, records)
    requires complete * c.interval <= |records| < complete * c.interval + c.interval
    ensures Checked(c, records) == Returned(VerifyResult(true, VerifiedText(complete), |records|, HashAfter(ZERO_HASH, records, |records|), None))
    ensures VerifiedText(complete) == "Chain verified with checkpoints (" + NatText(complete) + " complete segment(s))"
  {
    ZerosAscii(64);
    ValidReportFrom(c, records, 0, complete, ZERO_HASH, 0);
  }

  // ------------------------------------------------------------------- refinement

  /** Every checkpoint that is present for a complete segment is the one built from it, and
      that segment links from the hash before it. */
  ghost predicate Honest(c: Setup, rest: seq<AuditEvent>, seg: nat, prev: string)
    requires 0 < c.interval
    decreases |rest|
  {
    var n := c.interval;
    |rest| >= n ==>
      && (seg in c.cps ==> c.cps[seg] == CheckpointFor(c.g, c.chainId, seg, rest[..n]) && ValidFrom(c.h, prev, rest[..n]))
      && Honest(c, rest[n..], seg + 1, rest[n - 1].currentHash)
  }

  lemma {:induction false} FirstBreakSplit(h: Hasher, prev: string, rest: seq<AuditEvent>, n: nat)
    requires 0 < n <= |rest|
    ensures var k := FirstBreak(h, prev, rest[..n]);
      FirstBreak(h, prev, rest) == if k < n then k else n + FirstBreak(h, rest[n - 1].currentHash, rest[n..])
    decreases n
  {
    if Linked(h, prev, rest[0]) {
      assert rest[..n][1..] == rest[1..][..n - 1];
      if n > 1 {
        FirstBreakSplit(h, rest[0].currentHash, rest[1..], n - 1);
        assert rest[1..][n - 1..] == rest[n..] && rest[1..][n - 2] == rest[n - 1];
      }
    }
  }

  /** o is what a full scan of rest from prev, an ASCII hash, says: it raises, or has the same
      verdict, number of checked rows and broken record and, when valid, last hash. */
  ghost predicate FullAnswer(h: Hasher, prev: string, rest: seq<AuditEvent>, total: nat, o: Scan<VerifyResult>) {
    var k := FirstBreak(h, prev, rest);
    if k < |rest| && Raises(HashAfter(prev, rest, k), rest[k]) then o.Raised?
    else
      && o.Returned?
      && (o.result.valid <==> k == |rest|)
      && o.result.checkedRows == total + k
      && o.result.brokenId == (if k < |rest| then rest[k].id else None)
      && (o.result.valid ==> o.result.lastHash == HashAfter(prev, rest, |rest|))
  }

  lemma LastIsAscii(h: Hasher, prev: string, segment: seq<AuditEvent>)
    requires AsciiHasher(h) && segment != [] && FirstBreak(h, prev, segment) == |segment|
    ensures IsAscii(segment[|segment| - 1].currentHash)
  {
    FirstBreakExact(h, prev, segment);
    assert Linked(h, HashAfter(prev, segment, |segment| - 1), segment[|segment| - 1]);
  }

  lemma FullAnswerShift(h: Hasher, prev: string, rest: seq<AuditEvent>, n: nat, total: nat, o: Scan<VerifyResult>)
    requires 0 < n <= |rest| && FirstBreak(h, prev, rest[..n]) == n
    ensures FullAnswer(h, prev, rest, total, o) <==> FullAnswer(h, rest[n - 1].currentHash, rest[n..], total + n, o)
  {
    FirstBreakSplit(h, prev, rest, n);
    var k := FirstBreak(h, prev, rest);
    assert HashAfter(prev, rest, |rest|) == HashAfter(rest[n - 1].currentHash, rest[n..], |rest| - n);
    assert HashAfter(prev, rest, k) == HashAfter(rest[n - 1].currentHash, rest[n..], k - n);
    assert k < |rest| ==> rest[k] == rest[n..][k - n];
  }

  /** A segment with a break, as one scan of it sees it. */
  ghost predicate SeesBreak(h: Hasher, prev: string, segment: seq<AuditEvent>, step: Step) {
    var k := FirstBreak(h, prev, segment);
    && k < |segment|
    && if Raises(HashAfter(prev, segment, k), segment[k]) then step.Fail?
       else step.Stop? && step.r.checkedRows == k && step.r.brokenId == segment[k].id && !step.r.valid
  }

  /** While segments link, checkpoints are of their last records. */
  ghost predicate BoundariesTrue(c: Setup, rest: seq<AuditEvent>, seg: nat, prev: string)
    requires 0 < c.interval
    decreases |rest|
  {
    var n := c.interval;
    |rest| >= n && FirstBreak(c.h, prev, rest[..n]) == n ==>
      && (seg in c.cps ==> c.cps[seg] == CheckpointFor(c.g, c.chainId, seg, rest[..n]))
      && BoundariesTrue(c, rest[n..], seg + 1, rest[n - 1].currentHash)
  }

  lemma GoesOn(f: Stepper, n: nat, rest: seq<AuditEvent>, seg: nat, prev: string, total: nat, hash: string)
    requires 0 < n <= |rest| && f(seg, rest[..n], prev) == Go(hash)
    ensures CheckedFrom(f, n, rest, seg, prev, total) == CheckedFrom(f, n, rest[n..], seg + 1, hash, total + n)
  {}

  lemma StopsAtBreak(h: Hasher, f: Stepper, n: nat, rest: seq<AuditEvent>, seg: nat, prev: string, total: nat)
    requires 0 < n <= |rest| && SeesBreak(h, prev, rest[..n], f(seg, rest[..n], prev))
    ensures FullAnswer(h, prev, rest, total, CheckedFrom(f, n, rest, seg, prev, total))
  {
    FirstBreakSplit(h, prev, rest, n);
    var k := FirstBreak(h, prev, rest[..n]);
    assert HashAfter(prev, rest, k) == HashAfter(prev, rest[..n], k);
  }

  /** The first break of the records is inside a segment that is not read: it is skipped, or its
      checkpoint raises before. */
  predicate BreaksUnread(c: Setup, rest: seq<AuditEvent>, seg: nat, prev: string)
    requires 0 < c.interval
    decreases |rest|
  {
    var n := c.interval;
    && |rest| >= n
    && if FirstBreak(c.h, prev, rest[..n]) < n then Skipped(c, seg) || Unreadable(c, seg)
       else BreaksUnread(c, rest[n..], seg + 1, rest[n - 1].currentHash)
  }

  lemma {:induction false} ChecksAtLeast(f: Stepper, n: nat, rest: seq<AuditEvent>, seg: nat, prev: string, total: nat)
    requires 0 < n
    ensures var o := CheckedFrom(f, n, rest, seg, prev, total); o.Returned? ==> o.result.checkedRows >= total
    decreases |rest|
  {
    if |rest| >= n {
      match f(seg, rest[..n], prev) {
        case Go(hash) => ChecksAtLeast(f, n, rest[n..], seg + 1, hash, total + n);
        case Stop(_) =>
        case Fail =>
      }
    }
  }

  /** A break inside a skipped segment is never reported: the verdict counts more rows. Only two
      exceptions can look alike. */
  lemma SkippedBreakMissed(h: Hasher, f: Stepper, n: nat, rest: seq<AuditEvent>, seg: nat, prev: string, total: nat, hash: string)
    requires 0 < n <= |rest| && FirstBreak(h, prev, rest[..n]) < n && f(seg, rest[..n], prev) == Go(hash)
    ensures var o := CheckedFrom(f, n, rest, seg, prev, total); FullAnswer(h, prev, rest, total, o) ==> o.Raised?
  {
    FirstBreakSplit(h, prev, rest, n);
    GoesOn(f, n, rest, seg, prev, total, hash);
    ChecksAtLeast(f, n, rest[n..], seg + 1, hash, total + n);
  }

  /** How a complete segment is decided when its checkpoint, if it links, is of its last record. */
  lemma SegmentStep(c: Setup, f: Stepper, seg: nat, segment: seq<AuditEvent>, prev: string)
    requires |segment| == c.interval > 0 && Decides(f, c) && AsciiHashes(c) && IsAscii(prev)
    requires FirstBreak(c.h, prev, segment) == |segment| && seg in c.cps ==> c.cps[seg] == CheckpointFor(c.g, c.chainId, seg, segment)
    ensures var k, step := FirstBreak(c.h, prev, segment), f(seg, segment, prev);
      if k == |segment| then step == Go(segment[k - 1].currentHash)
      else if Unreadable(c, seg) then step == Fail
      else if Skipped(c, seg) then step == Go(c.cps[seg].lastCurrentHash)
      else SeesBreak(c.h, prev, segment, step)
  {
    assert f(seg, segment, prev) == StepOf(c, seg, segment, prev);
  }

  /** An incomplete segment is verified in full. */
  lemma TailStep(c: Setup, f: Stepper, rest: seq<AuditEvent>, seg: nat, prev: string, total: nat)
    requires |rest| < c.interval && Decides(f, c) && IsAscii(prev)
    ensures FullAnswer(c.h, prev, rest, total, CheckedFrom(f, c.interval, rest, seg, prev, total))
  {
    assert f(seg, rest, prev) == StepOf(c, seg, rest, prev);
    TailDecided(f, c.interval, rest, seg, prev, total, f(seg, rest, prev));
  }

  /** The answer of a full scan, unless the first break is unread, which is then not reported. */
  ghost predicate AnswersUnlessUnread(c: Setup, f: Stepper, rest: seq<AuditEvent>, seg: nat, prev: string, total: nat)
    requires 0 < c.interval
  {
    var o := CheckedFrom(f, c.interval, rest, seg, prev, total);
    if BreaksUnread(c, rest, seg, prev) then FullAnswer(c.h, prev, rest, total, o) ==> o.Raised?
    else FullAnswer(c.h, prev, rest, total, o)
  }

  lemma LinkingSegment(c: Setup, f: Stepper, rest: seq<AuditEvent>, seg: nat, prev: string, total: nat)
    requires 0 < c.interval <= |rest| && FirstBreak(c.h, prev, rest[..c.interval]) == c.interval
    requires f(seg, rest[..c.interval], prev) == Go(rest[c.interval - 1].currentHash)
    requires AnswersUnlessUnread(c, f, rest[c.interval..], seg + 1, rest[c.interval - 1].currentHash, total + c.interval)
    ensures AnswersUnlessUnread(c, f, rest, seg, prev, total)
  {
    var n := c.interval;
    GoesOn(f, n, rest, seg, prev, total, rest[n - 1].currentHash);
    FullAnswerShift(c.h, prev, rest, n, total, CheckedFrom(f, n, rest, seg, prev, total));
  }

  lemma BrokenSegment(c: Setup, f: Stepper, rest: seq<AuditEvent>, seg: nat, prev: string, total: nat)
    requires 0 < c.interval <= |rest| && FirstBreak(c.h, prev, rest[..c.interval]) < c.interval
    requires var step := f(seg, rest[..c.interval], prev);
      if Unreadable(c, seg) then step == Fail
      else if Skipped(c, seg) then step == Go(c.cps[seg].lastCurrentHash)
      else SeesBreak(c.h, prev, rest[..c.interval], step)
    ensures AnswersUnlessUnread(c, f, rest, seg, prev, total)
  {
    if Unreadable(c, seg) {
      assert CheckedFrom(f, c.interval, rest, seg, prev, total) == Raised;
    } else if Skipped(c, seg) {
      SkippedBreakMissed(c.h, f, c.interval, rest, seg, prev, total, c.cps[seg].lastCurrentHash);
    } else {
      StopsAtBreak(c.h, f, c.interval, rest, seg, prev, total);
    }
  }

  lemma {:induction false} AgreesUnlessUnread(c: Setup, f: Stepper, rest: seq<AuditEvent>, seg: nat, prev: string, total: nat)
    requires 0 < c.interval && Decides(f, c) && BoundariesTrue(c, rest, seg, prev) && AsciiHashes(c) && IsAscii(prev)
    ensures AnswersUnlessUnread(c, f, rest, seg, prev, total)
    decreases |rest|
  {
    var n := c.interval;
    if |rest| < n {
      TailStep(c, f, rest, seg, prev, total);
    } else {
      SegmentStep(c, f, seg, rest[..n], prev);
      if FirstBreak(c.h, prev, rest[..n]) == n {
        LastIsAscii(c.h, prev, rest[..n]);
        AgreesUnlessUnread(c, f, rest[n..], seg + 1, rest[n - 1].currentHash, total + n);
        LinkingSegment(c, f, rest, seg, prev, total);
      } else {
        BrokenSegment(c, f, rest, seg, prev, total);
      }
    }
  }

  lemma {:induction false} HonestIsRead(c: Setup, rest: seq<AuditEvent>, seg: nat, prev: string)
    requires 0 < c.interval && Honest(c, rest, seg, prev)
    ensures BoundariesTrue(c, rest, seg, prev) && !BreaksUnread(c, rest, seg, prev)
    decreases |rest|
  {
    if |rest| >= c.interval {
      FirstBreakExact(c.h, prev, rest[..c.interval]);
      HonestIsRead(c, rest[c.interval..], seg + 1, rest[c.interval - 1].currentHash);
    }
  }

  /** With honest checkpoints, skipping segments loses nothing. */
  lemma CheckedRefinesFull(c: Setup, rest: seq<AuditEvent>, seg: nat, prev: string, total: nat)
    requires 0 < c.interval && Honest(c, rest, seg, prev) && AsciiHashes(c) && IsAscii(prev)
    ensures FullAnswer(c.h, prev, rest, total, CheckedFrom(StepperOf(c), c.interval, rest, seg, prev, total))
  {
    HonestIsRead(c, rest, seg, prev);
    AgreesUnlessUnread(c, StepperOf(c), rest, seg, prev, total);
  }

  /** Both raise, or: same status, checked rows and broken record; same last hash when valid. */
  ghost predicate Agrees(a: Scan<VerifyResult>, b: Scan<VerifyResult>) {
    && (a.Raised? <==> b.Raised?)
    && (a.Returned? ==>
          var x, y := a.result, b.result;
          && x.valid == y.valid && x.checkedRows == y.checkedRows && x.brokenId == y.brokenId
          && (x.valid ==> x.lastHash == y.lastHash))
  }

  lemma AgreesIsFull(h: Hasher, records: seq<AuditEvent>, o: Scan<VerifyResult>)
    ensures FullAnswer(h, ZERO_HASH, records, 0, o) <==> Agrees(o, SingleOutcome(h, records))
  {
    var k := FirstBreak(h, ZERO_HASH, records);
    if k < |records| && Raises(HashAfter(ZERO_HASH, records, k), records[k]) {
      assert SingleOutcome(h, records) == Raised;
    } else {
      var r := SingleResult(h, records);
      assert SingleOutcome(h, records) == Returned(r);
      assert r.checkedRows == k && (r.valid <==> k == |records|);
      assert r.brokenId == if k < |records| then records[k].id else None;
    }
  }

  lemma {:induction false} NoneLeftHonest(c: Setup, rest: seq<AuditEvent>, seg: nat, prev: string)
    requires 0 < c.interval && forall s :: s in c.cps ==> s < seg
    ensures Honest(c, rest, seg, prev)
    decreases |rest|
  {
    if |rest| >= c.interval {
      NoneLeftHonest(c, rest[c.interval..], seg + 1, rest[c.interval - 1].currentHash);
    }
  }

  /** Without checkpoints the segmented scan is the full scan, for every interval. */
  lemma NoCheckpointsRefines(c: Setup, records: seq<AuditEvent>)
    requires 0 < c.interval && c.cps == map[] && AsciiHashes(c)
    ensures Agrees(Checked(c, records), SingleOutcome(c.h, records))
  {
    ZerosAscii(64);
    NoneLeftHonest(c, records, 0, ZERO_HASH);
    CheckedRefinesFull(c, records, 0, ZERO_HASH, 0);
    AgreesIsFull(c.h, records, Checked(c, records));
  }

  /** Segment s, counted from seg, ends within the next covered records. */
  predicate Covers(interval: nat, covered: int, s: nat, seg: nat)
    requires seg <= s
    decreases s - seg
  {
    interval <= covered && (s > seg ==> Covers(interval, covered - interval, s, seg + 1))
  }

  lemma {:induction false} CoversExact(interval: nat, covered: int, s: nat, seg: nat)
    requires seg <= s
    ensures Covers(interval, covered, s, seg) <==> (s - seg + 1) * interval <= covered
    decreases s - seg
  {
    if s > seg {
      CoversExact(interval, covered - interval, s, seg + 1);
      assert (s - seg + 1) * interval == (s - seg) * interval + interval;
      assert (s - seg) * interval >= 0;
    }
  }

  /** Every checkpoint from segment seg on is one of those built from original, and lies within
      the covered records. */
  ghost predicate TakenFrom(c: Setup, original: seq<AuditEvent>, seg: nat, covered: int)
    requires 0 < c.interval
  {
    forall s :: s in c.cps && s >= seg ==>
      c.cps[s].segmentIndex == s && c.cps[s] in Built(c.g, c.chainId, c.interval, original, seg) && Covers(c.interval, covered, s, seg)
  }

  lemma TakenFromStep(c: Setup, original: seq<AuditEvent>, seg: nat, covered: int)
    requires 0 < c.interval <= |original| && TakenFrom(c, original, seg, covered)
    ensures TakenFrom(c, original[c.interval..], seg + 1, covered - c.interval)
    ensures seg in c.cps ==> c.cps[seg] == CheckpointFor(c.g, c.chainId, seg, original[..c.interval])
  {
    forall s | s in c.cps && s >= seg
      ensures s > seg ==> c.cps[s] in Built(c.g, c.chainId, c.interval, original[c.interval..], seg + 1)
      ensures s == seg ==> c.cps[s] == CheckpointFor(c.g, c.chainId, seg, original[..c.interval])
    {
      BuiltAt(c.g, c.chainId, c.interval, original, seg, c.cps[s]);
    }
  }

  /** Checkpoints taken from a fully verified chain are honest for any chain that still has the
      records they cover. */
  lemma {:induction false} BuiltIsHonest(c: Setup, rest: seq<AuditEvent>, original: seq<AuditEvent>, seg: nat, prev: string, covered: nat)
    requires 0 < c.interval && ValidFrom(c.h, prev, original)
    requires covered <= |rest| && covered <= |original| && rest[..covered] == original[..covered]
    requires TakenFrom(c, original, seg, covered)
    ensures Honest(c, rest, seg, prev)
    decreases |rest|
  {
    var n := c.interval;
    if |rest| >= n {
      if covered >= n {
        assert rest[..n] == rest[..covered][..n] == original[..n];
        assert rest[n..][..covered - n] == rest[..covered][n..];
        assert original[n..][..covered - n] == original[..covered][n..];
        assert original == original[..n] + original[n..];
        ValidConcat(c.h, prev, original[..n], original[n..]);
        TakenFromStep(c, original, seg, covered);
        assert rest[n - 1] == rest[..n][n - 1];
        BuiltIsHonest(c, rest[n..], original[n..], seg + 1, rest[n - 1].currentHash, covered - n);
      } else {
        NoneLeftHonest(c, rest, seg, prev);
      }
    }
  }

  lemma KnownTakenFrom(c: Setup, original: seq<AuditEvent>, known: seq<Checkpoint>, covered: nat)
    requires 0 < c.interval && c.cps == BySegment(known)
    requires forall cp :: cp in known ==> cp in Built(c.g, c.chainId, c.interval, original, 0) && (cp.segmentIndex + 1) * c.interval <= covered
    ensures TakenFrom(c, original, 0, covered)
  {
    forall s | s in c.cps ensures Covers(c.interval, covered, s, 0) {
      assert c.cps[s] in known;
      CoversExact(c.interval, covered, s, 0);
    }
  }

  /** Any subset of the checkpoints of a verified chain may be used on any chain that keeps the
      records up to the last checkpointed segment: the answer is that of full verification. */
  lemma CheckpointsRefineFull(c: Setup, records: seq<AuditEvent>, original: seq<AuditEvent>, known: seq<Checkpoint>, covered: nat)
    requires 0 < c.interval && c.cps == BySegment(known) && ChainValid(c.h, original) && AsciiHashes(c)
    requires covered <= |records| && covered <= |original| && records[..covered] == original[..covered]
    requires forall cp :: cp in known ==> cp in Built(c.g, c.chainId, c.interval, original, 0) && (cp.segmentIndex + 1) * c.interval <= covered
    ensures Agrees(Checked(c, records), SingleOutcome(c.h, records))
  {
    ZerosAscii(64);
    KnownTakenFrom(c, original, known, covered);
    BuiltIsHonest(c, records, original, 0, ZERO_HASH, covered);
    CheckedRefinesFull(c, records, 0, ZERO_HASH, 0);
    AgreesIsFull(c.h, records, Checked(c, records));
  }

  // ------------------------------------------------------------------- blind spot

  /** The records differ only inside segments that f decides alike from any hash. */
  ghost predicate SameSteps(f: Stepper, n: nat, a: seq<AuditEvent>, b: seq<AuditEvent>, seg: nat)
    requires 0 < n
    decreases |a|
  {
    && |a| == |b|
    && if |a| < n then a == b
       else (forall prev :: f(seg, a[..n], prev) == f(seg, b[..n], prev)) && SameSteps(f, n, a[n..], b[n..], seg + 1)
  }

  lemma {:induction false} SameStepsSameVerdict(f: Stepper, n: nat, a: seq<AuditEvent>, b: seq<AuditEvent>, seg: nat, prev: string, total: nat)
    requires 0 < n && SameSteps(f, n, a, b, seg)
    ensures CheckedFrom(f, n, a, seg, prev, total) == CheckedFrom(f, n, b, seg, prev, total)
    decreases |a|
  {
    if |a| >= n {
      match f(seg, a[..n], prev) {
        case Go(hash) => SameStepsSameVerdict(f, n, a[n..], b[n..], seg + 1, hash, total + n);
        case Stop(_) =>
        case Fail =>
      }
    }
  }

  /** The records differ only inside skipped segments. */
  ghost predicate SameOutsideSkipped(c: Setup, a: seq<AuditEvent>, b: seq<AuditEvent>, seg: nat)
    requires 0 < c.interval
    decreases |a|
  {
    var n := c.interval;
    && |a| == |b|
    && if |a| < n then a == b
       else (Skipped(c, seg) || a[..n] == b[..n]) && SameOutsideSkipped(c, a[n..], b[n..], seg + 1)
  }

  lemma {:induction false} SkippedStepsAlike(c: Setup, a: seq<AuditEvent>, b: seq<AuditEvent>, seg: nat)
    requires 0 < c.interval && SameOutsideSkipped(c, a, b, seg)
    ensures SameSteps(StepperOf(c), c.interval, a, b, seg)
    decreases |a|
  {
    var n := c.interval;
    if |a| >= n {
      SkippedStepsAlike(c, a[n..], b[n..], seg + 1);
    }
  }

  /** The records of a skipped segment are not read at all: any change confined to skipped
      segments leaves the result as it was. */
  lemma SkippedSegmentsUnread(c: Setup, a: seq<AuditEvent>, b: seq<AuditEvent>)
    requires 0 < c.interval && SameOutsideSkipped(c, a, b, 0)
    ensures Checked(c, a) == Checked(c, b)
  {
    SkippedStepsAlike(c, a, b, 0);
    SameStepsSameVerdict(StepperOf(c), c.interval, a, b, 0, ZERO_HASH, 0);
  }

  /** Checkpoints of the last records, on any chain at all: the answer is that of full
      verification if and only if the first break is inside no unread segment, or both raise. */
  lemma AgreesExactly(c: Setup, records: seq<AuditEvent>)
    requires 0 < c.interval && BoundariesTrue(c, records, 0, ZERO_HASH) && AsciiHashes(c)
    ensures var checked, full := Checked(c, records), SingleOutcome(c.h, records);
      Agrees(checked, full) <==> !BreaksUnread(c, records, 0, ZERO_HASH) || (checked.Raised? && full.Raised?)
  {
    ZerosAscii(64);
    AgreesUnlessUnread(c, StepperOf(c), records, 0, ZERO_HASH, 0);
    AgreesIsFull(c.h, records, Checked(c, records));
  }

  lemma {:induction false} SameEverywhere(c: Setup, rest: seq<AuditEvent>, seg: nat)
    requires 0 < c.interval
    ensures SameOutsideSkipped(c, rest, rest, seg)
    decreases |rest|
  {
    if |rest| >= c.interval {
      SameEverywhere(c, rest[c.interval..], seg + 1);
    }
  }

  /** The blind spot: under the built checkpoint of the first segment of a valid chain, any one
      record of the segment may be replaced by one that does not link, and the answer is still
      that of the valid chain. */
  lemma TamperingUnseen(c: Setup, original: seq<AuditEvent>, i: nat, e: AuditEvent)
    requires 0 < c.interval <= |original| && i < c.interval && ChainValid(c.h, original) && AsciiHashes(c)
    requires c.cps == map[0 := CheckpointFor(c.g, c.chainId, 0, original[..c.interval])]
    requires !Linked(c.h, HashAfter(ZERO_HASH, original, i), e)
    ensures var tampered := original[i := e];
      && Checked(c, tampered) == Checked(c, original) && Checked(c, original).Returned? && Checked(c, original).result.valid
      && !ChainValid(c.h, tampered)
  {
    var n, tampered := c.interval, original[i := e];
    assert tampered[n..] == original[n..];
    SameEverywhere(c, original[n..], 1);
    SkippedSegmentsUnread(c, tampered, original);
    var known := [c.cps[0]];
    assert known[..0] == [];
    assert BySegment(known) == map[0 := c.cps[0]];
    CheckpointsRefineFull(c, original, original, known, n);
    FirstBreakExact(c.h, ZERO_HASH, original);
    assert HashAfter(ZERO_HASH, tampered, i) == HashAfter(ZERO_HASH, original, i);
    assert !Linked(c.h, HashAfter(ZERO_HASH, tampered, i), tampered[i]);
  }
}
