/** The coordinator's task scheduler (coordinator/system.py, `_execute_dag`): rounds that scan the
    pending tasks by name, block or start them, and collect results in any completion order. */
module DagScheduler {
  import opened Common
  import opened Ordering

  /** Task ids and the ids each task depends on. */
  type Graph = map<string, seq<string>>

  /** What the rest of the system decides: whether memory blocks a task's strategy, whether its
      inputs resolve and an agent accepts it given the completed tasks, whether its agent's
      result passes the task's constraints, and whether its artifacts can be added. */
  datatype Oracles = Oracles(
    memoryBlocks: string -> bool, prepares: (string, set<string>) -> bool, succeeds: string -> bool, absorbs: string -> bool)

  datatype TaskResult = TaskResult(id: string, success: bool, round: nat)

  datatype Reason = DependencyFailed(failed: seq<string>) | MemoryBlocked
  datatype Blocked = Blocked(id: string, reason: Reason, round: nat)

  /** A normal return, the stall error, or an exception raised while handling a task. */
  datatype Run = Finished(results: seq<TaskResult>, blocked: seq<Blocked>)
    | Stalled(remaining: set<string>, round: nat, results: seq<TaskResult>, blocked: seq<Blocked>)
    | Raised(id: string)

  function ResultIds(results: seq<TaskResult>): set<string> {
    set r | r in results :: r.id
  }

  function SuccessIds(results: seq<TaskResult>): set<string> {
    set r | r in results && r.success :: r.id
  }

  function FailureIds(results: seq<TaskResult>): set<string> {
    set r | r in results && !r.success :: r.id
  }

  function BlockedIds(blocked: seq<Blocked>): set<string> {
    set b | b in blocked :: b.id
  }

  function MemoryIds(blocked: seq<Blocked>): set<string> {
    set b | b in blocked && b.reason.MemoryBlocked? :: b.id
  }

  // ----------------------------------------------------------------- histories

  /** Every result and every blocked entry is for its own task. */
  ghost predicate Once(results: seq<TaskResult>, blocked: seq<Blocked>) {
    && (forall i, j :: 0 <= i < j < |results| ==> results[i].id != results[j].id)
    && (forall i, j :: 0 <= i < j < |blocked| ==> blocked[i].id != blocked[j].id)
    && ResultIds(results) !! BlockedIds(blocked)
  }

  /** Some earlier result is a success of task d in a round before the given one. */
  ghost predicate RanBefore(results: seq<TaskResult>, i: nat, d: string, round: nat)
    requires i <= |results|
  {
    exists j :: 0 <= j < i && results[j].id == d && results[j].success && results[j].round < round
  }

  /** ... or in exactly that round. */
  ghost predicate RanIn(results: seq<TaskResult>, d: string, round: nat) {
    exists j :: 0 <= j < |results| && results[j].id == d && results[j].success && results[j].round == round
  }

  /** A task ran only after all its dependencies had succeeded in earlier rounds, and no round
      later than that. */
  ghost predicate ResultOk(g: Graph, o: Oracles, results: seq<TaskResult>, i: nat)
    requires i < |results|
  {
    var r := results[i];
    && r.id in g && !o.memoryBlocks(r.id) && r.success == o.succeeds(r.id)
    && (forall d :: d in g[r.id] ==> RanBefore(results, i, d, r.round))
    && (r.round > 0 ==> exists d :: d in g[r.id] && RanIn(results, d, r.round - 1))
  }

  /** Task d has failed in a round before the given one. */
  ghost predicate FailedBefore(results: seq<TaskResult>, d: string, round: nat) {
    exists r :: r in results && r.id == d && !r.success && r.round < round
  }

  /** Memory blocked d in a round before b's, or in b's own round before b's turn. */
  ghost predicate MemoryBefore(blocked: seq<Blocked>, d: string, b: Blocked) {
    exists m :: m in blocked && m.id == d && m.reason.MemoryBlocked?
                && (m.round < b.round || (m.round == b.round && StringLess(d, b.id)))
  }

  /** The dependencies of a task that have terminally failed, in order. */
  function FailedDependencies(deps: seq<string>, failures: set<string>): (r: seq<string>)
    ensures forall d :: d in r <==> d in deps && d in failures
  {
    if deps == [] then []
    else
      var rest := FailedDependencies(deps[1..], failures);
      if deps[0] in failures then [deps[0]] + rest else rest
  }

  /** ... each time it is declared, and in the order of declaration. */
  lemma {:induction false} FailedDependenciesOf(a: seq<string>, b: seq<string>, failures: set<string>)
    ensures FailedDependencies(a + b, failures) == FailedDependencies(a, failures) + FailedDependencies(b, failures)
  {
    if a == [] {
      assert a + b == b;
    } else {
      FailedDependenciesOf(a[1..], b, failures);
      assert (a + b)[1..] == a[1..] + b;
      var x, y, z := if a[0] in failures then [a[0]] else [], FailedDependencies(a[1..], failures), FailedDependencies(b, failures);
      assert x + (y + z) == (x + y) + z;
    }
  }

  lemma FailedDependenciesOfOne(d: string, failures: set<string>)
    ensures FailedDependencies([d], failures) == if d in failures then [d] else []
  {}

  lemma {:induction false} SameFailures(deps: seq<string>, f: set<string>, f': set<string>)
    requires forall d :: d in deps ==> (d in f <==> d in f')
    ensures FailedDependencies(deps, f) == FailedDependencies(deps, f')
  {
    if deps != [] {
      SameFailures(deps[1..], f, f');
    }
  }

  /** The dependencies of a blocked task that had terminally failed before its turn. */
  ghost function FailedByTurn(g: Graph, results: seq<TaskResult>, blocked: seq<Blocked>, b: Blocked): set<string>
    requires b.id in g
  {
    set d | d in g[b.id] && (FailedBefore(results, d, b.round) || MemoryBefore(blocked, d, b))
  }

  ghost predicate SomeRan(results: seq<TaskResult>, round: nat) {
    exists r :: r in results && r.round == round
  }

  /** A task was blocked by memory in the first round in which it was ready to run, or by
      dependencies that had terminally failed before its turn, and all of those are listed. */
  ghost predicate BlockOk(g: Graph, o: Oracles, results: seq<TaskResult>, blocked: seq<Blocked>, b: Blocked) {
    && b.id in g && (b.round > 0 ==> SomeRan(results, b.round - 1))
    && match b.reason
       case MemoryBlocked =>
         && o.memoryBlocks(b.id)
         && (forall d :: d in g[b.id] ==> RanBefore(results, |results|, d, b.round))
         && (b.round > 0 ==> exists d :: d in g[b.id] && RanIn(results, d, b.round - 1))
       case DependencyFailed(failed) =>
         failed != [] && failed == FailedDependencies(g[b.id], FailedByTurn(g, results, blocked, b))
  }

  ghost predicate HistoryOk(g: Graph, o: Oracles, results: seq<TaskResult>, blocked: seq<Blocked>) {
    && Once(results, blocked)
    && (forall i :: 0 <= i < |results| ==> ResultOk(g, o, results, i))
    && (forall b :: b in blocked ==> BlockOk(g, o, results, blocked, b))
  }

  /** A task that the last scan, of the given round, left pending: some dependency has not
      completed, none has failed, and memory has blocked a dependency only in this scan, after
      the task's own turn. */
  ghost predicate LeftPending(g: Graph, results: seq<TaskResult>, blocked: seq<Blocked>, id: string, round: nat) {
    && id in g && (exists d :: d in g[id] && d !in SuccessIds(results)) && (forall d :: d in g[id] ==> d !in FailureIds(results))
    && forall m :: m in blocked && m.reason.MemoryBlocked? && m.id in g[id] ==> m.round == round && StringLess(id, m.id)
  }

  // --------------------------------------------------------------------- the scan

  /** A listed dependency had failed before the task's turn. */
  lemma ListedHasFailed(g: Graph, o: Oracles, results: seq<TaskResult>, blocked: seq<Blocked>, b: Blocked, d: string)
    requires BlockOk(g, o, results, blocked, b) && b.reason.DependencyFailed?
    ensures d in b.reason.failed <==> d in g[b.id] && (FailedBefore(results, d, b.round) || MemoryBefore(blocked, d, b))
  {}

  /** What one pass over the pending tasks decides. */
  datatype Scan = Scan(ready: seq<string>, blocked: seq<Blocked>, raised: Option<string>)

  /** Those that memory blocked in this pass before a task's turn. */
  ghost function MemoryByTurn(blocked: seq<Blocked>, id: string): set<string> {
    set d | d in MemoryIds(blocked) && StringLess(d, id)
  }

  /** Given the completed and failed tasks before the pass. */
  ghost predicate ScanBlockOk(g: Graph, o: Oracles, completed: set<string>, failures: set<string>, blocked: seq<Blocked>, b: Blocked) {
    && b.id in g
    && match b.reason
       case MemoryBlocked => o.memoryBlocks(b.id) && forall d :: d in g[b.id] ==> d in completed
       case DependencyFailed(failed) =>
         failed != [] && failed == FailedDependencies(g[b.id], failures + MemoryByTurn(blocked, b.id))
  }

  ghost predicate Ready(g: Graph, o: Oracles, completed: set<string>, id: string) {
    id in g && !o.memoryBlocks(id) && o.prepares(id, completed) && forall d :: d in g[id] ==> d in completed
  }

  /** Memory blocked dependencies of a waiting task only after the task's turn. */
  ghost predicate BlockedLater(g: Graph, blocked: seq<Blocked>, id: string)
    requires id in g
  {
    forall m :: m in blocked && m.reason.MemoryBlocked? && m.id in g[id] ==> StringLess(id, m.id)
  }

  ghost predicate Waits(g: Graph, completed: set<string>, failures: set<string>, id: string) {
    id in g && (exists d :: d in g[id] && d !in completed) && forall d :: d in g[id] ==> d !in failures
  }

  ghost predicate NoRepeatedBlocks(blocked: seq<Blocked>) {
    forall i, j :: 0 <= i < j < |blocked| ==> blocked[i].id != blocked[j].id
  }

  ghost predicate ScanOk(g: Graph, o: Oracles, keys: seq<string>, completed: set<string>, failures: set<string>, ready: seq<string>, blocked: seq<Blocked>, round: nat) {
    && NoRepeats(ready) && NoRepeatedBlocks(blocked)
    && (forall id :: id in ready ==> id in keys && Ready(g, o, completed, id) && id !in BlockedIds(blocked))
    && (forall b :: b in blocked ==> b.id in keys && b.round == round && ScanBlockOk(g, o, completed, failures, blocked, b))
    && (forall id :: id in keys ==>
          id in ready || id in BlockedIds(blocked) || (Waits(g, completed, failures, id) && BlockedLater(g, blocked, id)))
  }

  lemma BlockAppend(blocked: seq<Blocked>, b: Blocked)
    ensures BlockedIds(blocked + [b]) == BlockedIds(blocked) + {b.id}
    ensures MemoryIds(blocked + [b]) == MemoryIds(blocked) + if b.reason.MemoryBlocked? then {b.id} else {}
  {
    assert (blocked + [b])[|blocked|] == b;
    assert forall x :: x in blocked ==> x in blocked + [b];
  }

  lemma ScanBlockStays(g: Graph, o: Oracles, completed: set<string>, failures: set<string>, blocked: seq<Blocked>, b: Blocked, x: Blocked)
    requires ScanBlockOk(g, o, completed, failures, blocked, x) && (x == b || StringLess(x.id, b.id))
    ensures ScanBlockOk(g, o, completed, failures, blocked + [b], x)
  {
    StringLessOrder();
    BlockAppend(blocked, b);
    assert MemoryByTurn(blocked + [b], x.id) == MemoryByTurn(blocked, x.id);
  }

  lemma ScanBlocks(g: Graph, o: Oracles, keys: seq<string>, completed: set<string>, failures: set<string>, ready: seq<string>, blocked: seq<Blocked>, b: Blocked)
    requires ScanOk(g, o, keys, completed, failures, ready, blocked, b.round) && b.id !in keys
    requires ScanBlockOk(g, o, completed, failures, blocked, b)
    requires forall k :: k in keys ==> StringLess(k, b.id)
    ensures ScanOk(g, o, keys + [b.id], completed, failures, ready, blocked + [b], b.round)
  {
    BlockAppend(blocked, b);
    forall x | x in blocked + [b] ensures x.id in keys + [b.id] && ScanBlockOk(g, o, completed, failures, blocked + [b], x) {
      ScanBlockStays(g, o, completed, failures, blocked, b, x);
    }
  }

  lemma ScanStarts(g: Graph, o: Oracles, keys: seq<string>, completed: set<string>, failures: set<string>, ready: seq<string>, blocked: seq<Blocked>, id: string, round: nat)
    requires ScanOk(g, o, keys, completed, failures, ready, blocked, round) && id !in keys && Ready(g, o, completed, id)
    ensures ScanOk(g, o, keys + [id], completed, failures, ready + [id], blocked, round)
  {}

  lemma ScanWaits(g: Graph, o: Oracles, keys: seq<string>, completed: set<string>, failures: set<string>, ready: seq<string>, blocked: seq<Blocked>, id: string, round: nat)
    requires ScanOk(g, o, keys, completed, failures, ready, blocked, round)
    requires Waits(g, completed, failures, id) && forall d :: d in g[id] ==> d !in MemoryIds(blocked)
    ensures ScanOk(g, o, keys + [id], completed, failures, ready, blocked, round)
  {}

  /** The for loop over `sorted(pending.items())`. */
  method ScanPending(g: Graph, o: Oracles, keys: seq<string>, completed: set<string>, failures: set<string>, round: nat) returns (scan: Scan)
    requires Increasing(keys, StringLess) && forall id :: id in keys ==> id in g
    ensures scan.raised.None? ==> ScanOk(g, o, keys, completed, failures, scan.ready, scan.blocked, round)
    ensures scan.raised.Some? ==> scan.raised.value in g && !o.prepares(scan.raised.value, completed) && forall d :: d in g[scan.raised.value] ==> d in completed
  {
    SortedHasNoRepeats(keys);
    var ready: seq<string>, blocked: seq<Blocked> := [], [];
    var terminalFailures := failures;
    for i := 0 to |keys|
      invariant terminalFailures == failures + MemoryIds(blocked)
      invariant ScanOk(g, o, keys[..i], completed, failures, ready, blocked, round)
    {
      var id := keys[i];
      var deps := g[id];
      assert keys[..i + 1] == keys[..i] + [id] && id !in keys[..i];
      var failedDependencies := FailedDependencies(deps, terminalFailures);
      if failedDependencies != [] {
        var b := Blocked(id, DependencyFailed(failedDependencies), round);
        assert MemoryByTurn(blocked, id) == MemoryIds(blocked);
        ScanBlocks(g, o, keys[..i], completed, failures, ready, blocked, b);
        BlockAppend(blocked, b);
        blocked := blocked + [b];
      } else if exists d :: d in deps && d !in completed {
        NoFailedDependency(deps, terminalFailures);
        ScanWaits(g, o, keys[..i], completed, failures, ready, blocked, id, round);
      } else if o.memoryBlocks(id) {
        var b := Blocked(id, MemoryBlocked, round);
        ScanBlocks(g, o, keys[..i], completed, failures, ready, blocked, b);
        BlockAppend(blocked, b);
        blocked := blocked + [b];
        terminalFailures := terminalFailures + {id};
      } else if !o.prepares(id, completed) {
        return Scan(ready, blocked, Some(id));
      } else {
        ScanStarts(g, o, keys[..i], completed, failures, ready, blocked, id, round);
        ready := ready + [id];
      }
    }
    assert keys[..|keys|] == keys;
    return Scan(ready, blocked, None);
  }

  lemma SortedHasNoRepeats(keys: seq<string>)
    requires Increasing(keys, StringLess)
    ensures NoRepeats(keys)
  {
    StringLessOrder();
  }

  lemma NoFailedDependency(deps: seq<string>, failures: set<string>)
    requires FailedDependencies(deps, failures) == []
    ensures forall d :: d in deps ==> d !in failures
  {}

  // -------------------------------------------------------------------- the ready set

  /** `_execute_ready_set`: the results of the ready tasks in the order they complete. */
  method ExecuteReadySet(o: Oracles, ready: seq<string>, completion: seq<string>, round: nat) returns (results: seq<TaskResult>)
    requires multiset(completion) == multiset(ready)
    ensures |results| == |completion|
    ensures forall i :: 0 <= i < |results| ==> results[i] == TaskResult(completion[i], o.succeeds(completion[i]), round)
  {
    results := [];
    for i := 0 to |completion|
      invariant |results| == i
      invariant forall j :: 0 <= j < i ==> results[j] == TaskResult(completion[j], o.succeeds(completion[j]), round)
    {
      results := results + [TaskResult(completion[i], o.succeeds(completion[i]), round)];
    }
  }

  lemma PermutationKeepsElements<T>(a: seq<T>, b: seq<T>)
    requires multiset(a) == multiset(b) && NoRepeats(a)
    ensures |a| == |b| && NoRepeats(b) && forall x :: x in a <==> x in b
  {
    assert |a| == |multiset(a)| && |b| == |multiset(b)|;
    forall x ensures x in a <==> x in b {
      assert x in multiset(a) <==> x in multiset(b);
    }
    forall i, j | 0 <= i < j < |b| ensures b[i] != b[j] {
      if b[i] == b[j] {
        CountTwice(b, i, j);
        CountOnce(a, b[i]);
        assert false;
      }
    }
  }

  lemma CountTwice<T>(s: seq<T>, i: nat, j: nat)
    requires i < j < |s| && s[i] == s[j]
    ensures multiset(s)[s[i]] >= 2
  {
    assert s == s[..j] + s[j..];
    assert s[i] in s[..j] && s[i] in s[j..] by {
      assert s[..j][i] == s[i] && s[j..][0] == s[j];
    }
    assert s[i] in multiset(s[..j]) && s[i] in multiset(s[j..]);
  }

  lemma {:induction false} CountOnce<T>(s: seq<T>, x: T)
    requires NoRepeats(s)
    ensures multiset(s)[x] <= 1
    decreases |s|
  {
    if s != [] {
      var front, last := s[..|s| - 1], s[|s| - 1];
      CountOnce(front, x);
      assert s == front + [last];
      if x == last {
        assert x !in front;
        assert x !in multiset(front);
      }
    }
  }

  // ------------------------------------------------------------------- extending histories

  lemma SuccessAppend(results: seq<TaskResult>, r: TaskResult)
    ensures SuccessIds(results + [r]) == SuccessIds(results) + (if r.success then {r.id} else {})
    ensures FailureIds(results + [r]) == FailureIds(results) + (if r.success then {} else {r.id})
    ensures ResultIds(results + [r]) == ResultIds(results) + {r.id}
  {
    assert (results + [r])[|results|] == r;
    assert forall x :: x in results ==> x in results + [r];
  }

  /** The conditions under which a task may run in a round, after these results. */
  ghost predicate Runnable(g: Graph, o: Oracles, results: seq<TaskResult>, id: string, round: nat) {
    && id in g && !o.memoryBlocks(id)
    && (forall d :: d in g[id] ==> RanBefore(results, |results|, d, round))
    && (round > 0 ==> exists d :: d in g[id] && RanIn(results, d, round - 1))
  }

  lemma RanBeforeAppend(results: seq<TaskResult>, r: TaskResult, i: nat, d: string, round: nat)
    requires i <= |results|
    ensures RanBefore(results, i, d, round) ==> RanBefore(results + [r], i, d, round) && RanBefore(results + [r], |results| + 1, d, round)
    ensures RanIn(results, d, round) ==> RanIn(results + [r], d, round)
  {
    var t := results + [r];
    if RanBefore(results, i, d, round) {
      var j :| 0 <= j < i && results[j].id == d && results[j].success && results[j].round < round;
      assert t[j] == results[j];
    }
    if RanIn(results, d, round) {
      var j :| 0 <= j < |results| && results[j].id == d && results[j].success && results[j].round == round;
      assert t[j] == results[j];
    }
  }

  lemma RunnableAppend(g: Graph, o: Oracles, results: seq<TaskResult>, r: TaskResult, id: string, round: nat)
    requires Runnable(g, o, results, id, round)
    ensures Runnable(g, o, results + [r], id, round)
  {
    forall d | d in g[id] ensures RanBefore(results + [r], |results| + 1, d, round) {
      RanBeforeAppend(results, r, |results|, d, round);
    }
    if round > 0 {
      var d :| d in g[id] && RanIn(results, d, round - 1);
      RanBeforeAppend(results, r, |results|, d, round - 1);
    }
  }

  lemma ResultOkAppend(g: Graph, o: Oracles, results: seq<TaskResult>, r: TaskResult, i: nat)
    requires i < |results| && ResultOk(g, o, results, i)
    ensures ResultOk(g, o, results + [r], i)
  {
    var x := results[i];
    forall d | d in g[x.id] ensures RanBefore(results + [r], i, d, x.round) {
      RanBeforeAppend(results, r, i, d, x.round);
    }
    if x.round > 0 {
      var d :| d in g[x.id] && RanIn(results, d, x.round - 1);
      RanBeforeAppend(results, r, i, d, x.round - 1);
    }
  }

  lemma NewResultOk(g: Graph, o: Oracles, results: seq<TaskResult>, r: TaskResult)
    requires Runnable(g, o, results, r.id, r.round) && r.success == o.succeeds(r.id)
    ensures ResultOk(g, o, results + [r], |results|)
  {
    var t := results + [r];
    forall d | d in g[r.id] ensures RanBefore(t, |results|, d, r.round) {
      RanBeforeAppend(results, r, |results|, d, r.round);
    }
    if r.round > 0 {
      var d :| d in g[r.id] && RanIn(results, d, r.round - 1);
      RanBeforeAppend(results, r, |results|, d, r.round - 1);
    }
  }

  lemma BlockOkAppend(g: Graph, o: Oracles, results: seq<TaskResult>, blocked: seq<Blocked>, b: Blocked, r: TaskResult)
    requires BlockOk(g, o, results, blocked, b) && b.round <= r.round
    ensures BlockOk(g, o, results + [r], blocked, b)
  {
    var t := results + [r];
    assert forall x :: x in t <==> x in results || x == r;
    assert FailedByTurn(g, t, blocked, b) == FailedByTurn(g, results, blocked, b);
    if b.reason.MemoryBlocked? {
      forall d | d in g[b.id] ensures RanBefore(t, |t|, d, b.round) {
        RanBeforeAppend(results, r, |results|, d, b.round);
      }
      if b.round > 0 {
        var d :| d in g[b.id] && RanIn(results, d, b.round - 1);
        RanBeforeAppend(results, r, |results|, d, b.round - 1);
      }
    }
  }

  lemma AppendResult(g: Graph, o: Oracles, results: seq<TaskResult>, blocked: seq<Blocked>, r: TaskResult)
    requires HistoryOk(g, o, results, blocked) && r.id !in ResultIds(results) && r.id !in BlockedIds(blocked)
    requires Runnable(g, o, results, r.id, r.round) && r.success == o.succeeds(r.id)
    requires forall b :: b in blocked ==> b.round <= r.round
    ensures HistoryOk(g, o, results + [r], blocked)
  {
    var t := results + [r];
    SuccessAppend(results, r);
    forall i | 0 <= i < |t| ensures ResultOk(g, o, t, i) {
      if i < |results| { ResultOkAppend(g, o, results, r, i); } else { NewResultOk(g, o, results, r); }
    }
    forall b | b in blocked ensures BlockOk(g, o, t, blocked, b) {
      BlockOkAppend(g, o, results, blocked, b, r);
    }
    assert Once(t, blocked) by {
      forall i | 0 <= i < |results| ensures t[i].id != r.id {
        assert results[i] in results;
      }
    }
  }

  lemma BlocksConcat(a: seq<Blocked>, b: seq<Blocked>)
    ensures BlockedIds(a + b) == BlockedIds(a) + BlockedIds(b)
    ensures MemoryIds(a + b) == MemoryIds(a) + MemoryIds(b)
  {
    assert forall x :: x in a + b <==> x in a || x in b;
  }

  /** A block decided by a scan, as an entry of the history. */
  lemma ScannedBlockOk(g: Graph, o: Oracles, results: seq<TaskResult>, blocked: seq<Blocked>, more: seq<Blocked>, b: Blocked)
    requires ScanBlockOk(g, o, SuccessIds(results), FailureIds(results) + MemoryIds(blocked), more, b) && b in more
    requires (forall m :: m in more ==> m.round == b.round) && (forall m :: m in blocked ==> m.round < b.round)
    requires (forall r :: r in results ==> r.round < b.round) && (b.round > 0 ==> SomeRan(results, b.round - 1))
    requires LateDependency(g, results, b.id, b.round)
    ensures BlockOk(g, o, results, blocked + more, b)
  {
    match b.reason {
      case MemoryBlocked => CompletedJustNow(g, results, b.id, b.round);
      case DependencyFailed(failed) =>
        var failures := FailureIds(results) + MemoryIds(blocked) + MemoryByTurn(more, b.id);
        forall d ensures d in failures <==> FailedBefore(results, d, b.round) || MemoryBefore(blocked + more, d, b) {
          FailedByTheTurn(results, blocked, more, d, b);
        }
        SameFailures(g[b.id], failures, FailedByTurn(g, results, blocked + more, b));
    }
  }

  lemma FailedByTheTurn(results: seq<TaskResult>, blocked: seq<Blocked>, more: seq<Blocked>, d: string, b: Blocked)
    requires (forall m :: m in more ==> m.round == b.round) && (forall m :: m in blocked ==> m.round < b.round)
    requires forall r :: r in results ==> r.round < b.round
    ensures d in FailureIds(results) <==> FailedBefore(results, d, b.round)
    ensures d in MemoryIds(blocked) || d in MemoryByTurn(more, b.id) <==> MemoryBefore(blocked + more, d, b)
  {
    assert forall m :: m in blocked + more <==> m in blocked || m in more;
  }

  lemma AppendBlocks(g: Graph, o: Oracles, keys: seq<string>, results: seq<TaskResult>, blocked: seq<Blocked>, ready: seq<string>, more: seq<Blocked>, round: nat)
    requires HistoryOk(g, o, results, blocked)
    requires ScanOk(g, o, keys, SuccessIds(results), FailureIds(results) + MemoryIds(blocked), ready, more, round)
    requires forall id :: id in keys ==> id !in ResultIds(results) && id !in BlockedIds(blocked) && LateDependency(g, results, id, round)
    requires (forall m :: m in blocked ==> m.round < round) && (forall r :: r in results ==> r.round < round)
    requires round > 0 ==> SomeRan(results, round - 1)
    ensures HistoryOk(g, o, results, blocked + more)
  {
    forall b | b in blocked + more ensures BlockOk(g, o, results, blocked + more, b) {
      if b in blocked {
        BlockOkMore(g, o, results, blocked, more, b);
      } else {
        ScannedBlockOk(g, o, results, blocked, more, b);
      }
    }
    OnceConcat(results, blocked, more);
  }

  lemma BlockOkMore(g: Graph, o: Oracles, results: seq<TaskResult>, blocked: seq<Blocked>, more: seq<Blocked>, b: Blocked)
    requires BlockOk(g, o, results, blocked, b) && forall m :: m in more ==> b.round < m.round
    ensures BlockOk(g, o, results, blocked + more, b)
  {
    assert forall m :: m in blocked + more <==> m in blocked || m in more;
    assert b.reason.DependencyFailed? ==> FailedByTurn(g, results, blocked + more, b) == FailedByTurn(g, results, blocked, b);
  }

  lemma OnceConcat(results: seq<TaskResult>, blocked: seq<Blocked>, more: seq<Blocked>)
    requires Once(results, blocked) && NoRepeatedBlocks(more)
    requires forall b :: b in more ==> b.id !in ResultIds(results) && b.id !in BlockedIds(blocked)
    ensures Once(results, blocked + more)
  {
    BlocksConcat(blocked, more);
    var t := blocked + more;
    forall i, j | 0 <= i < j < |t| ensures t[i].id != t[j].id {
      if i < |blocked| <= j {
        assert t[i] in blocked && t[j] in more;
      }
    }
  }

  /** Some dependency had not completed before the previous round. */
  ghost predicate LateDependency(g: Graph, results: seq<TaskResult>, id: string, round: nat) {
    id in g && (round > 0 ==> exists d :: d in g[id] && !RanBefore(results, |results|, d, round - 1))
  }

  lemma SuccessRan(results: seq<TaskResult>, d: string, round: nat)
    requires forall r :: r in results ==> r.round < round
    ensures d in SuccessIds(results) <==> RanBefore(results, |results|, d, round)
  {
    if d in SuccessIds(results) {
      var r :| r in results && r.success && r.id == d;
      var j :| 0 <= j < |results| && results[j] == r;
    }
  }

  /** A task whose dependencies have all completed now, and had not one round before. */
  lemma CompletedJustNow(g: Graph, results: seq<TaskResult>, id: string, round: nat)
    requires LateDependency(g, results, id, round) && forall d :: d in g[id] ==> d in SuccessIds(results)
    requires forall r :: r in results ==> r.round < round
    ensures forall d :: d in g[id] ==> RanBefore(results, |results|, d, round)
    ensures round > 0 ==> exists d :: d in g[id] && RanIn(results, d, round - 1)
  {
    forall d | d in g[id] ensures RanBefore(results, |results|, d, round) {
      SuccessRan(results, d, round);
    }
    if round > 0 {
      var d :| d in g[id] && !RanBefore(results, |results|, d, round - 1);
      assert RanBefore(results, |results|, d, round);
      var j :| 0 <= j < |results| && results[j].id == d && results[j].success && results[j].round < round;
      assert RanIn(results, d, round - 1);
    }
  }

  // ------------------------------------------------------------------------ the scheduler

  /** The results of one round, ready to be recorded after earlier ones. */
  ghost predicate RoundOf(g: Graph, o: Oracles, before: seq<TaskResult>, blocked: seq<Blocked>, results: seq<TaskResult>, round: nat) {
    && (forall i, j :: 0 <= i < j < |results| ==> results[i].id != results[j].id)
    && forall r :: r in results ==>
         && r.id !in ResultIds(before) && r.id !in BlockedIds(blocked) && Runnable(g, o, before, r.id, round)
         && r == TaskResult(r.id, o.succeeds(r.id), round)
  }

  lemma RoundTail(g: Graph, o: Oracles, before: seq<TaskResult>, blocked: seq<Blocked>, results: seq<TaskResult>, round: nat)
    requires RoundOf(g, o, before, blocked, results, round) && results != []
    ensures RoundOf(g, o, before + [results[0]], blocked, results[1..], round)
  {
    var first := results[0];
    SuccessAppend(before, first);
    forall r | r in results[1..]
      ensures r.id !in ResultIds(before + [first]) && r in results && Runnable(g, o, before + [first], r.id, round)
    {
      var k :| 0 <= k < |results| - 1 && results[1..][k] == r;
      assert results[k + 1] == r && first.id != r.id;
      RunnableAppend(g, o, before, first, r.id, round);
    }
  }

  /** The loop that classifies the results of a round and adds their artifacts. */
  method RecordResults(g: Graph, o: Oracles, before: seq<TaskResult>, blocked: seq<Blocked>, ready: seq<TaskResult>, round: nat)
    returns (results: seq<TaskResult>, completed: set<string>, failures: set<string>, raised: Option<string>)
    requires HistoryOk(g, o, before, blocked) && RoundOf(g, o, before, blocked, ready, round)
    requires forall b :: b in blocked ==> b.round <= round
    ensures raised.None? ==> results == before + ready && HistoryOk(g, o, results, blocked)
    ensures raised.None? ==> completed == SuccessIds(results) && failures == FailureIds(results) + MemoryIds(blocked)
    ensures raised.Some? ==> raised.value in g && o.succeeds(raised.value) && !o.absorbs(raised.value)
  {
    results, completed, failures, raised := before, SuccessIds(before), FailureIds(before) + MemoryIds(blocked), None;
    for i := 0 to |ready|
      invariant results == before + ready[..i] && HistoryOk(g, o, results, blocked)
      invariant RoundOf(g, o, results, blocked, ready[i..], round)
      invariant completed == SuccessIds(results) && failures == FailureIds(results) + MemoryIds(blocked)
    {
      var result := ready[i];
      assert result == ready[i..][0] && ready[i..][1..] == ready[i + 1..];
      assert result in ready[i..];
      RoundTail(g, o, results, blocked, ready[i..], round);
      AppendResult(g, o, results, blocked, result);
      SuccessAppend(results, result);
      if result.success {
        completed := completed + {result.id};
        if !o.absorbs(result.id) {
          return results, completed, failures, Some(result.id);
        }
      } else {
        failures := failures + {result.id};
      }
      assert before + ready[..i + 1] == results + [result];
      results := results + [result];
    }
    assert ready[..|ready|] == ready;
  }

  lemma WaitsIsLate(g: Graph, before: seq<TaskResult>, failures: set<string>, more: seq<TaskResult>, id: string, round: nat)
    requires Waits(g, SuccessIds(before), failures, id)
    requires (forall r :: r in before ==> r.round < round) && forall r :: r in more ==> r.round == round
    ensures LateDependency(g, before + more, id, round + 1)
  {
    var d :| d in g[id] && d !in SuccessIds(before);
    forall j | 0 <= j < |before| ensures before[j].id != d || !before[j].success {
      assert before[j] in before;
    }
    forall j | 0 <= j < |more| ensures more[j].round == round {
      assert more[j] in more;
    }
    assert !RanBefore(before + more, |before + more|, d, round);
  }

  /** What any run does, whatever the graph. */
  ghost predicate RunOk(g: Graph, o: Oracles, run: Run) {
    match run
    case Finished(results, blocked) =>
      HistoryOk(g, o, results, blocked) && ResultIds(results) + BlockedIds(blocked) == g.Keys
    case Stalled(remaining, round, results, blocked) =>
      && HistoryOk(g, o, results, blocked) && remaining != {}
      && remaining == g.Keys - ResultIds(results) - BlockedIds(blocked)
      && (forall r :: r in results ==> r.round < round)
      && forall id :: id in remaining ==> LeftPending(g, results, blocked, id, round)
    case Raised(id) =>
      id in g && ((exists c :: !o.prepares(id, c) && forall d :: d in g[id] ==> d in c) || (o.succeeds(id) && !o.absorbs(id)))
  }

  /** Where the loop is at the start of a round. */
  ghost predicate AtRound(g: Graph, o: Oracles, pending: set<string>, results: seq<TaskResult>, blocked: seq<Blocked>, round: nat) {
    && HistoryOk(g, o, results, blocked)
    && pending == g.Keys - ResultIds(results) - BlockedIds(blocked)
    && ResultIds(results) + BlockedIds(blocked) <= g.Keys
    && (forall r :: r in results ==> r.round < round) && (forall b :: b in blocked ==> b.round < round)
    && (round > 0 ==> SomeRan(results, round - 1))
    && forall id :: id in pending ==> LateDependency(g, results, id, round)
  }

  lemma RoundStarts(g: Graph, o: Oracles, pending: set<string>, keys: seq<string>, results: seq<TaskResult>, blocked: seq<Blocked>, scan: Scan, round: nat, done: seq<TaskResult>)
    requires AtRound(g, o, pending, results, blocked, round) && forall id :: id in keys <==> id in pending
    requires ScanOk(g, o, keys, SuccessIds(results), FailureIds(results) + MemoryIds(blocked), scan.ready, scan.blocked, round)
    requires |done| == |scan.ready| && NoRepeats(scan.ready)
    requires (forall i, j :: 0 <= i < j < |done| ==> done[i].id != done[j].id)
    requires forall r :: r in done ==> r.id in scan.ready && r == TaskResult(r.id, o.succeeds(r.id), round)
    ensures RoundOf(g, o, results, blocked + scan.blocked, done, round)
  {
    BlocksConcat(blocked, scan.blocked);
    forall r | r in done ensures Runnable(g, o, results, r.id, round) && r.id !in BlockedIds(blocked + scan.blocked) {
      CompletedJustNow(g, results, r.id, round);
    }
  }

  lemma ResultsConcat(a: seq<TaskResult>, b: seq<TaskResult>)
    ensures ResultIds(a + b) == ResultIds(a) + ResultIds(b)
    ensures forall r :: r in a + b <==> r in a || r in b
  {
    assert forall r :: r in a + b <==> r in a || r in b;
  }

  lemma SomeRanNow(before: seq<TaskResult>, done: seq<TaskResult>, id: string, round: nat)
    requires id in ResultIds(done) && forall r :: r in done ==> r.round == round
    ensures SomeRan(before + done, round)
  {
    var r :| r in done && r.id == id;
    assert r in before + done;
  }

  lemma LeftIsLate(g: Graph, o: Oracles, keys: seq<string>, before: seq<TaskResult>, failures: set<string>, scan: Scan, done: seq<TaskResult>, id: string, round: nat)
    requires ScanOk(g, o, keys, SuccessIds(before), failures, scan.ready, scan.blocked, round)
    requires id in keys && id !in scan.ready && id !in BlockedIds(scan.blocked)
    requires (forall r :: r in before ==> r.round < round) && forall r :: r in done ==> r.round == round
    ensures LateDependency(g, before + done, id, round + 1)
  {
    WaitsIsLate(g, before, failures, done, id, round);
  }

  lemma RoundEnds(g: Graph, o: Oracles, pending: set<string>, keys: seq<string>, before: seq<TaskResult>, blocked: seq<Blocked>, scan: Scan, round: nat, done: seq<TaskResult>)
    requires AtRound(g, o, pending, before, blocked, round) && forall id :: id in keys <==> id in pending
    requires ScanOk(g, o, keys, SuccessIds(before), FailureIds(before) + MemoryIds(blocked), scan.ready, scan.blocked, round)
    requires scan.ready != [] && HistoryOk(g, o, before + done, blocked + scan.blocked)
    requires ResultIds(done) == IdSet(scan.ready) && forall r :: r in done ==> r.round == round
    ensures AtRound(g, o, pending - IdSet(scan.ready) - BlockedIds(scan.blocked), before + done, blocked + scan.blocked, round + 1)
  {
    BlocksConcat(blocked, scan.blocked);
    ResultsConcat(before, done);
    SomeRanNow(before, done, scan.ready[0], round);
    var left := pending - IdSet(scan.ready) - BlockedIds(scan.blocked);
    forall id | id in left ensures LateDependency(g, before + done, id, round + 1) {
      LeftIsLate(g, o, keys, before, FailureIds(before) + MemoryIds(blocked), scan, done, id, round);
    }
    PendingShrinks(g.Keys, ResultIds(before), BlockedIds(blocked), IdSet(scan.ready), BlockedIds(scan.blocked));
  }

  lemma PendingShrinks(all: set<string>, r: set<string>, b: set<string>, r': set<string>, b': set<string>)
    requires r + b <= all && r' <= all - r - b && b' <= all - r - b
    ensures all - r - b - r' - b' == all - (r + r') - (b + b') && (r + r') + (b + b') <= all
  {}

  function IdSet(ids: seq<string>): set<string> {
    set id | id in ids
  }

  /** The local variables of the loop. */
  datatype Loop = Loop(pending: set<string>, completed: set<string>, failures: set<string>, results: seq<TaskResult>, blocked: seq<Blocked>)

  ghost predicate LoopOk(g: Graph, o: Oracles, l: Loop, round: nat) {
    && AtRound(g, o, l.pending, l.results, l.blocked, round)
    && l.completed == SuccessIds(l.results) && l.failures == FailureIds(l.results) + MemoryIds(l.blocked)
  }

  ghost predicate ScannedOk(g: Graph, o: Oracles, l: Loop, keys: seq<string>, scan: Scan, round: nat) {
    && (forall id :: id in keys <==> id in l.pending)
    && ScanOk(g, o, keys, l.completed, l.failures, scan.ready, scan.blocked, round)
  }

  /** A round without ready tasks ends the run, normally or with the stall error. */
  method EndRun(g: Graph, o: Oracles, l: Loop, ghost keys: seq<string>, scan: Scan, round: nat) returns (run: Run)
    requires LoopOk(g, o, l, round) && ScannedOk(g, o, l, keys, scan, round) && scan.ready == []
    ensures RunOk(g, o, run) && !run.Raised?
  {
    var remaining := l.pending - BlockedIds(scan.blocked);
    AppendBlocks(g, o, keys, l.results, l.blocked, scan.ready, scan.blocked, round);
    BlocksConcat(l.blocked, scan.blocked);
    var blocked := l.blocked + scan.blocked;
    if remaining == {} {
      Exhausted(ResultIds(l.results), BlockedIds(blocked), g.Keys);
      return Finished(l.results, blocked);
    }
    forall id | id in remaining ensures LeftPending(g, l.results, blocked, id, round) {
      WaitingIsLeft(g, l, scan, id, round);
    }
    return Stalled(remaining, round, l.results, blocked);
  }

  lemma WaitingIsLeft(g: Graph, l: Loop, scan: Scan, id: string, round: nat)
    requires l.completed == SuccessIds(l.results) && l.failures == FailureIds(l.results) + MemoryIds(l.blocked)
    requires Waits(g, l.completed, l.failures, id) && BlockedLater(g, scan.blocked, id)
    requires forall b :: b in scan.blocked ==> b.round == round
    ensures LeftPending(g, l.results, l.blocked + scan.blocked, id, round)
  {
    forall m | m in l.blocked + scan.blocked && m.reason.MemoryBlocked? && m.id in g[id] ensures m in scan.blocked {
      assert m in l.blocked ==> m.id in MemoryIds(l.blocked);
    }
  }

  lemma Exhausted(a: set<string>, b: set<string>, all: set<string>)
    requires a + b <= all && all - a - b == {}
    ensures a + b == all
  {
    forall x | x in all ensures x in a + b {
      assert x !in all - a - b;
    }
  }

  lemma ReadyResults(o: Oracles, ready: seq<string>, order: seq<string>, done: seq<TaskResult>, round: nat)
    requires multiset(order) == multiset(ready) && NoRepeats(ready) && |done| == |order|
    requires forall i :: 0 <= i < |done| ==> done[i] == TaskResult(order[i], o.succeeds(order[i]), round)
    ensures |done| == |ready| && ResultIds(done) == IdSet(ready)
    ensures forall i, j :: 0 <= i < j < |done| ==> done[i].id != done[j].id
    ensures forall r :: r in done ==> r.id in ready && r == TaskResult(r.id, o.succeeds(r.id), round)
  {
    PermutationKeepsElements(ready, order);
    assert forall r :: r in done ==> r.id in order;
    forall id | id in ready ensures id in ResultIds(done) {
      var k :| 0 <= k < |order| && order[k] == id;
      assert done[k] in done;
    }
  }

  /** A round with ready tasks runs them all. */
  method RunReady(g: Graph, o: Oracles, l: Loop, ghost keys: seq<string>, scan: Scan, round: nat, order: seq<string>)
    returns (next: Loop, raised: Option<string>)
    requires LoopOk(g, o, l, round) && ScannedOk(g, o, l, keys, scan, round) && scan.ready != []
    requires multiset(order) == multiset(scan.ready)
    ensures raised.Some? ==> RunOk(g, o, Raised(raised.value))
    ensures raised.None? ==> LoopOk(g, o, next, round + 1) && next.pending < l.pending
  {
    AppendBlocks(g, o, keys, l.results, l.blocked, scan.ready, scan.blocked, round);
    var pending := l.pending - IdSet(scan.ready) - BlockedIds(scan.blocked);
    var done := ExecuteReadySet(o, scan.ready, order, round);
    ReadyResults(o, scan.ready, order, done, round);
    RoundStarts(g, o, l.pending, keys, l.results, l.blocked, scan, round, done);
    var results, completed, failures, r := RecordResults(g, o, l.results, l.blocked + scan.blocked, done, round);
    raised := r;
    next := Loop(pending, completed, failures, results, l.blocked + scan.blocked);
    if raised.None? {
      RoundEnds(g, o, l.pending, keys, l.results, l.blocked, scan, round, done);
      assert scan.ready[0] in l.pending;
    }
  }

  /** `_execute_dag`. completion(round, ready) is the order in which a round's agents finish. */
  method ExecuteDag(g: Graph, o: Oracles, completion: (nat, seq<string>) -> seq<string>) returns (run: Run)
    requires forall k, ready :: multiset(completion(k, ready)) == multiset(ready)
    ensures RunOk(g, o, run)
  {
    var l := Loop(g.Keys, {}, {}, [], []);
    var round := 0;
    while l.pending != {}
      invariant LoopOk(g, o, l, round)
      decreases l.pending
    {
      var keys := SortedStrings(l.pending);
      var scan := ScanPending(g, o, keys, l.completed, l.failures, round);
      if scan.raised.Some? {
        return Raised(scan.raised.value);
      }
      if scan.ready == [] {
        run := EndRun(g, o, l, keys, scan, round);
        return;
      }
      var next, raised := RunReady(g, o, l, keys, scan, round, completion(round, scan.ready));
      if raised.Some? {
        return Raised(raised.value);
      }
      l := next;
      round := round + 1;
    }
    Exhausted(ResultIds(l.results), BlockedIds(l.blocked), g.Keys);
    return Finished(l.results, l.blocked);
  }
}
