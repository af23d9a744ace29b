/** What the scheduler's histories mean: on every graph, cyclic ones included, the fate of each
    task is determined by the graph and the oracles, whatever order agents finish in, and so is
    whether a run stalls. */
module DagOutcomes {
  import opened Ordering
  import opened DagScheduler

  datatype Fate = Succeeds | Fails | IsMemoryBlocked | IsDependencyFailed | Starves

  predicate Terminal(f: Fate) {
    f.Fails? || f.IsMemoryBlocked?
  }

  /** A task whose turn to run comes: all its dependencies succeed. */
  predicate Decided(f: Fate) {
    f.Succeeds? || f.Fails? || f.IsMemoryBlocked?
  }

  ghost predicate SomeTerminal(deps: seq<string>, fates: string -> Fate) {
    exists d :: d in deps && Terminal(fates(d))
  }

  ghost predicate AllSucceed(deps: seq<string>, fates: string -> Fate) {
    forall d :: d in deps ==> fates(d).Succeeds?
  }

  /** A task whose dependency failed or was memory-blocked is blocked; one that has no such
      dependency but one that was itself blocked, is missing or starves, never becomes ready. */
  ghost function FateFrom(g: Graph, o: Oracles, id: string, fates: string -> Fate): Fate {
    if id !in g then Starves
    else if SomeTerminal(g[id], fates) then IsDependencyFailed
    else if !AllSucceed(g[id], fates) then Starves
    else if o.memoryBlocks(id) then IsMemoryBlocked
    else if o.succeeds(id) then Succeeds else Fails
  }

  /** The fate that is settled after k passes along the dependencies; until then a task starves. */
  ghost function FateWithin(g: Graph, o: Oracles, k: nat, id: string): Fate {
    if k == 0 then Starves else FateFrom(g, o, id, (d: string) => FateWithin(g, o, k - 1, d))
  }

  /** The least fixpoint: a task starves if no number of passes settles its fate. */
  ghost function FateOf(g: Graph, o: Oracles, id: string): Fate {
    if k: nat :| !FateWithin(g, o, k, id).Starves? then FateWithin(g, o, k, id) else Starves
  }

  lemma FateFromMore(g: Graph, o: Oracles, id: string, f: string -> Fate, f': string -> Fate)
    requires forall d :: !f(d).Starves? ==> f'(d) == f(d)
    ensures !FateFrom(g, o, id, f).Starves? ==> FateFrom(g, o, id, f') == FateFrom(g, o, id, f)
  {}

  lemma {:induction false} FateSettles(g: Graph, o: Oracles, j: nat, k: nat, id: string)
    requires j <= k && !FateWithin(g, o, j, id).Starves?
    ensures FateWithin(g, o, k, id) == FateWithin(g, o, j, id)
  {
    var f, f' := (d: string) => FateWithin(g, o, j - 1, d), (d: string) => FateWithin(g, o, k - 1, d);
    forall d | !f(d).Starves? ensures f'(d) == f(d) {
      FateSettles(g, o, j - 1, k - 1, d);
    }
    FateFromMore(g, o, id, f, f');
  }

  lemma FateIs(g: Graph, o: Oracles, j: nat, id: string)
    requires !FateWithin(g, o, j, id).Starves?
    ensures FateOf(g, o, id) == FateWithin(g, o, j, id)
  {
    var k: nat :| !FateWithin(g, o, k, id).Starves? && FateOf(g, o, id) == FateWithin(g, o, k, id);
    if j <= k { FateSettles(g, o, j, k, id); } else { FateSettles(g, o, k, j, id); }
  }

  ghost predicate SettledFor(g: Graph, o: Oracles, deps: seq<string>, k: nat) {
    forall d :: d in deps ==> FateWithin(g, o, k, d) == FateOf(g, o, d)
  }

  lemma {:induction false} AllSettle(g: Graph, o: Oracles, deps: seq<string>, least: nat) returns (k: nat)
    ensures k >= least && SettledFor(g, o, deps, k)
  {
    k := least;
    if deps != [] {
      var j := AllSettle(g, o, deps[1..], least);
      k := j;
      if !FateOf(g, o, deps[0]).Starves? {
        var i: nat :| !FateWithin(g, o, i, deps[0]).Starves?;
        k := if i >= j then i else j;
      }
      forall d | d in deps ensures FateWithin(g, o, k, d) == FateOf(g, o, d) {
        if !FateOf(g, o, d).Starves? {
          var i: nat :| !FateWithin(g, o, i, d).Starves? && (d == deps[0] || i == j) && i <= k;
          FateSettles(g, o, i, k, d);
          FateIs(g, o, k, d);
        } else if !FateWithin(g, o, k, d).Starves? {
          FateIs(g, o, k, d);
        }
      }
    }
  }

  lemma FateFromAgrees(g: Graph, o: Oracles, id: string, f: string -> Fate, f': string -> Fate)
    requires id in g ==> forall d :: d in g[id] ==> f(d) == f'(d)
    ensures FateFrom(g, o, id, f) == FateFrom(g, o, id, f')
  {}

  lemma FateAfter(g: Graph, o: Oracles, id: string, least: nat) returns (k: nat)
    ensures k >= least && FateWithin(g, o, k, id) == FateFrom(g, o, id, (d: string) => FateOf(g, o, d))
  {
    var j := AllSettle(g, o, if id in g then g[id] else [], least);
    FateFromAgrees(g, o, id, (d: string) => FateWithin(g, o, j, d), (d: string) => FateOf(g, o, d));
    k := j + 1;
    assert FateWithin(g, o, k, id) == FateFrom(g, o, id, (d: string) => FateWithin(g, o, j, d));
  }

  /** The fates satisfy their equation. */
  lemma FateUnfolds(g: Graph, o: Oracles, id: string)
    ensures FateOf(g, o, id) == FateFrom(g, o, id, (d: string) => FateOf(g, o, d))
  {
    if least: nat :| !FateWithin(g, o, least, id).Starves? {
      var k := FateAfter(g, o, id, least);
      FateSettles(g, o, least, k, id);
      FateIs(g, o, k, id);
    } else {
      var k := FateAfter(g, o, id, 0);
    }
  }

  /** The equation, for a task of the graph. */
  lemma FateOfTask(g: Graph, o: Oracles, id: string)
    requires id in g
    ensures FateOf(g, o, id).IsDependencyFailed? <==> exists d :: d in g[id] && Terminal(FateOf(g, o, d))
    ensures Decided(FateOf(g, o, id)) <==> forall d :: d in g[id] ==> FateOf(g, o, d).Succeeds?
    ensures Decided(FateOf(g, o, id)) ==> (FateOf(g, o, id).IsMemoryBlocked? <==> o.memoryBlocks(id))
    ensures FateOf(g, o, id).Succeeds? ==> o.succeeds(id)
    ensures FateOf(g, o, id).Fails? ==> !o.succeeds(id)
  {
    FateUnfolds(g, o, id);
  }

  lemma FateOfMissing(g: Graph, o: Oracles, id: string)
    requires id !in g
    ensures FateOf(g, o, id).Starves?
  {
    FateUnfolds(g, o, id);
  }

  /** What a history records of a task. */
  ghost predicate Recorded(results: seq<TaskResult>, blocked: seq<Blocked>, id: string, f: Fate) {
    match f
    case Succeeds => id in SuccessIds(results)
    case Fails => id in FailureIds(results)
    case IsMemoryBlocked => id in MemoryIds(blocked)
    case IsDependencyFailed => id in BlockedIds(blocked) && id !in MemoryIds(blocked)
    case Starves => false
  }

  lemma OneResult(results: seq<TaskResult>, blocked: seq<Blocked>, x: TaskResult, y: TaskResult)
    requires Once(results, blocked) && x in results && y in results && x.id == y.id
    ensures x == y
  {
    var i :| 0 <= i < |results| && results[i] == x;
    var j :| 0 <= j < |results| && results[j] == y;
  }

  lemma OneBlock(results: seq<TaskResult>, blocked: seq<Blocked>, x: Blocked, y: Blocked)
    requires Once(results, blocked) && x in blocked && y in blocked && x.id == y.id
    ensures x == y
  {
    var i :| 0 <= i < |blocked| && blocked[i] == x;
    var j :| 0 <= j < |blocked| && blocked[j] == y;
  }

  lemma RecordedOnce(results: seq<TaskResult>, blocked: seq<Blocked>, id: string, f: Fate, f': Fate)
    requires Once(results, blocked) && Recorded(results, blocked, id, f) && Recorded(results, blocked, id, f')
    ensures f == f'
  {
    forall x, y | x in results && y in results && x.success && !y.success ensures x.id != y.id {
      if x.id == y.id {
        OneResult(results, blocked, x, y);
      }
    }
    assert SuccessIds(results) <= ResultIds(results) && FailureIds(results) <= ResultIds(results);
    assert MemoryIds(blocked) <= BlockedIds(blocked);
  }

  lemma {:induction false} ResultFate(g: Graph, o: Oracles, results: seq<TaskResult>, blocked: seq<Blocked>, i: nat)
    requires HistoryOk(g, o, results, blocked) && i < |results|
    ensures results[i].id in g && FateOf(g, o, results[i].id) == if results[i].success then Succeeds else Fails
    decreases i, 1
  {
    assert ResultOk(g, o, results, i);
    var id := results[i].id;
    DependenciesSucceed(g, o, results, blocked, i, id, results[i].round);
    FateOfTask(g, o, id);
  }

  lemma DependenciesSucceed(g: Graph, o: Oracles, results: seq<TaskResult>, blocked: seq<Blocked>, i: nat, id: string, round: nat)
    requires HistoryOk(g, o, results, blocked) && i <= |results| && id in g
    requires forall d :: d in g[id] ==> RanBefore(results, i, d, round)
    ensures forall d :: d in g[id] ==> FateOf(g, o, d).Succeeds?
    decreases i, 0
  {
    forall d | d in g[id] ensures FateOf(g, o, d).Succeeds? {
      var j :| 0 <= j < i && results[j].id == d && results[j].success && results[j].round < round;
      ResultFate(g, o, results, blocked, j);
    }
  }

  lemma MemoryFate(g: Graph, o: Oracles, results: seq<TaskResult>, blocked: seq<Blocked>, b: Blocked)
    requires HistoryOk(g, o, results, blocked) && b in blocked && b.reason.MemoryBlocked?
    ensures b.id in g && FateOf(g, o, b.id).IsMemoryBlocked?
  {
    assert BlockOk(g, o, results, blocked, b);
    DependenciesSucceed(g, o, results, blocked, |results|, b.id, b.round);
    FateOfTask(g, o, b.id);
  }

  lemma TerminalFate(g: Graph, o: Oracles, results: seq<TaskResult>, blocked: seq<Blocked>, b: Blocked, d: string)
    requires HistoryOk(g, o, results, blocked) && (FailedBefore(results, d, b.round) || MemoryBefore(blocked, d, b))
    ensures Terminal(FateOf(g, o, d))
    ensures FateOf(g, o, d).IsMemoryBlocked? <==> MemoryBefore(blocked, d, b)
  {
    if MemoryBefore(blocked, d, b) {
      var m :| m in blocked && m.id == d && m.reason.MemoryBlocked?;
      MemoryFate(g, o, results, blocked, m);
    } else {
      var x :| x in results && x.id == d && !x.success;
      var j :| 0 <= j < |results| && results[j] == x;
      ResultFate(g, o, results, blocked, j);
    }
  }

  /** Every task that a history records got its fate. */
  lemma RecordedFate(g: Graph, o: Oracles, results: seq<TaskResult>, blocked: seq<Blocked>, id: string)
    requires HistoryOk(g, o, results, blocked) && id in ResultIds(results) + BlockedIds(blocked)
    ensures id in g && Recorded(results, blocked, id, FateOf(g, o, id))
  {
    if id in ResultIds(results) {
      var r :| r in results && r.id == id;
      var i :| 0 <= i < |results| && results[i] == r;
      ResultFate(g, o, results, blocked, i);
    } else {
      var b :| b in blocked && b.id == id;
      assert BlockOk(g, o, results, blocked, b);
      match b.reason {
        case MemoryBlocked =>
          MemoryFate(g, o, results, blocked, b);
        case DependencyFailed(failed) =>
          ListedHasFailed(g, o, results, blocked, b, failed[0]);
          TerminalFate(g, o, results, blocked, b, failed[0]);
          FateOfTask(g, o, id);
          forall m | m in blocked && m.id == id ensures !m.reason.MemoryBlocked? {
            OneBlock(results, blocked, m, b);
          }
      }
    }
  }

  /** Two runs that return normally agree on every task, however their agents interleave. */
  lemma OrderIndependence(g: Graph, o: Oracles, a: Run, b: Run, id: string)
    requires RunOk(g, o, a) && RunOk(g, o, b) && a.Finished? && b.Finished? && id in g
    ensures !FateOf(g, o, id).Starves?
    ensures forall f :: Recorded(a.results, a.blocked, id, f) <==> Recorded(b.results, b.blocked, id, f)
  {
    RecordedFate(g, o, a.results, a.blocked, id);
    RecordedFate(g, o, b.results, b.blocked, id);
    forall f ensures Recorded(a.results, a.blocked, id, f) <==> Recorded(b.results, b.blocked, id, f) {
      if Recorded(a.results, a.blocked, id, f) { RecordedOnce(a.results, a.blocked, id, f, FateOf(g, o, id)); }
      if Recorded(b.results, b.blocked, id, f) { RecordedOnce(b.results, b.blocked, id, f, FateOf(g, o, id)); }
    }
  }

  // ----------------------------------------------------------------------- rounds

  /** There is a path of k dependencies down from a task. */
  ghost predicate HasPath(g: Graph, id: string, k: nat)
    decreases k
  {
    k == 0 || (id in g && exists d :: d in g[id] && HasPath(g, d, k - 1))
  }

  /** The longest path of dependencies down from a task has k of them. */
  ghost predicate HasDepth(g: Graph, id: string, k: nat) {
    HasPath(g, id, k) && !HasPath(g, id, k + 1)
  }

  lemma {:induction false} ShorterPath(g: Graph, id: string, j: nat, k: nat)
    requires j <= k && HasPath(g, id, k)
    ensures HasPath(g, id, j)
    decreases k
  {
    if j > 0 {
      var d :| d in g[id] && HasPath(g, d, k - 1);
      ShorterPath(g, d, j - 1, k - 1);
    }
  }

  lemma DepthUnique(g: Graph, id: string, j: nat, k: nat)
    requires HasDepth(g, id, j) && HasDepth(g, id, k)
    ensures j == k
  {
    if j < k { ShorterPath(g, id, j + 1, k); }
    if k < j { ShorterPath(g, id, k + 1, j); }
  }

  /** A task whose dependencies ran before a round, one of them just before it, has that depth. */
  lemma {:induction false} RoundIsDepth(g: Graph, o: Oracles, results: seq<TaskResult>, blocked: seq<Blocked>, i: nat, id: string, round: nat)
    requires HistoryOk(g, o, results, blocked) && id in g && i <= |results|
    requires forall d :: d in g[id] ==> RanBefore(results, i, d, round)
    requires round > 0 ==> exists d :: d in g[id] && RanIn(results, d, round - 1)
    ensures HasDepth(g, id, round)
    decreases i, 1
  {
    forall d | d in g[id] ensures !HasPath(g, d, round) {
      var j :| 0 <= j < i && results[j].id == d && results[j].success && results[j].round < round;
      ResultDepth(g, o, results, blocked, j);
      if HasPath(g, d, round) {
        ShorterPath(g, d, results[j].round + 1, round);
      }
    }
    if round > 0 {
      var d :| d in g[id] && RanIn(results, d, round - 1);
      var j :| 0 <= j < |results| && results[j].id == d && results[j].success && results[j].round == round - 1;
      var l :| 0 <= l < i && results[l].id == d && results[l].success && results[l].round < round;
      OneResult(results, blocked, results[j], results[l]);
      ResultDepth(g, o, results, blocked, l);
    }
  }

  lemma ResultDepth(g: Graph, o: Oracles, results: seq<TaskResult>, blocked: seq<Blocked>, j: nat)
    requires HistoryOk(g, o, results, blocked) && j < |results|
    ensures HasDepth(g, results[j].id, results[j].round)
    decreases j, 2
  {
    assert ResultOk(g, o, results, j);
    RoundIsDepth(g, o, results, blocked, j, results[j].id, results[j].round);
  }

  /** A task runs in the round equal to its longest path of dependencies. */
  lemma RanAtDepth(g: Graph, o: Oracles, results: seq<TaskResult>, blocked: seq<Blocked>, r: TaskResult)
    requires HistoryOk(g, o, results, blocked) && r in results
    ensures HasDepth(g, r.id, r.round)
  {
    var i :| 0 <= i < |results| && results[i] == r;
    ResultDepth(g, o, results, blocked, i);
  }

  lemma MemoryAtDepth(g: Graph, o: Oracles, results: seq<TaskResult>, blocked: seq<Blocked>, b: Blocked)
    requires HistoryOk(g, o, results, blocked) && b in blocked && b.reason.MemoryBlocked?
    ensures HasDepth(g, b.id, b.round)
  {
    assert BlockOk(g, o, results, blocked, b);
    RoundIsDepth(g, o, results, blocked, |results|, b.id, b.round);
  }

  // ----------------------------------------------------------------------- stalls

  predicate Runs(f: Fate) {
    f.Succeeds? || f.Fails?
  }

  /** Every task that runs is less deep than d. */
  ghost predicate DeeperThanAllRuns(g: Graph, o: Oracles, d: string) {
    forall t, j, k :: t in g && Runs(FateOf(g, o, t)) && HasDepth(g, t, j) && HasDepth(g, d, k) ==> j < k
  }

  /** All failures below a task are memory blocks in a round in which and after which nothing
      runs, of tasks whose turn comes after the task's own: it is not noticed that the task is
      blocked, because memory blocks alone do not lead to another round. */
  ghost predicate Unnoticed(g: Graph, o: Oracles, id: string) {
    && id in g && FateOf(g, o, id).IsDependencyFailed?
    && forall d :: d in g[id] && Terminal(FateOf(g, o, d)) ==>
         FateOf(g, o, d).IsMemoryBlocked? && StringLess(id, d) && DeeperThanAllRuns(g, o, d)
  }

  ghost predicate Hopeless(g: Graph, o: Oracles, id: string) {
    id in g && (FateOf(g, o, id).Starves? || Unnoticed(g, o, id))
  }

  lemma {:induction false} RemainingWithin(g: Graph, o: Oracles, run: Run, k: nat, id: string)
    requires RunOk(g, o, run) && run.Stalled? && id in run.remaining
    ensures !Decided(FateWithin(g, o, k, id))
  {
    assert LeftPending(g, run.results, run.blocked, id, run.round);
    if Decided(FateWithin(g, o, k, id)) {
      var d :| d in g[id] && d !in SuccessIds(run.results);
      assert FateWithin(g, o, k - 1, d).Succeeds?;
      FateIs(g, o, k - 1, d);
      if d in run.remaining {
        RemainingWithin(g, o, run, k - 1, d);
      } else {
        RecordedFate(g, o, run.results, run.blocked, d);
      }
    }
  }

  lemma RemainingUndecided(g: Graph, o: Oracles, run: Run, id: string)
    requires RunOk(g, o, run) && run.Stalled? && id in run.remaining
    ensures !Decided(FateOf(g, o, id))
  {
    forall k: nat ensures !Decided(FateWithin(g, o, k, id)) {
      RemainingWithin(g, o, run, k, id);
    }
  }

  /** A task left by a stall is starved or has a failed dependency, and then memory blocked it. */
  lemma RemainingFate(g: Graph, o: Oracles, run: Run, id: string)
    requires RunOk(g, o, run) && run.Stalled? && id in run.remaining
    ensures FateOf(g, o, id).Starves? || FateOf(g, o, id).IsDependencyFailed?
    ensures forall d :: d in g[id] && Terminal(FateOf(g, o, d)) ==> d in MemoryIds(run.blocked) && FateOf(g, o, d).IsMemoryBlocked?
  {
    RemainingUndecided(g, o, run, id);
    assert LeftPending(g, run.results, run.blocked, id, run.round);
    forall d | d in g[id] && Terminal(FateOf(g, o, d))
      ensures d in MemoryIds(run.blocked) && FateOf(g, o, d).IsMemoryBlocked?
    {
      if d !in g {
        FateOfMissing(g, o, d);
      } else if d in run.remaining {
        RemainingUndecided(g, o, run, d);
      } else {
        RecordedFate(g, o, run.results, run.blocked, d);
      }
    }
  }

  lemma RunsBeforeStall(g: Graph, o: Oracles, run: Run, t: string) returns (round: nat)
    requires RunOk(g, o, run) && run.Stalled? && t in g && Runs(FateOf(g, o, t))
    ensures HasDepth(g, t, round) && round < run.round
  {
    if t in run.remaining {
      RemainingUndecided(g, o, run, t);
    }
    RecordedFate(g, o, run.results, run.blocked, t);
    var r :| r in run.results && r.id == t;
    RanAtDepth(g, o, run.results, run.blocked, r);
    round := r.round;
  }

  lemma StallIsDeep(g: Graph, o: Oracles, run: Run, d: string)
    requires RunOk(g, o, run) && run.Stalled? && HasDepth(g, d, run.round)
    ensures DeeperThanAllRuns(g, o, d)
  {
    forall t, j, k | t in g && Runs(FateOf(g, o, t)) && HasDepth(g, t, j) && HasDepth(g, d, k) ensures j < k {
      var round := RunsBeforeStall(g, o, run, t);
      DepthUnique(g, t, j, round);
      DepthUnique(g, d, k, run.round);
    }
  }

  lemma StallIsHopeless(g: Graph, o: Oracles, run: Run, id: string)
    requires RunOk(g, o, run) && run.Stalled? && id in run.remaining
    ensures Hopeless(g, o, id)
  {
    RemainingFate(g, o, run, id);
    assert LeftPending(g, run.results, run.blocked, id, run.round);
    forall d | d in g[id] && Terminal(FateOf(g, o, d))
      ensures FateOf(g, o, d).IsMemoryBlocked? && StringLess(id, d) && DeeperThanAllRuns(g, o, d)
    {
      var m :| m in run.blocked && m.reason.MemoryBlocked? && m.id == d;
      MemoryAtDepth(g, o, run.results, run.blocked, m);
      StallIsDeep(g, o, run, d);
    }
  }

  lemma FinishIsHopeful(g: Graph, o: Oracles, run: Run, id: string)
    requires RunOk(g, o, run) && run.Finished? && id in g
    ensures !Hopeless(g, o, id)
  {
    RecordedIsHopeful(g, o, run.results, run.blocked, id);
  }

  /** A memory block of an earlier round was noticed because something ran after it. */
  lemma EarlierRound(g: Graph, o: Oracles, results: seq<TaskResult>, blocked: seq<Blocked>, b: Blocked, d: string)
    requires HistoryOk(g, o, results, blocked) && MemoryBefore(blocked, d, b) && !StringLess(d, b.id)
    requires b.round > 0 ==> SomeRan(results, b.round - 1)
    ensures !DeeperThanAllRuns(g, o, d)
  {
    var m :| m in blocked && m.id == d && m.reason.MemoryBlocked? && m.round < b.round;
    var r :| r in results && r.round == b.round - 1;
    RunsAsLate(g, o, results, blocked, m, r);
  }

  /** A task blocked by dependencies has a failure that came before its turn: an execution
      failure, a memory block earlier in the same scan, or one of a round after which
      something ran. */
  lemma NoticedInTime(g: Graph, o: Oracles, results: seq<TaskResult>, blocked: seq<Blocked>, b: Blocked)
    requires HistoryOk(g, o, results, blocked) && b in blocked && b.reason.DependencyFailed?
    ensures b.id in g && !Unnoticed(g, o, b.id)
  {
    assert BlockOk(g, o, results, blocked, b);
    var d := b.reason.failed[0];
    ListedHasFailed(g, o, results, blocked, b, d);
    TerminalFate(g, o, results, blocked, b, d);
    if FateOf(g, o, d).IsMemoryBlocked? && StringLess(b.id, d) {
      StringLessOrder();
      EarlierRound(g, o, results, blocked, b, d);
    }
  }

  lemma RunsAsLate(g: Graph, o: Oracles, results: seq<TaskResult>, blocked: seq<Blocked>, m: Blocked, r: TaskResult)
    requires HistoryOk(g, o, results, blocked) && m in blocked && m.reason.MemoryBlocked? && r in results && m.round <= r.round
    ensures !DeeperThanAllRuns(g, o, m.id)
  {
    MemoryAtDepth(g, o, results, blocked, m);
    RanAtDepth(g, o, results, blocked, r);
    ResultRuns(g, o, results, blocked, r);
  }

  lemma ResultRuns(g: Graph, o: Oracles, results: seq<TaskResult>, blocked: seq<Blocked>, r: TaskResult)
    requires HistoryOk(g, o, results, blocked) && r in results
    ensures r.id in g && Runs(FateOf(g, o, r.id))
  {
    var i :| 0 <= i < |results| && results[i] == r;
    ResultFate(g, o, results, blocked, i);
  }

  /** Exactly when a run that raises nothing stalls, on any graph: some task starves, or is
      blocked unnoticed. */
  lemma StallsExactly(g: Graph, o: Oracles, run: Run)
    requires RunOk(g, o, run) && !run.Raised?
    ensures run.Stalled? <==> exists id :: Hopeless(g, o, id)
  {
    if run.Stalled? {
      var id :| id in run.remaining;
      StallIsHopeless(g, o, run, id);
    } else {
      forall id ensures !Hopeless(g, o, id) {
        if id in g {
          FinishIsHopeful(g, o, run, id);
        }
      }
    }
  }

  lemma RecordedIsHopeful(g: Graph, o: Oracles, results: seq<TaskResult>, blocked: seq<Blocked>, id: string)
    requires HistoryOk(g, o, results, blocked) && id in ResultIds(results) + BlockedIds(blocked)
    ensures !Hopeless(g, o, id)
  {
    RecordedFate(g, o, results, blocked, id);
    if Unnoticed(g, o, id) {
      var b :| b in blocked && b.id == id && !b.reason.MemoryBlocked?;
      NoticedInTime(g, o, results, blocked, b);
    }
  }

  /** The tasks that the stall error names are exactly the hopeless ones. */
  lemma StallNamesExactly(g: Graph, o: Oracles, run: Run)
    requires RunOk(g, o, run) && run.Stalled?
    ensures forall id :: id in run.remaining <==> Hopeless(g, o, id)
  {
    forall id ensures id in run.remaining <==> Hopeless(g, o, id) {
      if id in run.remaining {
        StallIsHopeless(g, o, run, id);
      } else if id in g {
        RecordedIsHopeful(g, o, run.results, run.blocked, id);
      }
    }
  }

  /** Two runs that raise nothing else end alike in every completion order: both return, or both
      stall with the same tasks in the error. */
  lemma EndIsDetermined(g: Graph, o: Oracles, a: Run, b: Run)
    requires RunOk(g, o, a) && RunOk(g, o, b) && !a.Raised? && !b.Raised?
    ensures a.Stalled? <==> b.Stalled?
    ensures a.Stalled? ==> a.remaining == b.remaining
  {
    StallsExactly(g, o, a);
    StallsExactly(g, o, b);
    if a.Stalled? {
      StallNamesExactly(g, o, a);
      StallNamesExactly(g, o, b);
    }
  }

  /** Without memory blocks a run stalls exactly when some task starves. */
  lemma StallsWithoutMemoryBlocks(g: Graph, o: Oracles, run: Run)
    requires RunOk(g, o, run) && !run.Raised? && forall id :: id in g ==> !o.memoryBlocks(id)
    ensures run.Stalled? <==> exists id :: id in g && FateOf(g, o, id).Starves?
  {
    StallsExactly(g, o, run);
    forall d ensures !FateOf(g, o, d).IsMemoryBlocked? {
      FateUnfolds(g, o, d);
    }
    forall id | Hopeless(g, o, id) ensures FateOf(g, o, id).Starves? {
      FateOfTask(g, o, id);
    }
    forall id | id in g && FateOf(g, o, id).Starves? ensures Hopeless(g, o, id) {}
  }

  // ------------------------------------------------------------------------ progress

  /** rank decreases along dependencies. */
  ghost predicate Acyclic(g: Graph, rank: string -> nat) {
    forall id, d :: id in g && d in g[id] && d in g ==> rank(d) < rank(id)
  }

  /** Dependencies are closed, inputs resolve, nothing is memory-blocked and agents succeed. */
  ghost predicate AllGoesWell(g: Graph, o: Oracles) {
    && (forall id, d :: id in g && d in g[id] ==> d in g)
    && (forall id, c :: id in g && (forall d :: d in g[id] ==> d in c) ==> o.prepares(id, c))
    && forall id :: id in g ==> !o.memoryBlocks(id) && o.succeeds(id) && o.absorbs(id)
  }

  lemma {:induction false} TaskSucceeds(g: Graph, o: Oracles, rank: string -> nat, id: string)
    requires Acyclic(g, rank) && AllGoesWell(g, o) && id in g
    ensures FateOf(g, o, id).Succeeds?
    decreases rank(id)
  {
    forall d | d in g[id] ensures FateOf(g, o, d).Succeeds? {
      TaskSucceeds(g, o, rank, d);
    }
    FateOfTask(g, o, id);
  }

  /** Then a run never raises; it never stalls on an acyclic graph, and every task succeeds in
      the round equal to the length of its longest path of dependencies. */
  lemma EveryTaskRunsAtItsDepth(g: Graph, o: Oracles, rank: string -> nat, run: Run, id: string)
    requires Acyclic(g, rank) && AllGoesWell(g, o) && RunOk(g, o, run) && id in g
    ensures run.Finished? && exists round :: TaskResult(id, true, round) in run.results && HasDepth(g, id, round)
  {
    forall t | t in g ensures FateOf(g, o, t).Succeeds? {
      TaskSucceeds(g, o, rank, t);
    }
    StallsWithoutMemoryBlocks(g, o, run);
    RecordedFate(g, o, run.results, run.blocked, id);
    var r :| r in run.results && r.success && r.id == id;
    RanAtDepth(g, o, run.results, run.blocked, r);
    assert r == TaskResult(id, true, r.round);
  }

  ghost function RoundOf(results: seq<TaskResult>, id: string): nat {
    if r :| r in results && r.id == id then r.round else 0
  }

  lemma RoundOfResult(results: seq<TaskResult>, blocked: seq<Blocked>, r: TaskResult)
    requires Once(results, blocked) && r in results
    ensures RoundOf(results, r.id) == r.round
  {
    var x :| x in results && x.id == r.id && RoundOf(results, r.id) == x.round;
    OneResult(results, blocked, x, r);
  }

  /** ... and exactly on the acyclic graphs it finishes. */
  lemma FinishesExactlyIfAcyclic(g: Graph, o: Oracles, run: Run)
    requires AllGoesWell(g, o) && RunOk(g, o, run)
    ensures !run.Raised? && (run.Finished? <==> exists rank: string -> nat :: Acyclic(g, rank))
  {
    if run.Finished? {
      var rank := (id: string) => RoundOf(run.results, id);
      forall id, d | id in g && d in g[id] && d in g ensures rank(d) < rank(id) {
        RankDrops(g, o, run, id, d);
      }
      assert Acyclic(g, rank);
    }
    if rank: string -> nat :| Acyclic(g, rank) {
      if id :| id in g {
        EveryTaskRunsAtItsDepth(g, o, rank, run, id);
      }
    }
  }

  lemma NeverDependencyFailed(g: Graph, o: Oracles, id: string)
    requires AllGoesWell(g, o) && id in g
    ensures FateOf(g, o, id).Succeeds? || FateOf(g, o, id).Starves?
  {
    forall d ensures !Terminal(FateOf(g, o, d)) {
      FateUnfolds(g, o, d);
    }
    FateOfTask(g, o, id);
  }

  lemma RankDrops(g: Graph, o: Oracles, run: Run, id: string, d: string)
    requires AllGoesWell(g, o) && RunOk(g, o, run) && run.Finished? && id in g && d in g[id]
    ensures RoundOf(run.results, d) < RoundOf(run.results, id)
  {
    RecordedFate(g, o, run.results, run.blocked, id);
    NeverDependencyFailed(g, o, id);
    var r :| r in run.results && r.success && r.id == id;
    var i :| 0 <= i < |run.results| && run.results[i] == r;
    assert ResultOk(g, o, run.results, i);
    var j :| 0 <= j < i && run.results[j].id == d && run.results[j].success && run.results[j].round < r.round;
    RoundOfResult(run.results, run.blocked, r);
    RoundOfResult(run.results, run.blocked, run.results[j]);
  }

  // ---------------------------------------------------------------- names decide

  /** A task and one that depends on it. */
  function Pair(task: string, dependent: string): Graph {
    map[task := [], dependent := [task]]
  }

  lemma PairFates(o: Oracles, task: string, dependent: string)
    requires task != dependent && o.memoryBlocks(task)
    ensures var g := Pair(task, dependent);
      && FateOf(g, o, task).IsMemoryBlocked? && FateOf(g, o, dependent).IsDependencyFailed?
      && (Hopeless(g, o, dependent) <==> StringLess(dependent, task)) && !Hopeless(g, o, task)
  {
    var g := Pair(task, dependent);
    assert g[task] == [] && g[dependent] == [task];
    assert task in g[dependent];
    FateOfTask(g, o, task);
    FateOfTask(g, o, dependent);
  }

  /** The same two tasks under other names: whether the run returns or stalls depends on whether
      the dependent's name sorts before the memory-blocked task's. */
  lemma NamesDecide(o: Oracles, task: string, dependent: string, run: Run)
    requires task != dependent && o.memoryBlocks(task) && RunOk(Pair(task, dependent), o, run) && !run.Raised?
    ensures run.Stalled? <==> CodePointLess(dependent, task)
  {
    StringLessIsCodePointLess(dependent, task);
    var g := Pair(task, dependent);
    PairFates(o, task, dependent);
    StallsExactly(g, o, run);
    assert forall id :: id in g ==> id == task || id == dependent;
  }
}
