/** Concurrent `calculate_and_persist` calls over the partitioned, lock-protected audit chain
    (app/services/evidence_service.py, app/db/repository.py): interleaved steps of read-committed
    transactions, and the invariants of every reachable state. */
module EvidenceProtocol {
  import opened Common
  import opened CanonicalJson
  import opened VrlHashing
  import opened AuditChain

  /** The request, result and proof rows that the batch insert writes in one statement. */
  datatype Row = Row(
    inputHash: string, requestId: string, resultId: string, proofId: string,
    outputHash: string, traceHash: string, integrityHash: string)

  /** One call after its compute phase: the rows it wants to persist and their timestamp. */
  datatype Call = Call(row: Row, createdAt: string)

  /** h hashes records, chainOf maps an input hash to its partition, start is the hash that
      every chain starts from. The source has `AuditHasher`, `ChainIdForInput` and `ZERO_HASH`. */
  datatype Config = Config(h: Hasher, chainOf: string -> int, start: string, calls: seq<Call>)

  const MAX_RETRIES: int := 5

  // -------------------------------------------------------------- committed state

  /** The committed tables; the log is in commit order. */
  datatype Db = Db(rows: seq<Row>, log: seq<AuditEvent>)

  predicate HasHash(rows: seq<Row>, inputHash: string) {
    exists i :: 0 <= i < |rows| && rows[i].inputHash == inputHash
  }

  function Id(e: AuditEvent): int {
    if e.id.Some? then e.id.value else 0
  }

  /** `ORDER BY id DESC LIMIT 1`. */
  function Newest(records: seq<AuditEvent>): (e: AuditEvent)
    requires records != []
    ensures e in records && forall r :: r in records ==> Id(r) <= Id(e)
  {
    var last := records[|records| - 1];
    if |records| == 1 then last
    else
      var e := Newest(records[..|records| - 1]);
      assert forall r :: r in records ==> r == last || r in records[..|records| - 1];
      if Id(e) <= Id(last) then last else e
  }

  /** `fetch_latest_audit_hash_for_chain`. */
  function LatestHash(cfg: Config, log: seq<AuditEvent>, chain: int): string {
    var records := Select(log, chain);
    if records == [] then cfg.start else Newest(records).currentHash
  }

  // -------------------------------------------------------------------- the events

  function PersistedEvent(cfg: Config, call: Call, prev: string): AuditEvent {
    var r := call.row;
    BuildAuditEvent(cfg.h, "calculation_persisted", Some(r.requestId),
                    Obj(map["request_id" := Str(r.requestId), "result_id" := Str(r.resultId), "proof_id" := Str(r.proofId),
                            "input_hash" := Str(r.inputHash), "output_hash" := Str(r.outputHash),
                            "trace_hash" := Str(r.traceHash), "integrity_hash" := Str(r.integrityHash)]),
                    prev, call.createdAt, cfg.chainOf(r.inputHash))
  }

  function DuplicateEvent(cfg: Config, call: Call, prev: string): AuditEvent {
    var r := call.row;
    BuildAuditEvent(cfg.h, "calculation_rejected_duplicate", Some(r.requestId),
                    Obj(map["input_hash" := Str(r.inputHash), "reason" := Str("duplicate_input_hash")]),
                    prev, call.createdAt, cfg.chainOf(r.inputHash))
  }

  function FailureEvent(cfg: Config, call: Call, prev: string, reason: string, now: string): AuditEvent {
    var r := call.row;
    BuildAuditEvent(cfg.h, "calculation_persist_failed", Some(r.requestId),
                    Obj(map["input_hash" := Str(r.inputHash), "reason" := Str(reason)]),
                    prev, now, cfg.chainOf(r.inputHash))
  }

  // ------------------------------------------------------------------- the processes

  datatype Outcome = Persisted | Duplicate | Conflict | Failed(logged: bool)

  /** The retry loop's current attempt, the failure log, or the end of the call. */
  datatype Stage = Try(attempt: nat) | Log(reason: string, now: string) | Done(outcome: Outcome)

  /** Where the open transaction is. A transaction holds its partition's lock from Locked on,
      and has uncommitted rows in Stored and, if added, in Audited. */
  datatype Pc =
    | Idle | Begun | Locked | Fetched(prev: string) | Fresh(prev: string) | Known(prev: string)
    | Stored(prev: string) | Audited(event: AuditEvent, added: Option<Row>)

  datatype Proc = Proc(stage: Stage, pc: Pc)

  /** A committed transaction: of a call, or of its failure log. */
  datatype Entry = CallTxn(p: nat) | FailTxn(p: nat, reason: string, now: string)

  datatype State = State(db: Db, nextId: int, locks: map<int, nat>, procs: seq<Proc>, history: seq<Entry>)

  datatype Action =
    | Begin | Acquire | Fetch | Check | Insert | Audit | Commit
    | Fault(retryable: bool, reason: string, now: string)

  function ChainOf(cfg: Config, p: nat): int
    requires p < |cfg.calls|
  {
    cfg.chainOf(cfg.calls[p].row.inputHash)
  }

  predicate Holding(pc: Pc) {
    !pc.Idle? && !pc.Begun?
  }

  predicate Uncommitted(pc: Pc) {
    pc.Stored? || (pc.Audited? && pc.added.Some?)
  }

  predicate Shape(cfg: Config, s: State) {
    |s.procs| == |cfg.calls|
  }

  /** Another transaction has inserted the same input hash and not finished: the insert waits. */
  predicate InsertWaits(cfg: Config, s: State, p: nat)
    requires Shape(cfg, s) && p < |s.procs|
  {
    exists q :: 0 <= q < |s.procs| && q != p && Uncommitted(s.procs[q].pc)
                && cfg.calls[q].row.inputHash == cfg.calls[p].row.inputHash
  }

  predicate Enabled(cfg: Config, s: State, p: nat, a: Action)
    requires Shape(cfg, s)
  {
    && p < |s.procs| && !s.procs[p].stage.Done?
    && var pr := s.procs[p];
       match a
       case Begin => pr.pc.Idle?
       case Acquire => pr.pc.Begun? && ChainOf(cfg, p) !in s.locks
       case Fetch => pr.pc.Locked?
       case Check => pr.pc.Fetched? && pr.stage.Try?
       case Insert => pr.pc.Fresh? && !InsertWaits(cfg, s, p)
       case Audit => pr.pc.Known? || pr.pc.Stored? || (pr.pc.Fetched? && pr.stage.Log?)
       case Commit => pr.pc.Audited?
       case Fault(_, _, _) => true
  }

  /** What a rolled-back transaction leads to: the next attempt, the failure log, or the end. */
  function AfterFault(stage: Stage, retryable: bool, reason: string, now: string): Proc {
    match stage
    case Try(n) =>
      if retryable && n < MAX_RETRIES then Proc(Try(n + 1), Idle) else Proc(Log(reason, now), Idle)
    case Log(_, _) => Proc(Done(Failed(false)), Idle)
    case Done(_) => Proc(stage, Idle)
  }

  function EventFor(cfg: Config, p: nat, stage: Stage, pc: Pc): AuditEvent
    requires p < |cfg.calls| && (pc.Known? || pc.Stored? || pc.Fetched?)
  {
    var call := cfg.calls[p];
    if stage.Log? then FailureEvent(cfg, call, pc.prev, stage.reason, stage.now)
    else if pc.Known? then DuplicateEvent(cfg, call, pc.prev)
    else PersistedEvent(cfg, call, pc.prev)
  }

  function AfterCommit(stage: Stage, added: Option<Row>): Proc {
    Proc(Done(if stage.Log? then Failed(true) else if added.Some? then Persisted else Duplicate), Idle)
  }

  function EntryFor(p: nat, stage: Stage): Entry {
    if stage.Log? then FailTxn(p, stage.reason, stage.now) else CallTxn(p)
  }

  function Insertion(added: Option<Row>): seq<Row> {
    if added.Some? then [added.value] else []
  }

  /** The release of p's transaction-scoped lock, if it has it. */
  function Released(locks: map<int, nat>, chain: int, pc: Pc): map<int, nat> {
    if Holding(pc) then locks - {chain} else locks
  }

  function Step(cfg: Config, s: State, p: nat, a: Action): (t: State)
    requires Shape(cfg, s) && Enabled(cfg, s, p, a)
    ensures Shape(cfg, t)
  {
    var pr, c := s.procs[p], ChainOf(cfg, p);
    match a
    case Begin => s.(procs := s.procs[p := pr.(pc := Begun)])
    case Acquire => s.(locks := s.locks[c := p], procs := s.procs[p := pr.(pc := Locked)])
    case Fetch => s.(procs := s.procs[p := pr.(pc := Fetched(LatestHash(cfg, s.db.log, c)))])
    case Check =>
      var prev := pr.pc.prev;
      s.(procs := s.procs[p := pr.(pc := if HasHash(s.db.rows, cfg.calls[p].row.inputHash) then Known(prev) else Fresh(prev))])
    case Insert =>
      if HasHash(s.db.rows, cfg.calls[p].row.inputHash) then
        s.(locks := s.locks - {c}, procs := s.procs[p := Proc(Done(Conflict), Idle)])
      else
        s.(procs := s.procs[p := pr.(pc := Stored(pr.pc.prev))])
    case Audit =>
      var event := EventFor(cfg, p, pr.stage, pr.pc).(id := Some(s.nextId));
      var added := if pr.pc.Stored? then Some(cfg.calls[p].row) else None;
      s.(nextId := s.nextId + 1, procs := s.procs[p := pr.(pc := Audited(event, added))])
    case Commit =>
      s.(db := Db(s.db.rows + Insertion(pr.pc.added), s.db.log + [pr.pc.event]),
         locks := s.locks - {c},
         procs := s.procs[p := AfterCommit(pr.stage, pr.pc.added)],
         history := s.history + [EntryFor(p, pr.stage)])
    case Fault(retryable, reason, now) =>
      s.(locks := Released(s.locks, c, pr.pc), procs := s.procs[p := AfterFault(pr.stage, retryable, reason, now)])
  }

  function Initial(cfg: Config): State {
    State(Db([], []), 1, map[], seq(|cfg.calls|, _ => Proc(Try(1), Idle)), [])
  }

  datatype Move = Move(p: nat, a: Action)

  ghost predicate Next(cfg: Config, s: State, m: Move, t: State) {
    Shape(cfg, s) && Enabled(cfg, s, m.p, m.a) && t == Step(cfg, s, m.p, m.a)
  }

  /** An interleaving: every move is an enabled step of one call. */
  ghost predicate IsRun(cfg: Config, states: seq<State>, moves: seq<Move>) {
    && |states| == |moves| + 1 && states[0] == Initial(cfg)
    && forall i :: 0 <= i < |moves| ==> Next(cfg, states[i], moves[i], states[i + 1])
  }

  // --------------------------------------------------------------------- invariants

  /** What a transaction that holds its lock knows about the committed state. */
  ghost predicate HolderOk(cfg: Config, s: State, p: nat, pr: Proc)
    requires p < |cfg.calls|
  {
    var call, c := cfg.calls[p], ChainOf(cfg, p);
    var tail := HashAfter(cfg.start, Select(s.db.log, c), |Select(s.db.log, c)|);
    match pr.pc
    case Fetched(prev) => prev == tail
    case Fresh(prev) => prev == tail && pr.stage.Try? && !HasHash(s.db.rows, call.row.inputHash)
    case Stored(prev) => prev == tail && pr.stage.Try? && !HasHash(s.db.rows, call.row.inputHash)
    case Known(prev) => prev == tail && pr.stage.Try? && HasHash(s.db.rows, call.row.inputHash)
    case Audited(event, added) =>
      var n := Id(event);
      && event.id.Some? && n < s.nextId
      && (forall r :: r in Select(s.db.log, c) ==> Id(r) < n)
      && (pr.stage.Try? ==> added == if HasHash(s.db.rows, call.row.inputHash) then None else Some(call.row))
      && (pr.stage.Log? ==> added == None)
      && event == (if pr.stage.Log? then FailureEvent(cfg, call, tail, pr.stage.reason, pr.stage.now)
                   else if added.Some? then PersistedEvent(cfg, call, tail)
                   else DuplicateEvent(cfg, call, tail)).(id := Some(n))
    case _ => true
  }

  ghost predicate ProcOk(cfg: Config, s: State, p: nat)
    requires Shape(cfg, s) && p < |s.procs|
  {
    var pr, c := s.procs[p], ChainOf(cfg, p);
    && (Holding(pr.pc) <==> c in s.locks && s.locks[c] == p)
    && (pr.stage.Try? ==> 1 <= pr.stage.attempt <= MAX_RETRIES)
    && (pr.stage.Done? ==> pr.pc.Idle? && !pr.stage.outcome.Conflict?)
    && HolderOk(cfg, s, p, pr)
  }

  ghost predicate Ascending(records: seq<AuditEvent>) {
    forall i, j :: 0 <= i < j < |records| ==> Id(records[i]) < Id(records[j])
  }

  /** A partition's committed events link, and their ids increase in commit order. */
  ghost predicate ChainOk(cfg: Config, s: State, c: int) {
    var records := Select(s.db.log, c);
    && ValidFrom(cfg.h, cfg.start, records) && Ascending(records)
    && forall r :: r in records ==> r.id.Some? && Id(r) < s.nextId
  }

  ghost predicate LocksOk(cfg: Config, s: State)
    requires Shape(cfg, s)
  {
    forall c :: c in s.locks ==> s.locks[c] < |s.procs| && ChainOf(cfg, s.locks[c]) == c && Holding(s.procs[s.locks[c]].pc)
  }

  ghost predicate Distinct(rows: seq<Row>) {
    forall i, j :: 0 <= i < j < |rows| ==> rows[i].inputHash != rows[j].inputHash
  }

  ghost predicate Inv(cfg: Config, s: State) {
    && Shape(cfg, s) && LocksOk(cfg, s) && Distinct(s.db.rows)
    && (forall p :: 0 <= p < |s.procs| ==> ProcOk(cfg, s, p))
    && (forall c: int :: ChainOk(cfg, s, c))
  }

  // ------------------------------------------------------------------- preservation

  lemma SelectAppend(log: seq<AuditEvent>, e: AuditEvent, c: int)
    ensures Select(log + [e], c) == if e.chainId == c then Select(log, c) + [e] else Select(log, c)
  {
    assert (log + [e])[..|log|] == log;
  }

  /** With increasing ids the newest record of a partition is its last one: `ORDER BY id DESC`
      reads the true tail. */
  lemma LatestIsTail(cfg: Config, s: State, c: int)
    requires ChainOk(cfg, s, c)
    ensures LatestHash(cfg, s.db.log, c) == HashAfter(cfg.start, Select(s.db.log, c), |Select(s.db.log, c)|)
  {
    var records := Select(s.db.log, c);
    if records != [] {
      var e, last := Newest(records), records[|records| - 1];
      var k :| 0 <= k < |records| && records[k] == e;
      assert Id(last) <= Id(e);
    }
  }

  lemma HasHashAppend(rows: seq<Row>, row: Row, inputHash: string)
    ensures HasHash(rows + [row], inputHash) <==> HasHash(rows, inputHash) || row.inputHash == inputHash
  {
    var r := rows + [row];
    if HasHash(rows, inputHash) {
      var i :| 0 <= i < |rows| && rows[i].inputHash == inputHash;
      assert r[i] == rows[i];
    }
    assert r[|rows|] == row;
  }

  lemma LinkedWithId(h: Hasher, prev: string, e: AuditEvent, n: int)
    requires IgnoresHashFields(h) && Linked(h, prev, e)
    ensures Linked(h, prev, e.(id := Some(n)))
  {
    var f := e.(id := Some(n));
    assert f == e.(id := Some(n), chainId := e.chainId, prevHash := e.prevHash, currentHash := e.currentHash);
  }

  /** The event a transaction is about to commit continues its partition's committed chain. */
  lemma PendingLinks(cfg: Config, s: State, p: nat)
    requires IgnoresHashFields(cfg.h) && Shape(cfg, s) && p < |s.procs| && ProcOk(cfg, s, p) && s.procs[p].pc.Audited?
    ensures var c, e := ChainOf(cfg, p), s.procs[p].pc.event;
      e.chainId == c && Linked(cfg.h, HashAfter(cfg.start, Select(s.db.log, c), |Select(s.db.log, c)|), e)
  {
    var pr, c := s.procs[p], ChainOf(cfg, p);
    var e := pr.pc.event;
    var tail := HashAfter(cfg.start, Select(s.db.log, c), |Select(s.db.log, c)|);
    LinkedWithId(cfg.h, tail, e.(id := None), Id(e));
  }

  lemma PendingIsNewer(cfg: Config, s: State, p: nat)
    requires Shape(cfg, s) && p < |s.procs| && ProcOk(cfg, s, p) && s.procs[p].pc.Audited?
    ensures var e := s.procs[p].pc.event;
      e.id.Some? && Id(e) < s.nextId && forall r :: r in Select(s.db.log, ChainOf(cfg, p)) ==> Id(r) < Id(e)
  {}

  lemma AscendingAppend(records: seq<AuditEvent>, e: AuditEvent)
    requires Ascending(records) && forall r :: r in records ==> Id(r) < Id(e)
    ensures Ascending(records + [e])
  {}

  lemma ChainExtends(cfg: Config, s: State, t: State, e: AuditEvent, c: int)
    requires ChainOk(cfg, s, c) && t.db.log == s.db.log + [e] && t.nextId == s.nextId
    requires var records := Select(s.db.log, c);
      e.chainId == c ==> Linked(cfg.h, HashAfter(cfg.start, records, |records|), e) && e.id.Some? && Id(e) < s.nextId
                         && forall r :: r in records ==> Id(r) < Id(e)
    ensures ChainOk(cfg, t, c)
  {
    var records := Select(s.db.log, c);
    SelectAppend(s.db.log, e, c);
    if e.chainId == c {
      ValidAppend(cfg.h, cfg.start, records, e);
      AscendingAppend(records, e);
    }
  }

  lemma StepKeepsChain(cfg: Config, s: State, p: nat, a: Action, c: int)
    requires IgnoresHashFields(cfg.h) && Inv(cfg, s) && Enabled(cfg, s, p, a)
    ensures ChainOk(cfg, Step(cfg, s, p, a), c)
  {
    var t := Step(cfg, s, p, a);
    assert ChainOk(cfg, s, c);
    if a.Commit? {
      assert ProcOk(cfg, s, p);
      PendingLinks(cfg, s, p);
      PendingIsNewer(cfg, s, p);
      ChainExtends(cfg, s, t, s.procs[p].pc.event, c);
    }
  }

  lemma StepKeepsLocks(cfg: Config, s: State, p: nat, a: Action)
    requires Inv(cfg, s) && Enabled(cfg, s, p, a)
    ensures LocksOk(cfg, Step(cfg, s, p, a))
  {
    assert ProcOk(cfg, s, p);
  }

  lemma StepKeepsRows(cfg: Config, s: State, p: nat, a: Action)
    requires Inv(cfg, s) && Enabled(cfg, s, p, a)
    ensures Distinct(Step(cfg, s, p, a).db.rows)
  {
    assert ProcOk(cfg, s, p);
  }

  /** What a holder knows depends only on its own partition's events and on its own input hash. */
  lemma HolderStable(cfg: Config, s: State, t: State, q: nat, pr: Proc)
    requires q < |cfg.calls| && HolderOk(cfg, s, q, pr) && s.nextId <= t.nextId
    requires Select(t.db.log, ChainOf(cfg, q)) == Select(s.db.log, ChainOf(cfg, q))
    requires HasHash(t.db.rows, cfg.calls[q].row.inputHash) == HasHash(s.db.rows, cfg.calls[q].row.inputHash)
    ensures HolderOk(cfg, t, q, pr)
  {}

  /** A commit is invisible on other partitions and for other input hashes. */
  lemma CommitInvisible(db: Db, event: AuditEvent, added: Option<Row>, c: int, inputHash: string)
    requires event.chainId != c && (added.Some? ==> added.value.inputHash != inputHash)
    ensures Select(db.log + [event], c) == Select(db.log, c)
    ensures HasHash(db.rows + Insertion(added), inputHash) == HasHash(db.rows, inputHash)
  {
    SelectAppend(db.log, event, c);
    if added.Some? {
      HasHashAppend(db.rows, added.value, inputHash);
    } else {
      assert db.rows + Insertion(added) == db.rows;
    }
  }

  /** What p commits is an event of its partition and, at most, its own row. */
  lemma PendingIsOwn(cfg: Config, s: State, p: nat)
    requires Shape(cfg, s) && p < |s.procs| && ProcOk(cfg, s, p) && s.procs[p].pc.Audited?
    ensures s.procs[p].pc.event.chainId == ChainOf(cfg, p)
    ensures s.procs[p].pc.added.Some? ==> s.procs[p].pc.added.value == cfg.calls[p].row
  {}

  lemma StepKeepsOtherLock(cfg: Config, s: State, p: nat, a: Action, q: nat)
    requires Inv(cfg, s) && Enabled(cfg, s, p, a) && q < |s.procs| && q != p
    ensures var t, c := Step(cfg, s, p, a), ChainOf(cfg, q);
      (c in t.locks && t.locks[c] == q <==> c in s.locks && s.locks[c] == q) && t.procs[q] == s.procs[q] && s.nextId <= t.nextId
  {
    assert ProcOk(cfg, s, p);
  }

  /** The step of p leaves what another process relies on true: lock holders are on different
      partitions. */
  lemma StepKeepsOther(cfg: Config, s: State, p: nat, a: Action, q: nat)
    requires Inv(cfg, s) && Enabled(cfg, s, p, a) && q < |s.procs| && q != p
    ensures ProcOk(cfg, Step(cfg, s, p, a), q)
  {
    var t := Step(cfg, s, p, a);
    assert ProcOk(cfg, s, q);
    StepKeepsOtherLock(cfg, s, p, a, q);
    if Holding(s.procs[q].pc) {
      if a.Commit? {
        assert ProcOk(cfg, s, p);
        PendingIsOwn(cfg, s, p);
        CommitInvisible(s.db, s.procs[p].pc.event, s.procs[p].pc.added, ChainOf(cfg, q), cfg.calls[q].row.inputHash);
      }
      HolderStable(cfg, s, t, q, s.procs[q]);
    }
  }

  /** The audit insert draws an id above every committed one. */
  lemma AuditKeepsMover(cfg: Config, s: State, p: nat)
    requires Inv(cfg, s) && Enabled(cfg, s, p, Audit)
    ensures ProcOk(cfg, Step(cfg, s, p, Audit), p)
  {
    assert ProcOk(cfg, s, p) && ChainOk(cfg, s, ChainOf(cfg, p));
  }

  lemma StepKeepsMover(cfg: Config, s: State, p: nat, a: Action)
    requires Inv(cfg, s) && Enabled(cfg, s, p, a)
    ensures ProcOk(cfg, Step(cfg, s, p, a), p)
  {
    if a.Audit? {
      AuditKeepsMover(cfg, s, p);
    } else {
      assert ProcOk(cfg, s, p);
      if a.Fetch? {
        assert ChainOk(cfg, s, ChainOf(cfg, p));
        LatestIsTail(cfg, s, ChainOf(cfg, p));
      }
    }
  }

  lemma StepKeepsInv(cfg: Config, s: State, p: nat, a: Action)
    requires IgnoresHashFields(cfg.h) && Inv(cfg, s) && Enabled(cfg, s, p, a)
    ensures Inv(cfg, Step(cfg, s, p, a))
  {
    var t := Step(cfg, s, p, a);
    StepKeepsLocks(cfg, s, p, a);
    StepKeepsRows(cfg, s, p, a);
    forall q | 0 <= q < |t.procs| ensures ProcOk(cfg, t, q) {
      if q == p { StepKeepsMover(cfg, s, p, a); } else { StepKeepsOther(cfg, s, p, a, q); }
    }
    forall c: int ensures ChainOk(cfg, t, c) {
      StepKeepsChain(cfg, s, p, a, c);
    }
  }

  lemma InitialInv(cfg: Config)
    ensures Inv(cfg, Initial(cfg))
  {}

  /** Every state of every interleaving satisfies the invariant. */
  lemma {:induction false} RunKeepsInv(cfg: Config, states: seq<State>, moves: seq<Move>, i: nat)
    requires IgnoresHashFields(cfg.h) && IsRun(cfg, states, moves) && i < |states|
    ensures Inv(cfg, states[i])
  {
    if i == 0 {
      InitialInv(cfg);
    } else {
      RunKeepsInv(cfg, states, moves, i - 1);
      assert Next(cfg, states[i - 1], moves[i - 1], states[i]);
      StepKeepsInv(cfg, states[i - 1], moves[i - 1].p, moves[i - 1].a);
    }
  }

  // ---------------------------------------------------------- what readers then see

  /** A result of `FETCH_AUDIT_CHAIN_SQL`: the committed events by partition and id. */
  ghost predicate Lists(rows: seq<AuditEvent>, log: seq<AuditEvent>) {
    && multiset(rows) == multiset(log)
    && forall i, j :: 0 <= i < j < |rows| ==> Before(rows[i], rows[j])
  }

  predicate Before(a: AuditEvent, b: AuditEvent) {
    a.chainId < b.chainId || (a.chainId == b.chainId && Id(a) <= Id(b))
  }

  lemma {:induction false} SelectCounts(rows: seq<AuditEvent>, c: int, e: AuditEvent)
    ensures multiset(Select(rows, c))[e] == if e.chainId == c then multiset(rows)[e] else 0
  {
    if rows != [] {
      var front, last := rows[..|rows| - 1], rows[|rows| - 1];
      SelectCounts(front, c, e);
      assert rows == front + [last];
    }
  }

  ghost predicate InIdOrder(rows: seq<AuditEvent>) {
    forall i, j :: 0 <= i < j < |rows| ==> Id(rows[i]) <= Id(rows[j])
  }

  lemma {:induction false} SelectOrdered(rows: seq<AuditEvent>, c: int)
    requires forall i, j :: 0 <= i < j < |rows| ==> Before(rows[i], rows[j])
    ensures InIdOrder(Select(rows, c))
  {
    if rows != [] {
      var n := |rows| - 1;
      var r, last := Select(rows[..n], c), rows[n];
      SelectOrdered(rows[..n], c);
      if last.chainId == c {
        forall i | 0 <= i < |r| ensures Id(r[i]) <= Id(last) {
          var k :| 0 <= k < n && rows[..n][k] == r[i];
          assert Before(rows[k], rows[n]);
        }
        assert Select(rows, c) == r + [last];
      }
    }
  }

  ghost predicate StrictlyBy<T>(a: seq<T>, id: T -> int) {
    forall i, j :: 0 <= i < j < |a| ==> id(a[i]) < id(a[j])
  }

  ghost predicate WeaklyBy<T>(a: seq<T>, id: T -> int) {
    forall i, j :: 0 <= i < j < |a| ==> id(a[i]) <= id(a[j])
  }

  lemma LastIsGreatest<T>(a: seq<T>, b: seq<T>, id: T -> int)
    requires StrictlyBy(a, id) && WeaklyBy(b, id)
    requires a != [] && b != [] && multiset(a) == multiset(b)
    ensures a[|a| - 1] == b[|b| - 1]
  {
    var x, y := a[|a| - 1], b[|b| - 1];
    assert x in multiset(b) && y in multiset(a);
    var j :| 0 <= j < |b| && b[j] == x;
    var k :| 0 <= k < |a| && a[k] == y;
  }

  lemma DropLast<T>(a: seq<T>, id: T -> int)
    requires a != []
    ensures multiset(a[..|a| - 1]) == multiset(a) - multiset{a[|a| - 1]}
    ensures StrictlyBy(a, id) ==> StrictlyBy(a[..|a| - 1], id)
    ensures WeaklyBy(a, id) ==> WeaklyBy(a[..|a| - 1], id)
  {
    assert a == a[..|a| - 1] + [a[|a| - 1]];
  }

  lemma SplitLast<T>(a: seq<T>, b: seq<T>)
    requires a != [] && b != [] && |a| == |b|
    requires a[..|a| - 1] == b[..|b| - 1] && a[|a| - 1] == b[|b| - 1]
    ensures a == b
  {}

  /** Distinct ids leave one way to order the same records by id. */
  lemma {:induction false} OrderDeterminesRows<T>(a: seq<T>, b: seq<T>, id: T -> int)
    requires StrictlyBy(a, id) && WeaklyBy(b, id) && multiset(a) == multiset(b)
    ensures a == b
    decreases |a|
  {
    assert |a| == |multiset(a)| && |b| == |multiset(b)|;
    if a != [] {
      LastIsGreatest(a, b, id);
      DropLast(a, id);
      DropLast(b, id);
      OrderDeterminesRows(a[..|a| - 1], b[..|b| - 1], id);
      SplitLast(a, b);
    }
  }

  /** A reader's per-partition sequences are the ones in commit order. */
  lemma ReadersSeeCommitOrder(cfg: Config, s: State, rows: seq<AuditEvent>, c: int)
    requires ChainOk(cfg, s, c) && Lists(rows, s.db.log)
    ensures Select(rows, c) == Select(s.db.log, c)
  {
    var a, b := Select(s.db.log, c), Select(rows, c);
    forall e ensures multiset(a)[e] == multiset(b)[e] {
      SelectCounts(s.db.log, c, e);
      SelectCounts(rows, c, e);
    }
    assert multiset(a) == multiset(b);
    SelectOrdered(rows, c);
    OrderDeterminesRows(a, b, Id);
  }

  /** In every state of every interleaving the committed audit log verifies. */
  lemma CommittedLogVerifies(cfg: Config, states: seq<State>, moves: seq<Move>, i: nat, rows: seq<AuditEvent>)
    requires IgnoresHashFields(cfg.h) && cfg.start == ZERO_HASH && IsRun(cfg, states, moves) && i < |states|
    requires Lists(rows, states[i].db.log)
    ensures AllChainsValid(cfg.h, rows)
  {
    RunKeepsInv(cfg, states, moves, i);
    forall c: int ensures ChainValid(cfg.h, Select(rows, c)) {
      assert ChainOk(cfg, states[i], c);
      ReadersSeeCommitOrder(cfg, states[i], rows, c);
    }
  }

  /** The configuration of the source: SHA-256 record hashes, 64 partitions, 64 zeros. */
  function Deployed(sha: Sha, calls: seq<Call>): Config {
    Config(AuditHasher(sha), (inputHash: string) => ChainIdForInput(inputHash), ZERO_HASH, calls)
  }

  lemma DeployedLogVerifies(sha: Sha, calls: seq<Call>, states: seq<State>, moves: seq<Move>, rows: seq<AuditEvent>)
    requires IsRun(Deployed(sha, calls), states, moves) && Lists(rows, states[|moves|].db.log)
    ensures AllChainsValid(AuditHasher(sha), rows)
  {
    AuditHasherIgnoresHashFields(sha);
    CommittedLogVerifies(Deployed(sha, calls), states, moves, |moves|, rows);
  }

  // --------------------------------------------------------- uniqueness and progress

  /** The batch insert never meets its unique constraint: an input hash always goes to the same
      partition, so the duplicate check and the insert are under one lock. */
  lemma InsertNeverConflicts(cfg: Config, s: State, p: nat)
    requires Inv(cfg, s) && p < |s.procs| && s.procs[p].pc.Fresh?
    ensures !HasHash(s.db.rows, cfg.calls[p].row.inputHash) && !InsertWaits(cfg, s, p)
  {
    assert ProcOk(cfg, s, p);
    forall q | 0 <= q < |s.procs| && q != p && Uncommitted(s.procs[q].pc)
      ensures cfg.calls[q].row.inputHash != cfg.calls[p].row.inputHash
    {
      assert ProcOk(cfg, s, q);
    }
  }

  lemma HolderCanMove(cfg: Config, s: State, p: nat) returns (a: Action)
    requires Inv(cfg, s) && p < |s.procs| && Holding(s.procs[p].pc)
    ensures Enabled(cfg, s, p, a) && !a.Fault?
  {
    assert ProcOk(cfg, s, p);
    match s.procs[p].pc {
      case Locked => a := Fetch;
      case Fetched(_) => a := if s.procs[p].stage.Try? then Check else Audit;
      case Fresh(_) => InsertNeverConflicts(cfg, s, p); a := Insert;
      case Known(_) => a := Audit;
      case Stored(_) => a := Audit;
      case Audited(_, _) => a := Commit;
    }
  }

  /** No deadlock: while some call is unfinished, some call can move without a fault. */
  lemma SomeoneCanMove(cfg: Config, s: State, p: nat) returns (m: Move)
    requires Inv(cfg, s) && p < |s.procs| && !s.procs[p].stage.Done?
    ensures Enabled(cfg, s, m.p, m.a) && !m.a.Fault?
  {
    var c := ChainOf(cfg, p);
    if c in s.locks {
      var a := HolderCanMove(cfg, s, s.locks[c]);
      m := Move(s.locks[c], a);
    } else {
      assert ProcOk(cfg, s, p);
      m := Move(p, if s.procs[p].pc.Idle? then Begin else Acquire);
    }
  }

  function PcRank(pc: Pc): nat {
    match pc
    case Idle => 7
    case Begun => 6
    case Locked => 5
    case Fetched(_) => 4
    case Fresh(_) => 3
    case Known(_) => 2
    case Stored(_) => 2
    case Audited(_, _) => 1
  }

  function Rank(pr: Proc): int {
    match pr.stage
    case Try(n) => (MAX_RETRIES + 1 - n) * 8 + PcRank(pr.pc)
    case Log(_, _) => PcRank(pr.pc)
    case Done(_) => 0
  }

  const MOST_MOVES: int := 47

  function TotalRank(procs: seq<Proc>): int {
    if procs == [] then 0 else Rank(procs[0]) + TotalRank(procs[1..])
  }

  lemma {:induction false} TotalRankUpdate(procs: seq<Proc>, p: nat, pr: Proc)
    requires p < |procs|
    ensures TotalRank(procs[p := pr]) == TotalRank(procs) - Rank(procs[p]) + Rank(pr)
  {
    if p == 0 {
      assert procs[0 := pr][1..] == procs[1..];
    } else {
      assert procs[p := pr][1..] == procs[1..][p - 1 := pr];
      TotalRankUpdate(procs[1..], p - 1, pr);
    }
  }

  lemma {:induction false} TotalRankAll(procs: seq<Proc>)
    requires forall p :: 0 <= p < |procs| ==> procs[p] == Proc(Try(1), Idle)
    ensures TotalRank(procs) == MOST_MOVES * |procs|
  {
    if procs != [] {
      TotalRankAll(procs[1..]);
    }
  }

  lemma {:induction false} TotalRankNonNegative(procs: seq<Proc>)
    requires forall p :: 0 <= p < |procs| ==> 0 <= Rank(procs[p])
    ensures 0 <= TotalRank(procs)
  {
    if procs != [] {
      TotalRankNonNegative(procs[1..]);
    }
  }

  lemma MoverDescends(cfg: Config, s: State, p: nat, a: Action)
    requires Shape(cfg, s) && Enabled(cfg, s, p, a)
    requires s.procs[p].stage.Try? ==> s.procs[p].stage.attempt <= MAX_RETRIES
    ensures var t := Step(cfg, s, p, a); t.procs == s.procs[p := t.procs[p]] && Rank(t.procs[p]) < Rank(s.procs[p])
  {}

  lemma StepDescends(cfg: Config, s: State, p: nat, a: Action)
    requires Inv(cfg, s) && Enabled(cfg, s, p, a)
    ensures TotalRank(Step(cfg, s, p, a).procs) < TotalRank(s.procs)
  {
    assert ProcOk(cfg, s, p);
    var t := Step(cfg, s, p, a);
    MoverDescends(cfg, s, p, a);
    TotalRankUpdate(s.procs, p, t.procs[p]);
  }

  lemma {:induction false} RankBoundsMoves(cfg: Config, states: seq<State>, moves: seq<Move>, i: nat)
    requires IgnoresHashFields(cfg.h) && IsRun(cfg, states, moves) && i < |states|
    ensures i + TotalRank(states[i].procs) <= MOST_MOVES * |cfg.calls|
  {
    if i == 0 {
      TotalRankAll(states[0].procs);
    } else {
      RankBoundsMoves(cfg, states, moves, i - 1);
      RunKeepsInv(cfg, states, moves, i - 1);
      assert Next(cfg, states[i - 1], moves[i - 1], states[i]);
      StepDescends(cfg, states[i - 1], moves[i - 1].p, moves[i - 1].a);
    }
  }

  /** Every interleaving is finite: at most 47 moves per call. */
  lemma RunsAreBounded(cfg: Config, states: seq<State>, moves: seq<Move>)
    requires IgnoresHashFields(cfg.h) && IsRun(cfg, states, moves)
    ensures |moves| <= MOST_MOVES * |cfg.calls|
  {
    RankBoundsMoves(cfg, states, moves, |moves|);
    RunKeepsInv(cfg, states, moves, |moves|);
    var s := states[|moves|];
    forall p | 0 <= p < |s.procs| ensures 0 <= Rank(s.procs[p]) {
      assert ProcOk(cfg, s, p);
    }
    TotalRankNonNegative(s.procs);
  }
}
