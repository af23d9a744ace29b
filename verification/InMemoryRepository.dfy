/** The in-memory repository (tests/fakes.py) and the evidence service over it: transactions on
    a working copy that is swapped in or dropped, under one lock. */
module InMemoryRepository {
  import opened Common
  import opened Text
  import opened AuditChain
  import opened EvidenceProtocol
  import opened EvidenceSerial

  datatype RequestRecord = RequestRecord(id: string, inputHash: string, createdAt: string)
  datatype ResultRecord = ResultRecord(id: string, requestId: string, outputHash: string, createdAt: string)
  datatype ProofRecord = ProofRecord(id: string, requestId: string, traceHash: string, integrityHash: string, createdAt: string)

  function RequestOf(c: Call): RequestRecord {
    RequestRecord(c.row.requestId, c.row.inputHash, c.createdAt)
  }

  function ResultOf(c: Call): ResultRecord {
    ResultRecord(c.row.resultId, c.row.requestId, c.row.outputHash, c.createdAt)
  }

  function ProofOf(c: Call): ProofRecord {
    ProofRecord(c.row.proofId, c.row.requestId, c.row.traceHash, c.row.integrityHash, c.createdAt)
  }

  datatype RepositoryState = RepositoryState(
    requestsByInputHash: map<string, RequestRecord>, resultsByRequestId: map<string, ResultRecord>,
    proofsByRequestId: map<string, ProofRecord>, auditLog: seq<AuditEvent>)

  datatype Error = DuplicateInputHash(inputHash: string) | Injected(operation: string) | Integrity | Retryable(name: string, text: string)

  function Message(e: Error): string {
    match e
    case DuplicateInputHash(inputHash) => "Duplicate input hash detected: " + inputHash
    case Injected(op) => "injected failure during " + op
    case Integrity => "Audit event current_hash does not match recomputed audit hash"
    case Retryable(name, text) => "retry_exhausted:" + name + ":" + text
  }

  /** failOn is the operation that fails, as injected by tests; conflicts is how many of the
      next commits the database rejects with a serialization error, none in the fake itself. */
  class Repository {
    var locked: bool
    var state: RepositoryState
    var failOn: Option<string>
    var conflicts: nat

    constructor ()
      ensures !locked && failOn == None && conflicts == 0 && state == RepositoryState(map[], map[], map[], [])
    {
      locked, failOn, conflicts := false, None, 0;
      state := RepositoryState(map[], map[], map[], []);
    }
  }

  class Transaction {
    const repository: Repository
    var working: RepositoryState

    /** `__aenter__`: waits for the lock, then clones the state. */
    constructor (repository: Repository)
      requires !repository.locked
      modifies repository`locked
      ensures this.repository == repository && repository.locked && working == repository.state
    {
      this.repository := repository;
      working := repository.state;
      new;
      repository.locked := true;
    }

    /** `__aexit__`: swaps the working copy in unless there was an error, or there is one now. */
    method Exit(failed: bool) returns (rejected: bool)
      requires repository.locked
      modifies repository`locked, repository`state, repository`conflicts
      ensures !repository.locked && rejected == (!failed && old(repository.conflicts) > 0)
      ensures repository.state == if failed || rejected then old(repository.state) else working
      ensures repository.conflicts == old(repository.conflicts) - if rejected then 1 else 0
    {
      rejected := !failed && repository.conflicts > 0;
      if rejected {
        repository.conflicts := repository.conflicts - 1;
      } else if !failed {
        repository.state := working;
      }
      repository.locked := false;
    }

    method FetchLatestAuditHash(start: string, chainId: int) returns (hash: string)
      ensures hash == TailHash(start, working.auditLog, chainId)
    {
      var chainRecords: seq<AuditEvent> := [];
      for i := 0 to |working.auditLog|
        invariant chainRecords == Select(working.auditLog[..i], chainId)
      {
        var r := working.auditLog[i];
        var next := working.auditLog[..i + 1];
        assert next[..i] == working.auditLog[..i] && next[i] == r;
        if r.chainId == chainId {
          chainRecords := chainRecords + [r];
        }
      }
      assert working.auditLog[..|working.auditLog|] == working.auditLog;
      return if chainRecords == [] then start else chainRecords[|chainRecords| - 1].currentHash;
    }

    method CheckDuplicate(inputHash: string) returns (found: bool)
      ensures found <==> inputHash in working.requestsByInputHash
    {
      return inputHash in working.requestsByInputHash;
    }

    /** All three records or none. */
    method InsertRecordsBatch(request: RequestRecord, result: ResultRecord, proof: ProofRecord) returns (error: Option<Error>)
      modifies this
      ensures error.Some? ==> working == old(working)
      ensures error.None? ==> working == old(working).(
        requestsByInputHash := old(working).requestsByInputHash[request.inputHash := request],
        resultsByRequestId := old(working).resultsByRequestId[result.requestId := result],
        proofsByRequestId := old(working).proofsByRequestId[proof.requestId := proof])
      ensures error.None? <==> repository.failOn !in BATCH_FAILURES && request.inputHash !in old(working).requestsByInputHash
      ensures error.Some? && request.inputHash !in old(working).requestsByInputHash ==> repository.failOn.Some? && error.value == Injected(repository.failOn.value)
      ensures request.inputHash in old(working).requestsByInputHash ==>
        error.value == if repository.failOn == Some("insert_request") then Injected("insert_request") else DuplicateInputHash(request.inputHash)
    {
      if repository.failOn == Some("insert_request") {
        return Some(Injected("insert_request"));
      }
      if request.inputHash in working.requestsByInputHash {
        return Some(DuplicateInputHash(request.inputHash));
      }
      if repository.failOn == Some("insert_result") {
        return Some(Injected("insert_result"));
      }
      if repository.failOn == Some("insert_proof") {
        return Some(Injected("insert_proof"));
      }
      working := working.(
        requestsByInputHash := working.requestsByInputHash[request.inputHash := request],
        resultsByRequestId := working.resultsByRequestId[result.requestId := result],
        proofsByRequestId := working.proofsByRequestId[proof.requestId := proof]);
      return None;
    }

    method InsertAuditEvent(record: AuditEvent) returns (error: Option<Error>)
      modifies this
      ensures repository.failOn == AUDIT_FAILURE ==> working == old(working) && error == Some(Injected("insert_audit_event"))
      ensures repository.failOn != AUDIT_FAILURE ==> error == None && working == old(working).(
        auditLog := old(working).auditLog + [record.(id := Some(|old(working).auditLog| + 1))])
    {
      if repository.failOn == Some("insert_audit_event") {
        return Some(Injected("insert_audit_event"));
      }
      var inserted := record.(id := Some(|working.auditLog| + 1));
      working := working.(auditLog := working.auditLog + [inserted]);
      return None;
    }
  }

  const BATCH_FAILURES: set<Option<string>> := {Some("insert_request"), Some("insert_result"), Some("insert_proof")}
  const AUDIT_FAILURE: Option<string> := Some("insert_audit_event")

  // ------------------------------------------------------------------- the service

  function Persisting(state: RepositoryState, c: Call): RepositoryState {
    state.(requestsByInputHash := state.requestsByInputHash[c.row.inputHash := RequestOf(c)],
           resultsByRequestId := state.resultsByRequestId[c.row.requestId := ResultOf(c)],
           proofsByRequestId := state.proofsByRequestId[c.row.requestId := ProofOf(c)])
  }

  function Appending(state: RepositoryState, e: AuditEvent): RepositoryState {
    state.(auditLog := state.auditLog + [e.(id := Some(|state.auditLog| + 1))])
  }

  /** The state that a committed transaction leaves. */
  function StateAfter(cfg: Config, state: RepositoryState, e: Entry): RepositoryState
    requires ValidEntry(cfg, e)
  {
    var c := cfg.calls[e.p];
    var prev := TailHash(cfg.start, state.auditLog, ChainOf(cfg, e.p));
    if e.FailTxn? then Appending(state, FailureEvent(cfg, c, prev, e.reason, e.now))
    else if c.row.inputHash in state.requestsByInputHash then Appending(state, DuplicateEvent(cfg, c, prev))
    else Appending(Persisting(state, c), PersistedEvent(cfg, c, prev))
  }

  /** `_log_failure_event`: a second transaction, whose own failure is not logged. */
  method LogFailureEvent(repo: Repository, cfg: Config, p: nat, reason: string, now: string) returns (logged: bool)
    requires p < |cfg.calls| && !repo.locked
    modifies repo
    ensures !repo.locked && repo.failOn == old(repo.failOn) && logged == (repo.failOn != AUDIT_FAILURE && old(repo.conflicts) == 0)
    ensures repo.state == if logged then StateAfter(cfg, old(repo.state), FailTxn(p, reason, now)) else old(repo.state)
  {
    var session := new Transaction(repo);
    var prevHash := session.FetchLatestAuditHash(cfg.start, ChainOf(cfg, p));
    var error := session.InsertAuditEvent(FailureEvent(cfg, cfg.calls[p], prevHash, reason, now));
    var rejected := session.Exit(error.Some?);
    return error.None? && !rejected;
  }

  /** The operation that fails for a call: the audit insert for every call, an insert of the
      batch only for one that is not a duplicate. */
  predicate OperationFails(failOn: Option<string>, known: bool) {
    failOn == AUDIT_FAILURE || (!known && failOn in BATCH_FAILURES)
  }

  const CONFLICT: Error := Retryable("SerializationError", "could not serialize access")

  /** One attempt of the call's own transaction. */
  method Attempt(repo: Repository, cfg: Config, p: nat) returns (error: Option<Error>, duplicate: bool)
    requires p < |cfg.calls| && !repo.locked && IgnoresHashFields(cfg.h) && AsciiHasher(cfg.h)
    modifies repo
    ensures !repo.locked && repo.failOn == old(repo.failOn)
    ensures var was, known := old(repo.state), cfg.calls[p].row.inputHash in old(repo.state).requestsByInputHash;
      if OperationFails(repo.failOn, known) then
        && repo.failOn.Some? && error == Some(Injected(repo.failOn.value))
        && repo.state == was && repo.conflicts == old(repo.conflicts)
      else if old(repo.conflicts) > 0 then
        error == Some(CONFLICT) && repo.state == was && repo.conflicts == old(repo.conflicts) - 1
      else
        error == None && duplicate == known && repo.conflicts == 0 && repo.state == StateAfter(cfg, was, CallTxn(p))
  {
    var c := cfg.calls[p];
    duplicate := false;
    var session := new Transaction(repo);
    var prevHash := session.FetchLatestAuditHash(cfg.start, ChainOf(cfg, p));
    var isDuplicate := session.CheckDuplicate(c.row.inputHash);
    if isDuplicate {
      error := session.InsertAuditEvent(DuplicateEvent(cfg, c, prevHash));
      duplicate := true;
    } else {
      error := session.InsertRecordsBatch(RequestOf(c), ResultOf(c), ProofOf(c));
      if error.None? {
        var audit := PersistedEvent(cfg, c, prevHash);
        error := session.InsertAuditEvent(audit);
        if error.None? && ConstantTimeEqual(audit.currentHash, cfg.h(prevHash, audit)) != Some(true) {
          error := Some(Integrity);
        }
      }
    }
    var rejected := session.Exit(error.Some?);
    if rejected {
      error := Some(CONFLICT);
    }
  }

  /** The transaction that a call commits, if any, when the repository fails on failOn and
      rejects the next commits. */
  function Committed(failOn: Option<string>, conflicts: nat, known: bool, p: nat, now: string): Option<Entry> {
    if OperationFails(failOn, known) then
      if failOn == AUDIT_FAILURE || conflicts > 0 then None else Some(FailTxn(p, Message(Injected(failOn.value)), now))
    else if conflicts < MAX_RETRIES then Some(CallTxn(p))
    else if conflicts == MAX_RETRIES then Some(FailTxn(p, Message(CONFLICT), now))
    else None
  }

  /** Which transaction a call commits, in figures: with k rejected commits and no injected
      failure, its own for k up to 4 and a failure log for k = 5; a failed insert of the batch is
      logged, unless the log's own commit is rejected; a failed audit insert leaves nothing. */
  lemma CommittedInFigures(k: nat, known: bool, p: nat, now: string, operation: string)
    requires operation == "insert_request" || operation == "insert_result" || operation == "insert_proof"
    ensures var own :=
        if k <= 4 then Some(CallTxn(p))
        else if k == 5 then Some(FailTxn(p, "retry_exhausted:" + "SerializationError" + ":" + "could not serialize access", now))
        else None;
      && Committed(None, k, known, p, now) == own
      && Committed(Some("insert_audit_event"), k, known, p, now) == None
      && Committed(Some(operation), k, known, p, now)
         == if known then own else if k == 0 then Some(FailTxn(p, "injected failure during " + operation, now)) else None
  {}

  /** `calculate_and_persist`: up to four rejected commits are retried away, five are logged as
      a failure, and with more, or with a failing audit insert, nothing is committed. No attempt
      ends in the duplicate error that the source re-raises without a log. */
  method CalculateAndPersist(repo: Repository, cfg: Config, p: nat, now: string) returns (outcome: Outcome)
    requires p < |cfg.calls| && !repo.locked && IgnoresHashFields(cfg.h) && AsciiHasher(cfg.h)
    modifies repo
    ensures !repo.locked && repo.failOn == old(repo.failOn)
    ensures var known := cfg.calls[p].row.inputHash in old(repo.state).requestsByInputHash;
      match Committed(repo.failOn, old(repo.conflicts), known, p, now)
      case None => outcome == Failed(false) && repo.state == old(repo.state)
      case Some(e) =>
        && outcome == (if e.FailTxn? then Failed(true) else if known then Duplicate else Persisted)
        && repo.state == StateAfter(cfg, old(repo.state), e)
  {
    ghost var known := cfg.calls[p].row.inputHash in repo.state.requestsByInputHash;
    for attempt := 1 to MAX_RETRIES + 1
      invariant !repo.locked && repo.failOn == old(repo.failOn) && repo.state == old(repo.state)
      invariant repo.conflicts + attempt - 1 == old(repo.conflicts)
      invariant attempt > 1 ==> !OperationFails(repo.failOn, known)
      invariant attempt <= MAX_RETRIES
    {
      var error, duplicate := Attempt(repo, cfg, p);
      if error.None? {
        return if duplicate then Duplicate else Persisted;
      }
      if !error.value.Retryable? || attempt == MAX_RETRIES {
        var logged := LogFailureEvent(repo, cfg, p, Message(error.value), now);
        return Failed(logged);
      }
    }
    assert false;
  }

  // ------------------------------------------------------------ the serial reference

  /** The ids of requests are functions of their input hashes, without collisions. */
  predicate IdsIdentify(calls: seq<Call>) {
    forall i, j :: 0 <= i < |calls| && 0 <= j < |calls| ==>
      (calls[i].row.requestId == calls[j].row.requestId <==> calls[i].row.inputHash == calls[j].row.inputHash)
  }

  /** Request ids derived from the input hash without collisions are such ids. */
  lemma DerivedIdsIdentify(calls: seq<Call>, derive: string -> string)
    requires forall i :: 0 <= i < |calls| ==> calls[i].row.requestId == derive(calls[i].row.inputHash)
    requires forall a, b :: derive(a) == derive(b) ==> a == b
    ensures IdsIdentify(calls)
  {}

  /** The call whose records are stored under an input hash, for each stored input hash. */
  type Owners = map<string, Call>

  ghost predicate OwnersOf(owners: Owners, calls: seq<Call>, rows: seq<Row>) {
    && (forall k :: k in owners ==> owners[k] in calls && owners[k].row.inputHash == k && owners[k].row in rows)
    && (forall r :: r in rows ==> r.inputHash in owners)
  }

  ghost predicate Owned(owners: Owners, requestId: string) {
    exists k :: k in owners && owners[k].row.requestId == requestId
  }

  predicate Stores(state: RepositoryState, c: Call) {
    && c.row.inputHash in state.requestsByInputHash && state.requestsByInputHash[c.row.inputHash] == RequestOf(c)
    && c.row.requestId in state.resultsByRequestId && state.resultsByRequestId[c.row.requestId] == ResultOf(c)
    && c.row.requestId in state.proofsByRequestId && state.proofsByRequestId[c.row.requestId] == ProofOf(c)
  }

  /** For every owner its request, its one result and its one proof, and no other records. */
  ghost predicate Tables(state: RepositoryState, owners: Owners) {
    && (forall k :: k in owners ==> Stores(state, owners[k]))
    && (forall k :: k in state.requestsByInputHash ==> k in owners)
    && (forall id :: id in state.resultsByRequestId || id in state.proofsByRequestId ==> Owned(owners, id))
  }

  ghost predicate Represents(state: RepositoryState, owners: Owners, calls: seq<Call>, db: Db) {
    OwnersOf(owners, calls, db.rows) && Tables(state, owners) && state.auditLog == db.log
  }

  lemma HasHashIsStored(state: RepositoryState, owners: Owners, calls: seq<Call>, db: Db, inputHash: string)
    requires Represents(state, owners, calls, db)
    ensures HasHash(db.rows, inputHash) <==> inputHash in state.requestsByInputHash
  {
    if inputHash in state.requestsByInputHash {
      var i :| 0 <= i < |db.rows| && db.rows[i] == owners[inputHash].row;
    }
    if HasHash(db.rows, inputHash) {
      assert Stores(state, owners[inputHash]);
    }
  }

  lemma OwnIds(calls: seq<Call>, a: Call, b: Call)
    requires IdsIdentify(calls) && a in calls && b in calls && a.row.inputHash != b.row.inputHash
    ensures a.row.requestId != b.row.requestId
  {
    var i :| 0 <= i < |calls| && calls[i] == a;
    var j :| 0 <= j < |calls| && calls[j] == b;
  }

  lemma OwnedExtends(owners: Owners, c: Call, id: string)
    requires c.row.inputHash !in owners && (Owned(owners, id) || id == c.row.requestId)
    ensures Owned(owners[c.row.inputHash := c], id)
  {
    var next := owners[c.row.inputHash := c];
    if id == c.row.requestId {
      assert next[c.row.inputHash] == c;
    } else {
      var k :| k in owners && owners[k].row.requestId == id;
      assert next[k] == owners[k];
    }
  }

  lemma OwnersExtend(owners: Owners, calls: seq<Call>, rows: seq<Row>, c: Call)
    requires OwnersOf(owners, calls, rows) && c in calls && c.row.inputHash !in owners
    ensures OwnersOf(owners[c.row.inputHash := c], calls, rows + [c.row])
  {
    assert (rows + [c.row])[|rows|] == c.row;
  }

  lemma StillStores(state: RepositoryState, a: Call, c: Call)
    requires Stores(state, a) && a.row.inputHash != c.row.inputHash && a.row.requestId != c.row.requestId
    ensures Stores(Persisting(state, c), a)
  {}

  /** Storing a new call's three records keeps one result and one proof for every request. */
  lemma TablesExtend(state: RepositoryState, owners: Owners, c: Call)
    requires Tables(state, owners) && c.row.inputHash !in owners
    requires forall k :: k in owners ==> owners[k].row.requestId != c.row.requestId && owners[k].row.inputHash == k
    ensures Tables(Persisting(state, c), owners[c.row.inputHash := c])
  {
    var next, t := owners[c.row.inputHash := c], Persisting(state, c);
    forall k | k in next ensures Stores(t, next[k]) {
      if k != c.row.inputHash {
        assert Stores(state, owners[k]);
        StillStores(state, owners[k], c);
      }
    }
    forall id | id in t.resultsByRequestId || id in t.proofsByRequestId ensures Owned(next, id) {
      assert id != c.row.requestId ==> id in state.resultsByRequestId || id in state.proofsByRequestId;
      OwnedExtends(owners, c, id);
    }
  }

  /** The same event is appended, and the rows are inserted in the same cases. */
  lemma StateAfterIsSerial(cfg: Config, state: RepositoryState, db: Db, e: Entry)
    requires ValidEntry(cfg, e) && state.auditLog == db.log
    requires HasHash(db.rows, cfg.calls[e.p].row.inputHash) <==> cfg.calls[e.p].row.inputHash in state.requestsByInputHash
    ensures StateAfter(cfg, state, e)
            == (if SerialRow(cfg, db, e).Some? then Persisting(state, cfg.calls[e.p]) else state).(auditLog := SerialStep(cfg, db, e).log)
  {}

  lemma TablesIgnoreLog(s: RepositoryState, owners: Owners, log: seq<AuditEvent>)
    requires Tables(s, owners)
    ensures Tables(s.(auditLog := log), owners)
  {
    forall k | k in owners ensures Stores(s.(auditLog := log), owners[k]) {
      assert Stores(s, owners[k]);
    }
  }

  lemma InsertionKeepsTables(state: RepositoryState, owners: Owners, calls: seq<Call>, rows: seq<Row>, c: Call)
    requires OwnersOf(owners, calls, rows) && Tables(state, owners) && IdsIdentify(calls) && c in calls && c.row.inputHash !in owners
    ensures var next := owners[c.row.inputHash := c];
      OwnersOf(next, calls, rows + [c.row]) && Tables(Persisting(state, c), next)
  {
    forall k | k in owners ensures owners[k].row.requestId != c.row.requestId {
      OwnIds(calls, owners[k], c);
    }
    TablesExtend(state, owners, c);
    OwnersExtend(owners, calls, rows, c);
  }

  lemma AdvanceRepresents(state: RepositoryState, owners: Owners, calls: seq<Call>, db: Db, c: Call, added: bool, log: seq<AuditEvent>) returns (next: Owners)
    requires Represents(state, owners, calls, db) && IdsIdentify(calls) && c in calls
    requires added ==> c.row.inputHash !in owners
    ensures Represents((if added then Persisting(state, c) else state).(auditLog := log), next, calls, Db(db.rows + if added then [c.row] else [], log))
  {
    if added {
      next := owners[c.row.inputHash := c];
      InsertionKeepsTables(state, owners, calls, db.rows, c);
      TablesIgnoreLog(Persisting(state, c), next, log);
    } else {
      next := owners;
      assert db.rows + [] == db.rows;
      TablesIgnoreLog(state, next, log);
    }
  }

  lemma SerialRowAdded(cfg: Config, db: Db, e: Entry)
    requires ValidEntry(cfg, e)
    ensures var row, added := cfg.calls[e.p].row, SerialRow(cfg, db, e).Some?;
      && SerialStep(cfg, db, e).rows == db.rows + (if added then [row] else [])
      && (added ==> !HasHash(db.rows, row.inputHash))
  {}

  /** A transaction committed by the service over this repository is the serial step: same log,
      ids included, same duplicates, and a request, one result and one proof per row. */
  lemma StepRepresents(cfg: Config, state: RepositoryState, owners: Owners, db: Db, e: Entry) returns (next: Owners)
    requires ValidEntry(cfg, e) && IdsIdentify(cfg.calls) && Represents(state, owners, cfg.calls, db)
    ensures Represents(StateAfter(cfg, state, e), next, cfg.calls, SerialStep(cfg, db, e))
  {
    var c, after, added := cfg.calls[e.p], SerialStep(cfg, db, e), SerialRow(cfg, db, e).Some?;
    HasHashIsStored(state, owners, cfg.calls, db, c.row.inputHash);
    StateAfterIsSerial(cfg, state, db, e);
    SerialRowAdded(cfg, db, e);
    if c.row.inputHash in owners {
      assert Stores(state, owners[c.row.inputHash]);
    }
    next := AdvanceRepresents(state, owners, cfg.calls, db, c, added, after.log);
    assert after == Db(after.rows, after.log);
  }

  /** The state after a whole history of committed transactions, from the empty repository. */
  function StateAfterAll(cfg: Config, entries: seq<Entry>): RepositoryState
    requires ValidEntries(cfg, entries)
  {
    if entries == [] then RepositoryState(map[], map[], map[], [])
    else StateAfter(cfg, StateAfterAll(cfg, entries[..|entries| - 1]), entries[|entries| - 1])
  }

  /** Any history committed over this repository is the serial run of it. */
  lemma {:induction false} HistoryRepresents(cfg: Config, entries: seq<Entry>) returns (owners: Owners)
    requires ValidEntries(cfg, entries) && IdsIdentify(cfg.calls)
    ensures Represents(StateAfterAll(cfg, entries), owners, cfg.calls, SerialRun(cfg, entries))
  {
    owners := map[];
    if entries != [] {
      var front, last := entries[..|entries| - 1], entries[|entries| - 1];
      owners := HistoryRepresents(cfg, front);
      owners := StepRepresents(cfg, StateAfterAll(cfg, front), owners, SerialRun(cfg, front), last);
    }
  }

  /** In every state of every interleaving over the database, this repository, given the same
      transactions in commit order, has the same log up to ids, the same input hashes, and for
      each of them the request, the one result and the one proof of a call with that hash. */
  lemma RunMatchesRepository(cfg: Config, states: seq<State>, moves: seq<Move>, i: nat) returns (owners: Owners)
    requires IgnoresHashFields(cfg.h) && IsRun(cfg, states, moves) && i < |states| && IdsIdentify(cfg.calls)
    ensures ValidEntries(cfg, states[i].history)
    ensures var repo, db := StateAfterAll(cfg, states[i].history), states[i].db;
      && SameUpToIds(db.log, repo.auditLog) && OwnersOf(owners, cfg.calls, db.rows) && Tables(repo, owners)
      && forall inputHash :: HasHash(db.rows, inputHash) <==> inputHash in repo.requestsByInputHash
  {
    RunRefinesSerial(cfg, states, moves, i);
    var history := states[i].history;
    owners := HistoryRepresents(cfg, history);
    forall inputHash ensures HasHash(states[i].db.rows, inputHash) <==> inputHash in StateAfterAll(cfg, history).requestsByInputHash {
      HasHashIsStored(StateAfterAll(cfg, history), owners, cfg.calls, SerialRun(cfg, history), inputHash);
    }
  }
}
