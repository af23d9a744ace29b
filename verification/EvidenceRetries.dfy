/** The retry loop of `calculate_and_persist` (app/services/evidence_service.py) over every
    interleaving: how many faults a call survives, and which event each outcome leaves. */
module EvidenceRetries {
  import opened Common
  import opened CanonicalJson
  import opened AuditChain
  import opened EvidenceProtocol
  import opened EvidenceSerial

  // ---------------------------------------------------------------------- retries

  /** The move is a fault that strikes an attempt of call p. */
  predicate AttemptFault(s: State, m: Move, p: nat) {
    m.p == p && m.a.Fault? && p < |s.procs| && s.procs[p].stage.Try?
  }

  /** How many of the first i moves are retryable, or non-retryable, faults of p's attempts. */
  function AttemptFaults(states: seq<State>, moves: seq<Move>, i: nat, p: nat, retryable: bool): nat
    requires i <= |moves| < |states|
  {
    if i == 0 then 0
    else
      AttemptFaults(states, moves, i - 1, p, retryable)
      + if AttemptFault(states[i - 1], moves[i - 1], p) && moves[i - 1].a.retryable == retryable then 1 else 0
  }

  /** A failed call: its failure is being logged, or that has ended. */
  predicate GivenUp(stage: Stage) {
    stage.Log? || (stage.Done? && stage.outcome.Failed?)
  }

  /** After k retryable and f other faults of its attempts. */
  predicate AfterFaults(stage: Stage, k: nat, f: nat) {
    && (GivenUp(stage) <==> f == 1 || k == 5)
    && (f == 0 && k < 5 && !stage.Done? ==> stage == Try(k + 1))
    && k + f <= 5 && f <= 1
  }

  lemma StepCountsFaults(cfg: Config, s: State, m: Move, t: State, p: nat, k: nat, f: nat)
    requires Next(cfg, s, m, t) && ProcOk(cfg, s, m.p) && p < |s.procs| && AfterFaults(s.procs[p].stage, k, f)
    ensures Shape(cfg, t)
    ensures var fault := AttemptFault(s, m, p);
      AfterFaults(t.procs[p].stage, k + if fault && m.a.retryable then 1 else 0, f + if fault && !m.a.retryable then 1 else 0)
  {
    if m.p != p {
      assert t.procs[p] == s.procs[p];
    }
  }

  /** A call gives up exactly after one non-retryable or five retryable faults of its attempts;
      before that, after k retryable ones, an unfinished call is in its attempt k + 1. */
  lemma {:induction false} GivesUpExactly(cfg: Config, states: seq<State>, moves: seq<Move>, i: nat, p: nat)
    requires IgnoresHashFields(cfg.h) && IsRun(cfg, states, moves) && i < |states| && p < |cfg.calls|
    ensures Shape(cfg, states[i])
    ensures var stage, k, f := states[i].procs[p].stage, AttemptFaults(states, moves, i, p, true), AttemptFaults(states, moves, i, p, false);
      && (GivenUp(stage) <==> f == 1 || k == 5)
      && (f == 0 && k < 5 && !stage.Done? ==> stage == Try(k + 1))
      && k + f <= 5 && f <= 1
  {
    if i > 0 {
      GivesUpExactly(cfg, states, moves, i - 1, p);
      RunKeepsInv(cfg, states, moves, i - 1);
      assert Next(cfg, states[i - 1], moves[i - 1], states[i]);
      StepCountsFaults(cfg, states[i - 1], moves[i - 1], states[i], p,
                       AttemptFaults(states, moves, i - 1, p, true), AttemptFaults(states, moves, i - 1, p, false));
    }
  }

  /** The fault among the first i moves after which call p gave up. */
  ghost predicate LastFault(states: seq<State>, moves: seq<Move>, i: nat, p: nat, j: nat)
    requires i <= |moves| < |states|
  {
    && j < i && AttemptFault(states[j], moves[j], p)
    && forall l :: j < l < i ==> !AttemptFault(states[l], moves[l], p)
  }

  /** A failure log carries the reason and time of the fault that ended the attempts. */
  lemma {:induction false} LogsLastFault(cfg: Config, states: seq<State>, moves: seq<Move>, i: nat, p: nat) returns (j: nat)
    requires IsRun(cfg, states, moves) && i < |states| && p < |cfg.calls|
    requires Shape(cfg, states[i]) && states[i].procs[p].stage.Log?
    ensures LastFault(states, moves, i, p, j)
    ensures states[i].procs[p].stage == Log(moves[j].a.reason, moves[j].a.now)
  {
    var s, m := states[i - 1], moves[i - 1];
    assert Next(cfg, s, m, states[i]);
    if s.procs[p].stage.Log? {
      j := LogsLastFault(cfg, states, moves, i - 1, p);
    } else {
      j := i - 1;
    }
  }

  // ----------------------------------------------------------------------- events

  ghost predicate Persists(e: AuditEvent, call: Call) {
    var r := call.row;
    && e.eventType == "calculation_persisted" && e.referenceId == Some(r.requestId) && e.createdAt == call.createdAt
    && e.payload == Obj(map["request_id" := Str(r.requestId), "result_id" := Str(r.resultId), "proof_id" := Str(r.proofId),
                            "input_hash" := Str(r.inputHash), "output_hash" := Str(r.outputHash),
                            "trace_hash" := Str(r.traceHash), "integrity_hash" := Str(r.integrityHash)])
  }

  ghost predicate RejectsDuplicate(e: AuditEvent, call: Call) {
    && e.eventType == "calculation_rejected_duplicate" && e.referenceId == Some(call.row.requestId) && e.createdAt == call.createdAt
    && e.payload == Obj(map["input_hash" := Str(call.row.inputHash), "reason" := Str("duplicate_input_hash")])
  }

  ghost predicate ReportsFailure(e: AuditEvent, call: Call, reason: string, now: string) {
    && e.eventType == "calculation_persist_failed" && e.referenceId == Some(call.row.requestId) && e.createdAt == now
    && e.payload == Obj(map["input_hash" := Str(call.row.inputHash), "reason" := Str(reason)])
  }

  /** The committed event that tells how a call ended. */
  ghost predicate Tells(e: AuditEvent, call: Call, entry: Entry, outcome: Outcome) {
    match outcome
    case Persisted => entry.CallTxn? && Persists(e, call)
    case Duplicate => entry.CallTxn? && RejectsDuplicate(e, call)
    case Conflict => false
    case Failed(logged) => logged && entry.FailTxn? && ReportsFailure(e, call, entry.reason, entry.now)
  }

  lemma SerialLogGrows(cfg: Config, db: Db, e: Entry, k: nat)
    requires ValidEntry(cfg, e) && k < |db.log|
    ensures |SerialStep(cfg, db, e).log| == |db.log| + 1 && SerialStep(cfg, db, e).log[k] == db.log[k]
  {}

  lemma {:induction false} SerialLogStable(cfg: Config, entries: seq<Entry>, k: nat)
    requires ValidEntries(cfg, entries) && k < |entries|
    ensures SerialRun(cfg, entries).log[k] == SerialRun(cfg, entries[..k + 1]).log[k]
  {
    var n := |entries| - 1;
    if k == n {
      assert entries[..k + 1] == entries;
    } else {
      SerialLogStable(cfg, entries[..n], k);
      assert entries[..n][..k + 1] == entries[..k + 1];
      SerialLogGrows(cfg, SerialRun(cfg, entries[..n]), entries[n], k);
    }
  }

  lemma SerialEventAt(cfg: Config, entries: seq<Entry>, k: nat)
    requires ValidEntries(cfg, entries) && k < |entries|
    ensures SerialRun(cfg, entries).log[k] == SerialEvent(cfg, SerialRun(cfg, entries[..k]), entries[k]).(id := Some(k + 1))
  {
    SerialLogStable(cfg, entries, k);
    var front := entries[..k + 1];
    assert front[..k] == entries[..k] && front[|front| - 1] == entries[k];
    SerialLast(cfg, front);
  }

  lemma SerialLast(cfg: Config, entries: seq<Entry>)
    requires ValidEntries(cfg, entries) && entries != []
    ensures var k := |entries| - 1;
      SerialRun(cfg, entries).log[k] == SerialEvent(cfg, SerialRun(cfg, entries[..k]), entries[k]).(id := Some(k + 1))
  {}

  lemma SerialEventTells(cfg: Config, db: Db, e: Entry)
    requires ValidEntry(cfg, e)
    ensures Tells(SerialEvent(cfg, db, e), cfg.calls[e.p], e, SerialOutcome(cfg, db, e))
    ensures SerialEvent(cfg, db, e).chainId == ChainOf(cfg, e.p)
  {}

  lemma SameTells(a: AuditEvent, b: AuditEvent, call: Call, entry: Entry, outcome: Outcome)
    requires SameButId(a, b) && Tells(b, call, entry, outcome)
    ensures Tells(a, call, entry, outcome) && a.chainId == b.chainId
  {
    assert a == b.(id := a.id);
  }

  /** In every state of every interleaving the k-th committed event is in its call's partition
      and tells how the call ended: persisted, rejected as a duplicate, or failed with a reason. */
  lemma EventsTellOutcomes(cfg: Config, states: seq<State>, moves: seq<Move>, i: nat, k: nat)
    requires IgnoresHashFields(cfg.h) && IsRun(cfg, states, moves) && i < |states| && k < |states[i].history|
    ensures var s, e := states[i], states[i].history[k];
      && Shape(cfg, s) && e.p < |cfg.calls| && |s.db.log| == |s.history| && s.procs[e.p].stage.Done?
      && Tells(s.db.log[k], cfg.calls[e.p], e, s.procs[e.p].stage.outcome) && s.db.log[k].chainId == ChainOf(cfg, e.p)
  {
    RunRefinesSerial(cfg, states, moves, i);
    OutcomesAreSerial(cfg, states, moves, i, k);
    var s := states[i];
    var e, before := s.history[k], SerialRun(cfg, s.history[..k]);
    SerialEventAt(cfg, s.history, k);
    SerialEventTells(cfg, before, e);
    var serial := SerialEvent(cfg, before, e);
    assert SameButId(s.db.log[k], SerialRun(cfg, s.history).log[k]);
    SameTells(s.db.log[k], serial, cfg.calls[e.p], e, s.procs[e.p].stage.outcome);
  }
}
