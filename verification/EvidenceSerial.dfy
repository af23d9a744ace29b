/** The serial reference for the evidence protocol: whole transactions, one at a time, over the
    committed state, and the refinement of every interleaving to it. */
module EvidenceSerial {
  import opened Common
  import opened AuditChain
  import opened EvidenceProtocol

  predicate ValidEntry(cfg: Config, e: Entry) {
    e.p < |cfg.calls|
  }

  /** The last hash of a partition, in log order (tests/fakes.py). */
  function TailHash(start: string, log: seq<AuditEvent>, c: int): string {
    var records := Select(log, c);
    HashAfter(start, records, |records|)
  }

  /** What the transaction does when it runs alone: the row it adds, if any. */
  function SerialRow(cfg: Config, db: Db, e: Entry): Option<Row>
    requires ValidEntry(cfg, e)
  {
    var row := cfg.calls[e.p].row;
    if e.FailTxn? || HasHash(db.rows, row.inputHash) then None else Some(row)
  }

  /** ... and the event it appends, without an id. */
  function SerialEvent(cfg: Config, db: Db, e: Entry): AuditEvent
    requires ValidEntry(cfg, e)
  {
    var call := cfg.calls[e.p];
    var prev := TailHash(cfg.start, db.log, cfg.chainOf(call.row.inputHash));
    if e.FailTxn? then FailureEvent(cfg, call, prev, e.reason, e.now)
    else if HasHash(db.rows, call.row.inputHash) then DuplicateEvent(cfg, call, prev)
    else PersistedEvent(cfg, call, prev)
  }

  /** ... and how the call it belongs to ends. */
  function SerialOutcome(cfg: Config, db: Db, e: Entry): Outcome
    requires ValidEntry(cfg, e)
  {
    if e.FailTxn? then Failed(true) else if SerialRow(cfg, db, e).Some? then Persisted else Duplicate
  }

  /** One whole transaction; ids count the log. */
  function SerialStep(cfg: Config, db: Db, e: Entry): Db
    requires ValidEntry(cfg, e)
  {
    Db(db.rows + Insertion(SerialRow(cfg, db, e)), db.log + [SerialEvent(cfg, db, e).(id := Some(|db.log| + 1))])
  }

  predicate ValidEntries(cfg: Config, entries: seq<Entry>) {
    forall i :: 0 <= i < |entries| ==> ValidEntry(cfg, entries[i])
  }

  function SerialRun(cfg: Config, entries: seq<Entry>): (db: Db)
    requires ValidEntries(cfg, entries)
    ensures |db.log| == |entries|
  {
    if entries == [] then Db([], [])
    else SerialStep(cfg, SerialRun(cfg, entries[..|entries| - 1]), entries[|entries| - 1])
  }

  // ------------------------------------------------------------------- refinement

  predicate SameButId(a: AuditEvent, b: AuditEvent) {
    a.(id := None) == b.(id := None)
  }

  ghost predicate SameUpToIds(a: seq<AuditEvent>, b: seq<AuditEvent>) {
    |a| == |b| && forall i :: 0 <= i < |a| ==> SameButId(a[i], b[i])
  }

  lemma {:induction false} SelectUpToIds(a: seq<AuditEvent>, b: seq<AuditEvent>, c: int)
    requires SameUpToIds(a, b)
    ensures SameUpToIds(Select(a, c), Select(b, c))
  {
    if a != [] {
      var n := |a| - 1;
      assert forall i :: 0 <= i < n ==> SameButId(a[..n][i], b[..n][i]);
      SelectUpToIds(a[..n], b[..n], c);
      assert SameButId(a[n], b[n]);
    }
  }

  lemma TailUpToIds(start: string, a: seq<AuditEvent>, b: seq<AuditEvent>, c: int)
    requires SameUpToIds(a, b)
    ensures TailHash(start, a, c) == TailHash(start, b, c)
  {
    SelectUpToIds(a, b, c);
    var r, t := Select(a, c), Select(b, c);
    if r != [] {
      assert SameButId(r[|r| - 1], t[|r| - 1]);
    }
  }

  /** The committed state is the serial one, up to ids. */
  ghost predicate Refines(cfg: Config, s: State) {
    && ValidEntries(cfg, s.history)
    && s.db.rows == SerialRun(cfg, s.history).rows
    && SameUpToIds(s.db.log, SerialRun(cfg, s.history).log)
  }

  /** What p is about to commit is what its transaction would do alone, on any state that is the
      committed one up to ids. */
  lemma PendingIsSerial(cfg: Config, s: State, p: nat, db: Db)
    requires Shape(cfg, s) && p < |s.procs| && ProcOk(cfg, s, p) && s.procs[p].pc.Audited? && !s.procs[p].stage.Done?
    requires db.rows == s.db.rows && SameUpToIds(s.db.log, db.log)
    ensures var e, pr := EntryFor(p, s.procs[p].stage), s.procs[p];
      && pr.pc.added == SerialRow(cfg, db, e) && SameButId(pr.pc.event, SerialEvent(cfg, db, e))
      && AfterCommit(pr.stage, pr.pc.added) == Proc(Done(SerialOutcome(cfg, db, e)), Idle)
  {
    TailUpToIds(cfg.start, s.db.log, db.log, ChainOf(cfg, p));
  }

  lemma SerialRunAppend(cfg: Config, entries: seq<Entry>, e: Entry)
    requires ValidEntries(cfg, entries) && ValidEntry(cfg, e)
    ensures ValidEntries(cfg, entries + [e])
    ensures SerialRun(cfg, entries + [e]) == SerialStep(cfg, SerialRun(cfg, entries), e)
  {
    assert (entries + [e])[..|entries|] == entries;
  }

  lemma AppendUpToIds(a: seq<AuditEvent>, b: seq<AuditEvent>, e: AuditEvent, f: AuditEvent, n: int)
    requires SameUpToIds(a, b) && SameButId(e, f)
    ensures SameUpToIds(a + [e], b + [f.(id := Some(n))])
  {
    assert SameButId(e, f.(id := Some(n)));
  }

  lemma StepRefines(cfg: Config, s: State, p: nat, a: Action)
    requires Shape(cfg, s) && Enabled(cfg, s, p, a) && ProcOk(cfg, s, p) && Refines(cfg, s)
    ensures Refines(cfg, Step(cfg, s, p, a))
  {
    if a.Commit? {
      var e, db := EntryFor(p, s.procs[p].stage), SerialRun(cfg, s.history);
      PendingIsSerial(cfg, s, p, db);
      SerialRunAppend(cfg, s.history, e);
      AppendUpToIds(s.db.log, db.log, s.procs[p].pc.event, SerialEvent(cfg, db, e), |db.log| + 1);
    }
  }

  /** Every interleaving is the serial run of its transactions in commit order, up to ids. */
  lemma {:induction false} RunRefinesSerial(cfg: Config, states: seq<State>, moves: seq<Move>, i: nat)
    requires IgnoresHashFields(cfg.h) && IsRun(cfg, states, moves) && i < |states|
    ensures Refines(cfg, states[i])
  {
    if i > 0 {
      RunRefinesSerial(cfg, states, moves, i - 1);
      RunKeepsInv(cfg, states, moves, i - 1);
      assert Next(cfg, states[i - 1], moves[i - 1], states[i]);
      assert ProcOk(cfg, states[i - 1], moves[i - 1].p);
      StepRefines(cfg, states[i - 1], moves[i - 1].p, moves[i - 1].a);
    }
  }

  // --------------------------------------------------------------------- accounting

  function Commits(history: seq<Entry>, p: nat): nat {
    if history == [] then 0
    else Commits(history[..|history| - 1], p) + if history[|history| - 1].p == p then 1 else 0
  }

  /** The call has ended with an audit event: all ends but a failure whose log failed too. */
  predicate Logged(stage: Stage) {
    stage.Done? && stage.outcome != Failed(false)
  }

  ghost predicate Accounted(s: State, p: nat)
    requires p < |s.procs|
  {
    Commits(s.history, p) == if Logged(s.procs[p].stage) then 1 else 0
  }

  lemma StepAccounts(cfg: Config, s: State, p: nat, a: Action, q: nat)
    requires Inv(cfg, s) && Enabled(cfg, s, p, a) && q < |s.procs| && Accounted(s, q)
    ensures Accounted(Step(cfg, s, p, a), q)
  {
    var t := Step(cfg, s, p, a);
    assert ProcOk(cfg, s, p);
    if a.Commit? {
      assert t.history[..|s.history|] == s.history;
    }
    if a.Insert? {
      InsertNeverConflicts(cfg, s, p);
    }
  }

  /** Exactly one committed audit event for every finished call, none for unfinished ones and
      none for a failed call whose failure log did not commit. */
  lemma {:induction false} OneEventPerCall(cfg: Config, states: seq<State>, moves: seq<Move>, i: nat, p: nat)
    requires IgnoresHashFields(cfg.h) && IsRun(cfg, states, moves) && i < |states| && p < |cfg.calls|
    ensures Shape(cfg, states[i]) && Accounted(states[i], p)
  {
    if i > 0 {
      OneEventPerCall(cfg, states, moves, i - 1, p);
      RunKeepsInv(cfg, states, moves, i - 1);
      assert Next(cfg, states[i - 1], moves[i - 1], states[i]);
      StepAccounts(cfg, states[i - 1], moves[i - 1].p, moves[i - 1].a, p);
    }
  }

  function OutcomeAt(cfg: Config, history: seq<Entry>, k: nat): Outcome
    requires k < |history| && ValidEntries(cfg, history)
  {
    SerialOutcome(cfg, SerialRun(cfg, history[..k]), history[k])
  }

  lemma OutcomeAtAppend(cfg: Config, history: seq<Entry>, e: Entry, k: nat)
    requires ValidEntries(cfg, history) && ValidEntry(cfg, e) && k <= |history|
    ensures ValidEntries(cfg, history + [e])
    ensures k < |history| ==> OutcomeAt(cfg, history + [e], k) == OutcomeAt(cfg, history, k)
    ensures k == |history| ==> OutcomeAt(cfg, history + [e], k) == SerialOutcome(cfg, SerialRun(cfg, history), e)
  {
    assert (history + [e])[..k] == history[..k];
    assert k == |history| ==> history[..k] == history;
  }

  /** The k-th committed transaction has ended its call as it would have alone after the k
      before it. */
  ghost predicate EndedSerially(cfg: Config, s: State, k: nat)
    requires k < |s.history| && Shape(cfg, s) && ValidEntries(cfg, s.history)
  {
    s.procs[s.history[k].p].stage == Done(OutcomeAt(cfg, s.history, k))
  }

  lemma StepEndsSerially(cfg: Config, s: State, p: nat, a: Action, k: nat)
    requires Shape(cfg, s) && Enabled(cfg, s, p, a) && ProcOk(cfg, s, p) && Refines(cfg, s)
    requires var t := Step(cfg, s, p, a); k < |t.history|
    requires k < |s.history| ==> EndedSerially(cfg, s, k)
    ensures var t := Step(cfg, s, p, a); ValidEntries(cfg, t.history) && EndedSerially(cfg, t, k)
  {
    if a.Commit? {
      OutcomeAtAppend(cfg, s.history, EntryFor(p, s.procs[p].stage), k);
      PendingIsSerial(cfg, s, p, SerialRun(cfg, s.history));
    }
  }

  lemma NextEndsSerially(cfg: Config, s: State, m: Move, t: State, k: nat)
    requires Inv(cfg, s) && Next(cfg, s, m, t) && Refines(cfg, s) && k < |t.history|
    requires k < |s.history| ==> EndedSerially(cfg, s, k)
    ensures Shape(cfg, t) && ValidEntries(cfg, t.history) && EndedSerially(cfg, t, k)
  {
    assert ProcOk(cfg, s, m.p);
    StepEndsSerially(cfg, s, m.p, m.a, k);
  }

  /** Callers get the answers of the serial run. */
  lemma {:induction false} OutcomesAreSerial(cfg: Config, states: seq<State>, moves: seq<Move>, i: nat, k: nat)
    requires IgnoresHashFields(cfg.h) && IsRun(cfg, states, moves) && i < |states| && k < |states[i].history|
    ensures Shape(cfg, states[i]) && ValidEntries(cfg, states[i].history) && EndedSerially(cfg, states[i], k)
  {
    if i > 0 {
      var s := states[i - 1];
      assert Next(cfg, s, moves[i - 1], states[i]);
      RunRefinesSerial(cfg, states, moves, i - 1);
      if k < |s.history| {
        OutcomesAreSerial(cfg, states, moves, i - 1, k);
      }
      RunKeepsInv(cfg, states, moves, i - 1);
      NextEndsSerially(cfg, s, moves[i - 1], states[i], k);
    }
  }
}
