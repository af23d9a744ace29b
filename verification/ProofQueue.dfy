/** The event-sourced proof queue (backend/proof_queue.py). Every state transition appends an
    event in memory and then mirrors it to a log file; the mirror write may fail. Submits are
    serialised, worker steps interleave freely. */
module ProofQueue {
  import opened Common

  datatype Status = Pending | Processing | Completed | Failed

  /** mirrored says whether the write to the log file succeeded. */
  datatype Event = Event(taskId: string, status: Status, mirrored: bool)

  /** The events of one task, in order. */
  function History(events: seq<Event>, id: string): (h: seq<Event>)
    ensures forall e :: e in h ==> e.taskId == id && e in events
  {
    if events == [] then []
    else
      var front, last := History(events[..|events| - 1], id), events[|events| - 1];
      if last.taskId == id then front + [last] else front
  }

  /** The transitions of a task. A worker goes on only after its event is mirrored; a failed
      mirror write of the completed event is caught and becomes a failed event. */
  predicate Follows(a: Event, b: Event) {
    match a.status
    case Pending => a.mirrored && b.status.Processing?
    case Processing => a.mirrored && (b.status.Completed? || b.status.Failed?)
    case Completed => !a.mirrored && b.status.Failed?
    case Failed => b.status.Pending?
  }

  ghost predicate Legal(h: seq<Event>) {
    && (h != [] ==> h[0].status.Pending?)
    && forall i :: 0 <= i < |h| - 1 ==> Follows(h[i], h[i + 1])
  }

  // -------------------------------------------------------------------------- readers

  /** The last event of a task: what a reverse scan finds. */
  function LatestFor(events: seq<Event>, id: string): Option<Event> {
    var h := History(events, id);
    if h == [] then None else Some(h[|h| - 1])
  }

  /** The dictionary a forward pass builds. */
  function LatestMap(events: seq<Event>): map<string, Event> {
    if events == [] then map[]
    else
      var last := events[|events| - 1];
      LatestMap(events[..|events| - 1])[last.taskId := last]
  }

  /** The forward fold of `snapshot` agrees with the reverse scan of `get_task`. */
  lemma {:induction false} FoldAgreesWithScan(events: seq<Event>, id: string)
    ensures (id in LatestMap(events) <==> LatestFor(events, id).Some?)
    ensures id in LatestMap(events) ==> LatestFor(events, id) == Some(LatestMap(events)[id])
  {
    if events != [] {
      FoldAgreesWithScan(events[..|events| - 1], id);
    }
  }

  lemma HistoryAppend(events: seq<Event>, e: Event, id: string)
    ensures History(events + [e], id) == if e.taskId == id then History(events, id) + [e] else History(events, id)
  {
    assert (events + [e])[..|events|] == events;
  }

  function TaskIds(events: seq<Event>): set<string> {
    set e | e in events :: e.taskId
  }

  lemma {:induction false} LatestMapKeys(events: seq<Event>)
    ensures LatestMap(events).Keys == TaskIds(events)
  {
    if events != [] {
      var front, last := events[..|events| - 1], events[|events| - 1];
      LatestMapKeys(front);
      assert events == front + [last];
      assert TaskIds(events) == TaskIds(front) + {last.taskId};
    }
  }

  function WithStatus(latest: map<string, Event>, s: Status): set<string> {
    set id | id in latest && latest[id].status == s
  }

  datatype Counts = Counts(total: nat, pending: nat, processing: nat, completed: nat, failed: nat)

  lemma StatusesPartition(latest: map<string, Event>)
    ensures |latest| == |WithStatus(latest, Pending)| + |WithStatus(latest, Processing)| + |WithStatus(latest, Completed)| + |WithStatus(latest, Failed)|
  {
    var a, b, c, d := WithStatus(latest, Pending), WithStatus(latest, Processing), WithStatus(latest, Completed), WithStatus(latest, Failed);
    assert latest.Keys == a + b + c + d;
    FourParts(a, b, c, d);
  }

  lemma FourParts<T>(a: set<T>, b: set<T>, c: set<T>, d: set<T>)
    requires a !! b !! c !! d
    ensures |a + b + c + d| == |a| + |b| + |c| + |d|
  {
    assert |a + b| == |a| + |b| && |a + b + c| == |a + b| + |c|;
  }

  /** `sum(1 for task in tasks if task.status == s)`. */
  method CountStatus(latest: map<string, Event>, s: Status) returns (n: nat)
    ensures n == |WithStatus(latest, s)|
  {
    n := 0;
    ghost var all := WithStatus(latest, s);
    var left := latest.Keys;
    assert left * all == all;
    while left != {}
      invariant left <= latest.Keys && all <= latest.Keys
      invariant n + |left * all| == |all|
      decreases |left|
    {
      var id :| id in left;
      OneLess(left, all, id);
      if latest[id].status == s {
        n := n + 1;
      }
      left := left - {id};
    }
  }

  lemma OneLess(left: set<string>, all: set<string>, id: string)
    requires id in left
    ensures |left * all| == |(left - {id}) * all| + if id in all then 1 else 0
  {
    if id in all {
      assert left * all == (left - {id}) * all + {id};
    } else {
      assert left * all == (left - {id}) * all;
    }
  }

  // ---------------------------------------------------------------------------- queue

  /** Where the job of a submitted task is: waiting in the executor, running, or about to record
      that the mirror write of its completed event failed. */
  datatype Job = Waiting | Running | Broken

  /** The latest status that belongs to a job's phase. */
  predicate PhaseOf(j: Job, e: Event) {
    match j
    case Waiting => e.status.Pending? && e.mirrored
    case Running => e.status.Processing? && e.mirrored
    case Broken => e.status.Completed? && !e.mirrored
  }

  ghost predicate AllLegal(events: seq<Event>) {
    forall id :: Legal(History(events, id))
  }

  lemma LegalAppend(h: seq<Event>, e: Event)
    requires Legal(h) && if h == [] then e.status.Pending? else Follows(h[|h| - 1], e)
    ensures Legal(h + [e])
  {
    var t := h + [e];
    forall i | 0 <= i < |t| - 1 ensures Follows(t[i], t[i + 1]) {
      if i + 1 < |h| {
        assert Follows(h[i], h[i + 1]);
      }
    }
  }

  /** Appending a legal next event of a task keeps every history legal and leaves the latest
      events of the other tasks alone. */
  lemma KeepsLegal(events: seq<Event>, e: Event)
    requires AllLegal(events)
    requires var latest := LatestFor(events, e.taskId);
      if latest.None? then e.status.Pending? else Follows(latest.value, e)
    ensures AllLegal(events + [e]) && LatestFor(events + [e], e.taskId) == Some(e)
    ensures forall id :: id != e.taskId ==> LatestFor(events + [e], id) == LatestFor(events, id)
  {
    forall id
      ensures Legal(History(events + [e], id))
      ensures id != e.taskId ==> LatestFor(events + [e], id) == LatestFor(events, id)
    {
      HistoryAppend(events, e, id);
      if id == e.taskId {
        LegalAppend(History(events, id), e);
      }
    }
    HistoryAppend(events, e, e.taskId);
  }

  /** Every history is legal, every live job's task is in the job's phase, and a completed event
      that was not mirrored is last only while its worker is about to record the failed write. */
  ghost predicate QueueOk(events: seq<Event>, jobs: map<string, Job>) {
    && AllLegal(events)
    && (forall id :: id in jobs ==> LatestFor(events, id).Some? && PhaseOf(jobs[id], LatestFor(events, id).value))
    && forall id :: BrokenWrite(LatestFor(events, id)) ==> id in jobs && jobs[id].Broken?
  }

  predicate BrokenWrite(latest: Option<Event>) {
    latest.Some? && latest.value.status.Completed? && !latest.value.mirrored
  }

  /** An event of one task that puts its job into a new phase, or ends it. */
  lemma StepOk(events: seq<Event>, jobs: map<string, Job>, e: Event, phase: Option<Job>)
    requires QueueOk(events, jobs) && (phase.Some? ==> PhaseOf(phase.value, e)) && (phase.None? ==> !BrokenWrite(Some(e)))
    requires var latest := LatestFor(events, e.taskId);
      if latest.None? then e.status.Pending? else Follows(latest.value, e)
    ensures QueueOk(events + [e], if phase.Some? then jobs[e.taskId := phase.value] else jobs - {e.taskId})
  {
    KeepsLegal(events, e);
    var next := if phase.Some? then jobs[e.taskId := phase.value] else jobs - {e.taskId};
    forall id
      ensures id in next ==> LatestFor(events + [e], id).Some? && PhaseOf(next[id], LatestFor(events + [e], id).value)
      ensures BrokenWrite(LatestFor(events + [e], id)) ==> id in next && next[id].Broken?
    {
      if id != e.taskId {
        assert LatestFor(events + [e], id) == LatestFor(events, id);
        assert id in next <==> id in jobs;
      }
    }
  }

  // ----------------------------------------------------------------------------- runs

  datatype State = State(events: seq<Event>, jobs: map<string, Job>)

  /** A whole submit, or one step of a worker; mirrored is the fate of its log write. */
  datatype Move =
    | SubmitTask(id: string, mirrored: bool)
    | StartTask(id: string, mirrored: bool)
    | FinishTask(id: string, proved: bool, mirrored: bool)
    | RecordFailure(id: string, mirrored: bool)

  predicate Accepts(latest: Option<Event>) {
    latest.None? || latest.value.status.Failed?
  }

  predicate Enabled(s: State, m: Move) {
    match m
    case SubmitTask(_, _) => true
    case StartTask(id, _) => id in s.jobs && s.jobs[id].Waiting?
    case FinishTask(id, _, _) => id in s.jobs && s.jobs[id].Running?
    case RecordFailure(id, _) => id in s.jobs && s.jobs[id].Broken?
  }

  function EventOf(m: Move): Event {
    match m
    case SubmitTask(id, mirrored) => Event(id, Pending, mirrored)
    case StartTask(id, mirrored) => Event(id, Processing, mirrored)
    case FinishTask(id, proved, mirrored) => Event(id, if proved then Completed else Failed, mirrored)
    case RecordFailure(id, mirrored) => Event(id, Failed, mirrored)
  }

  /** Where the job is after the move, if it lives on. */
  function JobAfter(m: Move): Option<Job> {
    match m
    case SubmitTask(_, mirrored) => if mirrored then Some(Waiting) else None
    case StartTask(_, mirrored) => if mirrored then Some(Running) else None
    case FinishTask(_, proved, mirrored) => if proved && !mirrored then Some(Broken) else None
    case RecordFailure(_, _) => None
  }

  function Next(s: State, m: Move): State {
    if m.SubmitTask? && !Accepts(LatestFor(s.events, m.id)) then s
    else
      var phase := JobAfter(m);
      State(s.events + [EventOf(m)], if phase.Some? then s.jobs[m.id := phase.value] else s.jobs - {m.id})
  }

  const EMPTY: State := State([], map[])

  function After(moves: seq<Move>): State {
    if moves == [] then EMPTY else Next(After(moves[..|moves| - 1]), moves[|moves| - 1])
  }

  predicate Run(moves: seq<Move>) {
    moves == [] || (Run(moves[..|moves| - 1]) && Enabled(After(moves[..|moves| - 1]), moves[|moves| - 1]))
  }

  lemma NextOk(s: State, m: Move)
    requires QueueOk(s.events, s.jobs) && Enabled(s, m)
    ensures QueueOk(Next(s, m).events, Next(s, m).jobs)
  {
    if !m.SubmitTask? || Accepts(LatestFor(s.events, m.id)) {
      StepOk(s.events, s.jobs, EventOf(m), JobAfter(m));
    }
  }

  lemma {:induction false} RunOk(moves: seq<Move>)
    requires Run(moves)
    ensures QueueOk(After(moves).events, After(moves).jobs)
  {
    if moves != [] {
      RunOk(moves[..|moves| - 1]);
      NextOk(After(moves[..|moves| - 1]), moves[|moves| - 1]);
    }
  }

  /** In every reachable queue, once no worker holds a task, a completed event of it is its last
      event if and only if the log write of that event succeeded; and what else may follow a
      completed event is only a failed one. */
  lemma CompletedIsFinal(moves: seq<Move>, id: string, i: nat)
    requires Run(moves)
    requires var h := History(After(moves).events, id); i < |h| && h[i].status.Completed?
    ensures var h := History(After(moves).events, id); h[i].mirrored ==> i == |h| - 1
    ensures var h := History(After(moves).events, id); id !in After(moves).jobs ==> (i == |h| - 1 <==> h[i].mirrored)
    ensures var h := History(After(moves).events, id); i < |h| - 1 ==> h[i + 1].status.Failed?
  {
    var s := After(moves);
    var h := History(s.events, id);
    RunOk(moves);
    if i < |h| - 1 {
      assert Follows(h[i], h[i + 1]);
    } else if !h[i].mirrored {
      assert BrokenWrite(LatestFor(s.events, id));
    }
  }

  ghost predicate Done(latest: Option<Event>) {
    latest.Some? && latest.value.status.Completed? && latest.value.mirrored
  }

  lemma NextKeepsDone(s: State, m: Move, id: string)
    requires QueueOk(s.events, s.jobs) && Enabled(s, m) && Done(LatestFor(s.events, id))
    ensures LatestFor(Next(s, m).events, id) == LatestFor(s.events, id)
  {
    assert id !in s.jobs;
    assert m.id == id ==> Next(s, m) == s;
    HistoryAppend(s.events, EventOf(m), id);
  }

  /** A task that is completed with its log write done stays so, whatever is run after. */
  lemma {:induction false} CompletedStays(moves: seq<Move>, more: seq<Move>, id: string)
    requires Run(moves + more) && Done(LatestFor(After(moves).events, id))
    ensures LatestFor(After(moves + more).events, id) == LatestFor(After(moves).events, id)
  {
    if more == [] {
      assert moves + more == moves;
    } else {
      var all, front := moves + more, more[..|more| - 1];
      assert all[..|all| - 1] == moves + front;
      CompletedStays(moves, front, id);
      RunOk(moves + front);
      NextKeepsDone(After(moves + front), more[|more| - 1], id);
    }
  }

  /** In every reachable queue a task is pending first, and returns to pending only from failed. */
  lemma PendingOnlyAfterFailed(moves: seq<Move>, id: string, i: nat)
    requires Run(moves) && i < |History(After(moves).events, id)|
    ensures var h := History(After(moves).events, id); h[i].status.Pending? <==> i == 0 || h[i - 1].status.Failed?
  {
    RunOk(moves);
    var h := History(After(moves).events, id);
    assert Legal(h);
    if i > 0 {
      assert Follows(h[i - 1], h[i - 1 + 1]);
    }
  }

  /** After the moves the task has this history, and its job is here. */
  ghost predicate Reaches(moves: seq<Move>, id: string, h: seq<Event>, job: Option<Job>) {
    && Run(moves) && History(After(moves).events, id) == h
    && if id in After(moves).jobs then job == Some(After(moves).jobs[id]) else job == None
  }

  /** One more move that appends its event to the history of its task. */
  lemma OneMore(moves: seq<Move>, m: Move, h: seq<Event>, job: Option<Job>, more: seq<Move>)
    requires Reaches(moves, m.id, h, job) && more == moves + [m]
    requires match m
      case SubmitTask(_, _) => h == []
      case StartTask(_, _) => job == Some(Waiting)
      case FinishTask(_, _, _) => job == Some(Running)
      case RecordFailure(_, _) => job == Some(Broken)
    ensures Reaches(more, m.id, h + [EventOf(m)], JobAfter(m))
  {
    assert more[..|moves|] == moves;
    var s := After(moves);
    HistoryAppend(s.events, EventOf(m), m.id);
    assert After(more) == Next(s, m);
    assert Next(s, m).events == s.events + [EventOf(m)];
  }

  /** A submitted task's run up to a completed event whose log write failed. */
  lemma ReachesBroken(id: string) returns (moves: seq<Move>)
    ensures |moves| == 3 && moves[0] == SubmitTask(id, true) && moves[1] == StartTask(id, true) && moves[2] == FinishTask(id, true, false)
    ensures Reaches(moves, id, [Event(id, Pending, true), Event(id, Processing, true), Event(id, Completed, false)], Some(Broken))
  {
    var none: seq<Move> := [];
    var one := none + [SubmitTask(id, true)];
    OneMore(none, SubmitTask(id, true), [], None, one);
    var two := one + [StartTask(id, true)];
    OneMore(one, StartTask(id, true), [Event(id, Pending, true)], Some(Waiting), two);
    moves := two + [FinishTask(id, true, false)];
    OneMore(two, FinishTask(id, true, false), [Event(id, Pending, true), Event(id, Processing, true)], Some(Running), moves);
  }

  /** A task can leave completed: its proof was built, the log write of the completed event
      failed, and the exception handler recorded a failure. */
  lemma CompletedCanBeLeft(id: string) returns (moves: seq<Move>)
    ensures |moves| == 4 && moves[0] == SubmitTask(id, true) && moves[1] == StartTask(id, true)
    ensures moves[2] == FinishTask(id, true, false) && moves[3] == RecordFailure(id, true)
    ensures Reaches(moves, id, [Event(id, Pending, true), Event(id, Processing, true), Event(id, Completed, false), Event(id, Failed, true)], None)
  {
    var broken := ReachesBroken(id);
    moves := broken + [RecordFailure(id, true)];
    OneMore(broken, RecordFailure(id, true), [Event(id, Pending, true), Event(id, Processing, true), Event(id, Completed, false)], Some(Broken), moves);
  }

  class Queue {
    var events: seq<Event>
    var jobs: map<string, Job>

    ghost predicate Valid()
      reads this
    {
      QueueOk(events, jobs)
    }

    function Value(): State
      reads this
    {
      State(events, jobs)
    }

    constructor ()
      ensures Valid() && Value() == EMPTY
    {
      events, jobs := [], map[];
    }

    /** `_append_event`. */
    method AppendEvent(id: string, status: Status, mirrored: bool)
      modifies this`events
      ensures events == old(events) + [Event(id, status, mirrored)]
    {
      events := events + [Event(id, status, mirrored)];
    }

    /** `submit`: nothing happens while the task is pending, processing or completed. A failed
        mirror write raises before the job reaches the executor. */
    method Submit(id: string, mirrored: bool) returns (accepted: bool)
      requires Valid()
      modifies this
      ensures Valid()
      ensures accepted <==> old(LatestFor(events, id)).None? || old(LatestFor(events, id)).value.status.Failed?
      ensures events == if accepted then old(events) + [Event(id, Pending, mirrored)] else old(events)
      ensures jobs == if accepted && mirrored then old(jobs)[id := Waiting] else old(jobs)
      ensures Value() == Next(old(Value()), SubmitTask(id, mirrored))
    {
      var existing := GetTask(id);
      accepted := existing.None? || existing.value.status.Failed?;
      if accepted {
        assert jobs - {id} == jobs;
        StepOk(events, jobs, Event(id, Pending, mirrored), if mirrored then Some(Waiting) else None);
        AppendEvent(id, Pending, mirrored);
        if mirrored {
          jobs := jobs[id := Waiting];
        }
      }
    }

    /** The first step of `_run_task`; the worker dies if its event is not mirrored. */
    method Start(id: string, mirrored: bool)
      requires Valid() && id in jobs && jobs[id].Waiting?
      modifies this
      ensures Valid() && events == old(events) + [Event(id, Processing, mirrored)]
      ensures jobs == if mirrored then old(jobs)[id := Running] else old(jobs) - {id}
      ensures Value() == Next(old(Value()), StartTask(id, mirrored))
    {
      StepOk(events, jobs, Event(id, Processing, mirrored), if mirrored then Some(Running) else None);
      AppendEvent(id, Processing, mirrored);
      jobs := if mirrored then jobs[id := Running] else jobs - {id};
    }

    /** The end of `_run_task`: the proof was built and verified, or something raised. */
    method Finish(id: string, proved: bool, mirrored: bool)
      requires Valid() && id in jobs && jobs[id].Running?
      modifies this
      ensures Valid() && events == old(events) + [Event(id, if proved then Completed else Failed, mirrored)]
      ensures jobs == if proved && !mirrored then old(jobs)[id := Broken] else old(jobs) - {id}
      ensures Value() == Next(old(Value()), FinishTask(id, proved, mirrored))
    {
      var status := if proved then Completed else Failed;
      StepOk(events, jobs, Event(id, status, mirrored), if proved && !mirrored then Some(Broken) else None);
      AppendEvent(id, status, mirrored);
      jobs := if proved && !mirrored then jobs[id := Broken] else jobs - {id};
    }

    /** The handler of a failed mirror write after completion. */
    method RecordBrokenWrite(id: string, mirrored: bool)
      requires Valid() && id in jobs && jobs[id].Broken?
      modifies this
      ensures Valid() && events == old(events) + [Event(id, Failed, mirrored)] && jobs == old(jobs) - {id}
      ensures Value() == Next(old(Value()), RecordFailure(id, mirrored))
    {
      StepOk(events, jobs, Event(id, Failed, mirrored), None);
      AppendEvent(id, Failed, mirrored);
      jobs := jobs - {id};
    }

    /** `get_task`: the reverse scan. */
    method GetTask(id: string) returns (task: Option<Event>)
      ensures task == LatestFor(events, id)
    {
      var i := |events|;
      assert events[..i] == events;
      while i > 0
        invariant 0 <= i <= |events|
        invariant LatestFor(events[..i], id) == LatestFor(events, id)
      {
        i := i - 1;
        assert events[..i + 1][..i] == events[..i];
        if events[i].taskId == id {
          return Some(events[i]);
        }
      }
      return None;
    }

    /** `snapshot`: the forward fold; the four counts add up to the number of tasks. */
    method Snapshot() returns (c: Counts)
      ensures c.total == |TaskIds(events)| == c.pending + c.processing + c.completed + c.failed
      ensures c.pending == |WithStatus(LatestMap(events), Pending)| && c.processing == |WithStatus(LatestMap(events), Processing)|
      ensures c.completed == |WithStatus(LatestMap(events), Completed)| && c.failed == |WithStatus(LatestMap(events), Failed)|
    {
      var latest: map<string, Event> := map[];
      assert events[..0] == [];
      for i := 0 to |events|
        invariant latest == LatestMap(events[..i])
      {
        assert events[..i + 1][..i] == events[..i];
        latest := latest[events[i].taskId := events[i]];
      }
      assert events[..|events|] == events;
      LatestMapKeys(events);
      StatusesPartition(latest);
      var pending := CountStatus(latest, Pending);
      var processing := CountStatus(latest, Processing);
      var completed := CountStatus(latest, Completed);
      var failed := CountStatus(latest, Failed);
      return Counts(|latest|, pending, processing, completed, failed);
    }
  }
}
