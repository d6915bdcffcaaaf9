/** Concurrent submits. Each is a transaction that first locks the employee's row, then checks, then
    commits; every other leave call may run at any moment in between. */
module LeaveSubmission {
  import opened Wrappers
  import opened Calendar
  import opened LeaveCalc
  import opened LeaveModel
  import opened LeaveRequests

  datatype Ask = Ask(actor: nat, employee: nat, policy: nat, start: Date, end: Date, hours: Option<real>)

  /** Where a submitting transaction stands. From Locked until it ends it holds its employee's lock. */
  datatype Phase =
    | Waiting                     // about to select the employee row for update
    | Locked                      // holds the row, nothing checked yet
    | Ready(row: Request)         // every check passed; the row is not yet committed
    | Finished(reply: Reply)
    | Crashed

  datatype Submission = Submission(ask: Ask, phase: Phase)

  datatype World = World(db: Db, submissions: map<nat, Submission>)

  datatype Event =
    | Begin(id: nat, ask: Ask)
    | LockRow(id: nat)
    | Check(id: nat)
    | Commit(id: nat)
    | Crash(id: nat)
    | Other(op: Op)               // any other service call, as one transaction

  predicate HoldsLock(s: Submission) {
    s.phase.Locked? || s.phase.Ready?
  }

  predicate RowIsFree(w: World, employee: nat) {
    forall id :: id in w.submissions ==> !(HoldsLock(w.submissions[id]) && w.submissions[id].ask.employee == employee)
  }

  function SubmitAsk(db: Db, a: Ask): (Db, Reply) {
    Submit(db, a.actor, a.employee, a.policy, a.start, a.end, a.hours)
  }

  /** The row a passed check is about to insert. */
  function NewRow(db: Db, a: Ask): Request
    requires SubmitAsk(db, a).1.Row?
  {
    SubmitAsk(db, a).0.requests[|db.requests|]
  }

  function Move(w: World, id: nat, phase: Phase): World
    requires id in w.submissions
  {
    w.(submissions := w.submissions[id := w.submissions[id].(phase := phase)])
  }

  /** One event. An event that is not possible now - above all, locking a row another transaction
      holds - leaves the world as it is. */
  function Happen(w: World, e: Event): World {
    match e
    case Begin(id, ask) =>
      if id in w.submissions then w else w.(submissions := w.submissions[id := Submission(ask, Waiting)])
    case LockRow(id) =>
      if id !in w.submissions || !w.submissions[id].phase.Waiting? then w
      else if !KnownEmployee(w.db, w.submissions[id].ask.employee) then Move(w, id, Finished(Failed(NotFound)))
      else if !RowIsFree(w, w.submissions[id].ask.employee) then w
      else Move(w, id, Locked)
    case Check(id) =>
      if id !in w.submissions || !w.submissions[id].phase.Locked? then w
      else
        var ask := w.submissions[id].ask;
        var reply := SubmitAsk(w.db, ask).1;
        Move(w, id, if reply.Row? then Ready(NewRow(w.db, ask)) else Finished(reply))
    case Commit(id) =>
      if id !in w.submissions || !w.submissions[id].phase.Ready? then w
      else
        var row := w.submissions[id].phase.row;
        Move(w, id, Finished(Row(|w.db.requests|))).(db := w.db.(requests := w.db.requests + [row]))
    case Crash(id) =>
      if id !in w.submissions || w.submissions[id].phase.Finished? then w else Move(w, id, Crashed)
    case Other(op) => if op.SubmitOp? then w else w.(db := Step(w.db, op))
  }

  function Run(w: World, events: seq<Event>): World {
    if events == [] then w else Happen(Run(w, events[..|events| - 1]), events[|events| - 1])
  }

  // ----- what every interleaving keeps ----------------------------------------------------

  /** Two transactions never hold the same employee's row. */
  predicate Exclusive(w: World) {
    forall a, b :: a in w.submissions && b in w.submissions && a != b
                   && HoldsLock(w.submissions[a]) && HoldsLock(w.submissions[b])
                   ==> w.submissions[a].ask.employee != w.submissions[b].ask.employee
  }

  /** A row about to be committed is the asker's own and still overlaps nothing. */
  predicate StillFits(requests: seq<Request>, s: Submission) {
    s.phase.Ready? ==>
      && s.phase.row.employee == s.ask.employee
      && RightlyCharged(s.phase.row)
      && !OverlapsExisting(requests, s.ask.employee, s.phase.row.start, s.phase.row.end)
  }

  predicate Safe(w: World) {
    && Sound(w.db.requests)
    && Exclusive(w)
    && forall id :: id in w.submissions ==> StillFits(w.db.requests, w.submissions[id])
  }

  lemma CheckedRowFits(db: Db, a: Ask)
    requires SubmitAsk(db, a).1.Row?
    ensures var row := NewRow(db, a);
      row.employee == a.employee && RightlyCharged(row)
          && !OverlapsExisting(db.requests, a.employee, row.start, row.end)
  {
    assert Days(a.start, a.end) * WeekdaysOf(YearOf(a.start)) - {}
        == Days(a.start, a.end) * WeekdaysOf(YearOf(a.start));
  }

  /** No other call adds a request or brings one back to life. */
  lemma OthersSettle(db: Db, op: Op)
    requires !op.SubmitOp?
    ensures |Step(db, op).requests| == |db.requests|
    ensures forall i :: 0 <= i < |db.requests| ==> Settles(db.requests[i], Step(db, op).requests[i])
  {
    if !op.ApproveOp? && !op.RejectOp? && !op.CancelOp? {
      assert Step(db, op).requests == db.requests;
    }
  }

  lemma OthersLeaveRoom(db: Db, op: Op, employee: nat, start: Date, end: Date)
    requires !op.SubmitOp? && !OverlapsExisting(db.requests, employee, start, end)
    ensures !OverlapsExisting(Step(db, op).requests, employee, start, end)
  {
    OthersSettle(db, op);
    forall i | 0 <= i < |db.requests| ensures !Conflicts(Step(db, op).requests[i], employee, start, end) {
      assert !Conflicts(db.requests[i], employee, start, end);
      assert Settles(db.requests[i], Step(db, op).requests[i]);
    }
  }

  lemma CommitSafe(w: World, id: nat)
    requires Safe(w) && id in w.submissions && w.submissions[id].phase.Ready?
    ensures Safe(Happen(w, Commit(id)))
  {
    var after, mine := Happen(w, Commit(id)), w.submissions[id];
    var row := mine.phase.row;
    NewRequestSound(w.db.requests, row);
    forall other | other in after.submissions ensures StillFits(after.db.requests, after.submissions[other]) {
      if other != id && w.submissions[other].phase.Ready? {
        var theirs := w.submissions[other];
        assert theirs.ask.employee != mine.ask.employee;
        assert StillFits(w.db.requests, theirs);
        forall i | 0 <= i < |after.db.requests|
          ensures !Conflicts(after.db.requests[i], theirs.ask.employee, theirs.phase.row.start, theirs.phase.row.end)
        {
          if i < |w.db.requests| {
            assert !Conflicts(w.db.requests[i], theirs.ask.employee, theirs.phase.row.start, theirs.phase.row.end);
          }
        }
      }
    }
  }

  lemma OtherSafe(w: World, op: Op)
    requires Safe(w) && !op.SubmitOp?
    ensures Safe(w.(db := Step(w.db, op)))
  {
    StepSound(w.db, op);
    forall id | id in w.submissions ensures StillFits(Step(w.db, op).requests, w.submissions[id]) {
      var s := w.submissions[id];
      if s.phase.Ready? {
        OthersLeaveRoom(w.db, op, s.ask.employee, s.phase.row.start, s.phase.row.end);
      }
    }
  }

  lemma EventSafe(w: World, e: Event)
    requires Safe(w)
    ensures Safe(Happen(w, e))
  {
    match e
    case Check(id) =>
      if id in w.submissions && SubmitAsk(w.db, w.submissions[id].ask).1.Row? {
        CheckedRowFits(w.db, w.submissions[id].ask);
      }
    case Commit(id) =>
      if id in w.submissions && w.submissions[id].phase.Ready? {
        CommitSafe(w, id);
      }
    case Other(op) =>
      if !op.SubmitOp? {
        OtherSafe(w, op);
      }
    case _ =>
  }

  /** However submits interleave with each other and with every other call, an employee's live
      requests stay disjoint and within the year's weekdays. */
  lemma {:induction false} InterleavingSafe(w: World, events: seq<Event>, employee: nat, year: int)
    requires Fresh(w.db) && w.submissions == map[]
    ensures Safe(Run(w, events))
    ensures TotalCharged(Run(w, events).db.requests, employee, year) <= 100 * |WeekdaysOf(year)|
  {
    if events != [] {
      InterleavingSafe(w, events[..|events| - 1], employee, year);
      EventSafe(Run(w, events[..|events| - 1]), events[|events| - 1]);
    }
    SoundWithinYear(Run(w, events).db.requests, employee, year);
  }

  // ----- what each submit is told ---------------------------------------------------------

  /** The row is what was asked for, by whom and for whom. */
  predicate AskedFor(r: Request, a: Ask) {
    && r.createdBy == a.actor && r.employee == a.employee && r.policy == a.policy
    && r.start == a.start && r.end == a.end && r.hours == a.hours
  }

  predicate ToldRow(s: Submission, i: nat) {
    s.phase == Finished(Row(i))
  }

  predicate Told(submissions: map<nat, Submission>, i: nat) {
    exists id :: id in submissions && ToldRow(submissions[id], i)
  }

  /** A row about to be committed, and every row a submit was told of, is what it asked for. */
  predicate Honest(requests: seq<Request>, s: Submission) {
    && (s.phase.Ready? ==> AskedFor(s.phase.row, s.ask))
    && (s.phase.Finished? && s.phase.reply.Row? ==>
          s.phase.reply.id < |requests| && AskedFor(requests[s.phase.reply.id], s.ask))
  }

  predicate AnswersApart(w: World) {
    forall a, b :: a in w.submissions && b in w.submissions && a != b
                   && w.submissions[a].phase.Finished? && w.submissions[b].phase.Finished?
                   && w.submissions[a].phase.reply.Row?
                   ==> w.submissions[a].phase.reply != w.submissions[b].phase.reply
  }

  predicate Answered(w: World) {
    && AnswersApart(w)
    && (forall id :: id in w.submissions ==> Honest(w.db.requests, w.submissions[id]))
    && forall i :: 0 <= i < |w.db.requests| ==> Told(w.submissions, i)
  }

  lemma ToldStays(before: map<nat, Submission>, after: map<nat, Submission>, i: nat)
    requires Told(before, i)
    requires forall id :: id in before && before[id].phase.Finished? ==> id in after && after[id] == before[id]
    ensures Told(after, i)
  {
    var id :| id in before && ToldRow(before[id], i);
    assert ToldRow(after[id], i);
  }

  lemma CommitAnswered(w: World, id: nat)
    requires Answered(w) && id in w.submissions && w.submissions[id].phase.Ready?
    ensures Answered(Happen(w, Commit(id)))
  {
    var after := Happen(w, Commit(id));
    assert ToldRow(after.submissions[id], |w.db.requests|);
    forall i | 0 <= i < |w.db.requests| ensures Told(after.submissions, i) {
      ToldStays(w.submissions, after.submissions, i);
    }
    forall a | a in after.submissions ensures Honest(after.db.requests, after.submissions[a]) {
      assert Honest(w.db.requests, w.submissions[a]);
    }
  }

  /** A transaction moving on by itself, short of its commit. */
  lemma MoveAnswered(w: World, id: nat, phase: Phase)
    requires Answered(w) && id in w.submissions && !w.submissions[id].phase.Finished?
    requires phase.Ready? ==> AskedFor(phase.row, w.submissions[id].ask)
    requires phase.Finished? ==> !phase.reply.Row?
    ensures Answered(Move(w, id, phase))
  {
    var after := Move(w, id, phase);
    forall i | 0 <= i < |w.db.requests| ensures Told(after.submissions, i) {
      ToldStays(w.submissions, after.submissions, i);
    }
  }

  lemma BeginAnswered(w: World, id: nat, ask: Ask)
    requires Answered(w) && id !in w.submissions
    ensures Answered(Happen(w, Begin(id, ask)))
  {
    var after := Happen(w, Begin(id, ask));
    forall i | 0 <= i < |w.db.requests| ensures Told(after.submissions, i) {
      ToldStays(w.submissions, after.submissions, i);
    }
  }

  lemma OtherAnswered(w: World, op: Op)
    requires Answered(w) && !op.SubmitOp?
    ensures Answered(w.(db := Step(w.db, op)))
  {
    OthersSettle(w.db, op);
    forall id | id in w.submissions ensures Honest(Step(w.db, op).requests, w.submissions[id]) {
      assert Honest(w.db.requests, w.submissions[id]);
    }
  }

  lemma EventAnswered(w: World, e: Event)
    requires Answered(w)
    ensures Answered(Happen(w, e))
  {
    if Happen(w, e) != w {
      match e
      case Begin(id, ask) => BeginAnswered(w, id, ask);
      case LockRow(id) => MoveAnswered(w, id, Happen(w, e).submissions[id].phase);
      case Check(id) => MoveAnswered(w, id, Happen(w, e).submissions[id].phase);
      case Commit(id) => CommitAnswered(w, id);
      case Crash(id) => MoveAnswered(w, id, Crashed);
      case Other(op) => OtherAnswered(w, op);
    }
  }

  /** Over every interleaving each submit that is told a row was told its own: the row holds what it
      asked for, no other submit is told the same one, and every stored row was told to one. */
  lemma {:induction false} AnswersMatchRows(w: World, events: seq<Event>)
    requires Fresh(w.db) && w.submissions == map[]
    ensures Answered(Run(w, events))
  {
    if events != [] {
      AnswersMatchRows(w, events[..|events| - 1]);
      EventAnswered(Run(w, events[..|events| - 1]), events[|events| - 1]);
    }
  }

  /** A submit that runs without interruption, while nobody holds its employee's row, does what the plain
      call does and gives its answer. */
  lemma AloneIsSubmit(w: World, id: nat, a: Ask)
    requires id !in w.submissions && RowIsFree(w, a.employee)
    ensures var done := Happen(Happen(Happen(Happen(w, Begin(id, a)), LockRow(id)), Check(id)), Commit(id));
      && done.db == Submit(w.db, a.actor, a.employee, a.policy, a.start, a.end, a.hours).0
      && id in done.submissions
      && done.submissions[id].phase
         == Finished(Submit(w.db, a.actor, a.employee, a.policy, a.start, a.end, a.hours).1)
  {
    var begun := Happen(w, Begin(id, a));
    var locked := Happen(begun, LockRow(id));
    var checked := Happen(locked, Check(id));
    if KnownEmployee(w.db, a.employee) {
      assert locked == Move(begun, id, Locked);
      if SubmitAsk(w.db, a).1.Row? {
        assert checked == Move(locked, id, Ready(NewRow(w.db, a)));
        SubmitAppends(w.db, a);
      }
    }
  }

  lemma SubmitAppends(db: Db, a: Ask)
    requires SubmitAsk(db, a).1.Row?
    ensures SubmitAsk(db, a).1 == Row(|db.requests|)
    ensures SubmitAsk(db, a).0 == db.(requests := db.requests + [NewRow(db, a)])
  {
  }

  // ----- why the lock ---------------------------------------------------------------------

  /** Without the lock the check alone is not enough: two submits for the same day, both checked
      against the same table, both pass, and committing both breaks disjointness. */
  lemma CheckAloneIsNotEnough(db: Db, a: Ask, b: Ask)
    requires SubmitAsk(db, a).1.Row? && SubmitAsk(db, b).1.Row?
    requires a.employee == b.employee && a.start <= b.end && b.start <= a.end
    ensures !Disjoint(db.requests + [NewRow(db, a)] + [NewRow(db, b)])
  {
    var both, n := db.requests + [NewRow(db, a)] + [NewRow(db, b)], |db.requests|;
    assert both[n] == NewRow(db, a) && both[n + 1] == NewRow(db, b);
    assert Rivals(both[n], both[n + 1]) && !Apart(both[n], both[n + 1]);
  }
}
