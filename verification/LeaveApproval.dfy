/** Concurrent approvals. Each is a transaction that first locks the request's row, then checks, then
    commits its entry and the new status; other leave calls may run at any moment in between, except that a
    decision on a request whose row is locked has to wait. */
module LeaveApproval {
  import opened Wrappers
  import opened Calendar
  import opened LeaveLedger
  import opened LeaveModel
  import opened LeaveEntries
  import opened LeaveBalances

  /** Where an approving transaction stands. From Locked until it ends it holds its request's row. */
  datatype Phase =
    | Waiting                  // about to select the request row for update
    | Locked                   // holds the row, nothing checked yet
    | Ready(entry: Entry)      // every check passed; entry and status are not yet committed
    | Finished(reply: Reply)
    | Crashed

  datatype Approval = Approval(actor: nat, request: nat, phase: Phase)

  datatype World = World(db: Db, approvals: map<nat, Approval>)

  datatype Event =
    | Begin(id: nat, actor: nat, request: nat)
    | LockRow(id: nat)
    | Check(id: nat)
    | Commit(id: nat)
    | Crash(id: nat)
    | Other(op: Op)            // any other service call, as one transaction

  predicate HoldsLock(a: Approval) {
    a.phase.Locked? || a.phase.Ready?
  }

  predicate RowIsFree(w: World, request: nat) {
    forall id :: id in w.approvals ==> !(HoldsLock(w.approvals[id]) && w.approvals[id].request == request)
  }

  /** A rejection or cancellation has to wait for its request's row; approvals come as events of their own. */
  predicate MayRun(w: World, op: Op) {
    !op.ApproveOp? && (op.RejectOp? || op.CancelOp? ==> RowIsFree(w, op.request))
  }

  /** The check writes nothing when it refuses, or finds the request approved already. */
  predicate Passes(db: Db, a: Approval) {
    a.request < |db.requests| && db.requests[a.request].status == Pending && Approve(db, a.actor, a.request).1.Row?
  }

  function Move(w: World, id: nat, phase: Phase): World
    requires id in w.approvals
  {
    w.(approvals := w.approvals[id := w.approvals[id].(phase := phase)])
  }

  function AfterCheck(db: Db, a: Approval): Phase {
    if Passes(db, a) then Ready(ConsumedEntry(db, a.request)) else Finished(Approve(db, a.actor, a.request).1)
  }

  /** What a commit stores: the entry of the check, and the request as it is now with its new status. */
  function Stored(db: Db, a: Approval): Db
    requires a.phase.Ready? && a.request < |db.requests|
  {
    var r := db.requests[a.request];
    db.(ledger := db.ledger + [a.phase.entry],
        requests := db.requests[a.request := r.(status := Approved, approvedBy := Some(a.actor))])
  }

  /** One event; an event that is not possible now leaves the world as it is. */
  function Happen(w: World, e: Event): World {
    match e
    case Begin(id, actor, request) =>
      if id in w.approvals then w else w.(approvals := w.approvals[id := Approval(actor, request, Waiting)])
    case LockRow(id) =>
      if id !in w.approvals || !w.approvals[id].phase.Waiting? then w
      else if w.approvals[id].request >= |w.db.requests| then Move(w, id, Finished(Failed(NotFound)))
      else if !RowIsFree(w, w.approvals[id].request) then w
      else Move(w, id, Locked)
    case Check(id) =>
      if id !in w.approvals || !w.approvals[id].phase.Locked? then w
      else Move(w, id, AfterCheck(w.db, w.approvals[id]))
    case Commit(id) =>
      if id !in w.approvals || !w.approvals[id].phase.Ready? || w.approvals[id].request >= |w.db.requests| then w
      else Move(w, id, Finished(Row(w.approvals[id].request))).(db := Stored(w.db, w.approvals[id]))
    case Crash(id) =>
      if id !in w.approvals || w.approvals[id].phase.Finished? then w else Move(w, id, Crashed)
    case Other(op) => if MayRun(w, op) then w.(db := Step(w.db, op)) else w
  }

  function Run(w: World, events: seq<Event>): World {
    if events == [] then w else Happen(Run(w, events[..|events| - 1]), events[|events| - 1])
  }

  // ----- what every interleaving keeps ----------------------------------------------------

  /** Two transactions never hold the same request's row. */
  predicate Exclusive(w: World) {
    forall a, b :: a in w.approvals && b in w.approvals && a != b
                   && HoldsLock(w.approvals[a]) && HoldsLock(w.approvals[b])
                   ==> w.approvals[a].request != w.approvals[b].request
  }

  /** An approval about to commit still finds its request pending, and books its days; one that was told
      its request's row was told the truth: the request has been approved. */
  predicate Fits(requests: seq<Request>, a: Approval) {
    && (a.phase.Ready? ==>
          && a.request < |requests| && requests[a.request].status == Pending
          && a.phase.entry.source == Consumed && a.phase.entry.reference == ForRequest(a.request)
          && a.phase.entry.amount == -requests[a.request].days)
    && (a.phase.Finished? && a.phase.reply.Row? ==>
          && a.phase.reply.id == a.request
          && a.request < |requests| && requests[a.request].approvedBy.Some?)
  }

  predicate Safe(w: World) {
    AllSettled(w.db) && Exclusive(w) && forall id :: id in w.approvals ==> Fits(w.db.requests, w.approvals[id])
  }

  lemma MoveSafe(w: World, id: nat, phase: Phase)
    requires Safe(w) && id in w.approvals
    requires phase.Locked? || phase.Ready? ==> HoldsLock(w.approvals[id]) || RowIsFree(w, w.approvals[id].request)
    requires Fits(w.db.requests, w.approvals[id].(phase := phase))
    ensures Safe(Move(w, id, phase))
  {
  }

  lemma CheckFits(w: World, id: nat)
    requires Safe(w) && id in w.approvals && w.approvals[id].phase.Locked?
    ensures Fits(w.db.requests, w.approvals[id].(phase := AfterCheck(w.db, w.approvals[id])))
  {
    var a := w.approvals[id];
    if a.request < |w.db.requests| {
      assert Settled(w.db, a.request);
    }
  }

  lemma CommitSafe(w: World, id: nat)
    requires Safe(w) && id in w.approvals && w.approvals[id].phase.Ready?
    ensures Safe(Happen(w, Commit(id)))
  {
    var a := w.approvals[id];
    var after := Stored(w.db, a);
    EntrySettled(w.db, after, a.request, a.phase.entry);
    forall other | other in w.approvals && other != id ensures Fits(after.requests, w.approvals[other]) {
      assert Fits(w.db.requests, w.approvals[other]);
    }
  }

  /** Another call leaves a request alone unless it decides it, and no approval is ever taken back. */
  lemma OthersLeave(db: Db, op: Op, i: nat)
    requires i < |db.requests| && !op.ApproveOp?
    ensures i < |Step(db, op).requests|
    ensures Step(db, op).requests[i].approvedBy == db.requests[i].approvedBy
    ensures op.RejectOp? || op.CancelOp? ==> op.request == i || Step(db, op).requests[i] == db.requests[i]
    ensures !op.RejectOp? && !op.CancelOp? ==> Step(db, op).requests[i] == db.requests[i]
  {
  }

  lemma OtherSafe(w: World, op: Op)
    requires Safe(w) && MayRun(w, op)
    ensures Safe(Happen(w, Other(op)))
  {
    StepSettled(w.db, op);
    forall id | id in w.approvals ensures Fits(Step(w.db, op).requests, w.approvals[id]) {
      var a := w.approvals[id];
      assert Fits(w.db.requests, a);
      if a.request < |w.db.requests| {
        OthersLeave(w.db, op, a.request);
      }
    }
  }

  lemma EventSafe(w: World, e: Event)
    requires Safe(w)
    ensures Safe(Happen(w, e))
  {
    if Happen(w, e) != w {
      match e
      case Begin(id, actor, request) =>
      case LockRow(id) => MoveSafe(w, id, Happen(w, e).approvals[id].phase);
      case Check(id) =>
        CheckFits(w, id);
        MoveSafe(w, id, AfterCheck(w.db, w.approvals[id]));
      case Commit(id) => CommitSafe(w, id);
      case Crash(id) => MoveSafe(w, id, Crashed);
      case Other(op) => OtherSafe(w, op);
    }
  }

  lemma {:induction false} RunSafe(w: World, events: seq<Event>)
    requires Fresh(w.db) && w.approvals == map[]
    ensures Safe(Run(w, events))
  {
    if events != [] {
      RunSafe(w, events[..|events| - 1]);
      EventSafe(Run(w, events[..|events| - 1]), events[|events| - 1]);
    }
  }

  /** However approvals of the same and of different requests interleave with each other, with crashes and
      with every other call: a request has exactly one consumed entry, of its days, once it was approved
      and none before; and every approval that is told its request was told so after that one entry. */
  lemma ApprovedOnce(w: World, events: seq<Event>, i: nat, id: nat)
    requires Fresh(w.db) && w.approvals == map[] && i < |Run(w, events).db.requests|
    ensures var after := Run(w, events);
      var r, ledger := after.db.requests[i], after.db.ledger;
      && LeaveEntries.Rows(ledger, i, Consumed) == (if r.approvedBy.Some? then 1 else 0)
      && Booked(ledger, i, Consumed) == (if r.approvedBy.Some? then -r.days else 0)
      && Net(ledger, i) == (if r.status == Approved then -r.days else 0)
      && (id in after.approvals && after.approvals[id].request == i
          && after.approvals[id].phase.Finished? && after.approvals[id].phase.reply.Row?
          ==> LeaveEntries.Rows(ledger, i, Consumed) == 1)
  {
    RunSafe(w, events);
    assert Settled(Run(w, events).db, i);
  }

  /** An approval that runs without interruption, while nobody holds its request's row, does what the plain call
      does and gives its answer. */
  lemma AloneIsApprove(w: World, id: nat, actor: nat, request: nat)
    requires id !in w.approvals && RowIsFree(w, request)
    ensures var done :=
        Happen(Happen(Happen(Happen(w, Begin(id, actor, request)), LockRow(id)), Check(id)), Commit(id));
      && done.db == Approve(w.db, actor, request).0
      && id in done.approvals && done.approvals[id].phase == Finished(Approve(w.db, actor, request).1)
  {
    var begun := Happen(w, Begin(id, actor, request));
    var locked := Happen(begun, LockRow(id));
    if request < |w.db.requests| {
      assert locked == Move(begun, id, Locked);
      assert Happen(locked, Check(id)) == Move(locked, id, AfterCheck(w.db, locked.approvals[id]));
    }
  }

  // ----- why the lock, and what it does not cover -----------------------------------------

  /** Without the lock two checks of one request can both pass on one table, and committing both books
      the request's days twice. */
  lemma CheckAloneBooksTwice(db: Db, a: Approval, b: Approval)
    requires AllSettled(db) && Passes(db, a) && Passes(db, b) && a.request == b.request
    ensures var i := a.request;
      var both := db.ledger + [ConsumedEntry(db, i)] + [ConsumedEntry(db, i)];
      LeaveEntries.Rows(both, i, Consumed) == 2 && Booked(both, i, Consumed) == -2 * db.requests[i].days
  {
    var e := ConsumedEntry(db, a.request);
    assert Settled(db, a.request);
    EntryAddsTo(db.ledger, e, a.request, Consumed);
    EntryAddsTo(db.ledger + [e], e, a.request, Consumed);
  }

  /** The lock is on the request, not on the balance: approvals of two requests on one slot can both pass
      their check on one table, and together they leave the slot negative exactly when it does not cover
      both. */
  lemma TwoApprovalsOneBalance(db: Db, a: Approval, b: Approval)
    requires Passes(db, a) && Passes(db, b)
    requires var r, s := db.requests[a.request], db.requests[b.request];
      r.employee == s.employee && r.policy == s.policy && YearOf(r.start) == YearOf(s.start)
    ensures var r, s := db.requests[a.request], db.requests[b.request];
      var both := db.ledger + [ConsumedEntry(db, a.request)] + [ConsumedEntry(db, b.request)];
      Balance(both, r.employee, r.policy, YearOf(r.start)) < 0
      <==> Balance(db.ledger, r.employee, r.policy, YearOf(r.start)) < r.days + s.days
  {
    var r := db.requests[a.request];
    var first := ConsumedEntry(db, a.request);
    BalanceAppend(db.ledger, first, r.employee, r.policy, YearOf(r.start));
    BalanceAppend(db.ledger + [first], ConsumedEntry(db, b.request), r.employee, r.policy, YearOf(r.start));
  }
}
