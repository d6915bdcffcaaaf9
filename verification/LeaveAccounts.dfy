/** The account equation: what an employee holds under a policy is what was earned less what is approved. */
module LeaveAccounts {
  import opened Calendar
  import opened LeaveLedger
  import opened LeaveModel
  import opened LeaveEntries
  import opened LeaveBatches

  predicate IsEarned(source: Source) {
    source == Grant || source == Accrual || source == ManualAdjustment
  }

  function Booked(ledger: seq<Entry>, employee: nat, policy: nat, source: Source): int {
    Sum(Signed, Account(employee, policy).(kind := Only(source)), ledger)
  }

  /** Grants, accruals and manual adjustments, all years together. */
  function Earned(ledger: seq<Entry>, employee: nat, policy: nat): int {
    Booked(ledger, employee, policy, Grant) + Booked(ledger, employee, policy, Accrual)
    + Booked(ledger, employee, policy, ManualAdjustment)
  }

  function ApprovedDaysOf(r: Request, employee: nat, policy: nat): int {
    if r.employee == employee && r.policy == policy && r.status == Approved then r.days else 0
  }

  function ApprovedDays(requests: seq<Request>, employee: nat, policy: nat): int {
    if requests == [] then 0
    else
      ApprovedDays(requests[..|requests| - 1], employee, policy)
      + ApprovedDaysOf(requests[|requests| - 1], employee, policy)
  }

  predicate Balanced(db: Db, employee: nat, policy: nat) {
    Holdings(db.ledger, employee, policy)
    == Earned(db.ledger, employee, policy) - ApprovedDays(db.requests, employee, policy)
  }

  // ----- entries --------------------------------------------------------------------------

  lemma EntryBooks(ledger: seq<Entry>, e: Entry, employee: nat, policy: nat)
    ensures var amount := if e.employee == employee && e.policy == policy then e.amount else 0;
      && Holdings(ledger + [e], employee, policy) == Holdings(ledger, employee, policy) + amount
      && Earned(ledger + [e], employee, policy)
         == Earned(ledger, employee, policy) + (if IsEarned(e.source) then amount else 0)
  {
    SumAppend(Signed, Account(employee, policy), ledger, e);
    SumAppend(Signed, Account(employee, policy).(kind := Only(Grant)), ledger, e);
    SumAppend(Signed, Account(employee, policy).(kind := Only(Accrual)), ledger, e);
    SumAppend(Signed, Account(employee, policy).(kind := Only(ManualAdjustment)), ledger, e);
  }

  /** Earning adds the same to both sides. */
  lemma {:induction false} EarningsBook(ledger: seq<Entry>, added: seq<Entry>, employee: nat, policy: nat)
    requires forall k :: 0 <= k < |added| ==> IsEarned(added[k].source)
    ensures Holdings(ledger + added, employee, policy) - Earned(ledger + added, employee, policy)
         == Holdings(ledger, employee, policy) - Earned(ledger, employee, policy)
    decreases |added|
  {
    if added == [] {
      assert ledger + added == ledger;
    } else {
      var front, last := added[..|added| - 1], added[|added| - 1];
      EarningsBook(ledger, front, employee, policy);
      EntryBooks(ledger + front, last, employee, policy);
      assert ledger + added == (ledger + front) + [last];
    }
  }

  lemma EarnedUnchanged(ledger: seq<Entry>, after: seq<Entry>, employee: nat, policy: nat)
    requires ledger <= after && forall k :: |ledger| <= k < |after| ==> !IsEarned(after[k].source)
    ensures Earned(after, employee, policy) == Earned(ledger, employee, policy)
  {
    SumUnchanged(Signed, Account(employee, policy).(kind := Only(Grant)), ledger, after);
    SumUnchanged(Signed, Account(employee, policy).(kind := Only(Accrual)), ledger, after);
    SumUnchanged(Signed, Account(employee, policy).(kind := Only(ManualAdjustment)), ledger, after);
  }

  // ----- requests -------------------------------------------------------------------------

  lemma {:induction false} DecisionMoves(requests: seq<Request>, id: nat, r: Request, employee: nat, policy: nat)
    requires id < |requests|
    ensures ApprovedDays(requests[id := r], employee, policy)
         == ApprovedDays(requests, employee, policy)
            - ApprovedDaysOf(requests[id], employee, policy) + ApprovedDaysOf(r, employee, policy)
  {
    var n, after := |requests| - 1, requests[id := r];
    if id < n {
      DecisionMoves(requests[..n], id, r, employee, policy);
      assert after[..n] == requests[..n][id := r];
    } else {
      assert after[..n] == requests[..n];
    }
  }

  // ----- calls ----------------------------------------------------------------------------

  /** A decision with its entry, which books what the request's approved days change by. */
  lemma DecisionBalanced(db: Db, id: nat, r: Request, e: Entry, employee: nat, policy: nat)
    requires Balanced(db, employee, policy) && id < |db.requests| && !IsEarned(e.source)
    requires e.employee == db.requests[id].employee == r.employee && e.policy == db.requests[id].policy == r.policy
    requires e.amount == ApprovedDaysOf(db.requests[id], r.employee, r.policy) - ApprovedDaysOf(r, r.employee, r.policy)
    ensures Balanced(db.(requests := db.requests[id := r], ledger := db.ledger + [e]), employee, policy)
  {
    DecisionMoves(db.requests, id, r, employee, policy);
    EntryBooks(db.ledger, e, employee, policy);
  }

  lemma ApproveBalanced(db: Db, actor: nat, id: nat, employee: nat, policy: nat)
    requires Balanced(db, employee, policy)
    ensures Balanced(Approve(db, actor, id).0, employee, policy)
  {
    var after := Approve(db, actor, id).0;
    if id < |db.requests| && db.requests[id].status == Pending && after.ledger != db.ledger {
      DecisionBalanced(db, id, after.requests[id], ConsumedEntry(db, id), employee, policy);
    }
  }

  lemma RejectBalanced(db: Db, actor: nat, id: nat, employee: nat, policy: nat)
    requires Balanced(db, employee, policy)
    ensures Balanced(Reject(db, actor, id).0, employee, policy)
  {
    var after := Reject(db, actor, id).0;
    if id < |db.requests| && db.requests[id].status == Pending {
      RetireBalanced(db, after, id, after.requests[id], employee, policy);
    }
  }

  lemma RetireBalanced(db: Db, after: Db, id: nat, r: Request, employee: nat, policy: nat)
    requires Balanced(db, employee, policy) && id < |db.requests| && after == db.(requests := db.requests[id := r])
    requires db.requests[id].status != Approved && r.status != Approved
    ensures Balanced(after, employee, policy)
  {
    DecisionMoves(db.requests, id, r, employee, policy);
  }

  lemma CancelBalanced(db: Db, actor: nat, id: nat, today: Date, employee: nat, policy: nat)
    requires Balanced(db, employee, policy)
    ensures Balanced(Cancel(db, actor, id, today).0, employee, policy)
  {
    var after := Cancel(db, actor, id, today).0;
    if id < |db.requests| && db.requests[id].status == Approved {
      DecisionBalanced(db, id, after.requests[id], ReversalEntry(db, id, today), employee, policy);
    } else if id < |db.requests| && db.requests[id].status == Pending {
      RetireBalanced(db, after, id, after.requests[id], employee, policy);
    }
  }

  /** A call that does nothing to requests and to the ledger only adds what is earned. */
  lemma EarningBalanced(db: Db, after: Db, employee: nat, policy: nat)
    requires Balanced(db, employee, policy) && after.requests == db.requests && db.ledger <= after.ledger
    requires forall k :: |db.ledger| <= k < |after.ledger| ==> IsEarned(after.ledger[k].source)
    ensures Balanced(after, employee, policy)
  {
    var added := after.ledger[|db.ledger|..];
    assert after.ledger == db.ledger + added;
    EarningsBook(db.ledger, added, employee, policy);
  }

  lemma AccrualBalanced(db: Db, m: Month, employee: nat, policy: nat)
    requires Balanced(db, employee, policy)
    ensures Balanced(RunAccrual(db, m).0, employee, policy)
  {
    if ValidMonth(m) {
      var after := RunAccrual(db, m).0;
      AccrueAppends(db, m, |db.policies|);
      assert AccrualsFrom(after.ledger, |db.ledger|, m);
      EarningBalanced(db, after, employee, policy);
    }
  }

  lemma SubmitBalanced(db: Db, after: Db, employee: nat, policy: nat)
    requires Balanced(db, employee, policy) && after.ledger == db.ledger && |after.requests| == |db.requests| + 1
    requires after.requests[..|db.requests|] == db.requests && after.requests[|db.requests|].status == Pending
    ensures Balanced(after, employee, policy)
  {
  }

  lemma CarryBalanced(db: Db, fromYear: int, toYear: int, employee: nat, policy: nat)
    requires Balanced(db, employee, policy)
    ensures Balanced(CarryFirst(db, |db.enrollments|, fromYear, toYear), employee, policy)
  {
    var after := CarryFirst(db, |db.enrollments|, fromYear, toYear);
    CarryFirstConserves(db, |db.enrollments|, fromYear, toYear, employee, policy);
    CarryAppends(db, |db.enrollments|, fromYear, toYear);
    EarnedUnchanged(db.ledger, after.ledger, employee, policy);
  }

  lemma StepBalanced(db: Db, op: Op, employee: nat, policy: nat)
    requires Balanced(db, employee, policy)
    ensures Balanced(Step(db, op), employee, policy)
  {
    var after := Step(db, op);
    match op
    case SubmitOp(_, _, _, _, _, _) =>
      if after != db {
        SubmitBalanced(db, after, employee, policy);
      }
    case ApproveOp(actor, id) => ApproveBalanced(db, actor, id, employee, policy);
    case RejectOp(actor, id) => RejectBalanced(db, actor, id, employee, policy);
    case CancelOp(actor, id, today) => CancelBalanced(db, actor, id, today, employee, policy);
    case AccrualOp(m) => AccrualBalanced(db, m, employee, policy);
    case CarryoverOp(fromYear, toYear, _, _) => CarryBalanced(db, fromYear, toYear, employee, policy);
    case _ => EarningBalanced(db, after, employee, policy);
  }

  /** In every run, whatever is called: an employee's holdings under a policy, all years together, are the
      grants, accruals and manual adjustments less the days of the requests that stand approved. */
  lemma {:induction false} RunBalanced(db: Db, ops: seq<Op>, employee: nat, policy: nat)
    requires Fresh(db)
    ensures var now := Run(db, ops);
      Holdings(now.ledger, employee, policy)
      == Earned(now.ledger, employee, policy) - ApprovedDays(now.requests, employee, policy)
  {
    if ops != [] {
      RunBalanced(db, ops[..|ops| - 1], employee, policy);
      StepBalanced(Run(db, ops[..|ops| - 1]), ops[|ops| - 1], employee, policy);
    }
  }
}
