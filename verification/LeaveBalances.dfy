/** What every call does to every balance, and exactly when one goes below zero. */
module LeaveBalances {
  import opened Wrappers
  import opened Calendar
  import opened LeaveCalc
  import opened LeaveLedger
  import opened LeaveModel
  import opened LeaveEntries
  import Text

  /** Nobody asks for negative hours and no policy grants a negative entitlement. */
  predicate NonNegativeOp(op: Op) {
    match op
    case SubmitOp(_, _, _, _, _, hours) => hours.Some? ==> hours.value >= 0.0
    case PolicyEdit(_, policy) => policy.entitlement >= 0
    case _ => true
  }

  predicate NonNegativeOps(ops: seq<Op>) {
    forall k :: 0 <= k < |ops| ==> NonNegativeOp(ops[k])
  }

  predicate NonNegativePolicies(db: Db) {
    forall p :: 0 <= p < |db.policies| ==> db.policies[p].entitlement >= 0
  }

  predicate Sane(db: Db) {
    && SignsAgree(db.ledger)
    && NonNegativePolicies(db)
    && forall i :: 0 <= i < |db.requests| ==> db.requests[i].days >= 0
  }

  lemma SignsExtend(ledger: seq<Entry>, after: seq<Entry>)
    requires SignsAgree(ledger) && ledger <= after
    requires forall k :: |ledger| <= k < |after| ==> SignAgrees(after[k])
    ensures SignsAgree(after)
  {
    assert forall k :: 0 <= k < |ledger| ==> after[k] == ledger[k];
  }

  lemma AccrualSigns(db: Db, m: Month)
    requires SignsAgree(db.ledger)
    ensures SignsAgree(AccruePolicies(db, m, |db.policies|))
  {
    AccrueAppends(db, m, |db.policies|);
    SignsExtend(db.ledger, AccruePolicies(db, m, |db.policies|));
  }

  lemma CarrySigns(db: Db, n: nat, fromYear: int, toYear: int)
    requires SignsAgree(db.ledger) && n <= |db.enrollments|
    ensures SignsAgree(CarryFirst(db, n, fromYear, toYear).ledger)
  {
    CarryAppends(db, n, fromYear, toYear);
    SignsExtend(db.ledger, CarryFirst(db, n, fromYear, toYear).ledger);
  }

  lemma DaysNonNegative(start: Date, end: Date, hours: Option<real>)
    requires hours.Some? ==> hours.value >= 0.0
    ensures var days := LeaveDays(start, end, hours, 8.0, None, Some({}));
      days.Ok? ==> days.value >= 0
  {
  }

  lemma SubmitSane(db: Db, actor: nat, employee: nat, policy: nat, start: Date, end: Date, hours: Option<real>)
    requires Sane(db) && (hours.Some? ==> hours.value >= 0.0)
    ensures Sane(Submit(db, actor, employee, policy, start, end, hours).0)
  {
    DaysNonNegative(start, end, hours);
  }

  lemma StepSane(db: Db, op: Op)
    requires Sane(db) && NonNegativeOp(op)
    ensures Sane(Step(db, op))
  {
    match op
    case SubmitOp(actor, employee, policy, start, end, hours) =>
        SubmitSane(db, actor, employee, policy, start, end, hours);
    case EnrollOp(employee, policy, year) =>
      if Step(db, op) != db {
        GrantNonNegative(db.policies[policy], db.employees[employee].hired, year);
      }
    case AccrualOp(m) => AccrualSigns(db, m);
    case CarryoverOp(fromYear, toYear, _, _) => CarrySigns(db, |db.enrollments|, fromYear, toYear);
    case _ =>
  }

  // ----- what each call does to one slot --------------------------------------------------

  function Balance(ledger: seq<Entry>, employee: nat, policy: nat, year: int): int {
    Sum(Signed, Slot(employee, policy, year), ledger)
  }

  lemma BalanceAppend(ledger: seq<Entry>, e: Entry, employee: nat, policy: nat, year: int)
    ensures Balance(ledger + [e], employee, policy, year)
         == Balance(ledger, employee, policy, year) + (if Matches(Slot(employee, policy, year), e) then e.amount else 0)
  {
    SumAppend(Signed, Slot(employee, policy, year), ledger, e);
  }

  /** From one ledger to a later one the slot is not overdrawn: it ends at zero or more, or where it was or
      above. */
  predicate HoldsUp(ledger: seq<Entry>, after: seq<Entry>, employee: nat, policy: nat, year: int) {
    Balance(after, employee, policy, year) >= 0
    || Balance(after, employee, policy, year) >= Balance(ledger, employee, policy, year)
  }

  lemma {:induction false} CreditsAdd(ledger: seq<Entry>, added: seq<Entry>, employee: nat, policy: nat, year: int)
    requires forall e :: e in added ==> e.amount >= 0
    ensures Balance(ledger + added, employee, policy, year) >= Balance(ledger, employee, policy, year)
    decreases |added|
  {
    if added == [] {
      assert ledger + added == ledger;
    } else {
      var front, last := added[..|added| - 1], added[|added| - 1];
      CreditsAdd(ledger, front, employee, policy, year);
      BalanceAppend(ledger + front, last, employee, policy, year);
      assert ledger + added == (ledger + front) + [last];
    }
  }

  /** A withdrawal its own slot covers overdraws no slot. */
  lemma WithdrawalHoldsUp(ledger: seq<Entry>, e: Entry, employee: nat, policy: nat, year: int)
    requires Balance(ledger, e.employee, e.policy, e.year) + e.amount >= 0
    ensures HoldsUp(ledger, ledger + [e], employee, policy, year)
  {
    BalanceAppend(ledger, e, employee, policy, year);
  }

  lemma AccrualHoldsUp(db: Db, m: Month, employee: nat, policy: nat, year: int)
    ensures HoldsUp(db.ledger, AccruePolicies(db, m, |db.policies|), employee, policy, year)
  {
    var after := AccruePolicies(db, m, |db.policies|);
    AccrueAppends(db, m, |db.policies|);
    var added := after[|db.ledger|..];
    assert after == db.ledger + added;
    forall e | e in added ensures e.amount >= 0 {
      var k :| 0 <= k < |added| && added[k] == e;
      assert IsAccrual(after[|db.ledger| + k], m);
    }
    CreditsAdd(db.ledger, added, employee, policy, year);
  }

  lemma CarryOneHoldsUp(db: Db, i: nat, fromYear: int, toYear: int, employee: nat, policy: nat, year: int)
    requires i < |db.enrollments| && SignsAgree(db.ledger)
    ensures HoldsUp(db.ledger, CarryOne(db, i, fromYear, toYear).ledger, employee, policy, year)
  {
    if Carries(db, i, fromYear, toYear) {
      var after := CarryOne(db, i, fromYear, toYear).ledger;
      var n, e := |db.ledger|, db.enrollments[i];
      var out, into := after[n], after[n + 1];
      RemainingIsSignedSum(db.ledger, e.employee, e.policy, fromYear);
      WithdrawalHoldsUp(db.ledger, out, employee, policy, year);
      CreditsAdd(db.ledger + [out], [into], employee, policy, year);
      assert after == (db.ledger + [out]) + [into];
    }
  }

  lemma NextTurnHoldsUp(db: Db, n: nat, fromYear: int, toYear: int, employee: nat, policy: nat, year: int)
    requires n < |db.enrollments| && SignsAgree(db.ledger)
    requires HoldsUp(db.ledger, CarryFirst(db, n, fromYear, toYear).ledger, employee, policy, year)
    ensures HoldsUp(db.ledger, CarryFirst(db, n + 1, fromYear, toYear).ledger, employee, policy, year)
  {
    CarrySigns(db, n, fromYear, toYear);
    CarryOneHoldsUp(CarryFirst(db, n, fromYear, toYear), n, fromYear, toYear, employee, policy, year);
  }

  lemma {:induction false} CarryHoldsUp(db: Db, n: nat, fromYear: int, toYear: int,
                                        employee: nat, policy: nat, year: int)
    requires n <= |db.enrollments| && SignsAgree(db.ledger)
    ensures HoldsUp(db.ledger, CarryFirst(db, n, fromYear, toYear).ledger, employee, policy, year)
  {
    if n > 0 {
      CarryHoldsUp(db, n - 1, fromYear, toYear, employee, policy, year);
      NextTurnHoldsUp(db, n - 1, fromYear, toYear, employee, policy, year);
    }
  }

  /** No call but a manual adjustment ever overdraws a slot, whatever its balance was: not below zero from
      above, and not further down from below. */
  lemma StepHoldsUp(db: Db, op: Op, employee: nat, policy: nat, year: int)
    requires Sane(db) && NonNegativeOp(op) && !op.AdjustOp?
    ensures HoldsUp(db.ledger, Step(db, op).ledger, employee, policy, year)
  {
    match op
    case ApproveOp(actor, id) =>
      if Step(db, op).ledger != db.ledger {
        var r := db.requests[id];
        RemainingIsSignedSum(db.ledger, r.employee, r.policy, YearOf(r.start));
        WithdrawalHoldsUp(db.ledger, ConsumedEntry(db, id), employee, policy, year);
      }
    case CancelOp(actor, id, today) =>
      if Step(db, op).ledger != db.ledger {
        CreditsAdd(db.ledger, [ReversalEntry(db, id, today)], employee, policy, year);
      }
    case EnrollOp(e, p, y) =>
      if Step(db, op) != db {
        GrantNonNegative(db.policies[p], db.employees[e].hired, y);
        CreditsAdd(db.ledger, [Step(db, op).ledger[|db.ledger|]], employee, policy, year);
      }
    case AccrualOp(m) => AccrualHoldsUp(db, m, employee, policy, year);
    case CarryoverOp(fromYear, toYear, _, _) =>
      CarryHoldsUp(db, |db.enrollments|, fromYear, toYear, employee, policy, year);
    case _ =>
  }

  // ----- when a balance goes below zero ---------------------------------------------------

  /** A manual adjustment of this very slot that is accepted and takes more than is there. */
  predicate Overdraws(db: Db, op: Op, employee: nat, policy: nat, year: int) {
    && op.AdjustOp? && op.employee == employee && op.policy == policy && op.year == year
    && !Text.Blank(op.note) && policy < |db.policies| && !db.policies[policy].deleted
    && Balance(db.ledger, employee, policy, year) + op.delta < 0
  }

  /** A slot at zero or more goes below zero exactly when such an adjustment is made. */
  lemma BelowZeroIffOverdrawn(db: Db, op: Op, employee: nat, policy: nat, year: int)
    requires Sane(db) && NonNegativeOp(op)
    ensures Overdraws(db, op, employee, policy, year) ==> Balance(Step(db, op).ledger, employee, policy, year) < 0
    ensures Balance(db.ledger, employee, policy, year) >= 0 ==>
      (Balance(Step(db, op).ledger, employee, policy, year) < 0 <==> Overdraws(db, op, employee, policy, year))
  {
    if !op.AdjustOp? {
      StepHoldsUp(db, op, employee, policy, year);
    } else if Step(db, op) != db {
      BalanceAppend(db.ledger, Step(db, op).ledger[|db.ledger|], employee, policy, year);
    }
  }

  /** At some moment of the run the slot was below zero. */
  predicate WasBelowZero(db: Db, ops: seq<Op>, employee: nat, policy: nat, year: int) {
    Remaining(Run(db, ops).ledger, employee, policy, year) < 0
    || (ops != [] && WasBelowZero(db, ops[..|ops| - 1], employee, policy, year))
  }

  /** At some moment of the run a manual adjustment overdrew the slot. */
  predicate WasOverdrawn(db: Db, ops: seq<Op>, employee: nat, policy: nat, year: int) {
    ops != []
    && (Overdraws(Run(db, ops[..|ops| - 1]), ops[|ops| - 1], employee, policy, year)
        || WasOverdrawn(db, ops[..|ops| - 1], employee, policy, year))
  }

  lemma {:induction false} RunSane(db: Db, ops: seq<Op>)
    requires Fresh(db) && NonNegativePolicies(db) && NonNegativeOps(ops)
    ensures Sane(Run(db, ops))
  {
    if ops != [] {
      RunSane(db, ops[..|ops| - 1]);
      StepSane(Run(db, ops[..|ops| - 1]), ops[|ops| - 1]);
    }
  }

  /** In every run "remaining" is the plain signed sum of the slot's entries. */
  lemma RemainingIsBalance(db: Db, ops: seq<Op>, employee: nat, policy: nat, year: int)
    requires Fresh(db) && NonNegativePolicies(db) && NonNegativeOps(ops)
    ensures var ledger := Run(db, ops).ledger;
      Remaining(ledger, employee, policy, year) == Balance(ledger, employee, policy, year)
  {
    RunSane(db, ops);
    RemainingIsSignedSum(Run(db, ops).ledger, employee, policy, year);
  }

  /** A run takes a slot below zero exactly if one of its manual adjustments of that slot overdraws it:
      nothing any other call does ever has that effect. */
  lemma {:induction false} BelowZeroOnlyByAdjustment(db: Db, ops: seq<Op>, employee: nat, policy: nat, year: int)
    requires Fresh(db) && NonNegativePolicies(db) && NonNegativeOps(ops)
    ensures WasBelowZero(db, ops, employee, policy, year) <==> WasOverdrawn(db, ops, employee, policy, year)
  {
    RemainingIsBalance(db, ops, employee, policy, year);
    if ops != [] {
      var front := ops[..|ops| - 1];
      BelowZeroOnlyByAdjustment(db, front, employee, policy, year);
      RemainingIsBalance(db, front, employee, policy, year);
      RunSane(db, front);
      BelowZeroIffOverdrawn(Run(db, front), ops[|ops| - 1], employee, policy, year);
    }
  }

  // ----- the floor ------------------------------------------------------------------------

  /** What the negative manual adjustments of the slot add up to: zero or less. */
  function Debits(ledger: seq<Entry>, employee: nat, policy: nat, year: int): int {
    Sum(NegativePart, Slot(employee, policy, year).(kind := Only(ManualAdjustment)), ledger)
  }

  lemma DebitsAppend(ledger: seq<Entry>, e: Entry, employee: nat, policy: nat, year: int)
    ensures Debits(ledger + [e], employee, policy, year)
         == Debits(ledger, employee, policy, year)
            + (if Matches(Slot(employee, policy, year), e) && e.source == ManualAdjustment && e.amount < 0
               then e.amount else 0)
  {
    SumAppend(NegativePart, Slot(employee, policy, year).(kind := Only(ManualAdjustment)), ledger, e);
  }

  lemma {:induction false} DebitsNonPositive(ledger: seq<Entry>, employee: nat, policy: nat, year: int)
    ensures Debits(ledger, employee, policy, year) <= 0
  {
    if ledger != [] {
      DebitsNonPositive(ledger[..|ledger| - 1], employee, policy, year);
    }
  }

  /** From position n on, no entry is a manual adjustment. */
  predicate NoAdjustmentsFrom(ledger: seq<Entry>, n: nat) {
    forall k :: n <= k < |ledger| ==> ledger[k].source != ManualAdjustment
  }

  lemma StepAddsNoAdjustment(db: Db, op: Op)
    requires !op.AdjustOp?
    ensures NoAdjustmentsFrom(Step(db, op).ledger, |db.ledger|)
  {
    match op
    case AccrualOp(m) => AccrueAppends(db, m, |db.policies|);
    case CarryoverOp(fromYear, toYear, _, _) => CarryAppends(db, |db.enrollments|, fromYear, toYear);
    case _ =>
  }

  /** Only an accepted negative adjustment of the slot adds to its debits. */
  lemma StepDebits(db: Db, op: Op, employee: nat, policy: nat, year: int)
    ensures var debit := op.AdjustOp? && Step(db, op) != db && op.delta < 0
                         && op.employee == employee && op.policy == policy && op.year == year;
      Debits(Step(db, op).ledger, employee, policy, year)
      == Debits(db.ledger, employee, policy, year) + (if debit then op.delta else 0)
  {
    var after := Step(db, op).ledger;
    if !op.AdjustOp? {
      StepAppends(db, op);
      StepAddsNoAdjustment(db, op);
      SumUnchanged(NegativePart, Slot(employee, policy, year).(kind := Only(ManualAdjustment)), db.ledger, after);
    } else if Step(db, op) != db {
      DebitsAppend(db.ledger, after[|db.ledger|], employee, policy, year);
    }
  }

  lemma StepFloor(db: Db, op: Op, employee: nat, policy: nat, year: int)
    requires Sane(db) && NonNegativeOp(op)
    requires Balance(db.ledger, employee, policy, year) >= Debits(db.ledger, employee, policy, year)
    ensures Balance(Step(db, op).ledger, employee, policy, year) >= Debits(Step(db, op).ledger, employee, policy, year)
  {
    StepDebits(db, op, employee, policy, year);
    if !op.AdjustOp? {
      StepHoldsUp(db, op, employee, policy, year);
      DebitsNonPositive(db.ledger, employee, policy, year);
    } else if Step(db, op) != db {
      BalanceAppend(db.ledger, Step(db, op).ledger[|db.ledger|], employee, policy, year);
    }
  }

  /** However far adjustments take a slot, in every run it never falls under what its negative ones add
      up to. */
  lemma {:induction false} BalanceNeverUnderDebits(db: Db, ops: seq<Op>, employee: nat, policy: nat, year: int)
    requires Fresh(db) && NonNegativePolicies(db) && NonNegativeOps(ops)
    ensures var l := Run(db, ops).ledger;
      Remaining(l, employee, policy, year) == Balance(l, employee, policy, year) >= Debits(l, employee, policy, year)
  {
    RemainingIsBalance(db, ops, employee, policy, year);
    if ops != [] {
      var front := ops[..|ops| - 1];
      BalanceNeverUnderDebits(db, front, employee, policy, year);
      RunSane(db, front);
      StepFloor(Run(db, front), ops[|ops| - 1], employee, policy, year);
    }
  }

  /** No call is a negative adjustment of this slot; other slots may be adjusted at will. */
  predicate NoDebits(ops: seq<Op>, employee: nat, policy: nat, year: int) {
    forall k :: 0 <= k < |ops| && ops[k].AdjustOp? && ops[k].delta < 0 ==>
      !(ops[k].employee == employee && ops[k].policy == policy && ops[k].year == year)
  }

  /** A slot nobody adjusts downward is never negative, whatever else the run does. */
  lemma {:induction false} BalanceNeverNegative(db: Db, ops: seq<Op>, employee: nat, policy: nat, year: int)
    requires Fresh(db) && NonNegativePolicies(db) && NonNegativeOps(ops) && NoDebits(ops, employee, policy, year)
    ensures Debits(Run(db, ops).ledger, employee, policy, year) == 0
    ensures Remaining(Run(db, ops).ledger, employee, policy, year) >= 0
  {
    BalanceNeverUnderDebits(db, ops, employee, policy, year);
    if ops != [] {
      BalanceNeverNegative(db, ops[..|ops| - 1], employee, policy, year);
      StepDebits(Run(db, ops[..|ops| - 1]), ops[|ops| - 1], employee, policy, year);
    }
  }

  // ----- what a decision does to every balance --------------------------------------------

  lemma {:induction false} RunAppends(db: Db, ops: seq<Op>, i: nat)
    requires i < |db.requests|
    ensures i < |Run(db, ops).requests| && SameAsk(db.requests[i], Run(db, ops).requests[i])
    ensures db.requests[i].status == Approved ==>
      Run(db, ops).requests[i].status == Approved || Run(db, ops).requests[i].status == Cancelled
  {
    if ops != [] {
      RunAppends(db, ops[..|ops| - 1], i);
      StepAppends(Run(db, ops[..|ops| - 1]), ops[|ops| - 1]);
      StatusFollows(Run(db, ops[..|ops| - 1]), ops[|ops| - 1], i);
    }
  }

  lemma StatusFollows(db: Db, op: Op, i: nat)
    requires i < |db.requests| && i < |Step(db, op).requests|
    ensures db.requests[i].status == Approved || db.requests[i].status == Cancelled ==>
      Step(db, op).requests[i].status == db.requests[i].status || Step(db, op).requests[i].status == Cancelled
  {
  }

  /** An approval that goes through takes the days from the request's own employee, policy and starting
      year and from nowhere else. Whatever is called after it, the request can only stay approved or be
      cancelled; and while it is approved a cancellation is accepted and gives exactly the days that were
      taken to the year of the cancellation and to nowhere else. */
  lemma CancelAfterApprove(db: Db, approver: nat, id: nat, ops: seq<Op>, canceller: nat, today: Date,
                           employee: nat, policy: nat, year: int)
    requires id < |db.requests| && db.requests[id].status == Pending && Approve(db, approver, id).1 == Row(id)
    ensures var r, approved := db.requests[id], Approve(db, approver, id).0;
      var now := Run(approved, ops);
      var (cancelled, reply) := Cancel(now, canceller, id, today);
      var own := employee == r.employee && policy == r.policy;
      && Balance(approved.ledger, employee, policy, year)
         == Balance(db.ledger, employee, policy, year) - (if own && year == YearOf(r.start) then r.days else 0)
      && id < |now.requests| && (now.requests[id].status == Approved || now.requests[id].status == Cancelled)
      && (reply == Row(id) <==> now.requests[id].status == Approved)
      && Balance(cancelled.ledger, employee, policy, year)
         == Balance(now.ledger, employee, policy, year)
            + (if reply == Row(id) && own && year == YearOf(today) then r.days else 0)
  {
    var approved := Approve(db, approver, id).0;
    var now := Run(approved, ops);
    RunAppends(approved, ops, id);
    BalanceAppend(db.ledger, ConsumedEntry(db, id), employee, policy, year);
    BalanceAppend(now.ledger, ReversalEntry(now, id, today), employee, policy, year);
  }

  /** The balance an approval needs: from pending it goes through exactly when the days are there. */
  lemma ApprovalNeedsBalance(db: Db, actor: nat, id: nat)
    requires SignsAgree(db.ledger) && id < |db.requests| && db.requests[id].status == Pending
    ensures var r := db.requests[id];
      Approve(db, actor, id).1 == Row(id) <==> Balance(db.ledger, r.employee, r.policy, YearOf(r.start)) >= r.days
  {
    var r := db.requests[id];
    RemainingIsSignedSum(db.ledger, r.employee, r.policy, YearOf(r.start));
  }

  lemma {:induction false} RunKeepsEnrollments(db: Db, ops: seq<Op>)
    ensures db.enrollments <= Run(db, ops).enrollments
  {
    if ops != [] {
      RunKeepsEnrollments(db, ops[..|ops| - 1]);
    }
  }

  /** Enrolling grants the year's days to one slot only, and only once: whatever is called in between, a
      second enrollment of the employee in the policy for the year fails and writes nothing. */
  lemma EnrollGrantsOnce(db: Db, e: nat, p: nat, y: int, ops: seq<Op>, employee: nat, policy: nat, year: int)
    requires Enroll(db, e, p, y).1.Row?
    ensures var after := Enroll(db, e, p, y).0;
      var now := Run(after, ops);
      && Enroll(now, e, p, y).0 == now && Enroll(now, e, p, y).1.Failed?
      && Balance(after.ledger, employee, policy, year)
         == Balance(db.ledger, employee, policy, year)
            + (if employee == e && policy == p && year == y
               then AccrueForYear(db.policies[p], db.employees[e].hired, y).value else 0)
  {
    var after := Enroll(db, e, p, y).0;
    BalanceAppend(db.ledger, after.ledger[|db.ledger|], employee, policy, year);
    RunKeepsEnrollments(after, ops);
    assert Enrolls(Run(after, ops).enrollments[|db.enrollments|], e, p, y);
  }

  /** Such an adjustment is really accepted: the first entry of a fresh table can be one. */
  lemma NegativeAdjustmentGoesBelow(db: Db, employee: nat, policy: nat, year: int, delta: int, note: string)
    requires Fresh(db) && ActivePolicy(db, policy) && delta < 0 && note == "x"
    ensures Remaining(Step(db, AdjustOp(employee, policy, year, delta, note)).ledger, employee, policy, year) == delta
  {
    assert !Text.IsSpace(note[0]);
    var after := Step(db, AdjustOp(employee, policy, year, delta, note));
    BalanceAppend([], after.ledger[0], employee, policy, year);
    assert after.ledger == [] + [after.ledger[0]];
    RemainingIsSignedSum(after.ledger, employee, policy, year);
  }
}
