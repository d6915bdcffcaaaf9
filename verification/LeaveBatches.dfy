/** The two batch runs: monthly accrual happens once a month, carry-over moves and never makes. */
module LeaveBatches {
  import opened Wrappers
  import opened LeaveCalc
  import opened LeaveLedger
  import opened LeaveModel
  import opened LeaveEntries

  // ----- accrual: once for each enrollment and month --------------------------------------

  /** How many accruals the enrollment has for the run. */
  function AccrualRows(ledger: seq<Entry>, i: nat, run: Reference): int {
    Sum(Measure.Rows, AccrualEntries(i, Some(run)), ledger)
  }

  /** What the enrollment has accrued in all. */
  function AccrualTotal(ledger: seq<Entry>, i: nat): int {
    Sum(Signed, AccrualEntries(i, None), ledger)
  }

  lemma {:induction false} AccruedIsRows(ledger: seq<Entry>, i: nat, m: Month)
    ensures AccrualRows(ledger, i, RunOf(m)) >= 0
    ensures Accrued(ledger, i, m) <==> AccrualRows(ledger, i, RunOf(m)) > 0
  {
    if ledger != [] {
      var front, last := ledger[..|ledger| - 1], ledger[|ledger| - 1];
      AccruedIsRows(front, i, m);
      assert ledger == front + [last];
    }
  }

  lemma AccrualAppend(ledger: seq<Entry>, e: Entry, i: nat, run: Reference)
    ensures AccrualRows(ledger + [e], i, run)
         == AccrualRows(ledger, i, run) + (if e.source == Accrual && e.enrollment == Some(i) && e.reference == run
             then 1 else 0)
    ensures AccrualTotal(ledger + [e], i)
         == AccrualTotal(ledger, i) + (if e.source == Accrual && e.enrollment == Some(i) then e.amount else 0)
  {
    SumAppend(Measure.Rows, AccrualEntries(i, Some(run)), ledger, e);
    SumAppend(Signed, AccrualEntries(i, None), ledger, e);
  }

  /** Enrollment i is due the month's chunk. */
  predicate Due(db: Db, ledger: seq<Entry>, i: nat, m: Month) {
    i < |db.enrollments| && db.enrollments[i].year == m.leaveYear && !Accrued(ledger, i, m)
  }

  function ChunkOf(db: Db, i: nat): int
    requires i < |db.enrollments|
  {
    if db.enrollments[i].policy < |db.policies| then MonthlyChunk(db.policies[db.enrollments[i].policy]) else 0
  }

  /** Once the first n enrollments had their turn at policy p, enrollment i has one more row exactly if it
      was due the policy's chunk. */
  predicate TurnsDone(db: Db, ledger: seq<Entry>, after: seq<Entry>, p: nat, m: Month, n: nat, i: nat, run: Reference)
    requires n <= |db.enrollments|
  {
    var gets := i < n && Due(db, ledger, i, m) && db.enrollments[i].policy == p;
    && AccrualRows(after, i, run) == AccrualRows(ledger, i, run) + (if gets && run == RunOf(m) then 1 else 0)
    && AccrualTotal(after, i) == AccrualTotal(ledger, i) + (if gets then ChunkOf(db, i) else 0)
  }

  lemma TurnAccrues(db: Db, ledger: seq<Entry>, before: seq<Entry>, p: nat, m: Month, n: nat, i: nat, run: Reference)
    requires p < |db.policies| && n < |db.enrollments|
    requires TurnsDone(db, ledger, before, p, m, n, i, run) && TurnsDone(db, ledger, before, p, m, n, n, RunOf(m))
    ensures var e := db.enrollments[n];
      if e.policy == p && e.year == m.leaveYear && !Accrued(before, n, m)
      then TurnsDone(db, ledger, before + [AccrualEntry(db, n, m)], p, m, n + 1, i, run)
      else TurnsDone(db, ledger, before, p, m, n + 1, i, run)
  {
    AccruedIsRows(before, n, m);
    AccruedIsRows(ledger, n, m);
    var e := db.enrollments[n];
    if e.policy == p && e.year == m.leaveYear && !Accrued(before, n, m) {
      AccrualAppend(before, AccrualEntry(db, n, m), i, run);
    }
  }

  lemma {:induction false} PolicyAccrues(db: Db, ledger: seq<Entry>, p: nat, m: Month, n: nat, i: nat, run: Reference)
    requires p < |db.policies| && n <= |db.enrollments|
    ensures TurnsDone(db, ledger, AccruePolicy(db, ledger, p, m, n), p, m, n, i, run)
  {
    if n > 0 {
      PolicyAccrues(db, ledger, p, m, n - 1, i, run);
      PolicyAccrues(db, ledger, p, m, n - 1, n - 1, RunOf(m));
      TurnAccrues(db, ledger, AccruePolicy(db, ledger, p, m, n - 1), p, m, n - 1, i, run);
    }
  }

  predicate Gets(db: Db, i: nat, m: Month, n: nat)
    requires n <= |db.policies|
  {
    Due(db, db.ledger, i, m) && db.enrollments[i].policy < n && AccruesMonthly(db.policies[db.enrollments[i].policy])
  }

  /** After the first n policies, enrollment i has one more row exactly if it gets the month's chunk. */
  predicate AccruedBy(db: Db, after: seq<Entry>, m: Month, n: nat, i: nat, run: Reference)
    requires n <= |db.policies|
  {
    && AccrualRows(after, i, run) == AccrualRows(db.ledger, i, run)
        + (if Gets(db, i, m, n) && run == RunOf(m) then 1 else 0)
    && AccrualTotal(after, i) == AccrualTotal(db.ledger, i) + (if Gets(db, i, m, n) then ChunkOf(db, i) else 0)
  }

  lemma NextPolicyAccrues(db: Db, before: seq<Entry>, m: Month, p: nat, i: nat, run: Reference)
    requires p < |db.policies|
    requires AccruedBy(db, before, m, p, i, run) && AccruedBy(db, before, m, p, i, RunOf(m))
    ensures AccruesMonthly(db.policies[p])
        ==> AccruedBy(db, AccruePolicy(db, before, p, m, |db.enrollments|), m, p + 1, i, run)
    ensures !AccruesMonthly(db.policies[p]) ==> AccruedBy(db, before, m, p + 1, i, run)
  {
    AccruedIsRows(before, i, m);
    AccruedIsRows(db.ledger, i, m);
    PolicyAccrues(db, before, p, m, |db.enrollments|, i, run);
  }

  lemma {:induction false} PoliciesAccrue(db: Db, m: Month, n: nat, i: nat, run: Reference)
    requires n <= |db.policies|
    ensures AccruedBy(db, AccruePolicies(db, m, n), m, n, i, run)
  {
    if n > 0 {
      PoliciesAccrue(db, m, n - 1, i, run);
      PoliciesAccrue(db, m, n - 1, i, RunOf(m));
      NextPolicyAccrues(db, AccruePolicies(db, m, n - 1), m, n - 1, i, run);
    }
  }

  /** The month the call accrues for enrollments of the year, if it is a valid accrual run. */
  function MonthOf(op: Op, year: int): set<Reference> {
    if op.AccrualOp? && ValidMonth(op.month) && op.month.leaveYear == year then {RunOf(op.month)} else {}
  }

  /** No call but an accrual run touches anyone's accruals. */
  lemma OthersDoNotAccrue(db: Db, op: Op, i: nat, run: Reference)
    requires !op.AccrualOp?
    ensures AccrualRows(Step(db, op).ledger, i, run) == AccrualRows(db.ledger, i, run)
    ensures AccrualTotal(Step(db, op).ledger, i) == AccrualTotal(db.ledger, i)
  {
    StepAppends(db, op);
    StepAddsNoAccrual(db, op);
    SumUnchanged(Measure.Rows, AccrualEntries(i, Some(run)), db.ledger, Step(db, op).ledger);
    SumUnchanged(Signed, AccrualEntries(i, None), db.ledger, Step(db, op).ledger);
  }

  lemma StepAddsNoAccrual(db: Db, op: Op)
    requires !op.AccrualOp?
    ensures var after := Step(db, op).ledger;
      forall k :: |db.ledger| <= k < |after| ==> after[k].source != Accrual
  {
    if op.CarryoverOp? {
      CarryAppends(db, |db.enrollments|, op.fromYear, op.toYear);
    }
  }

  /** In every run, whatever else happens and however policies change, an enrollment accrues at most
      once for a month. */
  lemma {:induction false} AccruesAtMostOnce(db: Db, ops: seq<Op>, i: nat, run: Reference)
    requires Fresh(db)
    ensures 0 <= AccrualRows(Run(db, ops).ledger, i, run) <= 1
  {
    if ops != [] {
      var before, op := Run(db, ops[..|ops| - 1]), ops[|ops| - 1];
      AccruesAtMostOnce(db, ops[..|ops| - 1], i, run);
      if op.AccrualOp? {
        PoliciesAccrue(before, op.month, |before.policies|, i, run);
        AccruedIsRows(before.ledger, i, op.month);
      } else {
        OthersDoNotAccrue(before, op, i, run);
      }
    }
  }

  /** The distinct months accrued for a year's enrollments by a run. */
  function MonthsRun(ops: seq<Op>, year: int): set<Reference> {
    if ops == [] then {} else MonthsRun(ops[..|ops| - 1], year) + MonthOf(ops[|ops| - 1], year)
  }

  /** The policy is never edited. */
  predicate Unedited(ops: seq<Op>, policy: nat) {
    forall k :: 0 <= k < |ops| ==> ops[k].PolicyEdit? ==> ops[k].policy != policy
  }

  predicate AccruingEnrollment(db: Db, i: nat) {
    i < |db.enrollments| && db.enrollments[i].policy < |db.policies|
        && AccruesMonthly(db.policies[db.enrollments[i].policy])
  }

  lemma EnrollmentStays(db: Db, op: Op, i: nat)
    requires i < |db.enrollments| && db.enrollments[i].policy < |db.policies|
    requires op.PolicyEdit? ==> op.policy != db.enrollments[i].policy
    ensures i < |Step(db, op).enrollments| && Step(db, op).enrollments[i] == db.enrollments[i]
    ensures var p := db.enrollments[i].policy;
      p < |Step(db, op).policies| && Step(db, op).policies[p] == db.policies[p]
  {
  }

  /** The enrollment and its policy are as they were in db, and by now it has one accrual for the run if
      that is among the months, and the policy's chunk for each month in all. */
  predicate AccruedMonths(db: Db, now: Db, i: nat, run: Reference, months: set<Reference>)
    requires i < |db.enrollments|
  {
    && AccruingEnrollment(now, i) && now.enrollments[i] == db.enrollments[i] && ChunkOf(now, i) == ChunkOf(db, i)
    && AccrualRows(now.ledger, i, run) == (if run in months then 1 else 0)
    && AccrualTotal(now.ledger, i) == ChunkOf(db, i) * |months|
  }

  lemma AccrualMonth(db: Db, before: Db, op: Op, i: nat, run: Reference, months: set<Reference>)
    requires i < |db.enrollments| && op.AccrualOp?
    requires AccruedMonths(db, before, i, run, months) && AccruedMonths(db, before, i, RunOf(op.month), months)
    ensures AccruedMonths(db, Step(before, op), i, run, months + MonthOf(op, db.enrollments[i].year))
  {
    PoliciesAccrue(before, op.month, |before.policies|, i, run);
    if MonthOf(op, db.enrollments[i].year) == {} {
      assert months + {} == months;
    } else {
      AccruedIsRows(before.ledger, i, op.month);
      NewMonth(months, RunOf(op.month), ChunkOf(db, i));
    }
  }

  lemma OtherMonth(db: Db, before: Db, op: Op, i: nat, run: Reference, months: set<Reference>)
    requires i < |db.enrollments| && !op.AccrualOp? && AccruedMonths(db, before, i, run, months)
    requires op.PolicyEdit? ==> op.policy != db.enrollments[i].policy
    ensures AccruedMonths(db, Step(before, op), i, run, months + MonthOf(op, db.enrollments[i].year))
  {
    EnrollmentStays(before, op, i);
    OthersDoNotAccrue(before, op, i, run);
    assert months + {} == months;
  }

  predicate NoAccrualYet(db: Db, i: nat) {
    forall e :: e in db.ledger ==> !Matches(AccrualEntries(i, None), e)
  }

  /** Under a fixed monthly policy an enrollment ends up with exactly one accrual for each distinct
      month run, months repeated and in any order and any other calls in between. */
  lemma {:induction false} AccruesEachMonthOnce(db: Db, ops: seq<Op>, i: nat, run: Reference)
    requires AccruingEnrollment(db, i) && Unedited(ops, db.enrollments[i].policy) && NoAccrualYet(db, i)
    ensures AccruedMonths(db, Run(db, ops), i, run, MonthsRun(ops, db.enrollments[i].year))
  {
    if ops == [] {
      SumNone(Measure.Rows, AccrualEntries(i, Some(run)), db.ledger);
      SumNone(Signed, AccrualEntries(i, None), db.ledger);
    } else {
      var front, op := ops[..|ops| - 1], ops[|ops| - 1];
      var months := MonthsRun(front, db.enrollments[i].year);
      AccruesEachMonthOnce(db, front, i, run);
      if op.AccrualOp? {
        AccruesEachMonthOnce(db, front, i, RunOf(op.month));
        AccrualMonth(db, Run(db, front), op, i, run, months);
      } else {
        OtherMonth(db, Run(db, front), op, i, run, months);
      }
    }
  }

  lemma NewMonth(months: set<Reference>, run: Reference, chunk: int)
    ensures chunk * |months + {run}| == chunk * |months| + (if run in months then 0 else chunk)
  {
    if run in months {
      assert months + {run} == months;
    } else {
      assert |months + {run}| == |months| + 1;
      assert chunk * (|months| + 1) == chunk * |months| + chunk;
    }
  }

  /** Twelve months come within six hundredths of a day of the entitlement. */
  lemma TwelveMonthsMakeAYear(db: Db, ops: seq<Op>, i: nat)
    requires AccruingEnrollment(db, i) && Unedited(ops, db.enrollments[i].policy) && NoAccrualYet(db, i)
    requires |MonthsRun(ops, db.enrollments[i].year)| == 12
    requires db.policies[db.enrollments[i].policy].entitlement >= 0
    ensures var entitlement := db.policies[db.enrollments[i].policy].entitlement;
      entitlement - 6 < AccrualTotal(Run(db, ops).ledger, i) <= entitlement + 6
  {
    AccruesEachMonthOnce(db, ops, i, Manual);
    TwelveChunks(db.policies[db.enrollments[i].policy]);
  }

  /** Every entry names an enrollment that exists, or none. */
  predicate EnrollmentsKnown(ledger: seq<Entry>, count: nat) {
    forall k :: 0 <= k < |ledger| && ledger[k].enrollment.Some? ==> ledger[k].enrollment.value < count
  }

  lemma {:induction false} PolicyKnown(db: Db, ledger: seq<Entry>, p: nat, m: Month, n: nat)
    requires p < |db.policies| && n <= |db.enrollments| && EnrollmentsKnown(ledger, |db.enrollments|)
    ensures EnrollmentsKnown(AccruePolicy(db, ledger, p, m, n), |db.enrollments|)
  {
    if n > 0 {
      PolicyKnown(db, ledger, p, m, n - 1);
    }
  }

  lemma {:induction false} PoliciesKnown(db: Db, m: Month, n: nat)
    requires n <= |db.policies| && EnrollmentsKnown(db.ledger, |db.enrollments|)
    ensures EnrollmentsKnown(AccruePolicies(db, m, n), |db.enrollments|)
  {
    if n > 0 {
      PoliciesKnown(db, m, n - 1);
      PolicyKnown(db, AccruePolicies(db, m, n - 1), n - 1, m, |db.enrollments|);
    }
  }

  lemma {:induction false} CarryKnown(db: Db, n: nat, fromYear: int, toYear: int)
    requires n <= |db.enrollments| && EnrollmentsKnown(db.ledger, |db.enrollments|)
    ensures var after := CarryFirst(db, n, fromYear, toYear); EnrollmentsKnown(after.ledger, |after.enrollments|)
  {
    if n > 0 {
      CarryKnown(db, n - 1, fromYear, toYear);
      TurnKnown(CarryFirst(db, n - 1, fromYear, toYear), n - 1, fromYear, toYear);
    }
  }

  lemma TurnKnown(db: Db, i: nat, fromYear: int, toYear: int)
    requires i < |db.enrollments| && EnrollmentsKnown(db.ledger, |db.enrollments|)
    ensures var after := CarryOne(db, i, fromYear, toYear); EnrollmentsKnown(after.ledger, |after.enrollments|)
  {
  }

  lemma StepKnown(db: Db, op: Op)
    requires EnrollmentsKnown(db.ledger, |db.enrollments|)
    ensures EnrollmentsKnown(Step(db, op).ledger, |Step(db, op).enrollments|)
  {
    match op
    case AccrualOp(m) => PoliciesKnown(db, m, |db.policies|);
    case CarryoverOp(fromYear, toYear, _, _) => CarryKnown(db, |db.enrollments|, fromYear, toYear);
    case _ =>
  }

  lemma {:induction false} RunKnown(db: Db, ops: seq<Op>)
    requires Fresh(db)
    ensures EnrollmentsKnown(Run(db, ops).ledger, |Run(db, ops).enrollments|)
  {
    if ops != [] {
      RunKnown(db, ops[..|ops| - 1]);
      StepKnown(Run(db, ops[..|ops| - 1]), ops[|ops| - 1]);
    }
  }

  /** An enrollment starts without accruals, whichever call makes it. */
  lemma CreatedUnaccrued(db: Db, early: seq<Op>, make: Op, i: nat)
    requires Fresh(db)
    requires |Run(db, early).enrollments| <= i < |Step(Run(db, early), make).enrollments|
    ensures NoAccrualYet(Step(Run(db, early), make), i)
  {
    var before := Run(db, early);
    RunKnown(db, early);
    StepAppends(before, make);
    StepAddsNoAccrual(before, make);
  }

  /** In every run: from the call that makes an enrollment under a monthly policy that is not edited
      afterwards, the enrollment gets exactly one accrual for each distinct month run, months repeated and in
      any order and any other calls in between; and twelve months come within six hundredths of a day of
      the entitlement. */
  lemma AccruesFromCreation(db: Db, early: seq<Op>, make: Op, late: seq<Op>, i: nat, run: Reference)
    requires Fresh(db)
    requires |Run(db, early).enrollments| <= i < |Step(Run(db, early), make).enrollments|
    requires var made := Step(Run(db, early), make);
      AccruingEnrollment(made, i) && Unedited(late, made.enrollments[i].policy)
    ensures var made := Step(Run(db, early), make);
      var now, months := Run(made, late), MonthsRun(late, made.enrollments[i].year);
      var entitlement := made.policies[made.enrollments[i].policy].entitlement;
      && AccruedMonths(made, now, i, run, months)
      && (|months| == 12 && entitlement >= 0 ==>
            entitlement - 6 < AccrualTotal(now.ledger, i) <= entitlement + 6)
  {
    var made := Step(Run(db, early), make);
    CreatedUnaccrued(db, early, make, i);
    AccruesEachMonthOnce(made, late, i, run);
    if |MonthsRun(late, made.enrollments[i].year)| == 12 && made.policies[made.enrollments[i].policy].entitlement >= 0 {
      TwelveMonthsMakeAYear(made, late, i);
    }
  }

  // ----- carry-over: conservation ---------------------------------------------------------

  /** What an employee holds under a policy, all years together. */
  function Holdings(ledger: seq<Entry>, employee: nat, policy: nat): int {
    Sum(Signed, Account(employee, policy), ledger)
  }

  lemma CarryOneConserves(db: Db, i: nat, fromYear: int, toYear: int, employee: nat, policy: nat)
    requires i < |db.enrollments|
    ensures Holdings(CarryOne(db, i, fromYear, toYear).ledger, employee, policy)
        == Holdings(db.ledger, employee, policy)
  {
    if Carries(db, i, fromYear, toYear) {
      var after, n := CarryOne(db, i, fromYear, toYear).ledger, |db.ledger|;
      SumAppend(Signed, Account(employee, policy), db.ledger, after[n]);
      SumAppend(Signed, Account(employee, policy), db.ledger + [after[n]], after[n + 1]);
      assert after == (db.ledger + [after[n]]) + [after[n + 1]];
    }
  }

  lemma {:induction false} CarryFirstConserves(db: Db, n: nat, fromYear: int, toYear: int, employee: nat, policy: nat)
    requires n <= |db.enrollments|
    ensures Holdings(CarryFirst(db, n, fromYear, toYear).ledger, employee, policy)
        == Holdings(db.ledger, employee, policy)
  {
    if n > 0 {
      CarryFirstConserves(db, n - 1, fromYear, toYear, employee, policy);
      CarryOneConserves(CarryFirst(db, n - 1, fromYear, toYear), n - 1, fromYear, toYear, employee, policy);
    }
  }

  /** A carry-over run leaves every employee's holdings under every policy as they were. */
  lemma CarryoverConserves(db: Db, fromYear: int, toYear: int, targetFrom: int, targetTo: int, employee: nat,
                           policy: nat)
    ensures Holdings(RunCarryover(db, fromYear, toYear, targetFrom, targetTo).0.ledger, employee, policy)
         == Holdings(db.ledger, employee, policy)
  {
    CarryFirstConserves(db, |db.enrollments|, fromYear, toYear, employee, policy);
  }

  // ----- carry-over: each amount, once ----------------------------------------------------

  predicate HasTarget(db: Db, employee: nat, policy: nat, year: int) {
    FindEnrollment(db.enrollments, employee, policy, year).Some?
  }

  /** No entry of the account is among those from position n on. */
  predicate Untouched(ledger: seq<Entry>, n: nat, employee: nat, policy: nat) {
    forall k :: n <= k < |ledger| ==> !(ledger[k].employee == employee && ledger[k].policy == policy)
  }

  lemma CarryOneTouches(db: Db, i: nat, fromYear: int, toYear: int, employee: nat, policy: nat)
    requires i < |db.enrollments| && !HasTarget(CarryOne(db, i, fromYear, toYear), employee, policy, toYear)
    ensures !HasTarget(db, employee, policy, toYear)
    ensures db.ledger <= CarryOne(db, i, fromYear, toYear).ledger
    ensures Untouched(CarryOne(db, i, fromYear, toYear).ledger, |db.ledger|, employee, policy)
  {
    var after, n := CarryOne(db, i, fromYear, toYear), |db.enrollments|;
    if HasTarget(db, employee, policy, toYear) {
      TargetStays(db, after, employee, policy, toYear);
    }
    if after != db {
      assert !Enrolls(after.enrollments[n], employee, policy, toYear);
    }
  }

  /** Until the account has a target enrollment, nothing of it is touched. */
  predicate QuietUntilTarget(db: Db, now: Db, employee: nat, policy: nat, year: int) {
    HasTarget(now, employee, policy, year)
    || (!HasTarget(db, employee, policy, year) && Untouched(now.ledger, |db.ledger|, employee, policy))
  }

  lemma TurnIsQuiet(db: Db, before: Db, i: nat, fromYear: int, toYear: int, employee: nat, policy: nat)
    requires i < |before.enrollments| && db.ledger <= before.ledger
    requires QuietUntilTarget(db, before, employee, policy, toYear)
    ensures QuietUntilTarget(db, CarryOne(before, i, fromYear, toYear), employee, policy, toYear)
  {
    var now := CarryOne(before, i, fromYear, toYear);
    if !HasTarget(now, employee, policy, toYear) {
      CarryOneTouches(before, i, fromYear, toYear, employee, policy);
      assert forall k :: 0 <= k < |before.ledger| ==> now.ledger[k] == before.ledger[k];
    }
  }

  lemma {:induction false} UntilTargetUntouched(db: Db, n: nat, fromYear: int, toYear: int, employee: nat, policy: nat)
    requires n <= |db.enrollments|
    ensures QuietUntilTarget(db, CarryFirst(db, n, fromYear, toYear), employee, policy, toYear)
  {
    if n > 0 {
      UntilTargetUntouched(db, n - 1, fromYear, toYear, employee, policy);
      TurnIsQuiet(db, CarryFirst(db, n - 1, fromYear, toYear), n - 1, fromYear, toYear, employee, policy);
    }
  }

  lemma UntouchedRemaining(ledger: seq<Entry>, after: seq<Entry>, employee: nat, policy: nat, year: int)
    requires ledger <= after && Untouched(after, |ledger|, employee, policy)
    ensures Remaining(after, employee, policy, year) == Remaining(ledger, employee, policy, year)
  {
    UntouchedSum(ledger, after, Absolute, employee, policy, year, Uses);
    UntouchedSum(ledger, after, Signed, employee, policy, year, Only(Reversal));
    UntouchedSum(ledger, after, Signed, employee, policy, year, Credits);
  }

  lemma UntouchedSum(ledger: seq<Entry>, after: seq<Entry>, m: Measure, employee: nat, policy: nat, year: int,
                     kind: Kind)
    requires ledger <= after && Untouched(after, |ledger|, employee, policy)
    ensures var w := Slot(employee, policy, year).(kind := kind);
      Sum(m, w, after) == Sum(m, w, ledger)
  {
    SumUnchanged(m, Slot(employee, policy, year).(kind := kind), ledger, after);
  }

  /** Enrollment i's turn sees the balance the run started with. */
  lemma TurnSeesStart(db: Db, n: nat, i: nat, fromYear: int, toYear: int)
    requires n <= |db.enrollments| && i < |db.enrollments|
    requires var e := db.enrollments[i]; !HasTarget(CarryFirst(db, n, fromYear, toYear), e.employee, e.policy, toYear)
    ensures CarryAmount(CarryFirst(db, n, fromYear, toYear), i, fromYear) == CarryAmount(db, i, fromYear)
  {
    var now, e := CarryFirst(db, n, fromYear, toYear), db.enrollments[i];
    assert now.enrollments[i] == e;
    UntilTargetUntouched(db, n, fromYear, toYear, e.employee, e.policy);
    UntouchedRemaining(db.ledger, now.ledger, e.employee, e.policy, fromYear);
  }

  /** The j-th enrollment a run creates and its two entries: what leaves one year enters the other, and
      it is what the starting balance and the policy's cap allow, for an account without a target. */
  predicate IsPair(db: Db, target: Enrollment, out: Entry, into: Entry, j: nat, fromYear: int, toYear: int) {
    var run := CarryoverRun(fromYear, toYear);
    && target.year == toYear
    && target.policy < |db.policies| && !db.policies[target.policy].deleted
    && target.granted == CarryoverAmount(Remaining(db.ledger, target.employee, target.policy, fromYear),
                                         db.policies[target.policy], None)
    && target.granted > 0
    && !HasTarget(db, target.employee, target.policy, toYear)
    && out.enrollment.Some? && out.enrollment.value < |db.enrollments|
    && Enrolls(db.enrollments[out.enrollment.value], target.employee, target.policy, fromYear)
    && out == Entry(target.employee, target.policy, out.enrollment, fromYear, CarryoverOut, -target.granted, run, None)
    && into == Entry(target.employee, target.policy, Some(|db.enrollments| + j), toYear, CarryoverIn, target.granted,
        run, Some(fromYear))
  }

  predicate PairMoved(db: Db, now: Db, j: nat, fromYear: int, toYear: int) {
    && |db.enrollments| + j < |now.enrollments| && |db.ledger| + 2 * j + 1 < |now.ledger|
    && IsPair(db, now.enrollments[|db.enrollments| + j],
              now.ledger[|db.ledger| + 2 * j], now.ledger[|db.ledger| + 2 * j + 1], j, fromYear, toYear)
  }

  lemma PairStays(db: Db, before: Db, now: Db, j: nat, fromYear: int, toYear: int)
    requires before.enrollments <= now.enrollments && before.ledger <= now.ledger
    requires PairMoved(db, before, j, fromYear, toYear)
    ensures PairMoved(db, now, j, fromYear, toYear)
  {
    assert now.enrollments[|db.enrollments| + j] == before.enrollments[|db.enrollments| + j];
    assert now.ledger[|db.ledger| + 2 * j] == before.ledger[|db.ledger| + 2 * j];
    assert now.ledger[|db.ledger| + 2 * j + 1] == before.ledger[|db.ledger| + 2 * j + 1];
  }

  /** What enrollment i's turn may count on: it moves what the starting balance allows, for an account
      that had no target. */
  predicate FairTurn(db: Db, before: Db, i: nat, fromYear: int, toYear: int)
    requires i < |db.enrollments| && i < |before.enrollments|
  {
    Carries(before, i, fromYear, toYear) ==>
      && CarryAmount(before, i, fromYear) == CarryAmount(db, i, fromYear)
      && !HasTarget(db, db.enrollments[i].employee, db.enrollments[i].policy, toYear)
  }

  lemma TurnsAreFair(db: Db, n: nat, fromYear: int, toYear: int)
    requires n < |db.enrollments|
    ensures FairTurn(db, CarryFirst(db, n, fromYear, toYear), n, fromYear, toYear)
  {
    var before, e := CarryFirst(db, n, fromYear, toYear), db.enrollments[n];
    assert before.enrollments[n] == e;
    if Carries(before, n, fromYear, toYear) {
      TurnSeesStart(db, n, n, fromYear, toYear);
      UntilTargetUntouched(db, n, fromYear, toYear, e.employee, e.policy);
    }
  }

  /** The j-th pair is there, if there are that many. */
  predicate PairOk(db: Db, now: Db, j: nat, fromYear: int, toYear: int) {
    |db.enrollments| + j < |now.enrollments| ==> PairMoved(db, now, j, fromYear, toYear)
  }

  lemma TurnMovesPair(db: Db, before: Db, i: nat, j: nat, fromYear: int, toYear: int)
    requires i < |db.enrollments| && db.enrollments <= before.enrollments && before.policies == db.policies
    requires |before.ledger| - |db.ledger| == 2 * (|before.enrollments| - |db.enrollments|)
    requires FairTurn(db, before, i, fromYear, toYear) && PairOk(db, before, j, fromYear, toYear)
    ensures PairOk(db, CarryOne(before, i, fromYear, toYear), j, fromYear, toYear)
  {
    assert before.enrollments[i] == db.enrollments[i];
    if |db.enrollments| + j < |before.enrollments| {
      PairStays(db, before, CarryOne(before, i, fromYear, toYear), j, fromYear, toYear);
    }
  }

  predicate PairAfter(db: Db, n: nat, fromYear: int, toYear: int, j: nat)
    requires n <= |db.enrollments|
  {
    PairOk(db, CarryFirst(db, n, fromYear, toYear), j, fromYear, toYear)
  }

  lemma NextTurnPair(db: Db, n: nat, fromYear: int, toYear: int, j: nat)
    requires n < |db.enrollments| && PairAfter(db, n, fromYear, toYear, j)
    ensures PairAfter(db, n + 1, fromYear, toYear, j)
  {
    TurnsAreFair(db, n, fromYear, toYear);
    TurnMovesPair(db, CarryFirst(db, n, fromYear, toYear), n, j, fromYear, toYear);
  }

  lemma CarryPair(db: Db, n: nat, fromYear: int, toYear: int, j: nat)
    requires n <= |db.enrollments|
    ensures PairAfter(db, n, fromYear, toYear, j)
  {
    for i := 0 to n
      invariant PairAfter(db, i, fromYear, toYear, j)
    {
      NextTurnPair(db, i, fromYear, toYear, j);
    }
  }

  /** Every enrollment with something to carry and nowhere it already went ends up with a target. */
  lemma {:induction false} CarryComplete(db: Db, n: nat, i: nat, fromYear: int, toYear: int)
    requires i < n <= |db.enrollments| && db.enrollments[i].year == fromYear
    requires CarryAmount(db, i, fromYear) > 0
    ensures var e := db.enrollments[i]; HasTarget(CarryFirst(db, n, fromYear, toYear), e.employee, e.policy, toYear)
    decreases n
  {
    var before, now, e := CarryFirst(db, n - 1, fromYear, toYear), CarryFirst(db, n, fromYear, toYear),
        db.enrollments[i];
    assert before.enrollments[i] == e;
    if i < n - 1 {
      CarryComplete(db, n - 1, i, fromYear, toYear);
      TargetStays(before, now, e.employee, e.policy, toYear);
    } else if HasTarget(before, e.employee, e.policy, toYear) {
      TargetStays(before, now, e.employee, e.policy, toYear);
    } else {
      TurnSeesStart(db, n - 1, i, fromYear, toYear);
      assert Enrolls(now.enrollments[|before.enrollments|], e.employee, e.policy, toYear);
    }
  }

  lemma TargetStays(before: Db, now: Db, employee: nat, policy: nat, year: int)
    requires before.enrollments <= now.enrollments && HasTarget(before, employee, policy, year)
    ensures HasTarget(now, employee, policy, year)
  {
    var i := FindEnrollment(before.enrollments, employee, policy, year).value;
    assert Enrolls(now.enrollments[i], employee, policy, year);
  }

  lemma {:induction false} NothingToCarry(db: Db, n: nat, fromYear: int, toYear: int)
    requires n <= |db.enrollments|
    requires forall i :: 0 <= i < n ==> !Carries(db, i, fromYear, toYear)
    ensures CarryFirst(db, n, fromYear, toYear) == db
  {
    if n > 0 {
      NothingToCarry(db, n - 1, fromYear, toYear);
    }
  }

  /** An enrollment the run started with has nothing left to carry. */
  lemma OldCarriedOut(db: Db, fromYear: int, toYear: int, i: nat)
    requires i < |db.enrollments|
    ensures !Carries(CarryFirst(db, |db.enrollments|, fromYear, toYear), i, fromYear, toYear)
  {
    var n, e := |db.enrollments|, db.enrollments[i];
    var after := CarryFirst(db, n, fromYear, toYear);
    assert after.enrollments[i] == e;
    if e.year == fromYear && !HasTarget(after, e.employee, e.policy, toYear) {
      TurnSeesStart(db, n, i, fromYear, toYear);
      if CarryAmount(db, i, fromYear) > 0 {
        CarryComplete(db, n, i, fromYear, toYear);
      }
    }
  }

  /** One it made belongs to the other year. */
  lemma NewCarriesNothing(db: Db, fromYear: int, toYear: int, i: nat)
    requires fromYear != toYear
    requires |db.enrollments| <= i < |CarryFirst(db, |db.enrollments|, fromYear, toYear).enrollments|
    ensures !Carries(CarryFirst(db, |db.enrollments|, fromYear, toYear), i, fromYear, toYear)
  {
    var after := CarryFirst(db, |db.enrollments|, fromYear, toYear);
    CarryPair(db, |db.enrollments|, fromYear, toYear, i - |db.enrollments|);
    assert after.enrollments[i].year == toYear;
  }

  /** A second identical run writes nothing and counts nothing; a run from a year to itself never
      writes anything. */
  lemma CarryoverOnce(db: Db, fromYear: int, toYear: int)
    ensures var after := RunCarryover(db, fromYear, toYear, fromYear, toYear).0;
      RunCarryover(after, fromYear, toYear, fromYear, toYear) == (after, Count(0))
    ensures fromYear == toYear ==> RunCarryover(db, fromYear, toYear, fromYear, toYear) == (db, Count(0))
  {
    var after := RunCarryover(db, fromYear, toYear, fromYear, toYear).0;
    if fromYear == toYear {
      SameYearCarriesNothing(db, fromYear);
    } else {
      forall i | 0 <= i < |after.enrollments| ensures !Carries(after, i, fromYear, toYear) {
        if i < |db.enrollments| {
          OldCarriedOut(db, fromYear, toYear, i);
        } else {
          NewCarriesNothing(db, fromYear, toYear, i);
        }
      }
      NothingToCarry(after, |after.enrollments|, fromYear, toYear);
    }
  }

  lemma SameYearCarriesNothing(db: Db, year: int)
    ensures CarryFirst(db, |db.enrollments|, year, year) == db
  {
    forall i | 0 <= i < |db.enrollments| ensures !Carries(db, i, year, year) {
      var e := db.enrollments[i];
      assert e.year == year ==> Enrolls(e, e.employee, e.policy, year);
    }
    NothingToCarry(db, |db.enrollments|, year, year);
  }

  /** What one run moves: the count it returns is the number of new enrollments and of entry pairs;
      each pair takes from one year what it gives the other, for an account that had no target, and
      the amount is positive, within the balance the run started from and within the cap. */
  lemma CarryoverMoves(db: Db, fromYear: int, toYear: int)
    ensures var (after, reply) := RunCarryover(db, fromYear, toYear, fromYear, toYear);
      && db.enrollments <= after.enrollments && db.ledger <= after.ledger
      && reply == Count(|after.enrollments| - |db.enrollments|)
      && |after.ledger| - |db.ledger| == 2 * reply.n
      && forall j {:trigger PairMoved(db, after, j, fromYear, toYear)} ::
           0 <= j < reply.n ==> PairMoved(db, after, j, fromYear, toYear) && WithinLimits(db, after, j, fromYear)
  {
    var after := CarryFirst(db, |db.enrollments|, fromYear, toYear);
    forall j | 0 <= j < |after.enrollments| - |db.enrollments|
      ensures PairMoved(db, after, j, fromYear, toYear) && WithinLimits(db, after, j, fromYear)
    {
      CarryPair(db, |db.enrollments|, fromYear, toYear, j);
    }
  }

  predicate WithinLimits(db: Db, after: Db, j: nat, fromYear: int)
    requires |db.enrollments| + j < |after.enrollments|
  {
    var target := after.enrollments[|db.enrollments| + j];
    && target.policy < |db.policies|
    && 0 < target.granted <= Remaining(db.ledger, target.employee, target.policy, fromYear)
    && (db.policies[target.policy].carryOverMax.Some?
        ==> target.granted <= db.policies[target.policy].carryOverMax.value)
  }

  // ----- the unique constraint ------------------------------------------------------------

  /** At most one enrollment for an employee, policy and year. */
  predicate UniqueEnrollments(enrollments: seq<Enrollment>) {
    forall i, j :: 0 <= i < j < |enrollments| ==> !SameKey(enrollments[i], enrollments[j])
  }

  predicate SameKey(a: Enrollment, b: Enrollment) {
    a.employee == b.employee && a.policy == b.policy && a.year == b.year
  }

  lemma NewEnrollmentUnique(enrollments: seq<Enrollment>, e: Enrollment)
    requires UniqueEnrollments(enrollments) && FindEnrollment(enrollments, e.employee, e.policy, e.year).None?
    ensures UniqueEnrollments(enrollments + [e])
  {
    forall i | 0 <= i < |enrollments| ensures !SameKey(enrollments[i], e) {
      assert !Enrolls(enrollments[i], e.employee, e.policy, e.year);
    }
  }

  lemma {:induction false} CarryUnique(db: Db, n: nat, fromYear: int, toYear: int)
    requires n <= |db.enrollments| && UniqueEnrollments(db.enrollments)
    ensures UniqueEnrollments(CarryFirst(db, n, fromYear, toYear).enrollments)
  {
    if n > 0 {
      CarryUnique(db, n - 1, fromYear, toYear);
      var before, now := CarryFirst(db, n - 1, fromYear, toYear), CarryFirst(db, n, fromYear, toYear);
      if now != before {
        NewEnrollmentUnique(before.enrollments, now.enrollments[|before.enrollments|]);
      }
    }
  }

  /** No run, one call at a time, ever violates the enrollment table's unique constraint. */
  lemma {:induction false} EnrollmentsStayUnique(db: Db, ops: seq<Op>)
    requires Fresh(db)
    ensures UniqueEnrollments(Run(db, ops).enrollments)
  {
    if ops != [] {
      var before, op := Run(db, ops[..|ops| - 1]), ops[|ops| - 1];
      EnrollmentsStayUnique(db, ops[..|ops| - 1]);
      if op.EnrollOp? && Step(before, op) != before {
        NewEnrollmentUnique(before.enrollments, Step(before, op).enrollments[|before.enrollments|]);
      } else if op.CarryoverOp? {
        CarryUnique(before, |before.enrollments|, op.fromYear, op.toYear);
      }
    }
  }
}
