/** What each leave call does, told from the rows and arguments alone: exactly when it goes through, when it
    is refused and why, and what it then stores. */
module LeaveOutcomes {
  import opened Wrappers
  import opened Calendar
  import opened LeaveCalc
  import opened LeaveLedger
  import opened LeaveModel
  import opened LeaveRequests
  import opened LeaveBalances
  import opened LeaveBatches
  import Text

  // ----- who may ask ----------------------------------------------------------------------

  predicate HasEmployee(db: Db, employee: nat) {
    employee in db.employees && !db.employees[employee].deleted
  }

  predicate HasPolicy(db: Db, policy: nat) {
    policy < |db.policies| && !db.policies[policy].deleted && db.policies[policy].active
  }

  /** Each scope the policy sets is unknown of the employee, or matches. */
  predicate InScope(e: Employee, p: Policy) {
    && (p.gender == None || e.gender == None || e.gender == p.gender)
    && (p.maritalStatus == None || e.civilStatus == None || e.civilStatus == p.maritalStatus)
    && (|p.departments| == 0 || e.department == None
        || exists i :: 0 <= i < |p.departments| && e.department == Some(p.departments[i]))
  }

  /** Employee and policy admit each other. */
  predicate Admits(db: Db, employee: nat, policy: nat) {
    HasEmployee(db, employee) && HasPolicy(db, policy) && InScope(db.employees[employee], db.policies[policy])
  }

  lemma AdmitsIs(db: Db, employee: nat, policy: nat)
    ensures KnownEmployee(db, employee) <==> HasEmployee(db, employee)
    ensures ActivePolicy(db, policy) <==> HasPolicy(db, policy)
    ensures HasEmployee(db, employee) && HasPolicy(db, policy) ==>
      (Eligible(db.employees[employee], db.policies[policy]) <==> InScope(db.employees[employee], db.policies[policy]))
  {
    if HasEmployee(db, employee) && HasPolicy(db, policy) {
      var departments := db.policies[policy].departments;
      assert forall d :: d in departments <==> exists i :: 0 <= i < |departments| && departments[i] == d;
    }
  }

  // ----- submit ---------------------------------------------------------------------------

  predicate StandsFor(r: Request, employee: nat) {
    r.employee == employee && (r.status == Pending || r.status == Approved)
  }

  /** A pending or approved request of the employee has day d. */
  predicate DayTaken(requests: seq<Request>, employee: nat, d: int) {
    exists i :: 0 <= i < |requests| && StandsFor(requests[i], employee) && requests[i].start <= d <= requests[i].end
  }

  /** A pending or approved request of the employee begins by the end and ends from the start on. */
  predicate RangeTaken(requests: seq<Request>, employee: nat, start: Date, end: Date) {
    exists i :: 0 <= i < |requests| && StandsFor(requests[i], employee)
                && requests[i].start <= end && start <= requests[i].end
  }

  /** The count of the days, where there is one, ends before the last date and outside the last year. */
  predicate Countable(start: Date, end: Date, hours: Option<real>) {
    hours.Some? || (end < MAX_ORDINAL && start < YearStart(MAX_YEAR))
  }

  lemma RangeTakenIs(requests: seq<Request>, employee: nat, start: Date, end: Date)
    ensures OverlapsExisting(requests, employee, start, end) <==> RangeTaken(requests, employee, start, end)
  {
    forall i | 0 <= i < |requests|
      ensures Conflicts(requests[i], employee, start, end)
         <==> StandsFor(requests[i], employee) && requests[i].start <= end && start <= requests[i].end
    {
    }
  }

  /** The answer to a submit, case by case, in the order of the checks. */
  lemma SubmitAnswers(db: Db, actor: nat, employee: nat, policy: nat, start: Date, end: Date, hours: Option<real>)
    ensures var (after, reply) := Submit(db, actor, employee, policy, start, end, hours);
      var known := HasEmployee(db, employee) && HasPolicy(db, policy);
      var admitted := Admits(db, employee, policy);
      var taken := RangeTaken(db.requests, employee, start, end);
      && (reply == Failed(NotFound) <==> !known)
      && (reply == Failed(Ineligible) <==> known && !admitted)
      && (reply == Failed(Overlap) <==> admitted && taken)
      && (reply == Failed(BadRange) <==> admitted && !taken && end < start)
      && (reply == Failed(OutOfCalendar) <==> admitted && !taken && start <= end && !Countable(start, end, hours))
      && (reply.Row? <==> admitted && !taken && start <= end && Countable(start, end, hours))
      && (!reply.Row? ==> after == db)
  {
    AdmitsIs(db, employee, policy);
    RangeTakenIs(db.requests, employee, start, end);
    LeaveDaysMeans(start, end, hours, 8.0, None, Some({}));
  }

  /** In every run a submit is accepted exactly if employee and policy are there and admit each other, the
      range is the right way round and countable, and none of its days is taken. */
  lemma SubmitAcceptedIff(db: Db, ops: seq<Op>, actor: nat, employee: nat, policy: nat, start: Date, end: Date,
                          hours: Option<real>)
    requires Fresh(db)
    ensures var now := Run(db, ops);
      Submit(now, actor, employee, policy, start, end, hours).1.Row?
      <==> Admits(now, employee, policy) && start <= end && Countable(start, end, hours)
           && forall d :: start <= d <= end ==> !DayTaken(now.requests, employee, d)
  {
    var now := Run(db, ops);
    RunSound(db, ops);
    SubmitAnswers(now, actor, employee, policy, start, end, hours);
    if start <= end && RangeTaken(now.requests, employee, start, end) {
      var i :| 0 <= i < |now.requests| && StandsFor(now.requests[i], employee)
               && now.requests[i].start <= end && start <= now.requests[i].end;
      assert RightlyCharged(now.requests[i]);
      var d := if now.requests[i].start <= start then start else now.requests[i].start;
      assert DayTaken(now.requests, employee, d);
    }
  }

  /** The enrollment a row names: that of the employee in the policy for the year, if there is one. */
  predicate NamesEnrollment(db: Db, named: Option<nat>, employee: nat, policy: nat, year: int) {
    if named.None?
    then forall i :: 0 <= i < |db.enrollments| ==> !IsEnrollment(db.enrollments[i], employee, policy, year)
    else named.value < |db.enrollments| && IsEnrollment(db.enrollments[named.value], employee, policy, year)
  }

  predicate IsEnrollment(e: Enrollment, employee: nat, policy: nat, year: int) {
    e.employee == employee && e.policy == policy && e.year == year
  }

  lemma FindNames(db: Db, employee: nat, policy: nat, year: int)
    ensures NamesEnrollment(db, FindEnrollment(db.enrollments, employee, policy, year), employee, policy, year)
  {
    forall i | 0 <= i < |db.enrollments|
      ensures Enrolls(db.enrollments[i], employee, policy, year)
         <==> IsEnrollment(db.enrollments[i], employee, policy, year)
    {
    }
  }

  predicate InYear(d: int, year: int) {
    YearStart(year) <= d <= YearEnd(year)
  }

  /** An accepted submit stores one pending row with what was asked, charged for the weekdays of the range in
      its starting year, or for an hours request the hours' share of eight-hour days. Nothing else changes. */
  lemma SubmitStores(db: Db, actor: nat, employee: nat, policy: nat, start: Date, end: Date, hours: Option<real>,
                     year: int)
    requires Submit(db, actor, employee, policy, start, end, hours).1.Row? && InYear(start, year)
    ensures var (after, reply) := Submit(db, actor, employee, policy, start, end, hours);
      && reply == Row(|db.requests|) && |after.requests| == |db.requests| + 1
      && after == db.(requests := after.requests) && after.requests[..|db.requests|] == db.requests
      && var r := after.requests[|db.requests|];
      && r == Request(employee, policy, r.enrollment, start, end, hours, r.days, Pending, actor, None, None, None)
      && NamesEnrollment(db, r.enrollment, employee, policy, year)
      && if hours.Some? then IsShare(hours.value, 8.0, r.days)
         else r.days == 100 * |ChargedDays(start, end, WeekdaysOf(year), None)|
  {
    YearOfUnique(start, year);
    FindNames(db, employee, policy, year);
    LeaveDaysMeans(start, end, hours, 8.0, None, Some({}));
    assert Days(start, end) * WeekdaysOf(year) - {} == ChargedDays(start, end, WeekdaysOf(year), None);
  }

  // ----- decisions ------------------------------------------------------------------------

  /** Which status lets which decision through, and what a decision writes on the request: its own status and
      who took it, and nothing else on it or on any other. */
  lemma DecisionMeans(db: Db, actor: nat, id: nat, today: Date)
    requires id < |db.requests|
    ensures var r := db.requests[id];
      var (approved, yes) := Approve(db, actor, id);
      var (rejected, no) := Reject(db, actor, id);
      var (cancelled, off) := Cancel(db, actor, id, today);
      var covered := Remaining(db.ledger, r.employee, r.policy, YearOf(r.start)) >= r.days;
      && (yes == Row(id) <==> r.status == Approved || (r.status == Pending && covered))
      && (yes == Failed(InsufficientBalance) <==> r.status == Pending && !covered)
      && (yes == Failed(IllegalTransition(r.status, Approved)) <==> r.status == Rejected || r.status == Cancelled)
      && (no == Row(id) <==> r.status == Pending)
      && (no == Failed(IllegalTransition(r.status, Rejected)) <==> r.status != Pending)
      && (off == Row(id) <==> r.status == Pending || r.status == Approved)
      && (off == Failed(IllegalTransition(r.status, Cancelled)) <==> r.status == Rejected || r.status == Cancelled)
      && (yes == Row(id) && r.status == Pending ==>
            approved.requests == db.requests[id := r.(status := Approved, approvedBy := Some(actor))])
      && (no == Row(id) ==>
            rejected == db.(requests := db.requests[id := r.(status := Rejected, rejectedBy := Some(actor))]))
      && (off == Row(id) ==>
            cancelled.requests == db.requests[id := r.(status := Cancelled, cancelledBy := Some(actor))])
      && (yes != Row(id) || r.status == Approved ==> approved == db)
      && (no != Row(id) ==> rejected == db) && (off != Row(id) ==> cancelled == db)
  {
  }

  /** A request nobody knows is not found, and nothing is written. */
  lemma UnknownRequest(db: Db, actor: nat, id: nat, today: Date)
    requires id >= |db.requests|
    ensures Approve(db, actor, id) == Reject(db, actor, id) == Cancel(db, actor, id, today) == (db, Failed(NotFound))
  {
  }

  /** The one entry a decision writes, and that it writes none otherwise. */
  lemma DecisionBooks(db: Db, actor: nat, id: nat, today: Date, startYear: int, thisYear: int)
    requires id < |db.requests| && InYear(db.requests[id].start, startYear) && InYear(today, thisYear)
    ensures var r := db.requests[id];
      var (approved, yes) := Approve(db, actor, id);
      var cancelled := Cancel(db, actor, id, today).0;
      && (if yes == Row(id) && r.status == Pending then
            && |approved.ledger| == |db.ledger| + 1 && approved.ledger[..|db.ledger|] == db.ledger
            && var e := approved.ledger[|db.ledger|];
            && e == Entry(r.employee, r.policy, e.enrollment, startYear, Consumed, -r.days, ForRequest(id), None)
            && NamesEnrollment(db, e.enrollment, r.employee, r.policy, startYear)
          else approved.ledger == db.ledger)
      && (if r.status == Approved then
            && |cancelled.ledger| == |db.ledger| + 1 && cancelled.ledger[..|db.ledger|] == db.ledger
            && var e := cancelled.ledger[|db.ledger|];
            && e == Entry(r.employee, r.policy, e.enrollment, thisYear, Reversal, r.days, ForRequest(id),
                          Some(startYear))
            && NamesEnrollment(db, e.enrollment, r.employee, r.policy, thisYear)
          else cancelled.ledger == db.ledger)
  {
    var r := db.requests[id];
    YearOfUnique(r.start, startYear);
    YearOfUnique(today, thisYear);
    FindNames(db, r.employee, r.policy, startYear);
    FindNames(db, r.employee, r.policy, thisYear);
  }

  // ----- enrollment and adjustment --------------------------------------------------------

  predicate IsEnrolled(db: Db, employee: nat, policy: nat, year: int) {
    exists i :: 0 <= i < |db.enrollments| && IsEnrollment(db.enrollments[i], employee, policy, year)
  }

  /** The grant would need the dates of a year past the calendar. */
  predicate GrantFails(db: Db, employee: nat, policy: nat, year: int)
    requires HasEmployee(db, employee) && HasPolicy(db, policy)
  {
    var p := db.policies[policy];
    !p.monthly && p.prorateOnHire && db.employees[employee].hired != None && year > MAX_YEAR
  }

  /** The answer to an enrollment, case by case; and what an accepted one stores: one enrollment, and one grant
      entry with the same days, as the policy and the hire date give them. */
  lemma EnrollMeans(db: Db, employee: nat, policy: nat, year: int)
    ensures var (after, reply) := Enroll(db, employee, policy, year);
      var known := HasEmployee(db, employee) && HasPolicy(db, policy);
      var admitted, enrolled := Admits(db, employee, policy), IsEnrolled(db, employee, policy, year);
      var id := |db.enrollments|;
      && (reply == Failed(NotFound) <==> !known)
      && (reply == Failed(Ineligible) <==> known && !admitted)
      && (reply == Failed(AlreadyEnrolled) <==> admitted && enrolled)
      && (reply == Failed(OutOfCalendar) <==> admitted && !enrolled && GrantFails(db, employee, policy, year))
      && (reply == Row(id) <==> admitted && !enrolled && !GrantFails(db, employee, policy, year))
      && (reply != Row(id) ==> after == db)
      && (reply == Row(id) ==>
            && |after.enrollments| == id + 1
            && var granted := after.enrollments[id].granted;
            && IsGrant(db.policies[policy], db.employees[employee].hired, year, granted)
            && after == db.(
                 enrollments := db.enrollments + [Enrollment(employee, policy, year, granted)],
                 ledger := db.ledger
                           + [Entry(employee, policy, Some(id), year, Grant, granted, ForEnrollment(id), None)]))
  {
    AdmitsIs(db, employee, policy);
    FindNames(db, employee, policy, year);
    if HasEmployee(db, employee) && HasPolicy(db, policy) {
      GrantMeans(db.policies[policy], db.employees[employee].hired, year);
    }
  }

  /** The answer to an adjustment, case by case; and an accepted one changes its own slot by the amount, and no
      other slot, with one entry. */
  lemma AdjustMeans(db: Db, employee: nat, policy: nat, year: int, delta: int, note: string,
                    e: nat, p: nat, y: int)
    ensures var (after, reply) := Adjust(db, employee, policy, year, delta, note);
      var blank := forall i :: 0 <= i < |note| ==> Text.IsSpace(note[i]);
      var there := policy < |db.policies| && !db.policies[policy].deleted;
      && (reply == Failed(NoteRequired) <==> blank)
      && (reply == Failed(NotFound) <==> !blank && !there)
      && (reply == Row(|db.ledger|) <==> !blank && there)
      && (reply != Row(|db.ledger|) ==> after == db)
      && (reply == Row(|db.ledger|) ==>
            && |after.ledger| == |db.ledger| + 1
            && var entry := after.ledger[|db.ledger|];
            && entry == Entry(employee, policy, entry.enrollment, year, ManualAdjustment, delta, Manual, None)
            && NamesEnrollment(db, entry.enrollment, employee, policy, year)
            && after == db.(ledger := db.ledger + [entry])
            && Balance(after.ledger, e, p, y) == Balance(db.ledger, e, p, y)
               + (if e == employee && p == policy && y == year then delta else 0))
  {
    FindNames(db, employee, policy, year);
    var after := Adjust(db, employee, policy, year, delta, note).0;
    if |after.ledger| > |db.ledger| {
      BalanceAppend(db.ledger, after.ledger[|db.ledger|], e, p, y);
    }
  }

  // ----- monthly accrual ------------------------------------------------------------------

  predicate IsMonth(m: Month) {
    m.year >= 1900 && 1 <= m.month <= 12
  }

  /** An accrual entry of enrollment i for the month. */
  predicate IsAccrualOf(e: Entry, i: nat, m: Month) {
    e.source == Accrual && e.enrollment == Some(i) && e.reference == AccrualRun(m.year, m.month)
  }

  predicate HasAccrual(ledger: seq<Entry>, i: nat, m: Month) {
    exists k :: 0 <= k < |ledger| && IsAccrualOf(ledger[k], i, m)
  }

  /** The enrollment is of the leave year, under a policy that is undeleted, active and monthly. */
  predicate IsMonthly(db: Db, i: nat, m: Month) {
    && i < |db.enrollments| && db.enrollments[i].year == m.leaveYear
    && var p := db.enrollments[i].policy;
    && p < |db.policies| && !db.policies[p].deleted && db.policies[p].active && db.policies[p].monthly
  }

  lemma AccruedIs(ledger: seq<Entry>, i: nat, m: Month)
    ensures Accrued(ledger, i, m) <==> HasAccrual(ledger, i, m)
  {
    if Accrued(ledger, i, m) {
      var e :| e in ledger && Matches(AccrualEntries(i, Some(RunOf(m))), e);
      var k :| 0 <= k < |ledger| && ledger[k] == e;
      assert IsAccrualOf(ledger[k], i, m);
    }
    if HasAccrual(ledger, i, m) {
      var k :| 0 <= k < |ledger| && IsAccrualOf(ledger[k], i, m);
      assert ledger[k] in ledger && Matches(AccrualEntries(i, Some(RunOf(m))), ledger[k]);
    }
  }

  /** How many entries a ledger has for the enrollment and the run. */
  function CountAccruals(ledger: seq<Entry>, i: nat, m: Month): nat {
    if ledger == [] then 0
    else
      CountAccruals(ledger[..|ledger| - 1], i, m) + (if IsAccrualOf(ledger[|ledger| - 1], i, m) then 1 else 0)
  }

  lemma {:induction false} CountIsRows(ledger: seq<Entry>, i: nat, m: Month)
    ensures CountAccruals(ledger, i, m) == AccrualRows(ledger, i, AccrualRun(m.year, m.month))
  {
    if ledger != [] {
      CountIsRows(ledger[..|ledger| - 1], i, m);
    }
  }

  /** The entry is what its enrollment accrues for the month. */
  predicate AccruesRightly(db: Db, m: Month, e: Entry) {
    && e.enrollment.Some? && IsMonthly(db, e.enrollment.value, m) && IsAccrualOf(e, e.enrollment.value, m)
    && var enrollment := db.enrollments[e.enrollment.value];
    && e.employee == enrollment.employee && e.policy == enrollment.policy && e.year == m.leaveYear
    && e.originalYear == None && IsChunk(db.policies[enrollment.policy], e.amount)
  }

  predicate AllAccrueRightly(db: Db, m: Month, ledger: seq<Entry>, n: nat) {
    forall k :: n <= k < |ledger| ==> AccruesRightly(db, m, ledger[k])
  }

  lemma {:induction false} PolicyAccruesRightly(db: Db, ledger: seq<Entry>, p: nat, m: Month, n: nat)
    requires p < |db.policies| && n <= |db.enrollments|
    requires !db.policies[p].deleted && db.policies[p].active && db.policies[p].monthly
    ensures AllAccrueRightly(db, m, AccruePolicy(db, ledger, p, m, n), |ledger|)
  {
    if n > 0 {
      PolicyAccruesRightly(db, ledger, p, m, n - 1);
      var e := db.enrollments[n - 1];
      if e.policy == p && e.year == m.leaveYear {
        ChunkMeans(db.policies[p]);
        assert AccruesRightly(db, m, AccrualEntry(db, n - 1, m));
      }
    }
  }

  lemma {:induction false} PoliciesAccrueRightly(db: Db, m: Month, n: nat)
    requires n <= |db.policies|
    ensures AllAccrueRightly(db, m, AccruePolicies(db, m, n), |db.ledger|)
  {
    if n > 0 {
      PoliciesAccrueRightly(db, m, n - 1);
      var p, before := n - 1, AccruePolicies(db, m, n - 1);
      if AccruesMonthly(db.policies[p]) {
        PolicyAccruesRightly(db, before, p, m, |db.enrollments|);
        assert forall k :: 0 <= k < |before| ==> AccruePolicy(db, before, p, m, |db.enrollments|)[k] == before[k];
      }
    }
  }

  /** One accrual call adds to an enrollment exactly one entry for the month if the month is one, the enrollment
      is of the leave year under an undeleted, active and monthly policy, and it has none for the month yet;
      and none otherwise. Every entry it adds is its enrollment's own, of a twelfth of the entitlement. The
      count it answers is how many it added, and nothing but the ledger changes. */
  lemma AccrualMeans(db: Db, m: Month, i: nat)
    ensures var (after, reply) := RunAccrual(db, m);
      var due := IsMonth(m) && IsMonthly(db, i, m) && !HasAccrual(db.ledger, i, m);
      && db.ledger <= after.ledger && after == db.(ledger := after.ledger)
      && CountAccruals(after.ledger, i, m) == CountAccruals(db.ledger, i, m) + (if due then 1 else 0)
      && AllAccrueRightly(db, m, after.ledger, |db.ledger|)
      && reply == (if IsMonth(m) then Count(|after.ledger| - |db.ledger|) else Failed(InvalidMonth))
      && (!IsMonth(m) ==> after == db)
  {
    var after := RunAccrual(db, m).0;
    CountIsRows(db.ledger, i, m);
    CountIsRows(after.ledger, i, m);
    if IsMonth(m) {
      PoliciesAccrue(db, m, |db.policies|, i, RunOf(m));
      PoliciesAccrueRightly(db, m, |db.policies|);
      AccruedIs(db.ledger, i, m);
    }
  }

  /** The policy is there and, being annual, inactive or deleted, accrues nothing; and no call edits it. */
  predicate StaysIdle(db: Db, policy: nat, ops: seq<Op>) {
    && policy < |db.policies|
    && (!db.policies[policy].monthly || !db.policies[policy].active || db.policies[policy].deleted)
    && forall k :: 0 <= k < |ops| && ops[k].PolicyEdit? ==> ops[k].policy != policy
  }

  /** In every run an enrollment accrues nothing as long as its policy is annual, inactive or deleted. */
  lemma {:induction false} IdleNeverAccrues(db: Db, ops: seq<Op>, i: nat, m: Month)
    requires i < |db.enrollments| && StaysIdle(db, db.enrollments[i].policy, ops)
    ensures var now, p := Run(db, ops), db.enrollments[i].policy;
      && i < |now.enrollments| && now.enrollments[i] == db.enrollments[i]
      && p < |now.policies| && now.policies[p] == db.policies[p]
      && CountAccruals(now.ledger, i, m) == CountAccruals(db.ledger, i, m)
  {
    if ops != [] {
      var front, op := ops[..|ops| - 1], ops[|ops| - 1];
      IdleNeverAccrues(db, front, i, m);
      EnrollmentStays(Run(db, front), op, i);
      IdleStep(Run(db, front), op, i, m);
    }
  }

  lemma IdleStep(db: Db, op: Op, i: nat, m: Month)
    requires i < |db.enrollments| && db.enrollments[i].policy < |db.policies|
    requires var p := db.policies[db.enrollments[i].policy]; !p.monthly || !p.active || p.deleted
    ensures CountAccruals(Step(db, op).ledger, i, m) == CountAccruals(db.ledger, i, m)
  {
    CountIsRows(db.ledger, i, m);
    CountIsRows(Step(db, op).ledger, i, m);
    if op.AccrualOp? {
      PoliciesAccrue(db, op.month, |db.policies|, i, AccrualRun(m.year, m.month));
    } else {
      OthersDoNotAccrue(db, op, i, AccrualRun(m.year, m.month));
    }
  }

  // ----- year-end carry-over --------------------------------------------------------------

  /** The account has an enrollment in the one year and none in the other, and its policy is undeleted, has
      carry-over on, and is not capped at nothing. */
  predicate MayCarry(db: Db, employee: nat, policy: nat, fromYear: int, toYear: int) {
    && IsEnrolled(db, employee, policy, fromYear) && !IsEnrolled(db, employee, policy, toYear)
    && policy < |db.policies| && !db.policies[policy].deleted && db.policies[policy].carryOver
    && (db.policies[policy].carryOverMax == None || db.policies[policy].carryOverMax.value > 0)
  }

  /** The balance, or the cap if that is less. */
  function UpToCap(balance: int, p: Policy): int {
    if p.carryOverMax != None && p.carryOverMax.value < balance then p.carryOverMax.value else balance
  }

  /** The j-th enrollment the run made is the account's. */
  predicate IsTarget(db: Db, after: Db, j: nat, employee: nat, policy: nat) {
    |db.enrollments| + j < |after.enrollments|
    && after.enrollments[|db.enrollments| + j].employee == employee
    && after.enrollments[|db.enrollments| + j].policy == policy
  }

  predicate Untargeted(db: Db, after: Db, employee: nat, policy: nat) {
    forall i :: |db.enrollments| <= i < |after.enrollments| ==>
      !(after.enrollments[i].employee == employee && after.enrollments[i].policy == policy)
  }

  lemma EnrolledIs(db: Db, employee: nat, policy: nat, year: int)
    ensures HasTarget(db, employee, policy, year) <==> IsEnrolled(db, employee, policy, year)
  {
    FindNames(db, employee, policy, year);
  }

  /** A target the run made: its account could carry, and it holds what it could. */
  lemma TargetMeans(db: Db, fromYear: int, toYear: int, j: nat)
    requires |db.enrollments| + j < |CarryFirst(db, |db.enrollments|, fromYear, toYear).enrollments|
    ensures var target := CarryFirst(db, |db.enrollments|, fromYear, toYear).enrollments[|db.enrollments| + j];
      var left := Remaining(db.ledger, target.employee, target.policy, fromYear);
      && target.year == toYear && left > 0 && MayCarry(db, target.employee, target.policy, fromYear, toYear)
      && target.granted == UpToCap(left, db.policies[target.policy])
  {
    var after := CarryFirst(db, |db.enrollments|, fromYear, toYear);
    var target := after.enrollments[|db.enrollments| + j];
    CarryPair(db, |db.enrollments|, fromYear, toYear, j);
    assert PairMoved(db, after, j, fromYear, toYear);
    EnrolledIs(db, target.employee, target.policy, toYear);
    var source := after.ledger[|db.ledger| + 2 * j].enrollment.value;
    assert IsEnrollment(db.enrollments[source], target.employee, target.policy, fromYear);
  }

  /** An account that could carry gets its target. */
  lemma CarriesWhenItMay(db: Db, fromYear: int, toYear: int, employee: nat, policy: nat) returns (j: nat)
    requires MayCarry(db, employee, policy, fromYear, toYear) && Remaining(db.ledger, employee, policy, fromYear) > 0
    ensures var after := CarryFirst(db, |db.enrollments|, fromYear, toYear);
      IsTarget(db, after, j, employee, policy)
  {
    var n := |db.enrollments|;
    var after := CarryFirst(db, n, fromYear, toYear);
    var i :| 0 <= i < n && IsEnrollment(db.enrollments[i], employee, policy, fromYear);
    CarryComplete(db, n, i, fromYear, toYear);
    EnrolledIs(after, employee, policy, toYear);
    var k :| 0 <= k < |after.enrollments| && IsEnrollment(after.enrollments[k], employee, policy, toYear);
    assert forall l :: 0 <= l < n ==> after.enrollments[l] == db.enrollments[l];
    j := k - n;
  }

  /** A carry-over run makes a target for an account exactly if the account has an enrollment in the one year and
      none in the other, something left, and a policy that is undeleted, has carry-over on and is not capped at
      nothing. The target holds what was left, or the cap if that is less; and for any other account the run
      makes and books nothing. A call whose body names other years is refused without a write. */
  lemma CarryoverMeans(db: Db, fromYear: int, toYear: int, employee: nat, policy: nat)
    ensures var after := RunCarryover(db, fromYear, toYear, fromYear, toYear).0;
      var left := Remaining(db.ledger, employee, policy, fromYear);
      if MayCarry(db, employee, policy, fromYear, toYear) && left > 0 then
        exists j :: 0 <= j < |after.enrollments| - |db.enrollments| && IsTarget(db, after, j, employee, policy)
                    && after.enrollments[|db.enrollments| + j].year == toYear
                    && after.enrollments[|db.enrollments| + j].granted == UpToCap(left, db.policies[policy])
      else Untargeted(db, after, employee, policy) && Untouched(after.ledger, |db.ledger|, employee, policy)
    ensures SignsAgree(db.ledger) ==>
      Remaining(db.ledger, employee, policy, fromYear) == Balance(db.ledger, employee, policy, fromYear)
    ensures forall f, t :: f != fromYear || t != toYear ==>
      RunCarryover(db, fromYear, toYear, f, t) == (db, Failed(YearMismatch))
  {
    var after := CarryFirst(db, |db.enrollments|, fromYear, toYear);
    if SignsAgree(db.ledger) {
      RemainingIsSignedSum(db.ledger, employee, policy, fromYear);
    }
    if MayCarry(db, employee, policy, fromYear, toYear) && Remaining(db.ledger, employee, policy, fromYear) > 0 {
      var j := CarriesWhenItMay(db, fromYear, toYear, employee, policy);
      TargetMeans(db, fromYear, toYear, j);
    } else {
      OthersCarryNothing(db, fromYear, toYear, employee, policy);
    }
  }

  lemma OthersCarryNothing(db: Db, fromYear: int, toYear: int, employee: nat, policy: nat)
    requires !(MayCarry(db, employee, policy, fromYear, toYear) && Remaining(db.ledger, employee, policy, fromYear) > 0)
    ensures var after := CarryFirst(db, |db.enrollments|, fromYear, toYear);
      Untargeted(db, after, employee, policy) && Untouched(after.ledger, |db.ledger|, employee, policy)
  {
    var n := |db.enrollments|;
    var after := CarryFirst(db, n, fromYear, toYear);
    forall i | n <= i < |after.enrollments|
      ensures !(after.enrollments[i].employee == employee && after.enrollments[i].policy == policy)
    {
      TargetMeans(db, fromYear, toYear, i - n);
    }
    forall k | |db.ledger| <= k < |after.ledger|
      ensures !(after.ledger[k].employee == employee && after.ledger[k].policy == policy)
    {
      var j := (k - |db.ledger|) / 2;
      CarryPair(db, n, fromYear, toYear, j);
      assert PairMoved(db, after, j, fromYear, toYear);
      assert k == |db.ledger| + 2 * j || k == |db.ledger| + 2 * j + 1;
    }
  }
}
