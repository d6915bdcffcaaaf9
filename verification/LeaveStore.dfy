/** The leave services over tables they update in place. */
module LeaveStore {
  import opened Wrappers
  import opened Calendar
  import opened LeaveCalc
  import opened LeaveLedger
  import opened LeaveModel
  import Text

  class LeaveTables {
    var employees: map<nat, Employee>
    var policies: seq<Policy>
    var enrollments: seq<Enrollment>
    var requests: seq<Request>
    var ledger: seq<Entry>

    function State(): Db
      reads this
    {
      Db(employees, policies, enrollments, requests, ledger)
    }

    constructor (employees: map<nat, Employee>, policies: seq<Policy>)
      ensures State() == Db(employees, policies, [], [], []) && Fresh(State())
    {
      this.employees := employees;
      this.policies := policies;
      enrollments, requests, ledger := [], [], [];
    }

    method SubmitRequest(actor: nat, employee: nat, policy: nat, start: Date, end: Date, hours: Option<real>)
      returns (reply: Reply)
      modifies this`requests
      ensures (State(), reply) == Submit(old(State()), actor, employee, policy, start, end, hours)
    {
      if employee !in employees || employees[employee].deleted {
        return Failed(NotFound);
      }
      if policy >= |policies| || policies[policy].deleted || !policies[policy].active {
        return Failed(NotFound);
      }
      if !Eligible(employees[employee], policies[policy]) {
        return Failed(Ineligible);
      }
      if OverlapsExisting(requests, employee, start, end) {
        return Failed(Overlap);
      }
      if end < start {
        return Failed(BadRange);
      }
      var days := LeaveDaysInRange(start, end, hours, 8.0, None, Some({}));
      if days.Err? {
        return Failed(OutOfCalendar);
      }
      var enrollment := FindEnrollment(enrollments, employee, policy, YearOf(start));
      requests := requests + [Request(employee, policy, enrollment, start, end, hours, days.value,
                                      Pending, actor, None, None, None)];
      reply := Row(|requests| - 1);
    }

    method ApproveRequest(actor: nat, id: nat) returns (reply: Reply)
      modifies this`requests, this`ledger
      ensures (State(), reply) == Approve(old(State()), actor, id)
    {
      if id >= |requests| {
        return Failed(NotFound);
      }
      var r := requests[id];
      if r.status == Approved {
        return Row(id);
      }
      if !Allowed(r.status, Approved) {
        return Failed(IllegalTransition(r.status, Approved));
      }
      var year := YearOf(r.start);
      var totals := EmployeeLedger(ledger, r.employee, r.policy, year);
      if totals.remaining < r.days {
        return Failed(InsufficientBalance);
      }
      var current := FindEnrollment(enrollments, r.employee, r.policy, year);
      ledger := ledger + [Entry(r.employee, r.policy, current, year, Consumed, -r.days, ForRequest(id), None)];
      requests := requests[id := r.(status := Approved, approvedBy := Some(actor))];
      reply := Row(id);
    }

    method RejectRequest(actor: nat, id: nat) returns (reply: Reply)
      modifies this`requests
      ensures (State(), reply) == Reject(old(State()), actor, id)
    {
      if id >= |requests| {
        return Failed(NotFound);
      }
      var r := requests[id];
      if !Allowed(r.status, Rejected) {
        return Failed(IllegalTransition(r.status, Rejected));
      }
      requests := requests[id := r.(status := Rejected, rejectedBy := Some(actor))];
      reply := Row(id);
    }

    method CancelRequest(actor: nat, id: nat, today: Date) returns (reply: Reply)
      modifies this`requests, this`ledger
      ensures (State(), reply) == Cancel(old(State()), actor, id, today)
    {
      if id >= |requests| {
        return Failed(NotFound);
      }
      var r := requests[id];
      var wasApproved := r.status == Approved;
      if !Allowed(r.status, Cancelled) {
        return Failed(IllegalTransition(r.status, Cancelled));
      }
      if wasApproved {
        var year := YearOf(today);
        var current := FindEnrollment(enrollments, r.employee, r.policy, year);
        ledger := ledger + [Entry(r.employee, r.policy, current, year, Reversal, r.days, ForRequest(id),
            Some(YearOf(r.start)))];
      }
      requests := requests[id := r.(status := Cancelled, cancelledBy := Some(actor))];
      reply := Row(id);
    }

    method EnrollEmployee(employee: nat, policy: nat, year: int) returns (reply: Reply)
      modifies this`enrollments, this`ledger
      ensures (State(), reply) == Enroll(old(State()), employee, policy, year)
    {
      if employee !in employees || employees[employee].deleted {
        return Failed(NotFound);
      }
      if policy >= |policies| || policies[policy].deleted || !policies[policy].active {
        return Failed(NotFound);
      }
      if !Eligible(employees[employee], policies[policy]) {
        return Failed(Ineligible);
      }
      if FindEnrollment(enrollments, employee, policy, year).Some? {
        return Failed(AlreadyEnrolled);
      }
      var granted := AccrueForYear(policies[policy], employees[employee].hired, year);
      if granted.Err? {
        return Failed(OutOfCalendar);
      }
      var id := |enrollments|;
      enrollments := enrollments + [Enrollment(employee, policy, year, granted.value)];
      ledger := ledger + [Entry(employee, policy, Some(id), year, Grant, granted.value, ForEnrollment(id), None)];
      reply := Row(id);
    }

    method RunMonthlyAccrual(m: Month) returns (reply: Reply)
      modifies this`ledger
      ensures (State(), reply) == RunAccrual(old(State()), m)
    {
      if m.year < 1900 || m.month < 1 || m.month > 12 {
        return Failed(InvalidMonth);
      }
      ghost var db := State();
      var count := 0;
      for p := 0 to |policies|
        invariant State() == db.(ledger := AccruePolicies(db, m, p))
        invariant count == |ledger| - |db.ledger|
      {
        if AccruesMonthly(policies[p]) {
          var written := AccrueEnrollments(db, p, m);
          count := count + written;
        }
      }
      reply := Count(count);
    }

    /** The inner loop: offer one policy's chunk to each of its enrollments. */
    method AccrueEnrollments(ghost db: Db, p: nat, m: Month) returns (written: nat)
      requires p < |policies| && State() == db.(ledger := ledger)
      modifies this`ledger
      ensures State() == db.(ledger := AccruePolicy(db, old(ledger), p, m, |db.enrollments|))
      ensures written == |ledger| - |old(ledger)|
    {
      var chunk := MonthlyChunk(policies[p]);
      written := 0;
      for i := 0 to |enrollments|
        invariant State() == db.(ledger := AccruePolicy(db, old(ledger), p, m, i))
        invariant written == |ledger| - |old(ledger)|
      {
        var e := enrollments[i];
        if e.policy == p && e.year == m.leaveYear {
          var existing := Select(AccrualEntries(i, None), ledger);
          var already := AnyFor(existing, AccrualRun(m.year, m.month));
          AlreadyAccrued(ledger, i, m);
          if !already {
            ledger := ledger + [Entry(e.employee, p, Some(i), m.leaveYear, Accrual, chunk,
                AccrualRun(m.year, m.month), None)];
            written := written + 1;
          }
        }
      }
    }

    method RunYearEndCarryover(fromYear: int, toYear: int, targetFrom: int, targetTo: int) returns (reply: Reply)
      modifies this`enrollments, this`ledger
      ensures (State(), reply) == RunCarryover(old(State()), fromYear, toYear, targetFrom, targetTo)
    {
      if targetFrom != fromYear || targetTo != toYear {
        return Failed(YearMismatch);
      }
      ghost var db := State();
      var count, snapshot := 0, |enrollments|;
      for i := 0 to snapshot
        invariant State() == CarryFirst(db, i, fromYear, toYear)
        invariant count == |enrollments| - |db.enrollments|
      {
        assert enrollments[i] == db.enrollments[i];
        var carried := CarryEnrollment(i, fromYear, toYear);
        if carried {
          count := count + 1;
        }
      }
      reply := Count(count);
    }

    /** One turn of the carry-over loop. */
    method CarryEnrollment(i: nat, fromYear: int, toYear: int) returns (carried: bool)
      requires i < |enrollments|
      modifies this`enrollments, this`ledger
      ensures State() == CarryOne(old(State()), i, fromYear, toYear)
      ensures carried == Carries(old(State()), i, fromYear, toYear)
    {
      var e := enrollments[i];
      if e.year != fromYear {
        return false;
      }
      var totals := EmployeeLedger(ledger, e.employee, e.policy, fromYear);
      if e.policy >= |policies| || policies[e.policy].deleted {
        return false;
      }
      var days := CarryoverAmount(totals.remaining, policies[e.policy], None);
      if days <= 0 || FindEnrollment(enrollments, e.employee, e.policy, toYear).Some? {
        return false;
      }
      var id, run := |enrollments|, CarryoverRun(fromYear, toYear);
      enrollments := enrollments + [Enrollment(e.employee, e.policy, toYear, days)];
      var carryOut := Entry(e.employee, e.policy, Some(i), fromYear, CarryoverOut, -days, run, None);
      var carryIn := Entry(e.employee, e.policy, Some(id), toYear, CarryoverIn, days, run, Some(fromYear));
      ledger := ledger + [carryOut, carryIn];
      carried := true;
    }

    method ApplyManualAdjustment(employee: nat, policy: nat, year: int, delta: int, note: string) returns (reply: Reply)
      modifies this`ledger
      ensures (State(), reply) == Adjust(old(State()), employee, policy, year, delta, note)
    {
      if Text.Blank(note) {
        return Failed(NoteRequired);
      }
      if policy >= |policies| || policies[policy].deleted {
        return Failed(NotFound);
      }
      var enrollment := FindEnrollment(enrollments, employee, policy, year);
      ledger := ledger + [Entry(employee, policy, enrollment, year, ManualAdjustment, delta, Manual, None)];
      reply := Row(|ledger| - 1);
    }
  }

  predicate AnyFor(rows: seq<Entry>, run: Reference) {
    exists k :: 0 <= k < |rows| && rows[k].reference == run
  }

  lemma AlreadyAccrued(ledger: seq<Entry>, i: nat, m: Month)
    ensures var existing := Select(AccrualEntries(i, None), ledger);
      AnyFor(existing, RunOf(m)) <==> Accrued(ledger, i, m)
  {
    var existing := Select(AccrualEntries(i, None), ledger);
    SelectMembers(AccrualEntries(i, None), ledger);
    if Accrued(ledger, i, m) {
      var e :| e in ledger && Matches(AccrualEntries(i, Some(RunOf(m))), e);
      assert e in existing;
    }
    forall k | 0 <= k < |existing| && existing[k].reference == RunOf(m)
      ensures Accrued(ledger, i, m)
    {
      assert existing[k] in existing;
      assert Matches(AccrualEntries(i, Some(RunOf(m))), existing[k]);
    }
  }
}
