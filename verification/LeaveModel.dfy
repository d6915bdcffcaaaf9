/** What each leave service does to the database, one whole transaction at a time. */
module LeaveModel {
  import opened Wrappers
  import opened Calendar
  import opened LeaveCalc
  import opened LeaveLedger
  import Text

  // ----- rows -----------------------------------------------------------------------------

  datatype Status = Pending | Approved | Rejected | Cancelled

  datatype Employee = Employee(
    deleted: bool,
    gender: Option<string>,         // in lower case
    civilStatus: Option<string>,    // in lower case
    department: Option<nat>,
    hired: Option<Date>)

  datatype Enrollment = Enrollment(employee: nat, policy: nat, year: int, granted: int)

  datatype Request = Request(
    employee: nat,
    policy: nat,
    enrollment: Option<nat>,
    start: Date,
    end: Date,
    hours: Option<real>,
    days: int,
    status: Status,
    createdBy: nat,
    approvedBy: Option<nat>,
    rejectedBy: Option<nat>,
    cancelledBy: Option<nat>)

  /** Rows are numbered in insertion order; the position is the primary key. */
  datatype Db = Db(
    employees: map<nat, Employee>,
    policies: seq<Policy>,
    enrollments: seq<Enrollment>,
    requests: seq<Request>,
    ledger: seq<Entry>)

  datatype Error =
    | NotFound
    | Ineligible
    | Overlap
    | BadRange
    | OutOfCalendar
    | IllegalTransition(current: Status, target: Status)
    | InsufficientBalance
    | AlreadyEnrolled
    | InvalidMonth
    | YearMismatch
    | NoteRequired

  datatype Reply = Row(id: nat) | Count(n: nat) | Failed(error: Error)

  // ----- lookups --------------------------------------------------------------------------

  predicate IsLive(r: Request) {
    r.status == Pending || r.status == Approved
  }

  predicate Conflicts(r: Request, employee: nat, start: Date, end: Date) {
    r.employee == employee && IsLive(r) && r.start <= end && r.end >= start
  }

  predicate OverlapsOther(requests: seq<Request>, employee: nat, start: Date, end: Date, exclude: Option<nat>) {
    exists i :: 0 <= i < |requests| && Some(i) != exclude && Conflicts(requests[i], employee, start, end)
  }

  predicate OverlapsExisting(requests: seq<Request>, employee: nat, start: Date, end: Date) {
    OverlapsOther(requests, employee, start, end, None)
  }

  predicate ActivePolicy(db: Db, policy: nat) {
    policy < |db.policies| && !db.policies[policy].deleted && db.policies[policy].active
  }

  predicate KnownEmployee(db: Db, employee: nat) {
    employee in db.employees && !db.employees[employee].deleted
  }

  predicate Eligible(e: Employee, p: Policy) {
    && (p.gender.Some? && e.gender.Some? ==> e.gender == p.gender)
    && (p.maritalStatus.Some? && e.civilStatus.Some? ==> e.civilStatus == p.maritalStatus)
    && (p.departments != [] && e.department.Some? ==> e.department.value in p.departments)
  }

  predicate Enrolls(e: Enrollment, employee: nat, policy: nat, year: int) {
    e.employee == employee && e.policy == policy && e.year == year
  }

  function FindEnrollment(enrollments: seq<Enrollment>, employee: nat, policy: nat, year: int): (r: Option<nat>)
    ensures r.Some? ==> r.value < |enrollments| && Enrolls(enrollments[r.value], employee, policy, year)
    ensures r.None? ==> forall i :: 0 <= i < |enrollments| ==> !Enrolls(enrollments[i], employee, policy, year)
  {
    if enrollments == [] then None
    else
      var n := |enrollments| - 1;
      var earlier := FindEnrollment(enrollments[..n], employee, policy, year);
      if earlier.Some? then earlier
      else if Enrolls(enrollments[n], employee, policy, year) then Some(n) else None
  }

  predicate Allowed(current: Status, target: Status) {
    match current
    case Pending => target != Pending
    case Approved => target == Cancelled
    case _ => false
  }

  // ----- requests -------------------------------------------------------------------------

  /** A working day is 8.0 hours; no holidays and no schedule of the employee's own are passed. */
  function Submit(db: Db, actor: nat, employee: nat, policy: nat, start: Date, end: Date, hours: Option<real>)
    : (Db, Reply)
  {
    if !KnownEmployee(db, employee) then (db, Failed(NotFound))
    else if !ActivePolicy(db, policy) then (db, Failed(NotFound))
    else if !Eligible(db.employees[employee], db.policies[policy]) then (db, Failed(Ineligible))
    else if OverlapsExisting(db.requests, employee, start, end) then (db, Failed(Overlap))
    else if end < start then (db, Failed(BadRange))
    else
      var days := LeaveDays(start, end, hours, 8.0, None, Some({}));
      if days.Err? then (db, Failed(OutOfCalendar))
      else
        var r := Request(employee, policy, FindEnrollment(db.enrollments, employee, policy, YearOf(start)),
                         start, end, hours, days.value, Pending, actor, None, None, None);
        (db.(requests := db.requests + [r]), Row(|db.requests|))
  }

  function ConsumedEntry(db: Db, id: nat): Entry
    requires id < |db.requests|
  {
    var r := db.requests[id];
    var year := YearOf(r.start);
    Entry(r.employee, r.policy, FindEnrollment(db.enrollments, r.employee, r.policy, year), year,
          Consumed, -r.days, ForRequest(id), None)
  }

  function ReversalEntry(db: Db, id: nat, today: Date): Entry
    requires id < |db.requests|
  {
    var r := db.requests[id];
    var year := YearOf(today);
    Entry(r.employee, r.policy, FindEnrollment(db.enrollments, r.employee, r.policy, year), year,
          Reversal, r.days, ForRequest(id), Some(YearOf(r.start)))
  }

  function Approve(db: Db, actor: nat, id: nat): (Db, Reply) {
    if id >= |db.requests| then (db, Failed(NotFound))
    else
      var r := db.requests[id];
      if r.status == Approved then (db, Row(id))
      else if !Allowed(r.status, Approved) then (db, Failed(IllegalTransition(r.status, Approved)))
      else if Remaining(db.ledger, r.employee, r.policy, YearOf(r.start)) < r.days
          then (db, Failed(InsufficientBalance))
      else
        (db.(ledger := db.ledger + [ConsumedEntry(db, id)],
             requests := db.requests[id := r.(status := Approved, approvedBy := Some(actor))]), Row(id))
  }

  function Reject(db: Db, actor: nat, id: nat): (Db, Reply) {
    if id >= |db.requests| then (db, Failed(NotFound))
    else
      var r := db.requests[id];
      if !Allowed(r.status, Rejected) then (db, Failed(IllegalTransition(r.status, Rejected)))
      else (db.(requests := db.requests[id := r.(status := Rejected, rejectedBy := Some(actor))]), Row(id))
  }

  function Cancel(db: Db, actor: nat, id: nat, today: Date): (Db, Reply) {
    if id >= |db.requests| then (db, Failed(NotFound))
    else
      var r := db.requests[id];
      if !Allowed(r.status, Cancelled) then (db, Failed(IllegalTransition(r.status, Cancelled)))
      else
        (db.(ledger := if r.status == Approved then db.ledger + [ReversalEntry(db, id, today)] else db.ledger,
             requests := db.requests[id := r.(status := Cancelled, cancelledBy := Some(actor))]), Row(id))
  }

  // ----- enrollment -----------------------------------------------------------------------

  function Enroll(db: Db, employee: nat, policy: nat, year: int): (Db, Reply) {
    if !KnownEmployee(db, employee) then (db, Failed(NotFound))
    else if !ActivePolicy(db, policy) then (db, Failed(NotFound))
    else if !Eligible(db.employees[employee], db.policies[policy]) then (db, Failed(Ineligible))
    else if FindEnrollment(db.enrollments, employee, policy, year).Some? then (db, Failed(AlreadyEnrolled))
    else
      var granted := AccrueForYear(db.policies[policy], db.employees[employee].hired, year);
      if granted.Err? then (db, Failed(OutOfCalendar))
      else
        var id := |db.enrollments|;
        (db.(enrollments := db.enrollments + [Enrollment(employee, policy, year, granted.value)],
             ledger := db.ledger + [Entry(employee, policy, Some(id), year, Grant, granted.value, ForEnrollment(id),
                 None)]),
         Row(id))
  }

  // ----- monthly accrual ------------------------------------------------------------------

  /** The year whose enrollments accrue and the month accrued for. */
  datatype Month = Month(leaveYear: int, year: int, month: int)

  function RunOf(m: Month): Reference {
    AccrualRun(m.year, m.month)
  }

  predicate Accrued(ledger: seq<Entry>, enrollment: nat, m: Month) {
    exists e :: e in ledger && Matches(AccrualEntries(enrollment, Some(RunOf(m))), e)
  }

  function AccrualEntry(db: Db, enrollment: nat, m: Month): Entry
    requires enrollment < |db.enrollments| && db.enrollments[enrollment].policy < |db.policies|
  {
    var e := db.enrollments[enrollment];
    Entry(e.employee, e.policy, Some(enrollment), m.leaveYear, Accrual, MonthlyChunk(db.policies[e.policy]),
        RunOf(m), None)
  }

  /** The ledger once the first n enrollments have been offered policy p's chunk for the month. */
  function AccruePolicy(db: Db, ledger: seq<Entry>, p: nat, m: Month, n: nat): (r: seq<Entry>)
    requires p < |db.policies| && n <= |db.enrollments|
    ensures ledger <= r
  {
    if n == 0 then ledger
    else
      var before := AccruePolicy(db, ledger, p, m, n - 1);
      var e := db.enrollments[n - 1];
      if e.policy == p && e.year == m.leaveYear && !Accrued(before, n - 1, m)
      then before + [AccrualEntry(db, n - 1, m)] else before
  }

  predicate AccruesMonthly(p: Policy) {
    !p.deleted && p.active && p.monthly
  }

  /** The ledger once the first n policies have accrued for the month. */
  function AccruePolicies(db: Db, m: Month, n: nat): (r: seq<Entry>)
    requires n <= |db.policies|
    ensures db.ledger <= r
  {
    if n == 0 then db.ledger
    else
      var before := AccruePolicies(db, m, n - 1);
      if AccruesMonthly(db.policies[n - 1]) then AccruePolicy(db, before, n - 1, m, |db.enrollments|) else before
  }

  predicate ValidMonth(m: Month) {
    1900 <= m.year && 1 <= m.month <= 12
  }

  function RunAccrual(db: Db, m: Month): (Db, Reply) {
    if !ValidMonth(m) then (db, Failed(InvalidMonth))
    else
      var ledger := AccruePolicies(db, m, |db.policies|);
      (db.(ledger := ledger), Count(|ledger| - |db.ledger|))
  }

  // ----- year-end carry-over --------------------------------------------------------------

  /** What enrollment i would carry out of its year now. */
  function CarryAmount(db: Db, i: nat, fromYear: int): int
    requires i < |db.enrollments|
  {
    var e := db.enrollments[i];
    if e.policy >= |db.policies| || db.policies[e.policy].deleted then 0
    else CarryoverAmount(Remaining(db.ledger, e.employee, e.policy, fromYear), db.policies[e.policy], None)
  }

  predicate Carries(db: Db, i: nat, fromYear: int, toYear: int)
    requires i < |db.enrollments|
  {
    var e := db.enrollments[i];
    e.year == fromYear && CarryAmount(db, i, fromYear) > 0
    && FindEnrollment(db.enrollments, e.employee, e.policy, toYear).None?
  }

  function CarryOne(db: Db, i: nat, fromYear: int, toYear: int): Db
    requires i < |db.enrollments|
  {
    if !Carries(db, i, fromYear, toYear) then db
    else
      var e, days, id := db.enrollments[i], CarryAmount(db, i, fromYear), |db.enrollments|;
      var run := CarryoverRun(fromYear, toYear);
      db.(enrollments := db.enrollments + [Enrollment(e.employee, e.policy, toYear, days)],
          ledger := db.ledger + [
            Entry(e.employee, e.policy, Some(i), fromYear, CarryoverOut, -days, run, None),
            Entry(e.employee, e.policy, Some(id), toYear, CarryoverIn, days, run, Some(fromYear))])
  }

  /** The database once the first n enrollments have been considered. */
  function CarryFirst(db: Db, n: nat, fromYear: int, toYear: int): (r: Db)
    requires n <= |db.enrollments|
    ensures db.enrollments <= r.enrollments && db.ledger <= r.ledger
    ensures r == db.(enrollments := r.enrollments, ledger := r.ledger)
    ensures |r.ledger| - |db.ledger| == 2 * (|r.enrollments| - |db.enrollments|)
  {
    if n == 0 then db else CarryOne(CarryFirst(db, n - 1, fromYear, toYear), n - 1, fromYear, toYear)
  }

  function RunCarryover(db: Db, fromYear: int, toYear: int, targetFrom: int, targetTo: int): (Db, Reply) {
    if targetFrom != fromYear || targetTo != toYear then (db, Failed(YearMismatch))
    else
      var after := CarryFirst(db, |db.enrollments|, fromYear, toYear);
      (after, Count(|after.enrollments| - |db.enrollments|))
  }

  // ----- adjustment -----------------------------------------------------------------------

  function Adjust(db: Db, employee: nat, policy: nat, year: int, delta: int, note: string): (Db, Reply) {
    if Text.Blank(note) then (db, Failed(NoteRequired))
    else if policy >= |db.policies| || db.policies[policy].deleted then (db, Failed(NotFound))
    else
      var entry := Entry(employee, policy, FindEnrollment(db.enrollments, employee, policy, year), year,
                         ManualAdjustment, delta, Manual, None);
      (db.(ledger := db.ledger + [entry]), Row(|db.ledger|))
  }

  // ----- runs -----------------------------------------------------------------------------

  /** One call to a service. The last two stand for everything the policy and employee screens can
      do to the rows the services read. */
  datatype Op =
    | SubmitOp(actor: nat, employee: nat, policy: nat, start: Date, end: Date, hours: Option<real>)
    | ApproveOp(actor: nat, request: nat)
    | RejectOp(actor: nat, request: nat)
    | CancelOp(actor: nat, request: nat, today: Date)
    | EnrollOp(employee: nat, policy: nat, year: int)
    | AccrualOp(month: Month)
    | CarryoverOp(fromYear: int, toYear: int, targetFrom: int, targetTo: int)
    | AdjustOp(employee: nat, policy: nat, year: int, delta: int, note: string)
    | PolicyEdit(policy: nat, row: Policy)
    | EmployeeEdit(employee: nat, person: Employee)

  function Call(db: Db, op: Op): (Db, Reply) {
    match op
    case SubmitOp(a, e, p, s, t, h) => Submit(db, a, e, p, s, t, h)
    case ApproveOp(a, i) => Approve(db, a, i)
    case RejectOp(a, i) => Reject(db, a, i)
    case CancelOp(a, i, today) => Cancel(db, a, i, today)
    case EnrollOp(e, p, y) => Enroll(db, e, p, y)
    case AccrualOp(m) => RunAccrual(db, m)
    case CarryoverOp(f, t, tf, tt) => RunCarryover(db, f, t, tf, tt)
    case AdjustOp(e, p, y, delta, note) => Adjust(db, e, p, y, delta, note)
    case PolicyEdit(p, policy) =>
      if p < |db.policies| then (db.(policies := db.policies[p := policy]), Row(p))
      else (db.(policies := db.policies + [policy]), Row(|db.policies|))
    case EmployeeEdit(e, person) => (db.(employees := db.employees[e := person]), Row(e))
  }

  function Step(db: Db, op: Op): Db {
    Call(db, op).0
  }

  function Run(db: Db, ops: seq<Op>): Db {
    if ops == [] then db else Step(Run(db, ops[..|ops| - 1]), ops[|ops| - 1])
  }

  /** No request, enrollment or entry yet; any employees and policies. */
  predicate Fresh(db: Db) {
    db.requests == [] && db.enrollments == [] && db.ledger == []
  }
}
