/** Punch records: keyed creates, soft deletes and the reconciliation of import keys. */
module Attendance {
  import opened Wrappers
  import Text

  // ----- input ----------------------------------------------------------------------------

  /** A wall-clock time in microseconds, with its offset from UTC when it carries one. */
  datatype Timestamp = Naive(local: int) | Aware(local: int, offset: int)

  /** _as_utc: the instant, naive times being UTC by convention. */
  function Instant(t: Timestamp): int {
    match t
    case Naive(local) => local
    case Aware(local, offset) => local - offset
  }

  datatype Punch = Punch(
    employeeId: Option<nat>,
    employeeCode: Option<string>,
    shiftId: Option<nat>,
    shiftCode: Option<string>,
    login: Timestamp,
    logout: Timestamp,
    sourceRef: Option<string>)

  /** An employee or a shift: what the lookups see of it. The position in its table is its id. */
  datatype Named = Named(code: string, deleted: bool)

  datatype Directory = Directory(employees: seq<Named>, shifts: seq<Named>)

  function FindCode(table: seq<Named>, code: string): (r: Option<nat>)
    ensures r.Some? ==> r.value < |table| && table[r.value].code == code && !table[r.value].deleted
    ensures r.None? ==> forall i :: 0 <= i < |table| ==> table[i].code != code || table[i].deleted
  {
    if table == [] then None
    else
      var n := |table| - 1;
      var earlier := FindCode(table[..n], code);
      if earlier.Some? then earlier
      else if table[n].code == code && !table[n].deleted then Some(n) else None
  }

  predicate Exists(table: seq<Named>, id: nat) {
    id < |table| && !table[id].deleted
  }

  // ----- rows -----------------------------------------------------------------------------

  datatype Record = Record(
    employee: nat,
    shift: Option<nat>,
    login: int,
    logout: int,
    sourceRef: Option<string>,
    deleted: bool)

  datatype Refusal =
    | BlankKey
    | NoEmployeeGiven
    | EmployeeNotFound
    | ShiftNotFound
    | TimesNotComparable      // one time with an offset, one without: the comparison itself fails
    | TimesOutOfOrder
    | KeyConflict             // the key's active row was made from other input
    | KeyDeleted              // the key's row was deliberately deleted
    | LostRace                // a concurrent request committed other input under the key
    | IntegrityFailure        // the insert collided, and the winner is gone again

  datatype Outcome = Created(id: nat) | Replayed(id: nat) | Refused(refusal: Refusal)

  /** Everything create_dtr checks before it looks at the key, in its order. */
  function Resolve(dir: Directory, p: Punch): Result<Record, Refusal> {
    if p.sourceRef.Some? && Text.Blank(p.sourceRef.value) then Err(BlankKey)
    else if p.employeeId.None? && p.employeeCode.None? then Err(NoEmployeeGiven)
    else
      var employee := if p.employeeId.Some? then p.employeeId else FindCode(dir.employees, p.employeeCode.value);
      if employee.None? || !Exists(dir.employees, employee.value) then Err(EmployeeNotFound)
      else
        var shift := if p.shiftId.Some? then p.shiftId
                     else if p.shiftCode.Some? then FindCode(dir.shifts, p.shiftCode.value) else None;
        if p.shiftId.Some? && !Exists(dir.shifts, shift.value) then Err(ShiftNotFound)
        else if p.shiftId.None? && p.shiftCode.Some? && shift.None? then Err(ShiftNotFound)
        else if p.login.Naive? != p.logout.Naive? then Err(TimesNotComparable)
        else if Instant(p.login) >= Instant(p.logout) then Err(TimesOutOfOrder)
        else Ok(Record(employee.value, shift, Instant(p.login), Instant(p.logout), p.sourceRef, false))
  }

  /** The replay guard: same instants, same shift. */
  predicate SamePunch(existing: Record, wanted: Record) {
    existing.login == wanted.login && existing.logout == wanted.logout && existing.shift == wanted.shift
  }

  predicate Keyed(r: Record, employee: nat, key: string) {
    r.employee == employee && r.sourceRef == Some(key)
  }

  /** The first row of the key that is, or is not, deleted. */
  function FindKey(records: seq<Record>, employee: nat, key: string, deleted: bool): (r: Option<nat>)
    ensures r.Some? ==>
      r.value < |records| && Keyed(records[r.value], employee, key) && records[r.value].deleted == deleted
    ensures r.None? ==>
      forall i :: 0 <= i < |records| ==> Keyed(records[i], employee, key) ==> records[i].deleted != deleted
  {
    if records == [] then None
    else
      var n := |records| - 1;
      var earlier := FindKey(records[..n], employee, key, deleted);
      if earlier.Some? then earlier
      else if Keyed(records[n], employee, key) && records[n].deleted == deleted then Some(n) else None
  }

  /** create_dtr when nothing else runs. */
  function Create(records: seq<Record>, dir: Directory, p: Punch): (seq<Record>, Outcome) {
    var resolved := Resolve(dir, p);
    if resolved.Err? then (records, Refused(resolved.error))
    else
      var wanted := resolved.value;
      if wanted.sourceRef.None? then (records + [wanted], Created(|records|))
      else
        var active := FindKey(records, wanted.employee, wanted.sourceRef.value, false);
        if active.Some? then
          (records, if SamePunch(records[active.value], wanted) then Replayed(active.value) else Refused(KeyConflict))
        else if FindKey(records, wanted.employee, wanted.sourceRef.value, true).Some?
            then (records, Refused(KeyDeleted))
        else (records + [wanted], Created(|records|))
  }

  // ----- reconciliation -------------------------------------------------------------------

  datatype ImportKey = ImportKey(employeeCode: string, sourceRef: string)

  datatype Verdict = Committed(id: nat) | Deleted | NotFound | Unresolved

  /** Who is asking: a superuser sees everyone, anyone else at most the employee linked to them. */
  datatype Caller = Superuser | Linked(employee: nat) | Unlinked

  predicate Visible(caller: Caller, employee: nat) {
    caller == Superuser || caller == Linked(employee)
  }

  function VerdictOn(records: seq<Record>, dir: Directory, caller: Caller, k: ImportKey): Verdict {
    var employee := FindCode(dir.employees, k.employeeCode);
    if employee.None? || !Visible(caller, employee.value) then Unresolved
    else
      var active := FindKey(records, employee.value, k.sourceRef, false);
      if active.Some? then Committed(active.value)
      else if FindKey(records, employee.value, k.sourceRef, true).Some? then Deleted else NotFound
  }

  function CountUnresolved(verdicts: seq<Verdict>): nat {
    if verdicts == [] then 0
    else CountUnresolved(verdicts[..|verdicts| - 1]) + if verdicts[|verdicts| - 1].Unresolved? then 1 else 0
  }

  lemma {:induction false} AllUnresolved(verdicts: seq<Verdict>)
    requires forall i :: 0 <= i < |verdicts| ==> verdicts[i] == Unresolved
    ensures CountUnresolved(verdicts) == |verdicts|
  {
    if verdicts != [] {
      AllUnresolved(verdicts[..|verdicts| - 1]);
    }
  }

  lemma CountAppend(verdicts: seq<Verdict>, v: Verdict)
    ensures CountUnresolved(verdicts + [v]) == CountUnresolved(verdicts) + if v.Unresolved? then 1 else 0
  {
    assert (verdicts + [v])[..|verdicts|] == verdicts;
  }

  class DailyTimeRecords {
    var records: seq<Record>
    var dir: Directory

    constructor (dir: Directory)
      ensures this.dir == dir && records == []
    {
      this.dir := dir;
      records := [];
    }

    method CreateDtr(p: Punch) returns (outcome: Outcome)
      modifies this`records
      ensures (records, outcome) == Create(old(records), dir, p)
    {
      var resolved := Resolve(dir, p);
      if resolved.Err? {
        return Refused(resolved.error);
      }
      var wanted := resolved.value;
      if wanted.sourceRef.Some? {
        var existing := FindKey(records, wanted.employee, wanted.sourceRef.value, false);
        if existing.Some? {
          if SamePunch(records[existing.value], wanted) {
            return Replayed(existing.value);
          }
          return Refused(KeyConflict);
        }
        if FindKey(records, wanted.employee, wanted.sourceRef.value, true).Some? {
          return Refused(KeyDeleted);
        }
      }
      records := records + [wanted];
      outcome := Created(|records| - 1);
    }

    /** False when there is no active row to delete. */
    method SoftDelete(id: nat) returns (found: bool)
      modifies this`records
      ensures found == (id < |old(records)| && !old(records)[id].deleted)
      ensures records == if found then old(records)[id := old(records)[id].(deleted := true)] else old(records)
    {
      if id >= |records| || records[id].deleted {
        return false;
      }
      records := records[id := records[id].(deleted := true)];
      found := true;
    }

    /** One turn of the verdict loop, for a caller who is somebody. */
    method Settle(caller: Caller, k: ImportKey) returns (verdict: Verdict)
      requires caller != Unlinked
      ensures verdict == VerdictOn(records, dir, caller, k)
    {
      var employee := FindCode(dir.employees, k.employeeCode);
      if employee.None? || (caller.Linked? && employee.value != caller.employee) {
        return Unresolved;
      }
      var active := FindKey(records, employee.value, k.sourceRef, false);
      if active.Some? {
        return Committed(active.value);
      }
      var deleted := FindKey(records, employee.value, k.sourceRef, true);
      verdict := if deleted.Some? then Deleted else NotFound;
    }

    /** One verdict for each key, in the keys' order, and how many of them settled nothing. */
    method Reconcile(caller: Caller, keys: seq<ImportKey>) returns (verdicts: seq<Verdict>, unresolved: nat)
      ensures |verdicts| == |keys|
      ensures forall i :: 0 <= i < |keys| ==> verdicts[i] == VerdictOn(records, dir, caller, keys[i])
      ensures unresolved == CountUnresolved(verdicts)
    {
      if caller == Unlinked {
        verdicts := seq(|keys|, _ => Unresolved);
        AllUnresolved(verdicts);
        return verdicts, |keys|;
      }
      verdicts, unresolved := [], 0;
      for i := 0 to |keys|
        invariant |verdicts| == i
        invariant forall j :: 0 <= j < i ==> verdicts[j] == VerdictOn(records, dir, caller, keys[j])
        invariant unresolved == CountUnresolved(verdicts)
      {
        var verdict := Settle(caller, keys[i]);
        if verdict == Unresolved {
          unresolved := unresolved + 1;
        }
        CountAppend(verdicts, verdict);
        verdicts := verdicts + [verdict];
      }
    }
  }

  /** The request carries the key, and names the key's employee by id or by code. */
  predicate CarriesKey(dir: Directory, p: Punch, k: ImportKey) {
    p.sourceRef == Some(k.sourceRef)
    && if p.employeeId.Some? then FindCode(dir.employees, k.employeeCode) == p.employeeId
       else p.employeeCode == Some(k.employeeCode)
  }

  /** A verdict tells beforehand what an import under the same key will meet: a committed key is never
      inserted again, a deleted key is refused, and a key not found is inserted - provided the request
      is valid in itself. */
  lemma VerdictPredictsCreate(records: seq<Record>, dir: Directory, caller: Caller, k: ImportKey, p: Punch)
    requires CarriesKey(dir, p, k)
    ensures var (after, outcome) := Create(records, dir, p);
      match VerdictOn(records, dir, caller, k)
      case Committed(id) =>
        after == records && id < |records| && !records[id].deleted
        && (Resolve(dir, p).Ok? ==>
              outcome == if SamePunch(records[id], Resolve(dir, p).value) then Replayed(id) else Refused(KeyConflict))
      case Deleted => after == records && (Resolve(dir, p).Ok? ==> outcome == Refused(KeyDeleted))
      case NotFound =>
        if Resolve(dir, p).Ok? then after == records + [Resolve(dir, p).value] && outcome == Created(|records|)
        else after == records
      case Unresolved => FindCode(dir.employees, k.employeeCode).None? ==> after == records && outcome.Refused?
  {
  }

  // ----- what a create stores, and when it is refused -------------------------------------

  /** The time is this UTC instant: as written when it carries no offset, else less its offset. */
  predicate At(t: Timestamp, utc: int) {
    match t
    case Naive(local) => utc == local
    case Aware(local, offset) => local == utc + offset
  }

  /** e is the undeleted employee the punch names: by id, or else by code. */
  predicate IsEmployee(dir: Directory, p: Punch, e: nat) {
    && e < |dir.employees| && !dir.employees[e].deleted
    && (p.employeeId == Some(e) || (p.employeeId == None && p.employeeCode == Some(dir.employees[e].code)))
  }

  /** s is the undeleted shift the punch names, by id or else by code; none when it names none. */
  predicate IsShift(dir: Directory, p: Punch, s: Option<nat>) {
    match s
    case None => p.shiftId == None && p.shiftCode == None
    case Some(i) =>
      && i < |dir.shifts| && !dir.shifts[i].deleted
      && (p.shiftId == Some(i) || (p.shiftId == None && p.shiftCode == Some(dir.shifts[i].code)))
  }

  /** The row is the punch's: its employee and shift, its own instants, its key. */
  predicate IsRowOf(dir: Directory, p: Punch, r: Record) {
    && IsEmployee(dir, p, r.employee) && IsShift(dir, p, r.shift)
    && At(p.login, r.login) && At(p.logout, r.logout) && r.login < r.logout
    && r.sourceRef == p.sourceRef && !r.deleted
  }

  predicate HasBlankKey(p: Punch) {
    p.sourceRef.Some? && forall i :: 0 <= i < |p.sourceRef.value| ==> Text.IsSpace(p.sourceRef.value[i])
  }

  predicate NamesNobody(p: Punch) {
    p.employeeId == None && p.employeeCode == None
  }

  ghost predicate KnowsEmployee(dir: Directory, p: Punch) {
    exists e: nat :: IsEmployee(dir, p, e)
  }

  ghost predicate KnowsShift(dir: Directory, p: Punch) {
    exists s: Option<nat> :: IsShift(dir, p, s)
  }

  predicate Comparable(p: Punch) {
    (p.login.Naive? && p.logout.Naive?) || (p.login.Aware? && p.logout.Aware?)
  }

  ghost predicate InOrder(p: Punch) {
    exists from, to :: At(p.login, from) && At(p.logout, to) && from < to
  }

  /** The punch passes every check that does not concern its key's rows. */
  ghost predicate IsValid(dir: Directory, p: Punch) {
    !HasBlankKey(p) && KnowsEmployee(dir, p) && KnowsShift(dir, p) && Comparable(p) && InOrder(p)
  }

  lemma EmployeeResolves(dir: Directory, p: Punch)
    requires !NamesNobody(p)
    ensures var e := if p.employeeId.Some? then p.employeeId else FindCode(dir.employees, p.employeeCode.value);
      if e.Some? && Exists(dir.employees, e.value) then IsEmployee(dir, p, e.value) else !KnowsEmployee(dir, p)
  {
  }

  lemma ShiftResolves(dir: Directory, p: Punch)
    ensures var s := if p.shiftId.Some? then p.shiftId
                     else if p.shiftCode.Some? then FindCode(dir.shifts, p.shiftCode.value) else None;
      if (p.shiftId.Some? && !Exists(dir.shifts, s.value)) || (p.shiftId.None? && p.shiftCode.Some? && s.None?)
      then !KnowsShift(dir, p) else IsShift(dir, p, s)
  {
    if p.shiftId.None? && p.shiftCode.None? {
      assert IsShift(dir, p, None);
    }
  }

  lemma InstantIs(t: Timestamp)
    ensures At(t, Instant(t)) && forall utc :: At(t, utc) ==> utc == Instant(t)
  {
  }

  /** Each refusal of the input has exactly its own reason, in the order of the checks; and what passes
      them all becomes a row of the punch. */
  lemma ResolveMeans(dir: Directory, p: Punch)
    ensures var r := Resolve(dir, p);
      && (r == Err(BlankKey) <==> HasBlankKey(p))
      && (r == Err(NoEmployeeGiven) <==> !HasBlankKey(p) && NamesNobody(p))
      && (r == Err(EmployeeNotFound) <==> !HasBlankKey(p) && !NamesNobody(p) && !KnowsEmployee(dir, p))
      && (r == Err(ShiftNotFound) <==> !HasBlankKey(p) && KnowsEmployee(dir, p) && !KnowsShift(dir, p))
      && (r == Err(TimesNotComparable) <==>
            !HasBlankKey(p) && KnowsEmployee(dir, p) && KnowsShift(dir, p) && !Comparable(p))
      && (r == Err(TimesOutOfOrder) <==>
            !HasBlankKey(p) && KnowsEmployee(dir, p) && KnowsShift(dir, p) && Comparable(p) && !InOrder(p))
      && (r.Ok? <==> IsValid(dir, p))
      && (r.Ok? ==> IsRowOf(dir, p, r.value))
  {
    if !NamesNobody(p) {
      EmployeeResolves(dir, p);
    }
    ShiftResolves(dir, p);
    InstantIs(p.login);
    InstantIs(p.logout);
  }

  /** Row i carries the punch's key for its employee. */
  predicate HoldsKey(dir: Directory, records: seq<Record>, p: Punch, i: nat)
    requires i < |records|
  {
    p.sourceRef.Some? && records[i].sourceRef == p.sourceRef && IsEmployee(dir, p, records[i].employee)
  }

  /** The unique constraint on codes. */
  predicate UniqueCodes(table: seq<Named>) {
    forall i, j :: 0 <= i < j < |table| ==> table[i].code != table[j].code
  }

  /** When a create is refused for its input: each refusal has exactly its own reason, in the order of the
      checks, and writes nothing. */
  lemma CreateRefuses(records: seq<Record>, dir: Directory, p: Punch)
    ensures var (after, outcome) := Create(records, dir, p);
      var keyOk, employeeOk := !HasBlankKey(p), !HasBlankKey(p) && KnowsEmployee(dir, p);
      && (outcome == Refused(BlankKey) <==> HasBlankKey(p))
      && (outcome == Refused(NoEmployeeGiven) <==> keyOk && NamesNobody(p))
      && (outcome == Refused(EmployeeNotFound) <==> keyOk && !NamesNobody(p) && !KnowsEmployee(dir, p))
      && (outcome == Refused(ShiftNotFound) <==> employeeOk && !KnowsShift(dir, p))
      && (outcome == Refused(TimesNotComparable) <==> employeeOk && KnowsShift(dir, p) && !Comparable(p))
      && (outcome == Refused(TimesOutOfOrder) <==>
            employeeOk && KnowsShift(dir, p) && Comparable(p) && !InOrder(p))
      && (outcome.Refused? ==> after == records)
  {
    ResolveMeans(dir, p);
  }

  /** What a create does, from the punch and the table alone. It inserts exactly if the punch is valid and no
      row, deleted or not, holds its key; it is refused as deleted exactly if only deleted rows hold it; and
      otherwise an active row decides: the punch is replayed if the row is the punch's, and in conflict if
      not. A created or replayed row is the punch's own, and nothing but an insert changes the table. */
  lemma CreateMeans(records: seq<Record>, dir: Directory, p: Punch)
    requires UniqueCodes(dir.employees) && UniqueCodes(dir.shifts)
    ensures var (after, outcome) := Create(records, dir, p);
      var valid := IsValid(dir, p);
      var held := exists i :: 0 <= i < |records| && HoldsKey(dir, records, p, i);
      var active := exists i :: 0 <= i < |records| && HoldsKey(dir, records, p, i) && !records[i].deleted;
      && (outcome.Created? <==> valid && !held)
      && (outcome.Created? ==> outcome.id == |records| && |after| == |records| + 1 && after[..|records|] == records
                               && IsRowOf(dir, p, after[|records|]))
      && (!outcome.Created? ==> after == records)
      && (outcome == Refused(KeyDeleted) <==> valid && held && !active)
      && (outcome.Replayed? || outcome == Refused(KeyConflict) <==> valid && active)
      && (outcome.Replayed? ==> outcome.id < |records| && HoldsKey(dir, records, p, outcome.id)
                                && IsRowOf(dir, p, records[outcome.id]))
      && (outcome == Refused(KeyConflict) ==>
            exists i :: 0 <= i < |records| && HoldsKey(dir, records, p, i) && !records[i].deleted
                        && !IsRowOf(dir, p, records[i]))
  {
    ResolveMeans(dir, p);
    if IsValid(dir, p) && p.sourceRef.Some? {
      var wanted := Resolve(dir, p).value;
      forall i | 0 <= i < |records|
        ensures HoldsKey(dir, records, p, i) <==> Keyed(records[i], wanted.employee, p.sourceRef.value)
        ensures IsRowOf(dir, p, records[i]) && HoldsKey(dir, records, p, i) ==> SamePunch(records[i], wanted)
      {
        RowsOfOnePunch(dir, p, wanted, records[i]);
      }
    }
  }

  /** With unique codes a punch has one row, as far as anything but its deletion goes. */
  lemma RowsOfOnePunch(dir: Directory, p: Punch, r: Record, s: Record)
    requires UniqueCodes(dir.employees) && UniqueCodes(dir.shifts) && IsRowOf(dir, p, r)
    ensures IsEmployee(dir, p, s.employee) <==> s.employee == r.employee
    ensures IsRowOf(dir, p, s) <==> s == r
  {
  }

  // ----- what a verdict means -------------------------------------------------------------

  /** The caller may see the undeleted employee e, who has the key's code. */
  predicate MaySee(dir: Directory, caller: Caller, k: ImportKey, e: nat) {
    && e < |dir.employees| && !dir.employees[e].deleted && dir.employees[e].code == k.employeeCode
    && (caller == Superuser || caller == Linked(e))
  }

  /** Row i was imported under the key for such an employee. */
  predicate IsImported(records: seq<Record>, dir: Directory, caller: Caller, k: ImportKey, i: nat)
    requires i < |records|
  {
    records[i].sourceRef == Some(k.sourceRef) && MaySee(dir, caller, k, records[i].employee)
  }

  /** Each verdict from the table alone: unresolved exactly if the caller may see no employee of that code;
      else committed with an active row under the key if there is one, deleted if only deleted rows are under
      it, and not found if none is. */
  lemma VerdictMeans(records: seq<Record>, dir: Directory, caller: Caller, k: ImportKey)
    requires UniqueCodes(dir.employees)
    ensures var v := VerdictOn(records, dir, caller, k);
      var seen := exists e: nat :: MaySee(dir, caller, k, e);
      var held := exists i :: 0 <= i < |records| && IsImported(records, dir, caller, k, i);
      var active := exists i :: 0 <= i < |records| && IsImported(records, dir, caller, k, i) && !records[i].deleted;
      && (v == Unresolved <==> !seen)
      && (v.Committed? <==> active)
      && (v.Committed? ==> v.id < |records| && IsImported(records, dir, caller, k, v.id) && !records[v.id].deleted)
      && (v == Deleted <==> held && !active)
      && (v == NotFound <==> seen && !held)
  {
    var e := FindCode(dir.employees, k.employeeCode);
    if e.Some? {
      assert Visible(caller, e.value) <==> MaySee(dir, caller, k, e.value);
      forall i | 0 <= i < |records| && Visible(caller, e.value)
        ensures IsImported(records, dir, caller, k, i) <==> Keyed(records[i], e.value, k.sourceRef)
      {
      }
    }
  }

  /** The count is the number of keys left unresolved. */
  lemma {:induction false} UnresolvedCounts(verdicts: seq<Verdict>)
    ensures CountUnresolved(verdicts) == |set i | 0 <= i < |verdicts| && verdicts[i] == Unresolved|
  {
    if verdicts != [] {
      var n := |verdicts| - 1;
      UnresolvedCounts(verdicts[..n]);
      var front := set i | 0 <= i < |verdicts[..n]| && verdicts[..n][i] == Unresolved;
      var all := set i | 0 <= i < |verdicts| && verdicts[i] == Unresolved;
      assert all == if verdicts[n] == Unresolved then front + {n} else front;
    }
  }
}
