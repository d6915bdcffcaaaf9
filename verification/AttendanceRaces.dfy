/** create_dtr as an interleaved protocol: many requests, each a transaction of several steps, with
    crashes, retries and soft deletes in between. Whether an answer reaches its caller changes
    nothing here; a caller who retries simply starts another request. */
module AttendanceRaces {
  import opened Wrappers
  import opened Attendance

  // ----- the protocol ---------------------------------------------------------------------

  datatype Phase =
    | Arrived(wanted: Record)     // valid in itself, nothing looked up yet
    | NoneActive(wanted: Record)  // saw no active row for its key
    | Clear(wanted: Record)       // saw no deleted row either, or carries no key: about to insert
    | Inserted(wanted: Record)    // inserted under the unique index, not yet committed
    | Collided(wanted: Record)    // the index refused the insert; about to re-read the winner
    | Ended(wanted: Record, outcome: Outcome)
    | Invalid(refusal: Refusal)
    | Crashed

  /** The committed rows, in commit order, and every request so far. */
  datatype World = World(dir: Directory, rows: seq<Record>, requests: map<nat, Phase>)

  datatype Event =
    | Start(id: nat, punch: Punch)
    | LookActive(id: nat)
    | LookDeleted(id: nat)
    | Insert(id: nat)
    | Reread(id: nat)
    | Commit(id: nat)
    | Crash(id: nat)
    | Delete(row: nat)

  /** Two rows the partial unique index does not admit together. */
  predicate SameKey(a: Record, b: Record) {
    a.sourceRef.Some? && a.sourceRef == b.sourceRef && a.employee == b.employee
  }

  predicate PendingUnder(w: World, r: Record) {
    exists id :: id in w.requests && w.requests[id].Inserted? && SameKey(w.requests[id].wanted, r)
  }

  function Active(w: World, r: Record): Option<nat>
    requires r.sourceRef.Some?
  {
    FindKey(w.rows, r.employee, r.sourceRef.value, false)
  }

  function Removed(w: World, r: Record): Option<nat>
    requires r.sourceRef.Some?
  {
    FindKey(w.rows, r.employee, r.sourceRef.value, true)
  }

  function Move(w: World, id: nat, phase: Phase): World {
    w.(requests := w.requests[id := phase])
  }

  function PhaseOf(w: World, id: nat): Phase {
    if id in w.requests then w.requests[id] else Crashed
  }

  function Begin(w: World, id: nat, p: Punch): Phase {
    var resolved := Resolve(w.dir, p);
    if resolved.Err? then Invalid(resolved.error) else Arrived(resolved.value)
  }

  function AfterLookActive(w: World, r: Record): Phase {
    if r.sourceRef.None? then Clear(r)
    else
      var active := Active(w, r);
      if active.None? then NoneActive(r)
      else Ended(r, if SamePunch(w.rows[active.value], r) then Replayed(active.value) else Refused(KeyConflict))
  }

  function AfterLookDeleted(w: World, r: Record): Phase {
    if r.sourceRef.Some? && Removed(w, r).Some? then Ended(r, Refused(KeyDeleted)) else Clear(r)
  }

  /** The index refuses a committed active row's key, and makes an insert wait while another
      transaction holds the key uncommitted. */
  function AfterInsert(w: World, r: Record): Phase {
    if r.sourceRef.None? then Inserted(r)
    else if PendingUnder(w, r) then Clear(r)
    else if Active(w, r).Some? then Collided(r)
    else Inserted(r)
  }

  function AfterReread(w: World, r: Record): Phase {
    if r.sourceRef.None? then Collided(r)
    else
      var winner := Active(w, r);
      Ended(r, if winner.None? then Refused(IntegrityFailure)
               else if SamePunch(w.rows[winner.value], r) then Replayed(winner.value)
               else Refused(LostRace))
  }

  /** One event; an event that is not possible now leaves the world as it is. */
  function Happen(w: World, e: Event): World {
    match e
    case Start(id, p) => if id in w.requests then w else Move(w, id, Begin(w, id, p))
    case LookActive(id) => if PhaseOf(w, id).Arrived? then Move(w, id, AfterLookActive(w, w.requests[id].wanted)) else w
    case LookDeleted(id) => if PhaseOf(w, id).NoneActive?
        then Move(w, id, AfterLookDeleted(w, w.requests[id].wanted)) else w
    case Insert(id) => if PhaseOf(w, id).Clear? then Move(w, id, AfterInsert(w, w.requests[id].wanted)) else w
    case Reread(id) => if PhaseOf(w, id).Collided? then Move(w, id, AfterReread(w, w.requests[id].wanted)) else w
    case Commit(id) =>
      if PhaseOf(w, id).Inserted? then
        var r := w.requests[id].wanted;
        Move(w, id, Ended(r, Created(|w.rows|))).(rows := w.rows + [r])
      else w
    case Crash(id) => if id !in w.requests || w.requests[id].Ended? || w.requests[id].Invalid? then w
        else Move(w, id, Crashed)
    case Delete(row) => if Lives(w, row) then w.(rows := w.rows[row := w.rows[row].(deleted := true)]) else w
  }

  predicate Lives(w: World, row: nat) {
    row < |w.rows| && !w.rows[row].deleted
  }

  function Run(w: World, events: seq<Event>): World {
    if events == [] then w else Happen(Run(w, events[..|events| - 1]), events[|events| - 1])
  }

  predicate Quiet(w: World) {
    w.rows == [] && w.requests == map[]
  }

  // ----- what every interleaving keeps ----------------------------------------------------

  /** At most one active row for a key. */
  predicate UniqueActive(rows: seq<Record>) {
    forall i, j :: 0 <= i < j < |rows| && SameKey(rows[i], rows[j]) ==> rows[i].deleted || rows[j].deleted
  }

  /** An uncommitted row clashes with no committed active row and no other uncommitted one. */
  predicate PendingApart(w: World) {
    && (forall a, i :: a in w.requests && w.requests[a].Inserted? && 0 <= i < |w.rows|
          ==> !SameKey(w.requests[a].wanted, w.rows[i]) || w.rows[i].deleted)
    && (forall a, b :: a in w.requests && b in w.requests && a != b
                       && w.requests[a].Inserted? && w.requests[b].Inserted?
          ==> !SameKey(w.requests[a].wanted, w.requests[b].wanted))
  }

  predicate Names(outcome: Outcome, id: nat) {
    outcome == Created(id) || outcome == Replayed(id)
  }

  /** A success names a committed row that is the caller's: its employee, key, times and shift. */
  predicate Honest(rows: seq<Record>, wanted: Record, outcome: Outcome) {
    outcome.Refused? ||
    (outcome.id < |rows| && rows[outcome.id].(deleted := false) == wanted)
  }

  predicate AllHonest(w: World) {
    forall id :: id in w.requests && w.requests[id].Ended?
        ==> Honest(w.rows, w.requests[id].wanted, w.requests[id].outcome)
  }

  predicate NothingWantedDeleted(w: World) {
    forall id :: id in w.requests && !w.requests[id].Invalid? && !w.requests[id].Crashed?
        ==> !w.requests[id].wanted.deleted
  }

  predicate ToldCreated(p: Phase) {
    p.Ended? && p.outcome.Created?
  }

  /** No two requests are told that they created the same row. */
  predicate CreatorsApart(w: World) {
    forall a, b :: a in w.requests && b in w.requests && a != b && ToldCreated(w.requests[a])
        && ToldCreated(w.requests[b])
      ==> w.requests[a].outcome != w.requests[b].outcome
  }

  predicate Safe(w: World) {
    UniqueActive(w.rows) && PendingApart(w) && AllHonest(w) && CreatorsApart(w) && NothingWantedDeleted(w)
  }

  /** Rows are only ever added or marked deleted. */
  predicate RowsKept(rows: seq<Record>, after: seq<Record>) {
    |rows| <= |after|
    && forall i :: 0 <= i < |rows| ==> after[i] == rows[i] || after[i] == rows[i].(deleted := true)
  }

  /** Only a commit adds a row, and only a delete changes one: a refused or replayed request, a crash
      and every look leave the table alone. */
  lemma RowsChangeOnlyBy(w: World, e: Event)
    ensures RowsKept(w.rows, Happen(w, e).rows)
    ensures !e.Commit? && !e.Delete? ==> Happen(w, e).rows == w.rows
  {
  }

  lemma InsertSafe(w: World, id: nat)
    requires Safe(w) && PhaseOf(w, id).Clear?
    ensures Safe(Happen(w, Insert(id)))
  {
    var r := w.requests[id].wanted;
    if AfterInsert(w, r) == Inserted(r) {
      forall i | 0 <= i < |w.rows| ensures !SameKey(r, w.rows[i]) || w.rows[i].deleted {
        if r.sourceRef.Some? && SameKey(r, w.rows[i]) {
          assert Keyed(w.rows[i], r.employee, r.sourceRef.value);
        }
      }
      forall b | b in w.requests && b != id && w.requests[b].Inserted?
        ensures !SameKey(w.requests[b].wanted, r) && !SameKey(r, w.requests[b].wanted)
      {
      }
    }
  }

  lemma CommitSafe(w: World, id: nat)
    requires Safe(w) && PhaseOf(w, id).Inserted?
    ensures Safe(Happen(w, Commit(id)))
  {
    var r, after := w.requests[id].wanted, Happen(w, Commit(id));
    forall i, j | 0 <= i < j < |after.rows| && SameKey(after.rows[i], after.rows[j])
      ensures after.rows[i].deleted || after.rows[j].deleted
    {
      if j == |w.rows| {
        assert SameKey(r, w.rows[i]);
      }
    }
    forall a, i | a in after.requests && after.requests[a].Inserted? && 0 <= i < |after.rows|
      ensures !SameKey(after.requests[a].wanted, after.rows[i]) || after.rows[i].deleted
    {
      if i == |w.rows| {
        assert !SameKey(w.requests[a].wanted, w.requests[id].wanted);
      }
    }
  }

  lemma DeleteSafe(w: World, row: nat)
    requires Safe(w) && Lives(w, row)
    ensures Safe(Happen(w, Delete(row)))
  {
    var after := Happen(w, Delete(row));
    forall i, j | 0 <= i < j < |after.rows| && SameKey(after.rows[i], after.rows[j])
      ensures after.rows[i].deleted || after.rows[j].deleted
    {
      assert SameKey(w.rows[i], w.rows[j]);
    }
  }

  /** A request moving on by itself, short of an insert. */
  lemma MoveSafe(w: World, id: nat, phase: Phase)
    requires Safe(w) && !phase.Inserted? && !PhaseOf(w, id).Ended?
    requires phase.Ended? ==> !phase.outcome.Created? && Honest(w.rows, phase.wanted, phase.outcome)
    requires !phase.Invalid? && !phase.Crashed? ==> !phase.wanted.deleted
    ensures Safe(Move(w, id, phase))
  {
  }

  lemma LookSafe(w: World, id: nat)
    requires Safe(w)
    ensures PhaseOf(w, id).Arrived? ==> Safe(Happen(w, LookActive(id)))
    ensures PhaseOf(w, id).NoneActive? ==> Safe(Happen(w, LookDeleted(id)))
    ensures PhaseOf(w, id).Collided? ==> Safe(Happen(w, Reread(id)))
  {
    if PhaseOf(w, id).Arrived? {
      MoveSafe(w, id, AfterLookActive(w, w.requests[id].wanted));
    } else if PhaseOf(w, id).NoneActive? {
      MoveSafe(w, id, AfterLookDeleted(w, w.requests[id].wanted));
    } else if PhaseOf(w, id).Collided? {
      MoveSafe(w, id, AfterReread(w, w.requests[id].wanted));
    }
  }

  lemma EventSafe(w: World, e: Event)
    requires Safe(w)
    ensures Safe(Happen(w, e))
  {
    match e
    case Start(id, p) =>
      if id !in w.requests {
        MoveSafe(w, id, Begin(w, id, p));
      }
    case LookActive(id) => LookSafe(w, id);
    case LookDeleted(id) => LookSafe(w, id);
    case Reread(id) => LookSafe(w, id);
    case Insert(id) =>
      if PhaseOf(w, id).Clear? {
        InsertSafe(w, id);
      }
    case Commit(id) =>
      if PhaseOf(w, id).Inserted? {
        CommitSafe(w, id);
      }
    case Crash(id) =>
      if Happen(w, e) != w {
        MoveSafe(w, id, Crashed);
      }
    case Delete(row) =>
      if Lives(w, row) {
        DeleteSafe(w, row);
      }
  }

  /** Over every interleaving, with deletes and crashes: a key never has two active rows, every success
      names a committed row with the caller's own employee, key, times and shift, and no two requests
      are told they created the same row. */
  lemma RunSafe(w: World, events: seq<Event>)
    requires Quiet(w)
    ensures Safe(Run(w, events))
  {
    RunStaysSafe(w, events);
  }

  lemma {:induction false} RunStaysSafe(w: World, events: seq<Event>)
    requires Safe(w)
    ensures Safe(Run(w, events))
  {
    if events != [] {
      RunStaysSafe(w, events[..|events| - 1]);
      EventSafe(Run(w, events[..|events| - 1]), events[|events| - 1]);
    }
  }

  /** What a request wants never changes while it lasts. */
  predicate StillWants(p: Phase, wanted: Record) {
    p.Crashed? || (!p.Invalid? && p.wanted == wanted)
  }

  lemma {:induction false} WantedStays(w: World, events: seq<Event>, id: nat, wanted: Record)
    requires id in w.requests && StillWants(w.requests[id], wanted)
    ensures id in Run(w, events).requests && StillWants(Run(w, events).requests[id], wanted)
  {
    if events != [] {
      WantedStays(w, events[..|events| - 1], id, wanted);
      EventKeepsWanted(Run(w, events[..|events| - 1]), events[|events| - 1], id, wanted);
    }
  }

  lemma EventKeepsWanted(w: World, e: Event, id: nat, wanted: Record)
    requires id in w.requests && StillWants(w.requests[id], wanted)
    ensures id in Happen(w, e).requests && StillWants(Happen(w, e).requests[id], wanted)
  {
  }

  /** Over every interleaving: a request that starts with a punch and ends in success was told of a
      committed row that is this punch's own - its employee and shift, its own login and logout as UTC
      instants, its key - however it has been deleted since. */
  lemma SuccessIsThePunch(w: World, early: seq<Event>, id: nat, p: Punch, late: seq<Event>)
    requires Quiet(w) && id !in Run(w, early).requests
    ensures var after := Run(Happen(Run(w, early), Start(id, p)), late);
      PhaseOf(after, id).Ended? && !after.requests[id].outcome.Refused? ==>
        var row := after.requests[id].outcome.id;
        row < |after.rows| && IsRowOf(w.dir, p, after.rows[row].(deleted := false))
  {
    var before := Run(w, early);
    var started := Happen(before, Start(id, p));
    RunSafe(w, early);
    SameDirectory(w, early);
    EventSafe(before, Start(id, p));
    RunStaysSafe(started, late);
    ResolveMeans(w.dir, p);
    if Resolve(w.dir, p).Ok? {
      WantedStays(started, late, id, Resolve(w.dir, p).value);
    } else {
      InvalidStays(started, late, id);
    }
  }

  lemma {:induction false} SameDirectory(w: World, events: seq<Event>)
    ensures Run(w, events).dir == w.dir
  {
    if events != [] {
      SameDirectory(w, events[..|events| - 1]);
    }
  }

  lemma {:induction false} InvalidStays(w: World, events: seq<Event>, id: nat)
    requires PhaseOf(w, id).Invalid?
    ensures PhaseOf(Run(w, events), id).Invalid?
  {
    if events != [] {
      InvalidStays(w, events[..|events| - 1], id);
    }
  }

  /** A committed row of the request's key with other times or another shift. */
  predicate OtherInput(rows: seq<Record>, wanted: Record, i: nat)
    requires i < |rows|
  {
    SameKey(wanted, rows[i])
    && (rows[i].login != wanted.login || rows[i].logout != wanted.logout || rows[i].shift != wanted.shift)
  }

  /** A refusal over the key is for a reason that is in the table. */
  predicate RefusedTruly(rows: seq<Record>, p: Phase) {
    p.Ended? && p.outcome.Refused? ==>
      match p.outcome.refusal
      case KeyConflict => exists i :: 0 <= i < |rows| && OtherInput(rows, p.wanted, i)
      case LostRace => exists i :: 0 <= i < |rows| && OtherInput(rows, p.wanted, i)
      case KeyDeleted => exists i :: 0 <= i < |rows| && SameKey(p.wanted, rows[i]) && rows[i].deleted
      case IntegrityFailure => p.wanted.sourceRef.Some?
      case _ => false
  }

  lemma RefusalStays(rows: seq<Record>, after: seq<Record>, p: Phase)
    requires RowsKept(rows, after) && RefusedTruly(rows, p)
    ensures RefusedTruly(after, p)
  {
    if p.Ended? && p.outcome.Refused? {
      match p.outcome.refusal
      case KeyConflict => SomeOtherInput(rows, after, p.wanted);
      case LostRace => SomeOtherInput(rows, after, p.wanted);
      case KeyDeleted =>
        var i :| 0 <= i < |rows| && SameKey(p.wanted, rows[i]) && rows[i].deleted;
        assert SameKey(p.wanted, after[i]) && after[i].deleted;
      case _ =>
    }
  }

  lemma SomeOtherInput(rows: seq<Record>, after: seq<Record>, wanted: Record)
    requires RowsKept(rows, after) && exists i :: 0 <= i < |rows| && OtherInput(rows, wanted, i)
    ensures exists i :: 0 <= i < |after| && OtherInput(after, wanted, i)
  {
    var i :| 0 <= i < |rows| && OtherInput(rows, wanted, i);
    assert OtherInput(after, wanted, i);
  }

  lemma LookRefusesTruly(w: World, r: Record)
    ensures RefusedTruly(w.rows, AfterLookActive(w, r)) && RefusedTruly(w.rows, AfterLookDeleted(w, r))
    ensures RefusedTruly(w.rows, AfterInsert(w, r)) && RefusedTruly(w.rows, AfterReread(w, r))
  {
    if r.sourceRef.Some? {
      var active, removed := Active(w, r), Removed(w, r);
      assert active.Some? && !SamePunch(w.rows[active.value], r) ==> OtherInput(w.rows, r, active.value);
      assert removed.Some? ==> SameKey(r, w.rows[removed.value]);
    }
  }

  lemma EventRefusesTruly(w: World, e: Event, id: nat)
    requires RefusedTruly(w.rows, PhaseOf(w, id))
    ensures RefusedTruly(Happen(w, e).rows, PhaseOf(Happen(w, e), id))
  {
    if PhaseOf(Happen(w, e), id) == PhaseOf(w, id) {
      RowsChangeOnlyBy(w, e);
      RefusalStays(w.rows, Happen(w, e).rows, PhaseOf(w, id));
    } else if e.LookActive? || e.LookDeleted? || e.Insert? || e.Reread? {
      LookRefusesTruly(w, w.requests[id].wanted);
    }
  }

  /** Over every interleaving: a request is refused over its key only for a row that is really in the table - a
      conflict for one made from other input, a deletion for a deleted one. */
  lemma {:induction false} RefusalsAreTrue(w: World, events: seq<Event>, id: nat)
    requires Quiet(w)
    ensures RefusedTruly(Run(w, events).rows, PhaseOf(Run(w, events), id))
  {
    if events != [] {
      RefusalsAreTrue(w, events[..|events| - 1], id);
      EventRefusesTruly(Run(w, events[..|events| - 1]), events[|events| - 1], id);
    }
  }

  // ----- without deletes: one row for a key, ever -----------------------------------------

  predicate NoDeletes(events: seq<Event>) {
    forall k :: 0 <= k < |events| ==> !events[k].Delete?
  }

  /** Row i decides a keyed request's fate: same input, that row; other input, a conflict. */
  predicate SettledBy(rows: seq<Record>, i: nat, wanted: Record, outcome: Outcome)
    requires i < |rows|
  {
    SameKey(wanted, rows[i])
    && if rows[i].login == wanted.login && rows[i].logout == wanted.logout && rows[i].shift == wanted.shift
       then Names(outcome, i) else outcome == Refused(KeyConflict) || outcome == Refused(LostRace)
  }

  predicate Decided(rows: seq<Record>, p: Phase) {
    && (p.Ended? && p.wanted.sourceRef.Some? ==> exists i :: 0 <= i < |rows| && SettledBy(rows, i, p.wanted, p.outcome))
    && (p.Collided? ==> exists i :: 0 <= i < |rows| && SameKey(p.wanted, rows[i]))
  }

  predicate Undeleted(w: World) {
    && (forall i :: 0 <= i < |w.rows| ==> !w.rows[i].deleted)
    && (forall id :: id in w.requests ==> Decided(w.rows, w.requests[id]))
  }

  lemma DecidedStays(rows: seq<Record>, r: Record, p: Phase)
    requires Decided(rows, p)
    ensures Decided(rows + [r], p)
  {
    var after := rows + [r];
    if p.Ended? && p.wanted.sourceRef.Some? {
      var i :| 0 <= i < |rows| && SettledBy(rows, i, p.wanted, p.outcome);
      assert SettledBy(after, i, p.wanted, p.outcome);
    }
    if p.Collided? {
      var i :| 0 <= i < |rows| && SameKey(p.wanted, rows[i]);
      assert SameKey(p.wanted, after[i]);
    }
  }

  lemma CommitDecided(w: World, id: nat)
    requires Undeleted(w) && Safe(w) && PhaseOf(w, id).Inserted?
    ensures Undeleted(Happen(w, Commit(id)))
  {
    var r, after := w.requests[id].wanted, Happen(w, Commit(id));
    forall a | a in after.requests ensures Decided(after.rows, after.requests[a]) {
      if a != id {
        DecidedStays(w.rows, r, w.requests[a]);
      } else if r.sourceRef.Some? {
        assert SettledBy(after.rows, |w.rows|, r, Created(|w.rows|));
      }
    }
  }

  /** A request that finds an active row is settled by it. */
  lemma FoundDecides(w: World, r: Record)
    requires Undeleted(w) && r.sourceRef.Some? && Active(w, r).Some?
    ensures var i := Active(w, r).value;
      SettledBy(w.rows, i, r, if SamePunch(w.rows[i], r) then Replayed(i) else Refused(KeyConflict))
      && SettledBy(w.rows, i, r, if SamePunch(w.rows[i], r) then Replayed(i) else Refused(LostRace))
  {
  }

  lemma LookDecided(w: World, r: Record)
    requires Undeleted(w)
    ensures Decided(w.rows, AfterLookActive(w, r)) && Decided(w.rows, AfterLookDeleted(w, r))
        && Decided(w.rows, AfterInsert(w, r))
    ensures Decided(w.rows, Collided(r)) ==> Decided(w.rows, AfterReread(w, r))
  {
    if r.sourceRef.Some? {
      if Active(w, r).Some? {
        FoundDecides(w, r);
      } else if Decided(w.rows, Collided(r)) {
        var i :| 0 <= i < |w.rows| && SameKey(r, w.rows[i]);
        assert Keyed(w.rows[i], r.employee, r.sourceRef.value);
      }
    }
  }

  lemma EventDecided(w: World, e: Event)
    requires Safe(w) && Undeleted(w) && !e.Delete?
    ensures Undeleted(Happen(w, e))
  {
    match e
    case LookActive(id) => if PhaseOf(w, id).Arrived? { LookDecided(w, w.requests[id].wanted); }
    case LookDeleted(id) => if PhaseOf(w, id).NoneActive? { LookDecided(w, w.requests[id].wanted); }
    case Insert(id) => if PhaseOf(w, id).Clear? { LookDecided(w, w.requests[id].wanted); }
    case Reread(id) => if PhaseOf(w, id).Collided? { LookDecided(w, w.requests[id].wanted); }
    case Commit(id) => if PhaseOf(w, id).Inserted? { CommitDecided(w, id); }
    case _ =>
  }

  lemma {:induction false} RunDecided(w: World, events: seq<Event>)
    requires Quiet(w) && NoDeletes(events)
    ensures Safe(Run(w, events)) && Undeleted(Run(w, events))
  {
    if events != [] {
      RunDecided(w, events[..|events| - 1]);
      EventSafe(Run(w, events[..|events| - 1]), events[|events| - 1]);
      EventDecided(Run(w, events[..|events| - 1]), events[|events| - 1]);
    }
  }

  /** Over every interleaving without deletes at most one row is ever committed under a key, and any
      two keyed requests that end - a retry and its original, say - are settled by the same row: both
      get it if their input is the row's, and only other input is refused, with a conflict. */
  lemma OneRowForAKey(w: World, events: seq<Event>, a: nat, b: nat)
    requires Quiet(w) && NoDeletes(events)
    ensures var after := Run(w, events);
      && (forall i, j :: 0 <= i < j < |after.rows| ==> !SameKey(after.rows[i], after.rows[j]))
      && (PhaseOf(after, a).Ended? && PhaseOf(after, b).Ended?
          && SameKey(after.requests[a].wanted, after.requests[b].wanted) ==>
            exists i :: 0 <= i < |after.rows|
              && SettledBy(after.rows, i, after.requests[a].wanted, after.requests[a].outcome)
              && SettledBy(after.rows, i, after.requests[b].wanted, after.requests[b].outcome))
  {
    var after := Run(w, events);
    RunDecided(w, events);
    if PhaseOf(after, a).Ended? && PhaseOf(after, b).Ended?
        && SameKey(after.requests[a].wanted, after.requests[b].wanted) {
      var p, q := after.requests[a], after.requests[b];
      assert Decided(after.rows, p) && Decided(after.rows, q);
      var i :| 0 <= i < |after.rows| && SettledBy(after.rows, i, p.wanted, p.outcome);
      var j :| 0 <= j < |after.rows| && SettledBy(after.rows, j, q.wanted, q.outcome);
      OneRow(after, i, j);
    }
  }

  lemma OneRow(w: World, i: nat, j: nat)
    requires Safe(w) && Undeleted(w) && i < |w.rows| && j < |w.rows| && SameKey(w.rows[i], w.rows[j])
    ensures i == j
  {
  }

  // ----- a deleted key --------------------------------------------------------------------

  /** A request for the key is past its look at deleted rows and may still insert. */
  predicate MayInsert(p: Phase, employee: nat, key: string) {
    (p.Clear? || p.Inserted?) && Keyed(p.wanted, employee, key)
  }

  /** The key's row was deleted, nothing active has taken its place, and nobody is about to. */
  predicate Dead(w: World, employee: nat, key: string) {
    && FindKey(w.rows, employee, key, false).None?
    && FindKey(w.rows, employee, key, true).Some?
    && forall id :: id in w.requests ==> !MayInsert(w.requests[id], employee, key)
  }

  lemma FindSome(rows: seq<Record>, employee: nat, key: string, deleted: bool, i: nat)
    requires i < |rows| && Keyed(rows[i], employee, key) && rows[i].deleted == deleted
    ensures FindKey(rows, employee, key, deleted).Some?
  {
  }

  lemma EventDead(w: World, e: Event, employee: nat, key: string)
    requires Dead(w, employee, key)
    ensures Dead(Happen(w, e), employee, key)
  {
    var after := Happen(w, e);
    var i := FindKey(w.rows, employee, key, true).value;
    RowsChangeOnlyBy(w, e);
    FindSome(after.rows, employee, key, true, i);
  }

  lemma {:induction false} RunDead(w: World, events: seq<Event>, employee: nat, key: string)
    requires Dead(w, employee, key)
    ensures Dead(Run(w, events), employee, key)
  {
    if events != [] {
      RunDead(w, events[..|events| - 1], employee, key);
      EventDead(Run(w, events[..|events| - 1]), events[|events| - 1], employee, key);
    }
  }

  /** Where a request for a dead key can stand. */
  predicate Hopeless(p: Phase, employee: nat, key: string) {
    !p.Invalid? && !p.Crashed? && Keyed(p.wanted, employee, key) ==>
      p.Arrived? || p.NoneActive? || (p.Ended? && p.outcome == Refused(KeyDeleted))
  }

  lemma EventHopeless(w: World, e: Event, employee: nat, key: string, id: nat)
    requires Dead(w, employee, key) && Hopeless(PhaseOf(w, id), employee, key)
    ensures Hopeless(PhaseOf(Happen(w, e), id), employee, key)
  {
  }

  /** Once a key is dead it stays so, whatever is retried, and every request for it that starts later,
      or has not ended yet, can end only by being refused because the key was deleted. */
  lemma {:induction false} DeletedKeyStaysDeleted(w: World, events: seq<Event>, employee: nat, key: string, id: nat)
    requires Dead(w, employee, key) && Hopeless(PhaseOf(w, id), employee, key)
    ensures Dead(Run(w, events), employee, key) && Hopeless(PhaseOf(Run(w, events), id), employee, key)
  {
    if events != [] {
      var before, e := Run(w, events[..|events| - 1]), events[|events| - 1];
      DeletedKeyStaysDeleted(w, events[..|events| - 1], employee, key, id);
      EventDead(before, e, employee, key);
      EventHopeless(before, e, employee, key, id);
    }
  }

  predicate KeyReturns(w: World, events: seq<Event>, employee: nat, key: string) {
    FindKey(Run(w, events).rows, employee, key, false).Some?
  }

  /** A deleted key can become active again exactly when some request for it had already looked
      past the deleted rows: the guard holds off every retry but not that one. */
  lemma KeyReturnsIffInFlight(w: World, employee: nat, key: string)
    requires Safe(w) && FindKey(w.rows, employee, key, false).None? && FindKey(w.rows, employee, key, true).Some?
    ensures (exists events :: KeyReturns(w, events, employee, key))
       <==> (exists id :: id in w.requests && MayInsert(w.requests[id], employee, key))
  {
    if exists id :: id in w.requests && MayInsert(w.requests[id], employee, key) {
      var id :| id in w.requests && MayInsert(w.requests[id], employee, key);
      var r := w.requests[id].wanted;
      if w.requests[id].Inserted? {
        CommitReturns(w, id, employee, key);
      } else if PendingUnder(w, r) {
        var other :| other in w.requests && w.requests[other].Inserted? && SameKey(w.requests[other].wanted, r);
        CommitReturns(w, other, employee, key);
      } else {
        InsertReturns(w, id, employee, key);
      }
    } else if exists events :: KeyReturns(w, events, employee, key) {
      var events :| KeyReturns(w, events, employee, key);
      RunDead(w, events, employee, key);
    }
  }

  lemma RunOne(w: World, e: Event)
    ensures Run(w, [e]) == Happen(w, e)
  {
    assert [e][..0] == [];
  }

  lemma RunThen(w: World, events: seq<Event>, e: Event)
    ensures Run(w, events + [e]) == Happen(Run(w, events), e)
  {
    assert (events + [e])[..|events|] == events;
  }

  lemma CommitReturns(w: World, id: nat, employee: nat, key: string)
    requires PhaseOf(w, id).Inserted? && Keyed(w.requests[id].wanted, employee, key) && !w.requests[id].wanted.deleted
    ensures KeyReturns(w, [Commit(id)], employee, key)
  {
    RunOne(w, Commit(id));
    FindSome(Happen(w, Commit(id)).rows, employee, key, false, |w.rows|);
  }

  lemma InsertReturns(w: World, id: nat, employee: nat, key: string)
    requires PhaseOf(w, id).Clear? && Keyed(w.requests[id].wanted, employee, key) && !w.requests[id].wanted.deleted
    requires !PendingUnder(w, w.requests[id].wanted) && FindKey(w.rows, employee, key, false).None?
    ensures KeyReturns(w, [Insert(id)] + [Commit(id)], employee, key)
  {
    RunOne(w, Insert(id));
    RunThen(w, [Insert(id)], Commit(id));
    var inserted := Happen(w, Insert(id));
    FindSome(Happen(inserted, Commit(id)).rows, employee, key, false, |w.rows|);
  }

  lemma {:induction false} RunConcat(w: World, early: seq<Event>, late: seq<Event>)
    ensures Run(w, early + late) == Run(Run(w, early), late)
    decreases |late|
  {
    if late == [] {
      assert early + late == early;
    } else {
      var n := |late| - 1;
      RunConcat(w, early, late[..n]);
      assert early + late == (early + late[..n]) + [late[n]];
      RunThen(w, early + late[..n], late[n]);
    }
  }

  lemma RunThree(w: World, a: Event, b: Event, c: Event)
    ensures Run(w, [a, b, c]) == Happen(Happen(Happen(w, a), b), c)
  {
    RunOne(w, a);
    RunThen(w, [a], b);
    RunThen(w, [a] + [b], c);
    assert [a, b, c] == ([a] + [b]) + [c];
  }

  function Looks(id: nat, p: Punch): seq<Event> {
    [Start(id, p), LookActive(id), LookDeleted(id)]
  }

  /** On an empty table a request looks and sees nothing. */
  lemma LooksClear(w: World, id: nat, p: Punch)
    requires w.rows == [] && id !in w.requests && Resolve(w.dir, p).Ok? && p.sourceRef.Some?
    ensures Run(w, Looks(id, p)) == Move(w, id, Clear(Resolve(w.dir, p).value))
  {
    var r := Resolve(w.dir, p).value;
    RunThree(w, Start(id, p), LookActive(id), LookDeleted(id));
    assert Happen(w, Start(id, p)) == Move(w, id, Arrived(r));
    assert Happen(Move(w, id, Arrived(r)), LookActive(id)) == Move(w, id, NoneActive(r));
    assert Happen(Move(w, id, NoneActive(r)), LookDeleted(id)) == Move(w, id, Clear(r));
  }

  lemma CommitAndDelete(w: World, r: Record)
    requires w.rows == [] && w.requests == map[1 := Clear(r), 2 := Clear(r)] && r.sourceRef.Some? && !r.deleted
    ensures var gone := Run(w, [Insert(2), Commit(2), Delete(0)]);
      && gone.rows == [r.(deleted := true)]
      && PhaseOf(gone, 1) == Clear(r) && !PendingUnder(gone, r)
  {
    RunThree(w, Insert(2), Commit(2), Delete(0));
    assert Happen(w, Insert(2)) == Move(w, 2, Inserted(r));
    CommitThenDelete(Move(w, 2, Inserted(r)), 2);
  }

  lemma CommitThenDelete(w: World, id: nat)
    requires w.rows == [] && PhaseOf(w, id).Inserted? && !w.requests[id].wanted.deleted
    ensures var r, gone := w.requests[id].wanted, Happen(Happen(w, Commit(id)), Delete(0));
      gone.rows == [r.(deleted := true)] && gone.requests == w.requests[id := Ended(r, Created(0))]
  {
    assert Happen(w, Commit(id)).rows == [w.requests[id].wanted];
  }

  /** Such a request can really be in flight: starting from an empty table two requests look and see
      nothing, one of them commits and is deleted, and the key can still become active again. */
  lemma RetryCanResurrect(dir: Directory, p: Punch)
    requires Resolve(dir, p).Ok? && p.sourceRef.Some?
    ensures var r, w := Resolve(dir, p).value, World(dir, [], map[]);
      var gone := Run(w, Looks(1, p) + Looks(2, p) + [Insert(2), Commit(2), Delete(0)]);
      gone.rows == [r.(deleted := true)] && exists events :: KeyReturns(gone, events, r.employee, r.sourceRef.value)
  {
    var r, w := Resolve(dir, p).value, World(dir, [], map[]);
    RunConcat(w, Looks(1, p), Looks(2, p));
    RunConcat(w, Looks(1, p) + Looks(2, p), [Insert(2), Commit(2), Delete(0)]);
    LooksClear(w, 1, p);
    LooksClear(Move(w, 1, Clear(r)), 2, p);
    var both := Move(Move(w, 1, Clear(r)), 2, Clear(r));
    CommitAndDelete(both, r);
    InsertReturns(Run(both, [Insert(2), Commit(2), Delete(0)]), 1, r.employee, r.sourceRef.value);
  }

  // ----- alone, the protocol is the plain call --------------------------------------------

  function Answer(p: Phase): Option<Outcome> {
    match p
    case Ended(_, outcome) => Some(outcome)
    case Invalid(refusal) => Some(Refused(refusal))
    case _ => None
  }

  /** A request that runs without interruption, while no other transaction holds its key, does what
      the plain call does and gives its answer. */
  lemma AloneIsCreate(w: World, id: nat, p: Punch)
    requires id !in w.requests
    requires Resolve(w.dir, p).Ok? ==> !PendingUnder(w, Resolve(w.dir, p).value)
    ensures var done := Happen(Happen(Happen(Happen(Happen(w, Start(id, p)), LookActive(id)), LookDeleted(id)),
        Insert(id)), Commit(id));
      && done.rows == Create(w.rows, w.dir, p).0
      && Answer(PhaseOf(done, id)) == Some(Create(w.rows, w.dir, p).1)
  {
    var w1 := Happen(w, Start(id, p));
    var w2 := Happen(w1, LookActive(id));
    var w3 := Happen(w2, LookDeleted(id));
    if Resolve(w.dir, p).Ok? {
      var r := Resolve(w.dir, p).value;
      assert w3.rows == w.rows;
      if w3.requests[id] == Clear(r) {
        assert PendingUnder(w3, r) ==> PendingUnder(w, r);
      }
    }
  }
}
