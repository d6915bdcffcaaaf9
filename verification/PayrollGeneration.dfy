/** generate_payroll as an interleaved protocol: many calls, each a transaction that takes an advisory
    lock on its request id, looks the run up, computes and inserts, and gives the lock back when the
    transaction ends. The fingerprint of a payload is taken to be injective, so it is the payload. */
module PayrollGeneration {
  import opened Wrappers

  type Payload = string

  /** One computed payroll entry; what is in it does not matter here. */
  type Pay = nat

  datatype Call = Call(request: nat, caller: nat, payload: Payload)

  datatype RunRow = RunRow(createdBy: nat, fingerprint: Payload, deleted: bool)

  datatype EntryRow = EntryRow(run: nat, pay: Pay)

  datatype Outcome =
    | Generated(pays: seq<Pay>)
    | Returned
    | Conflict             // the id belongs to another caller or payload, or its run was deleted
    | NotComputable        // the preview itself failed
    | DuplicateKey         // the insert met a run of the same id

  /** Where a call stands. From Holding to Answered its transaction is open and holds the lock. */
  datatype Phase =
    | Waiting
    | Holding
    | Computing
    | Computed(pays: seq<Pay>)
    | Inserted(pays: seq<Pay>)    // run and entries flushed, not yet committed
    | Answered(outcome: Outcome)  // answered without a commit, session still open
    | Ended(outcome: Outcome)
    | Crashed

  datatype Job = Job(call: Call, phase: Phase)

  datatype World = World(runs: map<nat, RunRow>, entries: seq<EntryRow>, jobs: map<nat, Job>)

  datatype Event =
    | Start(id: nat, call: Call)
    | TakeLock(id: nat)
    | LookUp(id: nat)
    | Compute(id: nat, preview: Option<seq<Pay>>)
    | Insert(id: nat)
    | Commit(id: nat)
    | Close(id: nat)
    | Crash(id: nat)
    | DeleteRun(run: nat)

  /** The first eight of the request id's sixteen bytes: different ids may share a lock. */
  function LockKey(request: nat): nat {
    request / 0x1_0000_0000_0000_0000
  }

  predicate HoldsLock(p: Phase) {
    p.Holding? || p.Computing? || p.Computed? || p.Inserted? || p.Answered?
  }

  predicate LockIsFree(w: World, key: nat) {
    forall id :: id in w.jobs ==> !(HoldsLock(w.jobs[id].phase) && LockKey(w.jobs[id].call.request) == key)
  }

  function Move(w: World, id: nat, phase: Phase): World
    requires id in w.jobs
  {
    w.(jobs := w.jobs[id := w.jobs[id].(phase := phase)])
  }

  predicate Owns(row: RunRow, c: Call) {
    row.createdBy == c.caller && row.fingerprint == c.payload
  }

  function AfterLookUp(w: World, c: Call): Phase {
    if c.request !in w.runs then Computing
    else if !Owns(w.runs[c.request], c) || w.runs[c.request].deleted then Answered(Conflict)
    else Answered(Returned)
  }

  /** The primary key refuses an id that is committed or pending. */
  predicate KeyTaken(w: World, request: nat) {
    request in w.runs
    || exists id :: id in w.jobs && w.jobs[id].phase.Inserted? && w.jobs[id].call.request == request
  }

  function RowsFor(request: nat, pays: seq<Pay>): seq<EntryRow> {
    seq(|pays|, i requires 0 <= i < |pays| => EntryRow(request, pays[i]))
  }

  predicate In(w: World, id: nat) {
    id in w.jobs
  }

  /** One event; an event that is not possible now leaves the world as it is. */
  function Happen(w: World, e: Event): World {
    match e
    case Start(id, c) => if In(w, id) then w else w.(jobs := w.jobs[id := Job(c, Waiting)])
    case TakeLock(id) =>
      if In(w, id) && w.jobs[id].phase.Waiting? && LockIsFree(w, LockKey(w.jobs[id].call.request))
          then Move(w, id, Holding) else w
    case LookUp(id) => if In(w, id) && w.jobs[id].phase.Holding?
        then Move(w, id, AfterLookUp(w, w.jobs[id].call)) else w
    case Compute(id, preview) =>
      if In(w, id) && w.jobs[id].phase.Computing?
      then Move(w, id, if preview.Some? then Computed(preview.value) else Answered(NotComputable)) else w
    case Insert(id) =>
      if In(w, id) && w.jobs[id].phase.Computed?
      then Move(w, id, if KeyTaken(w, w.jobs[id].call.request) then Answered(DuplicateKey)
                       else Inserted(w.jobs[id].phase.pays))
      else w
    case Commit(id) =>
      if In(w, id) && w.jobs[id].phase.Inserted? then
        var c, pays := w.jobs[id].call, w.jobs[id].phase.pays;
        Move(w, id, Ended(Generated(pays))).(
          runs := w.runs[c.request := RunRow(c.caller, c.payload, false)],
          entries := w.entries + RowsFor(c.request, pays))
      else w
    case Close(id) => if In(w, id) && w.jobs[id].phase.Answered?
        then Move(w, id, Ended(w.jobs[id].phase.outcome)) else w
    case Crash(id) => if In(w, id) && !w.jobs[id].phase.Ended? then Move(w, id, Crashed) else w
    case DeleteRun(run) => if run in w.runs then w.(runs := w.runs[run := w.runs[run].(deleted := true)]) else w
  }

  function Run(w: World, events: seq<Event>): World {
    if events == [] then w else Happen(Run(w, events[..|events| - 1]), events[|events| - 1])
  }

  predicate Quiet(w: World) {
    w.runs == map[] && w.entries == [] && w.jobs == map[]
  }

  // ----- what every interleaving keeps ----------------------------------------------------

  /** The entries stored for a run, in order. */
  function EntriesOf(entries: seq<EntryRow>, run: nat): seq<Pay> {
    if entries == [] then []
    else
      var n := |entries| - 1;
      EntriesOf(entries[..n], run) + if entries[n].run == run then [entries[n].pay] else []
  }

  lemma {:induction false} EntriesConcat(a: seq<EntryRow>, b: seq<EntryRow>, run: nat)
    ensures EntriesOf(a + b, run) == EntriesOf(a, run) + EntriesOf(b, run)
    decreases |b|
  {
    if b == [] {
      assert a + b == a;
    } else {
      EntriesConcat(a, b[..|b| - 1], run);
      assert (a + b)[..|a + b| - 1] == a + b[..|b| - 1];
    }
  }

  lemma {:induction false} EntriesOfRows(request: nat, pays: seq<Pay>, run: nat)
    ensures EntriesOf(RowsFor(request, pays), run) == if run == request then pays else []
  {
    if pays != [] {
      EntriesOfRows(request, pays[..|pays| - 1], run);
      assert RowsFor(request, pays)[..|pays| - 1] == RowsFor(request, pays[..|pays| - 1]);
    }
  }

  lemma EntriesAdded(entries: seq<EntryRow>, request: nat, pays: seq<Pay>, run: nat)
    ensures EntriesOf(entries + RowsFor(request, pays), run)
         == EntriesOf(entries, run) + if run == request then pays else []
  {
    EntriesConcat(entries, RowsFor(request, pays), run);
    EntriesOfRows(request, pays, run);
  }

  predicate LocksExclusive(w: World) {
    forall a, b :: a in w.jobs && b in w.jobs && a != b && HoldsLock(w.jobs[a].phase) && HoldsLock(w.jobs[b].phase)
      ==> LockKey(w.jobs[a].call.request) != LockKey(w.jobs[b].call.request)
  }

  function OutcomeOf(p: Phase): Option<Outcome> {
    match p
    case Answered(o) => Some(o)
    case Ended(o) => Some(o)
    case _ => None
  }

  /** What a call may be told, given what is stored. */
  predicate Honest(runs: map<nat, RunRow>, entries: seq<EntryRow>, c: Call, o: Outcome) {
    match o
    case Generated(pays) => c.request in runs && Owns(runs[c.request], c) && EntriesOf(entries, c.request) == pays
    case Returned => c.request in runs && Owns(runs[c.request], c)
    case Conflict => c.request in runs && (!Owns(runs[c.request], c) || runs[c.request].deleted)
    case NotComputable => true
    case DuplicateKey => false
  }

  /** A call between its look-up and its commit: its id has no run yet. */
  predicate Unstored(runs: map<nat, RunRow>, j: Job) {
    j.phase.Computing? || j.phase.Computed? || j.phase.Inserted? ==> j.call.request !in runs
  }

  predicate JobOk(runs: map<nat, RunRow>, entries: seq<EntryRow>, j: Job) {
    && Unstored(runs, j)
    && (OutcomeOf(j.phase).Some? ==> Honest(runs, entries, j.call, OutcomeOf(j.phase).value))
    && (j.phase.Answered? ==> !j.phase.outcome.Generated?)
  }

  predicate Fine(w: World, id: nat)
    requires id in w.jobs
  {
    JobOk(w.runs, w.entries, w.jobs[id])
  }

  predicate IsGenerator(j: Job, request: nat) {
    j.phase.Ended? && j.phase.outcome.Generated? && j.call.request == request
  }

  predicate BothGenerated(a: Job, b: Job) {
    IsGenerator(a, a.call.request) && IsGenerator(b, a.call.request)
  }

  predicate HasGenerator(jobs: map<nat, Job>, request: nat) {
    exists id :: id in jobs && IsGenerator(jobs[id], request)
  }

  lemma GeneratorStays(before: map<nat, Job>, after: map<nat, Job>, request: nat)
    requires HasGenerator(before, request)
    requires forall id :: id in before && before[id].phase.Ended? ==> id in after && after[id] == before[id]
    ensures HasGenerator(after, request)
  {
    var id :| id in before && IsGenerator(before[id], request);
    assert IsGenerator(after[id], request);
  }

  /** Entries belong to stored runs, and each stored run has exactly one call that generated it. */
  ghost predicate RunsOk(w: World) {
    && (forall r :: r in w.runs ==> HasGenerator(w.jobs, r))
    && (forall a, b :: a in w.jobs && b in w.jobs && a != b ==> !BothGenerated(w.jobs[a], w.jobs[b]))
    && (forall r :: r !in w.runs ==> EntriesOf(w.entries, r) == [])
  }

  ghost predicate Safe(w: World) {
    LocksExclusive(w) && RunsOk(w) && forall id :: id in w.jobs ==> Fine(w, id)
  }

  /** A move that stores nothing. */
  lemma MoveSafe(w: World, id: nat, phase: Phase)
    requires Safe(w) && id in w.jobs && !w.jobs[id].phase.Ended?
    requires HoldsLock(phase) ==> HoldsLock(w.jobs[id].phase) || LockIsFree(w, LockKey(w.jobs[id].call.request))
    requires Unstored(w.runs, w.jobs[id].(phase := phase))
    requires OutcomeOf(phase).Some? ==>
      !OutcomeOf(phase).value.Generated? && Honest(w.runs, w.entries, w.jobs[id].call, OutcomeOf(phase).value)
    ensures Safe(Move(w, id, phase))
  {
    var after := Move(w, id, phase);
    forall r | r in after.runs ensures HasGenerator(after.jobs, r) {
      GeneratorStays(w.jobs, after.jobs, r);
    }
    forall a | a in after.jobs ensures Fine(after, a) {
      if a != id {
        assert Fine(w, a);
      }
    }
  }

  /** No insert ever meets its own id: the lock keeps every other call with that id outside. */
  lemma InsertNeverCollides(w: World, id: nat)
    requires Safe(w) && id in w.jobs && w.jobs[id].phase.Computed?
    ensures !KeyTaken(w, w.jobs[id].call.request)
  {
    assert Fine(w, id);
  }

  lemma CommitSafe(w: World, id: nat)
    requires Safe(w) && id in w.jobs && w.jobs[id].phase.Inserted?
    ensures Safe(Happen(w, Commit(id)))
  {
    var after := Happen(w, Commit(id));
    CommitRunsOk(w, id);
    forall a | a in after.jobs ensures Fine(after, a) {
      if a == id {
        CommitTellsItself(w, id);
      } else {
        CommitLeavesOthers(w, id, a);
      }
    }
  }

  lemma CommitTellsItself(w: World, id: nat)
    requires Safe(w) && id in w.jobs && w.jobs[id].phase.Inserted?
    ensures Fine(Happen(w, Commit(id)), id)
  {
    assert Fine(w, id);
    EntriesAdded(w.entries, w.jobs[id].call.request, w.jobs[id].phase.pays, w.jobs[id].call.request);
  }

  lemma CommitRunsOk(w: World, id: nat)
    requires Safe(w) && id in w.jobs && w.jobs[id].phase.Inserted?
    ensures RunsOk(Happen(w, Commit(id)))
  {
    var after, request := Happen(w, Commit(id)), w.jobs[id].call.request;
    assert IsGenerator(after.jobs[id], request);
    forall r | r in after.runs ensures HasGenerator(after.jobs, r) {
      if r != request {
        GeneratorStays(w.jobs, after.jobs, r);
      }
    }
    forall a | a in w.jobs && a != id ensures !IsGenerator(w.jobs[a], request) {
      CommitLeavesOthers(w, id, a);
    }
    forall r | r !in after.runs ensures EntriesOf(after.entries, r) == [] {
      EntriesAdded(w.entries, request, w.jobs[id].phase.pays, r);
    }
  }

  lemma CommitLeavesOthers(w: World, id: nat, a: nat)
    requires Safe(w) && id in w.jobs && w.jobs[id].phase.Inserted? && a in w.jobs && a != id
    ensures Fine(Happen(w, Commit(id)), a) && !IsGenerator(w.jobs[a], w.jobs[id].call.request)
  {
    var after, c := Happen(w, Commit(id)), w.jobs[id].call;
    assert Fine(w, id) && Fine(w, a);
    EntriesAdded(w.entries, c.request, w.jobs[id].phase.pays, w.jobs[a].call.request);
    if OutcomeOf(w.jobs[a].phase).Some? && w.jobs[a].call.request != c.request {
      assert EntriesOf(after.entries, w.jobs[a].call.request) == EntriesOf(w.entries, w.jobs[a].call.request);
    }
  }

  lemma DeleteSafe(w: World, run: nat)
    requires Safe(w) && run in w.runs
    ensures Safe(Happen(w, DeleteRun(run)))
  {
    var after := Happen(w, DeleteRun(run));
    forall r ensures r in after.runs <==> r in w.runs {
    }
    forall a | a in after.jobs ensures Fine(after, a) {
      DeleteLeavesJob(w, run, a);
    }
  }

  lemma DeleteLeavesJob(w: World, run: nat, a: nat)
    requires run in w.runs && a in w.jobs && Fine(w, a)
    ensures Fine(Happen(w, DeleteRun(run)), a)
  {
  }

  lemma StartSafe(w: World, id: nat, c: Call)
    requires Safe(w) && id !in w.jobs
    ensures Safe(Happen(w, Start(id, c)))
  {
    var after := Happen(w, Start(id, c));
    forall r | r in after.runs ensures HasGenerator(after.jobs, r) {
      GeneratorStays(w.jobs, after.jobs, r);
    }
    forall a | a in after.jobs ensures Fine(after, a) {
      if a != id {
        assert Fine(w, a);
      }
    }
  }

  /** The holder of a lock takes its next step, short of the commit. */
  lemma HolderMoves(w: World, e: Event, id: nat)
    requires Safe(w) && id in w.jobs && HoldsLock(w.jobs[id].phase)
    requires e == LookUp(id) || (e.Compute? && e.id == id) || e == Close(id)
             || (e == Insert(id) && !KeyTaken(w, w.jobs[id].call.request))
    ensures Safe(Happen(w, e))
  {
    assert Fine(w, id);
    if Happen(w, e) != w {
      MoveSafe(w, id, Happen(w, e).jobs[id].phase);
    }
  }

  lemma EventSafe(w: World, e: Event)
    requires Safe(w)
    ensures Safe(Happen(w, e))
  {
    if Happen(w, e) != w {
      match e
      case Start(id, c) => StartSafe(w, id, c);
      case TakeLock(id) => MoveSafe(w, id, Holding);
      case LookUp(id) => HolderMoves(w, e, id);
      case Compute(id, preview) => HolderMoves(w, e, id);
      case Insert(id) =>
        InsertNeverCollides(w, id);
        HolderMoves(w, e, id);
      case Commit(id) => CommitSafe(w, id);
      case Close(id) => HolderMoves(w, e, id);
      case Crash(id) => MoveSafe(w, id, Crashed);
      case DeleteRun(run) => DeleteSafe(w, run);
    }
  }

  lemma {:induction false} RunSafe(w: World, events: seq<Event>)
    requires Quiet(w)
    ensures Safe(Run(w, events))
  {
    if events != [] {
      RunSafe(w, events[..|events| - 1]);
      EventSafe(Run(w, events[..|events| - 1]), events[|events| - 1]);
    }
  }

  /** The run is the work of this one call, with its entries once each. */
  predicate MadeBy(w: World, request: nat, id: nat)
    requires request in w.runs
  {
    && id in w.jobs && IsGenerator(w.jobs[id], request)
    && EntriesOf(w.entries, request) == w.jobs[id].phase.outcome.pays
    && Owns(w.runs[request], w.jobs[id].call)
    && forall other :: other in w.jobs && other != id ==> !IsGenerator(w.jobs[other], request)
  }

  /** Over every interleaving, with crashes and deletions: each stored run was generated by exactly one
      call, carries that call's caller and payload, and holds its entries, inserted once. Between commits
      and deletions nothing is written at all: PayrollOutcomes.OnlyGenerationWrites. */
  lemma GeneratedExactlyOnce(w: World, events: seq<Event>, request: nat)
    requires Quiet(w)
    ensures var after := Run(w, events);
      && (request in after.runs ==> exists id :: MadeBy(after, request, id))
      && (request !in after.runs ==> EntriesOf(after.entries, request) == [])
  {
    var after := Run(w, events);
    RunSafe(w, events);
    if request in after.runs {
      var id :| id in after.jobs && IsGenerator(after.jobs[id], request);
      assert Fine(after, id);
      forall other | other in after.jobs && other != id ensures !IsGenerator(after.jobs[other], request) {
        assert !BothGenerated(after.jobs[id], after.jobs[other]);
      }
      assert MadeBy(after, request, id);
    }
  }

  /** Whatever a call is answered is true of what is stored, and it is never a duplicate key. */
  lemma AnswersHonest(w: World, events: seq<Event>, id: nat)
    requires Quiet(w) && id in Run(w, events).jobs && OutcomeOf(Run(w, events).jobs[id].phase).Some?
    ensures var after := Run(w, events);
      var o := OutcomeOf(after.jobs[id].phase).value;
      Honest(after.runs, after.entries, after.jobs[id].call, o) && o != DuplicateKey
  {
    RunSafe(w, events);
    assert Fine(Run(w, events), id);
  }

  predicate Spares(events: seq<Event>, run: nat) {
    forall k :: 0 <= k < |events| ==> events[k] != DeleteRun(run)
  }

  /** What a call is told about a stored run. */
  function AnswerFor(row: RunRow, c: Call): Outcome {
    if row.createdBy == c.caller && row.fingerprint == c.payload && !row.deleted then Returned else Conflict
  }

  /** Where a call can stand that had no answer yet when its run was stored. */
  predicate FollowsUp(w: World, id: nat, row: RunRow) {
    id in w.jobs ==>
      var j := w.jobs[id];
      j.phase.Waiting? || j.phase.Holding? || j.phase.Crashed?
      || OutcomeOf(j.phase) == Some(AnswerFor(row, j.call))
  }

  /** The call is for this id and has no answer yet, or has not started. */
  predicate Unanswered(w: World, id: nat, request: nat) {
    id in w.jobs ==> w.jobs[id].call.request == request && OutcomeOf(w.jobs[id].phase).None?
  }

  /** If the call starts in these events, it is for this id. */
  predicate StartsFor(events: seq<Event>, id: nat, request: nat) {
    forall k :: 0 <= k < |events| ==> events[k].Start? && events[k].id == id ==> events[k].call.request == request
  }

  lemma EventFollowsUp(w: World, e: Event, request: nat, id: nat)
    requires request in w.runs
    requires id in w.jobs ==> w.jobs[id].call.request == request
    requires FollowsUp(w, id, w.runs[request])
    requires e.Start? && e.id == id ==> e.call.request == request
    ensures id in Happen(w, e).jobs ==> Happen(w, e).jobs[id].call.request == request
    ensures FollowsUp(Happen(w, e), id, w.runs[request])
  {
  }

  lemma EventSparesRun(w: World, e: Event, request: nat)
    requires Safe(w) && request in w.runs && (w.runs[request].deleted || e != DeleteRun(request))
    ensures request in Happen(w, e).runs && Happen(w, e).runs[request] == w.runs[request]
    ensures EntriesOf(Happen(w, e).entries, request) == EntriesOf(w.entries, request)
  {
    if e.Commit? && e.id in w.jobs && w.jobs[e.id].phase.Inserted? {
      assert Fine(w, e.id);
      EntriesAdded(w.entries, w.jobs[e.id].call.request, w.jobs[e.id].phase.pays, request);
    }
  }

  /** Once a run is stored, every call with its id that has no answer yet - waiting for the lock, holding
      it, or not even started - writes nothing for it. As long as the run is not deleted the call is answered
      with the run if it has its caller and payload, with a conflict if not; and once it is deleted, always
      with a conflict. */
  lemma {:induction false} LaterCallsGetTheRun(w: World, events: seq<Event>, request: nat, id: nat)
    requires Safe(w) && request in w.runs && (w.runs[request].deleted || Spares(events, request))
    requires Unanswered(w, id, request) && StartsFor(events, id, request)
    ensures var after := Run(w, events);
      && Safe(after)
      && request in after.runs && after.runs[request] == w.runs[request]
      && EntriesOf(after.entries, request) == EntriesOf(w.entries, request)
      && (id in after.jobs ==> after.jobs[id].call.request == request)
      && FollowsUp(after, id, w.runs[request])
  {
    if events == [] {
      assert id in w.jobs ==> Fine(w, id);
    } else {
      LaterCallsGetTheRun(w, events[..|events| - 1], request, id);
      EventSafe(Run(w, events[..|events| - 1]), events[|events| - 1]);
      EventSparesRun(Run(w, events[..|events| - 1]), events[|events| - 1], request);
      EventFollowsUp(Run(w, events[..|events| - 1]), events[|events| - 1], request, id);
    }
  }
}
