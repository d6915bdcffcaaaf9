/** How a payroll generation call can end, when a run is deleted, and where what is stored comes from. */
module PayrollOutcomes {
  import opened Wrappers
  import opened PayrollGeneration

  // ----- what an open call can still do ---------------------------------------------------

  /** The same over whole runs: from the moment a run is stored until it is deleted, and again from then on,
      it and its entries stay as they are, and no call with its id that was still open then is ever told
      anything else. */
  lemma StoredRunAnswersEveryCall(w: World, early: seq<Event>, late: seq<Event>, request: nat, id: nat)
    requires Quiet(w) && request in Run(w, early).runs
    requires Run(w, early).runs[request].deleted || Spares(late, request)
    requires Unanswered(Run(w, early), id, request) && StartsFor(late, id, request)
    ensures var stored, after := Run(w, early), Run(w, early + late);
      && request in after.runs && after.runs[request] == stored.runs[request]
      && EntriesOf(after.entries, request) == EntriesOf(stored.entries, request)
      && FollowsUp(after, id, stored.runs[request])
  {
    RunSafe(w, early);
    RunConcat(w, early, late);
    LaterCallsGetTheRun(Run(w, early), late, request, id);
  }

  lemma HeldCallCanEnd(w: World, request: nat, id: nat)
    requires request in w.runs && id in w.jobs && w.jobs[id].call.request == request && w.jobs[id].phase.Holding?
    ensures var done := Happen(Happen(w, LookUp(id)), Close(id));
      done == Move(w, id, Ended(AnswerFor(w.runs[request], w.jobs[id].call)))
  {
    assert Happen(w, LookUp(id)) == Move(w, id, Answered(AnswerFor(w.runs[request], w.jobs[id].call)));
  }

  /** And it can always be told: once nobody else holds the lock, the call's own three steps end it
      with that answer and write nothing. */
  lemma OpenCallCanEnd(w: World, request: nat, id: nat)
    requires request in w.runs && id in w.jobs && w.jobs[id].call.request == request
    requires w.jobs[id].phase.Holding? || (w.jobs[id].phase.Waiting? && LockIsFree(w, LockKey(request)))
    ensures var done := Happen(Happen(Happen(w, TakeLock(id)), LookUp(id)), Close(id));
      && done.jobs[id].phase == Ended(AnswerFor(w.runs[request], w.jobs[id].call))
      && done.runs == w.runs && done.entries == w.entries
  {
    assert Happen(w, TakeLock(id)) == Move(w, id, Holding);
    HeldCallCanEnd(Move(w, id, Holding), request, id);
  }

  /** And where no run is stored: the call that gets the lock looks and computes, and if its preview fails it can
      only end by saying so, with nothing stored. */
  lemma FirstCallComputes(w: World, id: nat, pays: seq<Pay>)
    requires id in w.jobs && w.jobs[id].phase.Holding? && w.jobs[id].call.request !in w.runs
    ensures var looked := Happen(w, LookUp(id));
      && Happen(looked, Compute(id, Some(pays))) == Move(w, id, Computed(pays))
      && Happen(Happen(looked, Compute(id, None)), Close(id)) == Move(w, id, Ended(NotComputable))
  {
    assert Happen(w, LookUp(id)) == Move(w, id, Computing);
    assert Happen(Move(w, id, Computing), Compute(id, None)) == Move(w, id, Answered(NotComputable));
  }

  /** Once it has computed, it can always go on to store its run, not deleted, with the computed entries, and is
      told so. */
  lemma ComputedCallCanStore(w: World, id: nat)
    requires Safe(w) && id in w.jobs && w.jobs[id].phase.Computed?
    ensures var c, pays := w.jobs[id].call, w.jobs[id].phase.pays;
      var done := Happen(Happen(w, Insert(id)), Commit(id));
      && done.runs == w.runs[c.request := RunRow(c.caller, c.payload, false)]
      && EntriesOf(done.entries, c.request) == pays
      && done.jobs[id].phase == Ended(Generated(pays))
  {
    var c, pays := w.jobs[id].call, w.jobs[id].phase.pays;
    InsertNeverCollides(w, id);
    assert Fine(w, id);
    assert Happen(w, Insert(id)) == Move(w, id, Inserted(pays));
    EntriesAdded(w.entries, c.request, pays, c.request);
  }

  // ----- deletion -------------------------------------------------------------------------

  /** The run was deleted after it was stored. */
  predicate DeletedSince(w: World, events: seq<Event>, request: nat) {
    events != []
    && (DeletedSince(w, events[..|events| - 1], request)
        || (events[|events| - 1] == DeleteRun(request) && request in Run(w, events[..|events| - 1]).runs))
  }

  /** Over every interleaving a stored run is deleted exactly if somebody deleted it: it is not when it is
      stored, and nothing undoes or does it but a deletion. */
  lemma {:induction false} DeletedIffSomebodyDid(w: World, events: seq<Event>, request: nat)
    requires Quiet(w)
    ensures var now := Run(w, events);
      && (request in now.runs ==> (now.runs[request].deleted <==> DeletedSince(w, events, request)))
      && (request !in now.runs ==> !DeletedSince(w, events, request))
  {
    if events != [] {
      var before, e := Run(w, events[..|events| - 1]), events[|events| - 1];
      DeletedIffSomebodyDid(w, events[..|events| - 1], request);
      RunSafe(w, events[..|events| - 1]);
      if e.Commit? && e.id in before.jobs {
        assert Fine(before, e.id);
      }
    }
  }

  predicate ToldGenerated(w: World, id: nat) {
    id in w.jobs && OutcomeOf(w.jobs[id].phase).Some? && OutcomeOf(w.jobs[id].phase).value.Generated?
  }

  /** What a call for the id of a generated run is told. */
  function SecondAnswer(generated: Call, c: Call, deleted: bool): Outcome {
    if c.caller == generated.caller && c.payload == generated.payload && !deleted then Returned else Conflict
  }

  /** Once some call was told that it generated a run, every other call for the id that is open then or
      starts later can end only one way: with the run, if it comes from the same caller with the same payload
      and nobody has deleted the run; with a conflict if not. */
  lemma GeneratedThenReturned(w: World, early: seq<Event>, late: seq<Event>, first: nat, id: nat)
    requires Quiet(w) && ToldGenerated(Run(w, early), first)
    requires DeletedSince(w, early, Run(w, early).jobs[first].call.request)
             || Spares(late, Run(w, early).jobs[first].call.request)
    requires Unanswered(Run(w, early), id, Run(w, early).jobs[first].call.request)
    requires StartsFor(late, id, Run(w, early).jobs[first].call.request)
    ensures var generated, after := Run(w, early).jobs[first].call, Run(w, early + late);
      var deleted := DeletedSince(w, early, generated.request);
      id in after.jobs && OutcomeOf(after.jobs[id].phase).Some? ==>
        OutcomeOf(after.jobs[id].phase).value == SecondAnswer(generated, after.jobs[id].call, deleted)
  {
    var request := Run(w, early).jobs[first].call.request;
    RunSafe(w, early);
    assert Fine(Run(w, early), first);
    DeletedIffSomebodyDid(w, early, request);
    StoredRunAnswersEveryCall(w, early, late, request, id);
  }

  // ----- where calls and entries come from ------------------------------------------------

  /** What a call is working with, or was told it generated. */
  function PaysOf(p: Phase): Option<seq<Pay>> {
    match p
    case Computed(pays) => Some(pays)
    case Inserted(pays) => Some(pays)
    case Answered(o) => if o.Generated? then Some(o.pays) else None
    case Ended(o) => if o.Generated? then Some(o.pays) else None
    case _ => None
  }

  /** The call is one that was started as it is, what it generated is what its own preview computed, and it
      was told so of a preview that failed. */
  predicate Traced(job: Job, id: nat, events: seq<Event>) {
    && Start(id, job.call) in events
    && (PaysOf(job.phase).Some? ==> Compute(id, Some(PaysOf(job.phase).value)) in events)
    && (OutcomeOf(job.phase) == Some(NotComputable) ==> Compute(id, None) in events)
  }

  lemma EventTraced(w: World, e: Event, events: seq<Event>, id: nat)
    requires id in w.jobs ==> Traced(w.jobs[id], id, events)
    ensures id in Happen(w, e).jobs ==> Traced(Happen(w, e).jobs[id], id, events + [e])
  {
    if id in w.jobs && id in Happen(w, e).jobs && Happen(w, e).jobs[id] != w.jobs[id] {
      assert e.id == id;
    }
  }

  /** Over every interleaving: nothing is generated but what a started call's own preview computed. */
  lemma {:induction false} GeneratedAsComputed(w: World, events: seq<Event>, id: nat)
    requires Quiet(w)
    ensures id in Run(w, events).jobs ==> Traced(Run(w, events).jobs[id], id, events)
  {
    if events != [] {
      var front, e := events[..|events| - 1], events[|events| - 1];
      GeneratedAsComputed(w, front, id);
      EventTraced(Run(w, front), e, front, id);
      assert events == front + [e];
    }
  }

  /** Only the commit of a generating call writes: every other answer leaves runs and entries alone. */
  lemma OnlyGenerationWrites(w: World, e: Event)
    requires !e.Commit? && !e.DeleteRun?
    ensures Happen(w, e).runs == w.runs && Happen(w, e).entries == w.entries
  {
  }

  // ----- runs -----------------------------------------------------------------------------

  lemma {:induction false} RunConcat(w: World, early: seq<Event>, late: seq<Event>)
    ensures Run(w, early + late) == Run(Run(w, early), late)
    decreases |late|
  {
    if late == [] {
      assert early + late == early;
    } else {
      var n := |late| - 1;
      RunConcat(w, early, late[..n]);
      assert (early + late)[..|early + late| - 1] == early + late[..n];
    }
  }
}
