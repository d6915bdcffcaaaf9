/** The ledger only grows, and the entries of a request tell exactly what became of it. */
module LeaveEntries {
  import opened Wrappers
  import opened Calendar
  import opened LeaveLedger
  import opened LeaveModel

  // ----- what the batch runs append -------------------------------------------------------

  predicate IsAccrual(e: Entry, m: Month) {
    e.source == Accrual && e.reference == RunOf(m) && e.year == m.leaveYear && e.amount >= 0
  }

  /** From position n on, the ledger holds only the month's accruals. */
  predicate AccrualsFrom(ledger: seq<Entry>, n: nat, m: Month) {
    forall k :: n <= k < |ledger| ==> IsAccrual(ledger[k], m)
  }

  lemma {:induction false} AccruePolicyAppends(db: Db, ledger: seq<Entry>, p: nat, m: Month, n: nat)
    requires p < |db.policies| && n <= |db.enrollments|
    ensures AccrualsFrom(AccruePolicy(db, ledger, p, m, n), |ledger|, m)
  {
    if n > 0 {
      AccruePolicyAppends(db, ledger, p, m, n - 1);
      var before, e := AccruePolicy(db, ledger, p, m, n - 1), db.enrollments[n - 1];
      if e.policy == p && e.year == m.leaveYear && !Accrued(before, n - 1, m) {
        assert IsAccrual(AccrualEntry(db, n - 1, m), m);
      }
    }
  }

  lemma {:induction false} AccrueAppends(db: Db, m: Month, n: nat)
    requires n <= |db.policies|
    ensures AccrualsFrom(AccruePolicies(db, m, n), |db.ledger|, m)
  {
    if n > 0 {
      AccrueAppends(db, m, n - 1);
      var before := AccruePolicies(db, m, n - 1);
      if AccruesMonthly(db.policies[n - 1]) {
        AccruePolicyAppends(db, before, n - 1, m, |db.enrollments|);
        var after := AccruePolicy(db, before, n - 1, m, |db.enrollments|);
        assert forall k :: 0 <= k < |before| ==> after[k] == before[k];
      }
    }
  }

  predicate IsCarry(e: Entry, run: Reference) {
    e.reference == run && ((e.source == CarryoverOut && e.amount < 0) || (e.source == CarryoverIn && e.amount > 0))
  }

  /** From position n on, the ledger holds only the run's carry-overs. */
  predicate CarriesFrom(ledger: seq<Entry>, n: nat, run: Reference) {
    forall k :: n <= k < |ledger| ==> IsCarry(ledger[k], run)
  }

  lemma {:induction false} CarryAppends(db: Db, n: nat, fromYear: int, toYear: int)
    requires n <= |db.enrollments|
    ensures CarriesFrom(CarryFirst(db, n, fromYear, toYear).ledger, |db.ledger|, CarryoverRun(fromYear, toYear))
  {
    if n > 0 {
      CarryAppends(db, n - 1, fromYear, toYear);
      var before := CarryFirst(db, n - 1, fromYear, toYear);
      var after := CarryOne(before, n - 1, fromYear, toYear);
      assert forall k :: 0 <= k < |before.ledger| ==> after.ledger[k] == before.ledger[k];
    }
  }

  /** Append-only: no call changes or removes a ledger entry, and no call forgets a request or
      changes who asked for which days. */
  lemma StepAppends(db: Db, op: Op)
    ensures db.ledger <= Step(db, op).ledger
    ensures |db.requests| <= |Step(db, op).requests|
    ensures forall i :: 0 <= i < |db.requests| ==> SameAsk(db.requests[i], Step(db, op).requests[i])
  {
  }

  predicate SameAsk(r: Request, after: Request) {
    after == r.(status := after.status, approvedBy := after.approvedBy,
                rejectedBy := after.rejectedBy, cancelledBy := after.cancelledBy)
  }

  // ----- the entries of one request -------------------------------------------------------

  function Rows(ledger: seq<Entry>, request: nat, source: Source): int {
    Sum(Measure.Rows, RequestEntries(request, Only(source)), ledger)
  }

  function Booked(ledger: seq<Entry>, request: nat, source: Source): int {
    Sum(Signed, RequestEntries(request, Only(source)), ledger)
  }

  /** Everything booked for the request, over all years. */
  function Net(ledger: seq<Entry>, request: nat): int {
    Sum(Signed, RequestEntries(request, AnySource), ledger)
  }

  /** The bookkeeping of request i is right for its status. */
  predicate Settled(db: Db, i: nat)
    requires i < |db.requests|
  {
    var r, l := db.requests[i], db.ledger;
    var approved := r.approvedBy.Some?;
    var reversed := approved && r.status == Cancelled;
    && (r.status == Approved ==> approved)
    && (r.status == Pending || r.status == Rejected ==> !approved)
    && Rows(l, i, Consumed) == (if approved then 1 else 0)
    && Booked(l, i, Consumed) == (if approved then -r.days else 0)
    && Rows(l, i, Reversal) == (if reversed then 1 else 0)
    && Booked(l, i, Reversal) == (if reversed then r.days else 0)
    && Net(l, i) == (if r.status == Approved then -r.days else 0)
  }

  predicate NoStrayEntries(db: Db) {
    forall k :: 0 <= k < |db.ledger| && db.ledger[k].reference.ForRequest? ==>
      db.ledger[k].reference.request < |db.requests|
  }

  predicate AllSettled(db: Db) {
    NoStrayEntries(db) && forall i :: 0 <= i < |db.requests| ==> Settled(db, i)
  }

  predicate Silent(ledger: seq<Entry>, after: seq<Entry>, request: nat) {
    ledger <= after
    && forall k :: |ledger| <= k < |after| ==> after[k].reference != ForRequest(request)
  }

  lemma SilentSums(ledger: seq<Entry>, after: seq<Entry>, m: Measure, request: nat, kind: Kind)
    requires Silent(ledger, after, request)
    ensures Sum(m, RequestEntries(request, kind), after) == Sum(m, RequestEntries(request, kind), ledger)
  {
    SumUnchanged(m, RequestEntries(request, kind), ledger, after);
  }

  lemma StaysSettled(db: Db, after: Db, i: nat)
    requires i < |db.requests| && i < |after.requests| && Settled(db, i)
    requires Silent(db.ledger, after.ledger, i)
    requires var r, s := db.requests[i], after.requests[i];
      s.days == r.days && s.approvedBy == r.approvedBy
      && (s.status == r.status || (r.status == Pending && (s.status == Rejected || s.status == Cancelled)))
    ensures Settled(after, i)
  {
    SilentSums(db.ledger, after.ledger, Measure.Rows, i, Only(Consumed));
    SilentSums(db.ledger, after.ledger, Signed, i, Only(Consumed));
    SilentSums(db.ledger, after.ledger, Measure.Rows, i, Only(Reversal));
    SilentSums(db.ledger, after.ledger, Signed, i, Only(Reversal));
    SilentSums(db.ledger, after.ledger, Signed, i, AnySource);
  }

  lemma EntryAddsTo(ledger: seq<Entry>, e: Entry, i: nat, s: Source)
    requires e.reference == ForRequest(i)
    ensures Rows(ledger + [e], i, s) == Rows(ledger, i, s) + (if s == e.source then 1 else 0)
    ensures Booked(ledger + [e], i, s) == Booked(ledger, i, s) + (if s == e.source then e.amount else 0)
    ensures Net(ledger + [e], i) == Net(ledger, i) + e.amount
  {
    SumAppend(Measure.Rows, RequestEntries(i, Only(s)), ledger, e);
    SumAppend(Signed, RequestEntries(i, Only(s)), ledger, e);
    SumAppend(Signed, RequestEntries(i, AnySource), ledger, e);
  }

  lemma UnknownRequestUnbooked(db: Db)
    requires NoStrayEntries(db)
    ensures var i := |db.requests|;
      && Rows(db.ledger, i, Consumed) == Rows(db.ledger, i, Reversal) == 0
      && Booked(db.ledger, i, Consumed) == Booked(db.ledger, i, Reversal) == Net(db.ledger, i) == 0
  {
    var i := |db.requests|;
    SumNone(Measure.Rows, RequestEntries(i, Only(Consumed)), db.ledger);
    SumNone(Measure.Rows, RequestEntries(i, Only(Reversal)), db.ledger);
    SumNone(Signed, RequestEntries(i, Only(Consumed)), db.ledger);
    SumNone(Signed, RequestEntries(i, Only(Reversal)), db.ledger);
    SumNone(Signed, RequestEntries(i, AnySource), db.ledger);
  }

  /** A call that only adds entries of other kinds. */
  lemma OtherEntriesSettled(db: Db, after: Db)
    requires AllSettled(db) && after.requests == db.requests && db.ledger <= after.ledger
    requires forall k :: |db.ledger| <= k < |after.ledger| ==> !after.ledger[k].reference.ForRequest?
    ensures AllSettled(after)
  {
    forall i | 0 <= i < |db.requests| ensures Settled(after, i) {
      StaysSettled(db, after, i);
    }
  }

  /** A call that decides request id, adding at most that request's own entry. */
  lemma DecisionSettled(db: Db, after: Db, id: nat)
    requires AllSettled(db) && id < |db.requests| == |after.requests|
    requires after.requests == db.requests[id := after.requests[id]] && db.ledger <= after.ledger
    requires forall k :: |db.ledger| <= k < |after.ledger| ==> after.ledger[k].reference == ForRequest(id)
    requires Settled(after, id)
    ensures AllSettled(after)
  {
    forall i | 0 <= i < |after.requests| ensures Settled(after, i) {
      if i != id {
        StaysSettled(db, after, i);
      }
    }
  }

  /** A decision with its entry: consumed on approval, reversal on cancelling what was approved. */
  lemma EntrySettled(db: Db, after: Db, id: nat, e: Entry)
    requires AllSettled(db) && id < |db.requests| == |after.requests|
    requires after.requests == db.requests[id := after.requests[id]] && after.ledger == db.ledger + [e]
    requires e.reference == ForRequest(id) && after.requests[id].days == db.requests[id].days
    requires var r, s := db.requests[id], after.requests[id];
      || (r.status == Pending && s.status == Approved && s.approvedBy.Some?
          && e.source == Consumed && e.amount == -r.days)
      || (r.status == Approved && s.status == Cancelled && s.approvedBy == r.approvedBy
          && e.source == Reversal && e.amount == r.days)
    ensures AllSettled(after)
  {
    assert Settled(db, id);
    EntryAddsTo(db.ledger, e, id, Consumed);
    EntryAddsTo(db.ledger, e, id, Reversal);
    assert Settled(after, id);
    DecisionSettled(db, after, id);
  }

  lemma ApproveSettled(db: Db, actor: nat, id: nat)
    requires AllSettled(db)
    ensures AllSettled(Approve(db, actor, id).0)
  {
    var after := Approve(db, actor, id).0;
    if id < |db.requests| && db.requests[id].status == Pending && after.ledger != db.ledger {
      EntrySettled(db, after, id, ConsumedEntry(db, id));
    }
  }

  lemma CancelSettled(db: Db, actor: nat, id: nat, today: Date)
    requires AllSettled(db)
    ensures AllSettled(Cancel(db, actor, id, today).0)
  {
    var after := Cancel(db, actor, id, today).0;
    if id < |db.requests| && db.requests[id].status == Approved {
      EntrySettled(db, after, id, ReversalEntry(db, id, today));
    } else if id < |db.requests| && db.requests[id].status == Pending {
      StaysSettled(db, after, id);
      DecisionSettled(db, after, id);
    }
  }

  lemma SubmitSettled(db: Db, after: Db)
    requires AllSettled(db) && after.ledger == db.ledger && |after.requests| == |db.requests| + 1
    requires after.requests[..|db.requests|] == db.requests
    requires after.requests[|db.requests|].status == Pending && after.requests[|db.requests|].approvedBy == None
    ensures AllSettled(after)
  {
    UnknownRequestUnbooked(db);
    forall i | 0 <= i < |after.requests| ensures Settled(after, i) {
      if i < |db.requests| {
        StaysSettled(db, after, i);
      }
    }
  }

  lemma StepSettled(db: Db, op: Op)
    requires AllSettled(db)
    ensures AllSettled(Step(db, op))
  {
    var after := Step(db, op);
    match op
    case SubmitOp(_, _, _, _, _, _) =>
      if after != db {
        SubmitSettled(db, after);
      }
    case ApproveOp(actor, id) => ApproveSettled(db, actor, id);
    case RejectOp(_, id) =>
      if id < |db.requests| && db.requests[id].status == Pending {
        StaysSettled(db, after, id);
        DecisionSettled(db, after, id);
      }
    case CancelOp(actor, id, today) => CancelSettled(db, actor, id, today);
    case AccrualOp(m) =>
      if ValidMonth(m) {
        AccrueAppends(db, m, |db.policies|);
        assert AccrualsFrom(after.ledger, |db.ledger|, m);
      }
      OtherEntriesSettled(db, after);
    case CarryoverOp(fromYear, toYear, _, _) =>
      CarryAppends(db, |db.enrollments|, fromYear, toYear);
      assert after == db || CarriesFrom(after.ledger, |db.ledger|, CarryoverRun(fromYear, toYear));
      OtherEntriesSettled(db, after);
    case _ => OtherEntriesSettled(db, after);
  }

  lemma {:induction false} RunSettled(db: Db, ops: seq<Op>)
    requires Fresh(db)
    ensures AllSettled(Run(db, ops))
  {
    if ops != [] {
      RunSettled(db, ops[..|ops| - 1]);
      StepSettled(Run(db, ops[..|ops| - 1]), ops[|ops| - 1]);
    }
  }

  // ----- entries against history ----------------------------------------------------------

  /** At some moment of the run the request stood approved. */
  predicate EverApproved(db: Db, ops: seq<Op>, i: nat) {
    ApprovedIn(Run(db, ops), i) || (ops != [] && EverApproved(db, ops[..|ops| - 1], i))
  }

  predicate ApprovedIn(db: Db, i: nat) {
    i < |db.requests| && db.requests[i].status == Approved
  }

  lemma StepApprover(db: Db, op: Op, i: nat)
    requires AllSettled(db) && i < |Step(db, op).requests|
    ensures Step(db, op).requests[i].approvedBy.Some?
       <==> (i < |db.requests| && db.requests[i].approvedBy.Some?) || ApprovedIn(Step(db, op), i)
  {
    StepAppends(db, op);
    if i < |db.requests| {
      assert Settled(db, i);
    }
  }

  lemma {:induction false} ApproverTellsHistory(db: Db, ops: seq<Op>, i: nat)
    requires Fresh(db) && i < |Run(db, ops).requests|
    ensures Run(db, ops).requests[i].approvedBy.Some? <==> EverApproved(db, ops, i)
  {
    if ops != [] {
      var front := ops[..|ops| - 1];
      RunSettled(db, front);
      StepApprover(Run(db, front), ops[|ops| - 1], i);
      if i < |Run(db, front).requests| {
        ApproverTellsHistory(db, front, i);
      } else {
        NeverBeforeSubmitted(db, front, i);
      }
    }
  }

  lemma {:induction false} NeverBeforeSubmitted(db: Db, ops: seq<Op>, i: nat)
    requires i >= |Run(db, ops).requests|
    ensures !EverApproved(db, ops, i)
  {
    if ops != [] {
      StepAppends(Run(db, ops[..|ops| - 1]), ops[|ops| - 1]);
      NeverBeforeSubmitted(db, ops[..|ops| - 1], i);
    }
  }

  /** After any run a request has one consumed entry if it was ever approved and none otherwise, one
      reversal if it was then cancelled and none otherwise, of opposite amounts; over all years it
      costs its days while approved and nothing at any other time. That a further approval of an
      approved request is answered and writes nothing is ReapproveWritesNothing. */
  lemma EntriesTellHistory(db: Db, ops: seq<Op>, i: nat)
    requires Fresh(db) && i < |Run(db, ops).requests|
    ensures var after := Run(db, ops);
      var r, ever := after.requests[i], EverApproved(db, ops, i);
      var reversed := ever && r.status == Cancelled;
      && Rows(after.ledger, i, Consumed) == (if ever then 1 else 0)
      && Rows(after.ledger, i, Reversal) == (if reversed then 1 else 0)
      && Booked(after.ledger, i, Consumed) == (if ever then -r.days else 0)
      && Booked(after.ledger, i, Reversal) == (if reversed then r.days else 0)
      && Net(after.ledger, i) == (if r.status == Approved then -r.days else 0)
  {
    RunSettled(db, ops);
    ApproverTellsHistory(db, ops, i);
    assert Settled(Run(db, ops), i);
  }

  /** Approving an approved request again writes nothing. */
  lemma ReapproveWritesNothing(db: Db, actor: nat, again: nat, id: nat)
    ensures var (after, reply) := Approve(db, actor, id);
      reply == Row(id) ==> Approve(after, again, id) == (after, Row(id))
  {
  }
}
