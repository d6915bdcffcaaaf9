/** Requests never overlap, and what they charge fits in the year. */
module LeaveRequests {
  import opened Wrappers
  import opened Calendar
  import opened LeaveCalc
  import opened LeaveModel

  predicate Apart(a: Request, b: Request) {
    a.end < b.start || b.end < a.start
  }

  predicate Rivals(a: Request, b: Request) {
    a.employee == b.employee && IsLive(a) && IsLive(b)
  }

  /** The live requests of one employee have pairwise disjoint date ranges. */
  predicate Disjoint(requests: seq<Request>) {
    forall i, j :: 0 <= i < j < |requests| && Rivals(requests[i], requests[j]) ==> Apart(requests[i], requests[j])
  }

  predicate RightlyCharged(r: Request) {
    && r.start <= r.end
    && (r.hours.None? ==> r.days == 100 * |Days(r.start, r.end) * WeekdaysOf(YearOf(r.start))|)
  }

  predicate Sound(requests: seq<Request>) {
    Disjoint(requests) && forall i :: 0 <= i < |requests| ==> RightlyCharged(requests[i])
  }

  lemma NewRequestSound(requests: seq<Request>, r: Request)
    requires Sound(requests) && RightlyCharged(r) && !OverlapsExisting(requests, r.employee, r.start, r.end)
    ensures Sound(requests + [r])
  {
    var after := requests + [r];
    forall i, j | 0 <= i < j < |after| && Rivals(after[i], after[j])
      ensures Apart(after[i], after[j])
    {
      if j == |requests| {
        assert !Conflicts(requests[i], r.employee, r.start, r.end);
      }
    }
  }

  /** A decision may retire a request; it never brings one back. */
  predicate Settles(r: Request, after: Request) {
    && after == r.(status := after.status, approvedBy := after.approvedBy,
                   rejectedBy := after.rejectedBy, cancelledBy := after.cancelledBy)
    && (IsLive(after) ==> IsLive(r))
  }

  lemma DecisionSound(requests: seq<Request>, id: nat, after: Request)
    requires Sound(requests) && id < |requests| && Settles(requests[id], after)
    ensures Sound(requests[id := after])
  {
    var now := requests[id := after];
    forall i, j | 0 <= i < j < |now| && Rivals(now[i], now[j])
      ensures Apart(now[i], now[j])
    {
      assert Apart(requests[i], requests[j]);
    }
  }

  lemma StepSound(db: Db, op: Op)
    requires Sound(db.requests)
    ensures Sound(Step(db, op).requests)
  {
    match op
    case SubmitOp(actor, employee, policy, start, end, hours) =>
      if Step(db, op) != db {
        var days := LeaveDays(start, end, hours, 8.0, None, Some({}));
        assert Days(start, end) * WeekdaysOf(YearOf(start)) - {} == Days(start, end) * WeekdaysOf(YearOf(start));
        NewRequestSound(db.requests, Step(db, op).requests[|db.requests|]);
      }
    case ApproveOp(_, id) =>
      if id < |db.requests| && Step(db, op) != db {
        DecisionSound(db.requests, id, Step(db, op).requests[id]);
      }
    case RejectOp(_, id) =>
      if id < |db.requests| && Step(db, op) != db {
        DecisionSound(db.requests, id, Step(db, op).requests[id]);
      }
    case CancelOp(_, id, _) =>
      if id < |db.requests| && Step(db, op) != db {
        DecisionSound(db.requests, id, Step(db, op).requests[id]);
      }
    case _ =>
  }

  /** Whatever is called, in whatever order, an employee's live requests never overlap and every
      day-counted one is charged exactly its weekdays in the year it starts. */
  lemma RunSound(db: Db, ops: seq<Op>)
    requires Fresh(db)
    ensures Sound(Run(db, ops).requests)
  {
    RunStaysSound(db, ops);
  }

  lemma {:induction false} RunStaysSound(db: Db, ops: seq<Op>)
    requires Sound(db.requests)
    ensures Sound(Run(db, ops).requests)
  {
    if ops != [] {
      RunStaysSound(db, ops[..|ops| - 1]);
      StepSound(Run(db, ops[..|ops| - 1]), ops[|ops| - 1]);
    }
  }

  // ----- what the overlap check decides ---------------------------------------------------

  predicate SharesADay(r: Request, employee: nat, start: Date, end: Date) {
    r.employee == employee && IsLive(r) && Days(r.start, r.end) * Days(start, end) != {}
  }

  /** In every run, for a range the right way round, the overlap check finds a request other than the
      excluded one exactly when a live one of the employee has a day in common with the range. */
  lemma OverlapIsASharedDay(db: Db, ops: seq<Op>, employee: nat, start: Date, end: Date, exclude: Option<nat>)
    requires Fresh(db) && start <= end
    ensures var requests := Run(db, ops).requests;
      OverlapsOther(requests, employee, start, end, exclude)
      <==> exists i :: 0 <= i < |requests| && Some(i) != exclude && SharesADay(requests[i], employee, start, end)
  {
    RunSound(db, ops);
    var requests := Run(db, ops).requests;
    forall i | 0 <= i < |requests|
      ensures Conflicts(requests[i], employee, start, end) <==> SharesADay(requests[i], employee, start, end)
    {
      var r := requests[i];
      assert RightlyCharged(r);
      if Conflicts(r, employee, start, end) {
        var d := if r.start <= start then start else r.start;
        assert d in Days(r.start, r.end) * Days(start, end);
      }
    }
  }

  lemma StepSettles(db: Db, op: Op, id: nat)
    requires id < |db.requests|
    ensures id < |Step(db, op).requests| && Settles(db.requests[id], Step(db, op).requests[id])
  {
  }

  lemma {:induction false} RunSettles(db: Db, ops: seq<Op>, id: nat)
    requires id < |db.requests|
    ensures id < |Run(db, ops).requests| && Settles(db.requests[id], Run(db, ops).requests[id])
  {
    if ops != [] {
      RunSettles(db, ops[..|ops| - 1], id);
      StepSettles(Run(db, ops[..|ops| - 1]), ops[|ops| - 1], id);
    }
  }

  /** The employee and the policy admit a request at all. */
  predicate MayAsk(db: Db, employee: nat, policy: nat) {
    KnownEmployee(db, employee) && ActivePolicy(db, policy) && Eligible(db.employees[employee], db.policies[policy])
  }

  /** A submit takes its range. In every run, whatever is called before and after it: as long as its
      request is live, every submit of the employee for a range that meets it is refused and writes
      nothing. */
  lemma RangeHeldWhileLive(db: Db, early: seq<Op>, ask: Op, late: seq<Op>, other: Op)
    requires Fresh(db) && ask.SubmitOp? && Call(Run(db, early), ask).1.Row?
    requires other.SubmitOp? && other.employee == ask.employee && other.start <= ask.end && ask.start <= other.end
    ensures var (held, reply) := Call(Run(db, early), ask);
      var now := Run(held, late);
      && reply.id < |now.requests|
      && (IsLive(now.requests[reply.id]) ==> Call(now, other).0 == now && Call(now, other).1.Failed?)
  {
    var (held, reply) := Call(Run(db, early), ask);
    var now := Run(held, late);
    RunSettles(held, late, reply.id);
    if IsLive(now.requests[reply.id]) {
      assert Conflicts(now.requests[reply.id], other.employee, other.start, other.end);
    }
  }

  /** A rejection or cancellation that goes through frees the range: in every run, nothing else of the
      employee overlaps it then, and the same submit is accepted whenever its employee and policy still
      admit it. */
  lemma RangeFreedOnceRetired(db: Db, early: seq<Op>, ask: Op, late: seq<Op>, decision: Op)
    requires Fresh(db) && ask.SubmitOp? && Call(Run(db, early), ask).1.Row?
    requires decision.RejectOp? || decision.CancelOp?
    requires decision.request == Call(Run(db, early), ask).1.id
    requires Call(Run(Call(Run(db, early), ask).0, late), decision).1.Row?
    ensures var freed := Call(Run(Call(Run(db, early), ask).0, late), decision).0;
      && !OverlapsExisting(freed.requests, ask.employee, ask.start, ask.end)
      && (Call(freed, ask).1.Row? <==> MayAsk(freed, ask.employee, ask.policy))
  {
    var (held, reply) := Call(Run(db, early), ask);
    var now := Run(held, late);
    RunSound(db, early);
    StepSound(Run(db, early), ask);
    RunStaysSound(held, late);
    RunSettles(held, late, reply.id);
    SubmittedRow(Run(db, early), ask);
    DecisionRetires(now, decision);
    RetiringFrees(now.requests, Call(now, decision).0.requests, reply.id);
    FreeMeansAdmitted(Run(db, early), Call(now, decision).0, ask);
  }

  lemma SubmittedRow(db: Db, ask: Op)
    requires ask.SubmitOp? && Call(db, ask).1.Row?
    ensures var (held, reply) := Call(db, ask);
      && reply.id < |held.requests|
      && held.requests[reply.id].employee == ask.employee
      && held.requests[reply.id].start == ask.start <= ask.end == held.requests[reply.id].end
  {
  }

  lemma DecisionRetires(db: Db, decision: Op)
    requires decision.RejectOp? || decision.CancelOp?
    requires Call(db, decision).1.Row?
    ensures var id, after := decision.request, Call(db, decision).0.requests;
      && id < |db.requests| == |after| && IsLive(db.requests[id]) && !IsLive(after[id])
      && after == db.requests[id := after[id]]
  {
  }

  /** Retiring one of disjoint live requests leaves its range to nobody. */
  lemma RetiringFrees(requests: seq<Request>, after: seq<Request>, id: nat)
    requires Sound(requests) && id < |requests| == |after| && IsLive(requests[id]) && !IsLive(after[id])
    requires after == requests[id := after[id]]
    ensures !OverlapsExisting(after, requests[id].employee, requests[id].start, requests[id].end)
  {
    var r := requests[id];
    forall i | 0 <= i < |after| ensures !Conflicts(after[i], r.employee, r.start, r.end) {
      if i < id && Rivals(requests[i], r) {
        assert Apart(requests[i], r);
      } else if id < i && Rivals(r, requests[i]) {
        assert Apart(r, requests[i]);
      }
    }
  }

  /** A submit accepted once passes again wherever its range is free and its employee and policy admit it. */
  lemma FreeMeansAdmitted(db: Db, freed: Db, ask: Op)
    requires ask.SubmitOp? && Call(db, ask).1.Row?
    requires !OverlapsExisting(freed.requests, ask.employee, ask.start, ask.end)
    ensures Call(freed, ask).1.Row? <==> MayAsk(freed, ask.employee, ask.policy)
  {
  }

  /** A rejected or cancelled request stays as it is through every run, and every later decision on
      it is an illegal transition. */
  lemma {:induction false} RetiredForGood(db: Db, ops: seq<Op>, id: nat, actor: nat, today: Date)
    requires id < |db.requests| && !IsLive(db.requests[id])
    ensures var now := Run(db, ops);
      && id < |now.requests| && now.requests[id] == db.requests[id]
      && Approve(now, actor, id) == (now, Failed(IllegalTransition(db.requests[id].status, Approved)))
      && Reject(now, actor, id) == (now, Failed(IllegalTransition(db.requests[id].status, Rejected)))
      && Cancel(now, actor, id, today) == (now, Failed(IllegalTransition(db.requests[id].status, Cancelled)))
  {
    if ops != [] {
      RetiredForGood(db, ops[..|ops| - 1], id, actor, today);
    }
  }

  // ----- the year's budget ----------------------------------------------------------------

  predicate CountsIn(r: Request, employee: nat, year: int) {
    r.employee == employee && IsLive(r) && r.hours.None? && YearOf(r.start) == year
  }

  /** What an employee's live day-counted requests starting in a year are charged together. */
  function TotalCharged(requests: seq<Request>, employee: nat, year: int): int {
    if requests == [] then 0
    else
      var n := |requests| - 1;
      TotalCharged(requests[..n], employee, year) + if CountsIn(requests[n], employee, year) then requests[n].days
          else 0
  }

  /** The weekdays those requests take. */
  function Taken(requests: seq<Request>, employee: nat, year: int): set<int> {
    if requests == [] then {}
    else
      var n := |requests| - 1;
      Taken(requests[..n], employee, year)
      + if CountsIn(requests[n], employee, year) then Days(requests[n].start, requests[n].end) * WeekdaysOf(year)
          else {}
  }

  lemma {:induction false} TakenBy(requests: seq<Request>, employee: nat, year: int, d: int)
    requires d in Taken(requests, employee, year)
    ensures d in WeekdaysOf(year)
    ensures exists i :: 0 <= i < |requests| && CountsIn(requests[i], employee, year)
                        && requests[i].start <= d <= requests[i].end
  {
    var n := |requests| - 1;
    if d in Taken(requests[..n], employee, year) {
      TakenBy(requests[..n], employee, year, d);
      var i :| 0 <= i < n && CountsIn(requests[..n][i], employee, year)
          && requests[..n][i].start <= d <= requests[..n][i].end;
      assert CountsIn(requests[i], employee, year);
    } else {
      assert CountsIn(requests[n], employee, year);
    }
  }

  lemma {:induction false} ChargedIsTaken(requests: seq<Request>, employee: nat, year: int)
    requires Sound(requests)
    ensures TotalCharged(requests, employee, year) == 100 * |Taken(requests, employee, year)|
  {
    if requests != [] {
      var n := |requests| - 1;
      var front, r := requests[..n], requests[n];
      ChargedIsTaken(front, employee, year);
      if CountsIn(r, employee, year) {
        var own := Days(r.start, r.end) * WeekdaysOf(year);
        forall d | d in Taken(front, employee, year) ensures d !in own {
          TakenBy(front, employee, year, d);
          var i :| 0 <= i < n && CountsIn(front[i], employee, year) && front[i].start <= d <= front[i].end;
          assert Apart(requests[i], requests[n]);
        }
        assert |Taken(front, employee, year) + own| == |Taken(front, employee, year)| + |own|;
      }
    }
  }

  lemma SoundWithinYear(requests: seq<Request>, employee: nat, year: int)
    requires Sound(requests)
    ensures TotalCharged(requests, employee, year) <= 100 * |WeekdaysOf(year)| <= 26200
  {
    ChargedIsTaken(requests, employee, year);
    var taken := Taken(requests, employee, year);
    forall d | d in taken ensures d in WeekdaysOf(year) {
      TakenBy(requests, employee, year, d);
    }
    assert WeekdaysOf(year) == taken + (WeekdaysOf(year) - taken);
    WeekdaysOfYear(year);
  }

  /** In every run, what an employee's live day-counted requests starting in a year are charged adds
      up to no more than the weekdays of that year. */
  lemma YearlyChargeBounded(db: Db, ops: seq<Op>, employee: nat, year: int)
    requires Fresh(db)
    ensures TotalCharged(Run(db, ops).requests, employee, year) <= 100 * |WeekdaysOf(year)| <= 26200
  {
    RunSound(db, ops);
    SoundWithinYear(Run(db, ops).requests, employee, year);
  }
}
