/** The append-only signed ledger and the two ways the selectors total it. */
module LeaveLedger {
  import opened Wrappers

  datatype Source = Grant | Accrual | CarryoverIn | Consumed | Reversal | CarryoverOut | ManualAdjustment

  /** The reference text of an entry, one constructor for each format the services write. */
  datatype Reference =
    | ForEnrollment(enrollment: nat)
    | ForRequest(request: nat)
    | AccrualRun(year: int, month: int)
    | CarryoverRun(fromYear: int, toYear: int)
    | Manual

  datatype Entry = Entry(
    employee: nat,
    policy: nat,
    enrollment: Option<nat>,
    year: int,
    source: Source,
    amount: int,
    reference: Reference,
    originalYear: Option<int>)

  // ----- queries --------------------------------------------------------------------------

  /** A set of sources to ask for. */
  datatype Kind = AnySource | Credits | Uses | Only(source: Source)

  predicate OfKind(source: Source, kind: Kind) {
    match kind
    case AnySource => true
    case Credits => source == Grant || source == Accrual || source == CarryoverIn || source == ManualAdjustment
    case Uses => source == Consumed || source == CarryoverOut
    case Only(s) => source == s
  }

  /** A where clause: None leaves a column unconstrained. */
  datatype Where = Where(
    employee: Option<nat>,
    policy: Option<nat>,
    year: Option<int>,
    enrollment: Option<nat>,
    kind: Kind,
    reference: Option<Reference>)

  predicate Matches(w: Where, e: Entry) {
    && (w.employee.Some? ==> e.employee == w.employee.value)
    && (w.policy.Some? ==> e.policy == w.policy.value)
    && (w.year.Some? ==> e.year == w.year.value)
    && (w.enrollment.Some? ==> e.enrollment == w.enrollment)
    && OfKind(e.source, w.kind)
    && (w.reference.Some? ==> e.reference == w.reference.value)
  }

  /** Everything booked to one employee, policy and year. */
  function Slot(employee: nat, policy: nat, year: int): Where {
    Where(Some(employee), Some(policy), Some(year), None, AnySource, None)
  }

  /** Everything booked to one employee and policy, whatever the year. */
  function Account(employee: nat, policy: nat): Where {
    Where(Some(employee), Some(policy), None, None, AnySource, None)
  }

  function RequestEntries(request: nat, kind: Kind): Where {
    Where(None, None, None, None, kind, Some(ForRequest(request)))
  }

  function AccrualEntries(enrollment: nat, reference: Option<Reference>): Where {
    Where(None, None, None, Some(enrollment), Only(Accrual), reference)
  }

  datatype Measure = Signed | Absolute | NegativePart | Rows

  function Worth(m: Measure, e: Entry): int {
    match m
    case Signed => e.amount
    case Absolute => if e.amount < 0 then -e.amount else e.amount
    case NegativePart => if e.amount < 0 then e.amount else 0
    case Rows => 1
  }

  /** select sum(...) where ...; 0 when nothing matches. */
  function Sum(m: Measure, w: Where, ledger: seq<Entry>): int {
    if ledger == [] then 0
    else
      Sum(m, w, ledger[..|ledger| - 1])
      + if Matches(w, ledger[|ledger| - 1]) then Worth(m, ledger[|ledger| - 1]) else 0
  }

  function Select(w: Where, ledger: seq<Entry>): seq<Entry> {
    if ledger == [] then []
    else
      Select(w, ledger[..|ledger| - 1])
      + if Matches(w, ledger[|ledger| - 1]) then [ledger[|ledger| - 1]] else []
  }

  lemma SumAppend(m: Measure, w: Where, ledger: seq<Entry>, e: Entry)
    ensures Sum(m, w, ledger + [e]) == Sum(m, w, ledger) + if Matches(w, e) then Worth(m, e) else 0
  {
    assert (ledger + [e])[..|ledger|] == ledger;
  }

  lemma {:induction false} SumConcat(m: Measure, w: Where, a: seq<Entry>, b: seq<Entry>)
    ensures Sum(m, w, a + b) == Sum(m, w, a) + Sum(m, w, b)
    decreases |b|
  {
    if b == [] {
      assert a + b == a;
    } else {
      SumConcat(m, w, a, b[..|b| - 1]);
      assert (a + b)[..|a + b| - 1] == a + b[..|b| - 1];
    }
  }

  lemma {:induction false} SumNone(m: Measure, w: Where, ledger: seq<Entry>)
    requires forall e :: e in ledger ==> !Matches(w, e)
    ensures Sum(m, w, ledger) == 0
  {
    if ledger != [] {
      SumNone(m, w, ledger[..|ledger| - 1]);
    }
  }

  /** Entries a query does not match leave its sum alone. */
  lemma SumUnchanged(m: Measure, w: Where, ledger: seq<Entry>, after: seq<Entry>)
    requires ledger <= after && forall k :: |ledger| <= k < |after| ==> !Matches(w, after[k])
    ensures Sum(m, w, after) == Sum(m, w, ledger)
  {
    var added := after[|ledger|..];
    assert after == ledger + added;
    SumConcat(m, w, ledger, added);
    forall e | e in added ensures !Matches(w, e) {
      var k :| 0 <= k < |added| && added[k] == e;
      assert e == after[|ledger| + k];
    }
    SumNone(m, w, added);
  }

  predicate Narrows(w: Where, slot: Where) {
    slot.kind == AnySource && w == slot.(kind := w.kind)
  }

  lemma NarrowerMatches(w: Where, slot: Where, e: Entry)
    requires Narrows(w, slot) && Matches(w, e)
    ensures Matches(slot, e)
  {
  }

  /** Summing over the rows a wider query returned is summing over the table. */
  lemma {:induction false} SumSelect(m: Measure, w: Where, slot: Where, ledger: seq<Entry>)
    requires Narrows(w, slot)
    ensures Sum(m, w, Select(slot, ledger)) == Sum(m, w, ledger)
  {
    if ledger != [] {
      var front, last := ledger[..|ledger| - 1], ledger[|ledger| - 1];
      SumSelect(m, w, slot, front);
      var rows := Select(slot, front);
      if Matches(slot, last) {
        assert Select(slot, ledger) == rows + [last];
        SumAppend(m, w, rows, last);
      } else {
        assert Select(slot, ledger) == rows;
        if Matches(w, last) {
          NarrowerMatches(w, slot, last);
        }
      }
    }
  }

  lemma {:induction false} SelectMembers(w: Where, ledger: seq<Entry>)
    ensures forall e :: e in Select(w, ledger) <==> e in ledger && Matches(w, e)
    ensures |Select(w, ledger)| == Sum(Rows, w, ledger)
  {
    if ledger != [] {
      SelectMembers(w, ledger[..|ledger| - 1]);
      assert ledger == ledger[..|ledger| - 1] + [ledger[|ledger| - 1]];
    }
  }

  // ----- totals ---------------------------------------------------------------------------

  datatype Totals = Totals(granted: int, netConsumed: int, remaining: int)

  function Abs(x: int): int {
    if x < 0 then -x else x
  }

  /** The separate filtered sums of the events page. */
  function SummedTotals(ledger: seq<Entry>, employee: nat, policy: nat, year: int): Totals {
    var slot := Slot(employee, policy, year);
    var consumed := Sum(Absolute, slot.(kind := Uses), ledger);
    var reversed := Sum(Signed, slot.(kind := Only(Reversal)), ledger);
    var granted := Sum(Signed, slot.(kind := Credits), ledger);
    Totals(granted, consumed - Abs(reversed), granted - (consumed - Abs(reversed)))
  }

  function Remaining(ledger: seq<Entry>, employee: nat, policy: nat, year: int): int {
    SummedTotals(ledger, employee, policy, year).remaining
  }

  /** The row-by-row totals: one pass over the slot's rows agrees with the filtered sums. */
  method EmployeeLedger(ledger: seq<Entry>, employee: nat, policy: nat, year: int) returns (t: Totals)
    ensures t == SummedTotals(ledger, employee, policy, year)
  {
    var slot := Slot(employee, policy, year);
    var rows := Select(slot, ledger);
    SelectMembers(slot, ledger);
    var granted, consumed, reversed := 0, 0, 0;
    for i := 0 to |rows|
      invariant granted == Sum(Signed, slot.(kind := Credits), rows[..i])
      invariant consumed == Sum(Absolute, slot.(kind := Uses), rows[..i])
      invariant reversed == Sum(Signed, slot.(kind := Only(Reversal)), rows[..i])
    {
      var row := rows[i];
      assert row in rows;
      assert rows[..i + 1] == rows[..i] + [row];
      SumAppend(Signed, slot.(kind := Credits), rows[..i], row);
      SumAppend(Absolute, slot.(kind := Uses), rows[..i], row);
      SumAppend(Signed, slot.(kind := Only(Reversal)), rows[..i], row);
      match row.source {
        case Grant | Accrual | CarryoverIn => granted := granted + row.amount;
        case Consumed | CarryoverOut => consumed := consumed + Abs(row.amount);
        case Reversal => reversed := reversed + row.amount;
        case ManualAdjustment => granted := granted + row.amount;
      }
    }
    assert rows[..|rows|] == rows;
    SumSelect(Signed, slot.(kind := Credits), slot, ledger);
    SumSelect(Absolute, slot.(kind := Uses), slot, ledger);
    SumSelect(Signed, slot.(kind := Only(Reversal)), slot, ledger);
    var netConsumed := consumed - Abs(reversed);
    t := Totals(granted, netConsumed, granted - netConsumed);
  }

  /** Uses are booked negative, reversals and grants non-negative; adjustments may be either. */
  predicate SignsAgree(ledger: seq<Entry>) {
    forall i :: 0 <= i < |ledger| ==> SignAgrees(ledger[i])
  }

  predicate SignAgrees(e: Entry) {
    match e.source
    case Consumed | CarryoverOut => e.amount <= 0
    case ManualAdjustment => true
    case _ => e.amount >= 0
  }

  lemma {:induction false} SlotSplits(ledger: seq<Entry>, employee: nat, policy: nat, year: int)
    requires SignsAgree(ledger)
    ensures var slot := Slot(employee, policy, year);
      && Sum(Signed, slot, ledger)
         == Sum(Signed, slot.(kind := Credits), ledger) - Sum(Absolute, slot.(kind := Uses), ledger)
            + Sum(Signed, slot.(kind := Only(Reversal)), ledger)
      && Sum(Signed, slot.(kind := Only(Reversal)), ledger) >= 0
  {
    if ledger != [] {
      SlotSplits(ledger[..|ledger| - 1], employee, policy, year);
      assert SignAgrees(ledger[|ledger| - 1]);
    }
  }

  function Total(m: Measure, ledger: seq<Entry>, employee: nat, policy: nat, year: int, source: Source): int {
    Sum(m, Slot(employee, policy, year).(kind := Only(source)), ledger)
  }

  /** Of what the totals are made, on every ledger. */
  lemma {:induction false} TotalsMean(ledger: seq<Entry>, employee: nat, policy: nat, year: int)
    ensures var t := SummedTotals(ledger, employee, policy, year);
      var reversed := Total(Signed, ledger, employee, policy, year, Reversal);
      && t.granted == Total(Signed, ledger, employee, policy, year, Grant)
                      + Total(Signed, ledger, employee, policy, year, Accrual)
                      + Total(Signed, ledger, employee, policy, year, CarryoverIn)
                      + Total(Signed, ledger, employee, policy, year, ManualAdjustment)
      && t.netConsumed == Total(Absolute, ledger, employee, policy, year, Consumed)
                          + Total(Absolute, ledger, employee, policy, year, CarryoverOut)
                          - (if reversed < 0 then -reversed else reversed)
      && t.remaining == t.granted - t.netConsumed
  {
    if ledger != [] {
      TotalsMean(ledger[..|ledger| - 1], employee, policy, year);
    }
  }

  /** Where the signs agree, "remaining" is the plain signed sum of the slot. */
  lemma RemainingIsSignedSum(ledger: seq<Entry>, employee: nat, policy: nat, year: int)
    requires SignsAgree(ledger)
    ensures Remaining(ledger, employee, policy, year) == Sum(Signed, Slot(employee, policy, year), ledger)
  {
    SlotSplits(ledger, employee, policy, year);
  }

  // ----- the paginated events -------------------------------------------------------------

  function Newest(rows: seq<Entry>): (r: seq<Entry>)
    ensures |r| == |rows| && forall i :: 0 <= i < |r| ==> r[i] == rows[|rows| - 1 - i]
  {
    if rows == [] then [] else [rows[|rows| - 1]] + Newest(rows[..|rows| - 1])
  }

  /** offset(skip).limit(limit) */
  function Page(rows: seq<Entry>, skip: nat, limit: nat): seq<Entry> {
    var from := if skip < |rows| then skip else |rows|;
    var to := if skip + limit < |rows| then skip + limit else |rows|;
    rows[from..to]
  }

  lemma SlicesJoin(rows: seq<Entry>, skip: nat, limit: nat, more: nat)
    ensures Page(rows, skip, limit) + Page(rows, skip + limit, more) == Page(rows, skip, limit + more)
    ensures skip == 0 && |rows| <= limit + more ==> Page(rows, skip, limit + more) == rows
  {
  }

  datatype EventPage = EventPage(events: seq<Entry>, count: int, totals: Totals)

  /** An order in which the store may list a slot's entries. */
  predicate Lists(listing: seq<Entry>, ledger: seq<Entry>, employee: nat, policy: nat, year: int) {
    multiset(listing) == multiset(Select(Slot(employee, policy, year), ledger))
  }

  /** One page of a slot's entries, in the order they are listed, with the totals of the whole slot. */
  function LedgerEvents(listing: seq<Entry>, ledger: seq<Entry>, employee: nat, policy: nat, year: int,
                        skip: nat, limit: nat): EventPage {
    EventPage(Page(listing, skip, limit), Sum(Rows, Slot(employee, policy, year), ledger),
              SummedTotals(ledger, employee, policy, year))
  }

  /** Listing the newest entry first is one such order. */
  lemma {:induction false} NewestLists(rows: seq<Entry>)
    ensures multiset(Newest(rows)) == multiset(rows)
  {
    if rows != [] {
      NewestLists(rows[..|rows| - 1]);
      assert rows == rows[..|rows| - 1] + [rows[|rows| - 1]];
    }
  }

  /** Paging never changes the totals; and as long as the store keeps to one order, whichever, adjacent
      pages join without gap or repeat, and one page that is large enough holds every matching entry. */
  lemma PagesJoin(listing: seq<Entry>, ledger: seq<Entry>, employee: nat, policy: nat, year: int,
                  skip: nat, limit: nat, more: nat)
    requires Lists(listing, ledger, employee, policy, year)
    ensures var first := LedgerEvents(listing, ledger, employee, policy, year, skip, limit);
      var second := LedgerEvents(listing, ledger, employee, policy, year, skip + limit, more);
      var both := LedgerEvents(listing, ledger, employee, policy, year, skip, limit + more);
      && first.events + second.events == both.events
      && first.totals == second.totals == both.totals == SummedTotals(ledger, employee, policy, year)
      && (skip == 0 && both.count <= limit + more ==> both.events == listing && |both.events| == both.count)
    ensures Lists(Newest(Select(Slot(employee, policy, year), ledger)), ledger, employee, policy, year)
  {
    var rows := Select(Slot(employee, policy, year), ledger);
    SelectMembers(Slot(employee, policy, year), ledger);
    assert |listing| == |multiset(listing)| == |multiset(rows)| == |rows|;
    SlicesJoin(listing, skip, limit, more);
    NewestLists(rows);
  }
}
