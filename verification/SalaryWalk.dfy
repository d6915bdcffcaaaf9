/** Basic pay of one employee for a period: pro-rated at a single rate, or walked day by day when
    the rate changes. Rates are integer cents, and a sum of daily shares is kept exact, as a numerator over
    the days of the period, until the last rounding. */
module SalaryWalk {
  import opened Wrappers
  import opened Calendar
  import opened Rounding

  datatype PayType = Monthly | Daily | Hourly

  datatype Salary = Salary(employee: Option<nat>, effective: Date, rate: int, payType: PayType)

  datatype PayError = NoSalary | DivisionByZero | OutOfCalendar

  // ----- sorting and picking --------------------------------------------------------------

  predicate ByDate(records: seq<Salary>) {
    forall i, j :: 0 <= i < j < |records| ==> records[i].effective <= records[j].effective
  }

  /** sorted(..., key=effective_date): stable. */
  function SortByDate(records: seq<Salary>): (r: seq<Salary>)
    ensures |r| == |records| && ByDate(r)
    ensures forall s :: s in r <==> s in records
  {
    if records == [] then []
    else
      var n := |records| - 1;
      assert records == records[..n] + [records[n]];
      InsertByDate(SortByDate(records[..n]), records[n])
  }

  /** Where s goes: after every record dated no later. */
  function Slot(sorted: seq<Salary>, s: Salary): (k: nat)
    requires ByDate(sorted)
    ensures k <= |sorted|
    ensures forall i :: 0 <= i < k ==> sorted[i].effective <= s.effective
    ensures forall i :: k <= i < |sorted| ==> s.effective < sorted[i].effective
  {
    if sorted == [] then 0
    else
      var n := |sorted| - 1;
      if sorted[n].effective <= s.effective then |sorted| else Slot(sorted[..n], s)
  }

  function InsertByDate(sorted: seq<Salary>, s: Salary): (r: seq<Salary>)
    requires ByDate(sorted)
    ensures |r| == |sorted| + 1 && ByDate(r)
    ensures forall t :: t in r <==> t in sorted || t == s
  {
    var k := Slot(sorted, s);
    assert sorted == sorted[..k] + sorted[k..];
    sorted[..k] + [s] + sorted[k..]
  }

  /** The first sorted record in force at the start, else the first: always the oldest. */
  function Primary(sorted: seq<Salary>, asOf: Date, i: nat): Salary
    requires sorted != [] && i <= |sorted|
    decreases |sorted| - i
  {
    if i == |sorted| then sorted[0]
    else if sorted[i].effective <= asOf then sorted[i]
    else Primary(sorted, asOf, i + 1)
  }

  lemma PrimaryIsOldest(sorted: seq<Salary>, asOf: Date)
    requires sorted != [] && ByDate(sorted)
    ensures Primary(sorted, asOf, 0) == sorted[0]
  {
    if sorted[0].effective > asOf {
      NoneInForce(sorted, asOf, 0);
    }
  }

  lemma {:induction false} NoneInForce(sorted: seq<Salary>, asOf: Date, i: nat)
    requires sorted != [] && ByDate(sorted) && sorted[0].effective > asOf && i <= |sorted|
    ensures Primary(sorted, asOf, i) == sorted[0]
    decreases |sorted| - i
  {
    if i < |sorted| {
      NoneInForce(sorted, asOf, i + 1);
    }
  }

  predicate OneDate(records: seq<Salary>) {
    forall i :: 0 <= i < |records| ==> records[i].effective == records[0].effective
  }

  /** The unique constraint on (employee, effective date). */
  predicate DistinctDates(records: seq<Salary>) {
    forall i, j :: 0 <= i < j < |records| ==> records[i].effective != records[j].effective
  }

  // ----- what a period pays ---------------------------------------------------------------

  /** s governs day d: the latest record effective by d, or the oldest when none is. */
  ghost predicate Governs(records: seq<Salary>, d: int, s: Salary) {
    s in records &&
    if s.effective <= d then forall t :: t in records && t.effective <= d ==> t.effective <= s.effective
    else forall t :: t in records ==> d < t.effective && s.effective <= t.effective
  }

  lemma GovernorUnique(records: seq<Salary>, d: int, s: Salary, t: Salary)
    requires DistinctDates(records) && Governs(records, d, s) && Governs(records, d, t)
    ensures s == t
  {
    var i :| 0 <= i < |records| && records[i] == s;
    var j :| 0 <= j < |records| && records[j] == t;
    assert s.effective == t.effective;
  }

  /** t takes over from s on day d. */
  predicate Supersedes(t: Salary, s: Salary, d: int) {
    if t.effective <= d then s.effective > d || s.effective < t.effective
    else s.effective > d && t.effective < s.effective
  }

  /** The record governing day d, found whatever the order of the records. */
  function Governor(records: seq<Salary>, d: int): Salary
    requires records != []
  {
    var last := records[|records| - 1];
    if |records| == 1 then last
    else
      var g := Governor(records[..|records| - 1], d);
      if Supersedes(last, g, d) then last else g
  }

  lemma {:induction false} GovernorGoverns(records: seq<Salary>, d: int)
    requires records != []
    ensures Governs(records, d, Governor(records, d))
  {
    if |records| > 1 {
      var front, last := records[..|records| - 1], records[|records| - 1];
      GovernorGoverns(front, d);
      assert records == front + [last];
      assert forall t :: t in records <==> t in front || t == last;
    }
  }

  /** The rate of the record governing day d. */
  function RateOn(records: seq<Salary>, d: int): int {
    if records == [] then 0 else Governor(records, d).rate
  }

  /** The governing rates of the days start..end, added up. */
  function RateSum(records: seq<Salary>, start: int, end: int): int
    decreases end - start + 1
  {
    if end < start then 0 else RateSum(records, start, end - 1) + RateOn(records, end)
  }

  /** quantize(0.01) of numerator / denominator cents. */
  function Quantize(numerator: int, denominator: int): int
    requires denominator != 0
  {
    if denominator > 0 then HalfEven(numerator, denominator) else HalfEven(-numerator, -denominator)
  }

  function ProRate(rate: int, payType: PayType, days: int, worked: int): Result<int, PayError> {
    if payType == Monthly then
      if days == 0 then Err(DivisionByZero) else Ok(Quantize(rate * worked, days))
    else Ok(Quantize(rate * worked, 1))
  }

  /** q is numerator / denominator to the nearest cent, halves going to the even one. */
  predicate IsNearest(q: int, numerator: int, denominator: int) {
    var size := if denominator < 0 then -denominator else denominator;
    var off := 2 * (q * denominator) - 2 * numerator;
    -size <= off <= size && (off == size || off == -size ==> q % 2 == 0)
  }

  lemma QuantizeMeans(numerator: int, denominator: int)
    requires denominator != 0
    ensures IsNearest(Quantize(numerator, denominator), numerator, denominator)
  {
    var q := Quantize(numerator, denominator);
    if denominator < 0 {
      assert q * denominator == -(q * -denominator);
    }
  }

  /** Pay at one rate: for a monthly rate the worked days' share of the period, to the nearest cent, and an error
      for a period of no days; for any other the rate times the days worked, exactly. */
  lemma ProRateMeans(rate: int, payType: PayType, days: int, worked: int)
    ensures var pay := ProRate(rate, payType, days, worked);
      && (pay.Err? <==> payType == Monthly && days == 0)
      && (pay.Err? ==> pay == Err(DivisionByZero))
      && (pay.Ok? && payType == Monthly ==> IsNearest(pay.value, rate * worked, days))
      && (payType != Monthly ==> pay == Ok(rate * worked))
  {
    if payType == Monthly && days != 0 {
      QuantizeMeans(rate * worked, days);
    } else if payType != Monthly {
      WholeQuantize(rate * worked);
    }
  }

  lemma WholeQuantize(n: int)
    ensures Quantize(n, 1) == n
  {
    QuantizeMeans(n, 1);
    assert Quantize(n, 1) * 1 == Quantize(n, 1);
  }

  function Oldest(records: seq<Salary>): Salary
    requires records != []
  {
    SortByDate(records)[0]
  }

  /** Where scanning the first i sorted records for the last one in force on day d ends up. */
  function LastInForce(sorted: seq<Salary>, d: int, i: nat): Salary
    requires sorted != [] && i <= |sorted|
  {
    if i == 0 then sorted[0]
    else if sorted[i - 1].effective <= d then sorted[i - 1] else LastInForce(sorted, d, i - 1)
  }

  lemma {:induction false} LastInForceIsLatest(sorted: seq<Salary>, d: int, i: nat)
    requires sorted != [] && ByDate(sorted) && i <= |sorted|
    ensures var s := LastInForce(sorted, d, i);
      s in sorted &&
      ((s.effective <= d && forall j :: 0 <= j < i && sorted[j].effective <= d ==> sorted[j].effective <= s.effective)
       || (s == sorted[0] && forall j :: 0 <= j < i ==> sorted[j].effective > d))
  {
    if i > 0 {
      LastInForceIsLatest(sorted, d, i - 1);
    }
  }

  lemma ScanFindsGovernor(records: seq<Salary>, d: int)
    requires records != []
    ensures Governs(records, d, LastInForce(SortByDate(records), d, |records|))
  {
    var sorted := SortByDate(records);
    var s := LastInForce(sorted, d, |sorted|);
    LastInForceIsLatest(sorted, d, |sorted|);
    forall t | t in records
      ensures t.effective <= d ==> s.effective <= d && t.effective <= s.effective
      ensures s.effective > d ==> s.effective <= t.effective
    {
      var j :| 0 <= j < |sorted| && sorted[j] == t;
      assert sorted[0].effective <= sorted[j].effective;
    }
  }

  lemma RateOnIs(records: seq<Salary>, d: int, s: Salary)
    requires DistinctDates(records) && Governs(records, d, s)
    ensures RateOn(records, d) == s.rate
  {
    GovernorGoverns(records, d);
    GovernorUnique(records, d, s, Governor(records, d));
  }

  lemma OneDateEitherWay(records: seq<Salary>)
    ensures OneDate(SortByDate(records)) <==> OneDate(records)
  {
    var sorted := SortByDate(records);
    if OneDate(sorted) {
      forall i | 0 <= i < |records| ensures records[i].effective == records[0].effective {
        assert records[i] in sorted && records[0] in sorted;
      }
    }
    if OneDate(records) {
      forall i | 0 <= i < |sorted| ensures sorted[i].effective == sorted[0].effective {
        assert sorted[i] in records && sorted[0] in records;
      }
    }
  }

  method BasicPay(records: seq<Salary>, start: Date, end: Date, absences: nat) returns (pay: Result<int, PayError>)
    ensures records == [] ==> pay == Err(NoSalary)
    ensures records != [] && OneDate(records) ==>
      pay == ProRate(Oldest(records).rate, Oldest(records).payType, end - start + 1, end - start + 1 - absences)
    ensures records != [] && !OneDate(records) && start <= end == MAX_ORDINAL ==> pay == Err(OutOfCalendar)
    ensures records != [] && !OneDate(records) && DistinctDates(records) && !(start <= end == MAX_ORDINAL) ==>
      pay == Ok(WalkedPay(records, start, end))
  {
    if records == [] {
      return Err(NoSalary);
    }
    var sorted := SortByDate(records);
    var primary := Primary(sorted, start, 0);
    PrimaryIsOldest(sorted, start);
    var days := end - start + 1;
    OneDateEitherWay(records);
    if OneDate(sorted) {
      return ProRate(primary.rate, primary.payType, days, days - absences);
    }
    var total := WalkDays(records, sorted, primary, start, end);
    if total.None? {
      return Err(OutOfCalendar);
    }
    pay := Ok(Quantize(total.value, Shares(primary.payType, days)));
  }

  /** The day walk; None when it would have to step past the last date. */
  method WalkDays(ghost records: seq<Salary>, sorted: seq<Salary>, primary: Salary, start: Date, end: Date)
    returns (total: Option<int>)
    requires records != [] && sorted == SortByDate(records) && primary == sorted[0]
    ensures total.None? <==> start <= end == MAX_ORDINAL
    ensures total.Some? && DistinctDates(records) ==> total.value == RateSum(records, start, end)
  {
    var sum := 0;
    var current: Date := start;
    while current <= end
      invariant start <= current && (start <= end ==> current <= end + 1) && (end < start ==> current == start)
      invariant DistinctDates(records) ==> sum == RateSum(records, start, current - 1)
      decreases end - current + 1
    {
      var applicable := ApplicableOn(records, sorted, primary, current);
      sum := sum + applicable.rate;
      if current == MAX_ORDINAL {
        return None;
      }
      current := current + 1;
    }
    if end < start {
      EmptySum(records, start, start - 1);
      EmptySum(records, start, end);
    } else {
      assert current - 1 == end;
    }
    total := Some(sum);
  }

  lemma EmptySum(records: seq<Salary>, start: int, end: int)
    requires end < start
    ensures RateSum(records, start, end) == 0
  {
  }

  /** The inner loop: the last sorted record in force on the day, or the oldest. */
  method ApplicableOn(ghost records: seq<Salary>, sorted: seq<Salary>, primary: Salary, day: Date) returns (s: Salary)
    requires records != [] && sorted == SortByDate(records) && primary == sorted[0]
    ensures DistinctDates(records) ==> s.rate == RateOn(records, day)
  {
    s := primary;
    for i := 0 to |sorted|
      invariant s == LastInForce(sorted, day, i)
    {
      if sorted[i].effective <= day {
        s := sorted[i];
      }
    }
    ScanFindsGovernor(records, day);
    if DistinctDates(records) {
      RateOnIs(records, day, s);
    }
  }

  /** A day of monthly pay is one day's share of the period; any other day pays its whole rate. */
  function Shares(payType: PayType, days: int): (n: int)
    ensures n > 0
  {
    if payType == Monthly && days > 0 then days else 1
  }

  /** What the day-by-day walk pays: the days' governing rates, shared over the period for a monthly
      pay type - which is the oldest record's, whatever the others say. */
  function WalkedPay(records: seq<Salary>, start: int, end: int): int
    requires records != []
  {
    Quantize(RateSum(records, start, end), Shares(Oldest(records).payType, end - start + 1))
  }

  /** Walked pay: when the oldest record is monthly, the sum of the days' governing rates over the days of the
      period, to the nearest cent; for any other pay type the sum itself. */
  lemma WalkedPayMeans(records: seq<Salary>, start: int, end: int, oldest: Salary)
    requires DistinctDates(records) && oldest in records
    requires forall s :: s in records ==> oldest.effective <= s.effective
    ensures var sum, days := RateSum(records, start, end), end - start + 1;
      if oldest.payType == Monthly && days > 0 then IsNearest(WalkedPay(records, start, end), sum, days)
      else WalkedPay(records, start, end) == sum
  {
    OldestGoverns(records);
    GovernorUnique(records, 0, oldest, Oldest(records));
    QuantizeMeans(RateSum(records, start, end), Shares(Oldest(records).payType, end - start + 1));
    WholeQuantize(RateSum(records, start, end));
  }

  // ----- the segment formula --------------------------------------------------------------

  /** The days start..end that s governs. */
  ghost function DaysOf(records: seq<Salary>, s: Salary, start: int, end: int): nat
    decreases end - start + 1
  {
    if end < start then 0 else DaysOf(records, s, start, end - 1) + if Governs(records, end, s) then 1 else 0
  }

  /** Each of the first n records' days times its rate. */
  ghost function SegmentSum(records: seq<Salary>, start: int, end: int, n: nat): int
    requires n <= |records|
  {
    if n == 0 then 0
    else SegmentSum(records, start, end, n - 1) + DaysOf(records, records[n - 1], start, end) * records[n - 1].rate
  }

  lemma {:induction false} SegmentGrows(records: seq<Salary>, start: int, end: int, n: nat, g: nat)
    requires start <= end && n <= |records| && g < |records|
    requires DistinctDates(records) && Governs(records, end, records[g])
    ensures SegmentSum(records, start, end, n)
         == SegmentSum(records, start, end - 1, n) + if g < n then records[g].rate else 0
  {
    if n > 0 {
      SegmentGrows(records, start, end, n - 1, g);
      var s, before := records[n - 1], DaysOf(records, records[n - 1], start, end - 1);
      if g == n - 1 {
        assert (before + 1) * s.rate == before * s.rate + s.rate;
      } else if Governs(records, end, s) {
        GovernorUnique(records, end, s, records[g]);
      }
    }
  }

  lemma {:induction false} NoDays(records: seq<Salary>, start: int, end: int, n: nat)
    requires end < start && n <= |records|
    ensures SegmentSum(records, start, end, n) == 0
  {
    if n > 0 {
      NoDays(records, start, end, n - 1);
    }
  }

  /** Walking the days is summing the segments: days governed by each record times its rate. */
  lemma {:induction false} WalkIsSegments(records: seq<Salary>, start: int, end: int)
    requires records != [] && DistinctDates(records)
    ensures RateSum(records, start, end) == SegmentSum(records, start, end, |records|)
    decreases end - start + 1
  {
    if end < start {
      NoDays(records, start, end, |records|);
    } else {
      WalkIsSegments(records, start, end - 1);
      var s := Governor(records, end);
      GovernorGoverns(records, end);
      var g :| 0 <= g < |records| && records[g] == s;
      SegmentGrows(records, start, end, |records|, g);
    }
  }

  // ----- order, bounds, agreement ---------------------------------------------------------

  ghost predicate SameRecords(a: seq<Salary>, b: seq<Salary>) {
    forall s :: s in a <==> s in b
  }

  lemma SameGovernor(a: seq<Salary>, b: seq<Salary>, d: int)
    requires a != [] && DistinctDates(b) && SameRecords(a, b)
    ensures RateOn(a, d) == RateOn(b, d)
  {
    GovernorGoverns(a, d);
    assert Governs(b, d, Governor(a, d));
    RateOnIs(b, d, Governor(a, d));
  }

  lemma {:induction false} SameSum(a: seq<Salary>, b: seq<Salary>, start: int, end: int)
    requires a != [] && b != [] && DistinctDates(a) && DistinctDates(b) && SameRecords(a, b)
    ensures RateSum(a, start, end) == RateSum(b, start, end)
    decreases end - start + 1
  {
    if start <= end {
      SameSum(a, b, start, end - 1);
      SameGovernor(a, b, end);
    }
  }

  /** The order in which the records arrive makes no difference. */
  lemma OrderIrrelevant(a: seq<Salary>, b: seq<Salary>, start: int, end: int)
    requires a != [] && b != [] && DistinctDates(a) && DistinctDates(b) && SameRecords(a, b)
    ensures WalkedPay(a, start, end) == WalkedPay(b, start, end)
  {
    SameSum(a, b, start, end);
    OldestGoverns(a);
    OldestGoverns(b);
    assert Governs(b, 0, Oldest(a));
    GovernorUnique(b, 0, Oldest(a), Oldest(b));
  }

  /** No record is in force on day 0, so the oldest governs it. */
  lemma OldestGoverns(records: seq<Salary>)
    requires records != []
    ensures Governs(records, 0, Oldest(records))
  {
    ScanFindsGovernor(records, 0);
    NothingInForce(SortByDate(records), |records|);
  }

  lemma {:induction false} NothingInForce(sorted: seq<Salary>, i: nat)
    requires sorted != [] && i <= |sorted|
    ensures LastInForce(sorted, 0, i) == sorted[0]
  {
    if i > 0 {
      NothingInForce(sorted, i - 1);
    }
  }

  predicate RatesWithin(records: seq<Salary>, low: int, high: int) {
    forall i :: 0 <= i < |records| ==> low <= records[i].rate <= high
  }

  lemma RateOnWithin(records: seq<Salary>, d: int, low: int, high: int)
    requires records != [] && RatesWithin(records, low, high)
    ensures low <= RateOn(records, d) <= high
  {
    GovernorGoverns(records, d);
    var i :| 0 <= i < |records| && records[i] == Governor(records, d);
  }

  lemma OneMore(a: int, n: int)
    ensures a * (n + 1) == a * n + a
  {
  }

  lemma {:induction false} SumWithin(records: seq<Salary>, start: int, end: int, low: int, high: int)
    requires records != [] && RatesWithin(records, low, high) && start <= end + 1
    ensures low * (end - start + 1) <= RateSum(records, start, end) <= high * (end - start + 1)
    decreases end - start + 1
  {
    if start <= end {
      SumWithin(records, start, end - 1, low, high);
      RateOnWithin(records, end, low, high);
      OneMore(low, end - start);
      OneMore(high, end - start);
    }
  }

  /** Monthly pay walked over a period lies between the lowest and the highest rate. */
  lemma MonthlyPayWithinRates(records: seq<Salary>, start: int, end: int, low: int, high: int)
    requires records != [] && RatesWithin(records, low, high) && start <= end && Oldest(records).payType == Monthly
    ensures low <= WalkedPay(records, start, end) <= high
  {
    SumWithin(records, start, end, low, high);
    QuantizeWithin(RateSum(records, start, end), end - start + 1, low, high);
  }

  lemma QuantizeWithin(sum: int, n: int, low: int, high: int)
    requires n > 0 && low * n <= sum <= high * n
    ensures low <= Quantize(sum, n) <= high
  {
    HalfEvenWithin(sum, n, low, high);
  }

  /** When nothing but the date changed, the walk pays what one record pro-rated over the whole
      period would. */
  lemma EqualRatesAgree(records: seq<Salary>, start: int, end: int, rate: int)
    requires records != [] && RatesWithin(records, rate, rate) && start <= end
    ensures ProRate(rate, Oldest(records).payType, end - start + 1, end - start + 1)
        == Ok(WalkedPay(records, start, end))
  {
    SumWithin(records, start, end, rate, rate);
  }

  // ----- who is paid ----------------------------------------------------------------------

  predicate Covered(unique: seq<Salary>, s: Salary) {
    exists i :: 0 <= i < |unique| && unique[i].employee == s.employee && unique[i].effective >= s.effective
  }

  lemma CoveredStays(unique: seq<Salary>, added: Salary, s: Salary)
    requires Covered(unique, s)
    ensures Covered(unique + [added], s)
  {
    var i :| 0 <= i < |unique| && unique[i].employee == s.employee && unique[i].effective >= s.effective;
    assert (unique + [added])[i] == unique[i];
  }

  /** One record for each employee. */
  predicate OnePerEmployee(unique: seq<Salary>) {
    && (forall i :: 0 <= i < |unique| ==> unique[i].employee.Some?)
    && (forall i, j :: 0 <= i < j < |unique| ==> unique[i].employee != unique[j].employee)
  }

  /** The latest records from position k of the sorted list on are all covered. */
  predicate CoversFrom(unique: seq<Salary>, sorted: seq<Salary>, k: nat) {
    forall j :: k <= j < |sorted| && sorted[j].employee.Some? ==> Covered(unique, sorted[j])
  }

  /** The preview's deduplication: every employee with a salary is paid once, by a latest record. */
  method UniqueLatest(records: seq<Salary>) returns (unique: seq<Salary>)
    ensures OnePerEmployee(unique) && forall s :: s in unique ==> s in records
    ensures forall s :: s in records && s.employee.Some? ==> Covered(unique, s)
  {
    var sorted := SortByDate(records);
    var seen: set<Option<nat>> := {};
    unique := [];
    var k := |sorted|;
    while k > 0
      invariant 0 <= k <= |sorted|
      invariant OnePerEmployee(unique) && forall s :: s in unique ==> s in sorted
      invariant seen == Employees(unique)
      invariant forall i :: 0 <= i < |unique| && 0 < k ==> unique[i].effective >= sorted[k - 1].effective
      invariant CoversFrom(unique, sorted, k)
    {
      k := k - 1;
      var s := sorted[k];
      if s.employee.Some? {
        if s.employee !in seen {
          TakeRecord(unique, sorted, k);
          seen := seen + {s.employee};
          unique := unique + [s];
        } else {
          SeenCovers(unique, s);
        }
      }
    }
    forall s | s in records && s.employee.Some? ensures Covered(unique, s) {
      var j :| 0 <= j < |sorted| && sorted[j] == s;
    }
  }

  function Employees(unique: seq<Salary>): set<Option<nat>> {
    set i | 0 <= i < |unique| :: unique[i].employee
  }

  lemma SeenCovers(unique: seq<Salary>, s: Salary)
    requires s.employee in Employees(unique)
    requires forall i :: 0 <= i < |unique| ==> unique[i].effective >= s.effective
    ensures Covered(unique, s)
  {
  }

  lemma TakeRecord(unique: seq<Salary>, sorted: seq<Salary>, k: nat)
    requires k < |sorted| && sorted[k].employee.Some? && sorted[k].employee !in Employees(unique)
    requires OnePerEmployee(unique) && CoversFrom(unique, sorted, k + 1)
    ensures OnePerEmployee(unique + [sorted[k]]) && CoversFrom(unique + [sorted[k]], sorted, k)
    ensures Employees(unique + [sorted[k]]) == Employees(unique) + {sorted[k].employee}
  {
    var s, after := sorted[k], unique + [sorted[k]];
    forall i | 0 <= i < |unique| ensures unique[i].employee != s.employee && after[i] == unique[i] {
      assert unique[i].employee in Employees(unique);
    }
    forall j | k <= j < |sorted| && sorted[j].employee.Some? ensures Covered(after, sorted[j]) {
      if j == k {
        assert after[|unique|] == s;
      } else {
        CoveredStays(unique, s, sorted[j]);
      }
    }
    forall e | e in Employees(unique) + {s.employee} ensures e in Employees(after) {
      if e in Employees(unique) {
        var i :| 0 <= i < |unique| && unique[i].employee == e;
        assert after[i].employee == e;
      } else {
        assert after[|unique|].employee == e;
      }
    }
  }
}
