/** Day counting, accrual arithmetic and carry-over limits. Day amounts are integer hundredths. */
module LeaveCalc {
  import opened Wrappers
  import opened Calendar
  import Rounding

  datatype CalcError = EndBeforeStart | DateOverflow

  datatype Policy = Policy(
    monthly: bool,                       // cadence is monthly rather than annual
    entitlement: int,                    // annual entitlement
    prorateOnHire: bool,
    carryOver: bool,
    carryOverMax: Option<int>,
    carryOverExpires: Option<Date>,
    gender: Option<string>,              // None is the scope "all"
    maritalStatus: Option<string>,
    departments: seq<nat>,
    active: bool,
    deleted: bool)

  // ----- counting days --------------------------------------------------------------------

  /** The dates from start to end, both included. */
  function Days(start: int, end: int): (s: set<int>)
    ensures forall d :: d in s <==> start <= d <= end
  {
    set d | start <= d <= end && Within(d, start, end)
  }

  predicate Within(d: int, start: int, end: int) {
    start <= d <= end
  }

  predicate IsWeekday(d: int) {
    Weekday(d) < 5
  }

  /** The Mondays to Fridays of a year. */
  function WeekdaysOf(year: int): set<int> {
    WeekdaysIn(YearStart(year), YearEnd(year))
  }

  function WeekdaysIn(start: int, end: int): set<int> {
    set d | d in Days(start, end) && IsWeekday(d)
  }

  /** The day after, unless there is none. */
  function NextDay(d: Date): Option<Date> {
    if d == MAX_ORDINAL then None else Some(d + 1)
  }

  lemma DaysGrow(start: int, d: int)
    requires start <= d
    ensures Days(start, d) == Days(start, d - 1) + {d}
  {
  }

  /** The days a request is charged. No date follows 31 December 9999, so a count that would have
      to step past it fails. */
  function LeaveDays(start: Date, end: Date, hours: Option<real>, workdayHours: real,
                     schedule: Option<set<int>>, holidays: Option<set<int>>): Result<int, CalcError>
  {
    if end < start then Err(EndBeforeStart)
    else if hours.Some? then
      Ok(if workdayHours <= 0.0 then 0 else Rounding.HalfUpReal(hours.value / workdayHours * 100.0))
    else if end == MAX_ORDINAL || (schedule.None? && YearOf(start) == MAX_YEAR) then Err(DateOverflow)
    else
      var workdays := if schedule.Some? then schedule.value else WeekdaysOf(YearOf(start));
      var off := if holidays.Some? then holidays.value else {};
      Ok(100 * |Days(start, end) * workdays - off|)
  }

  /** None when the loop would have to step past the last date. */
  method DefaultWorkdays(year: int) returns (r: Option<set<int>>)
    requires 1 <= year <= MAX_YEAR
    ensures r == if year == MAX_YEAR then None else Some(WeekdaysOf(year))
  {
    YearInRange(year);
    var result: set<int> := {};
    var d: Date := YearStart(year);
    var end := YearEnd(year);
    if year < MAX_YEAR {
      YearInRange(year + 1);
    }
    while d <= end
      invariant YearStart(year) <= d <= end + 1
      invariant result == WeekdaysIn(YearStart(year), d - 1)
    {
      DaysGrow(YearStart(year), d);
      if Weekday(d) < 5 {
        result := result + {d};
      }
      var next := NextDay(d);
      if next.None? {
        return None;
      }
      d := next.value;
    }
    r := Some(result);
  }

  method LeaveDaysInRange(start: Date, end: Date, hours: Option<real>, workdayHours: real,
                          schedule: Option<set<int>>, holidays: Option<set<int>>)
    returns (r: Result<int, CalcError>)
    ensures r == LeaveDays(start, end, hours, workdayHours, schedule, holidays)
  {
    if end < start {
      return Err(EndBeforeStart);
    }
    if hours.Some? {
      if workdayHours <= 0.0 {
        return Ok(0);
      }
      return Ok(Rounding.HalfUpReal(hours.value / workdayHours * 100.0));
    }
    var off := if holidays.Some? then holidays.value else {};
    var workdays: set<int>;
    if schedule.None? {
      YearBounds(start);
      var byDefault := DefaultWorkdays(YearOf(start));
      if byDefault.None? {
        return Err(DateOverflow);
      }
      workdays := byDefault.value;
    } else {
      workdays := schedule.value;
    }
    var count := CountWorkdays(start, end, workdays, off);
    if count.None? {
      return Err(DateOverflow);
    }
    r := Ok(100 * count.value);
  }

  /** The counting loop, None when it would have to step past the last date. */
  method CountWorkdays(start: Date, end: Date, workdays: set<int>, off: set<int>) returns (r: Option<int>)
    requires start <= end
    ensures r == if end == MAX_ORDINAL then None else Some(|Days(start, end) * workdays - off|)
  {
    var count := 0;
    var current: Date := start;
    assert Days(start, start - 1) * workdays - off == {};
    while current <= end
      invariant start <= current <= end + 1
      invariant count == |Days(start, current - 1) * workdays - off|
    {
      CountNext(start, current, workdays, off);
      if current in workdays && current !in off {
        count := count + 1;
      }
      var next := NextDay(current);
      if next.None? {
        return None;
      }
      current := next.value;
    }
    assert current - 1 == end;
    r := Some(count);
  }

  lemma CountNext(start: int, d: int, workdays: set<int>, off: set<int>)
    requires start <= d
    ensures |Days(start, d) * workdays - off|
         == |Days(start, d - 1) * workdays - off| + if d in workdays && d !in off then 1 else 0
  {
    var before, after := Days(start, d - 1) * workdays - off, Days(start, d) * workdays - off;
    if d in workdays && d !in off {
      assert after == before + {d};
    } else {
      assert after == before;
    }
  }

  /** The days a range is charged under a schedule: those on it that are no holidays. */
  function ChargedDays(start: int, end: int, schedule: set<int>, holidays: Option<set<int>>): set<int> {
    set d | d in schedule && start <= d <= end && (holidays.None? || d !in holidays.value)
  }

  /** What a count comes to, case by case: the two errors and exactly when each occurs, the days of a schedule,
      the weekdays of the starting year where there is none, and the hours' share, to the nearest hundredth. */
  lemma LeaveDaysMeans(start: Date, end: Date, hours: Option<real>, workdayHours: real,
                       schedule: Option<set<int>>, holidays: Option<set<int>>)
    ensures var r := LeaveDays(start, end, hours, workdayHours, schedule, holidays);
      var pastTheEnd := end == MAX_ORDINAL || (schedule.None? && start >= YearStart(MAX_YEAR));
      && (r == Err(EndBeforeStart) <==> end < start)
      && (r == Err(DateOverflow) <==> start <= end && hours.None? && pastTheEnd)
      && (r.Ok? && hours.None? && schedule.Some? ==>
            r.value == 100 * |ChargedDays(start, end, schedule.value, holidays)|)
      && (r.Ok? && hours.None? && schedule.None? ==>
            exists year :: YearStart(year) <= start <= YearEnd(year)
                           && r.value == 100 * |ChargedDays(start, end, WeekdaysOf(year), holidays)|)
      && (r.Ok? && hours.Some? && workdayHours <= 0.0 ==> r.value == 0)
      && (r.Ok? && hours.Some? && workdayHours > 0.0 ==> IsShare(hours.value, workdayHours, r.value))
  {
    YearBounds(start);
    LastYear(start);
    if hours.Some? && workdayHours > 0.0 {
      ShareMeans(hours.value, workdayHours);
    }
    ChargedDaysAre(start, end, if schedule.Some? then schedule.value else WeekdaysOf(YearOf(start)), holidays);
  }

  lemma ChargedDaysAre(start: int, end: int, schedule: set<int>, holidays: Option<set<int>>)
    ensures Days(start, end) * schedule - (if holidays.Some? then holidays.value else {})
         == ChargedDays(start, end, schedule, holidays)
  {
  }

  /** The hours are this many hundredths of a day, to the nearest, half a hundredth going away from zero. */
  predicate IsShare(hours: real, workdayHours: real, hundredths: int)
    requires workdayHours > 0.0
  {
    var exact := hours / workdayHours * 100.0;
    && (exact >= 0.0 ==> exact - 0.5 < hundredths as real <= exact + 0.5)
    && (exact <= 0.0 ==> exact - 0.5 <= hundredths as real < exact + 0.5)
  }

  lemma ShareMeans(hours: real, workdayHours: real)
    requires workdayHours > 0.0
    ensures IsShare(hours, workdayHours, Rounding.HalfUpReal(hours / workdayHours * 100.0))
  {
  }

  lemma LastYear(d: Date)
    ensures YearOf(d) == MAX_YEAR <==> d >= YearStart(MAX_YEAR)
  {
    YearBounds(d);
    if YearOf(d) < MAX_YEAR {
      YearStartMonotone(YearOf(d) + 1, MAX_YEAR);
    }
  }

  /** Splitting a range in two under one schedule splits its count. */
  lemma LeaveDaysAdditive(start: Date, mid: Date, end: Date, workdayHours: real,
                          schedule: set<int>, holidays: Option<set<int>>)
    requires start <= mid < end < MAX_ORDINAL
    ensures LeaveDays(start, end, None, workdayHours, Some(schedule), holidays).value
         == LeaveDays(start, mid, None, workdayHours, Some(schedule), holidays).value
          + LeaveDays(mid + 1, end, None, workdayHours, Some(schedule), holidays).value
  {
    var off := if holidays.Some? then holidays.value else {};
    var a, b := Days(start, mid) * schedule - off, Days(mid + 1, end) * schedule - off;
    assert Days(start, end) * schedule - off == a + b;
    assert a !! b;
  }

  lemma LaterYear(start: Date, end: Date)
    requires YearOf(start) < YearOf(end)
    ensures YearOf(start) < MAX_YEAR && start <= YearEnd(YearOf(start)) < end
  {
    YearBounds(start);
    YearBounds(end);
    YearStartMonotone(YearOf(start) + 1, YearOf(end));
  }

  /** With no schedule of its own a request is charged only for weekdays of the year it starts in:
      the part of a range beyond 31 December is free. */
  lemma DefaultCountStopsAtYearEnd(start: Date, end: Date, workdayHours: real)
    requires YearOf(start) < YearOf(end) && end < MAX_ORDINAL
    ensures 1 <= YearEnd(YearOf(start)) <= MAX_ORDINAL
    ensures LeaveDays(start, end, None, workdayHours, None, None)
         == LeaveDays(start, YearEnd(YearOf(start)), None, workdayHours, None, None)
  {
    var y := YearOf(start);
    LaterYear(start, end);
    assert Days(start, end) * WeekdaysOf(y) - {} == Days(start, YearEnd(y)) * WeekdaysOf(y) - {};
  }

  /** Weekdays among n consecutive days, the first being weekday w: five in every whole week, and
      of the rest those before Saturday and those after Sunday. */
  function WeekdaysAmong(w: int, n: int): int
    requires 0 <= w < 7 && 0 <= n
  {
    var r := n % 7;
    5 * (n / 7)
    + (if w >= 5 then 0 else if w + r <= 5 then r else 5 - w)
    + (if w + r > 7 then w + r - 7 else 0)
  }

  lemma WeekdaysAmongStep(d: int, n: int)
    requires n > 0
    ensures WeekdaysAmong(Weekday(d), n)
         == WeekdaysAmong(Weekday(d), n - 1) + if IsWeekday(d + n - 1) then 1 else 0
  {
    WeekdayAfter(d, n - 1);
    NextDivision(n - 1);
  }

  lemma WeekdayAfter(d: int, m: int)
    requires m >= 0
    ensures var w := Weekday(d) + m % 7; Weekday(d + m) == if w < 7 then w else w - 7
  {
    assert d + m + 6 == 7 * ((d + 6) / 7 + m / 7) + Weekday(d) + m % 7;
  }

  lemma NextDivision(m: int)
    requires m >= 0
    ensures if m % 7 == 6 then (m + 1) / 7 == m / 7 + 1 && (m + 1) % 7 == 0
            else (m + 1) / 7 == m / 7 && (m + 1) % 7 == m % 7 + 1
  {
  }

  lemma WeekdaysInStep(start: int, end: int)
    requires start <= end
    ensures |WeekdaysIn(start, end)| == |WeekdaysIn(start, end - 1)| + if IsWeekday(end) then 1 else 0
  {
    DaysGrow(start, end);
    if IsWeekday(end) {
      assert WeekdaysIn(start, end) == WeekdaysIn(start, end - 1) + {end};
    } else {
      assert WeekdaysIn(start, end) == WeekdaysIn(start, end - 1);
    }
  }

  lemma {:induction false} WeekdaysAmongCounts(start: int, n: nat)
    ensures |WeekdaysIn(start, start + n - 1)| == WeekdaysAmong(Weekday(start), n)
  {
    if n == 0 {
      assert WeekdaysIn(start, start - 1) == {};
    } else {
      WeekdaysAmongCounts(start, n - 1);
      WeekdaysAmongStep(start, n);
      WeekdaysInStep(start, start + n - 1);
    }
  }

  /** The closed form of a default count inside one year. */
  lemma DefaultCountClosedForm(start: Date, end: Date, workdayHours: real)
    requires start <= end && YearOf(start) == YearOf(end) < MAX_YEAR
    ensures LeaveDays(start, end, None, workdayHours, None, None)
         == Ok(100 * WeekdaysAmong(Weekday(start), end - start + 1))
  {
    var y := YearOf(start);
    YearBounds(start);
    YearBounds(end);
    YearStartMonotone(y + 1, 9999);
    WeekdaysAmongCounts(start, end - start + 1);
    assert Days(start, end) * WeekdaysOf(y) - {} == WeekdaysIn(start, end);
  }

  /** A year has 260, 261 or 262 weekdays. */
  lemma WeekdaysOfYear(year: int)
    ensures |WeekdaysOf(year)| == WeekdaysAmong(Weekday(YearStart(year)), YearEnd(year) - YearStart(year) + 1)
    ensures 260 <= |WeekdaysOf(year)| <= 262
  {
    YearLength(year);
    var n := YearEnd(year) - YearStart(year) + 1;
    WeekdaysAmongCounts(YearStart(year), n);
  }

  // ----- work schedules -------------------------------------------------------------------

  /** The weekday numbers of a shift's day list (1 is Monday, taken modulo 7), or Monday to Friday. */
  function ShiftWeekdays(days: Option<seq<int>>): set<int> {
    if days.Some? && days.value != [] then set x | x in days.value :: (x - 1) % 7
    else {0, 1, 2, 3, 4}
  }

  function Workdays(days: Option<seq<int>>, holidays: set<int>, year: int): set<int> {
    set d | d in Days(YearStart(year), YearEnd(year)) && Weekday(d) in ShiftWeekdays(days) && d !in holidays
  }

  /** A day of the list falls on this day of the week, 1 being a Monday, 7 a Sunday, and so on round. */
  predicate FallsOn(x: int, weekday: int) {
    (x - weekday - 1) % 7 == 0
  }

  /** The days of a work schedule: of the year, no holiday, and on a weekday the list names - on Monday to Friday
      where there is no list or an empty one. */
  lemma WorkdaysMean(days: Option<seq<int>>, holidays: set<int>, year: int, d: int)
    ensures d in Workdays(days, holidays, year)
       <==> YearStart(year) <= d <= YearEnd(year) && d !in holidays
            && if days == None || days == Some([]) then Weekday(d) <= 4
               else exists i :: 0 <= i < |days.value| && FallsOn(days.value[i], Weekday(d))
  {
    if days.Some? && days.value != [] {
      NamedWeekdays(days.value, Weekday(d));
    }
  }

  lemma NamedWeekdays(days: seq<int>, weekday: int)
    requires days != [] && 0 <= weekday < 7
    ensures weekday in ShiftWeekdays(Some(days)) <==> exists i :: 0 <= i < |days| && FallsOn(days[i], weekday)
  {
    forall i | 0 <= i < |days| && FallsOn(days[i], weekday) ensures weekday in ShiftWeekdays(Some(days)) {
      FallsOnIs(days[i], weekday);
      assert days[i] in days;
    }
    if weekday in ShiftWeekdays(Some(days)) {
      var x :| x in days && (x - 1) % 7 == weekday;
      FallsOnIs(x, weekday);
      var i :| 0 <= i < |days| && days[i] == x;
      assert FallsOn(days[i], weekday);
    }
  }

  lemma FallsOnIs(x: int, weekday: int)
    requires 0 <= weekday < 7
    ensures FallsOn(x, weekday) <==> (x - 1) % 7 == weekday
  {
  }

  method WorkdaySet(days: Option<seq<int>>, holidays: set<int>, year: int, companyHours: real)
    returns (r: Option<(set<int>, real)>)
    requires 1 <= year <= MAX_YEAR
    ensures r == if year == MAX_YEAR then None else Some((Workdays(days, holidays, year), companyHours))
  {
    YearInRange(year);
    if year < MAX_YEAR {
      YearInRange(year + 1);
    }
    var workdates: set<int> := {};
    var d: Date := YearStart(year);
    var end := YearEnd(year);
    var numbers := ShiftWeekdays(days);
    while d <= end
      invariant YearStart(year) <= d <= end + 1
      invariant workdates == set x | x in Days(YearStart(year), d - 1) && Weekday(x) in numbers && x !in holidays
    {
      DaysGrow(YearStart(year), d);
      if Weekday(d) in numbers && d !in holidays {
        workdates := workdates + {d};
      }
      var next := NextDay(d);
      if next.None? {
        return None;
      }
      d := next.value;
    }
    r := Some((workdates, companyHours));
  }

  /** Holidays may be taken out by the schedule or by the count: the answer is the same. */
  lemma HolidaysOutEitherWay(start: Date, end: Date, workdayHours: real, days: Option<seq<int>>,
                             holidays: set<int>, year: int)
    ensures LeaveDays(start, end, None, workdayHours, Some(Workdays(days, holidays, year)), None)
         == LeaveDays(start, end, None, workdayHours, Some(Workdays(days, {}, year)), Some(holidays))
  {
    assert Days(start, end) * Workdays(days, holidays, year) - {}
        == Days(start, end) * Workdays(days, {}, year) - holidays;
  }

  // ----- accrual --------------------------------------------------------------------------

  /** The grant of an enrollment. The dates of a year exist only for years 1 to 9999. */
  function AccrueForYear(policy: Policy, hired: Option<Date>, year: int): Result<int, CalcError> {
    if policy.monthly || !policy.prorateOnHire || hired.None? then Ok(policy.entitlement)
    else if YearOf(hired.value) > year then Ok(0)
    else if year > MAX_YEAR then Err(DateOverflow)
    else if hired.value < YearStart(year) then Ok(policy.entitlement)
    else if hired.value > YearEnd(year) then Ok(0)
    else
      Ok(Prorated(policy.entitlement, hired.value, year))
  }

  predicate HiredWithin(hired: Date, year: int) {
    YearStart(year) <= hired <= YearEnd(year)
  }

  /** The share of the entitlement left to someone hired on a day of the year. */
  function Prorated(entitlement: int, hired: Date, year: int): int
    requires HiredWithin(hired, year)
  {
    Rounding.HalfUp(entitlement * (YearEnd(year) - hired + 1), DaysInYear(year))
  }

  lemma AccrueCases(policy: Policy, hired: Date, year: int)
    requires year <= MAX_YEAR && !policy.monthly && policy.prorateOnHire
    ensures AccrueForYear(policy, Some(hired), year) == Ok(
      if hired > YearEnd(year) then 0
      else if hired < YearStart(year) then policy.entitlement
      else Prorated(policy.entitlement, hired, year))
  {
    YearBounds(hired);
    if HiredWithin(hired, year) {
      YearOfUnique(hired, year);
    } else if hired < YearStart(year) && YearOf(hired) > year {
      YearStartMonotone(year, YearOf(hired));
    }
  }

  lemma ProratedShare(entitlement: nat, hired: Date, later: Date, year: int)
    requires HiredWithin(hired, year) && HiredWithin(later, year) && hired <= later
    ensures 0 <= Prorated(entitlement, later, year) <= Prorated(entitlement, hired, year) <= entitlement
    ensures hired == YearStart(year) ==> Prorated(entitlement, hired, year) == entitlement
  {
    var d := DaysInYear(year);
    YearLength(year);
    var n, m := YearEnd(year) - later + 1, YearEnd(year) - hired + 1;
    Product(entitlement, n, m);
    Product(entitlement, m, d);
    Rounding.HalfUpMonotone(entitlement * n, entitlement * m, d);
    Rounding.HalfUpMonotone(entitlement * m, entitlement * d, d);
    Rounding.HalfUpExact(entitlement, d);
  }

  lemma Product(a: nat, n: int, m: int)
    requires 0 <= n <= m
    ensures 0 <= a * n <= a * m
  {
  }

  /** Hired later, granted no more: never less than nothing, never more than the entitlement, and
      all of it for someone hired on 1 January. */
  lemma GrantAntitone(policy: Policy, hired: Date, later: Date, year: int)
    requires policy.entitlement >= 0 && hired <= later && year <= MAX_YEAR
    ensures 0 <= AccrueForYear(policy, Some(later), year).value
              <= AccrueForYear(policy, Some(hired), year).value
              <= policy.entitlement
    ensures hired == YearStart(year) ==> AccrueForYear(policy, Some(hired), year) == Ok(policy.entitlement)
  {
    if !policy.monthly && policy.prorateOnHire {
      AccrueCases(policy, hired, year);
      AccrueCases(policy, later, year);
      YearStartMonotone(year, year + 1);
      if HiredWithin(hired, year) {
        ProratedShare(policy.entitlement, hired, hired, year);
        if HiredWithin(later, year) {
          ProratedShare(policy.entitlement, hired, later, year);
        }
      } else if HiredWithin(later, year) {
        ProratedShare(policy.entitlement, later, later, year);
      }
    }
  }

  /** What an enrollment in the year is granted: everything, nothing to someone hired after the year, and to
      someone hired in the year the share of its days from the hire date on, to the nearest hundredth. */
  predicate IsGrant(policy: Policy, hired: Option<Date>, year: int, granted: int) {
    if policy.monthly || !policy.prorateOnHire || hired.None? || hired.value < YearStart(year)
    then granted == policy.entitlement
    else if hired.value > YearEnd(year) then granted == 0
    else
      var days, left := YearEnd(year) - YearStart(year) + 1, YearEnd(year) - hired.value + 1;
      && (policy.entitlement >= 0 ==>
            -days < 2 * (granted * days) - 2 * (policy.entitlement * left) <= days)
      && (policy.entitlement <= 0 ==>
            -days <= 2 * (granted * days) - 2 * (policy.entitlement * left) < days)
  }

  /** The grant fails only for a year past the calendar whose dates it would need. */
  lemma GrantMeans(policy: Policy, hired: Option<Date>, year: int)
    ensures var r := AccrueForYear(policy, hired, year);
      && (r.Err? <==> !policy.monthly && policy.prorateOnHire && hired.Some? && year > MAX_YEAR)
      && (r.Err? ==> r == Err(DateOverflow))
      && (r.Ok? ==> IsGrant(policy, hired, year, r.value))
  {
    if !policy.monthly && policy.prorateOnHire && hired.Some? {
      if year <= MAX_YEAR {
        AccrueCases(policy, hired.value, year);
        if HiredWithin(hired.value, year) {
          ProratedIs(policy, hired.value, year);
        }
      } else {
        YearBounds(hired.value);
      }
    }
  }

  lemma ProratedIs(policy: Policy, hired: Date, year: int)
    requires HiredWithin(hired, year) && !policy.monthly && policy.prorateOnHire
    ensures IsGrant(policy, Some(hired), year, Prorated(policy.entitlement, hired, year))
  {
    YearLength(year);
    ProductSign(policy.entitlement, YearEnd(year) - hired + 1);
  }

  lemma ProductSign(a: int, n: int)
    requires n >= 0
    ensures a >= 0 ==> a * n >= 0
    ensures a <= 0 ==> a * n <= 0
  {
  }

  lemma GrantNonNegative(policy: Policy, hired: Option<Date>, year: int)
    requires policy.entitlement >= 0 && AccrueForYear(policy, hired, year).Ok?
    ensures AccrueForYear(policy, hired, year).value >= 0
  {
    if hired.Some? && year <= MAX_YEAR {
      GrantAntitone(policy, hired.value, hired.value, year);
    }
  }

  function MonthlyChunk(policy: Policy): int {
    if policy.entitlement <= 0 then 0 else Rounding.HalfUp(policy.entitlement, 12)
  }

  lemma ChunkMeans(policy: Policy)
    ensures IsChunk(policy, MonthlyChunk(policy))
  {
  }

  /** A twelfth of the entitlement, to the nearest hundredth, and nothing of a negative one. */
  predicate IsChunk(policy: Policy, chunk: int) {
    if policy.entitlement <= 0 then chunk == 0
    else policy.entitlement - 6 < 12 * chunk <= policy.entitlement + 6
  }

  /** A year of monthly chunks misses the entitlement by at most six hundredths. */
  lemma TwelveChunks(policy: Policy)
    requires policy.entitlement >= 0
    ensures MonthlyChunk(policy) >= 0
    ensures -6 < 12 * MonthlyChunk(policy) - policy.entitlement <= 6
  {
  }

  // ----- carry-over -----------------------------------------------------------------------

  /** The policy lets something through: carry-over is on, not capped at nothing, and not expired. */
  predicate CarryOverOpen(policy: Policy, now: Option<Date>) {
    && policy.carryOver
    && (policy.carryOverMax.Some? ==> policy.carryOverMax.value > 0)
    && (policy.carryOverExpires.Some? && now.Some? ==> now.value <= policy.carryOverExpires.value)
  }

  function CarryoverAmount(remaining: int, policy: Policy, now: Option<Date>): (amount: int)
    ensures amount >= 0
    ensures amount > 0 ==> amount <= remaining && (policy.carryOverMax.Some? ==> amount <= policy.carryOverMax.value)
    ensures amount > 0 ==> amount == remaining || policy.carryOverMax == Some(amount)
    ensures amount > 0 <==> remaining > 0 && CarryOverOpen(policy, now)
  {
    if !policy.carryOver then 0
    else
      var amount := if policy.carryOverMax.None? then remaining
                    else if policy.carryOverMax.value < remaining then policy.carryOverMax.value else remaining;
      if amount <= 0 then 0
      else if policy.carryOverExpires.Some? && now.Some? && now.value > policy.carryOverExpires.value then 0
      else amount
  }
}
