/** Dates as proleptic Gregorian ordinals, as date.toordinal numbers them: 1 January of year 1
    is day 1, a Monday, and 31 December 9999 is the last date there is. */
module Calendar {
  const MAX_YEAR := 9999
  const MAX_ORDINAL := 3652059

  type Date = d: int | 1 <= d <= MAX_ORDINAL witness 1

  /** The ordinal of 1 January of year y. */
  function YearStart(y: int): int {
    var k := y - 1;
    365 * k + k / 4 - k / 100 + k / 400 + 1
  }

  function YearEnd(y: int): int {
    YearStart(y + 1) - 1
  }

  predicate IsLeap(y: int) {
    y % 4 == 0 && (y % 100 != 0 || y % 400 == 0)
  }

  function DaysInYear(y: int): (n: int)
    ensures n > 0
  {
    if IsLeap(y) then 366 else 365
  }

  /** date.weekday: Monday is 0. */
  function Weekday(d: int): int {
    (d + 6) % 7
  }

  /** Where the numbering stands: the first date, a Monday; 1 January 2000, a Saturday; the last date. */
  lemma KnownDates()
    ensures YearStart(1) == 1 && Weekday(1) == 0
    ensures YearStart(2000) == 730120 && Weekday(730120) == 5
    ensures YearEnd(MAX_YEAR) == MAX_ORDINAL
  {
  }

  lemma Quarters(k: int)
    ensures (k + 1) / 4 == k / 4 + if (k + 1) % 4 == 0 then 1 else 0
  {
  }

  lemma Centuries(k: int)
    ensures (k + 1) / 100 == k / 100 + if (k + 1) % 100 == 0 then 1 else 0
    ensures (k + 1) % 100 == 0 ==> (k + 1) % 4 == 0
  {
    assert k + 1 == 100 * ((k + 1) / 100) + (k + 1) % 100;
  }

  lemma FourCenturies(k: int)
    ensures (k + 1) / 400 == k / 400 + if (k + 1) % 400 == 0 then 1 else 0
    ensures (k + 1) % 400 == 0 ==> (k + 1) % 100 == 0
  {
    assert k + 1 == 400 * ((k + 1) / 400) + (k + 1) % 400;
  }

  lemma YearLength(y: int)
    ensures YearStart(y + 1) == YearStart(y) + DaysInYear(y)
  {
    Quarters(y - 1);
    Centuries(y - 1);
    FourCenturies(y - 1);
  }

  lemma YearStartMonotone(y: int, z: int)
    requires y <= z
    ensures YearStart(y) + 365 * (z - y) <= YearStart(z)
    decreases z - y
  {
    if y < z {
      YearLength(z - 1);
      YearStartMonotone(y, z - 1);
    }
  }

  /** date.year of an ordinal: YearBounds says what it means. */
  function YearOf(d: Date): int {
    YearFrom(1, d)
  }

  function YearFrom(y: int, d: Date): int
    requires 1 <= y <= MAX_YEAR && YearStart(y) <= d
    decreases MAX_YEAR - y
  {
    assert YearStart(10000) == MAX_ORDINAL + 1;
    if d <= YearEnd(y) then y else YearFrom(y + 1, d)
  }

  lemma {:induction false} YearFromBounds(y: int, d: Date)
    requires 1 <= y <= MAX_YEAR && YearStart(y) <= d
    ensures y <= YearFrom(y, d) <= MAX_YEAR
    ensures YearStart(YearFrom(y, d)) <= d <= YearEnd(YearFrom(y, d))
    decreases MAX_YEAR - y
  {
    assert YearStart(10000) == MAX_ORDINAL + 1;
    if d > YearEnd(y) {
      YearFromBounds(y + 1, d);
    }
  }

  /** The year of a date is the one whose first and last day enclose it. */
  lemma YearBounds(d: Date)
    ensures 1 <= YearOf(d) <= MAX_YEAR && YearStart(YearOf(d)) <= d <= YearEnd(YearOf(d))
  {
    YearFromBounds(1, d);
  }

  lemma YearOfUnique(d: Date, y: int)
    requires YearStart(y) <= d <= YearEnd(y)
    ensures YearOf(d) == y
  {
    YearBounds(d);
    YearsApart(d, y, YearOf(d));
  }

  lemma YearsApart(d: int, y: int, z: int)
    requires YearStart(y) <= d <= YearEnd(y) && YearStart(z) <= d <= YearEnd(z)
    ensures y == z
  {
    if y < z {
      YearStartMonotone(y + 1, z);
    } else if z < y {
      YearStartMonotone(z + 1, y);
    }
  }

  lemma YearInRange(y: int)
    requires 1 <= y <= MAX_YEAR
    ensures 1 <= YearStart(y) <= YearEnd(y) <= MAX_ORDINAL
  {
    YearStartMonotone(1, y);
    YearStartMonotone(y, y + 1);
    YearStartMonotone(y + 1, 10000);
  }
}
