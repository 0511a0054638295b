/**
 * Minute-precision timestamps with the rules of Python's `datetime`:
 * which fields the constructor accepts, how two values compare, and what
 * subtracting two values gives (a `timedelta`, whose `seconds` field is
 * the remainder modulo one day).
 */
module DateTimes {

  datatype DateTime = DateTime(year: int, month: int, day: int, hour: int, minute: int)

  predicate IsLeap(y: int)
  {
    y % 4 == 0 && (y % 100 != 0 || y % 400 == 0)
  }

  function YearLength(y: int): int
  {
    if IsLeap(y) then 366 else 365
  }

  function DaysInMonth(y: int, m: int): int
    requires 1 <= m <= 12
  {
    if m == 2 then (if IsLeap(y) then 29 else 28)
    else if m == 4 || m == 6 || m == 9 || m == 11 then 30
    else 31
  }

  /** The fields `datetime(year, month, day, hour, minute)` accepts without raising `ValueError`. */
  predicate Valid(d: DateTime)
  {
    && 1 <= d.year <= 9999
    && 1 <= d.month <= 12
    && 1 <= d.day <= DaysInMonth(d.year, d.month)
    && 0 <= d.hour <= 23
    && 0 <= d.minute <= 59
  }

  /** Days in the years 1 .. y-1 of the proleptic Gregorian calendar. */
  function DaysBeforeYear(y: int): nat
    requires y >= 1
  {
    if y == 1 then 0 else DaysBeforeYear(y - 1) + YearLength(y - 1)
  }

  /** Days in the months before `m` of year `y`. */
  function DaysBeforeMonth(y: int, m: int): nat
    requires 1 <= m <= 12
  {
    [0, 31, 59, 90, 120, 151, 181, 212, 243, 273, 304, 334][m - 1] + (if m > 2 && IsLeap(y) then 1 else 0)
  }

  /** `d.toordinal()`: day 1 is 0001-01-01. */
  function Ordinal(d: DateTime): nat
    requires Valid(d)
  {
    DaysBeforeYear(d.year) + DaysBeforeMonth(d.year, d.month) + d.day
  }

  /** Minutes elapsed since 0001-01-01 00:00. */
  function Minutes(d: DateTime): int
    requires Valid(d)
  {
    (Ordinal(d) - 1) * 1440 + d.hour * 60 + d.minute
  }

  /** `a < b` on two `datetime` values: field by field, the year first. */
  predicate Before(a: DateTime, b: DateTime)
  {
    || a.year < b.year
    || (a.year == b.year && a.month < b.month)
    || (a.year == b.year && a.month == b.month && a.day < b.day)
    || (a.year == b.year && a.month == b.month && a.day == b.day && a.hour < b.hour)
    || (a.year == b.year && a.month == b.month && a.day == b.day && a.hour == b.hour && a.minute < b.minute)
  }

  /**
   * `(end - begin).seconds`. A `timedelta` of `d` minutes is normalised to
   * `d` floor-divided by 1440 days plus a remainder of whole minutes in
   * [0, 1440), which `seconds` gives in seconds.
   */
  function TimedeltaSeconds(begin: DateTime, end: DateTime): (r: int)
    requires Valid(begin) && Valid(end)
    ensures 0 <= r < 86400 && r % 60 == 0
  {
    60 * ((Minutes(end) - Minutes(begin)) % 1440)
  }

  lemma MonthEnds(y: int, m: int)
    requires 1 <= m <= 12
    ensures DaysBeforeMonth(y, m) + DaysInMonth(y, m) <= YearLength(y)
    ensures m < 12 ==> DaysBeforeMonth(y, m) + DaysInMonth(y, m) <= DaysBeforeMonth(y, m + 1)
  {
  }

  lemma {:induction false} MonthsOrdered(y: int, m1: int, m2: int)
    requires 1 <= m1 < m2 <= 12
    ensures DaysBeforeMonth(y, m1) + DaysInMonth(y, m1) <= DaysBeforeMonth(y, m2)
    decreases m2 - m1
  {
    MonthEnds(y, m1);
    if m1 + 1 < m2 {
      MonthEnds(y, m1 + 1);
      MonthsOrdered(y, m1 + 1, m2);
    }
  }

  lemma {:induction false} YearsOrdered(y1: int, y2: int)
    requires 1 <= y1 < y2
    ensures DaysBeforeYear(y1) + YearLength(y1) <= DaysBeforeYear(y2)
    decreases y2 - y1
  {
    if y1 + 1 < y2 {
      YearsOrdered(y1 + 1, y2);
    }
  }

  /** A date earlier in field order has a smaller ordinal. */
  lemma OrdinalOrdered(a: DateTime, b: DateTime)
    requires Valid(a) && Valid(b)
    requires a.year < b.year || (a.year == b.year && a.month < b.month)
             || (a.year == b.year && a.month == b.month && a.day < b.day)
    ensures Ordinal(a) < Ordinal(b)
  {
    if a.year < b.year {
      MonthEnds(a.year, a.month);
      YearsOrdered(a.year, b.year);
    } else if a.month < b.month {
      MonthsOrdered(a.year, a.month, b.month);
    }
  }

  /**
   * The field-by-field order of `datetime` is the order of the moments the
   * values denote: `a < b` exactly when fewer minutes have elapsed at `a`.
   */
  lemma BeforeIffEarlier(a: DateTime, b: DateTime)
    requires Valid(a) && Valid(b)
    ensures Before(a, b) <==> Minutes(a) < Minutes(b)
  {
    if a.year != b.year || a.month != b.month || a.day != b.day {
      if a.year < b.year || (a.year == b.year && a.month < b.month)
         || (a.year == b.year && a.month == b.month && a.day < b.day) {
        OrdinalOrdered(a, b);
      } else {
        OrdinalOrdered(b, a);
      }
    }
  }

  /** `<` on valid `datetime` values is a strict total order. */
  lemma BeforeStrictOrder(a: DateTime, b: DateTime, c: DateTime)
    requires Valid(a) && Valid(b) && Valid(c)
    ensures !Before(a, a)
    ensures Before(a, b) && Before(b, c) ==> Before(a, c)
    ensures Before(a, b) || a == b || Before(b, a)
  {
    BeforeIffEarlier(a, b);
    BeforeIffEarlier(b, c);
    BeforeIffEarlier(a, c);
  }

  /**
   * On one calendar date, `(end - begin).seconds / 60` is the difference of
   * the clock times in minutes taken modulo a day: an end before the begin
   * wraps around to a duration of almost a day.
   */
  lemma SameDayDuration(begin: DateTime, end: DateTime)
    requires Valid(begin) && Valid(end)
    requires begin.year == end.year && begin.month == end.month && begin.day == end.day
    ensures TimedeltaSeconds(begin, end) / 60
            == ((end.hour * 60 + end.minute) - (begin.hour * 60 + begin.minute)) % 1440
    ensures !Before(end, begin) ==>
            TimedeltaSeconds(begin, end) / 60 == (end.hour * 60 + end.minute) - (begin.hour * 60 + begin.minute)
  {
    var d := (end.hour * 60 + end.minute) - (begin.hour * 60 + begin.minute);
    assert Minutes(end) - Minutes(begin) == d;
    var r := d % 1440;
    assert (60 * r) / 60 == r;
  }
}
