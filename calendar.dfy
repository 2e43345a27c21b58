/**
 * Naive dates and times as Python's `datetime` keeps them: the proleptic
 * Gregorian calendar for years 1 to 9999, a day of 86400 seconds, field-wise
 * comparison, and `+ timedelta(...)` with its overflow past year 9999.
 */
module Calendar {
  import opened Wrappers

  /** The fields of a `datetime` the converter reads or writes (microseconds never reach the output). */
  datatype DateTime = DateTime(year: int, month: int, day: int, hour: int, minute: int, second: int)

  /** `datetime.MINYEAR` and `datetime.MAXYEAR`. */
  const MinYear := 1
  const MaxYear := 9999

  predicate IsLeapYear(y: int) {
    y % 4 == 0 && (y % 100 != 0 || y % 400 == 0)
  }

  function DaysInYear(y: int): int {
    if IsLeapYear(y) then 366 else 365
  }

  function DaysInMonth(y: int, m: int): (n: int)
    requires 1 <= m <= 12
    ensures 28 <= n <= 31
    ensures m == 2 ==> (n == 29 <==> IsLeapYear(y))
  {
    if m == 2 then (if IsLeapYear(y) then 29 else 28)
    else if m == 4 || m == 6 || m == 9 || m == 11 then 30
    else 31
  }

  /** The dates `datetime` accepts: a year in 1..9999, and a day that exists in that month. */
  predicate ValidDate(y: int, m: int, d: int) {
    MinYear <= y <= MaxYear && 1 <= m <= 12 && 1 <= d <= DaysInMonth(y, m)
  }

  predicate Valid(t: DateTime) {
    && ValidDate(t.year, t.month, t.day)
    && 0 <= t.hour < 24 && 0 <= t.minute < 60 && 0 <= t.second < 60
  }

  /** Every `datetime` object Python can hold. */
  type Instant = t: DateTime | Valid(t) witness DateTime(1, 1, 1, 0, 0, 0)

  function DaysBeforeYear(y: int): int
    requires y >= 1
  {
    var p := y - 1;
    p * 365 + p / 4 - p / 100 + p / 400
  }

  function DaysBeforeMonth(y: int, m: int): int
    requires 1 <= m <= 12
  {
    [0, 31, 59, 90, 120, 151, 181, 212, 243, 273, 304, 334][m - 1]
      + (if m > 2 && IsLeapYear(y) then 1 else 0)
  }

  /** `date.toordinal()`: day 1 is 1 January of year 1. */
  function Ordinal(t: Instant): int {
    DaysBeforeYear(t.year) + DaysBeforeMonth(t.year, t.month) + t.day
  }

  function SecondOfDay(t: Instant): (s: nat)
    ensures s < 86400
  {
    t.hour * 3600 + t.minute * 60 + t.second
  }

  /** Seconds elapsed since 0001-01-01 00:00:00: the time line `timedelta` arithmetic works on. */
  function Timestamp(t: Instant): int {
    (Ordinal(t) - 1) * 86400 + SecondOfDay(t)
  }

  /** Python's `<` on two naive datetimes: the fields compared in order, year first. */
  predicate Before(a: DateTime, b: DateTime) {
    if a.year != b.year then a.year < b.year
    else if a.month != b.month then a.month < b.month
    else if a.day != b.day then a.day < b.day
    else if a.hour != b.hour then a.hour < b.hour
    else if a.minute != b.minute then a.minute < b.minute
    else a.second < b.second
  }

  /** Midnight of the following day, or None after 31 December 9999. */
  function NextDay(t: Instant): Option<Instant> {
    if t.day < DaysInMonth(t.year, t.month) then Some(DateTime(t.year, t.month, t.day + 1, 0, 0, 0))
    else if t.month < 12 then Some(DateTime(t.year, t.month + 1, 1, 0, 0, 0))
    else if t.year < MaxYear then Some(DateTime(t.year + 1, 1, 1, 0, 0, 0))
    else None
  }

  /** The same date at the time of day that is `s` seconds after midnight. */
  function AtSecondOfDay(t: Instant, s: nat): (r: Instant)
    requires s < 86400
    ensures (r.year, r.month, r.day) == (t.year, t.month, t.day)
    ensures SecondOfDay(r) == s
  {
    DateTime(t.year, t.month, t.day, s / 3600, s % 3600 / 60, s % 60)
  }

  /**
   * `t + timedelta(seconds=s)`: None where Python raises `OverflowError`
   * because the sum falls after year 9999. A sum that stays within the day
   * keeps the date, and no sum goes back to an earlier year.
   */
  function AddSeconds(t: Instant, s: nat): (r: Option<Instant>)
    ensures SecondOfDay(t) + s < 86400 ==> r.Some? && (r.value.year, r.value.month, r.value.day) == (t.year, t.month, t.day)
    ensures r.Some? ==> t.year <= r.value.year
    decreases s
  {
    var total := SecondOfDay(t) + s;
    if total < 86400 then Some(AtSecondOfDay(t, total))
    else match NextDay(t)
      case None => None
      case Some(n) => AddSeconds(n, total - 86400)
  }

  lemma DaysBeforeNextMonth(y: int, m: int)
    requires 1 <= m < 12
    ensures DaysBeforeMonth(y, m + 1) == DaysBeforeMonth(y, m) + DaysInMonth(y, m)
  {
  }

  lemma DaysBeforeMonthBound(y: int, m: int)
    requires 1 <= m <= 12
    ensures DaysBeforeMonth(y, m) + DaysInMonth(y, m) <= DaysInYear(y)
  {
  }

  lemma QuotientStep4(p: nat)
    ensures (p + 1) / 4 == p / 4 + (if (p + 1) % 4 == 0 then 1 else 0)
  {
  }

  lemma QuotientStep100(p: nat)
    ensures (p + 1) / 100 == p / 100 + (if (p + 1) % 100 == 0 then 1 else 0)
  {
  }

  lemma QuotientStep400(p: nat)
    ensures (p + 1) / 400 == p / 400 + (if (p + 1) % 400 == 0 then 1 else 0)
  {
  }

  lemma HundredsAreFours(y: int)
    requires y % 100 == 0
    ensures y % 4 == 0
  {
    assert y == 4 * (25 * (y / 100));
  }

  lemma FourHundredsAreHundreds(y: int)
    requires y % 400 == 0
    ensures y % 100 == 0
  {
    assert y == 100 * (4 * (y / 400));
  }

  /** A year adds 366 days when it is a leap year and 365 otherwise. */
  lemma {:induction false} DaysBeforeNextYear(y: int)
    requires y >= 1
    ensures DaysBeforeYear(y + 1) == DaysBeforeYear(y) + DaysInYear(y)
  {
    var p := y - 1;
    QuotientStep4(p);
    QuotientStep100(p);
    QuotientStep400(p);
    if y % 100 == 0 {
      HundredsAreFours(y);
    }
    if y % 400 == 0 {
      FourHundredsAreHundreds(y);
    }
    var leapDays := (p + 1) / 4 - p / 4 - ((p + 1) / 100 - p / 100) + ((p + 1) / 400 - p / 400);
    assert DaysBeforeYear(y + 1) == DaysBeforeYear(y) + 365 + leapDays;
  }

  lemma {:induction false} DaysBeforeYearMonotone(a: int, b: int)
    requires 1 <= a < b
    ensures DaysBeforeYear(a) + DaysInYear(a) <= DaysBeforeYear(b)
    decreases b - a
  {
    DaysBeforeNextYear(a);
    if a + 1 < b {
      DaysBeforeYearMonotone(a + 1, b);
    }
  }

  lemma {:induction false} DaysBeforeMonthMonotone(y: int, a: int, b: int)
    requires 1 <= a < b <= 12
    ensures DaysBeforeMonth(y, a) + DaysInMonth(y, a) <= DaysBeforeMonth(y, b)
    decreases b - a
  {
    DaysBeforeNextMonth(y, a);
    if a + 1 < b {
      DaysBeforeMonthMonotone(y, a + 1, b);
    }
  }

  /** The next day is exactly one day further along the ordinal count. */
  lemma NextDayOrdinal(t: Instant)
    requires NextDay(t).Some?
    ensures Ordinal(NextDay(t).value) == Ordinal(t) + 1
    ensures SecondOfDay(NextDay(t).value) == 0
  {
    if t.day == DaysInMonth(t.year, t.month) {
      if t.month < 12 {
        DaysBeforeNextMonth(t.year, t.month);
      } else {
        DaysBeforeNextYear(t.year);
      }
    }
  }

  /** Adding `s` seconds moves exactly `s` seconds along the time line, day changes included. */
  lemma {:induction false} AddSecondsTimestamp(t: Instant, s: nat)
    requires AddSeconds(t, s).Some?
    ensures Timestamp(AddSeconds(t, s).value) == Timestamp(t) + s
    decreases s
  {
    var total := SecondOfDay(t) + s;
    if total >= 86400 {
      var n := NextDay(t).value;
      NextDayOrdinal(t);
      AddSecondsTimestamp(n, total - 86400);
    }
  }

  /** Python's field-wise order on datetimes is the order of the time line. */
  lemma {:induction false} BeforeIsEarlier(a: Instant, b: Instant)
    ensures Before(a, b) <==> Timestamp(a) < Timestamp(b)
  {
    if a.year < b.year {
      DaysBeforeMonthBound(a.year, a.month);
      DaysBeforeYearMonotone(a.year, b.year);
    } else if b.year < a.year {
      DaysBeforeMonthBound(b.year, b.month);
      DaysBeforeYearMonotone(b.year, a.year);
    } else if a.month < b.month {
      DaysBeforeMonthMonotone(a.year, a.month, b.month);
    } else if b.month < a.month {
      DaysBeforeMonthMonotone(a.year, b.month, a.month);
    }
  }
}
