/**
 * The part of Python's `datetime` that the gap filler relies on: proleptic
 * Gregorian calendar dates with a time of day, their distance in seconds
 * (what `datetime - datetime` compares against `timedelta(minutes=1)`), and
 * adding one minute with full calendar rollover (`datetime + timedelta(minutes=1)`).
 */
module Calendar {
  import opened Wrappers

  const MinYear := 1
  const MaxYear := 9999

  predicate IsLeap(y: int) {
    y % 4 == 0 && (y % 100 != 0 || y % 400 == 0)
  }

  function DaysInYear(y: int): (n: int)
    ensures n == 365 || n == 366
  {
    if IsLeap(y) then 366 else 365
  }

  function DaysInMonth(y: int, m: int): (n: int)
    requires 1 <= m <= 12
    ensures 28 <= n <= 31
    ensures m == 2 ==> (n == 29 <==> IsLeap(y))
  {
    if m == 2 then (if IsLeap(y) then 29 else 28)
    else if m == 4 || m == 6 || m == 9 || m == 11 then 30
    else 31
  }

  /** Days in the months of year `y` before month `m` (Python's `_days_before_month`). */
  function DaysBeforeMonth(y: int, m: int): int
    requires 1 <= m <= 12
  {
    var before :=
      match m
      case 1 => 0 case 2 => 31 case 3 => 59 case 4 => 90 case 5 => 120 case 6 => 151
      case 7 => 181 case 8 => 212 case 9 => 243 case 10 => 273 case 11 => 304 case _ => 334;
    before + (if m > 2 && IsLeap(y) then 1 else 0)
  }

  /** Days in the years before year `y`, counted from year 1 (Python's `_days_before_year`). */
  function DaysBeforeYear(y: int): int
    requires y >= 1
  {
    var p := y - 1;
    p * 365 + p / 4 - p / 100 + p / 400
  }

  /** The months of a year tile it: each month starts where the previous one ends. */
  lemma MonthStep(y: int, m: int)
    requires 1 <= m <= 12
    ensures m < 12 ==> DaysBeforeMonth(y, m + 1) == DaysBeforeMonth(y, m) + DaysInMonth(y, m)
    ensures m == 12 ==> DaysBeforeMonth(y, m) + DaysInMonth(y, m) == DaysInYear(y)
  {
  }

  /** Moving from `p` to `p + 1` adds one multiple of `k` exactly when `p + 1` is one. */
  lemma DivStep(p: int, k: int)
    requires p >= 0 && (k == 4 || k == 100 || k == 400)
    ensures (p + 1) / k - p / k == if (p + 1) % k == 0 then 1 else 0
  {
  }

  /** Every multiple of 100 is a multiple of 4. */
  lemma CenturyIsMultipleOfFour(y: int)
    requires y % 100 == 0
    ensures y % 4 == 0
  {
    var c := y / 100;
    assert y == 4 * (25 * c);
  }

  /** Every multiple of 400 is a multiple of 100. */
  lemma QuadCenturyIsCentury(y: int)
    requires y % 400 == 0
    ensures y % 100 == 0
  {
    var c := y / 400;
    assert y == 100 * (4 * c);
  }

  /** The closed form of `_days_before_year` advances by the length of each year. */
  lemma YearStep(y: int)
    requires y >= 1
    ensures DaysBeforeYear(y + 1) == DaysBeforeYear(y) + DaysInYear(y)
  {
    DivStep(y - 1, 4);
    DivStep(y - 1, 100);
    DivStep(y - 1, 400);
    if y % 100 == 0 {
      CenturyIsMultipleOfFour(y);
    }
    if y % 400 == 0 {
      QuadCenturyIsCentury(y);
    }
  }

  lemma {:induction false} YearMonotone(y1: int, y2: int)
    requires 1 <= y1 < y2
    ensures DaysBeforeYear(y1) + DaysInYear(y1) <= DaysBeforeYear(y2)
    decreases y2 - y1
  {
    YearStep(y1);
    if y1 + 1 < y2 {
      YearMonotone(y1 + 1, y2);
    }
  }

  lemma MonthMonotone(y: int, m1: int, m2: int)
    requires 1 <= m1 < m2 <= 12
    ensures DaysBeforeMonth(y, m1) + DaysInMonth(y, m1) <= DaysBeforeMonth(y, m2)
  {
  }

  /** A calendar date and time of day, the fields of a naive Python `datetime`. */
  datatype DateTime = DateTime(year: int, month: int, day: int, hour: int, minute: int, second: int)

  /** The values Python's `datetime` constructor accepts (microseconds are always 0 here). */
  predicate Valid(t: DateTime) {
    MinYear <= t.year <= MaxYear &&
    1 <= t.month <= 12 &&
    1 <= t.day <= DaysInMonth(t.year, t.month) &&
    0 <= t.hour < 24 && 0 <= t.minute < 60 && 0 <= t.second < 60
  }

  /** Day number of the date, 1 for 0001-01-01 (Python's `toordinal`). */
  function Ordinal(t: DateTime): int
    requires Valid(t)
  {
    DaysBeforeYear(t.year) + DaysBeforeMonth(t.year, t.month) + t.day
  }

  function TimeOfDay(t: DateTime): int {
    t.hour * 3600 + t.minute * 60 + t.second
  }

  /** Seconds since 0000-12-31T00:00:00 (day ordinal 0); differences of these are `datetime` differences. */
  function Seconds(t: DateTime): int
    requires Valid(t)
  {
    Ordinal(t) * 86400 + TimeOfDay(t)
  }

  /** Lexicographic order on the fields, year first: the order of calendar instants. */
  predicate Before(a: DateTime, b: DateTime) {
    a.year < b.year || (a.year == b.year &&
    (a.month < b.month || (a.month == b.month &&
    (a.day < b.day || (a.day == b.day &&
    (a.hour < b.hour || (a.hour == b.hour &&
    (a.minute < b.minute || (a.minute == b.minute && a.second < b.second)))))))))
  }

  /** A valid instant lies within its own year. */
  lemma WithinYear(t: DateTime)
    requires Valid(t)
    ensures (DaysBeforeYear(t.year) + 1) * 86400 <= Seconds(t)
    ensures Seconds(t) < (DaysBeforeYear(t.year) + DaysInYear(t.year) + 1) * 86400
  {
    MonthStep(t.year, t.month);
    if t.month < 12 {
      MonthMonotone(t.year, t.month, 12);
      MonthStep(t.year, 12);
    }
  }

  lemma BeforeHasFewerSeconds(a: DateTime, b: DateTime)
    requires Valid(a) && Valid(b) && Before(a, b)
    ensures Seconds(a) < Seconds(b)
  {
    if a.year < b.year {
      WithinYear(a);
      WithinYear(b);
      YearMonotone(a.year, b.year);
    } else if a.month < b.month {
      MonthMonotone(a.year, a.month, b.month);
    }
  }

  /** Seconds orders valid instants exactly as the calendar does, and tells them apart. */
  lemma SecondsOrder(a: DateTime, b: DateTime)
    requires Valid(a) && Valid(b)
    ensures Seconds(a) < Seconds(b) <==> Before(a, b)
    ensures Seconds(a) == Seconds(b) <==> a == b
  {
    if Before(a, b) {
      BeforeHasFewerSeconds(a, b);
    } else if Before(b, a) {
      BeforeHasFewerSeconds(b, a);
    }
  }

  /** The last minute that Python's `datetime` can represent, whatever its seconds. */
  predicate IsLastMinute(t: DateTime) {
    t.year == MaxYear && t.month == 12 && t.day == 31 && t.hour == 23 && t.minute == 59
  }

  /**
   * `t + timedelta(minutes=1)`: the seconds field is kept and the minute, hour,
   * day, month and year roll over as needed; `None` is Python's OverflowError.
   */
  function PlusOneMinute(t: DateTime): Option<DateTime>
    requires Valid(t)
  {
    if t.minute < 59 then Some(t.(minute := t.minute + 1))
    else if t.hour < 23 then Some(t.(hour := t.hour + 1, minute := 0))
    else if t.day < DaysInMonth(t.year, t.month) then Some(t.(day := t.day + 1, hour := 0, minute := 0))
    else if t.month < 12 then Some(t.(month := t.month + 1, day := 1, hour := 0, minute := 0))
    else if t.year < MaxYear then Some(DateTime(t.year + 1, 1, 1, 0, 0, t.second))
    else None
  }

  /** Adding a minute fails only in the very last representable minute, and otherwise moves 60 seconds on. */
  lemma PlusOneMinuteAdvances(t: DateTime)
    requires Valid(t)
    ensures PlusOneMinute(t).None? <==> IsLastMinute(t)
    ensures PlusOneMinute(t).Some? ==>
      var u := PlusOneMinute(t).value;
      Valid(u) && u.second == t.second && Seconds(u) == Seconds(t) + 60
  {
    if t.minute == 59 && t.hour == 23 && t.day == DaysInMonth(t.year, t.month) {
      MonthStep(t.year, t.month);
      if t.month == 12 && t.year < MaxYear {
        YearStep(t.year);
      }
    }
  }

  /** No valid instant lies a minute or more after the start of the last representable minute. */
  lemma LastMinuteIsLast(t: DateTime, u: DateTime)
    requires Valid(t) && Valid(u) && IsLastMinute(t)
    ensures Seconds(u) < Seconds(t) + 60
  {
    WithinYear(u);
    if u.year < MaxYear {
      YearMonotone(u.year, MaxYear);
    }
  }

  /** If a later valid instant exists more than a minute ahead, adding a minute cannot overflow. */
  lemma PlusOneMinuteDefined(t: DateTime, u: DateTime)
    requires Valid(t) && Valid(u) && Seconds(u) - Seconds(t) > 60
    ensures PlusOneMinute(t).Some?
  {
    PlusOneMinuteAdvances(t);
    if IsLastMinute(t) {
      LastMinuteIsLast(t, u);
    }
  }
}
