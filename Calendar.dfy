/** The calendar arithmetic of Python's `datetime` module that the generator
    relies on: the proleptic Gregorian calendar over years 1..9999, day
    ordinals (`date.toordinal()` / `date.fromordinal()`), and the conversion
    between a local wall-clock moment under a fixed whole-hour UTC offset and
    seconds since the Unix epoch. */
module Calendar {
  import opened Results

  datatype Date = Date(year: int, month: int, day: int)

  /** `datetime.time` with seconds and microseconds zero, as `%H:%M` gives it. */
  datatype TimeOfDay = TimeOfDay(hour: int, minute: int)

  const MinYear: int := 1
  const MaxYear: int := 9999
  /** Ordinal of 9999-12-31, the last day `datetime.date` can hold. */
  const MaxOrdinal: int := 3652059
  /** Ordinal of 1970-01-01, the day the epoch starts. */
  const EpochOrdinal: int := 719163
  const SecondsPerDay: int := 86400

  predicate IsLeapYear(y: int) {
    y % 4 == 0 && (y % 100 != 0 || y % 400 == 0)
  }

  function DaysInYear(y: int): int {
    if IsLeapYear(y) then 366 else 365
  }

  function DaysInMonth(y: int, m: int): int
    requires 1 <= m <= 12
  {
    if m == 2 then (if IsLeapYear(y) then 29 else 28)
    else if m == 4 || m == 6 || m == 9 || m == 11 then 30
    else 31
  }

  predicate ValidDate(d: Date) {
    && MinYear <= d.year <= MaxYear
    && 1 <= d.month <= 12
    && 1 <= d.day <= DaysInMonth(d.year, d.month)
  }

  predicate ValidTime(t: TimeOfDay) {
    0 <= t.hour <= 23 && 0 <= t.minute <= 59
  }

  /** Days in the years before `y`. */
  function DaysBeforeYear(y: int): int
    requires y >= 1
  {
    var n := y - 1;
    n * 365 + n / 4 - n / 100 + n / 400
  }

  const DaysBeforeMonthInCommonYear: seq<int> := [0, 31, 59, 90, 120, 151, 181, 212, 243, 273, 304, 334]

  /** Days in the months of year `y` before month `m`. */
  function DaysBeforeMonth(y: int, m: int): int
    requires 1 <= m <= 12
  {
    DaysBeforeMonthInCommonYear[m - 1] + (if m > 2 && IsLeapYear(y) then 1 else 0)
  }

  // ---------------------------------------------------------------------------
  // The year and month tables are consistent with the month lengths

  lemma YearStep(y: int)
    requires y >= 1
    ensures DaysBeforeYear(y + 1) == DaysBeforeYear(y) + DaysInYear(y)
  {
    QuarterStep(y);
    CenturyStep(y);
    QuadCenturyStep(y);
  }

  // From `y - 1` to `y`, each quotient grows exactly when its divisor divides `y`.

  lemma QuarterStep(y: int)
    ensures y / 4 == (y - 1) / 4 + (if y % 4 == 0 then 1 else 0)
  {
  }

  lemma CenturyStep(y: int)
    ensures y / 100 == (y - 1) / 100 + (if y % 100 == 0 then 1 else 0)
  {
  }

  lemma QuadCenturyStep(y: int)
    ensures y / 400 == (y - 1) / 400 + (if y % 400 == 0 then 1 else 0)
  {
  }

  lemma {:induction false} YearsIncrease(a: int, b: int)
    requires 1 <= a < b
    ensures DaysBeforeYear(a) + DaysInYear(a) <= DaysBeforeYear(b)
    decreases b - a
  {
    YearStep(a);
    if a + 1 < b {
      YearsIncrease(a + 1, b);
    }
  }

  lemma MonthStep(y: int, m: int)
    requires 1 <= m <= 12
    ensures m < 12 ==> DaysBeforeMonth(y, m + 1) == DaysBeforeMonth(y, m) + DaysInMonth(y, m)
    ensures m == 12 ==> DaysBeforeMonth(y, m) + DaysInMonth(y, m) == DaysInYear(y)
  {
  }

  lemma {:induction false} MonthsIncrease(y: int, a: int, b: int)
    requires 1 <= a < b <= 12
    ensures DaysBeforeMonth(y, a) + DaysInMonth(y, a) <= DaysBeforeMonth(y, b)
    decreases b - a
  {
    MonthStep(y, a);
    if a + 1 < b {
      MonthsIncrease(y, a + 1, b);
    }
  }

  lemma DayWithinYear(y: int, m: int, day: int)
    requires 1 <= m <= 12 && 1 <= day <= DaysInMonth(y, m)
    ensures 1 <= DaysBeforeMonth(y, m) + day <= DaysInYear(y)
  {
    MonthStep(y, 12);
    if m < 12 {
      MonthsIncrease(y, m, 12);
    }
  }

  lemma YearWithinRange(y: int)
    requires MinYear <= y <= MaxYear
    ensures DaysBeforeYear(y) + DaysInYear(y) <= MaxOrdinal
  {
    YearStep(y);
    if y < MaxYear {
      YearsIncrease(y + 1, MaxYear + 1);
    }
  }

  // ---------------------------------------------------------------------------
  // date.toordinal() and date.fromordinal()

  /** `date.toordinal()`: 0001-01-01 is day 1. A valid date's ordinal lies in its
      own year's span of days, and so between 1 and `MaxOrdinal`. */
  function Ordinal(d: Date): (n: int)
    requires ValidDate(d)
    ensures DaysBeforeYear(d.year) < n <= DaysBeforeYear(d.year) + DaysInYear(d.year)
    ensures 1 <= n <= MaxOrdinal
  {
    DayWithinYear(d.year, d.month, d.day);
    YearWithinRange(d.year);
    DaysBeforeYear(d.year) + DaysBeforeMonth(d.year, d.month) + d.day
  }

  /** The year, searched upwards from `y`, whose span of days holds day `n`. */
  function YearOfOrdinal(n: int, y: int): (r: int)
    requires MinYear <= y <= MaxYear && DaysBeforeYear(y) < n <= MaxOrdinal
    ensures y <= r <= MaxYear
    ensures DaysBeforeYear(r) < n <= DaysBeforeYear(r) + DaysInYear(r)
    decreases MaxYear - y
  {
    YearStep(y);
    if n <= DaysBeforeYear(y) + DaysInYear(y) then y
    else
      assert DaysBeforeYear(MaxYear) + DaysInYear(MaxYear) == MaxOrdinal;
      YearOfOrdinal(n, y + 1)
  }

  /** The month, searched upwards from `m`, whose span of days in year `y` holds
      day `k` of that year. */
  function MonthOfDayInYear(y: int, k: int, m: int): (r: int)
    requires 1 <= m <= 12 && DaysBeforeMonth(y, m) < k <= DaysInYear(y)
    ensures m <= r <= 12
    ensures DaysBeforeMonth(y, r) < k <= DaysBeforeMonth(y, r) + DaysInMonth(y, r)
    decreases 12 - m
  {
    MonthStep(y, m);
    if k <= DaysBeforeMonth(y, m) + DaysInMonth(y, m) then m
    else MonthOfDayInYear(y, k, m + 1)
  }

  /** `date.fromordinal(n)`: the valid date whose ordinal is `n`. */
  function FromOrdinal(n: int): (d: Date)
    requires 1 <= n <= MaxOrdinal
    ensures ValidDate(d) && Ordinal(d) == n
  {
    var y := YearOfOrdinal(n, MinYear);
    var k := n - DaysBeforeYear(y);
    var m := MonthOfDayInYear(y, k, 1);
    Date(y, m, k - DaysBeforeMonth(y, m))
  }

  /** No two valid dates share an ordinal: `fromordinal` undoes `toordinal`. */
  lemma FromOrdinalOrdinal(d: Date)
    requires ValidDate(d)
    ensures FromOrdinal(Ordinal(d)) == d
  {
    var n := Ordinal(d);
    var e := FromOrdinal(n);
    if e.year < d.year {
      YearsIncrease(e.year, d.year);
    } else if d.year < e.year {
      YearsIncrease(d.year, e.year);
    }
    assert e.year == d.year;
    if d.month < 12 {
      MonthsIncrease(d.year, d.month, 12);
    }
    if e.month < d.month {
      MonthsIncrease(d.year, e.month, d.month);
    } else if d.month < e.month {
      MonthsIncrease(d.year, d.month, e.month);
    }
  }

  /** The epoch starts on 1970-01-01. */
  lemma EpochDay()
    ensures Ordinal(Date(1970, 1, 1)) == EpochOrdinal
  {
  }

  // ---------------------------------------------------------------------------
  // Wall clock and epoch seconds

  /** `int(datetime.combine(d, t).replace(tzinfo=timezone(timedelta(hours=offset))).timestamp())`:
      the local moment `d t` under the fixed offset, as seconds since the epoch.
      Read back on the wall clock under the same offset (`LocalDate` and
      `LocalTime`), the instant is on date `d` at time `t`. */
  function EpochSeconds(d: Date, t: TimeOfDay, offset: int): (ts: int)
    requires ValidDate(d)
    ensures ValidTime(t) ==> LocalDate(ts, offset) == Some(d) && LocalTime(ts, offset) == t
  {
    var q := Ordinal(d) - EpochOrdinal;
    var s := t.hour * 3600 + t.minute * 60;
    var ts := q * SecondsPerDay + s - offset * 3600;
    if ValidTime(t) then
      DaySplit(q, s);
      ClockSplit(t);
      assert LocalOrdinal(ts, offset) == Ordinal(d);
      FromOrdinalOrdinal(d);
      ts
    else
      ts
  }

  /** The ordinal of the local calendar day that instant `ts` falls on under `offset`. */
  function LocalOrdinal(ts: int, offset: int): int {
    (ts + offset * 3600) / SecondsPerDay + EpochOrdinal
  }

  /** `datetime.fromtimestamp(ts, tz).date()`: the local date of instant `ts`
      under `offset`, when it is one `datetime.date` can hold. */
  function LocalDate(ts: int, offset: int): (r: Option<Date>)
    ensures r.Some? <==> 1 <= LocalOrdinal(ts, offset) <= MaxOrdinal
    ensures r.Some? ==> ValidDate(r.value) && Ordinal(r.value) == LocalOrdinal(ts, offset)
  {
    var n := LocalOrdinal(ts, offset);
    if 1 <= n <= MaxOrdinal then Some(FromOrdinal(n)) else None
  }

  /** Hour and minute of the local wall clock at instant `ts` under `offset`. */
  function LocalTime(ts: int, offset: int): (t: TimeOfDay)
    ensures ValidTime(t)
  {
    var s := (ts + offset * 3600) % SecondsPerDay;
    TimeOfDay(s / 3600, s % 3600 / 60)
  }

  /** Day and second of the day are recovered from a count of seconds. */
  lemma DaySplit(q: int, s: int)
    requires 0 <= s < SecondsPerDay
    ensures (q * SecondsPerDay + s) / SecondsPerDay == q
    ensures (q * SecondsPerDay + s) % SecondsPerDay == s
  {
  }

  /** Hour and minute are recovered from the seconds since midnight. */
  lemma ClockSplit(t: TimeOfDay)
    requires ValidTime(t)
    ensures 0 <= t.hour * 3600 + t.minute * 60 < SecondsPerDay
    ensures (t.hour * 3600 + t.minute * 60) / 3600 == t.hour
    ensures (t.hour * 3600 + t.minute * 60) % 3600 / 60 == t.minute
  {
  }

  /** Instants resolved from a whole-minute time and a whole-hour offset fall on
      a whole minute. */
  lemma EpochSecondsWholeMinute(d: Date, t: TimeOfDay, offset: int)
    requires ValidDate(d)
    ensures EpochSeconds(d, t, offset) % 60 == 0
  {
    var q := (Ordinal(d) - EpochOrdinal) * 1440 + t.hour * 60 + t.minute - offset * 60;
    assert EpochSeconds(d, t, offset) == q * 60;
  }

  /** The day after `d` starts exactly one day of seconds later. */
  lemma EpochSecondsNextDay(d: Date, e: Date, t: TimeOfDay, offset: int)
    requires ValidDate(d) && ValidDate(e) && Ordinal(e) == Ordinal(d) + 1
    ensures EpochSeconds(e, t, offset) == EpochSeconds(d, t, offset) + SecondsPerDay
  {
  }
}
