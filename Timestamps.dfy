/** `get_timestamps`: the `--time` text is read with `strptime(..., '%H:%M')`;
    then either the one `--date` (read with `strptime(..., '%Y-%m-%d')`) or the
    `--days` consecutive dates starting with today's date under the offset are
    combined with that time, the offset attached, and each local moment turned
    into whole seconds since the epoch.

    The text forms accepted are those of CPython's `strptime` directives: `%H`
    is `2[0-3]|[0-1]\d|\d`, `%M` is `[0-5]\d|\d`, `%Y` is four digits, `%m` is
    `1[0-2]|0[1-9]|[1-9]`, `%d` is `3[01]|[12]\d|0[1-9]|[1-9]| [1-9]`; the match
    must use up the whole text, and the date must then exist in the proleptic
    Gregorian calendar from year 1 on. */
module Timestamps {
  import opened Results
  import opened Builtins
  import opened Calendar

  // ---------------------------------------------------------------------------
  // strptime(text, '%H:%M')

  /** `text` is an hour field of `k` (one or two) digits, a colon at index `k`,
      and a minute field of one or two digits; the fields read as `t`. */
  predicate TimeText(text: string, k: int, t: TimeOfDay) {
    && (k == 1 || k == 2) && k + 2 <= |text| <= k + 3
    && text[k] == ':'
    && AllDigits(text[..k]) && AllDigits(text[k + 1..])
    && DigitsValue(text[..k]) == t.hour && DigitsValue(text[k + 1..]) == t.minute
  }

  /** `datetime.strptime(text, '%H:%M').time()` */
  function ParseTime(text: string): (r: Result<TimeOfDay>)
    ensures r.Ok? ==> ValidTime(r.value) && (TimeText(text, 1, r.value) || TimeText(text, 2, r.value))
    ensures r.Err? ==> r.error == InvalidTime
  {
    var k := if |text| > 1 && text[1] == ':' then 1 else if |text| > 2 && text[2] == ':' then 2 else 0;
    if k == 0 || !(k + 2 <= |text| <= k + 3) || !AllDigits(text[..k]) || !AllDigits(text[k + 1..]) then
      Err(InvalidTime)
    else
      var t := TimeOfDay(DigitsValue(text[..k]), DigitsValue(text[k + 1..]));
      if ValidTime(t) then Ok(t) else Err(InvalidTime)
  }

  /** Every spelling of a valid time is accepted, with its own value. */
  lemma ParseTimeComplete(text: string, k: int, t: TimeOfDay)
    requires TimeText(text, k, t) && ValidTime(t)
    ensures ParseTime(text) == Ok(t)
  {
    if k == 2 {
      assert IsDigit(text[..k][1]);
    }
  }

  /** `t.strftime('%H:%M')` */
  function FormatTime(t: TimeOfDay): string
    requires ValidTime(t)
  {
    ZeroPadded(t.hour, 2) + ":" + ZeroPadded(t.minute, 2)
  }

  /** Reading back the zero-padded form gives the time that was written. */
  lemma ParseFormatTime(t: TimeOfDay)
    requires ValidTime(t)
    ensures ParseTime(FormatTime(t)) == Ok(t)
  {
    var text := FormatTime(t);
    assert text[..2] == ZeroPadded(t.hour, 2);
    assert text[3..] == ZeroPadded(t.minute, 2);
    ZeroPaddedValue(t.hour, 2);
    ZeroPaddedValue(t.minute, 2);
    ParseTimeComplete(text, 2, t);
  }

  // ---------------------------------------------------------------------------
  // strptime(text, '%Y-%m-%d')

  /** The `%d` field: one or two digits, or a blank and one digit. */
  predicate DayText(s: string) {
    || (1 <= |s| <= 2 && AllDigits(s))
    || (|s| == 2 && s[0] == ' ' && IsDigit(s[1]))
  }

  function DayValue(s: string): nat
    requires DayText(s)
  {
    if s[0] == ' ' then DigitsValue(s[1..]) else DigitsValue(s)
  }

  /** `text` is four year digits, `-`, a month field of one or two digits, `-`
      at index `k`, and a day field; the fields read as `d`. */
  predicate DateText(text: string, k: int, d: Date) {
    && (k == 6 || k == 7) && k + 2 <= |text| <= k + 3
    && AllDigits(text[..4]) && text[4] == '-'
    && AllDigits(text[5..k]) && text[k] == '-'
    && DayText(text[k + 1..])
    && DigitsValue(text[..4]) == d.year
    && DigitsValue(text[5..k]) == d.month
    && DayValue(text[k + 1..]) == d.day
  }

  /** `datetime.strptime(text, '%Y-%m-%d').date()` */
  function ParseDate(text: string): (r: Result<Date>)
    ensures r.Ok? ==> ValidDate(r.value) && (DateText(text, 6, r.value) || DateText(text, 7, r.value))
    ensures r.Err? ==> r.error == InvalidDate
  {
    var k := if |text| > 6 && text[6] == '-' then 6 else if |text| > 7 && text[7] == '-' then 7 else 0;
    if || k == 0 || !(k + 2 <= |text| <= k + 3)
       || !AllDigits(text[..4]) || text[4] != '-' || !AllDigits(text[5..k]) || !DayText(text[k + 1..])
    then
      Err(InvalidDate)
    else
      var d := Date(DigitsValue(text[..4]), DigitsValue(text[5..k]), DayValue(text[k + 1..]));
      if ValidDate(d) then Ok(d) else Err(InvalidDate)
  }

  /** Every spelling of a valid date is accepted, with its own value. */
  lemma ParseDateComplete(text: string, k: int, d: Date)
    requires DateText(text, k, d) && ValidDate(d)
    ensures ParseDate(text) == Ok(d)
  {
    if k == 7 {
      assert IsDigit(text[5..k][1]);
    }
  }

  /** `d.strftime('%Y-%m-%d')` */
  function FormatDate(d: Date): string
    requires ValidDate(d)
  {
    ZeroPadded(d.year, 4) + "-" + ZeroPadded(d.month, 2) + "-" + ZeroPadded(d.day, 2)
  }

  /** Reading back the zero-padded form gives the date that was written. */
  lemma ParseFormatDate(d: Date)
    requires ValidDate(d)
    ensures ParseDate(FormatDate(d)) == Ok(d)
  {
    var text := FormatDate(d);
    assert text[..4] == ZeroPadded(d.year, 4);
    assert text[5..7] == ZeroPadded(d.month, 2);
    assert text[8..] == ZeroPadded(d.day, 2);
    ZeroPaddedValue(d.year, 4);
    ZeroPaddedValue(d.month, 2);
    ZeroPaddedValue(d.day, 2);
    assert DayText(text[8..]) && DayValue(text[8..]) == d.day;
    ParseDateComplete(text, 7, d);
  }

  // ---------------------------------------------------------------------------
  // get_timestamps

  /** `n` instants a day of seconds apart, the first being `base`. */
  function Daily(base: int, n: nat): seq<int> {
    seq(n, k => base + SecondsPerDay * k)
  }

  /** What `get_timestamps(time, tz, date, days)` returns when the clock reads
      `now` (whole seconds since the epoch): one instant for an explicit date;
      otherwise `days` instants, the first at `time` on today's local date and
      each next one a day of seconds later. */
  function Instants(time: string, offset: int, date: Option<string>, days: int, now: int): Result<seq<int>> {
    match ParseTime(time)
    case Err(e) => Err(e)
    case Ok(t) =>
      if Supplied(date) then
        match ParseDate(date.value)
        case Err(e) => Err(e)
        case Ok(d) => Ok([EpochSeconds(d, t, offset)])
      else
        match LocalDate(now, offset)
        case None => Err(DateOutOfRange)
        case Some(today) =>
          if days > 0 && Ordinal(today) + days - 1 > MaxOrdinal then Err(DateOutOfRange)
          else Ok(Daily(EpochSeconds(today, t, offset), RangeLength(days)))
  }

  /** `[today + timedelta(days=i) for i in range(days)]` for the date whose
      ordinal is `first`: `None` when a date would pass 9999-12-31. */
  method ConsecutiveDates(first: int, days: int) returns (r: Option<seq<Date>>)
    requires 1 <= first <= MaxOrdinal
    ensures r.None? <==> days > 0 && first + days - 1 > MaxOrdinal
    ensures r.Some? ==> |r.value| == RangeLength(days)
    ensures r.Some? ==> forall j :: 0 <= j < |r.value| ==> ValidDate(r.value[j]) && Ordinal(r.value[j]) == first + j
  {
    var dates := [];
    var i := 0;
    while i < days
      invariant 0 <= i <= RangeLength(days)
      invariant first + i - 1 <= MaxOrdinal
      invariant |dates| == i
      invariant forall j :: 0 <= j < i ==> ValidDate(dates[j]) && Ordinal(dates[j]) == first + j
    {
      var ordinal := first + i;
      if ordinal > MaxOrdinal {
        return None;
      }
      dates := dates + [FromOrdinal(ordinal)];
      i := i + 1;
    }
    return Some(dates);
  }

  /** The `for d in dates` loop: each date at `time` under the offset, as
      seconds since the epoch, in the order of the dates. */
  method ToTimestamps(dates: seq<Date>, t: TimeOfDay, offset: int) returns (timestamps: seq<int>)
    requires forall j :: 0 <= j < |dates| ==> ValidDate(dates[j])
    ensures |timestamps| == |dates|
    ensures forall j :: 0 <= j < |dates| ==> timestamps[j] == EpochSeconds(dates[j], t, offset)
  {
    timestamps := [];
    for j := 0 to |dates|
      invariant |timestamps| == j
      invariant forall n :: 0 <= n < j ==> timestamps[n] == EpochSeconds(dates[n], t, offset)
    {
      timestamps := timestamps + [EpochSeconds(dates[j], t, offset)];
    }
  }

  /** `get_timestamps(time, tz, date, days)`, with `datetime.now(tz)` read as
      `now`: builds the list of dates, then converts each one. */
  method GetTimestamps(time: string, offset: int, date: Option<string>, days: int, now: int)
    returns (r: Result<seq<int>>)
    ensures r == Instants(time, offset, date, days, now)
  {
    var parsedTime := ParseTime(time);
    if parsedTime.Err? {
      return Err(parsedTime.error);
    }
    var t := parsedTime.value;

    var dates: seq<Date>;
    ghost var start: Date;
    if Supplied(date) {
      var parsedDate := ParseDate(date.value);
      if parsedDate.Err? {
        return Err(parsedDate.error);
      }
      dates := [parsedDate.value];
    } else {
      var localToday := LocalDate(now, offset);
      if localToday.None? {
        return Err(DateOutOfRange);
      }
      var today := localToday.value;
      start := today;
      var range := ConsecutiveDates(Ordinal(today), days);
      if range.None? {
        return Err(DateOutOfRange);
      }
      dates := range.value;
    }
    var timestamps := ToTimestamps(dates, t, offset);
    if Supplied(date) {
      assert timestamps == [EpochSeconds(dates[0], t, offset)];
    } else {
      DailyTimestamps(start, t, offset, days, dates, timestamps);
    }
    return Ok(timestamps);
  }

  /** The instants of consecutive dates from `today` are a day of seconds
      apart. */
  lemma DailyTimestamps(today: Date, t: TimeOfDay, offset: int, days: int, dates: seq<Date>, timestamps: seq<int>)
    requires ValidDate(today)
    requires |dates| == RangeLength(days) && |timestamps| == |dates|
    requires forall j :: 0 <= j < |dates| ==> ValidDate(dates[j]) && Ordinal(dates[j]) == Ordinal(today) + j
    requires forall j :: 0 <= j < |dates| ==> timestamps[j] == EpochSeconds(dates[j], t, offset)
    ensures timestamps == Daily(EpochSeconds(today, t, offset), RangeLength(days))
  {
    var expected := Daily(EpochSeconds(today, t, offset), RangeLength(days));
    forall j | 0 <= j < |dates|
      ensures timestamps[j] == expected[j]
    {
      assert EpochSeconds(dates[j], t, offset) == EpochSeconds(today, t, offset) + SecondsPerDay * j;
    }
  }

  // ---------------------------------------------------------------------------
  // What the resolved instants are

  /** The time is checked first, and the only failures are a bad time, a bad
      date, or a date outside the calendar's range. */
  lemma InstantsErrors(time: string, offset: int, date: Option<string>, days: int, now: int)
    ensures ParseTime(time).Err? ==> Instants(time, offset, date, days, now) == Err(InvalidTime)
    ensures ParseTime(time).Ok? && Supplied(date) && ParseDate(date.value).Err? ==>
      Instants(time, offset, date, days, now) == Err(InvalidDate)
    ensures Instants(time, offset, date, days, now).Err? ==>
      Instants(time, offset, date, days, now).error in {InvalidTime, InvalidDate, DateOutOfRange}
  {
  }

  /** With an explicit date there is exactly one instant, and read back under
      the same offset it is that date at that time. */
  lemma InstantsExplicitDate(time: string, offset: int, date: Option<string>, days: int, now: int)
    requires Supplied(date) && ParseTime(time).Ok? && ParseDate(date.value).Ok?
    ensures Instants(time, offset, date, days, now).Ok?
    ensures |Instants(time, offset, date, days, now).value| == 1
    ensures var ts := Instants(time, offset, date, days, now).value[0];
      && LocalDate(ts, offset) == Some(ParseDate(date.value).value)
      && LocalTime(ts, offset) == ParseTime(time).value
  {
  }

  /** How a successful run without a date is made up. */
  lemma InstantsDaily(time: string, offset: int, date: Option<string>, days: int, now: int)
    requires !Supplied(date) && Instants(time, offset, date, days, now).Ok?
    ensures ParseTime(time).Ok? && LocalDate(now, offset).Some?
    ensures days > 0 ==> Ordinal(LocalDate(now, offset).value) + days - 1 <= MaxOrdinal
    ensures Instants(time, offset, date, days, now).value ==
      Daily(EpochSeconds(LocalDate(now, offset).value, ParseTime(time).value, offset), RangeLength(days))
  {
  }

  /** Without a date there is one instant per day of the range, in ascending
      order, a day of seconds apart; the first is the given time on today's
      local date, and the k-th is that time on the k-th day after it. */
  lemma InstantsRange(time: string, offset: int, date: Option<string>, days: int, now: int)
    requires !Supplied(date) && Instants(time, offset, date, days, now).Ok?
    ensures var r := Instants(time, offset, date, days, now).value;
      && |r| == RangeLength(days)
      && (forall k :: 0 <= k < |r| - 1 ==> r[k + 1] == r[k] + SecondsPerDay)
      && (forall i, j :: 0 <= i < j < |r| ==> r[i] < r[j])
      && (forall k :: 0 <= k < |r| ==>
            && LocalDate(r[k], offset).Some?
            && Ordinal(LocalDate(r[k], offset).value) == LocalOrdinal(now, offset) + k
            && LocalTime(r[k], offset) == ParseTime(time).value)
  {
    InstantsDaily(time, offset, date, days, now);
    var t := ParseTime(time).value;
    var today := LocalDate(now, offset).value;
    var base := EpochSeconds(today, t, offset);
    var r := Daily(base, RangeLength(days));
    forall k | 0 <= k < |r|
      ensures && LocalDate(r[k], offset).Some?
              && Ordinal(LocalDate(r[k], offset).value) == LocalOrdinal(now, offset) + k
              && LocalTime(r[k], offset) == t
    {
      var d := FromOrdinal(Ordinal(today) + k);
      assert r[k] == EpochSeconds(d, t, offset);
    }
  }

  /** Seconds are always zero and offsets are whole hours, so every instant is
      a whole minute. */
  lemma InstantsWholeMinutes(time: string, offset: int, date: Option<string>, days: int, now: int)
    requires Instants(time, offset, date, days, now).Ok?
    ensures forall ts :: ts in Instants(time, offset, date, days, now).value ==> ts % 60 == 0
  {
    var t := ParseTime(time).value;
    if Supplied(date) {
      var d := ParseDate(date.value).value;
      assert Instants(time, offset, date, days, now).value == [EpochSeconds(d, t, offset)];
      EpochSecondsWholeMinute(d, t, offset);
    } else {
      InstantsDaily(time, offset, date, days, now);
      var today := LocalDate(now, offset).value;
      EpochSecondsWholeMinute(today, t, offset);
      DailyWholeMinutes(EpochSeconds(today, t, offset), RangeLength(days));
    }
  }

  lemma DailyWholeMinutes(base: int, n: nat)
    requires base % 60 == 0
    ensures forall ts :: ts in Daily(base, n) ==> ts % 60 == 0
  {
    var r := Daily(base, n);
    var q := base / 60;
    assert base == 60 * q;
    forall k | 0 <= k < |r|
      ensures r[k] % 60 == 0
    {
      assert r[k] == 60 * (q + 1440 * k);
    }
  }
}
