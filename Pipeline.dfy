/** The body of `main`'s `try` block: parse the offset, choose the secret,
    resolve the instants, then list the tokens; the first failure ends the
    run before anything is listed. */
module Pipeline {
  import opened Results
  import opened Builtins
  import opened Calendar
  import opened Timezone
  import opened Secret
  import opened Timestamps
  import opened Tokens

  /** The lines a run lists, or the failure that stops it, given the option
      values, the `TOTP_SECRET` environment value and the clock reading. */
  function Lines(totp: TotpFunction, tz: string, cliSecret: Option<string>, envSecret: Option<string>,
                 time: string, date: Option<string>, days: int, count: int, now: int): Result<seq<Entry>>
  {
    match ParseTimezone(tz)
    case Err(e) => Err(e)
    case Ok(offset) =>
      match GetSecret(cliSecret, envSecret)
      case Err(e) => Err(e)
      case Ok(secret) =>
        match Instants(time, offset, date, days, now)
        case Err(e) => Err(e)
        case Ok(bases) => Ok(Schedule(totp, secret, bases, count))
  }

  /** `main` after argument parsing, with the printed lines collected. */
  method Run(totp: TotpFunction, tz: string, cliSecret: Option<string>, envSecret: Option<string>,
             time: string, date: Option<string>, days: int, count: int, now: int)
    returns (r: Result<seq<Entry>>)
    ensures r == Lines(totp, tz, cliSecret, envSecret, time, date, days, count, now)
  {
    var offset := ParseTimezone(tz);
    if offset.Err? {
      return Err(offset.error);
    }
    var secret := GetSecret(cliSecret, envSecret);
    if secret.Err? {
      return Err(secret.error);
    }
    var timestamps := GetTimestamps(time, offset.value, date, days, now);
    if timestamps.Err? {
      return Err(timestamps.error);
    }
    var out := GenerateTotps(totp, secret.value, timestamps.value, count);
    return Ok(out);
  }

  /** The checks run in order: a bad offset is reported even when the secret
      is missing, and a missing secret even when the time is malformed. */
  lemma LinesFailureOrder(totp: TotpFunction, tz: string, cliSecret: Option<string>, envSecret: Option<string>,
                          time: string, date: Option<string>, days: int, count: int, now: int)
    ensures ParseTimezone(tz).Err? ==>
      Lines(totp, tz, cliSecret, envSecret, time, date, days, count, now) == Err(ParseTimezone(tz).error)
    ensures ParseTimezone(tz).Ok? && !Supplied(cliSecret) && !Supplied(envSecret) ==>
      Lines(totp, tz, cliSecret, envSecret, time, date, days, count, now) == Err(MissingSecret)
    ensures ParseTimezone(tz).Ok? && (Supplied(cliSecret) || Supplied(envSecret)) && ParseTime(time).Err? ==>
      Lines(totp, tz, cliSecret, envSecret, time, date, days, count, now) == Err(InvalidTime)
  {
    if ParseTimezone(tz).Ok? {
      InstantsErrors(time, ParseTimezone(tz).value, date, days, now);
    }
  }

  /** A successful run lists `count` tokens per instant, every token the
      password of the chosen secret at its own target. */
  lemma LinesTokens(totp: TotpFunction, tz: string, cliSecret: Option<string>, envSecret: Option<string>,
                    time: string, date: Option<string>, days: int, count: int, now: int)
    requires Lines(totp, tz, cliSecret, envSecret, time, date, days, count, now).Ok?
    ensures var lines := Lines(totp, tz, cliSecret, envSecret, time, date, days, count, now).value;
      var secret := GetSecret(cliSecret, envSecret).value;
      && |lines| == |Instants(time, ParseTimezone(tz).value, date, days, now).value| * RangeLength(count)
      && forall e :: e in lines ==> e.token == totp(secret, e.target)
  {
    var bases := Instants(time, ParseTimezone(tz).value, date, days, now).value;
    var secret := GetSecret(cliSecret, envSecret).value;
    ScheduleLength(totp, secret, bases, count);
    ScheduleTokens(totp, secret, bases, count);
  }

  /** Without `--date`, the whole listing is in strictly ascending time order
      as long as one day's tokens (30 seconds each) do not run into the next
      day's start, that is for at most 2880 tokens per day. */
  lemma LinesChronological(totp: TotpFunction, tz: string, cliSecret: Option<string>, envSecret: Option<string>,
                           time: string, date: Option<string>, days: int, count: int, now: int)
    requires !Supplied(date) && count * Interval <= SecondsPerDay
    requires Lines(totp, tz, cliSecret, envSecret, time, date, days, count, now).Ok?
    ensures Ascending(Lines(totp, tz, cliSecret, envSecret, time, date, days, count, now).value)
  {
    var offset := ParseTimezone(tz).value;
    var bases := Instants(time, offset, date, days, now).value;
    var secret := GetSecret(cliSecret, envSecret).value;
    InstantsDaily(time, offset, date, days, now);
    forall k | 0 <= k < |bases| - 1
      ensures bases[k] + count * Interval <= bases[k + 1]
    {
      assert bases[k + 1] == bases[k] + SecondsPerDay;
    }
    ScheduleAscending(totp, secret, bases, count);
  }
}
