# TOTP schedule generator — a verified model

`totp_gen.py` lists time-based one-time passwords (TOTP) for chosen moments.
It reads a time of day, either one date or a number of days counted from
today, a fixed UTC offset such as `UTC-3`, and a Base32 secret. For every
resolved moment it prints the password of that moment and of the 30-second
steps after it.

This project models that program's logic in Dafny and proves what it computes:

| module | models |
|---|---|
| `Results` | the failures the program can hit, as `Error`, plus `Option` and `Result` |
| `Builtins` | `str.strip()`, `str.upper()`, `int()` of digits, `len(range(n))` |
| `Timezone` | `parse_timezone`: the grammar `UTC[+-]?[0-9]{0,2}` after strip and upper-case, and the range check of `datetime.timezone` |
| `Secret` | `get_secret`: the option, else the environment value, else an error |
| `Calendar` | the proleptic Gregorian calendar of `datetime.date`, i.e. `toordinal`/`fromordinal`, local date and time of an instant, and epoch seconds of a local moment under a whole-hour offset |
| `Timestamps` | `strptime(..., '%H:%M')` and `strptime(..., '%Y-%m-%d')` as CPython reads them, and `get_timestamps`: the spec function `Instants` plus the imperative `GetTimestamps`, which builds the date list and then converts it in a loop |
| `Tokens` | `generate_totps`: the spec function `Schedule` plus the nested-loop method `GenerateTotps`, which collects the printed (target, token) lines |
| `Pipeline` | the call order inside `main`'s `try` block, where the first failure stops the run |

The model follows the code. It differs from the help texts and the usual
reading of the program in these ways:

- **Time fields.** The time is read by `strptime`, whose `%H` and `%M` take one
  or two digits, so `9:5` is accepted as 09:05. The day field `%d` also takes
  a blank followed by one digit, so `2024-01- 5` is accepted.
- **Large offsets.** `UTC+24` to `UTC+99` match the pattern. They are still
  refused, because `datetime.timezone` raises `ValueError` for offsets of 24
  hours or more, and `main` catches and reports it.
- **Non-positive `--days`.** `--days 0` or a negative value gives no instants,
  and so no output.
- **Dates past year 9999.** A date range that would run past 9999-12-31 makes
  `date + timedelta` raise `OverflowError`. `main` does not catch it, so the
  program stops with a traceback instead of an `Error:` line. The model
  reports it as `Err(DateOutOfRange)`.

Two inputs come from outside the program, and the model takes them as
parameters. The clock is the parameter `now`, in whole seconds since the
epoch; whole seconds are enough, because the offset is whole hours. The
`TOTP_SECRET` environment variable is the parameter `envSecret`. The password
function `pyotp.TOTP(secret).at` is the parameter `totp`.

## Model

| member | source | states |
|---|---|---|
| Timezone.MatchTimezone | totp_gen.py:18 | a match returns groups that spell the normalized text as `UTC`, an optional sign, and up to two digits |
| Timezone.MatchTimezoneComplete | totp_gen.py:18 | every such spelling is matched, and its groups are the only ones |
| Timezone.ParseTimezone | totp_gen.py:17-25 | an accepted offset lies strictly between -24 and 24 hours; a failure is a malformed text or an offset out of range |
| Timezone.ParseTimezoneGrammar | totp_gen.py:18-25 | for a text that spells the grammar: the signed value when its magnitude is below 24, otherwise out of range |
| Timezone.ParseTimezoneMalformed | totp_gen.py:18-20 | a text that spells nothing in the grammar is refused as malformed |
| Timezone.ParseTimezoneAccepts | totp_gen.py:18-25 | both directions: parsing succeeds exactly when the normalized text spells the grammar with a magnitude below 24 |
| Timezone.ParseTimezoneNormalized | totp_gen.py:18 | parsing the stripped, upper-cased text gives the same result as parsing the original |
| Timezone.NormalizeIdempotent | totp_gen.py:18 | stripping and upper-casing twice is the same as doing it once |
| Timezone.ParseTimezoneIgnoresCase | totp_gen.py:18 | upper-casing the input first does not change the result, so `utc-3` parses like `UTC-3` |
| Timezone.ParseLowerSpelling | totp_gen.py:18 | `utc` followed by a sign and digits parses exactly as `UTC` followed by them |
| Timezone.ParseTimezoneLowerCase | totp_gen.py:17-25 | `utc-3` is accepted as an offset of -3 hours |
| Timezone.ParseTimezoneIgnoresPadding | totp_gen.py:18 | surrounding whitespace does not change the result |
| Timezone.ParseSpelling | totp_gen.py:22-25 | `UTC` + sign + digits gives the signed value when it is below 24, otherwise out of range |
| Timezone.ParseTimezoneNoDigits | totp_gen.py:22-23 | `UTC`, `UTC+` and `UTC-` all give offset 0 |
| Timezone.ParseTimezoneNoSign | totp_gen.py:22-25 | digits with no sign give a positive offset, e.g. `UTC5` gives +5 |
| Timezone.ParseTimezoneOtherName | totp_gen.py:18-20 | another zone name (`GMT+3`) is refused as malformed |
| Builtins.Strip | totp_gen.py:18 | neither end of the result is whitespace |
| Builtins.StripIgnoresPadding | totp_gen.py:18 | whitespace around the text does not change what `strip()` returns |
| Builtins.UpperIdempotent | totp_gen.py:18 | upper-casing twice is the same as upper-casing once |
| Builtins.StripUpper | totp_gen.py:18 | `strip()` and `upper()` commute |
| Builtins.UpperCharacters | totp_gen.py:18 | `upper()` keeps the length, turns each lower-case letter into its capital, changes nothing else, and so leaves no lower-case letter and keeps whitespace where it was |
| Builtins.DigitsValueBound | totp_gen.py:23 | `int()` of `k` decimal digits (`Builtins.DigitsValue`) is below `10^k`, so the two digits of an offset read as at most 99 |
| Builtins.ZeroPaddedValue | totp_gen.py:23 | `int()` of the zero-padded digits of a number reads back as that number |
| Timezone.NormalizeForm | totp_gen.py:18 | `strip().upper()` leaves no whitespace at either end and no lower-case letter; `NormalizeIdempotent` and `ParseTimezoneNormalized` prove that normalizing again changes neither the text nor the parse |
| Secret.GetSecret | totp_gen.py:27-31 | succeeds exactly when the option or the environment value is non-empty; the option wins; the secret is never empty; otherwise the error is a missing secret |
| Timestamps.ParseTime | totp_gen.py:34 | an accepted time is a valid hour and minute, spelled as one or two hour digits, a colon, and one or two minute digits; otherwise the error is an invalid time |
| Timestamps.ParseTimeComplete | totp_gen.py:34 | every such spelling of a valid time is accepted, with its value |
| Timestamps.ParseFormatTime | totp_gen.py:34 | the zero-padded `HH:MM` form of a valid time reads back as that time |
| Timestamps.ParseDate | totp_gen.py:37 | an accepted date exists in the Gregorian calendar (years 1 to 9999) and is spelled by its fields; otherwise the error is an invalid date |
| Timestamps.ParseDateComplete | totp_gen.py:37 | every such spelling of a valid date is accepted, with its value |
| Timestamps.ParseFormatDate | totp_gen.py:37 | the zero-padded `YYYY-MM-DD` form of a valid date reads back as that date |
| Calendar.Ordinal | totp_gen.py:45-47 | a valid date's day number falls in its own year's span of days, between 1 and that of 9999-12-31 |
| Calendar.FromOrdinal | totp_gen.py:41 | the date for a day number is valid and has that day number |
| Calendar.FromOrdinalOrdinal | totp_gen.py:41 | converting a date to its day number and back gives the same date, so no two dates share a day number |
| Calendar.EpochDay | totp_gen.py:47 | 1970-01-01 is day 719163, the epoch of `timestamp()` |
| Calendar.LocalDate | totp_gen.py:40 | the local date of an instant exists exactly when its day number is in range, and it then has that day number |
| Calendar.EpochSeconds | totp_gen.py:45-47 | the instant for date `d` at time `t` under an offset, read back on the wall clock under the same offset (`LocalDate`, `LocalTime`), is on `d` at `t` |
| Calendar.EpochSecondsWholeMinute | totp_gen.py:45-47 | every resolved instant is a multiple of 60 seconds |
| Calendar.EpochSecondsNextDay | totp_gen.py:41-47 | the same time on the next date is exactly 86400 seconds later |
| Timestamps.ConsecutiveDates | totp_gen.py:41 | returns `days` dates (none if `days` is 0 or less), the j-th being today plus j, and fails exactly when a date would pass 9999-12-31 |
| Timestamps.ToTimestamps | totp_gen.py:43-47 | one instant per date, in the same order, each being that date at the time under the offset |
| Timestamps.GetTimestamps | totp_gen.py:33-48 | the loops return exactly `Instants`, the specification of the function |
| Timestamps.DailyTimestamps | totp_gen.py:41-47 | the instants of consecutive dates from today form the daily sequence that starts at today's instant |
| Timestamps.InstantsErrors | totp_gen.py:34-37 | the time is checked before the date; a failure is a bad time, a bad date, or a date out of range |
| Timestamps.InstantsExplicitDate | totp_gen.py:36-38 | with a date there is exactly one instant, and it reads back as that date at that time |
| Timestamps.InstantsRange | totp_gen.py:39-48 | without a date: `max(days, 0)` instants, strictly ascending, 86400 s apart, the k-th on today's local date plus k at the given time |
| Timestamps.InstantsWholeMinutes | totp_gen.py:43-47 | every resolved instant is a whole minute |
| Tokens.GenerateTotps | totp_gen.py:50-58 | the nested loops list exactly `Schedule`: batch after batch in the order of the bases |
| Tokens.ScheduleLength | totp_gen.py:52-54 | there are `|bases| * max(count, 0)` lines |
| Tokens.ScheduleAt | totp_gen.py:52-56 | line `k * count + i` has target `bases[k] + 30 * i` and the password at that target |
| Tokens.ScheduleTokens | totp_gen.py:55-56 | every token is the password of the secret at its own target, so equal targets carry equal tokens |
| Tokens.ScheduleAscending | totp_gen.py:52-55 | if each base is at least `30 * count` seconds after the one before it, all targets are strictly ascending and lie between the first base and the last target |
| Tokens.BatchTimeSteps | totp_gen.py:54-56 | within a batch, the time-step counters `floor(target / 30)` are consecutive, whether or not the base falls on a step boundary |
| Tokens.ScheduleCounters | totp_gen.py:54-56 | with an RFC 6238 password, line `k * count + i` uses the HOTP counter of base `k` plus `i` |
| Pipeline.Run | totp_gen.py:62-66 | runs the parser, the secret lookup, the resolver and the generator in order, and returns exactly `Lines` |
| Pipeline.LinesFailureOrder | totp_gen.py:63-65 | a bad offset is reported before a missing secret, and a missing secret before a bad time |
| Pipeline.LinesTokens | totp_gen.py:64-66 | a successful run lists `count` lines per instant, each token the password of the chosen secret at its target |
| Pipeline.LinesChronological | totp_gen.py:65-66 | without a date, and with at most 2880 tokens a day, the whole listing is strictly ascending in time |

## Left out

- Argument parsing (`parse_args`) is not modelled. The option values are parameters of `Pipeline.Run`, and argparse's defaults and its type errors are left out.
- Printing is not modelled: the block headers, the `readable_time` strings, and the `Error:` line of `main`. The headers and strings render each instant with `datetime.fromtimestamp` in the machine's own zone, not the `--tz` offset. The model collects `(target, token)` pairs instead.
- The password algorithm inside `pyotp` is not modelled. That covers HMAC-SHA1, dynamic truncation, Base32 decoding, and the library's own conversion from an instant to a counter. `pyotp` is code this model cannot see, so `totp` is an uninterpreted function. `Tokens.TimeStep` uses the `floor(t / 30)` of RFC 6238 for the optional HOTP form.
- A secret that is not valid Base32 fails inside `pyotp` only after a block header has been printed. The model does not have that failure.
- Pipeline.Run lists every token of every instant. The program shows each instant with `datetime.fromtimestamp` in the machine's own zone (totp_gen.py:53 and :57). That call raises `ValueError` when the local date falls outside years 1 to 9999, and `main` catches it at totp_gen.py:67 and prints an `Error:` line, possibly after some token lines. For example, `--date 0001-01-01 --time 00:00 --tz UTC+1` on a UTC machine fails before the first token, and `--date 9999-12-31 --time 23:59 --tz UTC --count 3` fails at the third. The machine's zone is not modelled, so the model lists the tokens in those cases.
- Pipeline.Run reports `DateOutOfRange` as `Err` like the other failures. The program does not catch the `OverflowError` behind it, so it stops with a traceback instead.
- Builtins.UpperChar upper-cases ASCII letters only. Python's full Unicode case mapping, for example `ſ` to `S`, is not modelled.
- Timezone.MatchTimezone reads ASCII digits only, where Python's `\d` also matches other Unicode decimal digits and `int()` reads them. For example, `UTC+٣` (ARABIC-INDIC DIGIT THREE) gives +3 in the program, but the model refuses it as malformed.
- Timezone.ParseTimezone inherits that restriction, so it refuses offsets written with non-ASCII digits.
- Timestamps.ParseTime and Timestamps.ParseDate read ASCII digits only. Python's `\d` and `int()` also accept other Unicode decimal digits, such as Arabic-Indic ones.
- Calendar.LocalDate takes the clock as whole seconds. The fraction of a second of `datetime.now` cannot change the local date under a whole-hour offset.
