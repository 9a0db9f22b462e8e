/** `parse_timezone`: the `--tz` text, stripped and upper-cased, must be `UTC`
    followed by an optional sign and up to two digits; it names a fixed
    whole-hour offset from UTC, which `datetime.timezone` accepts only when it
    is less than 24 hours either way. */
module Timezone {
  import opened Results
  import opened Builtins

  /** The two groups of the pattern `UTC([+-]?)([0-9]{1,2})?`: the sign (`""` when
      absent) and the digits (`""` when the optional group did not match). */
  datatype TzGroups = TzGroups(sign: string, digits: string)

  /** `u` is spelled as `UTC`, then the sign group, then the digit group. */
  predicate Spells(u: string, g: TzGroups) {
    && (g.sign == "" || g.sign == "+" || g.sign == "-")
    && |g.digits| <= 2 && AllDigits(g.digits)
    && u == "UTC" + g.sign + g.digits
  }

  /** The offset in hours that the groups denote: no sign reads as `+` and no
      digits as 0. */
  function SignedHours(g: TzGroups): int
    requires AllDigits(g.digits)
  {
    var h: int := DigitsValue(g.digits);
    if g.sign == "-" then -h else h
  }

  /** `re.fullmatch(r'UTC([+-]?)(\d{1,2})?', u)`, returning the groups. */
  function MatchTimezone(u: string): (r: Option<TzGroups>)
    ensures r.Some? ==> Spells(u, r.value)
  {
    if |u| < 3 || u[..3] != "UTC" then None
    else
      var rest := u[3..];
      var sign := if rest != [] && (rest[0] == '+' || rest[0] == '-') then rest[..1] else "";
      var digits := rest[|sign|..];
      assert u == "UTC" + sign + digits;
      if |digits| <= 2 && AllDigits(digits) then Some(TzGroups(sign, digits)) else None
  }

  /** The match finds every spelling, and its groups are the only ones. */
  lemma MatchTimezoneComplete(u: string, g: TzGroups)
    requires Spells(u, g)
    ensures MatchTimezone(u) == Some(g)
  {
    assert u[..3] == "UTC";
    var rest := u[3..];
    assert rest == g.sign + g.digits;
    if g.sign == "" {
      assert rest == g.digits;
      assert rest != [] ==> IsDigit(rest[0]);
    } else {
      assert rest[0] == g.sign[0];
      assert rest[..1] == g.sign;
      assert rest[1..] == g.digits;
    }
  }

  /** `s.strip().upper()`, the text the pattern is matched against. */
  function Normalize(s: string): string {
    Upper(Strip(s))
  }

  /** The normalized text has no whitespace at either end and no lower-case
      letter. */
  lemma NormalizeForm(s: string)
    ensures Trimmed(Normalize(s))
    ensures NoLower(Normalize(s))
  {
    UpperCharacters(Strip(s));
  }

  /** `parse_timezone(s)`, with the offset as a signed number of hours. */
  function ParseTimezone(s: string): (r: Result<int>)
    ensures r.Ok? ==> -24 < r.value < 24
    ensures r.Err? ==> r.error == InvalidTimezone || r.error == OffsetOutOfRange
  {
    match MatchTimezone(Normalize(s))
    case None => Err(InvalidTimezone)
    case Some(g) =>
      var offset := SignedHours(g);
      if -24 < offset < 24 then Ok(offset) else Err(OffsetOutOfRange)
  }

  /** A text whose normalized form spells `UTC[+-]?[0-9]{0,2}` gives the
      signed value of its groups when the magnitude is below 24, and is
      refused as out of range otherwise. */
  lemma ParseTimezoneGrammar(s: string, g: TzGroups)
    requires Spells(Normalize(s), g)
    ensures DigitsValue(g.digits) < 24 ==> ParseTimezone(s) == Ok(SignedHours(g))
    ensures DigitsValue(g.digits) >= 24 ==> ParseTimezone(s) == Err(OffsetOutOfRange)
  {
    MatchTimezoneComplete(Normalize(s), g);
  }

  lemma ParseTimezoneMalformed(s: string)
    requires forall g :: !Spells(Normalize(s), g)
    ensures ParseTimezone(s) == Err(InvalidTimezone)
  {
  }

  lemma ParseTimezoneAccepts(s: string)
    ensures ParseTimezone(s).Ok? <==>
      exists g :: Spells(Normalize(s), g) && DigitsValue(g.digits) < 24
  {
    var u := Normalize(s);
    var m := MatchTimezone(u);
    if m.Some? {
      assert Spells(u, m.value);
      if DigitsValue(m.value.digits) < 24 {
        assert ParseTimezone(s).Ok?;
      } else {
        assert ParseTimezone(s).Err?;
        forall g | Spells(u, g)
          ensures DigitsValue(g.digits) >= 24
        {
          MatchTimezoneComplete(u, g);
        }
      }
    } else {
      assert ParseTimezone(s).Err?;
      forall g | Spells(u, g)
        ensures false
      {
        MatchTimezoneComplete(u, g);
      }
    }
  }

  /** Parsing already works on the normalized text: normalizing first changes
      nothing. */
  lemma ParseTimezoneNormalized(s: string)
    ensures ParseTimezone(Normalize(s)) == ParseTimezone(s)
  {
    NormalizeIdempotent(s);
  }

  /** Normalizing twice is normalizing once. */
  lemma NormalizeIdempotent(s: string)
    ensures Normalize(Normalize(s)) == Normalize(s)
  {
    var t := Strip(s);
    StripTrimmed(t);
    StripUpper(t);
    assert Strip(Upper(t)) == Upper(t);
    UpperIdempotent(t);
  }

  /** Case does not matter: lower-case letters read as upper-case ones. */
  lemma ParseTimezoneIgnoresCase(s: string)
    ensures ParseTimezone(Upper(s)) == ParseTimezone(s)
  {
    StripUpper(s);
    UpperIdempotent(Strip(s));
  }

  /** Whitespace around the text does not matter. */
  lemma ParseTimezoneIgnoresPadding(pre: string, s: string, post: string)
    requires AllSpace(pre) && AllSpace(post)
    ensures ParseTimezone(pre + s + post) == ParseTimezone(s)
  {
    StripIgnoresPadding(pre, s, post);
  }

  /** A text that is already upper-case and has no surrounding whitespace is
      matched as it stands. */
  lemma NormalizeCanonical(u: string)
    requires Trimmed(u)
    requires NoLower(u)
    ensures Normalize(u) == u
  {
    StripTrimmed(u);
  }

  /** The canonical spelling of a pair of groups parses to their signed value
      when it is below a day. */
  lemma ParseSpelling(g: TzGroups)
    requires g.sign == "" || g.sign == "+" || g.sign == "-"
    requires |g.digits| <= 2 && AllDigits(g.digits)
    ensures ParseTimezone("UTC" + g.sign + g.digits) ==
      if DigitsValue(g.digits) < 24 then Ok(SignedHours(g)) else Err(OffsetOutOfRange)
  {
    var u := "UTC" + g.sign + g.digits;
    SpellingNormalized(g);
    ParseTimezoneGrammar(u, g);
    if DigitsValue(g.digits) < 24 {
      assert ParseTimezone(u) == Ok(SignedHours(g));
    } else {
      assert ParseTimezone(u) == Err(OffsetOutOfRange);
    }
  }

  /** The canonical spelling is already stripped and upper-case. */
  lemma SpellingNormalized(g: TzGroups)
    requires g.sign == "" || g.sign == "+" || g.sign == "-"
    requires |g.digits| <= 2 && AllDigits(g.digits)
    ensures Spells(Normalize("UTC" + g.sign + g.digits), g)
  {
    var u := "UTC" + g.sign + g.digits;
    assert u[0] == 'U';
    assert NoLower(u) by {
      forall i | 0 <= i < |u|
        ensures !IsLower(u[i])
      {
        if i >= 3 + |g.sign| {
          assert u[i] == g.digits[i - 3 - |g.sign|];
        }
      }
    }
    NormalizeCanonical(u);
  }

  /** No digits read as offset 0, whatever the sign. */
  lemma ParseTimezoneNoDigits(sign: string)
    requires sign == "" || sign == "+" || sign == "-"
    ensures ParseTimezone("UTC" + sign) == Ok(0)
  {
    ParseSpelling(TzGroups(sign, ""));
    assert "UTC" + sign + "" == "UTC" + sign;
  }

  /** Digits with no sign read as a positive offset. */
  lemma ParseTimezoneNoSign(digits: string)
    requires 1 <= |digits| <= 2 && AllDigits(digits)
    ensures ParseTimezone("UTC" + digits) ==
      if DigitsValue(digits) < 24 then Ok(DigitsValue(digits)) else Err(OffsetOutOfRange)
  {
    var g := TzGroups("", digits);
    assert SignedHours(g) == DigitsValue(digits);
    assert "UTC" + g.sign + g.digits == "UTC" + digits;
    ParseSpelling(g);
  }

  /** The lower-case spelling of the prefix reads like the upper-case one. */
  lemma ParseLowerSpelling(g: TzGroups)
    ensures ParseTimezone("utc" + g.sign + g.digits) == ParseTimezone("UTC" + g.sign + g.digits)
  {
    var rest := g.sign + g.digits;
    assert "utc" + g.sign + g.digits == "utc" + rest;
    assert "UTC" + g.sign + g.digits == "UTC" + rest;
    UpperPrefix(rest);
    ParseTimezoneIgnoresCase("utc" + rest);
    ParseTimezoneIgnoresCase("UTC" + rest);
  }

  /** Upper-casing does not tell `utc` from `UTC` in front of any text. */
  lemma UpperPrefix(rest: string)
    ensures Upper("utc" + rest) == Upper("UTC" + rest)
  {
    var l := "utc" + rest;
    var u := "UTC" + rest;
    forall i | 0 <= i < |l|
      ensures Upper(l)[i] == Upper(u)[i]
    {
      if i >= 3 {
        assert l[i] == u[i];
      }
    }
  }

  /** `utc-3` is three hours behind UTC, as `UTC-3` is. */
  lemma ParseTimezoneLowerCase()
    ensures ParseTimezone("utc-3") == Ok(-3)
  {
    var g := TzGroups("-", "3");
    LowerCaseText();
    assert g.digits[..0] == [];
    assert SignedHours(g) == -3;
    ParseSpelling(g);
    ParseLowerSpelling(g);
  }

  /** `utc-3` is spelled as `utc`, the sign group `-` and the digit group `3`. */
  lemma LowerCaseText()
    ensures "utc" + "-" + "3" == "utc-3"
  {
  }

  /** Another zone name does not match. */
  lemma ParseTimezoneOtherName()
    ensures ParseTimezone("GMT+3") == Err(InvalidTimezone)
  {
    NormalizeCanonical("GMT+3");
    assert "GMT+3"[..3] != "UTC";
  }
}
