/** The few Python built-ins the generator leans on: `str.strip()`, `str.upper()`,
    `int()` of a string of digits and the length of `range(n)`. */
module Builtins {

  /** `c.isspace()`: the characters that `str.strip()` with no argument removes. */
  predicate IsSpace(c: char) {
    var n := c as int;
    || 0x09 <= n <= 0x0D
    || 0x1C <= n <= 0x20
    || n == 0x85 || n == 0xA0 || n == 0x1680
    || 0x2000 <= n <= 0x200A
    || n == 0x2028 || n == 0x2029 || n == 0x202F || n == 0x205F || n == 0x3000
  }

  predicate AllSpace(s: string) {
    forall i :: 0 <= i < |s| ==> IsSpace(s[i])
  }

  /** Neither end of `s` is whitespace. */
  predicate Trimmed(s: string) {
    s == [] || (!IsSpace(s[0]) && !IsSpace(s[|s| - 1]))
  }

  /** `s.lstrip()`: the suffix of `s` left after its leading whitespace. */
  function StripStart(s: string): (r: string)
    ensures |r| <= |s| && r == s[|s| - |r|..]
    ensures AllSpace(s[..|s| - |r|])
    ensures r == [] || !IsSpace(r[0])
  {
    if s != [] && IsSpace(s[0]) then
      var r := StripStart(s[1..]);
      assert s[..|s| - |r|] == [s[0]] + s[1..][..|s| - 1 - |r|];
      r
    else s
  }

  /** `s.rstrip()`: the prefix of `s` left after its trailing whitespace. */
  function StripEnd(s: string): (r: string)
    ensures |r| <= |s| && r == s[..|r|]
    ensures AllSpace(s[|r|..])
    ensures r == [] || !IsSpace(r[|r| - 1])
  {
    if s != [] && IsSpace(s[|s| - 1]) then
      var r := StripEnd(s[..|s| - 1]);
      assert s[|r|..] == s[..|s| - 1][|r|..] + [s[|s| - 1]];
      r
    else s
  }

  /** `s.strip()` */
  function Strip(s: string): (r: string)
    ensures Trimmed(r)
  {
    StripEnd(StripStart(s))
  }

  predicate IsLower(c: char) {
    'a' <= c <= 'z'
  }

  /** `c.upper()` for ASCII letters; every other character is left as it is. */
  function UpperChar(c: char): char {
    if IsLower(c) then (c as int - 32) as char else c
  }

  /** No character of `s` is a lower-case letter. */
  predicate NoLower(s: string) {
    forall i :: 0 <= i < |s| ==> !IsLower(s[i])
  }

  /** `r` has the characters of `s` wherever those are not lower-case letters. */
  predicate KeepsOthers(s: string, r: string)
    requires |r| == |s|
  {
    forall i :: 0 <= i < |s| && !IsLower(s[i]) ==> r[i] == s[i]
  }

  /** Wherever `s` has a lower-case letter, `r` has the same letter in capital
      form (`'a'` becomes `'A'`, 32 code points lower). */
  predicate CapitalizesLower(s: string, r: string)
    requires |r| == |s|
  {
    forall i :: 0 <= i < |s| && IsLower(s[i]) ==> r[i] as int == s[i] as int - ('a' as int - 'A' as int)
  }

  /** `r` has whitespace exactly where `s` has. */
  predicate SameSpacing(s: string, r: string)
    requires |r| == |s|
  {
    forall i :: 0 <= i < |s| ==> (IsSpace(r[i]) <==> IsSpace(s[i]))
  }

  /** `s.upper()`, character by character. */
  function Upper(s: string): string {
    seq(|s|, i requires 0 <= i < |s| => UpperChar(s[i]))
  }

  /** What `upper()` does to a text: it keeps the length, turns each
      lower-case letter into its capital, keeps every other character, and so
      leaves no lower-case letter and keeps whitespace where it was. */
  lemma UpperCharacters(s: string)
    ensures |Upper(s)| == |s|
    ensures CapitalizesLower(s, Upper(s))
    ensures NoLower(Upper(s))
    ensures KeepsOthers(s, Upper(s))
    ensures SameSpacing(s, Upper(s))
  {
  }

  predicate IsDigit(c: char) {
    '0' <= c <= '9'
  }

  predicate AllDigits(s: string) {
    forall i :: 0 <= i < |s| ==> IsDigit(s[i])
  }

  /** `int(s)` for a string of decimal digits (the empty string reads as 0). */
  function DigitsValue(s: string): nat
    requires AllDigits(s)
  {
    if s == [] then 0 else DigitsValue(s[..|s| - 1]) * 10 + (s[|s| - 1] as int - '0' as int)
  }

  /** The digit character for `d`. */
  function DigitChar(d: nat): char
    requires d < 10
  {
    ('0' as int + d) as char
  }

  /** `n` written with exactly `width` decimal digits, leading zeros included,
      as `strftime` writes `%m`, `%d` (width 2) and `%Y` (width 4). */
  function ZeroPadded(n: nat, width: nat): (r: string)
    ensures |r| == width && AllDigits(r)
  {
    if width == 0 then [] else ZeroPadded(n / 10, width - 1) + [DigitChar(n % 10)]
  }

  function Pow10(k: nat): nat {
    if k == 0 then 1 else 10 * Pow10(k - 1)
  }

  /** `len(range(n))` */
  function RangeLength(n: int): nat {
    if n > 0 then n else 0
  }

  // ---------------------------------------------------------------------------
  // strip()

  lemma {:induction false} StripStartSkipsSpace(pre: string, s: string)
    requires AllSpace(pre)
    ensures StripStart(pre + s) == StripStart(s)
  {
    if pre != [] {
      assert (pre + s)[1..] == pre[1..] + s;
      StripStartSkipsSpace(pre[1..], s);
    } else {
      assert pre + s == s;
    }
  }

  lemma {:induction false} StripEndSkipsSpace(s: string, post: string)
    requires AllSpace(post)
    ensures StripEnd(s + post) == StripEnd(s)
  {
    if post != [] {
      var n := |s + post|;
      assert (s + post)[..n - 1] == s + post[..|post| - 1];
      StripEndSkipsSpace(s, post[..|post| - 1]);
    } else {
      assert s + post == s;
    }
  }

  lemma {:induction false} StripStartAppend(s: string, post: string)
    ensures StripStart(s + post) == if StripStart(s) == [] then StripStart(post) else StripStart(s) + post
  {
    if s == [] {
      assert s + post == post;
    } else if IsSpace(s[0]) {
      assert (s + post)[1..] == s[1..] + post;
      StripStartAppend(s[1..], post);
    } else {
      assert (s + post)[0] == s[0];
    }
  }

  /** Surrounding whitespace does not change what `strip()` returns. */
  lemma StripIgnoresPadding(pre: string, s: string, post: string)
    requires AllSpace(pre) && AllSpace(post)
    ensures Strip(pre + s + post) == Strip(s)
  {
    assert pre + s + post == pre + (s + post);
    StripStartSkipsSpace(pre, s + post);
    StripStartAppend(s, post);
    if StripStart(s) == [] {
      StripStartSkipsSpace(post, []);
      assert post + [] == post;
    } else {
      StripEndSkipsSpace(StripStart(s), post);
    }
  }

  /** A string whose ends are not whitespace is its own `strip()`. */
  lemma StripTrimmed(s: string)
    requires Trimmed(s)
    ensures Strip(s) == s
  {
  }

  // ---------------------------------------------------------------------------
  // upper()

  lemma {:induction false} StripStartUpper(s: string)
    ensures StripStart(Upper(s)) == Upper(StripStart(s))
  {
    if s != [] {
      var u := Upper(s);
      assert IsSpace(u[0]) <==> IsSpace(s[0]);
      assert u[1..] == Upper(s[1..]);
      StripStartUpper(s[1..]);
    }
  }

  lemma {:induction false} StripEndUpper(s: string)
    ensures StripEnd(Upper(s)) == Upper(StripEnd(s))
  {
    if s != [] {
      var u := Upper(s);
      assert IsSpace(u[|s| - 1]) <==> IsSpace(s[|s| - 1]);
      assert u[..|s| - 1] == Upper(s[..|s| - 1]);
      StripEndUpper(s[..|s| - 1]);
    }
  }

  /** `strip()` and `upper()` commute. */
  lemma StripUpper(s: string)
    ensures Strip(Upper(s)) == Upper(Strip(s))
  {
    StripStartUpper(s);
    StripEndUpper(StripStart(s));
  }

  lemma UpperIdempotent(s: string)
    ensures Upper(Upper(s)) == Upper(s)
  {
  }

  // ---------------------------------------------------------------------------
  // int()

  /** `k` digits never read as more than `10^k - 1`. */
  lemma {:induction false} DigitsValueBound(s: string)
    requires AllDigits(s)
    ensures DigitsValue(s) < Pow10(|s|)
    decreases |s|
  {
    if s != [] {
      DigitsValueBound(s[..|s| - 1]);
    }
  }

  /** Zero-padded digits read back as the number they were written from. */
  lemma {:induction false} ZeroPaddedValue(n: nat, width: nat)
    requires n < Pow10(width)
    ensures DigitsValue(ZeroPadded(n, width)) == n
  {
    if width > 0 {
      var r := ZeroPadded(n, width);
      assert r[..|r| - 1] == ZeroPadded(n / 10, width - 1);
      ZeroPaddedValue(n / 10, width - 1);
    }
  }
}
