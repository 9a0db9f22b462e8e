/** `generate_totps`: for each base instant in order, and for each of `count`
    steps of 30 seconds from it, the target instant and the one-time password
    at that instant. The password itself comes from the `pyotp` library,
    which is not part of this model: it is the parameter `totp`, a pure
    function of the secret and the instant. */
module Tokens {
  import opened Builtins

  /** `pyotp.TOTP(secret).at(target)` */
  type TotpFunction = (string, int) -> string

  /** The length of one time step (`pyotp`'s default interval). */
  const Interval: int := 30

  /** One printed line: `<target> -> <token>`. */
  datatype Entry = Entry(target: int, token: string)

  /** The lines printed for one base instant. */
  function Batch(totp: TotpFunction, secret: string, base: int, count: int): seq<Entry> {
    seq(RangeLength(count), i => Entry(base + i * Interval, totp(secret, base + i * Interval)))
  }

  /** All lines printed, batch after batch in the order of `bases`. */
  function Schedule(totp: TotpFunction, secret: string, bases: seq<int>, count: int): seq<Entry>
    decreases |bases|
  {
    if bases == [] then []
    else Schedule(totp, secret, bases[..|bases| - 1], count) + Batch(totp, secret, bases[|bases| - 1], count)
  }

  /** `generate_totps(secret, base_timestamps, count)`, collecting the lines it
      prints in order. */
  method GenerateTotps(totp: TotpFunction, secret: string, bases: seq<int>, count: int)
    returns (out: seq<Entry>)
    ensures out == Schedule(totp, secret, bases, count)
  {
    out := [];
    for k := 0 to |bases|
      invariant out == Schedule(totp, secret, bases[..k], count)
    {
      var ts := bases[k];
      ghost var before := out;
      var i := 0;
      while i < count
        invariant 0 <= i <= RangeLength(count)
        invariant out == before + Batch(totp, secret, ts, count)[..i]
      {
        var target := ts + i * Interval;
        out := out + [Entry(target, totp(secret, target))];
        i := i + 1;
      }
      assert Batch(totp, secret, ts, count)[..i] == Batch(totp, secret, ts, count);
      assert bases[..k + 1][..k] == bases[..k];
    }
    assert bases[..|bases|] == bases;
  }

  // ---------------------------------------------------------------------------
  // What the schedule holds

  /** There are exactly `count` lines per base instant (none when `count` is
      not positive). */
  lemma {:induction false} ScheduleLength(totp: TotpFunction, secret: string, bases: seq<int>, count: int)
    ensures |Schedule(totp, secret, bases, count)| == |bases| * RangeLength(count)
    decreases |bases|
  {
    if bases != [] {
      var n := |bases|;
      ScheduleLength(totp, secret, bases[..n - 1], count);
      assert (n - 1) * RangeLength(count) + RangeLength(count) == n * RangeLength(count);
    }
  }

  /** Line `k * count + i` belongs to base instant `k` and step `i`: its target
      is `i` intervals after that base, and its token is the password at the
      target. */
  lemma {:induction false} ScheduleAt(totp: TotpFunction, secret: string, bases: seq<int>, count: int, k: int, i: int)
    requires 0 <= k < |bases| && 0 <= i < count
    ensures k * count + i < |Schedule(totp, secret, bases, count)|
    ensures Schedule(totp, secret, bases, count)[k * count + i] ==
      Entry(bases[k] + i * Interval, totp(secret, bases[k] + i * Interval))
    decreases |bases|
  {
    var n := |bases|;
    var prefix := Schedule(totp, secret, bases[..n - 1], count);
    ScheduleLength(totp, secret, bases[..n - 1], count);
    ScheduleLength(totp, secret, bases, count);
    assert |prefix| == (n - 1) * count;
    if k < n - 1 {
      ScheduleAt(totp, secret, bases[..n - 1], count, k, i);
      assert k * count + i < |prefix|;
      assert k * count + i < n * count by {
        assert (n - 1) * count <= n * count;
      }
    } else {
      assert k * count == |prefix|;
    }
  }

  /** Every token is the password for its own target and the secret, and for
      nothing else: equal targets carry equal tokens. */
  lemma {:induction false} ScheduleTokens(totp: TotpFunction, secret: string, bases: seq<int>, count: int)
    ensures forall e :: e in Schedule(totp, secret, bases, count) ==> e.token == totp(secret, e.target)
    decreases |bases|
  {
    if bases != [] {
      ScheduleTokens(totp, secret, bases[..|bases| - 1], count);
    }
  }

  /** The targets of `s` are strictly ascending. */
  predicate Ascending(s: seq<Entry>) {
    forall i, j :: 0 <= i < j < |s| ==> s[i].target < s[j].target
  }

  /** Targets are strictly ascending across the whole schedule when each base
      instant is later than the last target of the one before it. */
  lemma {:induction false} ScheduleAscending(totp: TotpFunction, secret: string, bases: seq<int>, count: int)
    requires forall k :: 0 <= k < |bases| - 1 ==> bases[k] + count * Interval <= bases[k + 1]
    ensures Ascending(Schedule(totp, secret, bases, count))
    ensures forall e :: e in Schedule(totp, secret, bases, count) ==>
      bases[0] <= e.target < bases[|bases| - 1] + RangeLength(count) * Interval
    decreases |bases|
  {
    var s := Schedule(totp, secret, bases, count);
    if bases != [] && count > 0 {
      var n := |bases|;
      var last := bases[n - 1];
      var front := bases[..n - 1];
      var prefix := Schedule(totp, secret, front, count);
      var batch := Batch(totp, secret, last, count);
      assert s == prefix + batch;
      AscendingBases(bases, count, n - 1);
      ScheduleAscending(totp, secret, front, count);
      if n > 1 {
        assert bases[n - 2] + count * Interval <= last;
      }
      assert forall e :: e in prefix ==> e.target < last;
      assert forall e :: e in batch ==> last <= e.target < last + count * Interval;
      assert Ascending(batch) by {
        forall i, j | 0 <= i < j < |batch|
          ensures batch[i].target < batch[j].target
        {
          assert batch[i].target == last + i * Interval;
          assert batch[j].target == last + j * Interval;
        }
      }
      AscendingConcat(prefix, batch, last);
    } else if bases != [] {
      ScheduleLength(totp, secret, bases, count);
      assert s == [];
    }
  }

  /** Two ascending runs, the first wholly before `pivot` and the second from
      `pivot` on, make one ascending run. */
  lemma AscendingConcat(a: seq<Entry>, b: seq<Entry>, pivot: int)
    requires Ascending(a) && Ascending(b)
    requires forall e :: e in a ==> e.target < pivot
    requires forall e :: e in b ==> pivot <= e.target
    ensures Ascending(a + b)
  {
    var s := a + b;
    forall i, j | 0 <= i < j < |s|
      ensures s[i].target < s[j].target
    {
      if j < |a| {
        assert s[i] == a[i] && s[j] == a[j];
      } else if i < |a| {
        assert s[i] in a && s[j] in b;
      } else {
        assert s[i] == b[i - |a|] && s[j] == b[j - |a|];
      }
    }
  }

  /** Under the hypothesis of `ScheduleAscending`, later bases are not
      earlier. */
  lemma {:induction false} AscendingBases(bases: seq<int>, count: int, k: int)
    requires forall j :: 0 <= j < |bases| - 1 ==> bases[j] + count * Interval <= bases[j + 1]
    requires 0 <= k < |bases|
    ensures count >= 0 ==> bases[0] <= bases[k]
  {
    if k > 0 {
      AscendingBases(bases, count, k - 1);
    }
  }

  // ---------------------------------------------------------------------------
  // The time step of RFC 6238

  /** The RFC 6238 time-step counter of instant `t`, `floor(t / 30)`. */
  function TimeStep(t: int): int {
    t / Interval
  }

  /** Within one batch the counters are consecutive: step `i` uses the base's
      counter plus `i`, when the base falls on a step boundary or not. */
  lemma BatchTimeSteps(totp: TotpFunction, secret: string, base: int, count: int, i: int)
    requires 0 <= i < count
    ensures TimeStep(Batch(totp, secret, base, count)[i].target) == TimeStep(base) + i
  {
    var q := base / Interval;
    var r := base % Interval;
    assert base + i * Interval == (q + i) * Interval + r;
  }

  /** A password of the RFC 6238 form, the HOTP value of the secret at the
      time-step counter, gives line `k * count + i` the HOTP value at the
      counter of base `k` plus `i`. */
  lemma ScheduleCounters(hotp: (string, int) -> string, secret: string, bases: seq<int>, count: int, k: int, i: int)
    requires 0 <= k < |bases| && 0 <= i < count
    ensures var totp := (s, t) => hotp(s, TimeStep(t));
      && k * count + i < |Schedule(totp, secret, bases, count)|
      && Schedule(totp, secret, bases, count)[k * count + i].token == hotp(secret, TimeStep(bases[k]) + i)
  {
    var totp := (s, t) => hotp(s, TimeStep(t));
    ScheduleAt(totp, secret, bases, count, k, i);
    BatchTimeSteps(totp, secret, bases[k], count, i);
  }
}
