/** DatetimeExtensions.ToRelativeTime: a phrase for how far an instant lies
    from the current time. Instants are `DateTime.Ticks` (100 ns units); the
    current time, read from the clock in the program, is the parameter `now`.
    The choice of phrase is a `Relative` value and its wording is `Phrase`. */
module DatetimeExtensions {
  import opened Runtime

  /** SECOND, MINUTE, HOUR, DAY and MONTH of the source, in ticks. */
  const Second: int := 10_000_000
  const Minute: int := 600_000_000
  const Hour: int := 36_000_000_000
  const Day: int := 864_000_000_000
  const Month: int := 25_920_000_000_000

  function Abs(x: int): nat {
    if x < 0 then -x else x
  }

  /** `TimeSpan.Days` of a span of `ticks`: whole days, truncated toward zero. */
  function WholeDays(ticks: int): (d: int)
    ensures Abs(d) == Abs(ticks) / Day
    ensures ticks >= 0 ==> d >= 0
    ensures ticks <= 0 ==> d <= 0
  {
    if ticks >= 0 then ticks / Day else -((-ticks) / Day)
  }

  /** `Math.Floor((double)a / k)` for whole `a`; for a positive divisor Dafny's
      division already rounds down. */
  function FloorDiv(a: int, k: int): int
    requires k > 0
  {
    a / k
  }

  /** Which phrase is chosen, with the number it carries and its direction. */
  datatype Relative =
    | Today
    | Yesterday
    | Tomorrow
    | DaysAway(days: nat, past: bool)
    | MonthsAway(months: nat, past: bool)
    | YearsAway(years: nat, past: bool)

  /** `n + " days ago"` or `n + " days later"`. */
  function DaysPhrase(n: nat, past: bool): string {
    NatToString(n) + (if past then " days ago" else " days later")
  }

  /** The phrase for `count` months: "one month" up to one, the number above. */
  function MonthsPhrase(count: nat, past: bool): string {
    if count <= 1 then (if past then "one month ago" else "one month later")
    else NatToString(count) + (if past then " months ago" else " months later")
  }

  /** The phrase for `count` years: "one year" up to one, the number above. */
  function YearsPhrase(count: nat, past: bool): string {
    if count <= 1 then (if past then "one year ago" else "one year later")
    else NatToString(count) + (if past then " years ago" else " years later")
  }

  /** The words of each choice. */
  function Phrase(r: Relative): string {
    match r
    case Today => " today"
    case Yesterday => "yesterday"
    case Tomorrow => "tomorrow"
    case DaysAway(n, past) => DaysPhrase(n, past)
    case MonthsAway(n, past) => MonthsPhrase(n, past)
    case YearsAway(n, past) => YearsPhrase(n, past)
  }

  /** The choice `ToRelativeTime()` makes as written. The span is `now - dt`;
      a positive span is in the past, anything else in the future. Both
      branches have the same shape, so they are written once with `past`
      choosing the direction. */
  function Classify(now: int, dt: int): (r: Relative)
    ensures r.Today? <==> Abs(now - dt) < Day
    ensures r.Yesterday? <==> Day <= Abs(now - dt) < 2 * Day && now > dt
    ensures r.Tomorrow? <==> Day <= Abs(now - dt) < 2 * Day && now <= dt
    ensures r.DaysAway? <==> 2 * Day <= Abs(now - dt) < 30 * Day
    ensures r.MonthsAway? <==> 30 * Day <= Abs(now - dt) < 12 * Month
    ensures r.YearsAway? <==> 12 * Month <= Abs(now - dt)
    ensures r.DaysAway? || r.MonthsAway? || r.YearsAway? ==> r.past == (now > dt)
  {
    var ticks := now - dt;
    var delta := Abs(ticks);
    var days := WholeDays(ticks);
    var past := ticks > 0;
    if delta < 24 * Hour then Today
    else if delta < 48 * Hour then (if past then Yesterday else Tomorrow)
    else if delta < 30 * Day then DaysAway(Abs(days), past)
    else if delta < 12 * Month then MonthsAway(Abs(FloorDiv(days, 30)), past)
    else YearsAway(Abs(FloorDiv(days, 365)), past)
  }

  /** `s.EndsWith(suffix)`, ordinal. */
  predicate EndsWith(s: string, suffix: string) {
    |suffix| <= |s| && s[|s| - |suffix|..] == suffix
  }

  /** Appending to a phrase keeps a suffix of what is appended. */
  lemma EndsWithAppend(x: string, y: string, suffix: string)
    requires EndsWith(y, suffix)
    ensures EndsWith(x + y, suffix)
  {
    assert (x + y)[|x + y| - |suffix|..] == y[|y| - |suffix|..];
  }

  /** A phrase with a count ends with its direction: " ago" or " later". */
  lemma PhraseDirection(c: Relative)
    requires c.DaysAway? || c.MonthsAway? || c.YearsAway?
    ensures EndsWith(Phrase(c), if c.past then " ago" else " later")
  {
    var suffix := if c.past then " ago" else " later";
    match c
    case DaysAway(n, past) =>
      EndsWithAppend(NatToString(n), if past then " days ago" else " days later", suffix);
    case MonthsAway(n, past) =>
      EndsWithAppend(NatToString(n), if past then " months ago" else " months later", suffix);
    case YearsAway(n, past) =>
      EndsWithAppend(NatToString(n), if past then " years ago" else " years later", suffix);
  }

  /** `ToRelativeTime()` as written: two days or more away, a past instant
      reads "... ago" and any other "... later". */
  function ToRelativeTime(now: int, dt: int): (r: string)
    ensures Abs(now - dt) < Day ==> r == " today"
    ensures Day <= Abs(now - dt) < 2 * Day ==> r == (if now > dt then "yesterday" else "tomorrow")
    ensures 2 * Day <= Abs(now - dt) && now > dt ==> EndsWith(r, " ago")
    ensures 2 * Day <= Abs(now - dt) && now <= dt ==> EndsWith(r, " later")
  {
    var c := Classify(now, dt);
    if c.DaysAway? || c.MonthsAway? || c.YearsAway? then
      PhraseDirection(c);
      Phrase(c)
    else Phrase(c)
  }

  /** Within a day either way the phrase is " today", a span of zero included. */
  lemma TodayBothWays(now: int, dt: int)
    requires Abs(now - dt) < Day
    ensures ToRelativeTime(now, dt) == " today"
  {
  }

  /** From one to two days the sign of the span chooses "yesterday" or "tomorrow". */
  lemma YesterdayOrTomorrow(now: int, dt: int)
    requires Day <= Abs(now - dt) < 2 * Day
    ensures ToRelativeTime(now, dt) == (if now > dt then "yesterday" else "tomorrow")
  {
  }

  /** From two days to thirty the phrase counts the whole days, 2 to 29. */
  lemma DaysCount(now: int, dt: int)
    requires 2 * Day <= Abs(now - dt) < 30 * Day
    ensures var n := Abs(now - dt) / Day;
      && 2 <= n <= 29
      && Classify(now, dt) == DaysAway(n, now > dt)
  {
  }

  /** From thirty days to twelve thirty-day months: in the past the count of
      months is n / 30 for n whole days; in the future the floor of the
      negative day count rounds away from zero, so the count is n / 30
      rounded up. */
  lemma MonthsCount(now: int, dt: int)
    requires 30 * Day <= Abs(now - dt) < 12 * Month
    ensures var n := Abs(now - dt) / Day;
      && 30 <= n < 360
      && (now > dt ==> Classify(now, dt) == MonthsAway(n / 30, true))
      && (now < dt ==> Classify(now, dt) == MonthsAway((n + 29) / 30, false))
  {
    var ticks := now - dt;
    var n := Abs(ticks) / Day;
    var days := WholeDays(ticks);
    assert Classify(now, dt) == MonthsAway(Abs(FloorDiv(days, 30)), ticks > 0);
    if ticks < 0 {
      assert days == -n;
      FloorOfNegativeMonths(n);
    } else {
      assert days == n;
    }
  }

  /** From 360 days on, years: n / 365 in the past and n / 365 rounded up in
      the future; 360 to 364 days in the past therefore read "one year ago". */
  lemma YearsCount(now: int, dt: int)
    requires Abs(now - dt) >= 12 * Month
    ensures var n := Abs(now - dt) / Day;
      && n >= 360
      && (now > dt ==> Classify(now, dt) == YearsAway(n / 365, true))
      && (now < dt ==> Classify(now, dt) == YearsAway((n + 364) / 365, false))
  {
    var ticks := now - dt;
    var n := Abs(ticks) / Day;
    assert n >= 360 by {
      assert 360 * Day <= Abs(ticks);
    }
    var days := WholeDays(ticks);
    assert Classify(now, dt) == YearsAway(Abs(FloorDiv(days, 365)), ticks > 0);
    if ticks < 0 {
      assert days == -n;
      FloorOfNegativeYears(n);
      assert Abs(FloorDiv(days, 365)) == (n + 364) / 365;
    } else {
      assert days == n;
    }
  }

  /** The floor of -n / 30 is minus n / 30 rounded up. */
  lemma FloorOfNegativeMonths(n: int)
    requires n >= 0
    ensures FloorDiv(-n, 30) == -((n + 29) / 30)
  {
  }

  /** The floor of -n / 365 is minus n / 365 rounded up. */
  lemma FloorOfNegativeYears(n: int)
    requires n >= 0
    ensures FloorDiv(-n, 365) == -((n + 364) / 365)
  {
  }

  /** The choice for a span of `delta` ticks whichever way it points, counting
      whole days, months and years of the span's length alike in both
      directions. */
  function Describe(delta: nat, past: bool): Relative {
    var n := delta / Day;
    if delta < 24 * Hour then Today
    else if delta < 48 * Hour then (if past then Yesterday else Tomorrow)
    else if delta < 30 * Day then DaysAway(n, past)
    else if delta < 12 * Month then MonthsAway(n / 30, past)
    else YearsAway(n / 365, past)
  }

  /** The choice with the month and year counts taken from the length of the
      span, so that the future reads like the past: the same bands as
      `Classify`, with n whole days of span giving n days, n / 30 months or
      n / 365 years in either direction. */
  function ClassifyIntended(now: int, dt: int): (r: Relative)
    ensures r == Describe(Abs(now - dt), now > dt)
    ensures r.Today? <==> Abs(now - dt) < Day
    ensures r.Yesterday? <==> Day <= Abs(now - dt) < 2 * Day && now > dt
    ensures r.Tomorrow? <==> Day <= Abs(now - dt) < 2 * Day && now <= dt
    ensures r.DaysAway? <==> 2 * Day <= Abs(now - dt) < 30 * Day
    ensures r.MonthsAway? <==> 30 * Day <= Abs(now - dt) < 12 * Month
    ensures r.YearsAway? <==> 12 * Month <= Abs(now - dt)
    ensures r.DaysAway? || r.MonthsAway? || r.YearsAway? ==> r.past == (now > dt)
    ensures r.DaysAway? ==> r.days == Abs(now - dt) / Day
    ensures r.MonthsAway? ==> r.months == Abs(now - dt) / Day / 30
    ensures r.YearsAway? ==> r.years == Abs(now - dt) / Day / 365
  {
    var ticks := now - dt;
    var delta := Abs(ticks);
    var days := Abs(WholeDays(ticks));
    var past := ticks > 0;
    if delta < 24 * Hour then Today
    else if delta < 48 * Hour then (if past then Yesterday else Tomorrow)
    else if delta < 30 * Day then DaysAway(days, past)
    else if delta < 12 * Month then MonthsAway(days / 30, past)
    else YearsAway(days / 365, past)
  }

  /** `ToRelativeTime()` as it is evidently meant. */
  function ToRelativeTimeIntended(now: int, dt: int): (r: string)
    ensures Abs(now - dt) < Day ==> r == " today"
    ensures Day <= Abs(now - dt) < 2 * Day ==> r == (if now > dt then "yesterday" else "tomorrow")
    ensures 2 * Day <= Abs(now - dt) && now > dt ==> EndsWith(r, " ago")
    ensures 2 * Day <= Abs(now - dt) && now <= dt ==> EndsWith(r, " later")
  {
    var c := ClassifyIntended(now, dt);
    if c.DaysAway? || c.MonthsAway? || c.YearsAway? then
      PhraseDirection(c);
      Phrase(c)
    else Phrase(c)
  }

  /** Past instants, and future ones less than thirty days away, get the same
      choice in the program as written and in the intended version. */
  lemma IntendedAgreesWithAsWritten(now: int, dt: int)
    requires now > dt || Abs(now - dt) < 30 * Day
    ensures ClassifyIntended(now, dt) == Classify(now, dt)
  {
    var ticks := now - dt;
    if Abs(ticks) >= 30 * Day {
      var n := Abs(ticks) / Day;
      assert WholeDays(ticks) == n;
      if Abs(ticks) < 12 * Month {
        MonthsCount(now, dt);
      } else {
        YearsCount(now, dt);
      }
    } else if Abs(ticks) >= 2 * Day {
      DaysCount(now, dt);
    }
  }

  /** The intended version describes an instant `d` ticks ahead with the same
      count as one `d` ticks behind: only the direction changes. */
  lemma IntendedIsSymmetric(now: int, d: nat)
    ensures ClassifyIntended(now, now - d) == Describe(d, d > 0)
    ensures ClassifyIntended(now, now + d) == Describe(d, false)
  {
  }

  /** As written, an instant 31 days in the past is one month ago but one 31
      days in the future is two months later; the intended version says one
      month later. */
  lemma FutureMonthOvercounted()
    ensures Classify(31 * Day, 0) == MonthsAway(1, true)
    ensures Classify(0, 31 * Day) == MonthsAway(2, false)
    ensures ClassifyIntended(0, 31 * Day) == MonthsAway(1, false)
  {
    MonthsCount(31 * Day, 0);
    MonthsCount(0, 31 * Day);
    assert (31 * Day) / Day == 31;
  }

  /** The words of the three choices above. */
  lemma FutureMonthPhrases()
    ensures Phrase(MonthsAway(1, true)) == "one month ago"
    ensures Phrase(MonthsAway(2, false)) == "2 months later"
    ensures Phrase(MonthsAway(1, false)) == "one month later"
  {
    assert NatToString(2) == "2";
  }
}
