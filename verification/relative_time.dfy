/** `multiFormatDateString`: how long ago a timestamp was, bucketed into
    days, hours or minutes, restated over integer milliseconds. The clock
    reading `now` and the absolute-date formatter are parameters. */
module RelativeTime {
  import opened JsValues
  import opened JsString

  const SecondMs := 1000
  const MinuteMs := 60_000        // 60 seconds
  const HourMs := 3_600_000       // 60 minutes
  const DayMs := 86_400_000       // 24 hours

  /** From this many whole days on, the absolute date is shown instead. */
  const AbsoluteFromDays := 30

  /** `Math.round(t / 1000) * 1000`: the timestamp rounded to the nearest
      whole second, halves rounded up. */
  function RoundToSecond(t: int): (r: int)
    ensures r % SecondMs == 0
    ensures r - SecondMs / 2 <= t < r + SecondMs / 2
  {
    (t + SecondMs / 2) / SecondMs * SecondMs
  }

  /** Milliseconds from the rounded timestamp to `now`; negative for a
      timestamp in the future. */
  function Elapsed(t: int, now: int): int
  {
    now - RoundToSecond(t)
  }

  /** The bucket a timestamp falls into; `Render` turns it into the text. */
  datatype Relative =
    | Absolute(timestamp: int)
    | OneDayAgo
    | DaysAgo(days: nat)
    | HoursAgo(hours: nat)
    | MinutesAgo(minutes: nat)
    | JustNow

  /** The cases of `multiFormatDateString`'s `switch (true)`, tried in order on the
      floored day, hour and minute counts. An unparseable timestamp (`None`)
      makes every comparison false, as NaN does, and lands on "Just now". */
  function Classify(timestamp: Option<int>, now: int): (r: Relative)
    ensures timestamp.None? ==> r == JustNow
    ensures timestamp.Some? ==>
              var e := Elapsed(timestamp.value, now);
              && (r.Absolute? <==> e >= AbsoluteFromDays * DayMs)
              && (r.Absolute? ==> r.timestamp == timestamp.value)
              && (r == OneDayAgo <==> DayMs <= e < 2 * DayMs)
              && (r.DaysAgo? <==> 2 * DayMs <= e < AbsoluteFromDays * DayMs)
              && (r.HoursAgo? <==> HourMs <= e < DayMs)
              && (r.MinutesAgo? <==> MinuteMs <= e < HourMs)
              && (r == JustNow <==> e < MinuteMs)
    ensures r.DaysAgo? ==> 2 <= r.days < AbsoluteFromDays
    ensures r.HoursAgo? ==> 1 <= r.hours <= 23
    ensures r.MinutesAgo? ==> 1 <= r.minutes <= 59
    ensures timestamp.Some? && r.DaysAgo? ==>
              r.days * DayMs <= Elapsed(timestamp.value, now) < (r.days + 1) * DayMs
    ensures timestamp.Some? && r.HoursAgo? ==>
              r.hours * HourMs <= Elapsed(timestamp.value, now) < (r.hours + 1) * HourMs
    ensures timestamp.Some? && r.MinutesAgo? ==>
              r.minutes * MinuteMs <= Elapsed(timestamp.value, now) < (r.minutes + 1) * MinuteMs
  {
    match timestamp
    case None => JustNow
    case Some(t) =>
      var e := Elapsed(t, now);
      var days := e / DayMs;
      var hours := e / HourMs;
      var minutes := e / MinuteMs;
      if days >= AbsoluteFromDays then Absolute(t)
      else if days == 1 then OneDayAgo
      else if days > 1 && e < AbsoluteFromDays * DayMs then DaysAgo(days)
      else if hours >= 1 then HoursAgo(hours)
      else if minutes >= 1 then MinutesAgo(minutes)
      else JustNow
  }

  /** The text of a bucket, as `multiFormatDateString`'s template literals build it. */
  function Render(r: Relative, formatAbsolute: int -> string): string
  {
    match r
    case Absolute(t) => formatAbsolute(t)
    case OneDayAgo => "1 day ago"
    case DaysAgo(n) => NatToString(n) + " days ago"
    case HoursAgo(n) => NatToString(n) + " hours ago"
    case MinutesAgo(n) => NatToString(n) + " minutes ago"
    case JustNow => "Just now"
  }

  /** The number written in front of `suffix`, when `s` is a numeral in
      shortest form (no leading zero unless it is "0") followed by `suffix`. */
  function NumberBefore(s: string, suffix: string): (n: Option<nat>)
    ensures n.Some? ==> EndsWith(s, suffix) && |s| > |suffix|
  {
    if EndsWith(s, suffix) && IsDigits(s[..|s| - |suffix|]) && (s[0] == '0' ==> |s| == |suffix| + 1) then Some(ParseDecimal(s[..|s| - |suffix|]))
    else None
  }

  /** Reads a relative text back into its bucket: the inverse of `Render`
      on every bucket other than `Absolute`. */
  function ParseRelative(s: string): Option<Relative>
  {
    if s == "Just now" then Some(JustNow)
    else if s == "1 day ago" then Some(OneDayAgo)
    else if NumberBefore(s, " days ago").Some? then Some(DaysAgo(NumberBefore(s, " days ago").value))
    else if NumberBefore(s, " hours ago").Some? then Some(HoursAgo(NumberBefore(s, " hours ago").value))
    else if NumberBefore(s, " minutes ago").Some? then Some(MinutesAgo(NumberBefore(s, " minutes ago").value))
    else None
  }

  /** `multiFormatDateString(timestamp)` evaluated at clock reading `now`:
      the absolute format from 30 days on, otherwise a text that reads back
      as exactly the bucket the elapsed time falls into. */
  function MultiFormatDateString(timestamp: Option<int>, now: int, formatAbsolute: int -> string): (s: string)
    ensures Classify(timestamp, now).Absolute? ==> s == formatAbsolute(timestamp.value)
    ensures !Classify(timestamp, now).Absolute? ==> ParseRelative(s) == Some(Classify(timestamp, now))
  {
    var r := Classify(timestamp, now);
    RenderReadsBack(r, formatAbsolute);
    Render(r, formatAbsolute)
  }

  // ---------------------------------------------------------------- lemmas

  /** Every relative text reads back as the bucket it was rendered from, so
      no two buckets share a text. */
  lemma RenderReadsBack(r: Relative, formatAbsolute: int -> string)
    ensures !r.Absolute? ==> ParseRelative(Render(r, formatAbsolute)) == Some(r)
  {
    match r
    case Absolute(_) =>
    case OneDayAgo =>
    case JustNow =>
    case DaysAgo(n) => DaysReadBack(n);
    case HoursAgo(n) => HoursReadBack(n);
    case MinutesAgo(n) => MinutesReadBack(n);
  }

  /** A numeral followed by `suffix` reads back as the numeral's value. */
  lemma NumberBeforeOwnSuffix(n: nat, suffix: string)
    ensures NumberBefore(NatToString(n) + suffix, suffix) == Some(n)
  {
    var d := NatToString(n);
    var s := d + suffix;
    assert s[|s| - |suffix|..] == suffix;
    assert s[..|s| - |suffix|] == d;
  }

  /** A text that differs from `suffix` at its `k`-th character from the end
      has no number before `suffix`. */
  lemma NumberBeforeOtherSuffix(s: string, suffix: string, k: nat)
    requires 0 < k <= |suffix| && k <= |s| && s[|s| - k] != suffix[|suffix| - k]
    ensures NumberBefore(s, suffix) == None
  {
  }

  /** A numeral with a leading zero, such as the "05" of "05 days ago", is
      not one `Render` writes, and no number is read before `suffix`. */
  lemma LeadingZeroIsNotRead(d: string, suffix: string)
    requires IsDigits(d) && |d| > 1 && d[0] == '0'
    ensures NumberBefore(d + suffix, suffix) == None
    ensures forall n: nat :: NatToString(n) != d
  {
  }

  /** The relative texts with a number end in "s ago" and start with a
      digit, so neither fixed text matches them. */
  lemma NumberedTextIsNotFixed(n: nat, suffix: string)
    requires |suffix| >= 5 && suffix[|suffix| - 5..] == "s ago"
    ensures var s := NatToString(n) + suffix; s != "Just now" && s != "1 day ago"
  {
    var s := NatToString(n) + suffix;
    assert s[|s| - 5] == suffix[|suffix| - 5] == 's';
  }

  lemma DaysReadBack(n: nat)
    ensures ParseRelative(NatToString(n) + " days ago") == Some(DaysAgo(n))
  {
    NumberedTextIsNotFixed(n, " days ago");
    NumberBeforeOwnSuffix(n, " days ago");
  }

  lemma HoursReadBack(n: nat)
    ensures ParseRelative(NatToString(n) + " hours ago") == Some(HoursAgo(n))
  {
    var s := NatToString(n) + " hours ago";
    NumberedTextIsNotFixed(n, " hours ago");
    assert s[|s| - 9] == 'h';
    NumberBeforeOtherSuffix(s, " days ago", 9);
    NumberBeforeOwnSuffix(n, " hours ago");
  }

  lemma MinutesReadBack(n: nat)
    ensures ParseRelative(NatToString(n) + " minutes ago") == Some(MinutesAgo(n))
  {
    var s := NatToString(n) + " minutes ago";
    NumberedTextIsNotFixed(n, " minutes ago");
    assert s[|s| - 9] == 'n';
    NumberBeforeOtherSuffix(s, " days ago", 9);
    assert s[|s| - 10] == 'i';
    NumberBeforeOtherSuffix(s, " hours ago", 10);
    NumberBeforeOwnSuffix(n, " minutes ago");
  }

  /** Four sample ages: 45 seconds, 90 minutes, 25 hours and 40 days
      before the clock reading. */
  lemma SampleAges(now: int)
    ensures Classify(Some(now - 45 * SecondMs), now) == JustNow
    ensures Classify(Some(now - 90 * MinuteMs), now) == HoursAgo(1)
    ensures Classify(Some(now - 25 * HourMs), now) == OneDayAgo
    ensures Classify(Some(now - 40 * DayMs), now) == Absolute(now - 40 * DayMs)
  {
  }
}
