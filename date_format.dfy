/** `formatRelativeTime` of `src/utils/dateFormat.ts` over integer millisecond timestamps,
    with the current time as a parameter. Every `Math.floor(x / n)` there has a
    positive divisor `n`, so it is Dafny's `x / n` also for negative `x`. */
module DateFormat {
  import opened JsStrings

  datatype TimeUnit = Second | Minute | Hour | Day | Week | Month | Year

  /** The bucket a time difference falls in: "just now", or a count of units. */
  datatype RelativeTime = JustNow | Ago(count: nat, unit: TimeUnit)

  const MsPerSecond := 1000
  const SecondsPerDay := 86400

  /** The chain of floor divisions and thresholds. */
  function Classify(elapsedMs: int): RelativeTime {
    var diffInSeconds := elapsedMs / MsPerSecond;
    if diffInSeconds < 60 then
      if diffInSeconds <= 1 then JustNow else Ago(diffInSeconds, Second)
    else
      var diffInMinutes := diffInSeconds / 60;
      if diffInMinutes < 60 then Ago(diffInMinutes, Minute)
      else
        var diffInHours := diffInMinutes / 60;
        if diffInHours < 24 then Ago(diffInHours, Hour)
        else
          var diffInDays := diffInHours / 24;
          if diffInDays < 7 then Ago(diffInDays, Day)
          else
            var diffInWeeks := diffInDays / 7;
            if diffInWeeks < 4 then Ago(diffInWeeks, Week)
            else
              var diffInMonths := diffInDays / 30;
              if diffInMonths < 12 then Ago(diffInMonths, Month)
              else Ago(diffInDays / 365, Year)
  }

  function Singular(u: TimeUnit): string {
    match u
    case Second => "second"
    case Minute => "minute"
    case Hour => "hour"
    case Day => "day"
    case Week => "week"
    case Month => "month"
    case Year => "year"
  }

  /** The text of a bucket: the singular form for a count of exactly 1. */
  function Render(r: RelativeTime): string {
    match r
    case JustNow => "just now"
    case Ago(n, u) => if n == 1 then "1 " + Singular(u) + " ago" else NatToString(n) + " " + Singular(u) + "s ago"
  }

  /** `formatRelativeTime(past)` evaluated at time `now`. */
  function FormatRelativeTime(now: int, past: int): string {
    Render(Classify(now - past))
  }

  /** Whole days in a number of whole seconds, as the chain of divisions computes them. */
  lemma DaysOfSeconds(s: int)
    ensures s / 60 / 60 / 24 == s / SecondsPerDay
    ensures s / 60 / 60 == s / 3600
  {
  }

  /** The buckets in terms of the elapsed whole seconds `s` and whole days `d`: the
      thresholds fall at one minute, one hour, one day, one week, 28 days and 360 days. */
  lemma ClassifyBuckets(elapsedMs: int)
    ensures var s := elapsedMs / MsPerSecond;
            var d := s / SecondsPerDay;
            && (s <= 1 ==> Classify(elapsedMs) == JustNow)
            && (2 <= s < 60 ==> Classify(elapsedMs) == Ago(s, Second))
            && (60 <= s < 3600 ==> Classify(elapsedMs) == Ago(s / 60, Minute))
            && (3600 <= s < SecondsPerDay ==> Classify(elapsedMs) == Ago(s / 3600, Hour))
            && (1 <= d < 7 ==> Classify(elapsedMs) == Ago(d, Day))
            && (7 <= d < 28 ==> Classify(elapsedMs) == Ago(d / 7, Week))
            && (28 <= d < 360 ==> Classify(elapsedMs) == Ago(d / 30, Month))
            && (360 <= d ==> Classify(elapsedMs) == Ago(d / 365, Year))
  {
    DaysOfSeconds(elapsedMs / MsPerSecond);
  }

  /** Any difference under two seconds, a negative one included, reads "just now". */
  lemma JustNowBelowTwoSeconds(now: int, past: int)
    requires now - past < 2000
    ensures FormatRelativeTime(now, past) == "just now"
  {
  }

  /** Between two seconds and a minute the text is the count of seconds. */
  lemma SecondsText(now: int, past: int)
    requires 2000 <= now - past < 60000
    ensures FormatRelativeTime(now, past) == NatToString((now - past) / 1000) + " seconds ago"
  {
  }

  /** A difference of one whole minute reads "1 minute ago". */
  lemma OneMinute(now: int, past: int)
    requires 60000 <= now - past < 120000
    ensures FormatRelativeTime(now, past) == "1 minute ago"
  {
  }

  /** Exactly one whole hour, one whole day or one whole week takes the singular form. */
  lemma SingularUnits(now: int, past: int)
    ensures 3600000 <= now - past < 7200000 ==> FormatRelativeTime(now, past) == "1 hour ago"
    ensures 86400000 <= now - past < 172800000 ==> FormatRelativeTime(now, past) == "1 day ago"
    ensures 604800000 <= now - past < 1209600000 ==> FormatRelativeTime(now, past) == "1 week ago"
  {
    ClassifyBuckets(now - past);
  }

  /** Four weeks are too many for weeks but too few for one month of 30 days: 28 and 29
      days read "0 months ago". */
  lemma ZeroMonths(now: int, past: int)
    requires 28 * 86400000 <= now - past < 30 * 86400000
    ensures FormatRelativeTime(now, past) == "0 months ago"
  {
    ClassifyBuckets(now - past);
    assert NatToString(0) == "0";
  }

  /** Twelve months of 30 days are too many for months but too few for one year of 365
      days: 360 to 364 days read "0 years ago". */
  lemma ZeroYears(now: int, past: int)
    requires 360 * 86400000 <= now - past < 365 * 86400000
    ensures FormatRelativeTime(now, past) == "0 years ago"
  {
    ClassifyBuckets(now - past);
    assert NatToString(0) == "0";
  }

  /** The position of a bucket's unit, from "just now" up to years. */
  function Rank(r: RelativeTime): nat {
    match r
    case JustNow => 0
    case Ago(_, u) =>
      match u
      case Second => 1
      case Minute => 2
      case Hour => 3
      case Day => 4
      case Week => 5
      case Month => 6
      case Year => 7
  }

  /** A longer time never gets a smaller unit. */
  lemma UnitMonotone(e1: int, e2: int)
    requires e1 <= e2
    ensures Rank(Classify(e1)) <= Rank(Classify(e2))
  {
    ClassifyBuckets(e1);
    ClassifyBuckets(e2);
    var s1, s2 := e1 / MsPerSecond, e2 / MsPerSecond;
    assert s1 <= s2;
    if s1 >= 0 {
      assert s1 / SecondsPerDay <= s2 / SecondsPerDay;
    }
  }
}
