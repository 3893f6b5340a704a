/**
  `format_time_ago`: the age of a timestamp as a short phrase. The age is
  taken in the normal form of a time difference: a whole number of days
  (negative for a timestamp in the future) and a number of seconds in
  0..86399.
 */
module TimeAgo {
  import opened Seqs

  predicate IsDigit(c: char) {
    '0' <= c <= '9'
  }

  predicate AllDigits(s: string) {
    forall i :: 0 <= i < |s| ==> IsDigit(s[i])
  }

  function DigitChar(d: nat): (c: char)
    requires d < 10
    ensures IsDigit(c)
  {
    ('0' as int + d) as char
  }

  /** The decimal numeral of `n` without leading zeros, as `str` writes it. */
  function NatToString(n: nat): (r: string)
    ensures |r| >= 1
    ensures AllDigits(r)
  {
    if n < 10 then [DigitChar(n)] else NatToString(n / 10) + [DigitChar(n % 10)]
  }

  /** The number a string of decimal digits denotes. */
  function DigitsValue(s: string): nat
    requires AllDigits(s)
  {
    if |s| == 0 then 0
    else DigitsValue(s[..|s| - 1]) * 10 + (s[|s| - 1] as int - '0' as int)
  }

  /** Reading a numeral back gives the number written. */
  lemma {:induction false} DigitsRoundTrip(n: nat)
    ensures DigitsValue(NatToString(n)) == n
  {
    if n >= 10 {
      var s := NatToString(n);
      assert s[..|s| - 1] == NatToString(n / 10);
      DigitsRoundTrip(n / 10);
    }
  }

  /** The four phrase forms. */
  datatype Ago = DaysAgo(days: nat) | HoursAgo(hours: nat) | MinutesAgo(minutes: nat) | JustNow

  function Render(a: Ago): string {
    match a
    case DaysAgo(n) => NatToString(n) + "d ago"
    case HoursAgo(n) => NatToString(n) + "h ago"
    case MinutesAgo(n) => NatToString(n) + "m ago"
    case JustNow => "Just now"
  }

  /** Reads a phrase back into its form and count; None for any other string. */
  function Parse(s: string): Option<Ago> {
    if s == "Just now" then Some(JustNow)
    else if |s| >= 6 && s[|s| - 4..] == " ago" && AllDigits(s[..|s| - 5]) then
      var n := DigitsValue(s[..|s| - 5]);
      var unit := s[|s| - 5];
      if unit == 'd' then Some(DaysAgo(n))
      else if unit == 'h' then Some(HoursAgo(n))
      else if unit == 'm' then Some(MinutesAgo(n))
      else None
    else None
  }

  /** Every phrase reads back as the form and count it was written from. */
  lemma ParseRender(a: Ago)
    ensures Parse(Render(a)) == Some(a)
  {
    if !a.JustNow? {
      var n := match a
        case DaysAgo(d) => d
        case HoursAgo(h) => h
        case MinutesAgo(m) => m;
      var digits := NatToString(n);
      var s := Render(a);
      assert s[..|s| - 5] == digits;
      assert s[|s| - 4..] == " ago";
      assert s[|s| - 1] == 'o';
      assert s != "Just now";
      DigitsRoundTrip(n);
    }
  }

  /**
    The phrase for an age of `days` days and `seconds` seconds. Whole days
    win whatever the seconds; otherwise more than an hour gives hours (1..23),
    more than a minute gives minutes (1..60, so exactly an hour is "60m
    ago"), and at most a minute is "Just now". A timestamp in the future
    never gives days.
   */
  function FormatTimeAgo(days: int, seconds: int): (r: string)
    requires 0 <= seconds < 86400
    ensures Parse(r).Some? && r == Render(Parse(r).value)
    ensures Parse(r).value.DaysAgo? <==> days > 0
    ensures days > 0 ==> Parse(r) == Some(DaysAgo(days))
    ensures days <= 0 && seconds > 3600
            ==> Parse(r) == Some(HoursAgo(seconds / 3600)) && 1 <= seconds / 3600 <= 23
    ensures days <= 0 && 60 < seconds <= 3600
            ==> Parse(r) == Some(MinutesAgo(seconds / 60)) && 1 <= seconds / 60 <= 60
    ensures days <= 0 && seconds <= 60 <==> r == "Just now"
  {
    if days > 0 then
      ParseRender(DaysAgo(days));
      NatToString(days) + "d ago"
    else if seconds > 3600 then
      ParseRender(HoursAgo(seconds / 3600));
      NatToString(seconds / 3600) + "h ago"
    else if seconds > 60 then
      ParseRender(MinutesAgo(seconds / 60));
      NatToString(seconds / 60) + "m ago"
    else
      "Just now"
  }

  /** Exactly one hour, and exactly one minute, sit on the lower side of their thresholds. */
  lemma Boundaries(days: int)
    requires days <= 0
    ensures FormatTimeAgo(days, 3600) == "60m ago"
    ensures FormatTimeAgo(days, 60) == "Just now"
    ensures FormatTimeAgo(days, 3601) == "1h ago"
  {
    assert NatToString(6) == "6";
    assert NatToString(60) == "60";
    assert NatToString(1) == "1";
  }

  /**
    A timestamp one second in the future is a difference of -1 days and
    86399 seconds, which the branches above report as almost a day old.
   */
  lemma FutureSecondReadsAsHours()
    ensures FormatTimeAgo(-1, 86399) == "23h ago"
  {
    assert NatToString(2) == "2";
    assert NatToString(23) == "23";
  }

  /**
    The phrase with ages in the future treated as "Just now"; for ages that
    are not in the future it is the phrase above.
   */
  function FormatTimeAgoClamped(days: int, seconds: int): (r: string)
    requires 0 <= seconds < 86400
    ensures days < 0 ==> r == "Just now"
    ensures days >= 0 ==> r == FormatTimeAgo(days, seconds)
    ensures r == "Just now" <==> days < 0 || (days == 0 && seconds <= 60)
  {
    if days < 0 then "Just now" else FormatTimeAgo(days, seconds)
  }
}
