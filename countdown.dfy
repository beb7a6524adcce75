/**
 * The countdown shown while a timer is armed (`timeRemainingFormatted`):
 * whole seconds split into hours, minutes and seconds. The text rendering
 * itself ("%d:%02d:%02d" or "%02d:%02d") is not modelled; the two shapes
 * are the two constructors.
 */
module Countdown {
  import opened Calendar

  datatype Countdown =
    | HoursMinutesSeconds(hours: nat, minutes: nat, seconds: nat)
    | MinutesSeconds(minutes: nat, seconds: nat)

  /** The number of seconds a countdown stands for. */
  function TotalSeconds(c: Countdown): nat {
    match c
    case HoursMinutesSeconds(h, m, s) => h * SecondsPerHour + m * SecondsPerMinute + s
    case MinutesSeconds(m, s) => m * SecondsPerMinute + s
  }

  /** The display form of `remaining` seconds. */
  function Format(remaining: nat): (c: Countdown)
    ensures TotalSeconds(c) == remaining
    ensures c.minutes < 60 && c.seconds < 60
    ensures c.HoursMinutesSeconds? <==> remaining >= SecondsPerHour
    ensures c.HoursMinutesSeconds? ==> c.hours > 0
  {
    SplitAdds(remaining);
    var hours := remaining / SecondsPerHour;
    var minutes := (remaining % SecondsPerHour) / SecondsPerMinute;
    var seconds := remaining % SecondsPerMinute;
    if hours > 0 then HoursMinutesSeconds(hours, minutes, seconds)
    else MinutesSeconds(minutes, seconds)
  }

  /** Any split of `remaining` with minutes and seconds below 60 is the one Format gives. */
  lemma FormatIsTheOnlySplit(remaining: nat, h: nat, m: nat, s: nat)
    requires m < 60 && s < 60
    requires h * SecondsPerHour + m * SecondsPerMinute + s == remaining
    ensures Format(remaining) == if h > 0 then HoursMinutesSeconds(h, m, s) else MinutesSeconds(m, s)
  {
    var rest := m * SecondsPerMinute + s;
    SplitBy3600(remaining, h, rest);
    SplitBy60(rest, m, s);
    SplitBy60(remaining, h * 60 + m, s);
  }

  /** The three parts add up to the whole. */
  lemma SplitAdds(n: nat)
    ensures n == (n / 3600) * 3600 + ((n % 3600) / 60) * 60 + n % 60
    ensures (n % 3600) / 60 < 60
  {
    var q, r := n / 3600, n % 3600;
    var mm, ss := r / 60, r % 60;
    assert r == mm * 60 + ss;
    SplitBy60(n, q * 60 + mm, ss);
  }

  lemma SplitBy3600(x: int, q: int, r: int)
    requires 0 <= r < 3600 && x == q * 3600 + r
    ensures x / 3600 == q && x % 3600 == r
  {
  }

  lemma SplitBy60(x: int, q: int, r: int)
    requires 0 <= r < 60 && x == q * 60 + r
    ensures x / 60 == q && x % 60 == r
  {
  }
}
