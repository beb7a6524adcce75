/**
 * The host calendar, abstracted. A moment is an integer number of local
 * seconds since 1970-01-01 00:00:00 local time, which was a Thursday; every
 * day lasts exactly 86400 seconds (no daylight-saving shifts, no leap
 * seconds). Dafny's `/` and `%` floor for a positive divisor, so moments
 * before the epoch fall on the right day as well.
 */
module Calendar {
  const SecondsPerMinute := 60
  const SecondsPerHour := 3600
  const SecondsPerDay := 86400
  const DaysPerWeek := 7

  /** Midnight (00:00:00) of the local day that contains `t`. */
  function DayStart(t: int): (d: int)
    ensures d <= t < d + SecondsPerDay
    ensures d % SecondsPerDay == 0
  {
    t - t % SecondsPerDay
  }

  /** Seconds elapsed since midnight of `t`'s day. */
  function TimeOfDay(t: int): (s: int)
    ensures 0 <= s < SecondsPerDay
    ensures DayStart(t) + s == t
  {
    t % SecondsPerDay
  }

  /** The host's weekday numbering of `t`: 1 = Sunday, 2 = Monday, ..., 7 = Saturday. */
  function HostWeekday(t: int): (w: int)
    ensures 1 <= w <= 7
  {
    (t / SecondsPerDay + 4) % DaysPerWeek + 1
  }

  /** Monday-first weekday of `t` read off the calendar: 0 = Monday, ..., 6 = Sunday. */
  function DayIndex(t: int): (d: int)
    ensures 0 <= d < DaysPerWeek
  {
    (t / SecondsPerDay + 3) % DaysPerWeek
  }

  /** The view model's conversion from the host numbering to the Monday-first index. */
  function CurrentWeekday(hostWeekday: int): (d: int)
    requires 1 <= hostWeekday <= 7
    ensures 0 <= d < DaysPerWeek
  {
    (hostWeekday + 5) % DaysPerWeek
  }

  /** The inverse of CurrentWeekday: the host number of a Monday-first index. */
  function HostWeekdayOf(day: int): (w: int)
    requires 0 <= day < DaysPerWeek
    ensures 1 <= w <= 7
  {
    (day + 1) % DaysPerWeek + 1
  }

  /** Two moments fall in the same calendar minute. */
  predicate SameMinute(a: int, b: int) {
    a / SecondsPerMinute == b / SecondsPerMinute
  }

  /** Monday (host 2) becomes 0 and Sunday (host 1) becomes 6. */
  lemma CurrentWeekdayEndpoints()
    ensures CurrentWeekday(2) == 0 && CurrentWeekday(1) == 6
  {
  }

  /** CurrentWeekday is a bijection from 1..7 onto 0..6, with HostWeekdayOf as its inverse. */
  lemma CurrentWeekdayBijective()
    ensures forall w :: 1 <= w <= 7 ==> HostWeekdayOf(CurrentWeekday(w)) == w
    ensures forall d :: 0 <= d < DaysPerWeek ==> CurrentWeekday(HostWeekdayOf(d)) == d
    ensures forall w, v :: 1 <= w <= 7 && 1 <= v <= 7 && CurrentWeekday(w) == CurrentWeekday(v) ==> w == v
  {
  }

  /** Converting the host weekday of `t` gives the Monday-first weekday of `t`. */
  lemma CurrentWeekdayOfMoment(t: int)
    ensures CurrentWeekday(HostWeekday(t)) == DayIndex(t)
  {
  }

  /** Moving `k` whole days ahead moves midnight by `k` days and the weekday by `k`. */
  lemma ShiftByDays(t: int, k: int)
    ensures DayStart(t + k * SecondsPerDay) == DayStart(t) + k * SecondsPerDay
    ensures (t + k * SecondsPerDay) / SecondsPerDay == t / SecondsPerDay + k
  {
    var q, r := t / SecondsPerDay, t % SecondsPerDay;
    assert t + k * SecondsPerDay == (q + k) * SecondsPerDay + r;
    DivModUnique(t + k * SecondsPerDay, q + k, r);
  }

  /** A midnight plus a time of day within that day lies on that day. */
  lemma WithinDay(d: int, s: int)
    requires d % SecondsPerDay == 0
    requires 0 <= s < SecondsPerDay
    ensures DayStart(d + s) == d
    ensures TimeOfDay(d + s) == s
    ensures (d + s) / SecondsPerDay == d / SecondsPerDay
  {
    var q := d / SecondsPerDay;
    assert d == q * SecondsPerDay;
    DivModUnique(d + s, q, s);
  }

  /** Midnight of `t` has the same day number as `t`. */
  lemma DayStartQuotient(t: int)
    ensures DayStart(t) / SecondsPerDay == t / SecondsPerDay
  {
    DivModUnique(t, t / SecondsPerDay, t % SecondsPerDay);
    DivModUnique(DayStart(t), t / SecondsPerDay, 0);
  }

  /** A midnight plus whole hours and minutes is a whole minute. */
  lemma WholeMinute(d: int, h: int, m: int)
    requires d % SecondsPerDay == 0
    ensures (d + h * SecondsPerHour + m * SecondsPerMinute) % SecondsPerMinute == 0
  {
    var q := d / SecondsPerDay;
    assert d == q * SecondsPerDay;
    var n := q * 1440 + h * 60 + m;
    assert d + h * SecondsPerHour + m * SecondsPerMinute == n * SecondsPerMinute;
  }

  /** Euclidean division by a day is determined by quotient and remainder. */
  lemma DivModUnique(x: int, q: int, r: int)
    requires 0 <= r < SecondsPerDay
    requires x == q * SecondsPerDay + r
    ensures x / SecondsPerDay == q && x % SecondsPerDay == r
  {
  }

  /** The weekday moves by `k` (modulo a week) when a moment moves by `k` days. */
  lemma DayIndexShift(t: int, k: nat)
    ensures DayIndex(t + k * SecondsPerDay) == (DayIndex(t) + k) % DaysPerWeek
  {
    ShiftByDays(t, k);
    var n := t / SecondsPerDay;
    assert DayIndex(t + k * SecondsPerDay) == (n + k + 3) % 7;
    var r := (n + 3) % 7;
    assert n + 3 == 7 * ((n + 3) / 7) + r;
    assert n + k + 3 == 7 * ((n + 3) / 7) + (r + k);
    ModShift(n + k + 3, (n + 3) / 7, r + k);
  }

  lemma ModShift(x: int, q: int, y: int)
    requires y >= 0
    requires x == 7 * q + y
    ensures x % 7 == y % 7
  {
    var p := y / 7;
    assert y == 7 * p + y % 7;
    assert x == 7 * (q + p) + y % 7;
  }
}
