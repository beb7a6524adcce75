/**
 * The weekly schedule and the search for its next occurrence
 * (`DaySchedule`, `weeklySchedule` and `calculateNextScheduledDate`).
 */
module Schedule {
  import opened Optional
  import opened Calendar

  /** One weekday's entry. The hour and minute of a disabled day are kept but unused. */
  datatype DaySchedule = DaySchedule(isEnabled: bool, hour: int, minute: int)

  /** The entry every weekday starts with: disabled, 22:00. */
  const Disabled := DaySchedule(false, 22, 0)

  /** The search looks at today and the seven days after it. */
  const LookaheadDays := 8

  /** A candidate must lie strictly more than this many seconds after now. */
  const MinimumLead := 10

  /** The range the editing fields allow: 0..23 hours, 0..59 minutes. */
  predicate ValidDay(d: DaySchedule) {
    0 <= d.hour < 24 && 0 <= d.minute < 60
  }

  /** Every entry of a seven-day schedule is in range. */
  predicate ValidWeek(week: seq<DaySchedule>) {
    |week| == DaysPerWeek && forall i :: 0 <= i < |week| ==> ValidDay(week[i])
  }

  /** Offset of the entry's clock time from midnight. */
  function ClockSeconds(d: DaySchedule): int {
    d.hour * SecondsPerHour + d.minute * SecondsPerMinute
  }

  /** The schedule the view model starts with: seven disabled entries. */
  function DefaultWeek(): (week: seq<DaySchedule>)
    ensures |week| == DaysPerWeek
    ensures forall i :: 0 <= i < |week| ==> week[i] == Disabled
  {
    seq(DaysPerWeek, _ => Disabled)
  }

  /** The entry consulted for the day `offset` days after `now`'s day. */
  function EntryAt(now: int, week: seq<DaySchedule>, offset: nat): DaySchedule
    requires |week| == DaysPerWeek
  {
    week[(CurrentWeekday(HostWeekday(now)) + offset) % DaysPerWeek]
  }

  /**
   * The candidate for day `offset`: the date of now plus `offset` days,
   * at the entry's hour and minute, second 0.
   */
  function CandidateAt(now: int, d: DaySchedule, offset: nat): int {
    DayStart(now + offset * SecondsPerDay) + ClockSeconds(d)
  }

  /** The candidate of day `offset` under the schedule. */
  function Occurrence(now: int, week: seq<DaySchedule>, offset: nat): int
    requires |week| == DaysPerWeek
  {
    CandidateAt(now, EntryAt(now, week, offset), offset)
  }

  /** Day `offset` is enabled and its candidate is far enough in the future to be accepted. */
  predicate Qualifies(now: int, week: seq<DaySchedule>, offset: nat)
    requires |week| == DaysPerWeek
  {
    EntryAt(now, week, offset).isEnabled && Occurrence(now, week, offset) > now + MinimumLead
  }

  /** The search loop from day `offset` on: the first qualifying candidate, if any. */
  function SearchFrom(now: int, week: seq<DaySchedule>, offset: nat): (r: Option<int>)
    requires |week| == DaysPerWeek
    ensures r.Some? ==> r.value > now + MinimumLead
    decreases LookaheadDays - offset
  {
    if offset >= LookaheadDays then None
    else if Qualifies(now, week, offset) then Some(Occurrence(now, week, offset))
    else SearchFrom(now, week, offset + 1)
  }

  /** What `calculateNextScheduledDate` returns at moment `now`. */
  function NextOccurrence(now: int, week: seq<DaySchedule>): (r: Option<int>)
    requires |week| == DaysPerWeek
    ensures r.Some? ==> r.value > now + MinimumLead
  {
    SearchFrom(now, week, 0)
  }

  // ---------------------------------------------------------------------
  // The search returns the earliest qualifying day of the window.

  /** A result of the search from `from` is the candidate of its first qualifying day. */
  lemma {:induction false} SearchFromFindsFirst(now: int, week: seq<DaySchedule>, from: nat)
    requires |week| == DaysPerWeek
    requires from <= LookaheadDays
    ensures SearchFrom(now, week, from).None? <==>
              forall k :: from <= k < LookaheadDays ==> !Qualifies(now, week, k)
    ensures SearchFrom(now, week, from).Some? ==>
              exists k :: from <= k < LookaheadDays && Qualifies(now, week, k)
                && SearchFrom(now, week, from).value == Occurrence(now, week, k)
                && forall j :: from <= j < k ==> !Qualifies(now, week, j)
    decreases LookaheadDays - from
  {
    if from < LookaheadDays && !Qualifies(now, week, from) {
      SearchFromFindsFirst(now, week, from + 1);
      if SearchFrom(now, week, from).Some? {
        var k :| from + 1 <= k < LookaheadDays && Qualifies(now, week, k)
          && SearchFrom(now, week, from + 1).value == Occurrence(now, week, k)
          && forall j :: from + 1 <= j < k ==> !Qualifies(now, week, j);
        assert forall j :: from <= j < k ==> !Qualifies(now, week, j);
      }
    }
  }

  /** The search returns the candidate of the first qualifying day, and nothing if no day qualifies. */
  lemma NextOccurrenceIsFirstQualifying(now: int, week: seq<DaySchedule>)
    requires |week| == DaysPerWeek
    ensures NextOccurrence(now, week).None? <==>
              forall k :: 0 <= k < LookaheadDays ==> !Qualifies(now, week, k)
    ensures NextOccurrence(now, week).Some? ==>
              exists k :: 0 <= k < LookaheadDays && Qualifies(now, week, k)
                && NextOccurrence(now, week).value == Occurrence(now, week, k)
                && forall j :: 0 <= j < k ==> !Qualifies(now, week, j)
  {
    SearchFromFindsFirst(now, week, 0);
  }

  /** With every day disabled the search returns nothing, whatever `now` is. */
  lemma {:induction false} AllDisabledFindsNothing(now: int, week: seq<DaySchedule>)
    requires |week| == DaysPerWeek
    requires forall i :: 0 <= i < |week| ==> !week[i].isEnabled
    ensures NextOccurrence(now, week) == None
  {
    forall k | 0 <= k < LookaheadDays ensures !Qualifies(now, week, k) {
      assert !EntryAt(now, week, k).isEnabled;
    }
    NextOccurrenceIsFirstQualifying(now, week);
  }

  // ---------------------------------------------------------------------
  // The same result, described by the calendar alone.

  /** `t` is a moment the schedule names: its weekday is enabled and its clock time is that entry's. */
  predicate IsScheduled(week: seq<DaySchedule>, t: int)
    requires |week| == DaysPerWeek
  {
    week[DayIndex(t)].isEnabled && TimeOfDay(t) == ClockSeconds(week[DayIndex(t)])
  }

  /** `t` is an acceptable answer at `now`: scheduled, more than 10 s ahead, on today's date or one of the next seven. */
  predicate InWindow(now: int, week: seq<DaySchedule>, t: int)
    requires |week| == DaysPerWeek
  {
    IsScheduled(week, t) && t > now + MinimumLead
      && DayStart(t) <= DayStart(now) + (LookaheadDays - 1) * SecondsPerDay
  }

  /** For an in-range entry, the candidate of day `offset` lies on that day at that clock time. */
  lemma OccurrenceOnItsDay(now: int, week: seq<DaySchedule>, offset: nat)
    requires |week| == DaysPerWeek
    requires ValidDay(EntryAt(now, week, offset))
    ensures DayStart(Occurrence(now, week, offset)) == DayStart(now) + offset * SecondsPerDay
    ensures TimeOfDay(Occurrence(now, week, offset)) == ClockSeconds(EntryAt(now, week, offset))
    ensures DayIndex(Occurrence(now, week, offset)) == (CurrentWeekday(HostWeekday(now)) + offset) % DaysPerWeek
    ensures Occurrence(now, week, offset) % SecondsPerMinute == 0
  {
    var e := EntryAt(now, week, offset);
    var d := DayStart(now + offset * SecondsPerDay);
    var c := ClockSeconds(e);
    ShiftByDays(now, offset);
    WithinDay(d, c);
    DayStartQuotient(now + offset * SecondsPerDay);
    assert DayIndex(d + c) == DayIndex(now + offset * SecondsPerDay);
    DayIndexShift(now, offset);
    CurrentWeekdayOfMoment(now);
    WholeMinute(d, e.hour, e.minute);
  }

  /** A scheduled moment within the window is the candidate of its own day offset, which qualifies. */
  lemma ScheduledIsCandidate(now: int, week: seq<DaySchedule>, u: int) returns (k: nat)
    requires |week| == DaysPerWeek
    requires InWindow(now, week, u)
    ensures k < LookaheadDays && Qualifies(now, week, k) && Occurrence(now, week, k) == u
    ensures DayStart(u) == DayStart(now) + k * SecondsPerDay
  {
    var a, b := DayStart(now), DayStart(u);
    DivModUnique(a, a / SecondsPerDay, 0);
    DivModUnique(b, b / SecondsPerDay, 0);
    k := b / SecondsPerDay - a / SecondsPerDay;
    assert b == a + k * SecondsPerDay;
    ShiftByDays(now, k);
    ShiftByDays(a, k);
    WithinDay(a, TimeOfDay(now));
    DayIndexShift(a, k);
    CurrentWeekdayOfMoment(now);
    WithinDay(b, TimeOfDay(u));
    assert DayIndex(u) == DayIndex(b);
    assert DayIndex(b) == (DayIndex(now) + k) % DaysPerWeek;
    assert EntryAt(now, week, k) == week[DayIndex(u)];
  }

  /**
   * The result of the search, for a schedule whose entries are in range, is
   * exactly the earliest acceptable moment: scheduled, more than 10 s after
   * now, and on now's date or one of the seven after it. It is nothing
   * exactly when no such moment exists.
   */
  lemma NextOccurrenceIsEarliestInWindow(now: int, week: seq<DaySchedule>)
    requires ValidWeek(week)
    ensures NextOccurrence(now, week).Some? ==>
              InWindow(now, week, NextOccurrence(now, week).value)
              && NextOccurrence(now, week).value % SecondsPerMinute == 0
              && forall u :: InWindow(now, week, u) ==> NextOccurrence(now, week).value <= u
    ensures NextOccurrence(now, week).None? <==> forall u :: !InWindow(now, week, u)
  {
    NextOccurrenceIsFirstQualifying(now, week);
    if NextOccurrence(now, week).Some? {
      var t := NextOccurrence(now, week).value;
      var k :| 0 <= k < LookaheadDays && Qualifies(now, week, k) && t == Occurrence(now, week, k)
        && forall j :: 0 <= j < k ==> !Qualifies(now, week, j);
      OccurrenceOnItsDay(now, week, k);
      CurrentWeekdayOfMoment(now);
      assert week[DayIndex(t)] == EntryAt(now, week, k);
      assert InWindow(now, week, t);
      forall u | InWindow(now, week, u) ensures t <= u {
        var m := ScheduledIsCandidate(now, week, u);
        assert k <= m;
        if k < m {
          assert DayStart(t) + SecondsPerDay <= DayStart(u);
        }
      }
    } else {
      forall u ensures !InWindow(now, week, u) {
        if InWindow(now, week, u) {
          var m := ScheduledIsCandidate(now, week, u);
        }
      }
    }
  }

  /**
   * An enabled, in-range entry is always found unless `now` lies in the
   * last 10 seconds of its day.
   */
  lemma EnabledDayIsFound(now: int, week: seq<DaySchedule>, i: int)
    requires ValidWeek(week)
    requires 0 <= i < DaysPerWeek && week[i].isEnabled
    requires TimeOfDay(now) < SecondsPerDay - MinimumLead
    ensures NextOccurrence(now, week).Some?
  {
    var w0 := CurrentWeekday(HostWeekday(now));
    var k: nat := (i - w0 + DaysPerWeek) % DaysPerWeek;
    assert (w0 + k) % DaysPerWeek == i;
    assert (w0 + k + DaysPerWeek) % DaysPerWeek == i;
    OccurrenceOnItsDay(now, week, k);
    NextOccurrenceIsFirstQualifying(now, week);
    if k == 0 {
      if !Qualifies(now, week, 0) {
        OccurrenceOnItsDay(now, week, DaysPerWeek);
        assert Qualifies(now, week, DaysPerWeek);
      }
    } else {
      assert Qualifies(now, week, k);
    }
  }

  /**
   * The exception EnabledDayIsFound leaves open does happen: with only
   * Tuesday 00:00 enabled, at Monday 23:59:55 the one candidate in the
   * window is 5 s away and the window ends before the following Tuesday.
   */
  lemma MidnightOccurrenceMissed()
    ensures var week := DefaultWeek()[1 := DaySchedule(true, 0, 0)];
            var now := 4 * SecondsPerDay + 86395;
            DayIndex(now) == 0 && NextOccurrence(now, week) == None
  {
    var week := DefaultWeek()[1 := DaySchedule(true, 0, 0)];
    var now := 4 * SecondsPerDay + 86395;
    assert CurrentWeekday(HostWeekday(now)) == 0;
    forall k | 0 <= k < LookaheadDays ensures !Qualifies(now, week, k) {
      if k == 1 {
        assert Occurrence(now, week, 1) == 5 * SecondsPerDay by {
          ShiftByDays(now, 1);
        }
      } else {
        assert EntryAt(now, week, k) == week[k % DaysPerWeek];
      }
    }
    NextOccurrenceIsFirstQualifying(now, week);
  }
}
