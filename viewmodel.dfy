/**
 * The view model object: the fields the scheduling engine keeps and the
 * operations that change them step by step. Every operation is proved to
 * perform the corresponding function of TriggerEngine on the fields taken
 * together, so the properties proved there hold of the object. Moments are
 * passed in as `now` instead of being read from the clock.
 */
module ViewModel {
  import opened Optional
  import opened Calendar
  import opened Schedule
  import opened Countdown
  import TriggerEngine

  class SleepTimerViewModel {
    // Weekly schedule, index 0 = Monday ... 6 = Sunday
    var weeklySchedule: seq<DaySchedule>
    var isTimerActive: bool
    var timeRemaining: int
    var targetDate: Option<int>
    var hasShownWarning: bool
    // the occurrence that fired last, to prevent double triggering
    var lastTriggeredDate: Option<int>
    // deferred re-arm blocks queued by executeSleep and not yet run
    var pendingRearms: nat

    /** The fields taken together. */
    function Snapshot(): TriggerEngine.State
      reads this
    {
      TriggerEngine.State(weeklySchedule, isTimerActive, timeRemaining, targetDate,
                          hasShownWarning, lastTriggeredDate, pendingRearms)
    }

    predicate Valid()
      reads this
    {
      TriggerEngine.Valid(Snapshot())
    }

    /** `init`: defaults, then the stored schedule if it has seven entries, then scheduling. */
    constructor (stored: Option<seq<DaySchedule>>, now: int)
      ensures Valid() && Snapshot() == TriggerEngine.Init(stored, now)
    {
      weeklySchedule := DefaultWeek();
      isTimerActive := false;
      timeRemaining := 0;
      targetDate := None;
      hasShownWarning := false;
      lastTriggeredDate := None;
      pendingRearms := 0;
      new;
      LoadSchedule(stored, now);
      ScheduleNextTimer(now);
    }

    /** `timeRemainingFormatted`: the countdown in hours, minutes and seconds. */
    function TimeRemainingFormatted(): (c: Countdown)
      reads this
      requires Valid()
      ensures TotalSeconds(c) == timeRemaining && c.minutes < 60 && c.seconds < 60
      ensures c.HoursMinutesSeconds? <==> timeRemaining >= SecondsPerHour
    {
      Format(timeRemaining)
    }

    /** `saveSchedule`, without the storage: reschedule when no timer is active. */
    method SaveSchedule(now: int)
      requires Valid()
      modifies this
      ensures Valid() && Snapshot() == TriggerEngine.SaveSchedule(old(Snapshot()), now)
    {
      if !isTimerActive {
        ScheduleNextTimer(now);
      }
    }

    /** `loadSchedule`, given what storage decoded (None when nothing could be decoded). */
    method LoadSchedule(stored: Option<seq<DaySchedule>>, now: int)
      requires Valid()
      modifies this
      ensures Valid() && Snapshot() == TriggerEngine.LoadSchedule(old(Snapshot()), stored, now)
    {
      if stored.Some? && |stored.value| == DaysPerWeek {
        weeklySchedule := stored.value;
        SaveSchedule(now);
      }
    }

    /** An edit of one weekday's entry through the schedule binding; the property observer saves. */
    method SetDay(index: int, day: DaySchedule, now: int)
      requires Valid() && 0 <= index < DaysPerWeek
      modifies this
      ensures Valid() && Snapshot() == TriggerEngine.SetDay(old(Snapshot()), index, day, now)
    {
      weeklySchedule := weeklySchedule[index := day];
      SaveSchedule(now);
    }

    /** `calculateNextScheduledDate`: today and the next seven days, first acceptable candidate. */
    method CalculateNextScheduledDate(now: int) returns (next: Option<int>)
      requires Valid()
      ensures next == NextOccurrence(now, weeklySchedule)
    {
      for dayOffset := 0 to LookaheadDays
        invariant SearchFrom(now, weeklySchedule, dayOffset) == NextOccurrence(now, weeklySchedule)
      {
        var checkDate := now + dayOffset * SecondsPerDay;
        var weekday := (CurrentWeekday(HostWeekday(now)) + dayOffset) % DaysPerWeek;
        var schedule := weeklySchedule[weekday];
        if !schedule.isEnabled {
          continue;
        }
        var scheduledDate := DayStart(checkDate) + schedule.hour * SecondsPerHour
                             + schedule.minute * SecondsPerMinute;
        if scheduledDate > now + MinimumLead {
          return Some(scheduledDate);
        }
      }
      return None;
    }

    /** `scheduleNextTimer`, with the double-trigger guard at minute granularity. */
    method ScheduleNextTimer(now: int)
      requires Valid()
      modifies this
      ensures Valid() && Snapshot() == TriggerEngine.ScheduleNextTimer(old(Snapshot()), now)
    {
      var nextDate := CalculateNextScheduledDate(now);
      if nextDate.None? {
        return;
      }
      if lastTriggeredDate.Some? && SameMinute(lastTriggeredDate.value, nextDate.value) {
        return;
      }
      StartTimer(nextDate.value, now);
    }

    /** `startTimer`. */
    method StartTimer(target: int, now: int)
      requires Valid()
      modifies this
      ensures Valid() && Snapshot() == TriggerEngine.StartTimer(old(Snapshot()), target, now)
    {
      targetDate := Some(target);
      hasShownWarning := false;
      isTimerActive := true;
      UpdateTimeRemaining(now);
    }

    /** `cancelTimer`. */
    method CancelTimer()
      requires Valid()
      modifies this
      ensures Valid() && Snapshot() == TriggerEngine.CancelTimer(old(Snapshot()))
    {
      targetDate := None;
      isTimerActive := false;
      timeRemaining := 0;
      hasShownWarning := false;
    }

    /** `snooze`. */
    method Snooze(now: int)
      requires Valid()
      modifies this
      ensures Valid() && Snapshot() == TriggerEngine.Snooze(old(Snapshot()), now)
    {
      if targetDate.None? {
        return;
      }
      var current := targetDate.value;
      targetDate := Some(current + TriggerEngine.SnoozeSeconds);
      hasShownWarning := false;
      UpdateTimeRemaining(now);
    }

    /** `tick`, one call of the repeating timer's block; returns what to ask of the host. */
    method Tick(now: int) returns (intent: TriggerEngine.Intent)
      requires Valid()
      modifies this
      ensures Valid()
      ensures Snapshot() == TriggerEngine.Tick(old(Snapshot()), now).state
      ensures intent == TriggerEngine.Tick(old(Snapshot()), now).intent
    {
      UpdateTimeRemaining(now);
      if !(timeRemaining > 0) {
        ExecuteSleep();
        return TriggerEngine.SleepNow;
      }
      if timeRemaining <= TriggerEngine.WarningLead && !hasShownWarning {
        hasShownWarning := true;
        return TriggerEngine.ShowWarning;
      }
      return TriggerEngine.Nothing;
    }

    /** `updateTimeRemaining`. */
    method UpdateTimeRemaining(now: int)
      requires Valid()
      modifies this
      ensures Valid() && Snapshot() == TriggerEngine.UpdateTimeRemaining(old(Snapshot()), now)
    {
      if targetDate.None? {
        timeRemaining := 0;
        return;
      }
      var left := targetDate.value - now;
      timeRemaining := if left > 0 then left else 0;
    }

    /** The state part of `executeSleep`; the sleep command itself is the caller's intent. */
    method ExecuteSleep()
      requires Valid()
      modifies this
      ensures Valid() && Snapshot() == TriggerEngine.ExecuteSleep(old(Snapshot()))
    {
      lastTriggeredDate := targetDate;
      CancelTimer();
      pendingRearms := pendingRearms + 1;
    }

    /** A deferred re-arm block queued by ExecuteSleep runs. */
    method Rearm(now: int)
      requires Valid() && pendingRearms > 0
      modifies this
      ensures Valid() && Snapshot() == TriggerEngine.Rearm(old(Snapshot()), now)
    {
      pendingRearms := pendingRearms - 1;
      ScheduleNextTimer(now);
    }
  }
}
