/**
 * The trigger state machine of the view model, as functions on a record
 * that holds exactly the fields the view model changes. Each function is
 * one of the view model's operations; the class in module ViewModel is
 * proved to perform them. The host's effects (the one-minute warning
 * notification, the "sleep now" command) are returned as intents.
 */
module TriggerEngine {
  import opened Optional
  import opened Calendar
  import opened Schedule

  /** `snooze` moves the target by five minutes. */
  const SnoozeSeconds := 5 * 60

  /** The warning is due once at most this many seconds remain. */
  const WarningLead := 60

  datatype State = State(
    weeklySchedule: seq<DaySchedule>,
    isTimerActive: bool,
    timeRemaining: int,
    targetDate: Option<int>,
    hasShownWarning: bool,
    lastTriggeredDate: Option<int>,
    // deferred re-arms (the two-second `asyncAfter` blocks) still to run
    pendingRearms: nat)

  /** What a step asks the host to do. */
  datatype Intent = Nothing | ShowWarning | SleepNow

  datatype Step = Step(state: State, intent: Intent)

  /**
   * The invariant every operation keeps: seven entries, a remaining time
   * that is never negative, and a timer that is active exactly when it has
   * a target.
   */
  predicate Valid(s: State) {
    |s.weeklySchedule| == DaysPerWeek && s.timeRemaining >= 0
      && s.isTimerActive == s.targetDate.Some?
  }

  /** The fields as the view model initialises them. */
  const Initial := State(DefaultWeek(), false, 0, None, false, None, 0)

  /** Seconds left until `target` at `now`: `max(0, target - now)`, and 0 without a target. */
  function Remaining(target: Option<int>, now: int): (r: int)
    ensures r >= 0
    ensures target.None? ==> r == 0
    ensures target.Some? ==> r >= target.value - now && (r == 0 || r == target.value - now)
  {
    match target
    case None => 0
    case Some(t) => if t - now > 0 then t - now else 0
  }

  /** `updateTimeRemaining`. */
  function UpdateTimeRemaining(s: State, now: int): (r: State)
    requires Valid(s)
    ensures Valid(r) && r.timeRemaining == Remaining(s.targetDate, now)
    ensures r.(timeRemaining := s.timeRemaining) == s
  {
    s.(timeRemaining := Remaining(s.targetDate, now))
  }

  /** `startTimer`: arm for `target` with a fresh warning. */
  function StartTimer(s: State, target: int, now: int): (r: State)
    requires Valid(s)
    ensures Valid(r) && r.isTimerActive && r.targetDate == Some(target) && !r.hasShownWarning
    ensures r.timeRemaining == Remaining(Some(target), now)
    ensures r.weeklySchedule == s.weeklySchedule && r.lastTriggeredDate == s.lastTriggeredDate
    ensures r.pendingRearms == s.pendingRearms
  {
    UpdateTimeRemaining(s.(targetDate := Some(target), hasShownWarning := false, isTimerActive := true), now)
  }

  /** `cancelTimer`: back to idle; the last-fired marker is left alone. */
  function CancelTimer(s: State): (r: State)
    requires Valid(s)
    ensures Valid(r) && !r.isTimerActive && r.targetDate == None && r.timeRemaining == 0
    ensures !r.hasShownWarning
    ensures r.lastTriggeredDate == s.lastTriggeredDate && r.weeklySchedule == s.weeklySchedule
    ensures r.pendingRearms == s.pendingRearms
  {
    s.(targetDate := None, isTimerActive := false, timeRemaining := 0, hasShownWarning := false)
  }

  /** `snooze`: five more minutes and a warning that may show again; nothing without a target. */
  function Snooze(s: State, now: int): (r: State)
    requires Valid(s)
    ensures Valid(r)
    ensures s.targetDate.None? ==> r == s
    ensures s.targetDate.Some? ==>
              r.targetDate == Some(s.targetDate.value + SnoozeSeconds) && !r.hasShownWarning
              && r.isTimerActive && r.timeRemaining == Remaining(r.targetDate, now)
              && r.weeklySchedule == s.weeklySchedule && r.lastTriggeredDate == s.lastTriggeredDate
              && r.pendingRearms == s.pendingRearms
  {
    match s.targetDate
    case None => s
    case Some(current) =>
      UpdateTimeRemaining(s.(targetDate := Some(current + SnoozeSeconds), hasShownWarning := false), now)
  }

  /**
   * The state part of `executeSleep`: remember the target as the last
   * fired occurrence, cancel, and queue one deferred re-arm.
   */
  function ExecuteSleep(s: State): (r: State)
    requires Valid(s)
    ensures Valid(r) && r.lastTriggeredDate == s.targetDate
    ensures !r.isTimerActive && r.targetDate == None && r.timeRemaining == 0 && !r.hasShownWarning
    ensures r.pendingRearms == s.pendingRearms + 1 && r.weeklySchedule == s.weeklySchedule
  {
    var c := CancelTimer(s.(lastTriggeredDate := s.targetDate));
    c.(pendingRearms := c.pendingRearms + 1)
  }

  /**
   * `tick`: refresh the remaining time; at zero execute the sleep,
   * otherwise show the warning if at most a minute is left and it has not
   * been shown. There is no check for a missing target: a tick without one
   * finds zero seconds left and also executes the sleep.
   */
  function Tick(s: State, now: int): (r: Step)
    requires Valid(s)
    ensures Valid(r.state)
    ensures r.intent == SleepNow <==> Remaining(s.targetDate, now) == 0
    ensures r.intent == SleepNow ==> r.state == ExecuteSleep(s)
    ensures r.intent == ShowWarning <==>
              0 < Remaining(s.targetDate, now) <= WarningLead && !s.hasShownWarning
    ensures r.intent != SleepNow ==>
              r.state == s.(timeRemaining := Remaining(s.targetDate, now),
                            hasShownWarning := s.hasShownWarning || r.intent == ShowWarning)
  {
    var u := UpdateTimeRemaining(s, now);
    if !(u.timeRemaining > 0) then Step(ExecuteSleep(u), SleepNow)
    else if u.timeRemaining <= WarningLead && !u.hasShownWarning then Step(u.(hasShownWarning := true), ShowWarning)
    else Step(u, Nothing)
  }

  /** The double-trigger guard: `next` lies in the same minute as the last fired occurrence. */
  predicate Suppressed(s: State, next: int) {
    s.lastTriggeredDate.Some? && SameMinute(s.lastTriggeredDate.value, next)
  }

  /**
   * `scheduleNextTimer`: arm for the next occurrence unless there is none
   * or it is the occurrence that fired last; otherwise leave everything as
   * it is. It does not look at whether a timer is already armed.
   */
  function ScheduleNextTimer(s: State, now: int): (r: State)
    requires Valid(s)
    ensures Valid(r)
    ensures NextOccurrence(now, s.weeklySchedule).None? ==> r == s
    ensures NextOccurrence(now, s.weeklySchedule).Some? ==>
              var next := NextOccurrence(now, s.weeklySchedule).value;
              if Suppressed(s, next) then r == s
              else r.isTimerActive && r.targetDate == Some(next) && !r.hasShownWarning
                   && r.timeRemaining == Remaining(Some(next), now)
                   && r.weeklySchedule == s.weeklySchedule && r.lastTriggeredDate == s.lastTriggeredDate
                   && r.pendingRearms == s.pendingRearms
  {
    match NextOccurrence(now, s.weeklySchedule)
    case None => s
    case Some(next) => if Suppressed(s, next) then s else StartTimer(s, next, now)
  }

  /** The deferred block queued by `executeSleep` runs: one pending re-arm is used up. */
  function Rearm(s: State, now: int): (r: State)
    requires Valid(s) && s.pendingRearms > 0
    ensures Valid(r) && r.pendingRearms == s.pendingRearms - 1
    ensures r.lastTriggeredDate == s.lastTriggeredDate && r.weeklySchedule == s.weeklySchedule
    ensures r == ScheduleNextTimer(s.(pendingRearms := s.pendingRearms - 1), now)
  {
    ScheduleNextTimer(s.(pendingRearms := s.pendingRearms - 1), now)
  }

  /** `saveSchedule`'s rule (storage left out): reschedule only when no timer is active. */
  function SaveSchedule(s: State, now: int): (r: State)
    requires Valid(s)
    ensures Valid(r)
    ensures s.isTimerActive ==> r == s
    ensures !s.isTimerActive ==> r == ScheduleNextTimer(s, now)
  {
    if !s.isTimerActive then ScheduleNextTimer(s, now) else s
  }

  /** An edit of one weekday's entry; the property observer then saves. */
  function SetDay(s: State, index: int, day: DaySchedule, now: int): (r: State)
    requires Valid(s) && 0 <= index < DaysPerWeek
    ensures Valid(r) && r.weeklySchedule == s.weeklySchedule[index := day]
    ensures s.isTimerActive ==> r == s.(weeklySchedule := s.weeklySchedule[index := day])
    ensures !s.isTimerActive ==> r == ScheduleNextTimer(s.(weeklySchedule := s.weeklySchedule[index := day]), now)
    ensures r.lastTriggeredDate == s.lastTriggeredDate && r.pendingRearms == s.pendingRearms
  {
    SaveSchedule(s.(weeklySchedule := s.weeklySchedule[index := day]), now)
  }

  /** `loadSchedule`: a stored schedule replaces the current one only if it has seven entries. */
  function LoadSchedule(s: State, stored: Option<seq<DaySchedule>>, now: int): (r: State)
    requires Valid(s)
    ensures Valid(r)
    ensures stored.Some? && |stored.value| == DaysPerWeek ==>
              r == SaveSchedule(s.(weeklySchedule := stored.value), now)
    ensures !(stored.Some? && |stored.value| == DaysPerWeek) ==> r == s
  {
    if stored.Some? && |stored.value| == DaysPerWeek
    then SaveSchedule(s.(weeklySchedule := stored.value), now)
    else s
  }

  /** `init`: load the stored schedule, then schedule the next timer. */
  function Init(stored: Option<seq<DaySchedule>>, now: int): (r: State)
    ensures Valid(r) && r.lastTriggeredDate == None && r.pendingRearms == 0
    ensures stored.Some? && |stored.value| == DaysPerWeek ==> r.weeklySchedule == stored.value
    ensures !(stored.Some? && |stored.value| == DaysPerWeek) ==> r.weeklySchedule == DefaultWeek()
    ensures r.targetDate == NextOccurrence(now, r.weeklySchedule) && r.isTimerActive == r.targetDate.Some?
    ensures !r.hasShownWarning && r.timeRemaining == Remaining(r.targetDate, now)
  {
    ScheduleNextTimer(LoadSchedule(Initial, stored, now), now)
  }

  // ---------------------------------------------------------------------
  // Properties of the state machine.

  /** Scheduling twice at the same moment arms the same timer as scheduling once. */
  lemma ScheduleNextTimerIdempotent(s: State, now: int)
    requires Valid(s)
    ensures ScheduleNextTimer(ScheduleNextTimer(s, now), now) == ScheduleNextTimer(s, now)
  {
  }

  /**
   * Firing and then the deferred re-arm: the fired target becomes the
   * marker, and a new timer, if any, is armed strictly later than the
   * fired target. If the fired target was a whole minute (as every
   * occurrence of an in-range schedule is) the double-trigger guard never
   * blocks the re-arm: the timer is armed whenever the search finds
   * something.
   */
  lemma RearmAfterFireIsLater(s: State, fireTime: int, rearmTime: int)
    requires Valid(s) && s.isTimerActive
    requires Tick(s, fireTime).intent == SleepNow
    requires fireTime <= rearmTime
    ensures Tick(s, fireTime).state.lastTriggeredDate == s.targetDate
    ensures var r := Rearm(Tick(s, fireTime).state, rearmTime);
            r.isTimerActive ==> r.targetDate.value > s.targetDate.value
    ensures var r := Rearm(Tick(s, fireTime).state, rearmTime);
            var next := NextOccurrence(rearmTime, s.weeklySchedule);
            ValidWeek(s.weeklySchedule) && s.targetDate.value % SecondsPerMinute == 0 && next.Some? ==>
              r.isTimerActive && r.targetDate == next
  {
    var target := s.targetDate.value;
    var fired := Tick(s, fireTime).state;
    assert target <= fireTime;
    var next := NextOccurrence(rearmTime, s.weeklySchedule);
    if ValidWeek(s.weeklySchedule) && target % SecondsPerMinute == 0 && next.Some? {
      NextOccurrenceIsEarliestInWindow(rearmTime, s.weeklySchedule);
      var t := next.value;
      assert t % SecondsPerMinute == 0 && t > target + MinimumLead;
      assert t / SecondsPerMinute > target / SecondsPerMinute by {
        assert t == (t / SecondsPerMinute) * SecondsPerMinute;
        assert target == (target / SecondsPerMinute) * SecondsPerMinute;
      }
      assert !Suppressed(fired.(pendingRearms := fired.pendingRearms - 1), t);
    }
  }

  /**
   * A tick that finds no target (one whose block was already queued when
   * the timer was cancelled) is not ignored: it executes the sleep and
   * clears the last fired occurrence.
   */
  lemma TickWithoutTargetSleeps(s: State, now: int)
    requires Valid(s) && !s.isTimerActive
    ensures Tick(s, now).intent == SleepNow
    ensures Tick(s, now).state.lastTriggeredDate == None
    ensures Tick(s, now).state.pendingRearms == s.pendingRearms + 1
  {
  }

  // ---------------------------------------------------------------------
  // Episodes: the ticks the repeating timer delivers between arming and firing.

  /** How a run of ticks ended and which intents it emitted. */
  datatype Trace = Trace(final: State, warnings: nat, sleeps: nat)

  /**
   * Ticks at the moments `times`, delivered while a timer is active; once
   * the timer is cancelled (by firing) no further tick arrives.
   */
  function RunTicks(s: State, times: seq<int>): (t: Trace)
    requires Valid(s)
    ensures Valid(t.final)
    decreases |times|
  {
    if times == [] || !s.isTimerActive then Trace(s, 0, 0)
    else
      var step := Tick(s, times[0]);
      var rest := RunTicks(step.state, times[1..]);
      Trace(rest.final,
            rest.warnings + (if step.intent == ShowWarning then 1 else 0),
            rest.sleeps + (if step.intent == SleepNow then 1 else 0))
  }

  /** One tick per second, at `from`, `from + 1`, ... */
  function EverySecond(from: int, count: nat): (ts: seq<int>)
    ensures |ts| == count && forall i :: 0 <= i < count ==> ts[i] == from + i
  {
    seq(count, i => from + i)
  }

  /**
   * Whatever the moments of the ticks, an episode shows the warning at
   * most once (and not at all if it was already shown) and sleeps at most
   * once; the target does not move, and a run that sleeps leaves the
   * target as the last fired occurrence.
   */
  lemma {:induction false} AtMostOneWarningPerEpisode(s: State, times: seq<int>)
    requires Valid(s)
    ensures RunTicks(s, times).warnings <= (if s.hasShownWarning then 0 else 1)
    ensures RunTicks(s, times).sleeps <= 1
    ensures RunTicks(s, times).sleeps == 0 ==> RunTicks(s, times).final.targetDate == s.targetDate
    ensures RunTicks(s, times).sleeps == 1 ==>
              RunTicks(s, times).final.lastTriggeredDate == s.targetDate
              && !RunTicks(s, times).final.isTimerActive
    decreases |times|
  {
    if times != [] && s.isTimerActive {
      var step := Tick(s, times[0]);
      AtMostOneWarningPerEpisode(step.state, times[1..]);
    }
  }

  /**
   * Ticking every second from `from` until past the target: the warning
   * shows exactly once if it was not yet shown and the first tick still
   * has time left, the sleep executes exactly once, and the target becomes
   * the last fired occurrence.
   */
  lemma {:induction false} CountdownToTarget(s: State, from: int, count: nat)
    requires Valid(s) && s.isTimerActive
    requires 0 < count && s.targetDate.value < from + count
    ensures var t := RunTicks(s, EverySecond(from, count));
            t.sleeps == 1
            && t.warnings == (if !s.hasShownWarning && from < s.targetDate.value then 1 else 0)
            && !t.final.isTimerActive && t.final.lastTriggeredDate == s.targetDate
            && t.final.pendingRearms == s.pendingRearms + 1
    decreases count
  {
    var ts := EverySecond(from, count);
    assert ts[0] == from;
    assert ts[1..] == EverySecond(from + 1, count - 1);
    var step := Tick(s, from);
    if step.intent != SleepNow {
      CountdownToTarget(step.state, from + 1, count - 1);
    }
  }

  /** A timer armed 90 s ahead and ticked 120 times warns once and sleeps once. */
  lemma NinetySecondEpisode(s: State, now: int)
    requires Valid(s) && s.targetDate == Some(now + 90) && !s.hasShownWarning
    ensures var t := RunTicks(s, EverySecond(now + 1, 120));
            t.warnings == 1 && t.sleeps == 1 && t.final.lastTriggeredDate == Some(now + 90)
  {
    CountdownToTarget(s, now + 1, 120);
  }

  /**
   * A snooze restarts the episode: whether or not the warning was already
   * shown, counting down to the new target shows it exactly once more.
   */
  lemma SnoozeShowsWarningAgain(s: State, now: int, from: int, count: nat)
    requires Valid(s) && s.isTimerActive
    requires from < s.targetDate.value + SnoozeSeconds < from + count
    ensures RunTicks(Snooze(s, now), EverySecond(from, count)).warnings == 1
    ensures RunTicks(Snooze(s, now), EverySecond(from, count)).final.lastTriggeredDate
              == Some(s.targetDate.value + SnoozeSeconds)
  {
    CountdownToTarget(Snooze(s, now), from, count);
  }
}
