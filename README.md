# Sleep timer scheduling engine, in Dafny

This project models the scheduling and trigger engine of the macOS menu-bar
app "Sleep Timer" (`SleepTimerViewModel`). The user sets a weekly schedule:
one entry per weekday, each enabled or disabled, with an hour and a minute.
The engine does four things:

- It finds the next scheduled moment: today or one of the next seven days,
  strictly more than 10 seconds ahead.
- It arms a countdown to that moment.
- It shows a warning once a minute or less is left.
- When the countdown reaches zero it puts the machine to sleep, records the
  fired moment, and re-arms for the following occurrence. Snoozing adds five
  minutes and lets the warning show again.

Modules, leaves first:

- `Optional`: `Option<T>`, standing for Swift's `T?`.
- `Calendar`: the host calendar, abstracted.
  - A moment is an integer number of local seconds since 1970-01-01 00:00
    local time, which was a Thursday. Every day lasts 86400 s.
  - `HostWeekday` gives the host numbering (1 = Sunday … 7 = Saturday).
    `DayIndex` gives the Monday-first index (0 = Monday … 6 = Sunday).
  - `CurrentWeekday` is the app's conversion `(w + 5) % 7` from the first to
    the second.
  - "Same minute" is `a / 60 == b / 60`.
- `Schedule`: the day entries and the occurrence search.
  - `SearchFrom` / `NextOccurrence` are the `for dayOffset in 0..<8` loop as
    a recursive function.
  - The view model's `CalculateNextScheduledDate` is that loop, proved equal
    to the function.
  - The lemmas compare the search with a description that uses the calendar
    alone: the earliest scheduled moment more than 10 s ahead that falls on
    today's date or one of the seven after it.
- `Countdown`: the hours/minutes/seconds split behind `timeRemainingFormatted`.
- `TriggerEngine`: the state machine as pure functions on a `State` record.
  - The record holds the fields the view model updates.
  - Host effects come back as intents: `ShowWarning` for the notification,
    `SleepNow` for the `pmset sleepnow` launch.
  - The lemmas cover whole episodes of ticks: at most one warning; exactly one
    warning and one sleep when ticking every second up to the target; a snooze
    makes the warning show again; the re-arm after a fire picks a later moment.
- `ViewModel`: the class `SleepTimerViewModel`.
  - It has the same fields.
  - Every method states its new state as the matching `TriggerEngine`
    function of its old state: `Snapshot() == F(old(Snapshot()))`.
  - The current moment `now` is passed in instead of being read from the clock.
  - The repeating one-second timer becomes explicit `Tick(now)` calls.
  - The two-second deferred re-arm after a fire becomes a pending counter and
    an explicit `Rearm(now)` call.

Behaviour of the code worth noting:

- A tick that finds no target is not ignored. `tick` has no guard, so it
  finds 0 s left, executes the sleep and sets the last-fired marker to nil
  (`TickWithoutTargetSleeps`). This can happen when a tick's queued block
  runs after `cancelTimer`.
- The deferred re-arm is not cancellable: `cancelTimer` does not touch it
  (`pendingRearms`).
- `scheduleNextTimer` does not check whether a timer is already armed. Run
  while armed, it arms again for the found occurrence.
- An edit of a weekday entry is not validated by the view model. Only the
  editing fields (hours 0–23, minutes 0–59) keep entries in range, so the
  lemmas that depend on the range require `ValidWeek`.
- A schedule with an enabled day does not always produce an occurrence.
  Example: only Tuesday 00:00 is enabled and the search runs at Monday
  23:59:55.
  - The Tuesday candidate is only 5 s away, so it is rejected.
  - The following Tuesday lies outside the 8-day window.
  - So nothing is armed (`MidnightOccurrenceMissed`). In every other case an
    enabled day is found (`EnabledDayIsFound`).
- The double-trigger guard never blocks the re-arm after a real fire when the
  fired target is a whole minute. Every later candidate is more than 10 s past
  the fire moment and is itself a whole minute (`RearmAfterFireIsLater`). The
  guard matters only if the clock goes backwards.

## Model

All cited lines are in `SleepTimer/SleepTimerViewModel.swift`.

| member | source | states |
|---|---|---|
| Calendar.CurrentWeekday | SleepTimer/SleepTimerViewModel.swift:103-106 | the host weekday 1..7 is mapped by `(w + 5) % 7` into 0..6 |
| Calendar.CurrentWeekdayEndpoints | SleepTimer/SleepTimerViewModel.swift:105 | host 2 (Monday) becomes 0 and host 1 (Sunday) becomes 6 |
| Calendar.CurrentWeekdayBijective | SleepTimer/SleepTimerViewModel.swift:103-106 | the conversion is a bijection from 1..7 onto 0..6: it is injective and `HostWeekdayOf` inverts it in both directions |
| Calendar.CurrentWeekdayOfMoment | SleepTimer/SleepTimerViewModel.swift:103-106 | converting the host weekday of a moment gives that moment's Monday-first weekday on the calendar |
| Calendar.DayIndexShift | SleepTimer/SleepTimerViewModel.swift:114-115 | moving k days ahead moves the weekday by k modulo 7, which is why `(currentWeekday() + dayOffset) % 7` is the candidate's weekday |
| Schedule.DefaultWeek | SleepTimer/SleepTimerViewModel.swift:10-18 | the initial schedule has seven entries, all disabled at 22:00 |
| Schedule.SearchFrom | SleepTimer/SleepTimerViewModel.swift:113-133 | the loop from a given day offset; any candidate it returns lies strictly more than 10 s after now |
| Schedule.NextOccurrence | SleepTimer/SleepTimerViewModel.swift:108-134 | a returned date lies strictly more than 10 s after now |
| Schedule.SearchFromFindsFirst | SleepTimer/SleepTimerViewModel.swift:113-133 | the loop returns nil exactly when no remaining day qualifies (enabled and more than 10 s ahead); otherwise it returns the candidate of the first qualifying day |
| Schedule.NextOccurrenceIsFirstQualifying | SleepTimer/SleepTimerViewModel.swift:113-133 | over offsets 0..7: nil iff no day qualifies, otherwise the candidate of the smallest qualifying offset |
| Schedule.AllDisabledFindsNothing | SleepTimer/SleepTimerViewModel.swift:113-133 | with all seven entries disabled the search returns nil for every now |
| Schedule.OccurrenceOnItsDay | SleepTimer/SleepTimerViewModel.swift:114-125 | for an in-range entry, the candidate at offset k is on the date of now plus k days, at the entry's hour:minute:00, a whole minute, on the weekday the loop consulted |
| Schedule.ScheduledIsCandidate | SleepTimer/SleepTimerViewModel.swift:113-130 | every scheduled moment within the window that is more than 10 s ahead is the candidate of some qualifying offset 0..7 |
| Schedule.NextOccurrenceIsEarliestInWindow | SleepTimer/SleepTimerViewModel.swift:108-134 | for an in-range schedule, a returned date is on an enabled weekday at that entry's hour:minute:00, more than 10 s after now, at most 7 days after now's date, and no later than any other such moment; nil iff no such moment exists |
| Schedule.EnabledDayIsFound | SleepTimer/SleepTimerViewModel.swift:113-133 | an enabled in-range entry is always found unless now is in the last 10 s of its day |
| Schedule.MidnightOccurrenceMissed | SleepTimer/SleepTimerViewModel.swift:113-133 | with only Tuesday 00:00 enabled, at Monday 23:59:55 the search returns nil |
| Countdown.Format | SleepTimer/SleepTimerViewModel.swift:35-45 | hours·3600 + minutes·60 + seconds equals the remaining seconds, minutes and seconds are below 60, and the three-field form is used exactly when the hours are positive (at least 3600 s) |
| Countdown.FormatIsTheOnlySplit | SleepTimer/SleepTimerViewModel.swift:35-45 | any split with minutes and seconds below 60 is the one the formatter shows |
| TriggerEngine.Remaining | SleepTimer/SleepTimerViewModel.swift:196-202 | the remaining time is `max(0, target - now)`: never negative, at least target − now, 0 without a target |
| TriggerEngine.UpdateTimeRemaining | SleepTimer/SleepTimerViewModel.swift:196-202 | only the remaining time changes, and it becomes `Remaining(target, now)` |
| TriggerEngine.StartTimer | SleepTimer/SleepTimerViewModel.swift:150-163 | arms for the target with the warning not yet shown; marker, schedule and pending re-arms unchanged |
| TriggerEngine.CancelTimer | SleepTimer/SleepTimerViewModel.swift:165-172 | inactive, no target, 0 s remaining, warning cleared; the last-fired marker unchanged |
| TriggerEngine.Snooze | SleepTimer/SleepTimerViewModel.swift:174-179 | with a target: target + 300 and the warning reset to not shown, whatever it was; without one: nothing changes |
| TriggerEngine.ExecuteSleep | SleepTimer/SleepTimerViewModel.swift:219-228 | the last-fired marker becomes the target; then inactive, no target, 0 s remaining; one deferred re-arm queued |
| TriggerEngine.Tick | SleepTimer/SleepTimerViewModel.swift:181-194 | sleeps exactly when 0 s remain and the new state is then that of ExecuteSleep; warns exactly when 0 < remaining ≤ 60 and no warning was shown; otherwise only the remaining time and the warning flag change |
| TriggerEngine.ScheduleNextTimer | SleepTimer/SleepTimerViewModel.swift:138-148 | unchanged when there is no next occurrence or it is in the same minute as the last fired one; otherwise armed for it with the warning not shown |
| TriggerEngine.Rearm | SleepTimer/SleepTimerViewModel.swift:225-228 | the deferred block uses up one pending re-arm and then is exactly `ScheduleNextTimer` of the decremented state (whose contract fixes the timer fields); the marker and schedule are kept |
| TriggerEngine.SaveSchedule | SleepTimer/SleepTimerViewModel.swift:62-70 | a schedule change reschedules only when no timer is active; an active timer is left alone |
| TriggerEngine.SetDay | SleepTimer/SleepTimerViewModel.swift:18-20 | an entry edit replaces that weekday's entry; with an active timer nothing else changes, without one `saveSchedule` (lines 67-69) reschedules the edited state by `ScheduleNextTimer` |
| TriggerEngine.LoadSchedule | SleepTimer/SleepTimerViewModel.swift:72-78 | a stored schedule is taken (and saved) only if it has seven entries; otherwise nothing changes |
| TriggerEngine.Init | SleepTimer/SleepTimerViewModel.swift:54-58 | starts with no marker and no pending re-arm; the schedule is the stored one if it has seven entries, else the default; the timer is armed for exactly `NextOccurrence(now, schedule)` with a fresh warning and its remaining time, and idle when there is none |
| TriggerEngine.ScheduleNextTimerIdempotent | SleepTimer/SleepTimerViewModel.swift:54-58 | scheduling a second time at the same moment (as `init` does after loading) changes nothing more |
| TriggerEngine.RearmAfterFireIsLater | SleepTimer/SleepTimerViewModel.swift:138-148 | after a fire the marker is the fired target; a re-arm at a later moment arms only strictly after it; with a whole-minute target and an in-range schedule the guard never blocks a found occurrence |
| TriggerEngine.TickWithoutTargetSleeps | SleepTimer/SleepTimerViewModel.swift:181-202 | a tick without a target executes the sleep and clears the marker |
| TriggerEngine.RunTicks | SleepTimer/SleepTimerViewModel.swift:158-162 | ticks delivered while a timer is active keep the state valid |
| TriggerEngine.AtMostOneWarningPerEpisode | SleepTimer/SleepTimerViewModel.swift:181-194 | in any run of ticks of one armed episode the warning shows at most once (never if already shown) and the sleep at most once; the target does not move, and a run that sleeps leaves it as the marker |
| TriggerEngine.CountdownToTarget | SleepTimer/SleepTimerViewModel.swift:181-194 | ticking every second until past the target: exactly one warning (if not yet shown and the first tick had time left) and exactly one sleep, leaving the target as the marker |
| TriggerEngine.NinetySecondEpisode | SleepTimer/SleepTimerViewModel.swift:181-194 | a target 90 s ahead with 120 one-second ticks gives exactly one warning and one sleep |
| TriggerEngine.SnoozeShowsWarningAgain | SleepTimer/SleepTimerViewModel.swift:174-194 | after a snooze, warned before or not, counting down to the new target shows the warning exactly once more and fires at old target + 300 |
| ViewModel.SleepTimerViewModel.constructor | SleepTimer/SleepTimerViewModel.swift:54-58 | the object's fields are `Init(stored, now)` |
| ViewModel.SleepTimerViewModel.TimeRemainingFormatted | SleepTimer/SleepTimerViewModel.swift:35-45 | the countdown adds up to the remaining time, minutes and seconds below 60, three fields iff at least an hour |
| ViewModel.SleepTimerViewModel.SaveSchedule | SleepTimer/SleepTimerViewModel.swift:62-70 | the fields change as `TriggerEngine.SaveSchedule` |
| ViewModel.SleepTimerViewModel.LoadSchedule | SleepTimer/SleepTimerViewModel.swift:72-78 | the fields change as `TriggerEngine.LoadSchedule` |
| ViewModel.SleepTimerViewModel.SetDay | SleepTimer/SleepTimerViewModel.swift:18-20 | the fields change as `TriggerEngine.SetDay` |
| ViewModel.SleepTimerViewModel.CalculateNextScheduledDate | SleepTimer/SleepTimerViewModel.swift:108-134 | the loop over eight day offsets returns exactly `NextOccurrence(now, weeklySchedule)` |
| ViewModel.SleepTimerViewModel.ScheduleNextTimer | SleepTimer/SleepTimerViewModel.swift:138-148 | the fields change as `TriggerEngine.ScheduleNextTimer` |
| ViewModel.SleepTimerViewModel.StartTimer | SleepTimer/SleepTimerViewModel.swift:150-163 | the fields change as `TriggerEngine.StartTimer` |
| ViewModel.SleepTimerViewModel.CancelTimer | SleepTimer/SleepTimerViewModel.swift:165-172 | the fields change as `TriggerEngine.CancelTimer` |
| ViewModel.SleepTimerViewModel.Snooze | SleepTimer/SleepTimerViewModel.swift:174-179 | the fields change as `TriggerEngine.Snooze` |
| ViewModel.SleepTimerViewModel.Tick | SleepTimer/SleepTimerViewModel.swift:181-194 | the fields and the returned intent are those of `TriggerEngine.Tick` |
| ViewModel.SleepTimerViewModel.UpdateTimeRemaining | SleepTimer/SleepTimerViewModel.swift:196-202 | the fields change as `TriggerEngine.UpdateTimeRemaining` |
| ViewModel.SleepTimerViewModel.ExecuteSleep | SleepTimer/SleepTimerViewModel.swift:219-228 | the fields change as `TriggerEngine.ExecuteSleep` |
| ViewModel.SleepTimerViewModel.Rearm | SleepTimer/SleepTimerViewModel.swift:226-228 | the fields change as `TriggerEngine.Rearm` |

## Left out

- Schedule storage: the JSON encoding and `UserDefaults` in `saveSchedule`/`loadSchedule` are left out. The decoded schedule, or none, is a parameter of `LoadSchedule`. Only the seven-entry rule and the reschedule-when-inactive rule are modelled.
- Launch at login (`SMAppService` registration and its revert on failure) is a separate operating-system service.
- Warning delivery through `UNUserNotificationCenter` is left out; `Tick` returns the `ShowWarning` intent instead. A failed delivery does not affect `hasShownWarning`.
- The `pmset sleepnow` process launch is left out; `Tick` returns the `SleepNow` intent instead. A failure to launch is ignored by the source, and the state change does not depend on it.
- The run loop: `Timer.scheduledTimer`, `Task { @MainActor }` and `DispatchQueue.main.asyncAfter` are replaced by explicit `Tick(now)` and `Rearm(now)` calls.
  - Delivering those calls in the right order and at the right moments is the host's job.
  - `RunTicks` describes the repeating timer as ticks delivered while a timer is active.
  - The `timer` handle is not a field: it exists exactly when `isTimerActive` holds.
- Clock reads: each `Date()` call in the source is replaced by the one `now` passed to the operation. `currentWeekday()` reads the clock again on every loop iteration; the model uses the weekday of `now`, so a midnight passing during the loop is not modelled.
- Calendar detail: time zones and daylight-saving time are left out. Every day has 86400 s, and `TimeInterval` (a floating-point number) is whole seconds, so `Int(timeRemaining)` loses nothing. `calendar.date(from:)` cannot fail on this calendar, so its `continue` branch is not modelled.
- `nextScheduledTime` and `dayNames` are left out: they format `calculateNextScheduledDate`'s result with a `DateFormatter` ("EEEE HH:mm") and hold day labels.
- The `String(format:)` rendering of the countdown is left out; `Format` returns the split fields.
- `launchAtLogin` and `ContentView.swift` / `SleepTimerApp.swift` are left out. They are SwiftUI views, bindings and app start-up with no scheduling logic. The edit of one weekday's entry through the view's binding is modelled as `SetDay`.
