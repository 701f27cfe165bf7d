# TaskForge core, modelled in Dafny

TaskForge is a habit and goal tracker built with Django and plain JavaScript.
This project models the decision logic at its core and proves properties of
it:

- the weekly activity counter: the `UserActivity` record and its lazy
  week rollover in `activity_tracker.py`;
- the two habit reminder routines: the periodic job in `tasks.py` and
  `check_user_habits` in `notification.py`;
- the Telegram delivery guards;
- goal progress: the server's percentage, the browser's local progress
  update on the home page, and the order and visibility of sub-goals on a
  goal card;
- the month grid of the home-page calendar, and the habit-completion marks
  drawn on it;
- the validation of the support form;
- the stack of on-screen notifications (at most three, oldest evicted
  first).

Dates are day numbers counted from 1970-01-01, which was a Thursday.
`Weekday` follows Python's Monday = 0 numbering and `JsDay` follows
JavaScript's Sunday = 0. Time of day is whole seconds. Ratios are exact
rationals. Python's `round` rounds half to even and JavaScript's `Math.round`
rounds half up; both are modelled.

Each module corresponds to one source file or one closely related group:

| file | module | source |
|---|---|---|
| `wrappers.dfy` | `Wrappers` | the optional value every module shares |
| `dates.dfy` | `Dates` | weekday numbering, Monday of the week, civil dates, month lengths |
| `activity.dfy` | `Activity` | `main/models.py` `UserActivity`, `main/activity_tracker.py` |
| `habits.dfy` | `Habits` | `main/models.py` habit, check-in, profile and notification records; Telegram guards |
| `reminders.dfy` | `Reminders` | `main/tasks.py` `generate_habit_notifications` |
| `habit_check.dfy` | `HabitCheck` | `main/notification.py` `check_user_habits` |
| `progress.dfy` | `Progress` | `Goal.get_progress_percent`, `updateIndexGoalProgressLocal` |
| `subgoals.dfy` | `Subgoals` | sorting, visibility and moves in `index-subgoals.js` |
| `calendar_grid.dfy` | `CalendarGrid` | `main/static/js/components/calendar.js` |
| `calendar_habits.dfy` | `CalendarHabits` | `main/static/js/components/calendar-habits.js` |
| `support_form.dfy` | `SupportForm` | `staticfiles/js/components/modals/support-modal.js` |
| `toast_queue.dfy` | `ToastQueue` | `staticfiles/js/notification.js` |

In a few places the code does less than, or something other than, its own
names, comments and messages suggest. The model follows the code:

- `reset_week` (main/models.py:205-211) sets `week_start` to the current
  day, although a new record starts at `get_monday_of_current_week()`
  (main/activity_tracker.py:32) and staleness is measured against that
  Monday (main/activity_tracker.py:54-57). Either date makes the record
  current again, which is what `Activity.Rollover` states.
- The reminder job's comment promises reminders before the streak ends
  (main/tasks.py:44), but it never asks whether the habit was already done
  today (`Reminders.CheckedTodayStillReminded`).
- `check_user_habits` reminds at a gap of zero days and says nothing at a
  gap of one day (main/notification.py:39-44). Its "N-day streak" message
  uses the number of all completed check-ins as N (main/notification.py:45-46).
- Stored notifications keep the default type "general" (main/models.py:123).
  Their two flags are the requested channels (`send_web`, `send_telegram`),
  not delivery outcomes.
- `send_telegram_notification` does not look at `notifications_enabled`,
  which `should_send_telegram` requires (see Findings).

## Model

| member | source | states |
|---|---|---|
| Dates.WeekdayName | main/activity_tracker.py:9-16 | the name is one of the seven, and it stands in the Monday-first list exactly at today's weekday, so the name identifies the weekday |
| Dates.SameNameWholeWeeks | main/activity_tracker.py:9-16 | two days get the same name exactly when they are a whole number of weeks apart |
| Dates.MondayOf | main/activity_tracker.py:47-51 | the result is a Monday, and `today` lies in the seven days starting there |
| Dates.MondayOfUnique | main/activity_tracker.py:47-51 | any Monday at most six days before a date is the Monday `get_monday_of_current_week` returns |
| Dates.JsDayFollowsWeekday | main/static/js/components/calendar.js:41-44 | `getDay()` is Python's weekday shifted by one, with Sunday wrapping to 0 |
| Dates.DaysInMonth | main/static/js/components/calendar.js:47 | a month has 28 to 31 days, and February has 29 exactly in leap years |
| Dates.MonthEndsBeforeNext | main/static/js/components/calendar.js:47 | the day after the month's last day is the 1st of the next month (day 0 of month m+1 is the last of m), including across the year end |
| Dates.MarchYearLength | main/static/js/components/calendar.js:47 | a March-to-February year has 366 days exactly when its February is in a leap year |
| Activity.Fresh | main/models.py:149-159 | a new record has all seven counters at zero, total zero, and satisfies total = sum of days |
| Activity.DayIndex | main/models.py:181-191 | a day name is recognised case-insensitively, exactly when its lower-case form is one of the seven names, and maps to that name's index |
| Activity.DayIndexOfWeekdayName | main/activity_tracker.py:41-42 | the name `get_current_weekday_name` produces is always recognised, at today's weekday |
| Activity.DayActivity | main/models.py:166-177 | an unknown name reads 0; a known name reads that day's counter |
| Activity.WeeklyData | main/models.py:198-203 | seven entries, Monday first, entry i equal to the counter of day name i |
| Activity.AddActivity | main/models.py:179-196 | a known day and the total both grow by `amount` and nothing else changes; an unknown name changes nothing; total = sum of days is preserved |
| Activity.ResetWeek | main/models.py:205-211 | all counters and the total are zero, and the week starts today |
| Activity.ShouldResetWeekIffEarlierWeek | main/activity_tracker.py:54-57 | a record is reset exactly when its week start lies in an earlier Monday-to-Sunday week than today |
| Activity.Rollover | main/activity_tracker.py:36-38 | after the check the record is never stale; a stale record is zeroed; a current one is untouched |
| Activity.TrackUserActivity | main/activity_tracker.py:19-44 | a missing record is created at this week's Monday; today's counter and the total grow by `amount` in a current week, or start from zero after a rollover; the invariant holds afterwards |
| Activity.GetUserWeeklyActivity | main/activity_tracker.py:60-86 | the snapshot lists the record's seven counters, total and week start; a missing record gives zeros starting this Monday; a stale one is reset first |
| Activity.TrackThenSnapshot | main/activity_tracker.py:60-74 | right after tracking `amount`, the snapshot shows today's counter including it and total = sum of days |
| Activity.TrackKeepsInvariant | main/activity_tracker.py:19-42 | any sequence of tracked amounts keeps total = sum of days |
| Habits.NewNotification | main/tasks.py:31-36 | a reminder row is unread, of type "general", and addressed to the web and Telegram channels |
| Habits.TelegramSendAllowedMatchesRecord | main/models.py:130-132 | with the preference honoured, a Telegram send happens exactly for rows that `should_send_telegram` accepts and whose profile has a chat id |
| Habits.TelegramSendIgnoresPreference | main/notification.py:22-31 | a connected user with notifications switched off is still messaged, although `should_send_telegram` refuses the row |
| Habits.LatestCheckin | main/tasks.py:25 | the latest check-in date is one of the check-in dates and no earlier than any of them; there is none exactly when there are no check-ins |
| Habits.CompletedCount | main/notification.py:45 | the count of completed check-ins is at most the number of check-ins, and zero exactly when none is completed |
| Reminders.Fired | main/tasks.py:45-46 | an offset fires exactly when it is in the list and Python's float test `abs(s / 3600 - h) < 0.1` holds: strictly within 0.1 h, or at the three whole-second instants exactly 0.1 h away where the difference rounds below it |
| Reminders.MatchesWithinTolerance | main/tasks.py:46 | every instant at which an offset fires is at most 0.1 h from it |
| Reminders.WellSpacedFiresAtMostOnce | main/tasks.py:45-46 | offsets more than two tolerances apart never fire together |
| Reminders.AtMostOneReminder | main/tasks.py:44-46 | the offsets 3, 2, 1 and 0.5 h produce at most one reminder per habit per run |
| Reminders.HabitNotifications | main/tasks.py:25-55 | a positive missed-day count gives exactly one lost-streak row carrying that count; otherwise every row is a reminder for a listed offset that passes the float test |
| Reminders.ReminderIffWithinTolerance | main/tasks.py:40-55 | with no missed day, a reminder for offset m is created exactly when m is listed and passes the float test |
| Reminders.CheckedTodayStillReminded | main/tasks.py:23-46 | a habit already checked in today (`Habits.IsCheckedToday`, the test of `is_checked_today` at main/models.py:35-39) still gets the three-hour reminder when three hours are left |
| Reminders.NoCheckinsNoLostStreak | main/tasks.py:26-29 | a habit without check-ins never gets a lost-streak row |
| Reminders.GenerateHabitNotifications | main/tasks.py:20-24 | the run never creates more rows than there are habits, and every row is for both channels |
| Reminders.GenerateDistributes | main/tasks.py:23-24 | habits are handled independently: the run over two lists is the two runs in sequence |
| Reminders.GenerateOnlyActive | main/tasks.py:23 | every row names an active habit and goes to that habit's owner |
| HabitCheck.HabitAlert | main/notification.py:36-45 | a gap above one day is a lost streak; a gap of zero is a keep-your-streak reminder carrying the completed count; nothing otherwise |
| HabitCheck.QuietGaps | main/notification.py:39-44 | a gap of one day, a future check-in or no check-in yields nothing |
| HabitCheck.CheckUserHabits | main/notification.py:34-49 | at most one row per habit, all to the user and for both channels |
| HabitCheck.CheckUserHabitsCount | main/notification.py:34-49 | exactly one row for each active habit that has a message |
| HabitCheck.CheckUserHabitsSound | main/notification.py:35-47 | every row comes from an active habit of the list and carries that habit's message |
| HabitCheck.LostStreakAgreesWithJob | main/notification.py:39-43 | the daily check reports a lost streak exactly when the periodic job finds missed days |
| Progress.PyRound | main/models.py:86 | the result is within half a unit of the ratio, and an exact half goes to the even neighbour |
| Progress.JsRound | main/static/js/components/index-subgoals.js:812 | the result is within half a unit of the ratio, and an exact half goes upward |
| Progress.JsRoundUnique | main/static/js/components/index-subgoals.js:812 | only one integer satisfies `Math.round`'s condition |
| Progress.RoundingsAgreeOffTies | main/models.py:86 | Python's and JavaScript's rounding differ only on an exact upper half |
| Progress.CountTrue | main/static/js/components/index-subgoals.js:805-808 | the count equals the length exactly when all are done, and is zero exactly when none is |
| Progress.ProgressPercent | main/models.py:80-86 | 0 with no sub-goals, 100 when all are done, 0 when none is, always within 0..100 and within half a point of the true percentage, an exact half going to the even neighbour |
| Progress.PercentBounds | main/models.py:86 | a value within half a point of 100·c/t lies in 0..100 and is exact at both ends |
| Progress.JsPercent | main/static/js/components/index-subgoals.js:812 | the browser's percentage lies in 0..100, is exact at the ends, and is within half a point (ties up) |
| Progress.UpdateGoalProgressAsWritten | main/static/js/components/index-subgoals.js:799-849 | a card without sub-goals is untouched; the header shows completed/total; the percentage is `Math.round` of 100·completed/total (within half a point, ties up); the badge says Completed exactly when it is 100 |
| Progress.AsWrittenCompletesEarly | main/static/js/components/index-subgoals.js:829-836 | with 200 of 201 sub-goals done the card is badged Completed while a sub-goal is open |
| Progress.UpdateGoalProgress | main/static/js/components/index-subgoals.js:799-849 | the corrected card update: the same rounded percentage and header, and Completed exactly when every sub-goal is done, and then at 100 % |
| Progress.CorrectedAgreesOnSmallCards | main/static/js/components/index-subgoals.js:830 | below 200 sub-goals the corrected and the written update coincide |
| Progress.ServerAndBrowserDisagreeOnHalves | main/models.py:86 | one of eight done is shown as 12 % by the server and 13 % by the browser |
| Subgoals.SortByCompletion | main/static/js/components/index-subgoals.js:277-288 | open entries come before completed ones; the result is a permutation; the order within each group is kept (stable sort) |
| Subgoals.NoAnimationIffPartitioned | main/static/js/components/index-subgoals.js:290-297 | the sort moves nothing exactly when no completed entry precedes an open one |
| Subgoals.SortIdempotent | main/static/js/components/index-subgoals.js:375-386 | sorting an already sorted card changes nothing |
| Subgoals.ApplyVisibility | main/static/js/components/index-subgoals.js:404-447 | on a collapsed card exactly the entries from position 3 on are hidden; an expanded card is untouched; identity and completion are kept |
| Subgoals.UpdateIndicator | main/static/js/components/index-subgoals.js:449-484 | on a collapsed card the "+N more" indicator shows exactly when there are more than three entries, with N the excess |
| Subgoals.IndicatorCountsHidden | main/static/js/components/index-subgoals.js:449-456 | the indicator's N is the number of entries the same pass hid |
| Subgoals.SortedPositions | main/static/js/components/index-subgoals.js:277-288 | after sorting, an entry is completed exactly when its position is at least the number of open entries |
| Subgoals.SortAndShow | main/static/js/components/index-subgoals.js:361-398 | after the quick sort, completed entries fill the positions after the open ones, and a collapsed card hides exactly positions 3 and on |
| Subgoals.VisibleDoneMeansFewOpen | main/static/js/components/index-subgoals.js:404-422 | a completed entry is visible on a collapsed card only when fewer than three entries are open |
| Subgoals.MoveCompletedToBottom | main/static/js/components/index-subgoals.js:115-170 | the completed entry moves to the end, the others keep their order, and it is hidden when the card is collapsed and three others are open |
| Subgoals.IndicatorAfterMoveAsWritten | main/static/js/components/index-subgoals.js:169-180 | when the moved entry is not hidden, the indicator is unchanged |
| Subgoals.AsWrittenIndicatorOvercounts | main/static/js/components/index-subgoals.js:169-180 | whenever the moved entry is hidden, the written indicator claims one more hidden entry than the card has |
| Subgoals.AsWrittenIndicatorExample | main/static/js/components/index-subgoals.js:169-180 | completing the first of four open entries hides two, and the text says "+3 more" |
| Subgoals.IndicatorAfterMove | main/static/js/components/index-subgoals.js:169-180 | the corrected indicator counts every hidden entry once |
| Subgoals.MoveBackToVisible | main/static/js/components/index-subgoals.js:48-92 | an unchecked entry is shown on an expanded card, or on a collapsed one when at most three entries are open; otherwise nothing changes; other entries never change |
| Subgoals.IndicatorAfterReturn | main/static/js/components/index-subgoals.js:94-108 | after an entry is shown again on a collapsed card, the indicator shows exactly when entries remain hidden, with their number |
| CalendarGrid.StartOffset | main/static/js/components/calendar.js:41-44 | there are fewer than seven leading blanks, and one more than their number is the weekday of the 1st, modulo 7 |
| CalendarGrid.MonthCells | main/static/js/components/calendar.js:40-78 | fewer than seven leading blanks, then days 1 to the month's length in order, each in the Monday-first column of its own weekday and active exactly when it is today |
| CalendarGrid.DayInWeekdayColumn | main/static/js/components/calendar.js:43-57 | the cell of day k sits in the column of its weekday, Monday first |
| CalendarGrid.OneActiveCell | main/static/js/components/calendar.js:57-65 | when today is in the month, exactly today's cell is active |
| CalendarGrid.InitializeCalendar | main/static/js/components/calendar.js:16-24 | nothing happens without a grid or with more than five children; otherwise the grid holds the month's cells, more than five of them, so a second call leaves it alone |
| CalendarGrid.InitializeOnce | main/static/js/components/calendar.js:20-21 | a filled grid is never refilled |
| CalendarGrid.SelectDay | main/static/js/components/calendar.js:68-75 | after a click only the clicked day is active; numbers and blanks are kept |
| CalendarGrid.SelectLeavesOneActive | main/static/js/components/calendar.js:68-75 | exactly one cell is active after a click |
| CalendarHabits.LoadHistory | main/static/js/components/calendar-habits.js:87-104 | the same dates; each record comes out with a flag and otherwise unchanged; a flag the server sent is kept; a missing one is true exactly for 2025-11-03 with two done, or for a day with all of at least one habit done |
| CalendarHabits.LoadedDayMark | main/static/js/components/calendar-habits.js:91-101 | a past day the server sent without a flag is shown green exactly when it is 2025-11-03 with two done or all of at least one habit were done |
| CalendarHabits.TallyCards | main/static/js/components/calendar-habits.js:142-156 | the total is the number of present, enabled checkboxes and the completed count the number of those checked; all-completed holds exactly when none of them is unchecked |
| CalendarHabits.CheckTodayHabitsCompletion | main/static/js/components/calendar-habits.js:135-206 | no cards: nothing; otherwise only today's record changes, to the live tallies; its flag is true exactly when it was or the day is now complete; saved as complete or as partial by the two ordered tests |
| CalendarHabits.DayWasCompleteSticky | main/static/js/components/calendar-habits.js:164-195 | once today's flag is true no later sequence of checks clears it |
| CalendarHabits.Classify | main/static/js/components/calendar-habits.js:279-310 | today is green when all are done and there is at least one habit; a past day follows its flag when stored; a partial mark needs a completed habit |
| CalendarHabits.UpdateCalendarMarks | main/static/js/components/calendar-habits.js:254-311 | a day without a record is unmarked; a day with one is green exactly when complete (today: all of at least one habit done; other days: the stored flag, else the counts) and yellow exactly when not complete but a habit was done |
| CalendarHabits.PastCompleteStaysGreen | main/static/js/components/calendar-habits.js:287-293 | a past day once complete stays green whatever its counts |
| CalendarHabits.SpecialDateLoadsComplete | main/static/js/components/calendar-habits.js:93-96 | 2025-11-03 with two done is shown green after loading |
| CalendarHabits.Step | main/static/js/components/calendar-habits.js:46-126 | a check rebuilds today's record as `checkTodayHabitsCompletion` does; a successful history reply replaces every record, today's included, with the loaded history and marks it loaded; a failed reply, or any reply once loaded, changes nothing; once loaded, a true flag for today survives any event |
| CalendarHabits.StickyOnceLoaded | main/static/js/components/calendar-habits.js:46-57 | once the history is loaded, no sequence of checks and replies clears today's flag |
| CalendarHabits.HistoryCanClearFlag | main/static/js/components/calendar-habits.js:84-105 | a history reply that arrives after a check marked today complete can clear the flag |
| SupportForm.TrimEmptyIffBlank | staticfiles/js/components/modals/support-modal.js:330 | `trim()` leaves nothing exactly when the field is all white space |
| SupportForm.ReplaceFirstOnly | staticfiles/js/components/modals/support-modal.js:367 | only the first underscore becomes a space; characters before it and everything after it are copied |
| SupportForm.ReplaceAfterPrefix | staticfiles/js/components/modals/support-modal.js:367 | an underscore-free prefix, then an underscore, then anything: the underscore becomes a space and the rest is unchanged |
| SupportForm.Validate | staticfiles/js/components/modals/support-modal.js:329-376 | each error is reported exactly when its check fails and all earlier ones pass, in source order: blank category, blank message, over 2000, then a 2fa problem without username, a login problem without username and e-mail, a missing e-mail for login, technical and feature problems, a Telegram problem without username |
| SupportForm.ValidateAcceptsExactly | staticfiles/js/components/modals/support-modal.js:329-376 | the form is sent exactly when it meets every requirement stated separately |
| SupportForm.LoginIdentityBeforeEmail | staticfiles/js/components/modals/support-modal.js:359-370 | a login problem without username and e-mail reports the missing identity first |
| SupportForm.FeatureRequestLabel | staticfiles/js/components/modals/support-modal.js:366-367 | the e-mail error for a feature request names "feature request" |
| SupportForm.CounterColourFor | staticfiles/js/components/modals/support-modal.js:116-124 | error above 1800 characters, warning above 1500, secondary otherwise |
| SupportForm.TooLongShowsError | staticfiles/js/components/modals/support-modal.js:342-346 | every message the length check refuses already shows the error colour |
| ToastQueue.KeepInMembers | staticfiles/js/notification.js:87-89 | the filter keeps exactly the listed entries that are still attached |
| ToastQueue.KeepInNoDup | staticfiles/js/notification.js:87-89 | the filter creates no repeats |
| ToastQueue.KeepEvery | staticfiles/js/notification.js:87-89 | when every entry is attached the list is kept as it is, in order |
| ToastQueue.WithoutRemovesOne | staticfiles/js/notification.js:76 | removing one notification keeps all the others in their order |
| ToastQueue.UpdatePositions | staticfiles/js/notification.js:85-97 | the list keeps exactly its attached entries, in order, with one placement each: the first at top 20 and z-index 10000, each next one 80 px lower and one layer higher |
| ToastQueue.PlacementsStack | staticfiles/js/notification.js:92-96 | each later notification sits 80 px lower and above the previous one, and with at most three none is below 180 px |
| ToastQueue.SweepGivesLive | staticfiles/js/notification.js:109-122 | the cleanup leaves the attached entries, and the document holds exactly those |
| ToastQueue.AppendFresh | staticfiles/js/notification.js:166-173 | appending a fresh element keeps the page consistent and the earlier entries in order, and places the new one lowest, at top 20 + 80·n |
| ToastQueue.EvictOldest | staticfiles/js/notification.js:124-137 | oldest entries are removed until at most two remain; the survivors are the newest, in order |
| ToastQueue.ShowNotification | staticfiles/js/notification.js:105-173 | at most three afterwards, the new one last; the others are the newest survivors in order; the page holds exactly the listed notifications; entry i is placed at top 20 + 80·i with z-index 10000 + i |
| ToastQueue.CloseNotification | staticfiles/js/notification.js:58-67 | closing only schedules the removal: the list and the page are unchanged |
| ToastQueue.FinishClose | staticfiles/js/notification.js:67-79 | when the timer fires the notification leaves the page and the list |
| ToastQueue.CloseRemovesOnlyThatEntry | staticfiles/js/notification.js:67-79 | on a consistent page the closed notification is removed and the rest keep their order |
| ToastQueue.RunTimersRemovesPending | staticfiles/js/notification.js:67-79 | once all pending timers fire, none of their notifications is still listed |
| ToastQueue.CloseAllAsWrittenNeverEnds | staticfiles/js/notification.js:200-204 | after any number of passes of `closeAll`'s loop the list is unchanged and non-empty, so the loop never ends |
| ToastQueue.CloseAll | staticfiles/js/notification.js:200-204 | the corrected close-all schedules each listed notification's removal once |
| ToastQueue.CloseAllEmptiesList | staticfiles/js/notification.js:200-204 | after the corrected close-all's timers fire the list is empty |

## Left out

- I/O is not modelled: the database, HTTP requests, the websocket channel,
  the Telegram bot, `localStorage` and `console` output. The code that calls
  them is modelled; the calls themselves are not.
- The DOM is reduced to the data the code reads: checkbox flags, class
  flags, child counts and element identity. Styles, transitions, animation
  frames and the FLIP animation are left out.
- Timers are modelled only where their order matters: the 300 ms
  notification removal. The 3-second auto-close, animation delays and the
  200 ms deferred visibility pass are left out.
- The clock is a parameter: today's day number and the seconds until the
  next local midnight. Time zones are left out, including the UTC date
  `toISOString` gives against the local month the calendar shows.
- Progress.ProgressPercent: uses exact rationals, not floating point. A
  quotient a float rounds differently at an exact half is not modelled: 23
  of 40 is 57.49999999999999 in floating point, so the server says 57 where
  the model says 58.
- Progress.JsPercent: uses exact rationals, not floating point. Some
  quotients land just below an exact half in the browser: 29 of 200 gives
  14.499999999999998 and 23 of 40 gives 57.49999999999999, shown as 14 and
  57 where the model says 15 and 58. The Completed badge could only be
  affected by a quotient just below 99.5.
- Reminders.Matches: uses whole seconds, at which Python's float comparison
  is modelled exactly. `now` carries microseconds; sub-second instants are
  not modelled.
- SupportForm.Validate: measures the message in Unicode characters. The
  page's `.length` counts UTF-16 units, so a message of 1001 emoji (2002
  units) is refused by the page and accepted by the model.
- CalendarHabits.DayWasCompleteSticky: covers repeated checks only. A
  history reply that arrives after a check replaces today's record and can
  clear the flag (`CalendarHabits.HistoryCanClearFlag`); the flag is sticky
  for good once the history is loaded (`CalendarHabits.StickyOnceLoaded`).
- Activity.Lower: folds only ASCII letters, because day names are ASCII.
  Python's Unicode `lower()` is not modelled.
- SupportForm.IsSpace: covers the white space JavaScript's `trim()` strips.
  Strings are sequences of Unicode scalar values, not UTF-16 units.
- The success and error paths after the support form is sent are left out
  (network I/O).
- The dynamic form fields, modal opening and closing, and the badge and
  pulse timers of the support button are left out (presentation only).
- Notification styles and HTML escaping are left out (presentation only).
- ToastQueue.ShowNotification: requires that the list has no repeats and
  that the new element is fresh. The page creates a new element on every
  call, so this always holds there.
- Goal templates, `Pending2FA`, two-factor login and the bot's command
  handlers are not part of this core.
- `send_2fa_request` is left out (network I/O only).
- Habit streak bookkeeping (`streak_days`, `last_checkin`) is left out.
  The reminder code never reads it.
- The `updateIndexGoalProgress` server round trip is left out, as are the
  goal-completion effects and the overlay. Only the local percentage and
  badge are modelled.

## Findings

| source | as written | input that shows it | evidently intended | confidence | as-written member | corrected member |
|---|---|---|---|---|---|---|
| staticfiles/js/notification.js:200-204 | `closeAll` loops while the list is non-empty, but `closeNotification` removes an entry only in a 300 ms timer callback, which cannot run during the loop | any call with one or more notifications shown | close each shown notification once, e.g. over a copy of the list | high; not executed | ToastQueue.CloseAllAsWrittenNeverEnds | ToastQueue.CloseAllEmptiesList |
| main/static/js/components/index-subgoals.js:829-836 | the badge says Completed when the rounded percentage is 100 | 200 of 201 sub-goals done: 99.5 % rounds to 100 | Completed only when every sub-goal is done | medium (the badge and the effects at line 852 share the test); not executed | Progress.AsWrittenCompletesEarly | Progress.UpdateGoalProgress |
| main/static/js/components/index-subgoals.js:169-180 | the hidden class is added to the moved entry before the hidden entries are counted, and one more is then added for it | collapsed card with four open entries, the fourth hidden; completing the first hides it: two are hidden, and the text says "+3 more" | the count of hidden entries, the moved one once | high; not executed | Subgoals.AsWrittenIndicatorExample | Subgoals.IndicatorAfterMove |
| main/notification.py:22-31 | Telegram messages are sent to any connected profile with a chat id, ignoring `notifications_enabled` | a connected profile with notifications switched off | send only when `should_send_telegram` would (main/models.py:130-132) | medium; not executed | Habits.TelegramSendIgnoresPreference | Habits.TelegramSendAllowedMatchesRecord |
