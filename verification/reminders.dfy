/** The periodic habit reminder job `generate_habit_notifications` of
    main/tasks.py.

    For every active habit the job computes how many days were missed since
    the latest check-in. A positive count produces one "lost streak"
    notification. Otherwise the time left until the next local midnight is
    compared with the offsets 3 h, 2 h, 1 h and 0.5 h, and a reminder is
    created for every offset within 0.1 h of it.

    Time is modelled in whole seconds until the next midnight, so the
    tolerance of 0.1 h is 360 s; offsets are kept in minutes, which is the
    figure `int(h * 60)` the reminder text carries. */
module Reminders {
  import opened Wrappers
  import opened Habits

  /** The offsets 3, 2, 1 and 0.5 hours, in minutes, in the order tried. */
  const ReminderMinutes: seq<nat> := [180, 120, 60, 30]

  /** 0.1 hour in seconds. */
  const ToleranceSeconds: int := 360

  /** `missed_days`: days strictly between the latest check-in and today;
      0 when the habit has no check-in. */
  function MissedDays(latest: Option<int>, today: int): int
  {
    match latest
    case None => 0
    case Some(d) => (today - d) - 1
  }

  /** Strictly less than 0.1 hour from the offset, in exact arithmetic. */
  predicate InWindow(secondsToMidnight: int, minutes: nat)
  {
    -ToleranceSeconds < secondsToMidnight - minutes * 60 < ToleranceSeconds
  }

  /** The whole-second instants exactly 0.1 hour from an offset at which the
      float comparison still holds, because `s / 3600 - h` rounds to just
      under 0.1: 54 minutes before midnight for the 1-hour offset, 24 and 36
      minutes before it for the half-hour offset. At every other offset and
      instant exactly 0.1 hour away the comparison fails. */
  predicate FloatBoundary(secondsToMidnight: int, minutes: nat)
  {
    || (minutes == 60 && secondsToMidnight == 3240)
    || (minutes == 30 && (secondsToMidnight == 1440 || secondsToMidnight == 2160))
  }

  /** `abs(hours_to_deadline - h) < 0.1` as Python's floats decide it for
      a whole number of seconds to midnight. */
  predicate Matches(secondsToMidnight: int, minutes: nat)
  {
    InWindow(secondsToMidnight, minutes) || FloatBoundary(secondsToMidnight, minutes)
  }

  /** Every instant that fires lies within 0.1 hour of the offset, the
      bound included. */
  lemma MatchesWithinTolerance(s: int, m: nat)
    requires Matches(s, m)
    ensures -ToleranceSeconds <= s - m * 60 <= ToleranceSeconds
  {
  }

  /** The offsets of the `for h in [3, 2, 1, 0.5]` loop that fire, in loop
      order (the loop has no `break`). */
  function Fired(secondsToMidnight: int, offsets: seq<nat>): (r: seq<nat>)
    ensures forall m :: m in r <==> m in offsets && Matches(secondsToMidnight, m)
    ensures |r| <= |offsets|
  {
    if |offsets| == 0 then []
    else
      (if Matches(secondsToMidnight, offsets[0]) then [offsets[0]] else [])
      + Fired(secondsToMidnight, offsets[1..])
  }

  /** Offsets more than twice the tolerance apart. */
  predicate WellSpaced(offsets: seq<nat>)
  {
    forall i, j :: 0 <= i < j < |offsets| ==>
      offsets[i] * 60 - offsets[j] * 60 > 2 * ToleranceSeconds ||
      offsets[j] * 60 - offsets[i] * 60 > 2 * ToleranceSeconds
  }

  /** With well-spaced offsets at most one can be within tolerance of the
      same instant. */
  lemma {:induction false} WellSpacedFiresAtMostOnce(s: int, offsets: seq<nat>)
    requires WellSpaced(offsets)
    ensures |Fired(s, offsets)| <= 1
    decreases |offsets|
  {
    if |offsets| > 0 {
      var rest := offsets[1..];
      assert WellSpaced(rest) by {
        forall i, j | 0 <= i < j < |rest|
          ensures rest[i] * 60 - rest[j] * 60 > 2 * ToleranceSeconds ||
                  rest[j] * 60 - rest[i] * 60 > 2 * ToleranceSeconds
        {
          assert rest[i] == offsets[i + 1] && rest[j] == offsets[j + 1];
        }
      }
      WellSpacedFiresAtMostOnce(s, rest);
      if Matches(s, offsets[0]) {
        MatchesWithinTolerance(s, offsets[0]);
        forall k | 0 <= k < |rest|
          ensures !Matches(s, rest[k])
        {
          assert rest[k] == offsets[k + 1];
          if Matches(s, rest[k]) {
            MatchesWithinTolerance(s, rest[k]);
          }
        }
        NothingMatchesNothingFires(s, rest);
      }
    }
  }

  /** When no offset is within tolerance, none fires. */
  lemma {:induction false} NothingMatchesNothingFires(s: int, offsets: seq<nat>)
    requires forall k :: 0 <= k < |offsets| ==> !Matches(s, offsets[k])
    ensures Fired(s, offsets) == []
    decreases |offsets|
  {
    if |offsets| > 0 {
      NothingMatchesNothingFires(s, offsets[1..]);
    }
  }

  /** The configured offsets 3 h, 2 h, 1 h and 0.5 h are at least 30 minutes
      apart, more than twice the 6-minute tolerance. */
  lemma ReminderMinutesWellSpaced()
    ensures WellSpaced(ReminderMinutes)
  {
  }

  /** At most one reminder offset fires per habit per run. */
  lemma AtMostOneReminder(s: int)
    ensures |Fired(s, ReminderMinutes)| <= 1
  {
    ReminderMinutesWellSpaced();
    WellSpacedFiresAtMostOnce(s, ReminderMinutes);
  }

  /** The notifications one habit yields in one run of the job. */
  function HabitNotifications(h: Habit, today: int, secondsToMidnight: int): (r: seq<Notification>)
    ensures forall n :: n in r ==> n.user == h.owner && n.sendWeb && n.sendTelegram && n.habitName == h.name
    ensures |r| <= 1
    ensures MissedDays(LatestCheckin(h.checkins), today) > 0 ==>
      r == [NewNotification(h.owner, h.name, LostStreak(MissedDays(LatestCheckin(h.checkins), today)))]
    ensures MissedDays(LatestCheckin(h.checkins), today) <= 0 ==>
      forall n :: n in r ==>
        (n.message.TimeLeft? && n.message.minutes in ReminderMinutes
         && Matches(secondsToMidnight, n.message.minutes))
  {
    var missed := MissedDays(LatestCheckin(h.checkins), today);
    if missed > 0 then
      [NewNotification(h.owner, h.name, LostStreak(missed))]
    else
      AtMostOneReminder(secondsToMidnight);
      var fired := Fired(secondsToMidnight, ReminderMinutes);
      seq(|fired|, i requires 0 <= i < |fired| => NewNotification(h.owner, h.name, TimeLeft(fired[i])))
  }

  /** A reminder for offset `m` is created exactly when `m` is one of the
      four offsets and the time left is within tolerance of it, provided no
      day was missed. */
  lemma ReminderIffWithinTolerance(h: Habit, today: int, s: int, m: nat)
    requires MissedDays(LatestCheckin(h.checkins), today) <= 0
    ensures NewNotification(h.owner, h.name, TimeLeft(m)) in HabitNotifications(h, today, s)
        <==> m in ReminderMinutes && Matches(s, m)
  {
    var fired := Fired(s, ReminderMinutes);
    var r := HabitNotifications(h, today, s);
    if m in ReminderMinutes && Matches(s, m) {
      var i :| 0 <= i < |fired| && fired[i] == m;
      assert r[i] == NewNotification(h.owner, h.name, TimeLeft(m));
    }
  }

  /** The job does not ask whether the habit was already done today: a habit
      checked in today still gets the three-hour reminder. */
  lemma CheckedTodayStillReminded(h: Habit, today: int)
    requires IsCheckedToday(h, today) && LatestCheckin(h.checkins) == Some(today)
    ensures NewNotification(h.owner, h.name, TimeLeft(180)) in HabitNotifications(h, today, 180 * 60)
  {
    ReminderIffWithinTolerance(h, today, 180 * 60, 180);
  }

  /** A habit without check-ins never gets a lost-streak notification. */
  lemma NoCheckinsNoLostStreak(h: Habit, today: int, s: int)
    requires |h.checkins| == 0
    ensures forall n :: n in HabitNotifications(h, today, s) ==> !n.message.LostStreak?
  {
  }

  /** The job over every habit row: inactive habits are skipped, each active
      habit is handled on its own. */
  function GenerateHabitNotifications(habits: seq<Habit>, today: int, secondsToMidnight: int): (r: seq<Notification>)
    ensures forall n :: n in r ==> n.sendWeb && n.sendTelegram
    ensures |r| <= |habits|
  {
    if |habits| == 0 then []
    else
      (if habits[0].active then HabitNotifications(habits[0], today, secondsToMidnight) else [])
      + GenerateHabitNotifications(habits[1..], today, secondsToMidnight)
  }

  /** Habits are processed independently: the run over two lists of habits
      is the two runs one after the other. */
  lemma {:induction false} GenerateDistributes(a: seq<Habit>, b: seq<Habit>, today: int, s: int)
    ensures GenerateHabitNotifications(a + b, today, s)
         == GenerateHabitNotifications(a, today, s) + GenerateHabitNotifications(b, today, s)
    decreases |a|
  {
    if |a| == 0 {
      assert a + b == b;
    } else {
      var head := if a[0].active then HabitNotifications(a[0], today, s) else [];
      assert (a + b)[0] == a[0] && (a + b)[1..] == a[1..] + b;
      assert GenerateHabitNotifications(a + b, today, s) == head + GenerateHabitNotifications(a[1..] + b, today, s);
      assert GenerateHabitNotifications(a, today, s) == head + GenerateHabitNotifications(a[1..], today, s);
      GenerateDistributes(a[1..], b, today, s);
    }
  }

  /** Every notification of a run belongs to the owner of some active habit
      and names that habit. */
  lemma {:induction false} GenerateOnlyActive(habits: seq<Habit>, today: int, s: int)
    ensures forall n :: n in GenerateHabitNotifications(habits, today, s) ==>
      exists i :: 0 <= i < |habits| && habits[i].active && n.user == habits[i].owner && n.habitName == habits[i].name
    decreases |habits|
  {
    if |habits| > 0 {
      GenerateOnlyActive(habits[1..], today, s);
      forall n | n in GenerateHabitNotifications(habits, today, s)
        ensures exists i :: 0 <= i < |habits| && habits[i].active && n.user == habits[i].owner && n.habitName == habits[i].name
      {
        if n in GenerateHabitNotifications(habits[1..], today, s) {
          var i :| 0 <= i < |habits[1..]| && habits[1..][i].active && n.user == habits[1..][i].owner && n.habitName == habits[1..][i].name;
          assert habits[i + 1] == habits[1..][i];
        } else {
          assert habits[0].active && n.user == habits[0].owner && n.habitName == habits[0].name;
        }
      }
    }
  }
}
