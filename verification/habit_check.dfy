/** `check_user_habits` of main/notification.py: the per-user day-gap
    classification.

    For each active habit of one user the gap in days between today and the
    latest check-in decides: a gap above one day reports a lost streak, a gap
    of zero (checked in today) sends a "keep your streak" reminder whose
    streak length is the number of completed check-ins, and a gap of exactly
    one day, a future check-in or no check-in at all sends nothing. */
module HabitCheck {
  import opened Wrappers
  import opened Habits
  import Reminders

  /** The message one habit yields, if any. */
  function HabitAlert(h: Habit, today: int): (r: Option<Message>)
    ensures r.Some? ==> LatestCheckin(h.checkins).Some?
    ensures r == Some(StreakBroken) <==>
      LatestCheckin(h.checkins).Some? && today - LatestCheckin(h.checkins).value > 1
    ensures r.Some? && r.value.KeepStreak? <==>
      LatestCheckin(h.checkins).Some? && today - LatestCheckin(h.checkins).value == 0
    ensures r.Some? ==> r.value.StreakBroken? || r.value == KeepStreak(CompletedCount(h.checkins))
  {
    match LatestCheckin(h.checkins)
    case None => None
    case Some(d) =>
      if today - d > 1 then Some(StreakBroken)
      else if today - d == 0 then Some(KeepStreak(CompletedCount(h.checkins)))
      else None
  }

  /** Checked in yesterday, or dated in the future, or never: no message. */
  lemma QuietGaps(h: Habit, today: int)
    requires LatestCheckin(h.checkins).None? ||
             today - LatestCheckin(h.checkins).value == 1 ||
             today - LatestCheckin(h.checkins).value < 0
    ensures HabitAlert(h, today).None?
  {
  }

  /** `check_user_habits(user)` over the user's habits: at most one
      notification per active habit, in habit order, all addressed to the
      user and flagged for both channels. */
  function CheckUserHabits(user: User, habits: seq<Habit>, today: int): (r: seq<Notification>)
    ensures |r| <= |habits|
    ensures forall n :: n in r ==> n.user == user && n.sendWeb && n.sendTelegram
  {
    if |habits| == 0 then []
    else
      var h := habits[0];
      var here := if h.active && HabitAlert(h, today).Some?
                  then [NewNotification(user, h.name, HabitAlert(h, today).value)]
                  else [];
      here + CheckUserHabits(user, habits[1..], today)
  }

  /** Number of active habits that yield a message. */
  function AlertingCount(habits: seq<Habit>, today: int): nat
  {
    if |habits| == 0 then 0
    else (if habits[0].active && HabitAlert(habits[0], today).Some? then 1 else 0)
         + AlertingCount(habits[1..], today)
  }

  /** One notification for each active habit with a message, none for the
      others. */
  lemma {:induction false} CheckUserHabitsCount(user: User, habits: seq<Habit>, today: int)
    ensures |CheckUserHabits(user, habits, today)| == AlertingCount(habits, today)
    decreases |habits|
  {
    if |habits| > 0 {
      CheckUserHabitsCount(user, habits[1..], today);
    }
  }

  /** Habit `h` is the one notification `n` was created for. */
  predicate Explains(h: Habit, n: Notification, today: int)
  {
    h.active && n.habitName == h.name && HabitAlert(h, today) == Some(n.message)
  }

  /** Every notification names an active habit of the list and carries that
      habit's message. */
  lemma {:induction false} CheckUserHabitsSound(user: User, habits: seq<Habit>, today: int)
    ensures forall n :: n in CheckUserHabits(user, habits, today) ==>
      exists i :: 0 <= i < |habits| && Explains(habits[i], n, today)
    decreases |habits|
  {
    if |habits| > 0 {
      CheckUserHabitsSound(user, habits[1..], today);
      forall n | n in CheckUserHabits(user, habits, today)
        ensures exists i :: 0 <= i < |habits| && Explains(habits[i], n, today)
      {
        if n in CheckUserHabits(user, habits[1..], today) {
          var i :| 0 <= i < |habits[1..]| && Explains(habits[1..][i], n, today);
          assert habits[i + 1] == habits[1..][i];
        } else {
          assert Explains(habits[0], n, today);
        }
      }
    }
  }

  /** The daily check and the periodic job agree on which habits lost their
      streak: a gap above one day is exactly a positive missed-day count. */
  lemma LostStreakAgreesWithJob(h: Habit, today: int, s: int)
    ensures HabitAlert(h, today) == Some(StreakBroken) <==>
      exists n :: n in Reminders.HabitNotifications(h, today, s) && n.message.LostStreak?
  {
    var r := Reminders.HabitNotifications(h, today, s);
    if HabitAlert(h, today) == Some(StreakBroken) {
      assert r[0] in r;
    }
  }
}
