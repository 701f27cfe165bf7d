/** Habits, check-ins, Telegram profiles and stored notifications (the
    `Habit`, `HabitCheckin`, `TelegramProfile` and `Notification` models of
    main/models.py), with the two Telegram delivery guards: the record-level
    `Notification.should_send_telegram` and the transport-level check in
    `send_telegram_notification` of main/notification.py. */
module Habits {
  import opened Wrappers

  datatype TelegramProfile = TelegramProfile(
    telegramId: Option<string>,
    connected: bool,
    notificationsEnabled: bool,
    twoFactorEnabled: bool)

  /** A user together with the optional one-to-one `telegram_profile`. */
  datatype User = User(id: nat, profile: Option<TelegramProfile>)

  /** One `HabitCheckin` row: a date (day number) and a completed flag. */
  datatype Checkin = Checkin(date: int, completed: bool)

  datatype Habit = Habit(
    owner: User,
    name: string,
    active: bool,
    streakDays: int,
    checkins: seq<Checkin>)

  /** What a created notification says; the message text is presentation,
      the numbers it carries are the decision. */
  datatype Message =
    | LostStreak(missedDays: int)          // main/tasks.py lost-streak text
    | TimeLeft(minutes: nat)               // main/tasks.py reminder text
    | StreakBroken                         // main/notification.py lost-streak text
    | KeepStreak(streakLength: nat)        // main/notification.py reminder text

  /** A `Notification` row as created by the reminder code. `kind` is the
      model's `type` column, left at its default. */
  datatype Notification = Notification(
    user: User,
    habitName: string,
    message: Message,
    read: bool,
    sendWeb: bool,
    sendTelegram: bool,
    kind: string)

  /** The row both reminder routines create: web and Telegram flags set,
      unread, type left at "general". */
  function NewNotification(user: User, habitName: string, message: Message): (n: Notification)
    ensures n.sendWeb && n.sendTelegram && !n.read && n.kind == "general"
    ensures n.user == user && n.message == message && n.habitName == habitName
  {
    Notification(user, habitName, message, false, true, true, "general")
  }

  /** Python truthiness of a nullable `CharField`. */
  predicate Truthy(s: Option<string>)
  {
    s.Some? && |s.value| > 0
  }

  /** `Notification.should_send_telegram`: the record asks for Telegram and
      the user has a connected profile with notifications switched on. */
  predicate ShouldSendTelegram(n: Notification)
  {
    n.sendTelegram && n.user.profile.Some? &&
    n.user.profile.value.connected && n.user.profile.value.notificationsEnabled
  }

  /** The guard inside `send_telegram_notification`: a Telegram message is
      attempted only for a connected profile with a non-empty chat id.
      It does not look at `notifications_enabled`. */
  predicate TelegramSendAttempted(u: User)
  {
    u.profile.Some? && u.profile.value.connected && Truthy(u.profile.value.telegramId)
  }

  /** The same guard as the preference promises it: a user who switched
      Telegram notifications off is not messaged. */
  predicate TelegramSendAllowed(u: User)
  {
    TelegramSendAttempted(u) && u.profile.value.notificationsEnabled
  }

  /** With the preference honoured, every Telegram send of a reminder row is
      one the row itself says should be sent, and every such row with a
      chat id is sent. */
  lemma TelegramSendAllowedMatchesRecord(n: Notification)
    requires n.sendTelegram
    ensures TelegramSendAllowed(n.user) ==> ShouldSendTelegram(n)
    ensures ShouldSendTelegram(n) && Truthy(n.user.profile.value.telegramId) ==> TelegramSendAllowed(n.user)
  {
  }

  /** The transport guard as written disagrees with the record's own
      predicate: a connected user who switched notifications off is still
      messaged. */
  lemma TelegramSendIgnoresPreference()
    ensures
      var u := User(1, Some(TelegramProfile(Some("42"), true, false, false)));
      var n := NewNotification(u, "read", StreakBroken);
      TelegramSendAttempted(u) && !ShouldSendTelegram(n)
  {
  }

  /** The most recent check-in date (`checkins.order_by('-date').first()`),
      completed or not; `None` when the habit has no check-ins. */
  function LatestCheckin(cs: seq<Checkin>): (r: Option<int>)
    ensures r.None? <==> |cs| == 0
    ensures r.Some? ==> exists i :: 0 <= i < |cs| && cs[i].date == r.value
    ensures r.Some? ==> forall i :: 0 <= i < |cs| ==> cs[i].date <= r.value
  {
    if |cs| == 0 then None
    else
      match LatestCheckin(cs[1..])
      case None => Some(cs[0].date)
      case Some(d) =>
        assert forall i :: 1 <= i < |cs| ==> cs[i] == cs[1..][i - 1];
        if cs[0].date >= d then Some(cs[0].date) else Some(d)
  }

  /** Number of completed check-ins (`checkins.filter(completed=True).count()`). */
  function CompletedCount(cs: seq<Checkin>): (n: nat)
    ensures n <= |cs|
    ensures n == 0 <==> forall i :: 0 <= i < |cs| ==> !cs[i].completed
  {
    if |cs| == 0 then 0
    else
      assert forall i :: 1 <= i < |cs| ==> cs[i] == cs[1..][i - 1];
      (if cs[0].completed then 1 else 0) + CompletedCount(cs[1..])
  }

  /** `Habit.is_checked_today`: a completed check-in exists for `today`. */
  predicate IsCheckedToday(h: Habit, today: int)
  {
    exists i :: 0 <= i < |h.checkins| && h.checkins[i].date == today && h.checkins[i].completed
  }
}
