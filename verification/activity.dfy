/** The weekly activity counter: the `UserActivity` record of main/models.py
    and the lazy-rollover helpers of main/activity_tracker.py.

    A record holds seven per-day counters (Monday .. Sunday), the running
    total and the date its week started. Every read or write first checks
    whether the record belongs to an earlier week and, if so, zeroes it. */
module Activity {
  import opened Wrappers
  import opened Dates

  datatype UserActivity = UserActivity(
    monday: int, tuesday: int, wednesday: int, thursday: int,
    friday: int, saturday: int, sunday: int,
    weekStart: int,
    total: int)
  {
    /** Counter of weekday `i` (0 = Monday). */
    function Get(i: nat): int
      requires i < 7
    {
      match i
      case 0 => monday
      case 1 => tuesday
      case 2 => wednesday
      case 3 => thursday
      case 4 => friday
      case 5 => saturday
      case _ => sunday
    }

    /** The record with counter `i` replaced by `v`; nothing else changes. */
    function With(i: nat, v: int): (r: UserActivity)
      requires i < 7
      ensures r.Get(i) == v
      ensures forall j :: 0 <= j < 7 && j != i ==> r.Get(j) == Get(j)
      ensures r.weekStart == weekStart && r.total == total
    {
      match i
      case 0 => this.(monday := v)
      case 1 => this.(tuesday := v)
      case 2 => this.(wednesday := v)
      case 3 => this.(thursday := v)
      case 4 => this.(friday := v)
      case 5 => this.(saturday := v)
      case _ => this.(sunday := v)
    }

    function Sum(): int
    {
      monday + tuesday + wednesday + thursday + friday + saturday + sunday
    }

    /** The record invariant: the running total is the sum of the days. */
    predicate Valid()
    {
      total == Sum()
    }
  }

  /** A new record, all counters zero. */
  function Fresh(weekStart: int): (r: UserActivity)
    ensures r.Valid() && r.weekStart == weekStart
    ensures forall i :: 0 <= i < 7 ==> r.Get(i) == 0
  {
    UserActivity(0, 0, 0, 0, 0, 0, 0, weekStart, 0)
  }

  /** Replacing one counter shifts the sum by the difference. */
  lemma SumWith(a: UserActivity, i: nat, v: int)
    requires i < 7
    ensures a.With(i, v).Sum() == a.Sum() - a.Get(i) + v
  {
  }

  function LowerChar(c: char): char
  {
    if 'A' <= c <= 'Z' then (c as int + 32) as char else c
  }

  /** `str.lower()` restricted to ASCII letters. */
  function Lower(s: string): (r: string)
    ensures |r| == |s|
  {
    seq(|s|, i requires 0 <= i < |s| => LowerChar(s[i]))
  }

  /** The day-name lookup shared by `get_day_activity` and `add_activity`:
      the index of the lower-cased name among the weekday names, if any. */
  function DayIndex(name: string): (r: Option<nat>)
    ensures r.Some? ==> r.value < 7 && WeekdayNames[r.value] == Lower(name)
    ensures r.None? ==> Lower(name) !in WeekdayNames
  {
    var n := Lower(name);
    if n == "monday" then Some(0)
    else if n == "tuesday" then Some(1)
    else if n == "wednesday" then Some(2)
    else if n == "thursday" then Some(3)
    else if n == "friday" then Some(4)
    else if n == "saturday" then Some(5)
    else if n == "sunday" then Some(6)
    else None
  }

  /** Every weekday name is found at its own index. */
  lemma DayIndexOfWeekdayName(d: int)
    ensures DayIndex(WeekdayName(d)) == Some(Weekday(d))
  {
    var i := Weekday(d);
    assert Lower(WeekdayNames[i]) == WeekdayNames[i];
  }

  /** `get_day_activity`: the named day's counter, 0 for an unknown name. */
  function DayActivity(a: UserActivity, name: string): (r: int)
    ensures Lower(name) !in WeekdayNames ==> r == 0
    ensures forall i :: 0 <= i < 7 && WeekdayNames[i] == Lower(name) ==> r == a.Get(i)
  {
    match DayIndex(name)
    case Some(i) => a.Get(i)
    case None => 0
  }

  /** `get_weekly_data`: seven values, Monday first, each the value
      `get_day_activity` reports for that weekday. */
  function WeeklyData(a: UserActivity): (r: seq<int>)
    ensures |r| == 7
    ensures forall i :: 0 <= i < 7 ==> r[i] == DayActivity(a, WeekdayNames[i])
  {
    var r := [a.monday, a.tuesday, a.wednesday, a.thursday, a.friday, a.saturday, a.sunday];
    assert forall i :: 0 <= i < 7 ==> Lower(WeekdayNames[i]) == WeekdayNames[i];
    r
  }

  /** `add_activity`: a recognised day name adds `amount` to that day and to
      the total and leaves the other six days alone; an unrecognised name
      changes nothing. The total-equals-sum invariant is kept. */
  function AddActivity(a: UserActivity, name: string, amount: int): (r: UserActivity)
    ensures DayIndex(name).None? ==> r == a
    ensures DayIndex(name).Some? ==>
      var i := DayIndex(name).value;
      && r.Get(i) == a.Get(i) + amount
      && (forall j :: 0 <= j < 7 && j != i ==> r.Get(j) == a.Get(j))
      && r.total == a.total + amount
    ensures r.weekStart == a.weekStart
    ensures a.Valid() ==> r.Valid()
  {
    match DayIndex(name)
    case None => a
    case Some(i) =>
      SumWith(a, i, a.Get(i) + amount);
      a.With(i, a.Get(i) + amount).(total := a.total + amount)
  }

  /** `reset_week`: every counter and the total to zero, the week restarted
      at `today` (the date the reset runs, not that week's Monday). */
  function ResetWeek(a: UserActivity, today: int): (r: UserActivity)
    ensures r.Valid()
    ensures forall i :: 0 <= i < 7 ==> r.Get(i) == 0
    ensures r.total == 0 && r.weekStart == today
  {
    Fresh(today)
  }

  /** `should_reset_week`: the record's week started before this week's Monday. */
  predicate ShouldResetWeek(weekStart: int, today: int)
  {
    weekStart < MondayOf(today)
  }

  /** A record is stale exactly when its start date lies in an earlier
      calendar week than `today`. */
  lemma ShouldResetWeekIffEarlierWeek(weekStart: int, today: int)
    ensures ShouldResetWeek(weekStart, today) <==> MondayOf(weekStart) < MondayOf(today)
  {
  }

  /** The lazy rollover applied before every read or write. */
  function Rollover(a: UserActivity, today: int): (r: UserActivity)
    ensures !ShouldResetWeek(r.weekStart, today)
    ensures ShouldResetWeek(a.weekStart, today) ==>
      r == ResetWeek(a, today)
    ensures !ShouldResetWeek(a.weekStart, today) ==> r == a
  {
    if ShouldResetWeek(a.weekStart, today) then ResetWeek(a, today) else a
  }

  /** `track_user_activity`: fetch the user's record (creating it at this
      week's Monday when absent), roll it over if stale, then add `amount` to
      today's weekday. */
  function TrackUserActivity(stored: Option<UserActivity>, today: int, amount: int): (r: UserActivity)
    ensures !ShouldResetWeek(r.weekStart, today)
    ensures (stored.None? || stored.value.Valid()) ==> r.Valid()
    // a stale record is cleared first: only today's counter survives
    ensures stored.Some? && ShouldResetWeek(stored.value.weekStart, today) ==>
      && r.weekStart == today
      && r.total == amount
      && (forall j :: 0 <= j < 7 ==> r.Get(j) == (if j == Weekday(today) then amount else 0))
    // a current record is incremented in place
    ensures stored.Some? && !ShouldResetWeek(stored.value.weekStart, today) ==>
      && r.weekStart == stored.value.weekStart
      && r.total == stored.value.total + amount
      && (forall j :: 0 <= j < 7 ==>
            r.Get(j) == stored.value.Get(j) + (if j == Weekday(today) then amount else 0))
    // a missing record is created at this week's Monday
    ensures stored.None? ==>
      && r.weekStart == MondayOf(today)
      && r.total == amount
      && (forall j :: 0 <= j < 7 ==> r.Get(j) == (if j == Weekday(today) then amount else 0))
  {
    var a := match stored case Some(s) => s case None => Fresh(MondayOf(today));
    DayIndexOfWeekdayName(today);
    AddActivity(Rollover(a, today), WeekdayName(today), amount)
  }

  /** What `get_user_weekly_activity` hands to the statistics view. */
  datatype WeeklySnapshot = WeeklySnapshot(weeklyData: seq<int>, total: int, weekStart: int)

  /** `get_user_weekly_activity`: the (rolled-over) week as a snapshot,
      together with the record as stored afterwards. A missing record is
      created at this week's Monday and reads as seven zeros. */
  function GetUserWeeklyActivity(stored: Option<UserActivity>, today: int): (r: (WeeklySnapshot, UserActivity))
    ensures |r.0.weeklyData| == 7
    ensures !ShouldResetWeek(r.1.weekStart, today)
    ensures r.0.weekStart == r.1.weekStart && r.0.total == r.1.total
    ensures forall i :: 0 <= i < 7 ==> r.0.weeklyData[i] == r.1.Get(i)
    ensures stored.None? ==>
      r.0 == WeeklySnapshot([0, 0, 0, 0, 0, 0, 0], 0, MondayOf(today)) && r.1 == Fresh(MondayOf(today))
    ensures stored.Some? && ShouldResetWeek(stored.value.weekStart, today) ==>
      r.0 == WeeklySnapshot([0, 0, 0, 0, 0, 0, 0], 0, today)
    ensures stored.Some? && !ShouldResetWeek(stored.value.weekStart, today) ==> r.1 == stored.value
  {
    match stored
    case None =>
      (WeeklySnapshot([0, 0, 0, 0, 0, 0, 0], 0, MondayOf(today)), Fresh(MondayOf(today)))
    case Some(a) =>
      var b := Rollover(a, today);
      (WeeklySnapshot(WeeklyData(b), b.total, b.weekStart), b)
  }

  /** Recording then reading on the same day shows exactly the increment:
      today's slot and the total grow by `amount`, the other slots read as
      they did before the write. */
  lemma TrackThenSnapshot(stored: Option<UserActivity>, today: int, amount: int)
    ensures
      var before := GetUserWeeklyActivity(stored, today).0;
      var after := GetUserWeeklyActivity(Some(TrackUserActivity(stored, today, amount)), today).0;
      && after.total == before.total + amount
      && after.weekStart == before.weekStart
      && forall j :: 0 <= j < 7 ==>
           after.weeklyData[j] == before.weeklyData[j] + (if j == Weekday(today) then amount else 0)
  {
  }

  /** Any sequence of recordings on one day keeps `total == sum(days)`. */
  lemma {:induction false} TrackKeepsInvariant(stored: UserActivity, today: int, amounts: seq<int>)
    requires stored.Valid()
    ensures TrackAll(stored, today, amounts).Valid()
    decreases |amounts|
  {
    if |amounts| > 0 {
      TrackKeepsInvariant(TrackUserActivity(Some(stored), today, amounts[0]), today, amounts[1..]);
    }
  }

  /** Several `track_user_activity` calls in a row. */
  function TrackAll(a: UserActivity, today: int, amounts: seq<int>): UserActivity
    decreases |amounts|
  {
    if |amounts| == 0 then a
    else TrackAll(TrackUserActivity(Some(a), today, amounts[0]), today, amounts[1..])
  }
}
