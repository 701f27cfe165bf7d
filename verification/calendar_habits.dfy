/** Habit-completion marks on the home-page calendar
    (main/static/js/components/calendar-habits.js).

    The page keeps one record per date (a day number): whether all habits
    were done, the done and total counts, and the `day_was_complete` flag,
    which no check clears once it is true. Today's record is rebuilt from the
    habit checkboxes on the page; the history reply from the server replaces
    all records once; each calendar cell is then marked completed, partial
    or nothing. */
module CalendarHabits {
  import opened Wrappers
  import opened Dates

  datatype DayRecord = DayRecord(
    allCompleted: bool,
    completedCount: int,
    totalCount: int,
    dayWasComplete: Option<bool>)

  /** The one date the history loader treats specially. */
  function SpecialDate(): int
  {
    DaysFromCivil(2025, 11, 3)
  }

  /** The flag the history loader fills in for a record that lacks one:
      2025-11-03 with two habits done counts as complete, any other day is
      complete when all its habits were done and it had at least one. A
      record that has a flag keeps it. */
  function WithDefaultFlag(date: int, rec: DayRecord): (r: DayRecord)
    ensures r.dayWasComplete.Some?
    ensures rec.dayWasComplete.Some? ==> r == rec
    ensures rec.dayWasComplete.None? ==>
      r == rec.(dayWasComplete := Some(
        (date == SpecialDate() && rec.completedCount == 2) ||
        (rec.allCompleted && rec.totalCount > 0)))
  {
    if rec.dayWasComplete.Some? then rec
    else if date == SpecialDate() && rec.completedCount == 2 then rec.(dayWasComplete := Some(true))
    else rec.(dayWasComplete := Some(rec.allCompleted && rec.totalCount > 0))
  }

  /** The loader's pass over the server's history: the same dates, each
      record unchanged except that it now carries a flag; a flag the server
      sent is kept, a missing one is true exactly for 2025-11-03 with two
      habits done or for a day whose habits were all done and numbered at
      least one. */
  function LoadHistory(server: map<int, DayRecord>): (r: map<int, DayRecord>)
    ensures r.Keys == server.Keys
    ensures forall d :: d in r ==> r[d].dayWasComplete.Some?
    ensures forall d :: d in r ==> r[d].(dayWasComplete := server[d].dayWasComplete) == server[d]
    ensures forall d :: d in r && server[d].dayWasComplete.Some? ==> r[d] == server[d]
    ensures forall d :: d in r && server[d].dayWasComplete.None? ==>
      (r[d].dayWasComplete.value <==>
         (d == SpecialDate() && server[d].completedCount == 2) ||
         (server[d].allCompleted && server[d].totalCount > 0))
  {
    map d | d in server :: WithDefaultFlag(d, server[d])
  }

  /** How a past day that the server sent without a flag is marked once the
      history is loaded: green exactly when it is 2025-11-03 with two
      habits done or all of its habits were done and there was one. */
  lemma LoadedDayMark(server: map<int, DayRecord>, d: int, today: int)
    requires d in server && d != today && server[d].dayWasComplete.None?
    ensures Classify(d, today, LoadHistory(server)[d]) == MarkCompleted <==>
      (d == SpecialDate() && server[d].completedCount == 2) ||
      (server[d].allCompleted && server[d].totalCount > 0)
  {
  }

  /** A habit card's checkbox, if the card has one. */
  datatype Checkbox = Checkbox(disabled: bool, checked: bool)

  /** Counts over the enabled checkboxes: how many, how many checked, and
      whether none is unchecked. */
  datatype Tally = Tally(total: nat, completed: nat, allCompleted: bool)

  predicate Counts(c: Option<Checkbox>)
  {
    c.Some? && !c.value.disabled
  }

  /** Positions of the checkboxes that count, and of those that are checked. */
  function EnabledAt(cards: seq<Option<Checkbox>>): set<int>
  {
    set i | 0 <= i < |cards| && Counts(cards[i])
  }

  function CheckedAt(cards: seq<Option<Checkbox>>): set<int>
  {
    set i | 0 <= i < |cards| && Counts(cards[i]) && cards[i].value.checked
  }

  /** No box of `cards` that counts is unchecked. */
  predicate AllChecked(cards: seq<Option<Checkbox>>)
  {
    forall i :: 0 <= i < |cards| && Counts(cards[i]) ==> cards[i].value.checked
  }

  /** The last card adds its own position, if it counts, and leaves the
      others' in place. */
  lemma EnabledSnoc(cards: seq<Option<Checkbox>>)
    requires |cards| > 0
    ensures var n := |cards| - 1;
      |EnabledAt(cards)| == |EnabledAt(cards[..n])| + (if Counts(cards[n]) then 1 else 0)
  {
    var n := |cards| - 1;
    var front := cards[..n];
    assert forall i :: 0 <= i < n ==> front[i] == cards[i];
    assert EnabledAt(cards) == EnabledAt(front) + (if Counts(cards[n]) then {n} else {});
  }

  lemma CheckedSnoc(cards: seq<Option<Checkbox>>)
    requires |cards| > 0
    ensures var n := |cards| - 1;
      |CheckedAt(cards)| == |CheckedAt(cards[..n])| + (if Counts(cards[n]) && cards[n].value.checked then 1 else 0)
  {
    var n := |cards| - 1;
    var front := cards[..n];
    assert forall i :: 0 <= i < n ==> front[i] == cards[i];
    assert CheckedAt(cards) == CheckedAt(front) + (if Counts(cards[n]) && cards[n].value.checked then {n} else {});
  }

  lemma AllCheckedSnoc(cards: seq<Option<Checkbox>>)
    requires |cards| > 0
    ensures var n := |cards| - 1;
      AllChecked(cards) <==> AllChecked(cards[..n]) && (Counts(cards[n]) ==> cards[n].value.checked)
  {
  }

  /** `checkTodayHabitsCompletion`'s tallies: `total` is the number of
      checkboxes that count (present and enabled), `completed` the number of
      those that are checked, and all-completed holds when none of them is
      unchecked. */
  function TallyCards(cards: seq<Option<Checkbox>>): (t: Tally)
    ensures t.total == |EnabledAt(cards)|
    ensures t.completed == |CheckedAt(cards)|
    ensures t.completed <= t.total <= |cards|
    ensures t.allCompleted <==> AllChecked(cards)
    ensures t.allCompleted && t.total > 0 ==> t.completed == t.total
    ensures t.total == 0 ==> t.allCompleted
  {
    if |cards| == 0 then
      assert EnabledAt(cards) == {} && CheckedAt(cards) == {};
      Tally(0, 0, true)
    else
      var n := |cards| - 1;
      var last := cards[n];
      var rest := TallyCards(cards[..n]);
      EnabledSnoc(cards);
      CheckedSnoc(cards);
      AllCheckedSnoc(cards);
      if Counts(last) then
        Tally(rest.total + 1,
              rest.completed + (if last.value.checked then 1 else 0),
              rest.allCompleted && last.value.checked)
      else rest
  }

  /** What is sent to the server after today's check. */
  datatype Save = SaveComplete | SavePartial | NoSave

  datatype TodayResult = TodayResult(data: map<int, DayRecord>, save: Save)

  /** `checkTodayHabitsCompletion`: with no habit cards nothing happens;
      otherwise today's record is rebuilt from the checkboxes, keeping a true
      `day_was_complete`, and the day is saved as complete, as partial, or not
      at all. */
  function CheckTodayHabitsCompletion(data: map<int, DayRecord>, today: int, cards: seq<Option<Checkbox>>): (r: TodayResult)
    ensures |cards| == 0 ==> r == TodayResult(data, NoSave)
    ensures |cards| > 0 ==> today in r.data
    ensures forall d :: d != today ==> (d in r.data <==> d in data) && (d in data ==> r.data[d] == data[d])
    ensures |cards| > 0 && today in data && data[today].dayWasComplete == Some(true) ==>
      r.data[today].dayWasComplete == Some(true)
    ensures |cards| > 0 ==>
      var t := TallyCards(cards);
      && r.data[today].allCompleted == t.allCompleted
      && r.data[today].completedCount == t.completed
      && r.data[today].totalCount == t.total
      && (r.data[today].dayWasComplete == Some(true) <==>
            (today in data && data[today].dayWasComplete == Some(true)) || (t.allCompleted && t.total > 0))
      && (r.save == SaveComplete <==> t.allCompleted && t.total > 0)
      && (r.save == SavePartial <==> !(t.allCompleted && t.total > 0) && t.completed > 0)
  {
    if |cards| == 0 then TodayResult(data, NoSave)
    else
      var t := TallyCards(cards);
      var wasComplete := today in data && data[today].dayWasComplete == Some(true);
      var dayWasComplete := wasComplete || (t.allCompleted && t.total > 0);
      var rec := DayRecord(t.allCompleted, t.completed, t.total, Some(dayWasComplete));
      var save := if t.allCompleted && t.total > 0 then SaveComplete
                  else if t.completed > 0 then SavePartial
                  else NoSave;
      TodayResult(data[today := rec], save)
  }

  /** Repeated checks of the same day, one per checkbox snapshot. */
  function CheckRepeatedly(data: map<int, DayRecord>, today: int, snapshots: seq<seq<Option<Checkbox>>>): map<int, DayRecord>
    decreases |snapshots|
  {
    if |snapshots| == 0 then data
    else CheckRepeatedly(CheckTodayHabitsCompletion(data, today, snapshots[0]).data, today, snapshots[1..])
  }

  /** `day_was_complete` is sticky: once today has been marked complete, no
      later sequence of checks, whatever the boxes show, clears it. */
  lemma {:induction false} DayWasCompleteSticky(data: map<int, DayRecord>, today: int, snapshots: seq<seq<Option<Checkbox>>>)
    requires today in data && data[today].dayWasComplete == Some(true)
    ensures var r := CheckRepeatedly(data, today, snapshots);
      today in r && r[today].dayWasComplete == Some(true)
    decreases |snapshots|
  {
    if |snapshots| > 0 {
      DayWasCompleteSticky(CheckTodayHabitsCompletion(data, today, snapshots[0]).data, today, snapshots[1..]);
    }
  }

  /** The mark a calendar cell gets. */
  datatype Mark = MarkCompleted | MarkPartial | NoMark

  /** The classification of `updateCalendarMarks` for one date with a
      record: today from the live counts; a past day from its
      `day_was_complete` flag when it has one, from the counts otherwise. */
  function Classify(date: int, today: int, rec: DayRecord): (m: Mark)
    ensures m == MarkPartial ==> rec.completedCount > 0
    ensures date == today ==> (m == MarkCompleted <==> rec.allCompleted && rec.totalCount > 0)
    ensures date != today && rec.dayWasComplete.Some? ==> (m == MarkCompleted <==> rec.dayWasComplete.value)
    ensures date != today && rec.dayWasComplete.None? ==>
      (m == MarkCompleted <==> rec.allCompleted && rec.totalCount > 0)
    ensures m == NoMark <==> m != MarkCompleted && rec.completedCount <= 0
  {
    var completed :=
      if date != today && rec.dayWasComplete.Some? then rec.dayWasComplete.value
      else rec.allCompleted && rec.totalCount > 0;
    if completed then MarkCompleted
    else if rec.completedCount > 0 then MarkPartial
    else NoMark
  }

  /** `updateCalendarMarks` over the numbered cells of a month, cell `i`
      showing day `i + 1`: a day without a record is unmarked; a day with
      one is green when complete (today: all of its habits done and at least
      one; an earlier or later day: its stored flag, or the counts when it
      has none), and yellow when not complete but some habit was done. */
  function UpdateCalendarMarks(data: map<int, DayRecord>, year: int, month: int, days: nat, today: int): (r: seq<Mark>)
    requires 1 <= month <= 12
    ensures |r| == days
    ensures forall i :: 0 <= i < days && DaysFromCivil(year, month, i + 1) !in data ==> r[i] == NoMark
    ensures forall i :: 0 <= i < days && DaysFromCivil(year, month, i + 1) in data ==>
      var date := DaysFromCivil(year, month, i + 1);
      var rec := data[date];
      var complete :=
        if date == today || rec.dayWasComplete.None? then rec.allCompleted && rec.totalCount > 0
        else rec.dayWasComplete.value;
      && (r[i] == MarkCompleted <==> complete)
      && (r[i] == MarkPartial <==> !complete && rec.completedCount > 0)
  {
    seq(days, (i: nat) requires i < days =>
      var date := DaysFromCivil(year, month, i + 1);
      if date in data then Classify(date, today, data[date]) else NoMark)
  }

  /** A past day that was once complete keeps its green mark even after a
      habit is added or unchecked. */
  lemma PastCompleteStaysGreen(date: int, today: int, rec: DayRecord)
    requires date != today && rec.dayWasComplete == Some(true)
    ensures Classify(date, today, rec) == MarkCompleted
  {
  }

  /** After loading, the special date with two habits done is green even if
      more habits are counted now. */
  lemma SpecialDateLoadsComplete(rec: DayRecord, today: int)
    requires rec.dayWasComplete.None? && rec.completedCount == 2
    requires today != SpecialDate()
    ensures Classify(SpecialDate(), today, LoadHistory(map[SpecialDate() := rec])[SpecialDate()]) == MarkCompleted
  {
  }

  /** What can happen on the page after it has loaded: a check of today's
      checkboxes, or the answer to the one history request, `None` for a
      failed request or a reply without success status. */
  datatype Event =
    | Check(cards: seq<Option<Checkbox>>)
    | HistoryResponse(response: Option<map<int, DayRecord>>)

  /** The page's records and whether the history has been loaded; once it
      has, `loadHabitsCompletionHistory` sends no further request. */
  datatype Page = Page(data: map<int, DayRecord>, historyLoaded: bool)

  /** One event. A successful history reply replaces every record the page
      holds, today's included, with the loaded history; a failed one, or
      any reply once the history is loaded, changes nothing. */
  function Step(p: Page, today: int, e: Event): (r: Page)
    ensures r.historyLoaded <==>
      p.historyLoaded || (e.HistoryResponse? && e.response.Some?)
    ensures e.HistoryResponse? && (p.historyLoaded || e.response.None?) ==> r == p
    ensures e.HistoryResponse? && !p.historyLoaded && e.response.Some? ==>
      && r.data == LoadHistory(e.response.value)
      && r.data.Keys == e.response.value.Keys
      && forall d :: d in r.data ==> r.data[d].dayWasComplete.Some?
    ensures e.Check? ==> r == p.(data := CheckTodayHabitsCompletion(p.data, today, e.cards).data)
    ensures e.Check? ==> forall d :: d != today ==> (d in r.data <==> d in p.data)
    ensures p.historyLoaded && today in p.data && p.data[today].dayWasComplete == Some(true) ==>
      today in r.data && r.data[today].dayWasComplete == Some(true)
  {
    match e
    case Check(cards) => p.(data := CheckTodayHabitsCompletion(p.data, today, cards).data)
    case HistoryResponse(response) =>
      if p.historyLoaded || response.None? then p
      else Page(LoadHistory(response.value), true)
  }

  function Run(p: Page, today: int, events: seq<Event>): Page
    decreases |events|
  {
    if |events| == 0 then p
    else Run(Step(p, today, events[0]), today, events[1..])
  }

  /** Once the history is loaded `day_was_complete` is sticky for good: no
      later sequence of checks or replies clears today's flag. */
  lemma {:induction false} StickyOnceLoaded(p: Page, today: int, events: seq<Event>)
    requires p.historyLoaded && today in p.data && p.data[today].dayWasComplete == Some(true)
    ensures var r := Run(p, today, events);
      r.historyLoaded && today in r.data && r.data[today].dayWasComplete == Some(true)
    decreases |events|
  {
    if |events| > 0 {
      StickyOnceLoaded(Step(p, today, events[0]), today, events[1..]);
    }
  }

  /** Before the history arrives the flag is not yet sticky: today marked
      complete by a check loses the mark when the server's reply carries a
      false flag for today. */
  lemma HistoryCanClearFlag(today: int)
    ensures var p := Page(map[today := DayRecord(true, 1, 1, Some(true))], false);
      var reply := map[today := DayRecord(false, 0, 1, Some(false))];
      var r := Step(p, today, HistoryResponse(Some(reply)));
      today in r.data && r.data[today].dayWasComplete == Some(false)
  {
  }
}
