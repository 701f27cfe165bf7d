/** The month grid of main/static/js/components/calendar.js
    (`initializeCalendar`): Monday-first columns, leading empty cells, one
    numbered cell per day of the month and today's cell marked active. */
module CalendarGrid {
  import opened Wrappers
  import opened Dates

  datatype Cell = Empty | Day(number: nat, active: bool)

  /** Leading empty cells for a month whose 1st has JavaScript weekday
      `firstJsDay` (0 = Sunday): a Sunday start takes 6, any other day
      `firstJsDay - 1`. */
  function StartOffset(firstJsDay: nat): (r: nat)
    requires firstJsDay < 7
    ensures r < 7
    ensures (r + 1) % 7 == firstJsDay
  {
    if firstJsDay == 0 then 6 else firstJsDay - 1
  }

  /** The cells `initializeCalendar` appends for month `month` (1-based)
      of `year`, with `today` the current day of the month: fewer than a
      week of blanks, then every day of the month once, in order, each in
      the Monday-first column of its own weekday and active exactly when it
      is today. */
  function MonthCells(year: int, month: int, today: int): (r: seq<Cell>)
    requires 1 <= month <= 12
    ensures var n := DaysInMonth(year, month);
      var start := |r| - n;
      && 0 <= start < 7
      && (forall i :: 0 <= i < start ==> r[i] == Empty)
      && (forall i :: start <= i < |r| ==> r[i] == Day(i - start + 1, i - start + 1 == today))
      && (forall k :: 1 <= k <= n ==> (start + k - 1) % 7 == Weekday(DaysFromCivil(year, month, k)))
  {
    var start := StartOffset(JsDay(DaysFromCivil(year, month, 1)));
    var n := DaysInMonth(year, month);
    var r := seq(start, _ => Empty) + seq(n, (i: nat) => Day(i + 1, i + 1 == today));
    assert forall k :: 1 <= k <= n ==> (start + k - 1) % 7 == Weekday(DaysFromCivil(year, month, k)) by {
      forall k | 1 <= k <= n {
        DayInWeekdayColumn(year, month, k);
      }
    }
    r
  }

  /** Monday-first layout: the cell of day `k` sits in the column of its
      weekday (0 = Monday). */
  lemma DayInWeekdayColumn(year: int, month: int, k: int)
    requires 1 <= month <= 12
    requires 1 <= k <= DaysInMonth(year, month)
    ensures var start := StartOffset(JsDay(DaysFromCivil(year, month, 1)));
      (start + k - 1) % 7 == Weekday(DaysFromCivil(year, month, k))
  {
    var first := DaysFromCivil(year, month, 1);
    var start := StartOffset(JsDay(first));
    DaysFromCivilStep(year, month, k);
    JsDayFollowsWeekday(first);
    assert start == Weekday(first);
    WeekdayShift(first, k - 1);
  }

  /** Moving `n` days forward moves the weekday `n` places round the week. */
  lemma WeekdayShift(d: int, n: nat)
    ensures Weekday(d + n) == (Weekday(d) + n) % 7
  {
    var q := (d + 3) / 7;
    assert d + 3 == 7 * q + Weekday(d);
    assert d + n + 3 == 7 * q + (Weekday(d) + n);
  }

  /** Exactly one cell is active when `today` is a day of the month. */
  lemma OneActiveCell(year: int, month: int, today: int)
    requires 1 <= month <= 12
    requires 1 <= today <= DaysInMonth(year, month)
    ensures var r := MonthCells(year, month, today);
      forall i :: 0 <= i < |r| ==> (r[i].Day? && r[i].active <==> r[i] == Day(today, true))
  {
  }

  /** `initializeCalendar`: nothing happens when there is no grid element or
      it already holds more than five children; otherwise the grid is
      cleared and filled with the month's cells. */
  function InitializeCalendar(existing: Option<nat>, year: int, month: int, today: int): (r: Option<seq<Cell>>)
    requires 1 <= month <= 12
    ensures r.Some? <==> existing.Some? && existing.value <= 5
    ensures r.Some? ==> r.value == MonthCells(year, month, today)
    ensures r.Some? ==> |r.value| > 5
  {
    if existing.None? || existing.value > 5 then None
    else Some(MonthCells(year, month, today))
  }

  /** A filled grid holds at least 28 cells, so a second initialisation of
      the same grid does nothing. */
  lemma InitializeOnce(year: int, month: int, today: int)
    requires 1 <= month <= 12
    ensures var r := InitializeCalendar(Some(0), year, month, today);
      r.Some? && InitializeCalendar(Some(|r.value|), year, month, today).None?
  {
  }

  /** A click on a day cell: every cell loses the active mark and the clicked
      one gains it. */
  function SelectDay(cells: seq<Cell>, k: nat): (r: seq<Cell>)
    requires k < |cells| && cells[k].Day?
    ensures |r| == |cells|
    ensures forall i :: 0 <= i < |cells| ==> (r[i].Day? <==> cells[i].Day?)
    ensures forall i :: 0 <= i < |cells| && cells[i].Day? ==> r[i].number == cells[i].number
    ensures forall i :: 0 <= i < |cells| && r[i].Day? ==> (r[i].active <==> i == k)
  {
    seq(|cells|, i requires 0 <= i < |cells| =>
      match cells[i]
      case Empty => Empty
      case Day(n, _) => Day(n, i == k))
  }

  /** After a click exactly one cell is active, wherever the mark was. */
  lemma SelectLeavesOneActive(cells: seq<Cell>, k: nat, j: nat)
    requires k < |cells| && cells[k].Day? && j < |cells|
    ensures var r := SelectDay(cells, k);
      (r[j].Day? && r[j].active) <==> j == k
  {
  }
}
