/** Calendar arithmetic over day numbers.

    A date is an `int` counting days since 1970-01-01, which was a Thursday.
    Python's `date.weekday()` numbers the days Monday = 0 .. Sunday = 6 and
    JavaScript's `Date.getDay()` numbers them Sunday = 0 .. Saturday = 6;
    both are defined here so that each caller uses the convention its source
    file uses. */
module Dates {

  /** Python's `date.weekday()`: 0 = Monday .. 6 = Sunday. */
  function Weekday(d: int): (w: nat)
    ensures w < 7
  {
    (d + 3) % 7
  }

  /** JavaScript's `Date.getDay()`: 0 = Sunday .. 6 = Saturday. */
  function JsDay(d: int): (w: nat)
    ensures w < 7
  {
    (d + 4) % 7
  }

  /** The two numberings agree up to the Sunday wrap-around. */
  lemma JsDayFollowsWeekday(d: int)
    ensures JsDay(d) == (Weekday(d) + 1) % 7
  {
  }

  /** One day later is one weekday later, modulo the week. */
  lemma WeekdayStep(d: int)
    ensures Weekday(d + 1) == (Weekday(d) + 1) % 7
  {
  }

  /** The weekday names, in the order `weekday()` numbers them. */
  const WeekdayNames: seq<string> :=
    ["monday", "tuesday", "wednesday", "thursday", "friday", "saturday", "sunday"]

  /** Name of the weekday of `d`, as `get_current_weekday_name` spells it.
      The name identifies the weekday: it is one of the seven names, and it
      sits in the list exactly at the weekday's number. */
  function WeekdayName(d: int): (name: string)
    ensures name in WeekdayNames
    ensures forall i :: 0 <= i < |WeekdayNames| ==> (WeekdayNames[i] == name <==> i == Weekday(d))
  {
    WeekdayNames[Weekday(d)]
  }

  /** Two days have the same name exactly when they are a whole number of
      weeks apart. */
  lemma SameNameWholeWeeks(d: int, e: int)
    ensures WeekdayName(d) == WeekdayName(e) <==> (e - d) % 7 == 0
  {
    var qd, qe := (d + 3) / 7, (e + 3) / 7;
    assert d + 3 == 7 * qd + Weekday(d);
    assert e + 3 == 7 * qe + Weekday(e);
    assert e - d == 7 * (qe - qd) + (Weekday(e) - Weekday(d));
    if WeekdayName(d) == WeekdayName(e) {
      assert Weekday(d) == Weekday(e);
    } else {
      assert Weekday(d) != Weekday(e);
      ShiftedRemainder(qe - qd, Weekday(e) - Weekday(d));
    }
  }

  /** `7 * q + r` is no multiple of 7 when `0 < |r| < 7`. */
  lemma ShiftedRemainder(q: int, r: int)
    requires -7 < r < 7 && r != 0
    ensures (7 * q + r) % 7 != 0
  {
    if r > 0 {
      assert (7 * q + r) % 7 == r;
    } else {
      assert 7 * q + r == 7 * (q - 1) + (r + 7);
      assert (7 * q + r) % 7 == r + 7;
    }
  }

  /** The Monday of the week containing `today`. */
  function MondayOf(today: int): (m: int)
    ensures Weekday(m) == 0
    ensures m <= today <= m + 6
  {
    today - Weekday(today)
  }

  /** A Monday at most six days before a date is that date's week's Monday:
      `MondayOf` is the only Monday it could have returned. */
  lemma MondayOfUnique(today: int, m: int)
    requires Weekday(m) == 0
    requires m <= today <= m + 6
    ensures m == MondayOf(today)
  {
    var k := today - m;
    assert Weekday(today) == (m + 3 + k) % 7;
    assert (m + 3) % 7 == 0;
    assert (m + 3 + k) % 7 == k by {
      var q := (m + 3) / 7;
      assert m + 3 + k == 7 * q + k;
    }
  }

  /** Days since 1970-01-01 of the proleptic Gregorian date `y-m-d`
      (H. Hinnant's days-from-civil algorithm). `m` is 1-based. */
  function DaysFromCivil(y: int, m: int, d: int): int
    requires 1 <= m <= 12
  {
    var y' := if m <= 2 then y - 1 else y;
    var era := y' / 400;
    var yoe := y' - era * 400;
    var mp := (m + 9) % 12;
    var doy := (153 * mp + 2) / 5 + d - 1;
    var doe := yoe * 365 + yoe / 4 - yoe / 100 + doy;
    era * 146097 + doe - 719468
  }

  /** Successive days of one month are successive day numbers. */
  lemma DaysFromCivilStep(y: int, m: int, d: int)
    requires 1 <= m <= 12
    ensures DaysFromCivil(y, m, d) == DaysFromCivil(y, m, 1) + d - 1
  {
  }

  predicate IsLeapYear(y: int)
  {
    (y % 4 == 0 && y % 100 != 0) || y % 400 == 0
  }

  /** Length of month `m` (1-based) of year `y`; what JavaScript's
      `new Date(y, m, 0).getDate()` yields. */
  function DaysInMonth(y: int, m: int): (n: nat)
    requires 1 <= m <= 12
    ensures 28 <= n <= 31
    ensures m == 2 ==> (n == 29 <==> IsLeapYear(y))
  {
    if m == 2 then (if IsLeapYear(y) then 29 else 28)
    else if m == 4 || m == 6 || m == 9 || m == 11 then 30
    else 31
  }

  /** Day `DaysInMonth(y, m)` is the last of its month: the next day number is
      the 1st of the following month. This is the property JavaScript's
      day-0 trick relies on. */
  lemma MonthEndsBeforeNext(y: int, m: int)
    requires 1 <= m <= 12
    ensures DaysFromCivil(y, m, 1) + DaysInMonth(y, m) ==
      if m == 12 then DaysFromCivil(y + 1, 1, 1) else DaysFromCivil(y, m + 1, 1)
  {
    CivilSplit(y, m, 1);
    if m == 12 {
      CivilSplit(y + 1, 1, 1);
    } else {
      CivilSplit(y, m + 1, 1);
    }
    MonthOffsetStep(y, m);
    if m == 2 {
      MarchYearLength(y);
      CivilSplit(y, 3, 1);
      CivilSplit(y - 1, 3, 1);
    }
  }

  /** Month offsets grow by the month lengths; February ends the March-based
      year. */
  lemma MonthOffsetStep(y: int, m: int)
    requires 1 <= m <= 12
    ensures m == 2 ==> MonthOffset(m) + DaysInMonth(y, m) == if IsLeapYear(y) then 366 else 365
    ensures m == 12 ==> MonthOffset(m) + DaysInMonth(y, m) == MonthOffset(1)
    ensures m != 2 && m != 12 ==> MonthOffset(m) + DaysInMonth(y, m) == MonthOffset(m + 1)
  {
  }

  /** Days of the March-based year before the 1st of month `m`. */
  function MonthOffset(m: int): int
    requires 1 <= m <= 12
  {
    (153 * ((m + 9) % 12) + 2) / 5
  }

  /** `DaysFromCivil` as the year's March 1st plus the month's offset: the
      year that starts in March is the previous one for January and
      February. */
  lemma CivilSplit(y: int, m: int, d: int)
    requires 1 <= m <= 12
    ensures DaysFromCivil(y, m, d) == MarchFirst(if m <= 2 then y - 1 else y) + MonthOffset(m) + d - 1
  {
  }

  /** Days from 0000-03-01 to the 1st of March of year `y`, plus the epoch
      shift: the part of `DaysFromCivil` that depends on the year alone. */
  function MarchFirst(y: int): int
  {
    var era := y / 400;
    var yoe := y - era * 400;
    era * 146097 + yoe * 365 + yoe / 4 - yoe / 100 - 719468
  }

  /** The 1st of March of `y` comes 365 days after that of `y - 1`, plus one
      when `y` is a leap year. */
  lemma MarchYearLength(y: int)
    ensures DaysFromCivil(y, 3, 1) - DaysFromCivil(y - 1, 3, 1) == if IsLeapYear(y) then 366 else 365
  {
    CivilSplit(y, 3, 1);
    CivilSplit(y - 1, 3, 1);
    var era := (y - 1) / 400;
    var yoe := (y - 1) - era * 400;
    if yoe == 399 {
      CenturyStart(era);
    } else {
      InsideEra(era, yoe);
    }
  }

  /** Crossing into a new 400-year era: year `400 * (era + 1)` is a leap
      year and the year before it ends the old era. */
  lemma CenturyStart(era: int)
    ensures MarchFirst(400 * (era + 1)) - MarchFirst(400 * (era + 1) - 1) == 366
    ensures IsLeapYear(400 * (era + 1))
  {
    var y := 400 * (era + 1);
    assert y / 400 == era + 1;
    assert (y - 1) / 400 == era;
  }

  /** Inside one era a year adds 365 days, plus the leap day of the year
      that begins. */
  lemma InsideEra(era: int, yoe: int)
    requires 0 <= yoe < 399
    ensures var y := 400 * era + yoe + 1;
      MarchFirst(y) - MarchFirst(y - 1) == if IsLeapYear(y) then 366 else 365
  {
    var r := yoe + 1;
    EraOf(era, r);
    EraOf(era, yoe);
    var step := (r / 4 - yoe / 4) - (r / 100 - yoe / 100);
    assert MarchFirst(400 * era + r) - MarchFirst(400 * era + yoe) == 365 + step;
    QuarterStep(yoe);
    CenturyStep(yoe);
    LeapInEra(era, r);
    LeapBelowEra(r);
    CenturyIsQuarter(r);
  }

  /** Below 400 a year is a leap year by the 4 and 100 rules alone. */
  lemma LeapBelowEra(r: int)
    requires 0 < r < 400
    ensures IsLeapYear(r) <==> r % 4 == 0 && r % 100 != 0
  {
    assert r % 400 == r;
  }

  /** A multiple of 100 is a multiple of 4. */
  lemma CenturyIsQuarter(n: int)
    ensures n % 100 == 0 ==> n % 4 == 0
  {
    if n % 100 == 0 {
      var k := n / 100;
      assert n == 4 * (25 * k);
    }
  }

  /** A year `400 * era + r` with `0 <= r < 400` lies in era `era`. */
  lemma EraOf(era: int, r: int)
    requires 0 <= r < 400
    ensures MarchFirst(400 * era + r) == era * 146097 + r * 365 + r / 4 - r / 100 - 719468
  {
    assert (400 * era + r) / 400 == era;
  }

  /** Leap years repeat every 400 years. */
  lemma LeapInEra(era: int, r: int)
    ensures IsLeapYear(400 * era + r) <==> IsLeapYear(r)
  {
    ShiftMod4(100 * era, r);
    ShiftMod100(4 * era, r);
    ShiftMod400(era, r);
  }

  lemma ShiftMod4(a: int, r: int)
    ensures (4 * a + r) % 4 == r % 4
  {
  }

  lemma ShiftMod100(a: int, r: int)
    ensures (100 * a + r) % 100 == r % 100
  {
  }

  lemma ShiftMod400(a: int, r: int)
    ensures (400 * a + r) % 400 == r % 400
  {
  }

  /** Moving from `n` to `n + 1` adds one to `n / 4` exactly at a multiple
      of 4. */
  lemma QuarterStep(n: int)
    ensures (n + 1) / 4 - n / 4 == if (n + 1) % 4 == 0 then 1 else 0
  {
  }

  /** Moving from `n` to `n + 1` adds one to `n / 100` exactly at a multiple
      of 100. */
  lemma CenturyStep(n: int)
    ensures (n + 1) / 100 - n / 100 == if (n + 1) % 100 == 0 then 1 else 0
  {
  }
}
