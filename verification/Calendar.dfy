/** The proleptic Gregorian calendar, as far as the scheduler uses it. Day 0 is 1970-01-01, a Thursday. */
module Calendar {

  const DAY := 86400
  const HOUR := 3600
  const EPOCH_OFFSET := 719528

  /** Monday is 0. */
  type Weekday = w: nat | w < 7

  function WeekdayOf(day: int): Weekday { (day + 3) % 7 }

  predicate IsLeap(year: int) { year % 4 == 0 && (year % 100 != 0 || year % 400 == 0) }

  /** Months are numbered through: 12 times the year, plus the month from 0. */
  function DaysIn(month: int): nat {
    var m := month % 12;
    if m == 1 then (if IsLeap(month / 12) then 29 else 28)
    else if m == 3 || m == 5 || m == 8 || m == 10 then 30 else 31
  }

  /** How many of the years 0, 1, ... before `y` are multiples of `n`. */
  function Multiples(y: int, n: nat): int
    requires n > 0
  {
    (y + n - 1) / n
  }

  function DaysBeforeYear(year: int): int {
    365 * year + Multiples(year, 4) - Multiples(year, 100) + Multiples(year, 400)
  }

  function DaysBeforeMonth(m: nat, leap: bool): nat
    requires m < 12
  {
    [0, 31, 59, 90, 120, 151, 181, 212, 243, 273, 304, 334][m] + (if leap && m > 1 then 1 else 0)
  }

  /** The day number of the first of a month. */
  function MonthStart(month: int): int {
    DaysBeforeYear(month / 12) + DaysBeforeMonth(month % 12, IsLeap(month / 12)) - EPOCH_OFFSET
  }

  lemma NextMonthStart(month: int)
    ensures MonthStart(month + 1) == MonthStart(month) + DaysIn(month)
  {
    hide DaysBeforeYear;
    var y, m := month / 12, month % 12;
    if m == 11 {
      assert (month + 1) / 12 == y + 1 && (month + 1) % 12 == 0;
      YearLength(y);
    } else {
      assert (month + 1) / 12 == y && (month + 1) % 12 == m + 1;
    }
  }

  lemma YearLength(y: int)
    ensures DaysBeforeYear(y + 1) - DaysBeforeYear(y) == if IsLeap(y) then 366 else 365
  {
    hide Multiples;
    MultiplesStep4(y);
    MultiplesStep100(y);
    MultiplesStep400(y);
    CenturiesAreFourths(y);
  }

  lemma MultiplesStep4(y: int)
    ensures Multiples(y + 1, 4) - Multiples(y, 4) == if y % 4 == 0 then 1 else 0
  {
  }

  lemma MultiplesStep100(y: int)
    ensures Multiples(y + 1, 100) - Multiples(y, 100) == if y % 100 == 0 then 1 else 0
  {
  }

  lemma MultiplesStep400(y: int)
    ensures Multiples(y + 1, 400) - Multiples(y, 400) == if y % 400 == 0 then 1 else 0
  {
  }

  lemma CenturiesAreFourths(y: int)
    ensures y % 400 == 0 ==> y % 100 == 0
    ensures y % 100 == 0 ==> y % 4 == 0
  {
    if y % 400 == 0 {
      FourCenturies(y);
    }
    if y % 100 == 0 {
      OneCentury(y);
    }
  }

  lemma FourCenturies(y: int)
    requires y % 400 == 0
    ensures y % 100 == 0
  {
    var k := 4 * (y / 400);
    assert y == 100 * k;
  }

  lemma OneCentury(y: int)
    requires y % 100 == 0
    ensures y % 4 == 0
  {
    var k := 25 * (y / 100);
    assert y == 4 * k;
  }

  lemma MonthsGrow(month: int)
    ensures MonthStart(month - 1) < MonthStart(month) < MonthStart(month + 1)
  {
    hide MonthStart;
    NextMonthStart(month);
    NextMonthStart(month - 1);
  }

  lemma {:induction false} MonthStartsApart(a: int, b: int)
    requires a < b
    ensures MonthStart(a) + 28 <= MonthStart(b)
    decreases b - a
  {
    hide MonthStart;
    NextMonthStart(b - 1);
    if a < b - 1 {
      MonthStartsApart(a, b - 1);
    }
  }

  lemma MonthLengths(month: int)
    ensures 28 <= DaysIn(month) <= 31
  {
  }

  predicate InMonth(day: int, month: int) { MonthStart(month) <= day < MonthStart(month + 1) }

  function SearchMonth(day: int, month: int): (m: int)
    ensures InMonth(day, m)
    decreases if day < MonthStart(month) then MonthStart(month) - day else day - MonthStart(month)
  {
    hide MonthStart;
    MonthsGrow(month);
    if day < MonthStart(month) then
      (if MonthStart(month - 1) <= day then month - 1 else SearchMonth(day, month - 1))
    else if day >= MonthStart(month + 1) then SearchMonth(day, month + 1)
    else month
  }

  function MonthOf(day: int): (m: int)
    ensures InMonth(day, m)
  {
    SearchMonth(day, 12 * 1970)
  }

  function DayOfMonth(day: int): (d: int)
    ensures 1 <= d <= 31
  {
    hide MonthStart, MonthOf;
    NextMonthStart(MonthOf(day));
    day - MonthStart(MonthOf(day)) + 1
  }

  lemma MonthIsUnique(day: int, month: int)
    requires InMonth(day, month)
    ensures MonthOf(day) == month
  {
    hide MonthStart, MonthOf;
    if month < MonthOf(day) {
      MonthStartsApart(month, MonthOf(day));
      if month + 1 < MonthOf(day) {
        MonthStartsApart(month + 1, MonthOf(day));
      }
    } else if MonthOf(day) < month {
      MonthStartsApart(MonthOf(day), month);
      if MonthOf(day) + 1 < month {
        MonthStartsApart(MonthOf(day) + 1, month);
      }
    }
  }

  /** The calendar agrees with some known dates: 1970-01-01, Tuesday 2000-02-29, 2100-03-01. */
  lemma KnownDates()
    ensures MonthStart(12 * 1970) == 0
    ensures MonthOf(11016) == 12 * 2000 + 1 && DayOfMonth(11016) == 29 && WeekdayOf(11016) == 1
    ensures MonthOf(47541) == 12 * 2100 + 2 && DayOfMonth(47541) == 1
  {
    hide MonthOf, MonthStart;
    KnownStarts();
    MonthIsUnique(11016, 12 * 2000 + 1);
    MonthIsUnique(47541, 12 * 2100 + 2);
  }

  lemma KnownYears()
    ensures DaysBeforeYear(1970) == 719528 && DaysBeforeYear(2000) == 730485 && DaysBeforeYear(2100) == 767010
  {
  }

  lemma MonthStartOf(year: int, m: nat)
    requires m < 12
    ensures MonthStart(12 * year + m) == DaysBeforeYear(year) + DaysBeforeMonth(m, IsLeap(year)) - EPOCH_OFFSET
  {
    assert (12 * year + m) / 12 == year && (12 * year + m) % 12 == m;
  }

  lemma KnownStarts()
    ensures MonthStart(12 * 1970) == 0
    ensures MonthStart(12 * 2000 + 1) == 10988 && MonthStart(12 * 2000 + 2) == 11017
    ensures MonthStart(12 * 2100 + 2) == 47541 && MonthStart(12 * 2100 + 3) == 47572
  {
    hide MonthStart, DaysBeforeYear;
    KnownYears();
    MonthStartOf(1970, 0);
    MonthStartOf(2000, 1);
    MonthStartOf(2000, 2);
    MonthStartOf(2100, 2);
    MonthStartOf(2100, 3);
  }
}
