/**
 The proleptic Gregorian calendar as whole numbers.  Day 0 is Monday 1 January of year 1, the first day a
 date can hold; month 0 is January of year 1.  Both orders are the orders of the dates and of the "YYYY-MM"
 texts they stand for.
 */
module Calendar {
  type Day = nat
  type Month = nat

  predicate IsLeap(year: nat) {
    year % 4 == 0 && (year % 100 != 0 || year % 400 == 0)
  }

  function DaysIn(month: Month): (n: nat)
    ensures 28 <= n <= 31
  {
    var number := month % 12 + 1;
    if number == 2 then
      if IsLeap(month / 12 + 1) then 29 else 28
    else if number == 4 || number == 6 || number == 9 || number == 11 then
      30
    else
      31
  }

  function FirstDay(month: Month): Day {
    if month == 0 then 0 else FirstDay(month - 1) + DaysIn(month - 1)
  }

  function MonthOf(day: Day): (month: Month)
    ensures FirstDay(month) <= day < FirstDay(month + 1)
  {
    MonthFrom(day, 0)
  }

  function MonthFrom(day: Day, month: Month): (r: Month)
    requires FirstDay(month) <= day
    ensures FirstDay(r) <= day < FirstDay(r + 1)
    decreases day - FirstDay(month)
  {
    if day < FirstDay(month + 1) then month else MonthFrom(day, month + 1)
  }

  function IsoWeekday(day: Day): (n: nat)
    ensures 1 <= n <= 7
  {
    day % 7 + 1
  }

  lemma {:induction false} FirstDayMonotone(a: Month, b: Month)
    requires a <= b
    ensures FirstDay(a) + 28 * (b - a) <= FirstDay(b)
    decreases b - a
  {
    if a < b {
      FirstDayMonotone(a, b - 1);
    }
  }

  // The month a day lies in is the only one whose days hold it.
  lemma MonthOfIsUnique(day: Day, month: Month)
    requires FirstDay(month) <= day < FirstDay(month + 1)
    ensures MonthOf(day) == month
  {
    if MonthOf(day) < month {
      FirstDayMonotone(MonthOf(day) + 1, month);
    } else if month < MonthOf(day) {
      FirstDayMonotone(month + 1, MonthOf(day));
    }
  }

  lemma MonthOfMonotone(a: Day, b: Day)
    requires a <= b
    ensures MonthOf(a) <= MonthOf(b)
  {
    if MonthOf(b) < MonthOf(a) {
      FirstDayMonotone(MonthOf(b) + 1, MonthOf(a));
    }
  }

  // A day at or after a month's first day lies in that month or a later one, and a day before it does not.
  lemma MonthOfFirstDay(day: Day, month: Month)
    ensures FirstDay(month) <= day <==> month <= MonthOf(day)
  {
    if month <= MonthOf(day) {
      FirstDayMonotone(month, MonthOf(day));
    } else {
      FirstDayMonotone(MonthOf(day) + 1, month);
    }
  }

  // ---------- against the calendar on the wall ----------

  /** Days of a year before each of its months, leap day aside. */
  const BEFORE_MONTH := [0, 31, 59, 90, 120, 151, 181, 212, 243, 273, 304, 334]

  predicate LeapYear(year: nat) {
    year % 4 == 0 && (year % 100 != 0 || year % 400 == 0)
  }

  lemma MonthLength(years: nat, number: nat)
    requires number < 12
    ensures DaysIn(12 * years + number) ==
      (if number == 11 then 365 else BEFORE_MONTH[number + 1]) - BEFORE_MONTH[number] + if number == 1 && LeapYear(years + 1) then 1 else 0
  {
    assert (12 * years + number) % 12 == number && (12 * years + number) / 12 == years;
  }

  /** Where each month of the year after so many years begins: a leap day lies before it from March on, in years divisible by
      four, of the centuries only those divisible by four hundred. */
  lemma {:induction false} MonthBegins(years: nat, number: nat)
    requires number < 12
    ensures FirstDay(12 * years + number) ==
      FirstDay(12 * years) + BEFORE_MONTH[number] + if number >= 2 && LeapYear(years + 1) then 1 else 0
    decreases number
  {
    if number > 0 {
      MonthBegins(years, number - 1);
      MonthLength(years, number - 1);
      NextMonth(12 * years + (number - 1));
      hide DaysIn, LeapYear, FirstDay;
    }
  }

  lemma NextMonth(month: Month)
    ensures FirstDay(month + 1) == FirstDay(month) + DaysIn(month)
  {
  }

  /** How many of the first so many years are leap years. */
  function LeapYears(years: nat): int {
    years / 4 - years / 100 + years / 400
  }

  lemma OneMoreYear(years: nat)
    requires years > 0
    ensures LeapYears(years) == LeapYears(years - 1) + if LeapYear(years) then 1 else 0
  {
    Quotient(years, 4);
    Quotient(years, 100);
    Quotient(years, 400);
    Centuries(years);
  }

  lemma Centuries(year: nat)
    ensures (year % 400 == 0 ==> year % 100 == 0) && (year % 100 == 0 ==> year % 4 == 0)
  {
    if year % 100 == 0 {
      Fours(year, year / 100);
    }
    if year % 400 == 0 {
      Hundreds(year, year / 400);
    }
  }

  lemma Fours(year: nat, centuries: nat)
    requires year == 100 * centuries
    ensures year % 4 == 0
  {
    var gap := 25 * centuries - year / 4;
    assert 4 * gap == year % 4;
  }

  lemma Hundreds(year: nat, ages: nat)
    requires year == 400 * ages
    ensures year % 100 == 0
  {
    var gap := 4 * ages - year / 100;
    assert 100 * gap == year % 100;
  }

  lemma Quotient(n: nat, d: nat)
    requires n > 0 && (d == 4 || d == 100 || d == 400)
    ensures n / d == (n - 1) / d + if n % d == 0 then 1 else 0
  {
  }

  lemma YearIsLong(years: nat)
    ensures FirstDay(12 * years + 12) == FirstDay(12 * years) + 365 + if LeapYear(years + 1) then 1 else 0
  {
    MonthBegins(years, 11);
    MonthLength(years, 11);
    NextMonth(12 * years + 11);
    hide DaysIn, LeapYear, FirstDay;
  }

  /** The first day after so many whole years: 365 each, and a day for each leap year. */
  lemma YearBegins(years: nat)
    ensures FirstDay(12 * years) == 365 * years + years / 4 - years / 100 + years / 400
  {
    YearsBegin(years);
  }

  lemma {:induction false} YearsBegin(years: nat)
    ensures FirstDay(12 * years) == 365 * years + LeapYears(years)
  {
    if years > 0 {
      hide *;
      YearsBegin(years - 1);
      YearIsLong(years - 1);
      OneMoreYear(years);
      assert 12 * (years - 1) + 12 == 12 * years;
    }
  }

  // 1 January 2024 was a Monday, and 29 February 2024 the last day of its month.
  lemma OneKnownDay(years: nat)
    requires years == 2023
    ensures IsoWeekday(FirstDay(12 * years)) == 1 && FirstDay(12 * years + 2) == FirstDay(12 * years + 1) + 29
  {
    YearBegins(years);
    MonthBegins(years, 1);
    MonthBegins(years, 2);
  }
}
