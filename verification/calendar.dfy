/**
  Local calendar dates as (year, month, day) triples, with the day-of-month
  overflow that JavaScript's `Date` setters perform.

  Months are 1-based here (JavaScript's `getMonth() + 1`). Every date is also
  given a serial day number (days since 1970-01-01), defined with the
  year-start formula of the ECMAScript standard (section 21.4 "Date
  Objects": DayFromYear and MakeDay). The timestamps of local midnights are
  these numbers shifted by the local offset, so comparing two `Date` objects
  at local midnight orders them in the same way as these numbers.
*/
module Calendar {

  datatype Date = Date(year: int, month: int, day: int)

  /** Gregorian leap-year rule. */
  predicate IsLeapYear(y: int) {
    y % 4 == 0 && (y % 100 != 0 || y % 400 == 0)
  }

  function DaysInYear(y: int): int {
    if IsLeapYear(y) then 366 else 365
  }

  function DaysInMonth(y: int, m: int): (n: int)
    requires 1 <= m <= 12
    ensures 28 <= n <= 31
    ensures n == 29 <==> m == 2 && IsLeapYear(y)
  {
    if m == 2 then (if IsLeapYear(y) then 29 else 28)
    else if m == 4 || m == 6 || m == 9 || m == 11 then 30
    else 31
  }

  /** A real calendar day: month in 1..12 and day within that month. */
  predicate Valid(d: Date) {
    1 <= d.month <= 12 && 1 <= d.day <= DaysInMonth(d.year, d.month)
  }

  /** Days from 1970-01-01 to January 1 of year y (ECMAScript DayFromYear). */
  function DayFromYear(y: int): int {
    365 * (y - 1970) + (y - 1969) / 4 - (y - 1901) / 100 + (y - 1601) / 400
  }

  /** Days of year y that precede the first day of month m. */
  function DaysBeforeMonth(y: int, m: int): int
    requires 1 <= m <= 12
  {
    [0, 31, 59, 90, 120, 151, 181, 212, 243, 273, 304, 334][m - 1]
      + (if m > 2 && IsLeapYear(y) then 1 else 0)
  }

  /** Serial day number of a date whose month is in range; the day may overflow. */
  function Serial(d: Date): int
    requires 1 <= d.month <= 12
  {
    DayFromYear(d.year) + DaysBeforeMonth(d.year, d.month) + d.day - 1
  }

  /** Year reached by carrying an arbitrary 1-based month number into year y. */
  function CarryYear(y: int, m: int): int {
    y + (m - 1) / 12
  }

  /** Month within its year of an arbitrary 1-based month number. */
  function CarryMonth(m: int): (r: int)
    ensures 1 <= r <= 12
  {
    (m - 1) % 12 + 1
  }

  /**
    ECMAScript MakeDay for a 1-based month: the serial day of day d of month m
    of year y, where m and d may lie outside their usual ranges.
  */
  function MakeDay(y: int, m: int, d: int): int {
    Serial(Date(CarryYear(y, m), CarryMonth(m), d))
  }

  /**
    JavaScript's `a < b` on two dates at local midnight, read field by field;
    SerialOrderIsCalendarOrder shows it is the comparison of serial days.
  */
  predicate Less(a: Date, b: Date) {
    || a.year < b.year
    || (a.year == b.year && a.month < b.month)
    || (a.year == b.year && a.month == b.month && a.day < b.day)
  }

  /** JavaScript's `a <= b` on two dates at local midnight. */
  predicate Le(a: Date, b: Date) {
    !Less(b, a)
  }

  /** Months elapsed since month 1 of year 0, up to a constant. */
  function MonthIndex(d: Date): int {
    d.year * 12 + d.month
  }

  /**
    The date the setters `setMonth` and `setFullYear` produce for year y,
    month m and day d (ECMAScript MakeDay): months beyond 12 carry into the
    year and days beyond the end of the month carry into the following months.
  */
  function Normalize(y: int, m: int, d: int): (r: Date)
    requires d >= 1
    ensures Valid(r)
    ensures MonthIndex(r) >= y * 12 + m
    ensures d <= DaysInMonth(CarryYear(y, m), CarryMonth(m)) ==> r == Date(CarryYear(y, m), CarryMonth(m), d)
    decreases d
  {
    var cy := CarryYear(y, m);
    var cm := CarryMonth(m);
    if d <= DaysInMonth(cy, cm) then Date(cy, cm, d)
    else Normalize(cy, cm + 1, d - DaysInMonth(cy, cm))
  }

  /** `setMonth(getMonth() + 1)` on a valid date. */
  function AddMonth(x: Date): (r: Date)
    requires Valid(x)
    ensures Valid(r)
    ensures MonthIndex(x) < MonthIndex(r)
    ensures var ny := if x.month == 12 then x.year + 1 else x.year;
            var nm := if x.month == 12 then 1 else x.month + 1;
            x.day <= DaysInMonth(ny, nm) ==> r == Date(ny, nm, x.day)
  {
    CarryNext(x.year, x.month);
    Normalize(x.year, x.month + 1, x.day)
  }

  /** `setFullYear(getFullYear() + 1)` on a valid date. */
  function AddYear(x: Date): (r: Date)
    requires Valid(x)
    ensures Valid(r)
    ensures !(x.month == 2 && x.day == 29) ==> r == Date(x.year + 1, x.month, x.day)
    ensures x.month == 2 && x.day == 29 ==> r == Date(x.year + 1, 3, 1)
  {
    CarryIdentity(x.year + 1, x.month);
    if x.month == 2 && x.day == 29 then
      LeapDayRollsOver(x.year);
      Normalize(x.year + 1, x.month, x.day)
    else
      Normalize(x.year + 1, x.month, x.day)
  }

  /**
    Normalize is ECMAScript MakeDay: the date it returns has exactly the
    serial day number of day d of month m of year y, however far d and m
    overflow.
  */
  lemma {:induction false} NormalizeIsMakeDay(y: int, m: int, d: int)
    requires d >= 1
    ensures Serial(Normalize(y, m, d)) == MakeDay(y, m, d)
    decreases d
  {
    var cy := CarryYear(y, m);
    var cm := CarryMonth(m);
    if d > DaysInMonth(cy, cm) {
      var d' := d - DaysInMonth(cy, cm);
      NormalizeIsMakeDay(cy, cm + 1, d');
      MakeDayNextMonth(cy, cm, d');
    }
  }

  /** One `setMonth(+1)` advances a date by exactly the length of its month. */
  lemma AddMonthAddsMonthLength(x: Date)
    requires Valid(x)
    ensures Serial(AddMonth(x)) == Serial(x) + DaysInMonth(x.year, x.month)
  {
    NormalizeIsMakeDay(x.year, x.month + 1, x.day);
    MakeDayNextMonth(x.year, x.month, x.day);
  }

  /** One `setFullYear(+1)` advances a date by 365 or 366 days. */
  lemma AddYearAddsYearLength(x: Date)
    requires Valid(x)
    ensures Serial(x) + 365 <= Serial(AddYear(x)) <= Serial(x) + 366
  {
    var y, m := x.year, x.month;
    assert Serial(AddYear(x)) == Serial(Date(y + 1, m, x.day)) by {
      NormalizeIsMakeDay(y + 1, m, x.day);
      CarryIdentity(y + 1, m);
    }
    SerialOneYearOn(y, m, x.day);
  }

  /**
    The same month and day one year on lies a year length later, give or
    take the leap day that one of the two years has before that month.
  */
  lemma SerialOneYearOn(y: int, m: int, d: int)
    requires 1 <= m <= 12
    ensures Serial(Date(y, m, d)) + 365 <= Serial(Date(y + 1, m, d)) <= Serial(Date(y, m, d)) + 366
  {
    DayFromYearStep(y);
    LeapDayShift(y, m);
    assert Serial(Date(y + 1, m, d)) - Serial(Date(y, m, d))
        == DaysInYear(y) + DaysBeforeMonth(y + 1, m) - DaysBeforeMonth(y, m);
  }

  /**
    The days before month m differ between two consecutive years by the leap
    day at most, and only one of the two years can have it.
  */
  lemma LeapDayShift(y: int, m: int)
    requires 1 <= m <= 12
    ensures var e := DaysBeforeMonth(y + 1, m) - DaysBeforeMonth(y, m);
      if IsLeapYear(y) then DaysInYear(y) == 366 && -1 <= e <= 0
      else DaysInYear(y) == 365 && 0 <= e <= 1
  {
    assert IsLeapYear(y) ==> !IsLeapYear(y + 1);
  }

  // ---------------------------------------------------------------------
  // Lemmas about the serial day number
  // ---------------------------------------------------------------------

  lemma FloorStep4(a: int)
    ensures (a + 1) / 4 - a / 4 == if (a + 1) % 4 == 0 then 1 else 0
  {}

  lemma FloorStep100(a: int)
    ensures (a + 1) / 100 - a / 100 == if (a + 1) % 100 == 0 then 1 else 0
  {}

  lemma FloorStep400(a: int)
    ensures (a + 1) / 400 - a / 400 == if (a + 1) % 400 == 0 then 1 else 0
  {}

  lemma ModShift4(y: int) ensures (y - 1968) % 4 == 0 <==> y % 4 == 0 {}
  lemma ModShift100(y: int) ensures (y - 1900) % 100 == 0 <==> y % 100 == 0 {}
  lemma ModShift400(y: int) ensures (y - 1600) % 400 == 0 <==> y % 400 == 0 {}

  /** A multiple of 100 is a multiple of 4, and a multiple of 400 one of 100. */
  lemma CenturyDivisibility(y: int)
    ensures y % 100 == 0 ==> y % 4 == 0
    ensures y % 400 == 0 ==> y % 100 == 0
  {
    if y % 100 == 0 {
      FactorMod4(y / 100 * 25);
      assert y == 4 * (y / 100 * 25);
    }
    if y % 400 == 0 {
      FactorMod100(y / 400 * 4);
      assert y == 100 * (y / 400 * 4);
    }
  }

  lemma FactorMod4(t: int) ensures (4 * t) % 4 == 0 {}
  lemma FactorMod100(t: int) ensures (100 * t) % 100 == 0 {}

  /** The year length as the three leap-rule corrections. */
  lemma DaysInYearByRule(y: int)
    ensures DaysInYear(y) == 365 + (if y % 4 == 0 then 1 else 0)
                                 - (if y % 100 == 0 then 1 else 0)
                                 + (if y % 400 == 0 then 1 else 0)
  {
    CenturyDivisibility(y);
  }

  /** Consecutive year starts are one year length apart. */
  lemma DayFromYearStep(y: int)
    ensures DayFromYear(y + 1) == DayFromYear(y) + DaysInYear(y)
  {
    var a4, a100, a400 := y - 1969, y - 1901, y - 1601;
    var b4 := if y % 4 == 0 then 1 else 0;
    var b100 := if y % 100 == 0 then 1 else 0;
    var b400 := if y % 400 == 0 then 1 else 0;
    assert (a4 + 1) / 4 - a4 / 4 == b4 by { FloorStep4(a4); ModShift4(y); }
    assert (a100 + 1) / 100 - a100 / 100 == b100 by { FloorStep100(a100); ModShift100(y); }
    assert (a400 + 1) / 400 - a400 / 400 == b400 by { FloorStep400(a400); ModShift400(y); }
    assert DayFromYear(y) == 365 * (y - 1970) + a4 / 4 - a100 / 100 + a400 / 400;
    assert DayFromYear(y + 1) == 365 * (y - 1970) + 365 + (a4 + 1) / 4 - (a100 + 1) / 100 + (a400 + 1) / 400;
    DaysInYearByRule(y);
  }

  /** A month already in 1..12 carries nothing. */
  lemma CarryIdentity(y: int, m: int)
    requires 1 <= m <= 12
    ensures CarryYear(y, m) == y && CarryMonth(m) == m
  {}

  /** The month after month m of year y. */
  lemma CarryNext(y: int, m: int)
    requires 1 <= m <= 12
    ensures CarryYear(y, m + 1) == if m == 12 then y + 1 else y
    ensures CarryMonth(m + 1) == if m == 12 then 1 else m + 1
  {}

  /** Day d of the month after (y, m) is d plus the length of month m. */
  lemma MakeDayNextMonth(y: int, m: int, d: int)
    requires 1 <= m <= 12
    ensures MakeDay(y, m + 1, d) == Serial(Date(y, m, d)) + DaysInMonth(y, m)
  {
    CarryIdentity(y, m);
    CarryNext(y, m);
    if m == 12 {
      DayFromYearStep(y);
    }
  }

  /** February 29 of a leap year, moved to the next year, becomes March 1. */
  lemma LeapDayRollsOver(y: int)
    requires IsLeapYear(y)
    ensures Normalize(y + 1, 2, 29) == Date(y + 1, 3, 1)
  {
    assert !IsLeapYear(y + 1);
    CarryIdentity(y + 1, 2);
    CarryNext(y + 1, 2);
  }

  // ---------------------------------------------------------------------
  // The serial order is the calendar order
  // ---------------------------------------------------------------------

  /** Month m of year y ends no later than the start of any later month. */
  lemma MonthEndsBefore(y: int, m: int, m2: int)
    requires 1 <= m < m2 <= 12
    ensures DaysBeforeMonth(y, m) + DaysInMonth(y, m) <= DaysBeforeMonth(y, m2)
  {}

  /** Every valid date lies inside its own year. */
  lemma SerialWithinYear(d: Date)
    requires Valid(d)
    ensures DayFromYear(d.year) <= Serial(d) < DayFromYear(d.year + 1)
  {
    DayFromYearStep(d.year);
  }

  /** Year starts increase with the year. */
  lemma {:induction false} DayFromYearMonotone(a: int, b: int)
    requires a < b
    ensures DayFromYear(a + 1) <= DayFromYear(b)
    decreases b - a
  {
    if a + 1 < b {
      DayFromYearMonotone(a + 1, b);
      DayFromYearStep(a + 1);
    }
  }

  /** Comparing serial day numbers is comparing the dates field by field. */
  lemma SerialOrderIsCalendarOrder(a: Date, b: Date)
    requires Valid(a) && Valid(b)
    ensures Serial(a) < Serial(b) <==> Less(a, b)
    ensures Serial(a) <= Serial(b) <==> Le(a, b)
  {
    SerialWithinYear(a);
    SerialWithinYear(b);
    if a.year < b.year {
      DayFromYearMonotone(a.year, b.year);
    } else if b.year < a.year {
      DayFromYearMonotone(b.year, a.year);
    } else if a.month < b.month {
      MonthEndsBefore(a.year, a.month, b.month);
    } else if b.month < a.month {
      MonthEndsBefore(a.year, b.month, a.month);
    }
  }

  /** Distinct valid dates have distinct serial day numbers. */
  lemma SerialInjective(a: Date, b: Date)
    requires Valid(a) && Valid(b)
    requires Serial(a) == Serial(b)
    ensures a == b
  {
    SerialOrderIsCalendarOrder(a, b);
  }
}
