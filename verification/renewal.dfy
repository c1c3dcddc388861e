/**
  `calculateNextRenewalDate` (script.js): the next billing date of a
  subscription, found by stepping from its start date one period at a time
  until the running date is strictly after today.

  Each step is applied to the running date as JavaScript left it, so a
  day-of-month overflow in one step carries into all later ones.
*/
module Renewal {
  import opened Wrappers
  import opened Calendar

  datatype Period = Monthly | Yearly

  /** The period strings the calculation recognises; anything else has no renewal. */
  function ParsePeriod(s: string): (r: Option<Period>)
    ensures r.None? <==> s != "monthly" && s != "yearly"
  {
    if s == "monthly" then Some(Monthly)
    else if s == "yearly" then Some(Yearly)
    else None
  }

  /** The stored spelling of a period. */
  function PeriodName(p: Period): (s: string)
    ensures ParsePeriod(s) == Some(p)
  {
    match p
    case Monthly => "monthly"
    case Yearly => "yearly"
  }

  /** One billing period: `setMonth(+1)` or `setFullYear(+1)` on the running date. */
  function Step(x: Date, p: Period): (r: Date)
    requires Valid(x)
    ensures Valid(r)
    ensures Less(x, r) && MonthIndex(x) < MonthIndex(r)
  {
    match p
    case Monthly => AddMonth(x)
    case Yearly => AddYear(x)
  }

  /** The k-th date of the renewal sequence of x: k steps applied in turn. */
  function Iterate(x: Date, p: Period, k: nat): (r: Date)
    requires Valid(x)
    ensures Valid(r)
    ensures Le(x, r) && MonthIndex(x) + k <= MonthIndex(r)
    decreases k
  {
    if k == 0 then x else Iterate(Step(x, p), p, k - 1)
  }

  /** The number of steps after which the running date x first passes today. */
  function StepsPast(x: Date, p: Period, today: Date): (k: nat)
    requires Valid(x) && Valid(today)
    ensures Less(today, Iterate(x, p, k))
    ensures forall j :: 0 <= j < k ==> Le(Iterate(x, p, j), today)
    decreases if Le(x, today) then MonthIndex(today) - MonthIndex(x) + 1 else 0
  {
    if Le(x, today) then 1 + StepsPast(Step(x, p), p, today) else 0
  }

  /**
    r is the renewal date of start: the first element of start + 1 period,
    + 2 periods, ... that is strictly after today, so that every earlier
    element is on or before today.
  */
  ghost predicate IsNextRenewal(start: Date, p: Period, today: Date, r: Date)
    requires Valid(start) && Valid(today)
  {
    exists k: nat ::
      && 1 <= k
      && r == Iterate(start, p, k)
      && Less(today, r)
      && forall j :: 1 <= j < k ==> Le(Iterate(start, p, j), today)
  }

  /**
    `calculateNextRenewalDate(startDate, period)` with today's date passed in.
    An absent start date (the empty string) or an unknown period gives null.
  */
  function NextRenewalDate(start: Option<Date>, period: string, today: Date): (r: Option<Date>)
    requires start.Some? ==> Valid(start.value)
    requires Valid(today)
    ensures r.None? <==> start.None? || ParsePeriod(period).None?
    ensures r.Some? ==> IsNextRenewal(start.value, ParsePeriod(period).value, today, r.value)
    ensures r.Some? ==> Less(today, r.value) && Le(Step(start.value, ParsePeriod(period).value), r.value)
  {
    match start
    case None => None
    case Some(s) =>
      match ParsePeriod(period)
      case None => None
      case Some(p) =>
        var first := Step(s, p);
        var n := StepsPast(first, p, today);
        var r := Iterate(first, p, n);
        assert r == Iterate(s, p, n + 1);
        assert forall j :: 1 <= j < n + 1 ==> Iterate(s, p, j) == Iterate(first, p, j - 1);
        Some(r)
  }

  /** One more step on the k-th date gives the (k+1)-th. */
  lemma {:induction false} IterateSucc(x: Date, p: Period, k: nat)
    requires Valid(x)
    ensures Iterate(x, p, k + 1) == Step(Iterate(x, p, k), p)
    decreases k
  {
    if k > 0 {
      var y := Step(x, p);
      IterateSucc(y, p, k - 1);
      assert Iterate(x, p, k + 1) == Iterate(y, p, k);
      assert Iterate(x, p, k) == Iterate(y, p, k - 1);
    }
  }

  /** The renewal sequence only moves forward. */
  lemma {:induction false} IterateMonotone(x: Date, p: Period, i: nat, j: nat)
    requires Valid(x)
    requires i <= j
    ensures Le(Iterate(x, p, i), Iterate(x, p, j))
    decreases i
  {
    if i > 0 {
      assert Iterate(x, p, i) == Iterate(Step(x, p), p, i - 1);
      assert Iterate(x, p, j) == Iterate(Step(x, p), p, j - 1);
      IterateMonotone(Step(x, p), p, i - 1, j - 1);
    } else {
      assert Iterate(x, p, i) == x;
    }
  }

  /**
    Conversely, whenever the k-th date is the first one after today, it is the
    renewal date the calculation returns.
  */
  lemma FirstDateAfterTodayIsRenewal(start: Date, p: Period, today: Date, k: nat)
    requires Valid(start) && Valid(today)
    requires 1 <= k && Less(today, Iterate(start, p, k))
    requires forall j :: 1 <= j < k ==> Le(Iterate(start, p, j), today)
    ensures NextRenewalDate(Some(start), PeriodName(p), today) == Some(Iterate(start, p, k))
  {
    var r := NextRenewalDate(Some(start), PeriodName(p), today);
    var k' :| 1 <= k' && r.value == Iterate(start, p, k') && Less(today, r.value)
      && forall j :: 1 <= j < k' ==> Le(Iterate(start, p, j), today);
    var atK', atK := Iterate(start, p, k'), Iterate(start, p, k);
    assert k' < k ==> Le(atK', today);
    assert k < k' ==> Le(atK, today);
    assert k' == k;
  }

  /** No date of the renewal sequence that is after today comes before the renewal date. */
  lemma RenewalIsEarliest(start: Date, p: Period, today: Date, j: nat)
    requires Valid(start) && Valid(today)
    requires 1 <= j && Less(today, Iterate(start, p, j))
    ensures Le(NextRenewalDate(Some(start), PeriodName(p), today).value, Iterate(start, p, j))
  {
    var r := NextRenewalDate(Some(start), PeriodName(p), today);
    var k :| 1 <= k && r.value == Iterate(start, p, k) && Less(today, r.value)
      && forall i :: 1 <= i < k ==> Le(Iterate(start, p, i), today);
    if k <= j {
      IterateMonotone(start, p, k, j);
    }
  }

  /**
    The loop of `calculateNextRenewalDate` after its first increment: keep
    adding one period to the running date while it is on or before today.
  */
  method AdvancePastToday(start: Date, p: Period, today: Date) returns (next: Date)
    requires Valid(start) && Valid(today)
    ensures Valid(next) && Less(today, next)
    ensures IsNextRenewal(start, p, today, next)
  {
    next := Step(start, p);
    ghost var k: nat := 1;
    while Le(next, today)
      invariant 1 <= k
      invariant next == Iterate(start, p, k)
      invariant forall j :: 1 <= j < k ==> Le(Iterate(start, p, j), today)
      decreases MonthIndex(today) - MonthIndex(next)
    {
      ghost var before := next;
      IterateSucc(start, p, k);
      assert forall j :: 1 <= j < k + 1 ==> Le(Iterate(start, p, j), today) by {
        assert Le(before, today);
      }
      next := Step(next, p);
      k := k + 1;
    }
    RenewalWitness(start, p, today, k);
  }

  /** The first index past today names the renewal date. */
  lemma RenewalWitness(start: Date, p: Period, today: Date, k: nat)
    requires Valid(start) && Valid(today)
    requires 1 <= k && Less(today, Iterate(start, p, k))
    requires forall j :: 1 <= j < k ==> Le(Iterate(start, p, j), today)
    ensures IsNextRenewal(start, p, today, Iterate(start, p, k))
  {}

  /** `calculateNextRenewalDate` written as the source writes it, with a loop per period. */
  method CalculateNextRenewalDate(startDate: Option<Date>, period: string, today: Date) returns (r: Option<Date>)
    requires startDate.Some? ==> Valid(startDate.value)
    requires Valid(today)
    ensures r == NextRenewalDate(startDate, period, today)
  {
    if startDate.None? {
      return None;
    }
    var start := startDate.value;
    if period == "monthly" {
      var next := AdvancePastToday(start, Monthly, today);
      SameRenewal(start, Monthly, today, next);
      return Some(next);
    } else if period == "yearly" {
      var next := AdvancePastToday(start, Yearly, today);
      SameRenewal(start, Yearly, today, next);
      return Some(next);
    }
    return None;
  }

  /** Any date meeting the renewal characterisation is the one NextRenewalDate returns. */
  lemma SameRenewal(start: Date, p: Period, today: Date, r: Date)
    requires Valid(start) && Valid(today)
    requires IsNextRenewal(start, p, today, r)
    ensures NextRenewalDate(Some(start), PeriodName(p), today) == Some(r)
  {
    var k: nat :| 1 <= k && r == Iterate(start, p, k) && Less(today, r)
      && forall j :: 1 <= j < k ==> Le(Iterate(start, p, j), today);
    FirstDateAfterTodayIsRenewal(start, p, today, k);
  }

  // ---------------------------------------------------------------------
  // Worked examples
  // ---------------------------------------------------------------------

  /** A renewal found after one step. */
  lemma RenewsAfterOneStep(s: Date, p: Period, today: Date, a: Date)
    requires Valid(s) && Valid(today)
    requires Step(s, p) == a && Less(today, a)
    ensures NextRenewalDate(Some(s), PeriodName(p), today) == Some(a)
  {
    assert Iterate(s, p, 1) == a;
    RenewalWitness(s, p, today, 1);
    SameRenewal(s, p, today, a);
  }

  /** A renewal found after two steps. */
  lemma RenewsAfterTwoSteps(s: Date, p: Period, today: Date, a: Date, b: Date)
    requires Valid(s) && Valid(today)
    requires Step(s, p) == a && Le(a, today)
    requires Step(a, p) == b && Less(today, b)
    ensures NextRenewalDate(Some(s), PeriodName(p), today) == Some(b)
  {
    assert Iterate(s, p, 1) == a;
    IterateSucc(s, p, 1);
    assert Iterate(s, p, 2) == b;
    RenewalWitness(s, p, today, 2);
    SameRenewal(s, p, today, b);
  }

  /** Away from February 29 a yearly step keeps month and day. */
  lemma SameDayNextYear(x: Date)
    requires Valid(x) && x.month != 2
    ensures Step(x, Yearly) == Date(x.year + 1, x.month, x.day)
  {}

  /** Monthly from 2024-01-15, on 2024-03-01: the renewal is 2024-03-15. */
  lemma MonthlyExample(s: Date, today: Date)
    requires s == Date(2024, 1, 15) && today == Date(2024, 3, 1)
    ensures NextRenewalDate(Some(s), "monthly", today) == Some(Date(2024, 3, 15))
  {
    assert Step(s, Monthly) == Date(2024, 2, 15);
    assert Step(Date(2024, 2, 15), Monthly) == Date(2024, 3, 15);
    RenewsAfterTwoSteps(s, Monthly, today, Date(2024, 2, 15), Date(2024, 3, 15));
  }

  /** The first two yearly steps from 2024-01-15. */
  lemma YearlyExampleSteps(s: Date)
    requires s == Date(2024, 1, 15)
    ensures Step(s, Yearly) == Date(2025, 1, 15)
    ensures Step(Date(2025, 1, 15), Yearly) == Date(2026, 1, 15)
  {
    SameDayNextYear(s);
    SameDayNextYear(Date(2025, 1, 15));
  }

  /** Yearly from 2024-01-15, on 2025-06-01: the renewal is 2026-01-15. */
  lemma YearlyExample(s: Date, today: Date)
    requires s == Date(2024, 1, 15) && today == Date(2025, 6, 1)
    ensures NextRenewalDate(Some(s), "yearly", today) == Some(Date(2026, 1, 15))
  {
    YearlyExampleSteps(s);
    RenewsAfterTwoSteps(s, Yearly, today, Date(2025, 1, 15), Date(2026, 1, 15));
  }

  /**
    Overflow compounds: monthly from 2023-01-31 the first step lands on
    2023-03-03 (there is no February 31), and the next step is taken from
    there, so on 2023-03-15 the renewal is 2023-04-03, not 2023-03-31.
  */
  lemma MonthlyOverflowCompounds(s: Date, today: Date)
    requires s == Date(2023, 1, 31) && today == Date(2023, 3, 15)
    ensures NextRenewalDate(Some(s), "monthly", today) == Some(Date(2023, 4, 3))
  {
    OverflowFirstStep(s);
    OverflowSecondStep(Date(2023, 3, 3));
    RenewsAfterTwoSteps(s, Monthly, today, Date(2023, 3, 3), Date(2023, 4, 3));
  }

  /** January 31 plus one month overflows the 28 days of February 2023 into March 3. */
  lemma OverflowFirstStep(s: Date)
    requires s == Date(2023, 1, 31)
    ensures Step(s, Monthly) == Date(2023, 3, 3)
  {
    AddMonthAddsMonthLength(s);
    SerialInjective(AddMonth(s), Date(2023, 3, 3));
  }

  /** March 3 plus one month is April 3: the overflowed day is kept. */
  lemma OverflowSecondStep(d: Date)
    requires d == Date(2023, 3, 3)
    ensures Step(d, Monthly) == Date(2023, 4, 3)
  {}

  /** Yearly from the leap day 2024-02-29, on 2024-06-01: the renewal is 2025-03-01. */
  lemma LeapDayYearlyExample(s: Date, today: Date)
    requires s == Date(2024, 2, 29) && today == Date(2024, 6, 1)
    ensures NextRenewalDate(Some(s), "yearly", today) == Some(Date(2025, 3, 1))
  {
    assert Valid(s);
    RenewsAfterOneStep(s, Yearly, today, Date(2025, 3, 1));
  }

  /**
    A start date still in the future is never itself the renewal: the first
    step is taken before the loop, so the result is one period after it.
  */
  lemma FutureStartSkipsStart(start: Date, p: Period, today: Date)
    requires Valid(start) && Valid(today)
    requires Less(today, start)
    ensures NextRenewalDate(Some(start), PeriodName(p), today) == Some(Step(start, p))
  {
    RenewsAfterOneStep(start, p, today, Step(start, p));
  }

  /** An unknown period string yields no renewal date. */
  lemma UnknownPeriodExample(start: Date, today: Date)
    requires Valid(start) && Valid(today)
    ensures NextRenewalDate(Some(start), "weekly", today) == None
  {}
}
