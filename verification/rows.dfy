/**
  `createSubscriptionRow` (script.js): the values one table row shows for a
  subscription, put together from the conversion, the renewal projection
  and the status classification.
*/
module Rows {
  import opened Wrappers
  import opened Calendar
  import opened Renewal
  import opened Status
  import opened Subscriptions
  import opened Costs

  /** The cells of a row, before number and date formatting. */
  datatype Row = Row(
    name: string,
    prices: RowPrices,
    periodLabel: string,
    start: Option<Date>,
    nextRenewal: Option<Date>,
    status: StatusView)

  /** The period cell: "월간" for "monthly" and "연간" for anything else. */
  function PeriodLabel(period: string): (r: string)
    ensures r == "월간" <==> period == "monthly"
    ensures r != "월간" ==> r == "연간"
  {
    if period == "monthly" then "월간" else "연간"
  }

  /** The record's start date, when present, is a real calendar day. */
  predicate WellDated(s: Subscription) {
    StartDateOf(s).Some? ==> Valid(StartDateOf(s).value)
  }

  /**
    The row for a subscription on the day `today`, with the clock read at
    local midnight so that the day difference is a whole number of days.
  */
  function CreateSubscriptionRow(s: Subscription, rate: real, today: Date): (r: Row)
    requires rate > 0.0 && Valid(today) && WellDated(s)
    ensures r.name == s.name
    ensures r.periodLabel == "월간" <==> s.period == "monthly"
    ensures r.prices.krw == r.prices.usd * rate
    ensures r.periodLabel == "월간" ==> r.prices.usd == Contribution(s, rate).monthlyUSD
    ensures r.periodLabel != "월간" ==> r.prices.usd == Contribution(s, rate).yearlyUSD
    ensures r.start == StartDateOf(s)
    ensures r.nextRenewal.None? <==> StartDateOf(s).None? || ParsePeriod(s.period).None?
    ensures r.nextRenewal.Some? ==>
              && Less(today, r.nextRenewal.value)
              && Le(Step(r.start.value, ParsePeriod(s.period).value), r.nextRenewal.value)
              && r.status.statusClass != "status-expired"
    ensures r.nextRenewal.Some? ==>
              && Valid(r.nextRenewal.value)
              && r.status == View(GetRenewalStatus(r.nextRenewal, DaysUntil(today, r.nextRenewal.value)))
    ensures r.nextRenewal.None? ==> r.status == StatusView("", "status-active", "활성")
  {
    var prices := ConvertRow(s, rate);
    RowMatchesContribution(s, rate);
    var start := StartDateOf(s);
    var next := NextRenewalDate(start, s.period, today);
    var status := if next.Some? then View(GetRenewalStatus(next, DaysUntil(today, next.value)))
                  else View(GetRenewalStatus(None, 0));
    ProjectedRenewalNeverExpired(start, s.period, today);
    Row(s.name, prices, PeriodLabel(s.period), start, next, status)
  }

  /**
    A period that is neither "monthly" nor "yearly" is labelled and costed
    as yearly, yet no renewal date is projected for it.
  */
  lemma UnknownPeriodRowExample(s: Subscription, rate: real, today: Date)
    requires rate > 0.0 && Valid(today) && WellDated(s)
    requires s.period == "weekly"
    ensures var r := CreateSubscriptionRow(s, rate, today);
            r.periodLabel == "연간" && r.nextRenewal == None && r.status.text == "활성"
  {
    assert ParsePeriod(s.period) == None;
  }
}
