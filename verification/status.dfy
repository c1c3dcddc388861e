/**
  `getRenewalStatus` (script.js): how urgent a renewal is, from the whole
  number of days between now and the renewal date.
*/
module Status {
  import opened Wrappers
  import opened Calendar
  import opened Renewal
  import Text

  /** The colour of the renewal cell: class `expired`, `warning` or none. */
  datatype Urgency = Expired | Warning | Normal

  /** A status: its urgency and the day count shown as "N일 후 갱신", if any. */
  datatype RenewalStatus = RenewalStatus(urgency: Urgency, daysLeft: Option<nat>)

  /** The object `getRenewalStatus` returns, as the strings the table shows. */
  datatype StatusView = StatusView(cssClass: string, statusClass: string, text: string)

  /**
    `getRenewalStatus(renewalDate)` with diffDays, the rounded-up number of
    days from now to the renewal date, passed in. No date means plain active;
    then the boundaries 0, 7 and 30 each belong to the more urgent bucket.
  */
  function GetRenewalStatus(renewalDate: Option<Date>, diffDays: int): (s: RenewalStatus)
    ensures renewalDate.None? ==> s == RenewalStatus(Normal, None)
    ensures renewalDate.Some? ==> (s.urgency == Expired <==> diffDays < 0)
    ensures renewalDate.Some? ==> (s.urgency == Warning <==> 0 <= diffDays <= 7)
    ensures s.daysLeft.Some? <==> renewalDate.Some? && 0 <= diffDays <= 30
    ensures s.daysLeft.Some? ==> s.daysLeft.value == diffDays
  {
    if renewalDate.None? then RenewalStatus(Normal, None)
    else if diffDays < 0 then RenewalStatus(Expired, None)
    else if diffDays <= 7 then RenewalStatus(Warning, Some(diffDays))
    else if diffDays <= 30 then RenewalStatus(Normal, Some(diffDays))
    else RenewalStatus(Normal, None)
  }

  /**
    The three fields of the returned object: each urgency has its own cell
    class and status class; the text is the countdown when there is a day
    count, "만료" for an expired date and "활성" otherwise.
  */
  function View(s: RenewalStatus): (v: StatusView)
    ensures v.cssClass == "expired" <==> s.urgency == Expired
    ensures v.cssClass == "warning" <==> s.urgency == Warning
    ensures v.cssClass == "" <==> s.urgency == Normal
    ensures v.statusClass == "status-expired" <==> s.urgency == Expired
    ensures v.statusClass == "status-warning" <==> s.urgency == Warning
    ensures v.statusClass == "status-active" <==> s.urgency == Normal
    ensures s.daysLeft.Some? ==> v.text == Text.Decimal(s.daysLeft.value) + "일 후 갱신"
    ensures s.daysLeft.None? && s.urgency == Expired ==> v.text == "만료"
    ensures s.daysLeft.None? && s.urgency != Expired ==> v.text == "활성"
  {
    var cssClass := match s.urgency
      case Expired => "expired"
      case Warning => "warning"
      case Normal => "";
    var statusClass := match s.urgency
      case Expired => "status-expired"
      case Warning => "status-warning"
      case Normal => "status-active";
    var text :=
      if s.daysLeft.Some? then Text.Decimal(s.daysLeft.value) + "일 후 갱신"
      else if s.urgency == Expired then "만료"
      else "활성";
    StatusView(cssClass, statusClass, text)
  }

  /** Higher is more urgent. */
  function Severity(u: Urgency): nat {
    match u
    case Expired => 2
    case Warning => 1
    case Normal => 0
  }

  /** The further away the renewal, the less urgent its status. */
  lemma UrgencyDecreasesWithDistance(r: Date, d1: int, d2: int)
    requires d1 <= d2
    ensures Severity(GetRenewalStatus(Some(r), d1).urgency) >= Severity(GetRenewalStatus(Some(r), d2).urgency)
  {}

  /**
    The countdown text carries the day count: its digits read back as
    diffDays, and the status class is `status-warning` exactly in the
    first week.
  */
  lemma ViewShowsDayCount(r: Date, diffDays: int)
    requires 0 <= diffDays <= 30
    ensures var v := View(GetRenewalStatus(Some(r), diffDays));
            var digits := Text.Decimal(diffDays);
            && v.text == digits + "일 후 갱신"
            && Text.DecimalValue(digits) == diffDays
            && (v.statusClass == "status-warning" <==> diffDays <= 7)
  {
    Text.DecimalRoundTrip(diffDays);
  }

  /**
    Whole days from today to a date, both at midnight: the value the
    rounded-up millisecond difference takes when the clock reads today.
  */
  function DaysUntil(today: Date, d: Date): (n: int)
    requires Valid(today) && Valid(d)
    ensures n > 0 <==> Less(today, d)
    ensures n == 0 <==> d == today
    ensures n < 0 <==> Less(d, today)
  {
    SerialOrderIsCalendarOrder(today, d);
    SerialOrderIsCalendarOrder(d, today);
    assert Serial(d) == Serial(today) ==> d == today by {
      if Serial(d) == Serial(today) { SerialInjective(d, today); }
    }
    Serial(d) - Serial(today)
  }

  /**
    The value is a count of days: the date k days after today (with the
    overflow of the `Date` setters) is exactly k days away.
  */
  lemma DaysUntilCountsDays(today: Date, k: nat)
    requires Valid(today)
    ensures DaysUntil(today, Normalize(today.year, today.month, today.day + k)) == k
  {
    NormalizeIsMakeDay(today.year, today.month, today.day + k);
    CarryIdentity(today.year, today.month);
  }

  /**
    A projected renewal date is strictly after today, so a row whose status
    is computed from it is never shown as expired and never as due today.
  */
  lemma ProjectedRenewalNeverExpired(start: Option<Date>, period: string, today: Date)
    requires start.Some? ==> Valid(start.value)
    requires Valid(today)
    ensures var r := NextRenewalDate(start, period, today);
            r.Some? ==>
              var s := GetRenewalStatus(r, DaysUntil(today, r.value));
              s.urgency != Expired && (s.daysLeft.Some? ==> s.daysLeft.value >= 1)
  {
    var r := NextRenewalDate(start, period, today);
    if r.Some? {
      SerialOrderIsCalendarOrder(today, r.value);
    }
  }

  /** Three days ahead is a warning that shows 3; one day past is expired. */
  lemma StatusExamples(r: Date)
    ensures GetRenewalStatus(Some(r), 3) == RenewalStatus(Warning, Some(3))
    ensures View(GetRenewalStatus(Some(r), 3)).text == "3일 후 갱신"
    ensures GetRenewalStatus(Some(r), -1).urgency == Expired
    ensures View(GetRenewalStatus(Some(r), -1)) == StatusView("expired", "status-expired", "만료")
    ensures View(GetRenewalStatus(None, 0)) == StatusView("", "status-active", "활성")
  {}
}
