# Subscription dashboard: renewal dates, status and dual-currency costs

A Dafny model of the calculation layer of a client-side dashboard (`script.js`)
that keeps bookmarked AI-service links by category and tracks recurring
subscriptions priced in US dollars or Korean won. The model covers:

- **Renewal projection** (`calculateNextRenewalDate`). A start date is advanced
  by one month (`setMonth(+1)`) or one year (`setFullYear(+1)`). This is done
  once unconditionally, then again while the running date is `<= today`. Dates
  are `(year, month, day)` triples. `Calendar.Normalize` reproduces the
  day-of-month overflow of JavaScript's `Date`: January 31 plus one month is
  March 2 or 3, and February 29 plus one year is March 1. Each step is applied
  to the already overflowed running date, so the drift compounds.
- **Renewal status** (`getRenewalStatus`). A whole-day difference is sorted into
  four buckets: expired, warning with a day count, active with a day count, and
  plain active. An absent date is active.
- **Cost figures.** `createSubscriptionRow` converts each row's price. The fold
  in `updateStats` produces monthly and yearly totals in both currencies. Money
  is a Dafny `real`.
- **List handlers.** The add/edit form validation, edit and delete of
  subscriptions, and adding and deleting services.
- **Service search** (`filterServices`).

The modules follow the program's concerns:

| module | file | contents |
|---|---|---|
| `Wrappers` | wrappers.dfy | `Option`, `Result` |
| `Calendar` | calendar.dfy | dates, JavaScript month/day overflow, serial day numbers (section 21.4 of ECMA-262, Date Objects: DayFromYear, MakeDay) |
| `Text` | text.dfy | `trim`, `toLowerCase`, `includes`, decimal rendering |
| `Renewal` | renewal.dfy | `calculateNextRenewalDate` |
| `Status` | status.dfy | `getRenewalStatus` |
| `Subscriptions` | subscriptions.dfy | the subscription record, form validation, add / edit / delete |
| `Costs` | costs.dfy | per-subscription contribution, `updateStats`, row conversion |
| `Rows` | rows.dfy | the values one table row shows |
| `Services` | services.dfy | service add / delete and the name search |

### Behaviour worth noting

- **Unknown currencies and periods.** A currency other than `"KRW"` is counted
  as dollars, including an absent one. A period other than `"monthly"` is
  counted as yearly. Records with such values are not skipped.
  `calculateNextRenewalDate` still returns `null` for any period other than
  `"monthly"` and `"yearly"`.
- **Future start dates.** The first step is taken before the loop, so a start
  date that is still in the future is never the result. The renewal is one
  period after it (`Renewal.FutureStartSkipsStart`). "One period before the
  result is `<= today`" therefore holds only when at least two steps were
  taken. The property that holds in general is stated over the iterated
  sequence: every earlier element of `start + 1p, +1p, …` is `<= today`
  (`Renewal.RenewalIsEarliest`).
- **Zero price.** The test `!price` rejects a zero price as a *missing field*.
  Only a negative price reaches the "must be greater than 0" alert.
- **Search term.** The term is checked for blankness after trimming. It is
  then lower-cased but not trimmed, so surrounding spaces take part in the
  match (`Services.PaddedTermNeedsSpace`).

## Model

| member | source | states |
|---|---|---|
| Calendar.Normalize | script.js:1047-1049 | the date `setMonth` / `setFullYear` land on (ECMAScript MakeDay) is a real calendar day; a day that fits its (carried) month is kept; otherwise it carries into later months, never earlier than month m |
| Calendar.NormalizeIsMakeDay | script.js:1047-1049 | the normalised date has exactly the serial day of day d of month m of year y (ECMAScript MakeDay), however far d and m overflow |
| Calendar.AddMonth | script.js:1048-1049 | `setMonth(getMonth()+1)` gives a valid date in a later month; when the day exists next month it is the same day of the next month (December wraps to January of the next year) |
| Calendar.AddMonthAddsMonthLength | script.js:1048-1049 | one `setMonth(+1)` moves a date forward by exactly the length of its month |
| Calendar.AddYear | script.js:1059-1060 | `setFullYear(+1)` keeps month and day, except that February 29 becomes March 1 of the next year |
| Calendar.AddYearAddsYearLength | script.js:1059-1060 | one `setFullYear(+1)` moves a date forward by 365 or 366 days |
| Calendar.LeapDayRollsOver | script.js:1059-1060 | February 29 carried into a common year is March 1 |
| Calendar.DayFromYearStep | script.js:1059-1060 | consecutive year starts lie one year length (365 or 366 days) apart |
| Calendar.SerialOneYearOn | script.js:1059-1060 | the same month and day one year later lies 365 or 366 days later |
| Calendar.SerialOrderIsCalendarOrder | script.js:1051 | comparing two valid dates at midnight (`nextRenewal <= today`, a timestamp comparison) is comparing them year, month, day |
| Calendar.SerialInjective | script.js:1051 | two valid dates with the same timestamp are the same date |
| Renewal.ParsePeriod | script.js:1045-1069 | only "monthly" and "yearly" select a branch; every other period string falls through to `null` |
| Renewal.PeriodName | script.js:1045-1056 | the period strings read back as the period they name |
| Renewal.Step | script.js:1045-1060 | one period step gives a valid date strictly later than the running date, in a later month |
| Renewal.Iterate | script.js:1051-1053 | k steps never go back and advance at least k months |
| Renewal.IterateSucc | script.js:1051-1053 | each loop iteration applies one more step to the running date |
| Renewal.IterateMonotone | script.js:1051-1053 | the running date never moves backwards: later elements of the sequence are not earlier |
| Renewal.StepsPast | script.js:1051-1053 | the loop stops: some number of steps passes today, and every element before it is `<= today` |
| Renewal.NextRenewalDate | script.js:1037-1070 | null exactly when the start date is absent or the period is unknown; otherwise the first element (k >= 1) of start+1p, +1p, … that is strictly after today, with every earlier element `<= today`; it is at least one period after the start |
| Renewal.FirstDateAfterTodayIsRenewal | script.js:1051-1053 | any element of the sequence that is after today while all its predecessors are not is the renewal date |
| Renewal.RenewalIsEarliest | script.js:1051-1053 | no element of the sequence that is after today comes before the renewal date |
| Renewal.AdvancePastToday | script.js:1051-1053 | the `while (nextRenewal <= today)` loop ends at a valid date after today that is the first qualifying element |
| Renewal.CalculateNextRenewalDate | script.js:1037-1070 | the function as written, with its two branches and loops, returns the projected renewal date |
| Renewal.MonthlyExample | script.js:1045-1055 | monthly from 2024-01-15, on 2024-03-01, renews on 2024-03-15 |
| Renewal.YearlyExample | script.js:1056-1066 | yearly from 2024-01-15, on 2025-06-01, renews on 2026-01-15 |
| Renewal.MonthlyOverflowCompounds | script.js:1045-1055 | monthly from 2023-01-31, on 2023-03-15, renews on 2023-04-03: the overflow to March 3 carries into every later step |
| Renewal.OverflowFirstStep | script.js:1048-1049 | January 31, 2023 plus one month is March 3 |
| Renewal.OverflowSecondStep | script.js:1052 | March 3, 2023 plus one month is April 3 |
| Renewal.LeapDayYearlyExample | script.js:1056-1066 | yearly from 2024-02-29, on 2024-06-01, renews on 2025-03-01 |
| Renewal.FutureStartSkipsStart | script.js:1047-1053 | a start date after today is never the renewal; the renewal is one period after it |
| Renewal.UnknownPeriodExample | script.js:1069 | the period "weekly" gives no renewal date |
| Status.View | script.js:1073-1110 | each urgency has its own pair of classes (`expired`/`status-expired`, `warning`/`status-warning`, none/`status-active`); the text is the countdown "N일 후 갱신" when a day count is shown, "만료" when expired, "활성" otherwise |
| Status.DaysUntilCountsDays | script.js:1081-1084 | the date k days after today (with the setters' overflow) is exactly k days away, so the difference counts days |
| Status.DaysUntil | script.js:1081-1084 | the whole-day difference between two midnights is positive exactly when the date is after today, zero exactly on today, negative exactly when it is past |
| Status.GetRenewalStatus | script.js:1072-1111 | no date is plain active; a negative difference is expired; 0..7 is a warning; the day count is shown exactly for 0..30; 7 and 30 fall in the tighter bucket |
| Status.UrgencyDecreasesWithDistance | script.js:1086-1110 | a renewal further away is never more urgent |
| Status.ViewShowsDayCount | script.js:1092-1103 | for 0..30 days the text is the decimal day count followed by "일 후 갱신"; its digits read back as the count; the class is `status-warning` exactly up to 7 |
| Status.ProjectedRenewalNeverExpired | script.js:1051-1086 | a projected renewal date is after today, so its status, counting whole days from midnight, is never expired and never shows 0 days |
| Status.StatusExamples | script.js:1073-1091 | three days ahead is a warning showing "3일 후 갱신"; one day past is expired "만료"; no date is "활성" |
| Text.TrimStart | script.js:231 | the result is a suffix; everything removed is white space; the result does not start with white space |
| Text.TrimEnd | script.js:231 | the result is a prefix; everything removed is white space; the result does not end with white space |
| Text.Trim | script.js:231 | the result is a contiguous slice of the input with no white space at either end, and everything cut off on either side is white space |
| Text.TrimIsSlice | script.js:231 | trimming both ends leaves a slice of the input with only white space cut off on either side |
| Text.TrimKeepsTrimmed | script.js:231 | a string without white space at its ends is its own trim |
| Text.TrimEmptyIffBlank | script.js:684 | `!s.trim()` holds exactly when every character of s is white space |
| Text.LowerChar | script.js:693 | the result is never an upper-case letter; a non-upper-case character is kept; an upper-case letter moves to its lower-case partner 32 code points up |
| Text.ToLower | script.js:693 | the result has the input's length and no upper-case letter; each character that is not upper case is kept in place, and each upper-case one becomes its lower-case partner |
| Text.ToLowerIdempotent | script.js:693 | lower-casing twice is lower-casing once |
| Text.Contains | script.js:701 | `includes` is true exactly when the needle occurs at some position of the haystack |
| Text.Decimal | script.js:1096 | the decimal rendering is a non-empty digit string without a leading zero |
| Text.DecimalRoundTrip | script.js:1096 | reading the rendered digits back gives the number |
| Subscriptions.ValidateForm | script.js:237-245 | accepted exactly when the trimmed name is non-empty, the price is a number above 0, and period, currency and start date are present; the "greater than 0" error is raised exactly for a negative price when the rest is complete; accepted values carry the trimmed name |
| Subscriptions.AddSubscription | script.js:228-258 | a rejected form leaves the list alone with the same error; an accepted one appends exactly one new record with the new id and the form's fields, and keeps the old list as prefix |
| Subscriptions.EditSubscription | script.js:1152-1170 | an accepted edit changes only the record at the index; it overwrites the five form fields and keeps the id and the legacy renewal date |
| Subscriptions.StartDateOf | script.js:394 | the start date when there is one, otherwise the legacy renewal date; absent only when both are |
| Subscriptions.EditForm | script.js:1118-1123 | the edit form carries the record's name, price and period; a missing currency is shown as USD, a present one is kept; the start date field is the start date or else the legacy renewal date |
| Subscriptions.EditWithAcceptedForm | script.js:1152-1170 | an accepted edit writes the five form fields over the record at the index and changes nothing else |
| Subscriptions.EditFormOfWellFormedIsAccepted | script.js:1114-1123 | the edit form filled from a complete record with a trimmed name passes validation with the record's own values |
| Subscriptions.CompleteFormAccepted | script.js:1152-1160 | a complete form with a positive price and a trimmed name is accepted unchanged |
| Subscriptions.EditUnchangedIsIdentity | script.js:1114-1170 | opening the edit form on a well-formed record and saving without changes gives back the same list |
| Subscriptions.RemoveAt | script.js:426 | `splice(index, 1)` removes the element at the index and shifts the rest down; an index past the end removes nothing |
| Subscriptions.RemoveAtIsPermutationMinusOne | script.js:426 | removal takes out exactly the one element at the index, as a multiset |
| Subscriptions.DeleteUndoesAdd | script.js:426 | deleting the record just appended restores the list |
| Subscriptions.DeleteSubscription | script.js:424-431 | a cancelled confirmation changes nothing; a confirmed delete removes exactly the record at the index (one fewer record, as a multiset), keeps the records before it in place and moves each later one down by one; an out-of-range index changes nothing |
| Costs.EffectiveCurrency | script.js:441-443 | a record counts in won exactly when its currency is "KRW"; absent or anything else is dollars |
| Costs.Contribution | script.js:441-469 | each record adds figures in which yearly is 12 × monthly and won is dollars × rate; the figure in its own currency and period is its price |
| Costs.ConsistentAdd | script.js:443-469 | adding consistent figures keeps yearly = 12 × monthly and won = dollars × rate |
| Costs.Aggregate | script.js:434-470 | the totals of an empty list are all 0; the four totals keep yearly = 12 × monthly and won = dollars × rate |
| Costs.AggregateSnoc | script.js:440 | visiting one more record adds its contribution to the running totals |
| Costs.AggregateAppend | script.js:434-470 | the totals of `a ++ b` are the totals of a plus the totals of b |
| Costs.AggregateOrderIrrelevant | script.js:434-470 | swapping two blocks of the list does not change the totals |
| Costs.AggregatePermutation | script.js:434-470 | any two lists with the same records, in any order, give the same totals |
| Costs.AggregateSingle | script.js:434-470 | a one-record list totals to that record's contribution |
| Costs.Visit | script.js:440-469 | the `forEach` body as written grows the four accumulators by the record's contribution |
| Costs.UpdateStats | script.js:434-470 | the accumulator loop as written ends at the list's totals, which are consistent |
| Costs.MissingCurrencyCountsAsUSD | script.js:441 | a record without a currency is counted exactly like a dollar record |
| Costs.OtherPeriodCountsAsYearly | script.js:445-468 | a period other than "monthly" is counted exactly like "yearly" |
| Costs.CurrencyRoundTrip | script.js:443-469 | a dollar price and that price converted to won contribute the same figures |
| Costs.ConvertRow | script.js:380-391 | the won column is the dollar column × rate; the column of the record's own currency is its price |
| Costs.RowMatchesContribution | script.js:380-391 | a row's prices equal the record's monthly contribution for a monthly record and its yearly contribution otherwise |
| Costs.DollarMonthlyExample | script.js:434-470 | 10 dollars monthly at 1300 totals 10 / 120 dollars and 13000 / 156000 won |
| Costs.WonYearlyExample | script.js:434-470 | 120000 won yearly at 1200 totals 100/12 / 100 dollars and 10000 / 120000 won |
| Rows.PeriodLabel | script.js:404 | the period cell reads "월간" exactly for "monthly" and "연간" for every other period |
| Rows.CreateSubscriptionRow | script.js:376-421 | the row shows the record's name; it is labelled "월간" exactly for a monthly record; the row's won price is its dollar price × rate, and both agree with the statistics; the start is the start date, or else the legacy renewal date; a renewal is shown exactly when there is a start and a known period, and is after today, one period or more after the start, and never marked expired; with one the status is the classification of the whole days until it, without one it is "활성" |
| Rows.UnknownPeriodRowExample | script.js:394-404 | a "weekly" record is labelled and costed as yearly yet has no renewal date |
| Services.ValidateService | script.js:196-211 | the missing-field alert is raised exactly when the trimmed name or url is empty or no category is chosen; the url alert exactly when the rest is complete but the url does not parse; an accepted service has the trimmed values |
| Services.AddService | script.js:193-219 | a rejected form leaves the catalogue alone with the same error; an accepted service is appended to its category, which is created if absent; every other category is untouched |
| Services.DeleteService | script.js:340-347 | a cancelled confirmation changes nothing; a confirmed delete removes exactly the service at the index from the category (as a multiset), keeps the services before it in place and moves each later one down by one; other categories and the set of categories are unchanged |
| Services.DeleteUndoesAddService | script.js:214-218 | a confirmed delete of the service just added to an existing category restores the catalogue |
| Services.MatchingFrom | script.js:699-712 | the listed positions are exactly the matching services, in ascending list order |
| Services.FilterCategory | script.js:699-716 | a category is shown exactly when one of its services matches, and then lists all matches in order |
| Services.FilterServices | script.js:678-718 | a blank term shows everything; otherwise each of the six categories in page order is shown exactly when one of its services' lower-cased names contains the lower-cased term, and a shown category lists exactly the positions of those services, in list order |
| Services.LowerKeepsWhiteSpace | script.js:684-693 | lower-casing neither creates nor removes white space |
| Services.FilterIgnoresCase | script.js:684-702 | lower-casing the search term first gives the same result |
| Services.PaddedTermNeedsSpace | script.js:693-702 | the untrimmed term with a leading space only matches names that contain a space |

## Left out

- The `confirm` dialogs of `deleteSubscription` and `deleteService` (script.js:341, 425). The user's answer is the `confirmed` parameter of the two delete functions.
- DOM rendering, modals, tabs, notifications, keyboard shortcuts, dark mode and the chart. These are presentation. The `Rows` module stops at the values a row shows.
- `localStorage` persistence, `loadData`, export and import. These are storage and file I/O.
- `fetchExchangeRate`. The rate is a positive real parameter; where it comes from (network, cache or the default 1300) is not modelled.
- The wall clock. `today` is a parameter. `Status.GetRenewalStatus` takes the rounded-up day difference as an input, because the source computes it from an un-normalised `new Date()` (script.js:1081-1084). `Rows.CreateSubscriptionRow` uses whole days from midnight (`Status.DaysUntil`).
- Clock changes at local midnight. The model treats every running date as a clean local midnight. In zones where daylight saving time starts at 00:00, `setHours(0, 0, 0, 0)` (script.js:1042-1043) lands on 01:00 on that day, and `setMonth` / `setFullYear` (script.js:1048, 1052, 1059, 1063) keep that hour. Then `nextRenewal <= today` (script.js:1051, 1062) can compare 01:00 with 00:00 of the same date, so the source may return today itself or step one period too far. This contradicts `Less(today, r)` in `Renewal.NextRenewalDate` and `Renewal.CalculateNextRenewalDate`.
- Time zones. The result of `toISOString()` (script.js:1055, 1066) is treated as the local calendar date. In a zone east of UTC, the UTC rendering of local midnight is the previous day. Parsing that string back in `getRenewalStatus` reads it as UTC midnight.
- Parsing of date strings and Invalid Date. The model's start date is an already parsed calendar day, or absent. Dates outside JavaScript's time-value range are not modelled.
- The start date's own time zone shift. `new Date(startDate)` (script.js:1040) reads a date-only string such as "2024-03-01" as UTC midnight, and `setHours(0, 0, 0, 0)` (script.js:1043) then truncates it in local time. West of UTC this lands on the previous local day (February 29 here), and every later step starts from that day. The model starts from the calendar day the string names.
- Floating point. Money is exact `real`, so double rounding and the `toFixed` / `toLocaleString` formatting are not modelled. Neither is `parseFloat`: a form price is a real, or absent for NaN.
- `new URL(url)`. Whether the url parses is the `urlParses` parameter. Favicon derivation is not modelled.
- `Text.LowerChar` and `Text.ToLower`: lower-case A–Z and À–Þ only. `toLowerCase()` maps the rest of Unicode too, which is not modelled.
- The duplicated `DOMContentLoaded` initialisation. It is start-up plumbing.
- Subscriptions.EditSubscription: requires an index inside the list. The source always takes the index from a rendered row, and the behaviour of writing past the end of the array is not modelled.
- Services.DeleteService: requires the category to exist. The delete buttons are only rendered for existing categories; the source would throw otherwise.
- Subscriptions.EditFormOfWellFormedIsAccepted and Subscriptions.EditUnchangedIsIdentity: stated only for records whose name is already trimmed and whose fields are complete. Those are the records the forms create.
