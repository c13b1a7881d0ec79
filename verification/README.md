# Portfolio price series: a Dafny model

This project models `portfolioClass.js`, a small investment-portfolio library
with three layers:

- **Price** is one `(date, amount)` observation. The date must be a real day
  written as `yyyy-mm-dd` and the amount must be non-negative. The constructor
  and both setters check their input before assigning it.
- **Stock** is a name plus a series of prices kept sorted by date. It is
  built from raw `{ date, price }` records, grows with `addPrice`, answers
  `Price(date)` lookups and hands out `getPrices` snapshots.
- **Portfolio** is a list of stocks kept sorted by each stock's first price
  date. `AddStock` adds stocks, and `Profit(start, end)` sums the start value,
  end value and profit of the stocks priced at both dates.

The model is functional. Every entity is an immutable datatype, and every
method that can throw is a function from the old value to a `Result`. A thrown
`Error` is a `Failure`. When the source throws before changing anything, the
`Failure` carries no new value and the caller's value is exactly what it was.
`AddStock`'s sort throws after the push, so its `NoFirstPrice` error carries
the list the throw leaves behind. The `null` that `Stock.Price` returns is
`None`. The warnings that `Profit` logs are returned as a list of stock names. Amounts are
exact `real`s (see "Left out").

Modules, leaf first:

- `Wrappers` holds the `Option` and `Result` types.
- `Lex` is string order by character code, which is what `localeCompare`
  decides on ASCII date strings.
- `Calendar` holds the Gregorian leap rule, month lengths and day ordinals.
- `Dates` holds the `yyyy-mm-dd` shape, the parse, `isValidDate` and the
  canonical rendering.
- `Sorting` is the stable sort `Array.prototype.sort` performs, written as
  insertion sort.
- `Prices`, `Stocks` and `Portfolios` are the three classes.
- `Scenarios` holds the worked example at the foot of the file.

Three behaviours of the code that a reader may not expect:

- `new Portfolio([stock1])` does not seed the portfolio. The constructor takes
  no parameters, so the portfolio starts empty (`NewPortfolio`). The demo's
  report is therefore over no stocks (`DemoPortfolioIsEmpty`).
- An amount of zero is accepted, because the check is `price < 0`.
- A stock with no prices is not sorted last. Once two stocks are sorted, the
  comparator's `getPrices()[0].date` throws, which is modelled as the
  `NoFirstPrice` error. A single stock is never compared, so a portfolio may
  hold one stock without prices. Adding a stock to such a portfolio throws,
  but the new stock stays pushed at the end of the list, where later reports
  count it (`AddToUnpricedStockThrows`, `ProfitAfterFailedSort`).

## Model

| member | source | states |
|---|---|---|
| Calendar.DaysInMonth | portfolioClass.js:35-41 | months have 28 to 31 days; February has 29 exactly in Gregorian leap years |
| Calendar.OrdinalMonotone | portfolioClass.js:125-130 | day ordinals order valid days exactly as (year, month, day) order does; equal ordinals mean equal days |
| Dates.ValidDateIsCanonical | portfolioClass.js:29-43 | a string passes `isValidDate` iff it has the 4-2-2 digit shape, its parsed triple is a real day, and it is the canonical rendering of that triple |
| Dates.ParseFormat | portfolioClass.js:35-42 | rendering any real day and parsing it back gives the same year, month and day, and the rendering passes `isValidDate` |
| Dates.FormatParse | portfolioClass.js:30-36 | a string of the 4-2-2 digit shape is the rendering of the triple it parses to |
| Dates.DateLexOrderIsTripleOrder | portfolioClass.js:58 | on well-formed date strings, `localeCompare` order is (year, month, day) order |
| Dates.DateLexOrderIsChronological | portfolioClass.js:73 | on valid dates, string order is day-ordinal order, so sorting by string sorts chronologically |
| Dates.ZoneDependence | portfolioClass.js:35-41 | as written, the check accepts a string iff it is a valid date and the zone's offset on that day is not west of UTC |
| Dates.WestOfUtcRejectsRealDay | portfolioClass.js:35-41 | five hours west of UTC, the check as written rejects 2024-01-01, which is a valid date |
| Prices.NewPrice | portfolioClass.js:2-5 | succeeds iff the date is valid and the amount is at least 0; a bad date is reported before a bad amount; a success holds exactly the inputs |
| Prices.SetDate | portfolioClass.js:15-20 | succeeds iff the date is valid; it changes only the date; a failure reports that date |
| Prices.SetAmount | portfolioClass.js:22-27 | succeeds iff the amount is at least 0 (zero allowed); it changes only the amount; a failure reports that amount |
| Prices.LeapDayAccepted | portfolioClass.js:29-43 | 2024-02-29 is accepted |
| Prices.NonLeapDayRejected | portfolioClass.js:29-43 | 2023-02-29 is rejected |
| Prices.February30Rejected | portfolioClass.js:29-43 | 2024-02-30 is rejected |
| Prices.MalformedRejected | portfolioClass.js:29-43 | 2023-13-01 and the two-digit year 24-01-01 are rejected |
| Sorting.SortByKeySorted | portfolioClass.js:73 | the stable sort yields a sorted permutation (same multiset, same length) of its input |
| Sorting.SortedIsFixpoint | portfolioClass.js:72-74 | re-sorting an already sorted sequence leaves it unchanged |
| Sorting.SortByKeyStable | portfolioClass.js:73 | the sort is stable: for every key, the elements with that key appear in the result in their input order |
| Sorting.InsertShape | portfolioClass.js:68-69 | on a sorted sequence, insertion splices the element in after every element with key at or before its own and before every later one |
| Stocks.ToPrices | portfolioClass.js:57 | converting the records succeeds iff every record is valid, giving the records as prices in input order; otherwise it reports the first invalid record's error |
| Stocks.FormatPrices | portfolioClass.js:52-59 | succeeds iff every record is valid; the result is sorted by date, all valid, and a permutation of the input records (empty in, empty out); otherwise it reports the first invalid record's error |
| Stocks.NewStock | portfolioClass.js:47-50 | keeps the name; succeeds iff every record is valid; the result is a valid stock holding a permutation of the records, empty iff the input is |
| Stocks.PriceAtFindsFirst | portfolioClass.js:61-64 | the lookup is `null` iff no price has the date, and otherwise the amount of the first price in series order with that date |
| Stocks.PriceAtInvalidDate | portfolioClass.js:61-64 | a valid series answers `null` for every string `isValidDate` rejects |
| Stocks.SortKeepsLookup | portfolioClass.js:58 | the stable sort preserves every lookup: the first price with a date stays first |
| Stocks.FormatPricesKeepsSameDateOrder | portfolioClass.js:52-59 | for every date, the new series lists that date's prices in the order the records gave them |
| Stocks.NewStockLookup | portfolioClass.js:57-63 | a new stock answers each date with the first raw record of that date, whatever the input order |
| Stocks.SortPrices | portfolioClass.js:72-74 | keeps the name; the result is a sorted permutation; a valid stock is returned unchanged |
| Stocks.AddPrice | portfolioClass.js:66-70 | succeeds iff the new record is valid, and otherwise reports its error; the result is sorted, keeps the name, holds the old multiset plus the new price, and stays valid |
| Stocks.AddPriceSplices | portfolioClass.js:66-74 | on a valid stock, the new price is spliced in after every price dated at or before it; nothing else moves |
| Stocks.AddPriceLookup | portfolioClass.js:61-70 | after `addPrice`, the new amount answers for its date only if that date had no price; every other lookup is unchanged |
| Stocks.AddPriceKeepsSameDateOrder | portfolioClass.js:66-74 | a valid new price goes after every price already stamped with its date; the prices of each date keep their order |
| Stocks.GetPrices | portfolioClass.js:76-78 | the snapshot has the series' length and the same (date, price) pairs in series order |
| Stocks.SnapshotRebuildsStock | portfolioClass.js:76-78 | building a stock from a valid stock's snapshot gives the same stock back |
| Portfolios.NewPortfolio | portfolioClass.js:82-84 | whatever is passed in, a new portfolio has no stocks and is valid |
| Portfolios.FirstDateIsEarliest | portfolioClass.js:118-119 | the sort key `getPrices()[0].date` of a valid stock is its chronologically earliest date |
| Portfolios.SortStocks | portfolioClass.js:116-122 | fails iff at least two stocks are sorted and one has no prices, leaving the list as it was; otherwise it gives a sorted permutation and leaves a sorted list unchanged |
| Portfolios.AddStock | portfolioClass.js:86-90 | succeeds iff every record is valid and the pushed list can be sorted; a bad record always throws `Rejected`, reported as the first invalid one, before the push; a failed sort leaves the old list with the new stock pushed at its end; the result is one stock longer, sorted by first date, the old multiset plus the new stock, and stays valid |
| Portfolios.AddStockInserts | portfolioClass.js:86-90 | on a valid portfolio, the new stock is inserted after every stock whose first date is at or before its own; nothing else moves |
| Portfolios.Profit | portfolioClass.js:92-114 | total profit is the sum of end minus start price over exactly the stocks priced at both dates, and equals end value minus start value; the warnings name the other stocks, once each, in order; the annualized return is as `Annualize` gives it |
| Portfolios.TotalProfitIsValueChange | portfolioClass.js:101-105 | the summed per-stock profit equals the summed end value minus the summed start value |
| Portfolios.DayDifference | portfolioClass.js:125-131 | defined iff both dates are valid; positive iff the start sorts strictly before the end; zero iff they are equal |
| Portfolios.Annualize | portfolioClass.js:110-111 | a growth rate is computed iff both dates are valid and the end is strictly later; then it carries both values and a positive day count; otherwise the return is 0 |
| Portfolios.SameDateProfitIsZero | portfolioClass.js:92-111 | a report from a date to itself has zero profit and a return of 0 |
| Portfolios.NothingContributes | portfolioClass.js:97-108 | when no stock is priced at both dates, all sums are zero and every stock is warned about in order |
| Portfolios.InvalidDateSkipsEveryStock | portfolioClass.js:97-111 | a date `isValidDate` rejects skips every stock of any portfolio whose stocks are valid, including the list a failed sort leaves behind, with zero profit and a return of 0 |
| Portfolios.ReportAfterInsert | portfolioClass.js:97-108 | inserting a stock anywhere adds exactly its own gain to the total profit, and one warning iff it does not contribute |
| Portfolios.ProfitAfterFailedSort | portfolioClass.js:86-108 | after the sort throws, a report over the list left behind counts the new stock's gain and warns about it last iff it does not contribute |
| Portfolios.FailedSortLeavesValidStocks | portfolioClass.js:86-90 | when the sort throws, every stock in the list left behind is valid, the new one included |
| Portfolios.ProfitAfterAddStock | portfolioClass.js:86-108 | after `AddStock`, the total profit grows by exactly the new stock's gain, and the warning count by one iff it does not contribute |
| Scenarios.TwoRecordsSorted | portfolioClass.js:52-58 | two valid records given out of date order come out in date order |
| Scenarios.AddToUnpricedStockThrows | portfolioClass.js:86-90 | a portfolio holding one stock without prices is valid, and adding a stock to it throws with both stocks left in the list, old first |
| Scenarios.ExampleStock | portfolioClass.js:135-138 | the demo's AAPL stock lists 2024-01-01 at 150 before 2024-08-01 at 180 |
| Scenarios.MiddlePriceInserted | portfolioClass.js:66-78 | a price dated between a stock's two prices is listed between them |
| Scenarios.AddPriceExample | portfolioClass.js:141 | adding 2024-05-01 at 160 lists the three prices in date order |
| Scenarios.ExampleDayCount | portfolioClass.js:125-130 | 2024-01-01 to 2024-08-01 is 213 days |
| Scenarios.ProfitExample | portfolioClass.js:86-113 | with AAPL added to an empty portfolio, the report has profit 30, no warnings, and a return from 150 to 180 over 213 days |
| Scenarios.DemoPortfolioIsEmpty | portfolioClass.js:143-145 | the demo's portfolio ignores its argument: profit 0, no warnings, and a growth rate over a zero start value |

## Left out

- The value of the annualized return is left out: `Math.pow(endValue / startValue, 1 / years) - 1` and the `/ 365` scaling (lines 111 and 129-130) are floating point. `Compound(v1, v0, days)` stands for that value without evaluating it. This includes the NaN or Infinity when `startValue` is 0, as in `DemoPortfolioIsEmpty`.
- `Portfolios.DayDifference`: for strings that `isValidDate` rejects, the model answers "undefined", which stands for NaN, so no growth rate is computed. JavaScript's lenient `Date` parser can give a number for some such strings. No stock is priced at such a date anyway.
- `Portfolios.SortStocks` does not model which comparator calls the engine makes. It relies only on this: a comparison sort of two or more elements compares every element.
- The time zone is left out: the model's `isValidDate` is the time-zone-free calendar rule. `IsValidDateInZone` describes the source's behaviour as a finding (below), for the zone's UTC offset on the day in question; how that offset varies with the date (summer time, historical local mean time) is not modelled.
- `getTime()` millisecond arithmetic is replaced by integer day ordinals.
- Prices.SetAmount: the `typeof price !== 'number'` test, NaN and `Infinity` are left out, because amounts are typed `real`s. The source's check accepts `Infinity`, which no `real` stands for.
- Portfolios.TotalProfitIsValueChange: holds for the model's exact `real` sums only. JavaScript numbers are doubles, and the sums in `Profit` round, so the total profit and end value minus start value may differ in the last bits.
- Portfolios.Profit: its second ensures (total profit equals end value minus start value) is exact for the same reason; with doubles it holds only up to rounding.
- `localeCompare` locale tailoring is left out. On ASCII digits and `-` the model treats it as character-code order.
- The error message texts are not modelled; the errors are datatype variants.
- `console.warn` and `console.log` output is left out. The warnings are returned as stock names.
- The demo's printing is left out (lines 146-147).
- Profit idempotence has no lemma of its own. `Profit` does not change the portfolio, and its contract fixes every field of the report as a function of the portfolio and the two dates, so repeated calls give identical reports.
- `getDate`/`getPrice` are not separate members; they are the datatype fields.
- Object identity and aliasing are not modelled. For example, the demo's `stock1` is not shared with anything.

## Findings

| source | as written | input that shows it | evidently intended | confidence | as-written member | corrected member |
|---|---|---|---|---|---|---|
| portfolioClass.js:35-41 | `new Date('yyyy-mm-dd')` parses UTC midnight, but `getFullYear`/`getMonth`/`getDate` read local time | `isValidDate('2024-01-01')` in a zone five hours west of UTC: the local day is 2023-12-31, so the date is rejected, as is every other date | accept exactly the valid calendar days, in every zone | high (ECMAScript date-only strings are UTC and these getters are local); not executed | Dates.WestOfUtcRejectsRealDay | Dates.ValidDateIsCanonical |
