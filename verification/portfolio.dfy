/** `Portfolio`: stocks kept sorted by their first price date, and the
    profit report over two dates. */
module Portfolios {
  import opened Wrappers
  import opened Lex
  import opened Dates
  import opened Sorting
  import opened Prices
  import opened Stocks

  datatype Portfolio = Portfolio(stocks: seq<Stock>)

  /** The sort key of a stock: `getPrices()[0].date`. A stock without prices
      has no such date; the key is only read when that cannot happen. */
  function FirstDate(s: Stock): string {
    if |s.prices| == 0 then "" else s.prices[0].date
  }

  predicate HasEmptySeries(stocks: seq<Stock>) {
    exists i :: 0 <= i < |stocks| && |stocks[i].prices| == 0
  }

  /** What a portfolio keeps while every `AddStock` succeeds: valid stocks
      sorted by first date; once there are two stocks, none is without prices.
      The list a failed sort leaves behind is outside it. */
  predicate ValidPortfolio(p: Portfolio) {
    && (forall i :: 0 <= i < |p.stocks| ==> ValidStock(p.stocks[i]))
    && SortedBy(p.stocks, FirstDate)
    && (|p.stocks| >= 2 ==> !HasEmptySeries(p.stocks))
  }

  /** `new Portfolio(...)`: the constructor takes no parameters, so whatever
      is passed is ignored and the portfolio starts empty. */
  function NewPortfolio(ignored: seq<Stock>): (r: Portfolio)
    ensures r.stocks == []
    ensures ValidPortfolio(r)
  {
    Portfolio([])
  }

  /** The errors `AddStock` throws. */
  datatype AddStockError =
    | Rejected(cause: ValidationError)   // a raw price failed validation
    | NoFirstPrice(left: seq<Stock>)     // the sort read `[0].date` of a stock without prices;
                                         // `left` is the list as the throw leaves it

  /** The first date of a valid stock is its earliest date, chronologically. */
  lemma FirstDateIsEarliest(s: Stock, i: int)
    requires ValidStock(s) && 0 <= i < |s.prices|
    ensures LexLe(FirstDate(s), s.prices[i].date)
    ensures DateOrdinal(FirstDate(s)) <= DateOrdinal(s.prices[i].date)
  {
    if i == 0 {
      LexLeReflexive(s.prices[0].date);
    }
    DateLexOrderIsChronological(FirstDate(s), s.prices[i].date);
  }

  /** `sortStocksByFirstDate`: a stable sort by first date. Sorting two or
      more stocks compares every one of them, so it throws as soon as one has
      no prices; a single stock is never compared. The sort orders a copy and
      writes it back only once every comparison has returned, so a throw
      leaves the list as it was. */
  function SortStocks(stocks: seq<Stock>): (r: Result<seq<Stock>, AddStockError>)
    ensures r.Failure? <==> |stocks| >= 2 && HasEmptySeries(stocks)
    ensures r.Failure? ==> r.error == NoFirstPrice(stocks)
    ensures r.Success? ==> SortedBy(r.value, FirstDate) && multiset(r.value) == multiset(stocks)
    ensures r.Success? ==> |r.value| == |stocks|
    ensures r.Success? && SortedBy(stocks, FirstDate) ==> r.value == stocks
  {
    if |stocks| >= 2 && HasEmptySeries(stocks) then Failure(NoFirstPrice(stocks))
    else
      SortByKeySorted(stocks, FirstDate);
      SortedIsFixpointWhenSorted(stocks, FirstDate);
      Success(SortByKey(stocks, FirstDate))
  }

  lemma AllValidStocksPermutation(ss: seq<Stock>, ts: seq<Stock>)
    requires multiset(ss) == multiset(ts)
    ensures (forall i :: 0 <= i < |ss| ==> ValidStock(ss[i])) ==> (forall i :: 0 <= i < |ts| ==> ValidStock(ts[i]))
    ensures HasEmptySeries(ss) <==> HasEmptySeries(ts)
  {
    forall i | 0 <= i < |ts| ensures exists j :: 0 <= j < |ss| && ss[j] == ts[i] {
      assert ts[i] in multiset(ss);
    }
    forall i | 0 <= i < |ss| ensures exists j :: 0 <= j < |ts| && ts[j] == ss[i] {
      assert ss[i] in multiset(ts);
    }
  }

  lemma PushFacts(stocks: seq<Stock>, st: Stock)
    ensures HasEmptySeries(stocks + [st]) <==> HasEmptySeries(stocks) || |st.prices| == 0
    ensures (forall i :: 0 <= i < |stocks| ==> ValidStock(stocks[i])) && ValidStock(st)
      ==> forall i :: 0 <= i < |stocks + [st]| ==> ValidStock((stocks + [st])[i])
  {
    var pushed := stocks + [st];
    if |st.prices| == 0 { assert pushed[|stocks|] == st; }
    if HasEmptySeries(stocks) {
      var i :| 0 <= i < |stocks| && |stocks[i].prices| == 0;
      assert pushed[i] == stocks[i];
    }
  }

  lemma SortedPushIsValid(p: Portfolio, st: Stock, sorted: seq<Stock>)
    requires ValidStock(st)
    requires multiset(sorted) == multiset(p.stocks + [st]) && SortedBy(sorted, FirstDate)
    requires |sorted| >= 2 ==> !HasEmptySeries(p.stocks + [st])
    ensures ValidPortfolio(p) ==> ValidPortfolio(Portfolio(sorted))
  {
    if ValidPortfolio(p) {
      PushFacts(p.stocks, st);
      AllValidStocksPermutation(p.stocks + [st], sorted);
    }
  }

  /** `AddStock(name, prices)`: build the stock, push it, re-sort. A bad raw
      price throws before the push; a failed sort throws after it, leaving the
      new stock pushed at the end of the unsorted list. */
  function AddStock(p: Portfolio, name: string, raw: seq<RawPrice>): (r: Result<Portfolio, AddStockError>)
    ensures r.Success? <==> AllValidRaw(raw) && (|p.stocks| == 0 || (|raw| > 0 && !HasEmptySeries(p.stocks)))
    ensures !AllValidRaw(raw) ==> r.Failure? && r.error.Rejected?
    ensures r.Failure? && r.error.Rejected? ==> exists i :: FirstInvalid(raw, i) && r.error.cause == RawError(raw[i])
    ensures r.Failure? && AllValidRaw(raw) ==> r.error == NoFirstPrice(p.stocks + [NewStock(name, raw).value])
    ensures r.Success? ==> |r.value.stocks| == |p.stocks| + 1 && SortedBy(r.value.stocks, FirstDate)
    ensures r.Success? ==> multiset(r.value.stocks) == multiset(p.stocks) + multiset{NewStock(name, raw).value}
    ensures r.Success? && ValidPortfolio(p) ==> ValidPortfolio(r.value)
  {
    match NewStock(name, raw)
    case Failure(e) => Failure(Rejected(e))
    case Success(st) =>
      PushFacts(p.stocks, st);
      match SortStocks(p.stocks + [st])
      case Failure(err) => Failure(err)
      case Success(sorted) =>
        SortedPushIsValid(p, st, sorted);
        Success(Portfolio(sorted))
  }

  /** On a valid portfolio, `AddStock` inserts the new stock after every stock
      whose first date sorts at or before its own, and moves nothing else. */
  lemma AddStockInserts(p: Portfolio, name: string, raw: seq<RawPrice>)
    requires ValidPortfolio(p)
    requires AllValidRaw(raw) && (|p.stocks| == 0 || (|raw| > 0 && !HasEmptySeries(p.stocks)))
    ensures AddStock(p, name, raw).Success?
    ensures AddStock(p, name, raw).value.stocks == Insert(p.stocks, NewStock(name, raw).value, FirstDate)
  {
    var st := NewStock(name, raw).value;
    SortAfterPush(p.stocks, st, FirstDate);
    SortedIsFixpoint(p.stocks, FirstDate);
  }

  /** Whether a stock takes part in a profit report: it has a price at both dates. */
  predicate Contributes(st: Stock, s: string, e: string) {
    PriceAt(st.prices, s).Some? && PriceAt(st.prices, e).Some?
  }

  /** The sum of the start prices of the contributing stocks. */
  function StartValue(stocks: seq<Stock>, s: string, e: string): real {
    if |stocks| == 0 then 0.0
    else
      var v := if Contributes(stocks[0], s, e) then PriceAt(stocks[0].prices, s).value else 0.0;
      v + StartValue(stocks[1..], s, e)
  }

  /** The sum of the end prices of the contributing stocks. */
  function EndValue(stocks: seq<Stock>, s: string, e: string): real {
    if |stocks| == 0 then 0.0
    else
      var v := if Contributes(stocks[0], s, e) then PriceAt(stocks[0].prices, e).value else 0.0;
      v + EndValue(stocks[1..], s, e)
  }

  /** The profit one stock adds: end price minus start price, or nothing. */
  function Gain(st: Stock, s: string, e: string): real {
    if Contributes(st, s, e) then PriceAt(st.prices, e).value - PriceAt(st.prices, s).value else 0.0
  }

  /** The sum over the contributing stocks of end price minus start price. */
  function TotalProfit(stocks: seq<Stock>, s: string, e: string): real {
    if |stocks| == 0 then 0.0 else Gain(stocks[0], s, e) + TotalProfit(stocks[1..], s, e)
  }

  /** The names of the stocks left out of a report, in portfolio order: one
      warning each. */
  function SkippedNames(stocks: seq<Stock>, s: string, e: string): seq<string> {
    if |stocks| == 0 then []
    else (if Contributes(stocks[0], s, e) then [] else [stocks[0].name]) + SkippedNames(stocks[1..], s, e)
  }

  function Names(stocks: seq<Stock>): (r: seq<string>)
    ensures |r| == |stocks|
  {
    if |stocks| == 0 then [] else [stocks[0].name] + Names(stocks[1..])
  }

  /** Every sum over a concatenation is the sum over the parts. */
  lemma {:induction false} SumsSplit(a: seq<Stock>, b: seq<Stock>, s: string, e: string)
    ensures StartValue(a + b, s, e) == StartValue(a, s, e) + StartValue(b, s, e)
    ensures EndValue(a + b, s, e) == EndValue(a, s, e) + EndValue(b, s, e)
    ensures TotalProfit(a + b, s, e) == TotalProfit(a, s, e) + TotalProfit(b, s, e)
    decreases |a|
  {
    if |a| == 0 {
      assert a + b == b;
    } else {
      assert (a + b)[0] == a[0] && (a + b)[1..] == a[1..] + b;
      SumsSplit(a[1..], b, s, e);
    }
  }

  /** The warnings over a concatenation are the warnings over the parts, in order. */
  lemma {:induction false} SkippedSplit(a: seq<Stock>, b: seq<Stock>, s: string, e: string)
    ensures SkippedNames(a + b, s, e) == SkippedNames(a, s, e) + SkippedNames(b, s, e)
    decreases |a|
  {
    if |a| == 0 {
      assert a + b == b;
    } else {
      assert (a + b)[0] == a[0] && (a + b)[1..] == a[1..] + b;
      SkippedSplit(a[1..], b, s, e);
    }
  }

  /** The total profit is the change in value of the contributing stocks. */
  lemma {:induction false} TotalProfitIsValueChange(stocks: seq<Stock>, s: string, e: string)
    ensures TotalProfit(stocks, s, e) == EndValue(stocks, s, e) - StartValue(stocks, s, e)
    decreases |stocks|
  {
    if |stocks| > 0 {
      TotalProfitIsValueChange(stocks[1..], s, e);
    }
  }

  /** The symbolic annualized return. `Compound(v1, v0, n)` stands for the
      source's `Math.pow(v1 / v0, 1 / (n / 365)) - 1`, which is not evaluated. */
  datatype AnnualizedReturn =
    | NoGrowthPeriod
    | Compound(endValue: real, startValue: real, days: int)

  /** `calculateYearsBetweenDates`, up to the `/ 365` scaling: the signed day
      count from `s` to `e`. `None` stands for the NaN that unparsable dates give. */
  function DayDifference(s: string, e: string): (r: Option<int>)
    ensures r.Some? <==> IsValidDate(s) && IsValidDate(e)
    ensures r.Some? ==> (r.value > 0 <==> LexLess(s, e))
    ensures r.Some? ==> (r.value == 0 <==> s == e)
  {
    if IsValidDate(s) && IsValidDate(e) then
      DateLexOrderIsChronological(s, e);
      Some(DateOrdinal(e) - DateOrdinal(s))
    else None
  }

  /** `years > 0 ? ... : 0`: a growth rate only when `e` is strictly later than `s`. */
  function Annualize(s: string, e: string, startValue: real, endValue: real): (r: AnnualizedReturn)
    ensures r.Compound? <==> IsValidDate(s) && IsValidDate(e) && LexLess(s, e)
    ensures r.Compound? ==> r.endValue == endValue && r.startValue == startValue && r.days > 0
  {
    match DayDifference(s, e)
    case Some(days) => if days > 0 then Compound(endValue, startValue, days) else NoGrowthPeriod
    case None => NoGrowthPeriod
  }

  /** `{ totalProfit, annualizedReturn }`, plus the warnings the source logs. */
  datatype ProfitReport = ProfitReport(totalProfit: real, annualizedReturn: AnnualizedReturn, warnings: seq<string>)

  /** `Profit(startDate, endDate)`: one pass over the stocks in portfolio order. */
  method Profit(p: Portfolio, s: string, e: string) returns (r: ProfitReport)
    ensures r.totalProfit == TotalProfit(p.stocks, s, e)
    ensures r.totalProfit == EndValue(p.stocks, s, e) - StartValue(p.stocks, s, e)
    ensures r.warnings == SkippedNames(p.stocks, s, e)
    ensures r.annualizedReturn == Annualize(s, e, StartValue(p.stocks, s, e), EndValue(p.stocks, s, e))
  {
    var totalProfit, startValue, endValue := 0.0, 0.0, 0.0;
    var warnings: seq<string> := [];
    var i := 0;
    while i < |p.stocks|
      invariant 0 <= i <= |p.stocks|
      invariant startValue == StartValue(p.stocks[..i], s, e)
      invariant endValue == EndValue(p.stocks[..i], s, e)
      invariant totalProfit == TotalProfit(p.stocks[..i], s, e)
      invariant warnings == SkippedNames(p.stocks[..i], s, e)
    {
      var stock := p.stocks[i];
      var startPrice := PriceAt(stock.prices, s);
      var endPrice := PriceAt(stock.prices, e);
      if startPrice.Some? && endPrice.Some? {
        startValue := startValue + startPrice.value;
        endValue := endValue + endPrice.value;
        totalProfit := totalProfit + (endPrice.value - startPrice.value);
      } else {
        warnings := warnings + [stock.name];
      }
      SumsSplit(p.stocks[..i], [stock], s, e);
      SkippedSplit(p.stocks[..i], [stock], s, e);
      assert p.stocks[..i + 1] == p.stocks[..i] + [stock];
      i := i + 1;
    }
    assert p.stocks[..i] == p.stocks;
    TotalProfitIsValueChange(p.stocks, s, e);
    r := ProfitReport(totalProfit, Annualize(s, e, startValue, endValue), warnings);
  }

  /** Asking for the profit between a date and itself gives zero profit and
      no growth rate. */
  lemma {:induction false} SameDateProfitIsZero(stocks: seq<Stock>, s: string, v0: real, v1: real)
    ensures TotalProfit(stocks, s, s) == 0.0
    ensures Annualize(s, s, v0, v1) == NoGrowthPeriod
  {
    TotalProfitIsValueChange(stocks, s, s);
    StartEqualsEndOnSameDate(stocks, s);
  }

  lemma {:induction false} StartEqualsEndOnSameDate(stocks: seq<Stock>, s: string)
    ensures StartValue(stocks, s, s) == EndValue(stocks, s, s)
    decreases |stocks|
  {
    if |stocks| > 0 {
      StartEqualsEndOnSameDate(stocks[1..], s);
    }
  }

  /** When no stock has prices at both dates, every stock is warned about in
      order and all sums are zero. */
  lemma {:induction false} NothingContributes(stocks: seq<Stock>, s: string, e: string)
    requires forall i :: 0 <= i < |stocks| ==> !Contributes(stocks[i], s, e)
    ensures TotalProfit(stocks, s, e) == 0.0
    ensures StartValue(stocks, s, e) == 0.0 && EndValue(stocks, s, e) == 0.0
    ensures SkippedNames(stocks, s, e) == Names(stocks)
    decreases |stocks|
  {
    if |stocks| > 0 {
      assert !Contributes(stocks[0], s, e);
      NothingContributes(stocks[1..], s, e);
    }
  }

  /** A date `isValidDate` rejects has no price in any valid stock, so asking
      for it skips every stock, sums to zero and gives no growth rate. */
  lemma InvalidDateSkipsEveryStock(p: Portfolio, s: string, e: string)
    requires forall i :: 0 <= i < |p.stocks| ==> ValidStock(p.stocks[i])
    requires !IsValidDate(s) || !IsValidDate(e)
    ensures TotalProfit(p.stocks, s, e) == 0.0
    ensures SkippedNames(p.stocks, s, e) == Names(p.stocks)
    ensures Annualize(s, e, StartValue(p.stocks, s, e), EndValue(p.stocks, s, e)) == NoGrowthPeriod
  {
    forall i | 0 <= i < |p.stocks| ensures !Contributes(p.stocks[i], s, e) {
      assert ValidStock(p.stocks[i]);
      if !IsValidDate(s) { PriceAtInvalidDate(p.stocks[i].prices, s); }
      else { PriceAtInvalidDate(p.stocks[i].prices, e); }
    }
    NothingContributes(p.stocks, s, e);
  }

  /** Inserting a stock anywhere adds exactly its own gain to the total
      profit, and one warning if it does not contribute. */
  lemma {:induction false} ReportAfterInsert(stocks: seq<Stock>, st: Stock, s: string, e: string)
    ensures TotalProfit(Insert(stocks, st, FirstDate), s, e) == TotalProfit(stocks, s, e) + Gain(st, s, e)
    ensures |SkippedNames(Insert(stocks, st, FirstDate), s, e)|
      == |SkippedNames(stocks, s, e)| + (if Contributes(st, s, e) then 0 else 1)
    decreases |stocks|
  {
    var r := Insert(stocks, st, FirstDate);
    if |stocks| == 0 {
      assert r[1..] == [];
    } else if LexLe(FirstDate(stocks[0]), FirstDate(st)) {
      ReportAfterInsert(stocks[1..], st, s, e);
      assert r[0] == stocks[0] && r[1..] == Insert(stocks[1..], st, FirstDate);
    } else {
      assert r[0] == st && r[1..] == stocks;
    }
  }

  /** Adding a stock adds exactly its own gain to the total profit, wherever
      the sort puts it, and one warning if it does not contribute. */
  lemma ProfitAfterAddStock(p: Portfolio, name: string, raw: seq<RawPrice>, s: string, e: string)
    requires ValidPortfolio(p)
    requires AllValidRaw(raw) && (|p.stocks| == 0 || (|raw| > 0 && !HasEmptySeries(p.stocks)))
    ensures AddStock(p, name, raw).Success?
    ensures TotalProfit(AddStock(p, name, raw).value.stocks, s, e)
      == TotalProfit(p.stocks, s, e) + Gain(NewStock(name, raw).value, s, e)
    ensures |SkippedNames(AddStock(p, name, raw).value.stocks, s, e)|
      == |SkippedNames(p.stocks, s, e)| + (if Contributes(NewStock(name, raw).value, s, e) then 0 else 1)
  {
    AddStockInserts(p, name, raw);
    ReportAfterInsert(p.stocks, NewStock(name, raw).value, s, e);
  }

  /** When the sort throws, the new stock has already been pushed: a later
      report over the list the throw leaves behind counts the new stock's gain,
      and warns about it last if it does not contribute. */
  lemma ProfitAfterFailedSort(p: Portfolio, name: string, raw: seq<RawPrice>, s: string, e: string)
    requires AddStock(p, name, raw).Failure? && AllValidRaw(raw)
    ensures AddStock(p, name, raw).error.NoFirstPrice?
    ensures var left := AddStock(p, name, raw).error.left;
      var st := NewStock(name, raw).value;
      && TotalProfit(left, s, e) == TotalProfit(p.stocks, s, e) + Gain(st, s, e)
      && SkippedNames(left, s, e) == SkippedNames(p.stocks, s, e) + (if Contributes(st, s, e) then [] else [name])
  {
    var st := NewStock(name, raw).value;
    SumsSplit(p.stocks, [st], s, e);
    SkippedSplit(p.stocks, [st], s, e);
    assert [st][1..] == [];
  }

  /** The list a failed sort leaves behind still holds only valid stocks, so
      the lemmas about reports over valid stocks apply to it. */
  lemma FailedSortLeavesValidStocks(p: Portfolio, name: string, raw: seq<RawPrice>)
    requires forall i :: 0 <= i < |p.stocks| ==> ValidStock(p.stocks[i])
    requires AddStock(p, name, raw).Failure? && AllValidRaw(raw)
    ensures var left := AddStock(p, name, raw).error.left;
      forall i :: 0 <= i < |left| ==> ValidStock(left[i])
  {
    PushFacts(p.stocks, NewStock(name, raw).value);
  }
}
