/** The worked example at the foot of `portfolioClass.js`, stated as lemmas. */
module Scenarios {
  import opened Wrappers
  import opened Lex
  import opened Calendar
  import opened Dates
  import opened Sorting
  import opened Prices
  import opened Stocks
  import opened Portfolios

  const Jan := "2024-01-01"
  const May := "2024-05-01"
  const Aug := "2024-08-01"

  lemma JanFields()
    ensures IsValidDate(Jan) && Year(Jan) == 2024 && Month(Jan) == 1 && Day(Jan) == 1
  {
    assert Format(2024, 1, 1) == Jan;
    ParseFormat(2024, 1, 1);
  }

  lemma MayFields()
    ensures IsValidDate(May) && Year(May) == 2024 && Month(May) == 5 && Day(May) == 1
  {
    assert Format(2024, 5, 1) == May;
    ParseFormat(2024, 5, 1);
  }

  lemma AugFields()
    ensures IsValidDate(Aug) && Year(Aug) == 2024 && Month(Aug) == 8 && Day(Aug) == 1
  {
    assert Format(2024, 8, 1) == Aug;
    ParseFormat(2024, 8, 1);
  }

  lemma ExampleDatesValid()
    ensures IsValidDate(Jan) && IsValidDate(May) && IsValidDate(Aug)
    ensures Year(Jan) == 2024 && Month(Jan) == 1 && Day(Jan) == 1
    ensures Year(May) == 2024 && Month(May) == 5 && Day(May) == 1
    ensures Year(Aug) == 2024 && Month(Aug) == 8 && Day(Aug) == 1
  {
    JanFields();
    MayFields();
    AugFields();
  }

  lemma ExampleDatesOrdered()
    ensures LexLess(Jan, May) && LexLess(May, Aug) && LexLess(Jan, Aug)
  {
    ExampleDatesValid();
    DateLexOrderIsTripleOrder(Jan, May);
    DateLexOrderIsTripleOrder(May, Aug);
    DateLexOrderIsTripleOrder(Jan, Aug);
  }

  /** Two valid records given out of date order come out in date order. */
  lemma {:induction false} TwoRecordsSorted(name: string, early: string, late: string, v0: real, v1: real)
    requires IsValidDate(early) && IsValidDate(late) && LexLess(early, late)
    requires v0 >= 0.0 && v1 >= 0.0
    ensures NewStock(name, [RawPrice(late, v1), RawPrice(early, v0)])
      == Success(Stock(name, [Price(early, v0), Price(late, v1)]))
  {
    var raw := [RawPrice(late, v1), RawPrice(early, v0)];
    assert AllValidRaw(raw);
    var a, j := Price(late, v1), Price(early, v0);
    assert AsPrices(raw) == [a, j];
    assert SortByKey([a], DateOf) == [a] by {
      assert [a][..0] == [];
    }
    assert [a, j][..1] == [a];
    assert SortByKey([a, j], DateOf) == Insert([a], j, DateOf);
    assert !LexLe(late, early) by {
      if LexLe(late, early) { LexLeAntisymmetric(early, late); }
    }
    assert Insert([a], j, DateOf) == [j, a];
  }

  /** The AAPL stock of the example: two records given out of date order. */
  lemma ExampleStock()
    ensures NewStock("AAPL", [RawPrice(Aug, 180.0), RawPrice(Jan, 150.0)])
      == Success(Stock("AAPL", [Price(Jan, 150.0), Price(Aug, 180.0)]))
  {
    ExampleDatesValid();
    ExampleDatesOrdered();
    TwoRecordsSorted("AAPL", Jan, Aug, 150.0, 180.0);
  }

  /** A price dated between the two prices of a stock lands between them. */
  lemma {:induction false} MiddlePriceInserted(st: Stock, d0: string, d1: string, d2: string, v0: real, v1: real, v2: real)
    requires st.prices == [Price(d0, v0), Price(d2, v2)] && ValidStock(st)
    requires IsValidDate(d1) && LexLess(d0, d1) && LexLess(d1, d2) && v1 >= 0.0
    ensures AddPrice(st, d1, v1).Success?
    ensures GetPrices(AddPrice(st, d1, v1).value) == [RawPrice(d0, v0), RawPrice(d1, v1), RawPrice(d2, v2)]
  {
    var j, m, a := Price(d0, v0), Price(d1, v1), Price(d2, v2);
    SortAfterPush(st.prices, m, DateOf);
    SortedIsFixpoint(st.prices, DateOf);
    assert !LexLe(d2, d1) by {
      if LexLe(d2, d1) { LexLeAntisymmetric(d1, d2); }
    }
    assert Insert([a], m, DateOf) == [m, a];
    assert [j, a][1..] == [a];
    assert Insert([j, a], m, DateOf) == [j, m, a];
    var r := AddPrice(st, d1, v1).value;
    assert r.prices == [j, m, a];
    var g := GetPrices(r);
    assert |g| == 3 && g[0] == RawPrice(d0, v0) && g[1] == RawPrice(d1, v1) && g[2] == RawPrice(d2, v2);
  }

  /** Giving the AAPL stock a price for May lists its three prices in date order. */
  lemma AddPriceExample()
    ensures AddPrice(Stock("AAPL", [Price(Jan, 150.0), Price(Aug, 180.0)]), May, 160.0).Success?
    ensures GetPrices(AddPrice(Stock("AAPL", [Price(Jan, 150.0), Price(Aug, 180.0)]), May, 160.0).value)
      == [RawPrice(Jan, 150.0), RawPrice(May, 160.0), RawPrice(Aug, 180.0)]
  {
    ExampleDatesValid();
    ExampleDatesOrdered();
    ExampleStock();
    MiddlePriceInserted(Stock("AAPL", [Price(Jan, 150.0), Price(Aug, 180.0)]), Jan, May, Aug, 150.0, 160.0, 180.0);
  }

  /** The 213 days from the first of January to the first of August 2024. */
  lemma ExampleDayCount()
    ensures DayDifference(Jan, Aug) == Some(213)
  {
    JanFields();
    AugFields();
    assert IsLeapYear(2024);
    assert DaysBeforeMonth(2024, 2) == 31;
    assert DaysBeforeMonth(2024, 3) == 60;
    assert DaysBeforeMonth(2024, 4) == 91;
    assert DaysBeforeMonth(2024, 5) == 121;
    assert DaysBeforeMonth(2024, 6) == 152;
    assert DaysBeforeMonth(2024, 7) == 182;
    assert DaysBeforeMonth(2024, 8) == 213;
  }

  /** The first stock added to an empty portfolio is its only stock. */
  lemma AddFirstStock(name: string, raw: seq<RawPrice>)
    requires AllValidRaw(raw)
    ensures AddStock(Portfolio([]), name, raw) == Success(Portfolio([NewStock(name, raw).value]))
  {
    var st := NewStock(name, raw).value;
    assert [] + [st] == [st];
    assert SortedBy([st], FirstDate);
  }

  /** A portfolio holding one stock without prices is valid, yet adding any
      stock to it throws in the sort, after the push: the list is left as the
      old stock followed by the new one. */
  lemma AddToUnpricedStockThrows(unpriced: string, name: string, raw: seq<RawPrice>)
    requires AllValidRaw(raw)
    ensures ValidPortfolio(Portfolio([Stock(unpriced, [])]))
    ensures AddStock(Portfolio([Stock(unpriced, [])]), name, raw)
      == Failure(NoFirstPrice([Stock(unpriced, []), NewStock(name, raw).value]))
  {
    assert HasEmptySeries([Stock(unpriced, [])]) by {
      assert |[Stock(unpriced, [])][0].prices| == 0;
    }
    assert [Stock(unpriced, [])] + [NewStock(name, raw).value] == [Stock(unpriced, []), NewStock(name, raw).value];
  }

  /** A portfolio of one stock priced at exactly the two requested dates
      reports that stock's price change and no warning. */
  lemma {:induction false} OneStockReport(st: Stock, s: string, e: string, v0: real, v1: real)
    requires st.prices == [Price(s, v0), Price(e, v1)] && s != e
    ensures TotalProfit([st], s, e) == v1 - v0
    ensures StartValue([st], s, e) == v0 && EndValue([st], s, e) == v1
    ensures SkippedNames([st], s, e) == []
  {
    assert PriceAt(st.prices, s) == Some(v0);
    assert PriceAt(st.prices, e) == Some(v1) by {
      assert st.prices[1..] == [Price(e, v1)];
    }
    assert [st][1..] == [];
  }

  /** With the AAPL stock added to an empty portfolio, the report from January
      to August shows a profit of 30 and a growth rate from 150 to 180 over 213
      days. */
  lemma ProfitExample()
    ensures var p := AddStock(NewPortfolio([]), "AAPL", [RawPrice(Aug, 180.0), RawPrice(Jan, 150.0)]);
      && p.Success?
      && TotalProfit(p.value.stocks, Jan, Aug) == 30.0
      && SkippedNames(p.value.stocks, Jan, Aug) == []
      && Annualize(Jan, Aug, StartValue(p.value.stocks, Jan, Aug), EndValue(p.value.stocks, Jan, Aug))
         == Compound(180.0, 150.0, 213)
  {
    ExampleDatesValid();
    ExampleDatesOrdered();
    ExampleDayCount();
    ExampleStock();
    var raw := [RawPrice(Aug, 180.0), RawPrice(Jan, 150.0)];
    var st := Stock("AAPL", [Price(Jan, 150.0), Price(Aug, 180.0)]);
    AddFirstStock("AAPL", raw);
    OneStockReport(st, Jan, Aug, 150.0, 180.0);
  }

  /** The demo passes its stock to `new Portfolio(...)`, which ignores it: the
      report it prints has no contributing stock, zero profit and a growth rate
      over a zero start value. */
  lemma DemoPortfolioIsEmpty(st: Stock)
    ensures var p := NewPortfolio([st]);
      && TotalProfit(p.stocks, Jan, Aug) == 0.0
      && SkippedNames(p.stocks, Jan, Aug) == []
      && Annualize(Jan, Aug, StartValue(p.stocks, Jan, Aug), EndValue(p.stocks, Jan, Aug))
         == Compound(0.0, 0.0, 213)
  {
    ExampleDatesValid();
    ExampleDatesOrdered();
    ExampleDayCount();
  }
}
