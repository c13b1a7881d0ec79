/** `Stock`: a named price series kept sorted by date. */
module Stocks {
  import opened Wrappers
  import opened Lex
  import opened Dates
  import opened Sorting
  import opened Prices

  /** One raw `{ date, price }` record as callers pass it in and as
      `getPrices` hands it back. */
  datatype RawPrice = RawPrice(date: string, price: real)

  datatype Stock = Stock(name: string, prices: seq<Price>)

  /** The sort key of a price: its date string. */
  function DateOf(p: Price): string {
    p.date
  }

  /** What every stock keeps: valid prices, sorted ascending by date. Equal
      dates are allowed. */
  predicate ValidSeries(ps: seq<Price>) {
    (forall i :: 0 <= i < |ps| ==> Valid(ps[i])) && SortedBy(ps, DateOf)
  }

  predicate ValidStock(s: Stock) {
    ValidSeries(s.prices)
  }

  predicate ValidRaw(r: RawPrice) {
    IsValidDate(r.date) && r.price >= 0.0
  }

  predicate AllValidRaw(raw: seq<RawPrice>) {
    forall i :: 0 <= i < |raw| ==> ValidRaw(raw[i])
  }

  /** The error `new Price` throws for a raw record, if any. */
  function RawError(r: RawPrice): ValidationError {
    if !IsValidDate(r.date) then InvalidDate(r.date) else InvalidAmount(r.price)
  }

  /** `raw[i]` is the first record that does not validate. */
  predicate FirstInvalid(raw: seq<RawPrice>, i: int) {
    0 <= i < |raw| && !ValidRaw(raw[i]) && forall j :: 0 <= j < i ==> ValidRaw(raw[j])
  }

  /** The raw records as prices, unchecked and in input order. */
  function AsPrices(raw: seq<RawPrice>): (ps: seq<Price>)
    ensures |ps| == |raw|
    ensures forall i :: 0 <= i < |raw| ==> ps[i] == Price(raw[i].date, raw[i].price)
  {
    if |raw| == 0 then [] else [Price(raw[0].date, raw[0].price)] + AsPrices(raw[1..])
  }

  /** `prices.map(p => new Price(p.date, p.price))`: converts in input order and
      stops at the first record that does not validate. */
  function ToPrices(raw: seq<RawPrice>): (r: Result<seq<Price>, ValidationError>)
    ensures r.Success? <==> forall i :: 0 <= i < |raw| ==> ValidRaw(raw[i])
    ensures r.Success? ==> r.value == AsPrices(raw)
    ensures r.Failure? ==> exists i :: FirstInvalid(raw, i) && r.error == RawError(raw[i])
  {
    if |raw| == 0 then Success([])
    else
      var p :- NewPrice(raw[0].date, raw[0].price);
      var rest :- ToPrices(raw[1..]);
      Success([p] + rest)
  }

  lemma AllValidPermutation(ps: seq<Price>, qs: seq<Price>)
    requires multiset(ps) == multiset(qs)
    requires forall i :: 0 <= i < |ps| ==> Valid(ps[i])
    ensures forall i :: 0 <= i < |qs| ==> Valid(qs[i])
  {
    forall i | 0 <= i < |qs|
      ensures Valid(qs[i])
    {
      assert qs[i] in multiset(qs);
      var j :| 0 <= j < |ps| && ps[j] == qs[i];
    }
  }

  /** `FormatPrices`: validate every record, then sort by date. */
  function FormatPrices(raw: seq<RawPrice>): (r: Result<seq<Price>, ValidationError>)
    ensures r.Success? <==> forall i :: 0 <= i < |raw| ==> ValidRaw(raw[i])
    ensures r.Success? ==> ValidSeries(r.value) && multiset(r.value) == multiset(AsPrices(raw))
    ensures r.Success? ==> |r.value| == |raw|
    ensures r.Failure? ==> exists i :: FirstInvalid(raw, i) && r.error == RawError(raw[i])
  {
    if |raw| == 0 then Success([])
    else
      var ps :- ToPrices(raw);
      SortByKeySorted(ps, DateOf);
      AllValidPermutation(ps, SortByKey(ps, DateOf));
      Success(SortByKey(ps, DateOf))
  }

  /** `new Stock(name, prices)`. */
  function NewStock(name: string, raw: seq<RawPrice>): (r: Result<Stock, ValidationError>)
    ensures r.Success? <==> forall i :: 0 <= i < |raw| ==> ValidRaw(raw[i])
    ensures r.Success? ==> r.value.name == name && ValidStock(r.value)
    ensures r.Success? ==> multiset(r.value.prices) == multiset(AsPrices(raw))
    ensures r.Success? ==> (|r.value.prices| == 0 <==> |raw| == 0)
  {
    var ps :- FormatPrices(raw);
    Success(Stock(name, ps))
  }

  /** `ps[i]` is the first price in series order stamped with `date`. */
  predicate FirstAt(ps: seq<Price>, date: string, i: int) {
    0 <= i < |ps| && ps[i].date == date && forall j :: 0 <= j < i ==> ps[j].date != date
  }

  /** `Stock.Price(date)`: a linear scan for the first price stamped with
      exactly `date`; `None` is the source's `null`. */
  function PriceAt(ps: seq<Price>, date: string): Option<real>
  {
    if |ps| == 0 then None
    else if ps[0].date == date then Some(ps[0].amount)
    else PriceAt(ps[1..], date)
  }

  /** The lookup answers `null` exactly when no price has the date, and
      otherwise the amount of the first price, in series order, that has it. */
  lemma {:induction false} PriceAtFindsFirst(ps: seq<Price>, date: string)
    ensures PriceAt(ps, date).None? <==> forall i :: 0 <= i < |ps| ==> ps[i].date != date
    ensures PriceAt(ps, date).Some? ==> exists i :: FirstAt(ps, date, i) && ps[i].amount == PriceAt(ps, date).value
    decreases |ps|
  {
    if |ps| > 0 {
      if ps[0].date == date {
        assert FirstAt(ps, date, 0);
      } else {
        PriceAtFindsFirst(ps[1..], date);
        var r := PriceAt(ps[1..], date);
        if r.Some? {
          var i :| FirstAt(ps[1..], date, i) && ps[1..][i].amount == r.value;
          forall j | 0 <= j < i + 1 ensures ps[j].date != date {
            if j > 0 { assert ps[j] == ps[1..][j - 1]; }
          }
          assert FirstAt(ps, date, i + 1);
        } else {
          forall i | 0 <= i < |ps| ensures ps[i].date != date {
            if i > 0 { assert ps[i] == ps[1..][i - 1]; }
          }
        }
      }
    }
  }

  /** A series of valid prices has no price at a string `isValidDate` rejects. */
  lemma {:induction false} PriceAtInvalidDate(ps: seq<Price>, date: string)
    requires ValidSeries(ps)
    requires !IsValidDate(date)
    ensures PriceAt(ps, date) == None
  {
    PriceAtFindsFirst(ps, date);
  }

  /** Looking up after a push: the pushed price answers only for its own date,
      and only when no earlier price has that date. */
  lemma {:induction false} PriceAtPush(ps: seq<Price>, x: Price, date: string)
    ensures PriceAt(ps + [x], date)
      == if date == x.date && PriceAt(ps, date).None? then Some(x.amount) else PriceAt(ps, date)
    decreases |ps|
  {
    if |ps| > 0 {
      assert (ps + [x])[0] == ps[0];
      assert (ps + [x])[1..] == ps[1..] + [x];
      PriceAtPush(ps[1..], x, date);
    } else {
      assert ps + [x] == [x];
    }
  }

  /** Looking up after inserting into a sorted series gives the same answer as
      after a push: the new price goes after every price with its date. */
  lemma {:induction false} PriceAtInsert(ps: seq<Price>, x: Price, date: string)
    requires SortedBy(ps, DateOf)
    ensures PriceAt(Insert(ps, x, DateOf), date)
      == if date == x.date && PriceAt(ps, date).None? then Some(x.amount) else PriceAt(ps, date)
    decreases |ps|
  {
    if |ps| > 0 {
      if LexLe(ps[0].date, x.date) {
        assert SortedBy(ps[1..], DateOf);
        PriceAtInsert(ps[1..], x, date);
      } else {
        InsertShape(ps, x, DateOf);
        assert InsertionPoint(ps, x, DateOf) == 0;
        if date == x.date {
          forall i | 0 <= i < |ps| ensures ps[i].date != date {
            assert LexLess(x.date, ps[i].date);
          }
          PriceAtFindsFirst(ps, date);
        }
      }
    }
  }

  /** The stable sort keeps every lookup: for each date the first price with
      that date stays the first one. */
  lemma {:induction false} SortKeepsLookup(ps: seq<Price>, date: string)
    ensures PriceAt(SortByKey(ps, DateOf), date) == PriceAt(ps, date)
    decreases |ps|
  {
    if |ps| > 0 {
      var init, x := ps[..|ps| - 1], ps[|ps| - 1];
      var sorted := SortByKey(init, DateOf);
      assert SortByKey(ps, DateOf) == Insert(sorted, x, DateOf);
      assert SortedBy(sorted, DateOf) by { SortByKeySorted(init, DateOf); }
      var before := PriceAt(init, date);
      assert PriceAt(sorted, date) == before by { SortKeepsLookup(init, date); }
      var after := if date == x.date && before.None? then Some(x.amount) else before;
      assert PriceAt(Insert(sorted, x, DateOf), date) == after by { PriceAtInsert(sorted, x, date); }
      assert PriceAt(ps, date) == after by {
        assert ps == init + [x];
        PriceAtPush(init, x, date);
      }
    }
  }

  /** A new stock answers each lookup with the first raw record carrying that
      date, whatever order the records came in. */
  lemma NewStockLookup(name: string, raw: seq<RawPrice>, date: string)
    requires AllValidRaw(raw)
    ensures NewStock(name, raw).Success?
    ensures PriceAt(NewStock(name, raw).value.prices, date) == PriceAt(AsPrices(raw), date)
  {
    if |raw| > 0 {
      SortKeepsLookup(AsPrices(raw), date);
    }
  }

  /** Prices sharing a date keep the order the records came in: for every
      date, the new series lists that date's prices exactly as the input did. */
  lemma FormatPricesKeepsSameDateOrder(raw: seq<RawPrice>, date: string)
    requires AllValidRaw(raw)
    ensures FormatPrices(raw).Success?
    ensures WithKey(FormatPrices(raw).value, date, DateOf) == WithKey(AsPrices(raw), date, DateOf)
  {
    if |raw| > 0 {
      SortByKeyStable(AsPrices(raw), date, DateOf);
    }
  }

  /** `sortPrices`: a stable re-sort by date. */
  function SortPrices(s: Stock): (r: Stock)
    ensures r.name == s.name
    ensures SortedBy(r.prices, DateOf) && multiset(r.prices) == multiset(s.prices)
    ensures ValidStock(s) ==> r == s
  {
    SortByKeySorted(s.prices, DateOf);
    SortedIsFixpointWhenSorted(s.prices, DateOf);
    s.(prices := SortByKey(s.prices, DateOf))
  }

  /** `addPrice`: validate, push, re-sort. A record that fails validation
      throws before the push. */
  function AddPrice(s: Stock, date: string, amount: real): (r: Result<Stock, ValidationError>)
    ensures r.Success? <==> IsValidDate(date) && amount >= 0.0
    ensures r.Failure? ==> r.error == RawError(RawPrice(date, amount))
    ensures r.Success? ==> r.value.name == s.name && SortedBy(r.value.prices, DateOf)
    ensures r.Success? ==> multiset(r.value.prices) == multiset(s.prices) + multiset{Price(date, amount)}
    ensures r.Success? && ValidStock(s) ==> ValidStock(r.value)
  {
    var p :- NewPrice(date, amount);
    var r := SortPrices(Stock(s.name, s.prices + [p]));
    assert ValidStock(s) ==> ValidStock(r) by {
      if ValidStock(s) {
        AllValidPermutation(s.prices + [p], r.prices);
      }
    }
    Success(r)
  }

  /** `r` is `ps` with `x` spliced in at `k`, after every price dated at or
      before `x` and before every price dated after it. */
  predicate SplicedAt(ps: seq<Price>, r: seq<Price>, x: Price, k: int) {
    && 0 <= k <= |ps|
    && r == ps[..k] + [x] + ps[k..]
    && (forall i :: 0 <= i < k ==> LexLe(ps[i].date, x.date))
    && (forall i :: k <= i < |ps| ==> LexLess(x.date, ps[i].date))
  }

  /** On a valid stock, `addPrice` splices the new price in after every price
      whose date sorts at or before it and moves nothing else. */
  lemma AddPriceSplices(s: Stock, date: string, amount: real)
    requires ValidStock(s)
    requires IsValidDate(date) && amount >= 0.0
    ensures AddPrice(s, date, amount).Success?
    ensures exists k :: SplicedAt(s.prices, AddPrice(s, date, amount).value.prices, Price(date, amount), k)
  {
    var x := Price(date, amount);
    SortAfterPush(s.prices, x, DateOf);
    SortedIsFixpoint(s.prices, DateOf);
    InsertShape(s.prices, x, DateOf);
    var k := InsertionPoint(s.prices, x, DateOf);
    assert SplicedAt(s.prices, AddPrice(s, date, amount).value.prices, x, k);
  }

  /** After `addPrice` on a valid stock, the new amount answers for its date
      unless that date already had a price, and every other lookup is as before. */
  lemma AddPriceLookup(s: Stock, date: string, amount: real, d: string)
    requires ValidStock(s)
    requires IsValidDate(date) && amount >= 0.0
    ensures AddPrice(s, date, amount).Success?
    ensures PriceAt(AddPrice(s, date, amount).value.prices, d)
      == if d == date && PriceAt(s.prices, d).None? then Some(amount) else PriceAt(s.prices, d)
  {
    var x := Price(date, amount);
    SortAfterPush(s.prices, x, DateOf);
    SortedIsFixpoint(s.prices, DateOf);
    PriceAtInsert(s.prices, x, d);
  }

  /** `addPrice` lists the new price after every price already stamped with
      its date, and leaves the prices of every date in their old order. */
  lemma {:induction false} AddPriceKeepsSameDateOrder(s: Stock, date: string, amount: real, d: string)
    requires IsValidDate(date) && amount >= 0.0
    ensures AddPrice(s, date, amount).Success?
    ensures WithKey(AddPrice(s, date, amount).value.prices, d, DateOf)
      == WithKey(s.prices, d, DateOf) + (if d == date then [Price(date, amount)] else [])
  {
    var x := Price(date, amount);
    SortByKeyStable(s.prices + [x], d, DateOf);
    WithKeyConcat(s.prices, [x], d, DateOf);
    assert WithKey([x], d, DateOf) == if d == date then [x] else [];
  }

  /** `getPrices`: the series as plain records, in series order. */
  function GetPrices(s: Stock): (r: seq<RawPrice>)
    ensures |r| == |s.prices|
    ensures forall i :: 0 <= i < |r| ==> r[i].date == s.prices[i].date && r[i].price == s.prices[i].amount
  {
    seq(|s.prices|, i requires 0 <= i < |s.prices| => RawPrice(s.prices[i].date, s.prices[i].amount))
  }

  /** The snapshot round-trips: building a stock from a valid stock's
      `getPrices` gives the same stock back. */
  lemma SnapshotRebuildsStock(s: Stock)
    requires ValidStock(s)
    ensures NewStock(s.name, GetPrices(s)) == Success(s)
  {
    var raw := GetPrices(s);
    assert AsPrices(raw) == s.prices;
    assert forall i :: 0 <= i < |raw| ==> ValidRaw(raw[i]);
    if |raw| > 0 {
      SortedIsFixpoint(s.prices, DateOf);
      assert ToPrices(raw) == Success(s.prices);
      assert FormatPrices(raw) == Success(s.prices);
    } else {
      assert s.prices == [];
    }
  }
}
