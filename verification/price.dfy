/** `Price`: one validated (date, amount) observation. */
module Prices {
  import opened Wrappers
  import opened Dates

  /** Amounts are exact reals; the source's JavaScript numbers are doubles. */
  datatype Price = Price(date: string, amount: real)

  /** What the constructor and both setters enforce. */
  predicate Valid(p: Price) {
    IsValidDate(p.date) && p.amount >= 0.0
  }

  /** The two errors a `Price` throws: a rejected date, a negative amount. */
  datatype ValidationError =
    | InvalidDate(date: string)
    | InvalidAmount(amount: real)

  /** `setDate`: checks the date before assigning it. */
  function SetDate(p: Price, date: string): (r: Result<Price, ValidationError>)
    ensures r.Success? <==> IsValidDate(date)
    ensures r.Success? ==> r.value.date == date && r.value.amount == p.amount
    ensures r.Failure? ==> r.error == InvalidDate(date)
    ensures r.Success? && p.amount >= 0.0 ==> Valid(r.value)
  {
    if !IsValidDate(date) then Failure(InvalidDate(date)) else Success(p.(date := date))
  }

  /** `setPrice`: checks the amount before assigning it; zero is accepted. */
  function SetAmount(p: Price, amount: real): (r: Result<Price, ValidationError>)
    ensures r.Success? <==> amount >= 0.0
    ensures r.Success? ==> r.value.amount == amount && r.value.date == p.date
    ensures r.Failure? ==> r.error == InvalidAmount(amount)
    ensures r.Success? && IsValidDate(p.date) ==> Valid(r.value)
  {
    if amount < 0.0 then Failure(InvalidAmount(amount)) else Success(p.(amount := amount))
  }

  /** `new Price(date, price)`: `setDate` then `setPrice` on a fresh object, so
      a bad date is reported even when the amount is bad too. */
  function NewPrice(date: string, amount: real): (r: Result<Price, ValidationError>)
    ensures r.Success? <==> IsValidDate(date) && amount >= 0.0
    ensures r.Success? ==> r.value == Price(date, amount) && Valid(r.value)
    ensures !IsValidDate(date) ==> r == Failure(InvalidDate(date))
    ensures IsValidDate(date) && amount < 0.0 ==> r == Failure(InvalidAmount(amount))
  {
    var blank := Price("", 0.0);
    var dated :- SetDate(blank, date);
    SetAmount(dated, amount)
  }

  /** The year, month and day a well-formed string parses to, digit by digit. */
  lemma ParsedFields(s: string)
    requires WellFormed(s)
    ensures Year(s) == 1000 * DigitValue(s[0]) + 100 * DigitValue(s[1]) + 10 * DigitValue(s[2]) + DigitValue(s[3])
    ensures Month(s) == 10 * DigitValue(s[5]) + DigitValue(s[6])
    ensures Day(s) == 10 * DigitValue(s[8]) + DigitValue(s[9])
  {
    Value4(s[..4]);
    Value2(s[5..7]);
    Value2(s[8..]);
  }

  /** `isValidDate` accepts a leap day. */
  lemma LeapDayAccepted()
    ensures IsValidDate("2024-02-29")
  {
    ParsedFields("2024-02-29");
  }

  /** `isValidDate` rejects February 29th outside a leap year. */
  lemma NonLeapDayRejected()
    ensures !IsValidDate("2023-02-29")
  {
    ParsedFields("2023-02-29");
  }

  /** `isValidDate` rejects a day past the end of February. */
  lemma February30Rejected()
    ensures !IsValidDate("2024-02-30")
  {
    ParsedFields("2024-02-30");
  }

  /** `isValidDate` rejects a thirteenth month and a two-digit year. */
  lemma MalformedRejected()
    ensures !IsValidDate("2023-13-01")
    ensures !IsValidDate("24-01-01")
  {
    ParsedFields("2023-13-01");
  }
}
