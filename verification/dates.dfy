/** The `yyyy-mm-dd` date strings a price is stamped with, and the check
    `Price.isValidDate` applies to them. */
module Dates {
  import opened Lex
  import opened Calendar

  predicate IsDigit(c: char) {
    '0' <= c <= '9'
  }

  predicate AllDigits(s: string) {
    forall i :: 0 <= i < |s| ==> IsDigit(s[i])
  }

  function DigitValue(c: char): nat
    requires IsDigit(c)
  {
    c as int - '0' as int
  }

  function DigitChar(n: int): (c: char)
    requires 0 <= n <= 9
    ensures IsDigit(c) && DigitValue(c) == n
  {
    ('0' as int + n) as char
  }

  function Pow10(n: nat): (r: nat)
    ensures r >= 1
  {
    if n == 0 then 1 else 10 * Pow10(n - 1)
  }

  /** The number a digit string spells in base ten, most significant digit
      first (what `Number` gives for such a string). */
  function DecimalValue(s: string): nat
    requires AllDigits(s)
  {
    if |s| == 0 then 0 else DigitValue(s[0]) * Pow10(|s| - 1) + DecimalValue(s[1..])
  }

  /** The shape `/^\d{4}-\d{2}-\d{2}$/` accepts: exactly ten characters, ASCII
      digits everywhere except the two dashes. */
  predicate WellFormed(s: string) {
    && |s| == 10
    && s[4] == '-' && s[7] == '-'
    && AllDigits(s[..4]) && AllDigits(s[5..7]) && AllDigits(s[8..])
  }

  function Year(s: string): nat
    requires WellFormed(s)
  {
    DecimalValue(s[..4])
  }

  function Month(s: string): nat
    requires WellFormed(s)
  {
    DecimalValue(s[5..7])
  }

  function Day(s: string): nat
    requires WellFormed(s)
  {
    DecimalValue(s[8..])
  }

  /** `Price.isValidDate`: the string has the 4-2-2 digit shape and the parsed
      year, month and day name a real Gregorian day. */
  predicate IsValidDate(s: string) {
    WellFormed(s) && ValidTriple(Year(s), Month(s), Day(s))
  }

  /** The four digits of a year, most significant first. */
  function Digits4(n: int): (s: string)
    requires 0 <= n <= 9999
    ensures |s| == 4 && AllDigits(s)
  {
    var r1 := n % 1000;
    var r2 := r1 % 100;
    [DigitChar(n / 1000), DigitChar(r1 / 100), DigitChar(r2 / 10), DigitChar(r2 % 10)]
  }

  /** The two digits of a month or day, most significant first. */
  function Digits2(n: int): (s: string)
    requires 0 <= n <= 99
    ensures |s| == 2 && AllDigits(s)
  {
    [DigitChar(n / 10), DigitChar(n % 10)]
  }

  /** The canonical `yyyy-mm-dd` rendering of a day. */
  function Format(y: int, m: int, d: int): (s: string)
    requires 0 <= y <= 9999 && 0 <= m <= 99 && 0 <= d <= 99
    ensures |s| == 10
  {
    Digits4(y) + "-" + Digits2(m) + "-" + Digits2(d)
  }

  lemma Value2(s: string)
    requires |s| == 2 && AllDigits(s)
    ensures DecimalValue(s) == 10 * DigitValue(s[0]) + DigitValue(s[1])
  {
    assert Pow10(1) == 10;
    assert DecimalValue(s[1..]) == DigitValue(s[1]) by {
      assert s[1..][1..] == [];
      assert Pow10(0) == 1;
    }
  }

  lemma Value4(s: string)
    requires |s| == 4 && AllDigits(s)
    ensures DecimalValue(s) == 1000 * DigitValue(s[0]) + 100 * DigitValue(s[1]) + 10 * DigitValue(s[2]) + DigitValue(s[3])
  {
    assert Pow10(3) == 1000 by {
      assert Pow10(2) == 100 by { assert Pow10(1) == 10; }
    }
    assert DecimalValue(s[1..]) == 100 * DigitValue(s[1]) + 10 * DigitValue(s[2]) + DigitValue(s[3]) by {
      assert Pow10(2) == 100 by { assert Pow10(1) == 10; }
      assert s[1..][1..] == s[2..];
      Value2(s[2..]);
    }
  }

  lemma Digits2RoundTrip(n: int)
    requires 0 <= n <= 99
    ensures DecimalValue(Digits2(n)) == n
  {
    Value2(Digits2(n));
  }

  lemma Digits4RoundTrip(n: int)
    requires 0 <= n <= 9999
    ensures DecimalValue(Digits4(n)) == n
  {
    Value4(Digits4(n));
    var r1 := n % 1000;
    var r2 := r1 % 100;
    assert n == 1000 * (n / 1000) + r1;
    assert r1 == 100 * (r1 / 100) + r2;
    assert r2 == 10 * (r2 / 10) + r2 % 10;
  }

  lemma Value2Digits(s: string)
    requires |s| == 2 && AllDigits(s)
    ensures DecimalValue(s) <= 99 && Digits2(DecimalValue(s)) == s
  {
    Value2(s);
    var n := DecimalValue(s);
    assert n / 10 == DigitValue(s[0]) && n % 10 == DigitValue(s[1]);
  }

  lemma Value4Digits(s: string)
    requires |s| == 4 && AllDigits(s)
    ensures DecimalValue(s) <= 9999 && Digits4(DecimalValue(s)) == s
  {
    Value4(s);
    var n := DecimalValue(s);
    var a, b, c, d := DigitValue(s[0]), DigitValue(s[1]), DigitValue(s[2]), DigitValue(s[3]);
    assert n / 1000 == a && n % 1000 == 100 * b + 10 * c + d;
    var r1 := n % 1000;
    assert r1 / 100 == b && r1 % 100 == 10 * c + d;
    var r2 := r1 % 100;
    assert r2 / 10 == c && r2 % 10 == d;
  }

  lemma {:induction false} DecimalValueBound(s: string)
    requires AllDigits(s)
    ensures DecimalValue(s) < Pow10(|s|)
    decreases |s|
  {
    if |s| > 0 {
      DecimalValueBound(s[1..]);
      var p := Pow10(|s| - 1);
      MulGap(DigitValue(s[0]), 10, p);
      assert Pow10(|s|) == 10 * p;
    }
  }

  lemma {:induction false} MulGap(a: int, b: int, w: int)
    requires a < b && w > 0
    ensures a * w + w <= b * w
    decreases b - a
  {
    assert b * w == (b - 1) * w + w;
    if a < b - 1 {
      MulGap(a, b - 1, w);
    }
  }

  /** For digit strings of one length, string order is numeric order. */
  lemma {:induction false} DigitsLexOrder(p: string, q: string)
    requires AllDigits(p) && AllDigits(q) && |p| == |q|
    ensures LexLe(p, q) <==> DecimalValue(p) <= DecimalValue(q)
    decreases |p|
  {
    if |p| > 0 {
      var w := Pow10(|p| - 1);
      var a, b := DigitValue(p[0]), DigitValue(q[0]);
      var vp, vq := DecimalValue(p[1..]), DecimalValue(q[1..]);
      assert DecimalValue(p) == a * w + vp;
      assert DecimalValue(q) == b * w + vq;
      DecimalValueBound(p[1..]);
      DecimalValueBound(q[1..]);
      assert vp < w && vq < w;
      if a < b {
        MulGap(a, b, w);
        assert LexLe(p, q);
      } else if b < a {
        MulGap(b, a, w);
        assert !LexLe(p, q);
      } else {
        DigitsLexOrder(p[1..], q[1..]);
        assert LexLe(p, q) <==> LexLe(p[1..], q[1..]);
      }
    }
  }

  /** Digit strings of one length with the same value are the same string. */
  lemma DigitsInjective(p: string, q: string)
    requires AllDigits(p) && AllDigits(q) && |p| == |q|
    requires DecimalValue(p) == DecimalValue(q)
    ensures p == q
  {
    DigitsLexOrder(p, q);
    DigitsLexOrder(q, p);
    LexLeAntisymmetric(p, q);
  }

  /** Parsing a rendered day gives the day back. */
  lemma ParseFormat(y: int, m: int, d: int)
    requires ValidTriple(y, m, d)
    ensures WellFormed(Format(y, m, d))
    ensures Year(Format(y, m, d)) == y && Month(Format(y, m, d)) == m && Day(Format(y, m, d)) == d
    ensures IsValidDate(Format(y, m, d))
  {
    var s := Format(y, m, d);
    assert s[..4] == Digits4(y);
    assert s[5..7] == Digits2(m);
    assert s[8..] == Digits2(d);
    Digits4RoundTrip(y);
    Digits2RoundTrip(m);
    Digits2RoundTrip(d);
  }

  /** Rendering a parsed well-formed string gives the string back. */
  lemma FormatParse(s: string)
    requires WellFormed(s)
    ensures Year(s) <= 9999 && Month(s) <= 99 && Day(s) <= 99
    ensures Format(Year(s), Month(s), Day(s)) == s
  {
    Value4Digits(s[..4]);
    Value2Digits(s[5..7]);
    Value2Digits(s[8..]);
    assert s == s[..4] + "-" + s[5..7] + "-" + s[8..];
  }

  /** `isValidDate` accepts exactly the canonical renderings of valid days:
      a string is accepted if and only if it is the rendering of the triple it
      parses to and that triple is a real day. */
  lemma ValidDateIsCanonical(s: string)
    ensures IsValidDate(s) <==> WellFormed(s) && ValidTriple(Year(s), Month(s), Day(s)) && Format(Year(s), Month(s), Day(s)) == s
  {
    if WellFormed(s) {
      FormatParse(s);
    }
  }

  /** On well-formed date strings, string order is (year, month, day) order:
      sorting with `localeCompare` sorts chronologically. */
  lemma {:induction false} DateLexOrderIsTripleOrder(a: string, b: string)
    requires WellFormed(a) && WellFormed(b)
    ensures LexLe(a, b) <==> TripleLe(Year(a), Month(a), Day(a), Year(b), Month(b), Day(b))
  {
    var ya, ma, da := a[..4], a[5..7], a[8..];
    var yb, mb, db := b[..4], b[5..7], b[8..];
    assert a == ya + ("-" + (ma + ("-" + da)));
    assert b == yb + ("-" + (mb + ("-" + db)));
    LexLeConcat(ya, "-" + (ma + ("-" + da)), yb, "-" + (mb + ("-" + db)));
    LexLeConcat("-", ma + ("-" + da), "-", mb + ("-" + db));
    LexLeConcat(ma, "-" + da, mb, "-" + db);
    LexLeConcat("-", da, "-", db);
    DigitsLexOrder(ya, yb);
    DigitsLexOrder(ma, mb);
    DigitsLexOrder(da, db);
    if Year(a) == Year(b) { DigitsInjective(ya, yb); }
    if Month(a) == Month(b) { DigitsInjective(ma, mb); }
  }

  /** The day ordinal of a valid date string. */
  function DateOrdinal(s: string): int
    requires IsValidDate(s)
  {
    Ordinal(Year(s), Month(s), Day(s))
  }

  /** On valid dates, string order is chronological order. */
  lemma DateLexOrderIsChronological(a: string, b: string)
    requires IsValidDate(a) && IsValidDate(b)
    ensures LexLe(a, b) <==> DateOrdinal(a) <= DateOrdinal(b)
    ensures a == b <==> DateOrdinal(a) == DateOrdinal(b)
  {
    DateLexOrderIsTripleOrder(a, b);
    OrdinalMonotone(Year(a), Month(a), Day(a), Year(b), Month(b), Day(b));
    FormatParse(a);
    FormatParse(b);
  }

  /** `isValidDate` as written, in a zone whose offset on the parsed day is
      `utcOffsetMinutes` east of UTC (real zones change offset with the date,
      so this is the offset in force on that day).
      A date-only string is parsed as UTC midnight of its day, but
      `getFullYear`, `getMonth` and `getDate` read the local day: the day of
      the minute `Ordinal * 1440 + utcOffsetMinutes`. Since distinct valid days
      have distinct ordinals, the fields match exactly when the local day is
      the parsed day. */
  predicate IsValidDateInZone(s: string, utcOffsetMinutes: int) {
    && WellFormed(s)
    && ValidTriple(Year(s), Month(s), Day(s))
    && (DateOrdinal(s) * 1440 + utcOffsetMinutes) / 1440 == DateOrdinal(s)
  }

  /** The check as written accepts a date exactly when it is valid and the
      zone's offset on that day is not west of UTC. */
  lemma ZoneDependence(s: string, utcOffsetMinutes: int)
    ensures IsValidDateInZone(s, utcOffsetMinutes) <==> IsValidDate(s) && 0 <= utcOffsetMinutes < 1440
  {
  }

  /** Five hours west of UTC, the check as written rejects the first of
      January 2024, which is a real day. */
  lemma WestOfUtcRejectsRealDay()
    ensures IsValidDate("2024-01-01")
    ensures !IsValidDateInZone("2024-01-01", -300)
  {
    assert Format(2024, 1, 1) == "2024-01-01";
    ParseFormat(2024, 1, 1);
    ZoneDependence("2024-01-01", -300);
  }
}
