/** The proleptic Gregorian calendar that a JavaScript `Date` follows, over the
    four-digit years a `yyyy-mm-dd` string can name. */
module Calendar {

  /** Gregorian leap rule: every fourth year, except centuries not divisible by 400. */
  predicate IsLeapYear(y: int) {
    (y % 4 == 0 && y % 100 != 0) || y % 400 == 0
  }

  function DaysInMonth(y: int, m: int): (n: int)
    requires 1 <= m <= 12
    ensures 28 <= n <= 31
    ensures m == 2 ==> (n == 29 <==> IsLeapYear(y))
  {
    if m == 2 then (if IsLeapYear(y) then 29 else 28)
    else if m == 4 || m == 6 || m == 9 || m == 11 then 30
    else 31
  }

  function DaysInYear(y: int): int {
    if IsLeapYear(y) then 366 else 365
  }

  /** A year/month/day triple that names a real day with a four-digit year. */
  predicate ValidTriple(y: int, m: int, d: int) {
    0 <= y <= 9999 && 1 <= m <= 12 && 1 <= d <= DaysInMonth(y, m)
  }

  /** Days of year `y` that fall before the first of month `m` (`m == 13`
      counts the whole year). */
  function DaysBeforeMonth(y: int, m: int): nat
    requires 1 <= m <= 13
    decreases m
  {
    if m == 1 then 0 else DaysBeforeMonth(y, m - 1) + DaysInMonth(y, m - 1)
  }

  /** Days from 0000-01-01 to the first of January of year `y`. */
  function DaysBeforeYear(y: nat): nat
  {
    if y == 0 then 0 else DaysBeforeYear(y - 1) + DaysInYear(y - 1)
  }

  /** Days from 0000-01-01 to the given day: the day difference of two
      ordinals is what `getTime()` differences divided by 86 400 000 give for
      two dates parsed as UTC midnight. */
  function Ordinal(y: nat, m: int, d: int): int
    requires 1 <= m <= 12
  {
    DaysBeforeYear(y) + DaysBeforeMonth(y, m) + d - 1
  }

  /** Lexicographic order on triples: year first, then month, then day. */
  predicate TripleLe(y1: int, m1: int, d1: int, y2: int, m2: int, d2: int) {
    y1 < y2 || (y1 == y2 && (m1 < m2 || (m1 == m2 && d1 <= d2)))
  }

  lemma WholeYear(y: int)
    ensures DaysBeforeMonth(y, 13) == DaysInYear(y)
  {
  }

  lemma {:induction false} DaysBeforeMonthMonotone(y: int, m1: int, m2: int)
    requires 1 <= m1 <= m2 <= 13
    ensures DaysBeforeMonth(y, m1) <= DaysBeforeMonth(y, m2)
    decreases m2 - m1
  {
    if m1 < m2 {
      DaysBeforeMonthMonotone(y, m1, m2 - 1);
    }
  }

  lemma {:induction false} DaysBeforeYearMonotone(y1: nat, y2: nat)
    requires y1 <= y2
    ensures DaysBeforeYear(y1) <= DaysBeforeYear(y2)
    decreases y2 - y1
  {
    if y1 < y2 {
      DaysBeforeYearMonotone(y1, y2 - 1);
    }
  }

  /** Every valid day lies inside its own year: its ordinal is below the
      first ordinal of the next year. */
  lemma OrdinalWithinYear(y: nat, m: int, d: int)
    requires ValidTriple(y, m, d)
    ensures DaysBeforeYear(y) <= Ordinal(y, m, d) < DaysBeforeYear(y + 1)
  {
    DaysBeforeMonthMonotone(y, m + 1, 13);
    WholeYear(y);
  }

  /** A strictly later valid day has a strictly larger ordinal. */
  lemma {:induction false} OrdinalStrictlyIncreasing(y1: nat, m1: int, d1: int, y2: nat, m2: int, d2: int)
    requires ValidTriple(y1, m1, d1) && ValidTriple(y2, m2, d2)
    requires TripleLe(y1, m1, d1, y2, m2, d2) && (y1, m1, d1) != (y2, m2, d2)
    ensures Ordinal(y1, m1, d1) < Ordinal(y2, m2, d2)
  {
    if y1 < y2 {
      OrdinalWithinYear(y1, m1, d1);
      OrdinalWithinYear(y2, m2, d2);
      DaysBeforeYearMonotone(y1 + 1, y2);
    } else if m1 < m2 {
      DaysBeforeMonthMonotone(y1, m1 + 1, m2);
    }
  }

  /** The ordinal orders valid days exactly as the triple order does, and two
      valid triples share an ordinal only when they are equal. */
  lemma OrdinalMonotone(y1: nat, m1: int, d1: int, y2: nat, m2: int, d2: int)
    requires ValidTriple(y1, m1, d1) && ValidTriple(y2, m2, d2)
    ensures TripleLe(y1, m1, d1, y2, m2, d2) <==> Ordinal(y1, m1, d1) <= Ordinal(y2, m2, d2)
    ensures (y1, m1, d1) == (y2, m2, d2) <==> Ordinal(y1, m1, d1) == Ordinal(y2, m2, d2)
  {
    if (y1, m1, d1) != (y2, m2, d2) {
      if TripleLe(y1, m1, d1, y2, m2, d2) {
        OrdinalStrictlyIncreasing(y1, m1, d1, y2, m2, d2);
      } else {
        OrdinalStrictlyIncreasing(y2, m2, d2, y1, m1, d1);
      }
    }
  }
}
