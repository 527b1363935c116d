/** Calendar days. The backend stores dates as whole days (`LocalDate`,
    SQL `date`), which this model writes as day numbers; the frontend moves
    them around as zero-padded `yyyy-MM-dd` strings and compares those
    strings with `<` and `===`. This module proves that, for four-digit
    years, the string order is the calendar order. */
module Dates {
  import opened Sorting

  /** A proleptic Gregorian calendar date. */
  datatype Civil = Civil(year: int, month: int, day: int)

  predicate IsLeapYear(y: int) {
    y % 4 == 0 && (y % 100 != 0 || y % 400 == 0)
  }

  function DaysInMonth(y: int, m: int): int
    requires 1 <= m <= 12
  {
    if m == 2 then (if IsLeapYear(y) then 29 else 28)
    else if m == 4 || m == 6 || m == 9 || m == 11 then 30
    else 31
  }

  function DaysInYear(y: int): int {
    if IsLeapYear(y) then 366 else 365
  }

  /** A real date whose year `format(d, "yyyy-MM-dd")` writes in four digits. */
  predicate ValidCivil(c: Civil) {
    && 0 <= c.year <= 9999
    && 1 <= c.month <= 12
    && 1 <= c.day <= DaysInMonth(c.year, c.month)
  }

  /** Calendar order: year, then month, then day. */
  predicate CivilLt(c: Civil, d: Civil) {
    || c.year < d.year
    || (c.year == d.year && c.month < d.month)
    || (c.year == d.year && c.month == d.month && c.day < d.day)
  }

  // ---------------------------------------------------------------------
  // Day numbers
  // ---------------------------------------------------------------------

  /** Days from 0000-01-01 to the first day of year `y`. */
  function DaysBeforeYear(y: nat): nat {
    if y == 0 then 0 else DaysBeforeYear(y - 1) + DaysInYear(y - 1)
  }

  /** Days from the first of January to the first of month `m` of year `y`. */
  function DaysBeforeMonth(y: int, m: int): nat
    requires 1 <= m <= 13
  {
    if m == 1 then 0 else DaysBeforeMonth(y, m - 1) + DaysInMonth(y, m - 1)
  }

  /** Whole days since 0000-01-01. The backend's epoch days (days since
      1970-01-01) differ from this by a constant, so they order alike. */
  function DayNumber(c: Civil): int
    requires ValidCivil(c)
  {
    DaysBeforeYear(c.year) + DaysBeforeMonth(c.year, c.month) + c.day - 1
  }

  lemma MonthsFillYear(y: int)
    ensures DaysBeforeMonth(y, 13) == DaysInYear(y)
  {
    var feb := DaysInMonth(y, 2);
    assert DaysBeforeMonth(y, 2) == 31;
    assert DaysBeforeMonth(y, 3) == 31 + feb;
    assert DaysBeforeMonth(y, 4) == 62 + feb;
    assert DaysBeforeMonth(y, 5) == 92 + feb;
    assert DaysBeforeMonth(y, 6) == 123 + feb;
    assert DaysBeforeMonth(y, 7) == 153 + feb;
    assert DaysBeforeMonth(y, 8) == 184 + feb;
    assert DaysBeforeMonth(y, 9) == 215 + feb;
    assert DaysBeforeMonth(y, 10) == 245 + feb;
    assert DaysBeforeMonth(y, 11) == 276 + feb;
    assert DaysBeforeMonth(y, 12) == 306 + feb;
  }

  lemma {:induction false} DaysBeforeMonthMonotone(y: int, m: int, m': int)
    requires 1 <= m <= m' <= 13
    ensures DaysBeforeMonth(y, m) + (if m < m' then DaysInMonth(y, m) else 0) <= DaysBeforeMonth(y, m')
    decreases m' - m
  {
    if m < m' - 1 {
      DaysBeforeMonthMonotone(y, m, m' - 1);
    }
  }

  lemma {:induction false} DaysBeforeYearMonotone(y: nat, y': nat)
    requires y < y'
    ensures DaysBeforeYear(y) + DaysInYear(y) <= DaysBeforeYear(y')
    decreases y' - y
  {
    if y < y' - 1 {
      DaysBeforeYearMonotone(y, y' - 1);
    }
  }

  /** A date's day number lies inside its year. */
  lemma DayNumberWithinYear(c: Civil)
    requires ValidCivil(c)
    ensures DaysBeforeYear(c.year) <= DayNumber(c) < DaysBeforeYear(c.year) + DaysInYear(c.year)
  {
    DaysBeforeMonthMonotone(c.year, c.month, 13);
    MonthsFillYear(c.year);
  }

  /** Later in the calendar means a larger day number. */
  lemma DayNumberStrictlyMonotone(c: Civil, d: Civil)
    requires ValidCivil(c) && ValidCivil(d)
    requires CivilLt(c, d)
    ensures DayNumber(c) < DayNumber(d)
  {
    DayNumberWithinYear(c);
    DayNumberWithinYear(d);
    if c.year < d.year {
      DaysBeforeYearMonotone(c.year, d.year);
    } else if c.month < d.month {
      DaysBeforeMonthMonotone(c.year, c.month, d.month);
    }
  }

  /** Calendar order and day-number order coincide on real dates, and so
      do equality of dates and of day numbers. */
  lemma DayNumberOrder(c: Civil, d: Civil)
    requires ValidCivil(c) && ValidCivil(d)
    ensures CivilLt(c, d) <==> DayNumber(c) < DayNumber(d)
    ensures c == d <==> DayNumber(c) == DayNumber(d)
  {
    if CivilLt(c, d) {
      DayNumberStrictlyMonotone(c, d);
    } else if CivilLt(d, c) {
      DayNumberStrictlyMonotone(d, c);
    }
  }

  // ---------------------------------------------------------------------
  // Zero-padded decimal text
  // ---------------------------------------------------------------------

  function Pow10(n: nat): nat
    ensures Pow10(n) >= 1
  {
    if n == 0 then 1 else 10 * Pow10(n - 1)
  }

  function DigitChar(k: int): char
    requires 0 <= k < 10
  {
    ('0' as int + k) as char
  }

  /** `x` written in exactly `n` decimal digits, with leading zeros. */
  function Pad(x: nat, n: nat): (r: string)
    requires x < Pow10(n)
    ensures |r| == n
  {
    if n == 0 then [] else Pad(x / 10, n - 1) + [DigitChar(x % 10)]
  }

  /** Strings with a first character compare by it, then by the rest. */
  lemma ConsOrder(a: char, b: char, s: string, t: string)
    ensures StrLt([a] + s, [b] + t) <==> a < b || (a == b && StrLt(s, t))
    ensures [a] + s == [b] + t <==> a == b && s == t
  {
    assert ([a] + s)[0] == a && ([a] + s)[1..] == s;
    assert ([b] + t)[0] == b && ([b] + t)[1..] == t;
  }

  /** The last digit written and the digits before it. */
  lemma PadSnoc(x: nat, n: nat, s: string)
    requires 0 < n && x < Pow10(n)
    ensures x / 10 < Pow10(n - 1)
    ensures Pad(x, n) + s == Pad(x / 10, n - 1) + ([DigitChar(x % 10)] + s)
  {
  }

  /** Numbers compare by all but their last digit, then by the last. */
  lemma LastDigitOrder(x: nat, y: nat)
    ensures x < y <==> x / 10 < y / 10 || (x / 10 == y / 10 && x % 10 < y % 10)
    ensures x == y <==> x / 10 == y / 10 && x % 10 == y % 10
  {
  }

  /** Fixed-width padded numbers compare like the numbers, with ties
      handed on to what follows them. */
  lemma {:induction false} PadOrder(x: nat, y: nat, n: nat, s: string, t: string)
    requires x < Pow10(n) && y < Pow10(n)
    ensures StrLt(Pad(x, n) + s, Pad(y, n) + t) <==> x < y || (x == y && StrLt(s, t))
    ensures Pad(x, n) + s == Pad(y, n) + t <==> x == y && s == t
  {
    if n == 0 {
      assert Pad(x, n) + s == s && Pad(y, n) + t == t;
    } else {
      var dx, dy := DigitChar(x % 10), DigitChar(y % 10);
      PadSnoc(x, n, s);
      PadSnoc(y, n, t);
      PadOrder(x / 10, y / 10, n - 1, [dx] + s, [dy] + t);
      ConsOrder(dx, dy, s, t);
      LastDigitOrder(x, y);
    }
  }

  lemma Pow10Values()
    ensures Pow10(2) == 100 && Pow10(4) == 10000
  {
    assert Pow10(1) == 10;
    assert Pow10(3) == 1000;
  }

  /** The `-dd` tail of a date's text. */
  function DayPart(c: Civil): (r: string)
    requires ValidCivil(c)
    ensures |r| == 3 && r[0] == '-'
  {
    Pow10Values();
    ['-'] + Pad(c.day, 2)
  }

  /** The `-MM-dd` tail of a date's text. */
  function MonthDayPart(c: Civil): (r: string)
    requires ValidCivil(c)
    ensures |r| == 6 && r[0] == '-' && r[3] == '-'
  {
    Pow10Values();
    ['-'] + (Pad(c.month, 2) + DayPart(c))
  }

  /** The `yyyy-MM-dd` text of a date, as `format(d, "yyyy-MM-dd")` and
      Java's `LocalDate.toString` write it for four-digit years. */
  function Ymd(c: Civil): (r: string)
    requires ValidCivil(c)
    ensures |r| == 10 && r[4] == '-' && r[7] == '-'
  {
    Pow10Values();
    Pad(c.year, 4) + MonthDayPart(c)
  }

  lemma DayPartOrder(c: Civil, d: Civil)
    requires ValidCivil(c) && ValidCivil(d)
    ensures StrLt(DayPart(c), DayPart(d)) <==> c.day < d.day
    ensures DayPart(c) == DayPart(d) <==> c.day == d.day
  {
    Pow10Values();
    var p, q := Pad(c.day, 2), Pad(d.day, 2);
    StrLtCons('-', p, q);
    ConsOrder('-', '-', p, q);
    PadOrder(c.day, d.day, 2, [], []);
    assert p + [] == p && q + [] == q;
  }

  lemma MonthDayPartOrder(c: Civil, d: Civil)
    requires ValidCivil(c) && ValidCivil(d)
    ensures StrLt(MonthDayPart(c), MonthDayPart(d)) <==>
      c.month < d.month || (c.month == d.month && c.day < d.day)
    ensures MonthDayPart(c) == MonthDayPart(d) <==> c.month == d.month && c.day == d.day
  {
    Pow10Values();
    var p, q := Pad(c.month, 2) + DayPart(c), Pad(d.month, 2) + DayPart(d);
    StrLtCons('-', p, q);
    ConsOrder('-', '-', p, q);
    PadOrder(c.month, d.month, 2, DayPart(c), DayPart(d));
    DayPartOrder(c, d);
  }

  /** On real dates with four-digit years, JavaScript's string `<` on the
      `yyyy-MM-dd` texts is calendar order, and `===` is date equality. */
  lemma YmdOrderIsCalendarOrder(c: Civil, d: Civil)
    requires ValidCivil(c) && ValidCivil(d)
    ensures StrLt(Ymd(c), Ymd(d)) <==> CivilLt(c, d)
    ensures Ymd(c) == Ymd(d) <==> c == d
  {
    Pow10Values();
    PadOrder(c.year, d.year, 4, MonthDayPart(c), MonthDayPart(d));
    MonthDayPartOrder(c, d);
  }

  /** Hence string order on the texts is day-number order. */
  lemma YmdOrderIsDayOrder(c: Civil, d: Civil)
    requires ValidCivil(c) && ValidCivil(d)
    ensures StrLt(Ymd(c), Ymd(d)) <==> DayNumber(c) < DayNumber(d)
    ensures Ymd(c) == Ymd(d) <==> DayNumber(c) == DayNumber(d)
  {
    YmdOrderIsCalendarOrder(c, d);
    DayNumberOrder(c, d);
  }

  /** Scaling by a non-negative count keeps order (a day count times the
      length of a day, a page number times the page size). */
  lemma MulMonotone(a: int, b: int, c: nat)
    requires a <= b
    ensures a * c <= b * c
  {
  }
}
