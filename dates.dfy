/**
 * Second-precision timestamps and the directory keys derived from them.
 *
 * A timestamp stands for the naive `datetime` the organizer obtains per
 * file. Comparison is the lexicographic order on (year, month, day, second),
 * which is the order Python's `datetime` uses.
 */
module Dates {

  type Year = y: int | 1 <= y <= 9999 witness 1
  type Month = m: int | 1 <= m <= 12 witness 1
  type Day = d: int | 1 <= d <= 31 witness 1
  /** Seconds since midnight. */
  type Second = s: int | 0 <= s < 86400

  datatype Timestamp = Timestamp(year: Year, month: Month, day: Day, second: Second)

  /** The calendar part of a timestamp, as returned by `datetime.date()`. */
  datatype Date = Date(year: Year, month: Month, day: Day)

  function DateOf(t: Timestamp): Date {
    Date(t.year, t.month, t.day)
  }

  /** Strict order on timestamps (`a < b` on datetimes). */
  predicate Before(a: Timestamp, b: Timestamp) {
    || a.year < b.year
    || (a.year == b.year && a.month < b.month)
    || (a.year == b.year && a.month == b.month && a.day < b.day)
    || (a.year == b.year && a.month == b.month && a.day == b.day && a.second < b.second)
  }

  /** Strict order on calendar dates. */
  predicate DateBefore(a: Date, b: Date) {
    || a.year < b.year
    || (a.year == b.year && a.month < b.month)
    || (a.year == b.year && a.month == b.month && a.day < b.day)
  }

  /** Python's `min(a, b)`: the second argument only when it is strictly smaller. */
  function Min(a: Timestamp, b: Timestamp): (r: Timestamp)
    ensures r == a || r == b
    ensures !Before(a, r) && !Before(b, r)
  {
    if Before(b, a) then b else a
  }

  lemma BeforeIsStrictTotalOrder(a: Timestamp, b: Timestamp, c: Timestamp)
    ensures !Before(a, a)
    ensures Before(a, b) && Before(b, c) ==> Before(a, c)
    ensures a == b || Before(a, b) || Before(b, a)
  {
  }

  /** When two timestamps fall on different days, the earlier one is also on the earlier day. */
  lemma MinOfDifferentDays(a: Timestamp, b: Timestamp)
    requires DateOf(a) != DateOf(b)
    ensures DateBefore(DateOf(Min(a, b)), DateOf(a)) || Min(a, b) == a
    ensures DateBefore(DateOf(Min(a, b)), DateOf(b)) || Min(a, b) == b
    ensures Before(a, b) <==> DateBefore(DateOf(a), DateOf(b))
  {
  }

  lemma DateBeforeIsStrictTotalOrder(a: Date, b: Date, c: Date)
    ensures !DateBefore(a, a)
    ensures DateBefore(a, b) && DateBefore(b, c) ==> DateBefore(a, c)
    ensures a == b || DateBefore(a, b) || DateBefore(b, a)
  {
  }

  // ----- key formatting -----

  predicate IsDigit(c: char) {
    '0' <= c <= '9'
  }

  function DigitChar(d: nat): (c: char)
    requires d < 10
    ensures IsDigit(c)
  {
    ['0', '1', '2', '3', '4', '5', '6', '7', '8', '9'][d]
  }

  function DigitValue(c: char): (d: nat)
    requires IsDigit(c)
    ensures d < 10
  {
    (c as int - '0' as int) as nat
  }

  lemma DigitRoundTrip(d: nat)
    requires d < 10
    ensures DigitValue(DigitChar(d)) == d
  {
  }

  /** English month abbreviations, the `%b` of the C locale. */
  function Abbreviation(m: Month): string {
    ["Jan", "Feb", "Mar", "Apr", "May", "Jun", "Jul", "Aug", "Sep", "Oct", "Nov", "Dec"][m - 1]
  }

  /** `strftime("%Y")`: the year as four zero-padded decimal digits. */
  function YearKey(t: Timestamp): (s: string)
    ensures |s| == 4
    ensures forall i :: 0 <= i < |s| ==> IsDigit(s[i])
  {
    var y: int := t.year;
    var tens := y / 10;
    var hundreds := tens / 10;
    [DigitChar(hundreds / 10), DigitChar(hundreds % 10), DigitChar(tens % 10), DigitChar(y % 10)]
  }

  /** `strftime("%m_%b")`: two-digit month, an underscore and the month abbreviation. */
  function MonthKey(t: Timestamp): (s: string)
    ensures |s| == 6 && s[2] == '_'
    ensures IsDigit(s[0]) && IsDigit(s[1])
    ensures s[3..] == Abbreviation(t.month)
  {
    var m: int := t.month;
    [DigitChar(m / 10), DigitChar(m % 10), '_'] + Abbreviation(m)
  }

  /** Reads back the year from a year key. */
  function YearOfKey(s: string): int
    requires |s| == 4 && forall i :: 0 <= i < 4 ==> IsDigit(s[i])
  {
    1000 * DigitValue(s[0]) + 100 * DigitValue(s[1]) + 10 * DigitValue(s[2]) + DigitValue(s[3])
  }

  /** Reads back the month from a month key. */
  function MonthOfKey(s: string): int
    requires |s| >= 2 && IsDigit(s[0]) && IsDigit(s[1])
  {
    10 * DigitValue(s[0]) + DigitValue(s[1])
  }

  lemma YearKeyRoundTrip(t: Timestamp)
    ensures YearOfKey(YearKey(t)) == t.year
  {
    var y: int := t.year;
    var tens := y / 10;
    var hundreds := tens / 10;
    DigitRoundTrip(hundreds / 10);
    DigitRoundTrip(hundreds % 10);
    DigitRoundTrip(tens % 10);
    DigitRoundTrip(y % 10);
    assert y == 10 * tens + y % 10;
    assert tens == 10 * hundreds + tens % 10;
    assert hundreds == 10 * (hundreds / 10) + hundreds % 10;
  }

  lemma MonthKeyRoundTrip(t: Timestamp)
    ensures MonthOfKey(MonthKey(t)) == t.month
  {
    DigitRoundTrip(t.month / 10);
    DigitRoundTrip(t.month % 10);
  }

  /** Two timestamps share a year directory exactly when they share a year. */
  lemma YearKeyInjective(a: Timestamp, b: Timestamp)
    ensures YearKey(a) == YearKey(b) <==> a.year == b.year
  {
    YearKeyRoundTrip(a);
    YearKeyRoundTrip(b);
  }

  /** Two timestamps share a month directory exactly when they share a month. */
  lemma MonthKeyInjective(a: Timestamp, b: Timestamp)
    ensures MonthKey(a) == MonthKey(b) <==> a.month == b.month
  {
    MonthKeyRoundTrip(a);
    MonthKeyRoundTrip(b);
  }

  /** A file stamped 2021-03-15 goes to `2021/03_Mar`. */
  lemma KeysOfMarch2021(t: Timestamp)
    requires t.year == 2021 && t.month == 3 && t.day == 15
    ensures YearKey(t) == "2021"
    ensures MonthKey(t) == "03_Mar"
  {
  }
}
