/**
 * Calendar dates as the items see them: the ISO 8601 calendar date in its
 * complete extended form `YYYY-MM-DD` (section 4.1.2.2 of ISO 8601:2004),
 * parsed strictly as `LocalDate.parse` does, and turned into a day count
 * since 1970-01-01 (`LocalDate.toEpochDay`). With dates as day counts,
 * `plusDays(n)` is `+ n`, `isAfter` is `>` and `ChronoUnit.DAYS.between` is `-`.
 */
module Dates {
  import opened Wrappers

  /** Days since 1970-01-01 in the proleptic Gregorian calendar; negative before it. */
  type Date = int

  /** Days from 0000-01-01 to 1970-01-01. */
  const EpochOffset := 719528

  /** A year-month-day triple, not yet known to name a real day. */
  datatype CalendarDate = CalendarDate(year: int, month: int, day: int)

  predicate IsLeapYear(y: int) {
    y % 4 == 0 && (y % 100 != 0 || y % 400 == 0)
  }

  function DaysInYear(y: int): int {
    if IsLeapYear(y) then 366 else 365
  }

  function DaysInMonth(y: int, m: int): (n: int)
    requires 1 <= m <= 12
    ensures 28 <= n <= 31
  {
    if m == 2 then (if IsLeapYear(y) then 29 else 28)
    else if m == 4 || m == 6 || m == 9 || m == 11 then 30
    else 31
  }

  /** A day that exists, with a year that fits the four-digit form. */
  predicate ValidDate(c: CalendarDate) {
    && 0 <= c.year <= 9999
    && 1 <= c.month <= 12
    && 1 <= c.day <= DaysInMonth(c.year, c.month)
  }

  /** Strict calendar order: earlier year, else earlier month, else earlier day. */
  predicate Before(a: CalendarDate, b: CalendarDate) {
    || a.year < b.year
    || (a.year == b.year && a.month < b.month)
    || (a.year == b.year && a.month == b.month && a.day < b.day)
  }

  /** Days from 0000-01-01 to January 1st of year `y`: 365 a year plus one per leap year before `y`. */
  function DaysBeforeYear(y: nat): int {
    365 * y + (y + 3) / 4 - (y + 99) / 100 + (y + 399) / 400
  }

  /** Days from January 1st to the first day of month `m` of year `y`. */
  function DaysBeforeMonth(y: int, m: int): nat
    requires 1 <= m <= 12
  {
    var common := [0, 31, 59, 90, 120, 151, 181, 212, 243, 273, 304, 334][m - 1];
    if m > 2 && IsLeapYear(y) then common + 1 else common
  }

  /** Zero-based position of the day within its year. */
  function DayOfYear(c: CalendarDate): int
    requires ValidDate(c)
  {
    DaysBeforeMonth(c.year, c.month) + c.day - 1
  }

  /**
   * The day count `LocalDate.toEpochDay` gives for a valid calendar date; it
   * falls inside the range of counts its year covers.
   */
  function EpochDay(c: CalendarDate): (d: Date)
    requires ValidDate(c)
    ensures DaysBeforeYear(c.year) - EpochOffset <= d < DaysBeforeYear(c.year) + DaysInYear(c.year) - EpochOffset
  {
    DayOfYearBounds(c);
    DaysBeforeYear(c.year) + DayOfYear(c) - EpochOffset
  }

  /** The calendar day after `c`, rolling over month and year ends. */
  function NextDay(c: CalendarDate): (n: CalendarDate)
    requires ValidDate(c) && c != LastDay
    ensures ValidDate(n) && Before(c, n)
  {
    if c.day < DaysInMonth(c.year, c.month) then CalendarDate(c.year, c.month, c.day + 1)
    else if c.month < 12 then CalendarDate(c.year, c.month + 1, 1)
    else CalendarDate(c.year + 1, 1, 1)
  }

  // ---------------------------------------------------------------------------
  // Day counting: the day count is a strictly increasing numbering of the days

  lemma DaysBeforeNextYear(y: nat)
    ensures DaysBeforeYear(y + 1) == DaysBeforeYear(y) + DaysInYear(y)
  {
    assert (y + 4) / 4 == (y + 3) / 4 + (if y % 4 == 0 then 1 else 0);
    assert (y + 100) / 100 == (y + 99) / 100 + (if y % 100 == 0 then 1 else 0);
    assert (y + 400) / 400 == (y + 399) / 400 + (if y % 400 == 0 then 1 else 0);
  }

  lemma DaysBeforeNextMonth(y: int, m: int)
    requires 1 <= m < 12
    ensures DaysBeforeMonth(y, m + 1) == DaysBeforeMonth(y, m) + DaysInMonth(y, m)
  {
  }

  /** Every day of a month comes before every day of a later month of the same year. */
  lemma {:induction false} MonthsOrdered(y: int, m1: int, m2: int)
    requires 1 <= m1 < m2 <= 12
    ensures DaysBeforeMonth(y, m1) + DaysInMonth(y, m1) <= DaysBeforeMonth(y, m2)
  {
    DaysBeforeNextMonth(y, m2 - 1);
    if m1 < m2 - 1 {
      MonthsOrdered(y, m1, m2 - 1);
    }
  }

  /** Every day of a year comes before every day of a later year. */
  lemma {:induction false} YearsOrdered(y1: nat, y2: nat)
    requires y1 < y2
    ensures DaysBeforeYear(y1) + DaysInYear(y1) <= DaysBeforeYear(y2)
  {
    DaysBeforeNextYear(y2 - 1);
    if y1 < y2 - 1 {
      YearsOrdered(y1, y2 - 1);
    }
  }

  lemma DayOfYearBounds(c: CalendarDate)
    requires ValidDate(c)
    ensures 0 <= DayOfYear(c) < DaysInYear(c.year)
  {
    if c.month < 12 {
      MonthsOrdered(c.year, c.month, 12);
    }
  }

  /** Later in the calendar means a larger day count. */
  lemma EpochDayMonotonic(a: CalendarDate, b: CalendarDate)
    requires ValidDate(a) && ValidDate(b) && Before(a, b)
    ensures EpochDay(a) < EpochDay(b)
  {
    if a.year < b.year {
      DayOfYearBounds(a);
      YearsOrdered(a.year, b.year);
    } else if a.month < b.month {
      MonthsOrdered(a.year, a.month, b.month);
    }
  }

  /** Comparing day counts is comparing calendar dates, in both directions. */
  lemma EpochDayOrder(a: CalendarDate, b: CalendarDate)
    requires ValidDate(a) && ValidDate(b)
    ensures EpochDay(a) < EpochDay(b) <==> Before(a, b)
    ensures EpochDay(a) == EpochDay(b) <==> a == b
  {
    if Before(a, b) {
      EpochDayMonotonic(a, b);
    } else if Before(b, a) {
      EpochDayMonotonic(b, a);
    }
  }

  /** Adding one to the day count steps to the next calendar day, so `+ n` is `plusDays(n)`. */
  lemma NextDayIsNextEpochDay(c: CalendarDate)
    requires ValidDate(c) && c != LastDay
    ensures EpochDay(NextDay(c)) == EpochDay(c) + 1
  {
    if c.day == DaysInMonth(c.year, c.month) {
      if c.month < 12 {
        DaysBeforeNextMonth(c.year, c.month);
      } else {
        DaysBeforeNextYear(c.year);
      }
    }
  }

  /** The last day a four-digit year can name, and its day count. */
  const LastDay := CalendarDate(9999, 12, 31)
  const MaxEpochDay := 2932896

  /** Every day of a four-digit year counts between those of 0000-01-01 and 9999-12-31. */
  lemma DayCountRange(c: CalendarDate)
    requires ValidDate(c)
    ensures -EpochOffset <= EpochDay(c) <= MaxEpochDay
  {
    if 0 < c.year {
      YearsOrdered(0, c.year);
    }
    YearsOrdered(c.year, 10000);
    assert DaysBeforeYear(10000) == 3652425;
  }

  /**
   * `LocalDate.plusDays(n)`: `n` steps of `NextDay`. Its day count is the
   * start's plus `n`, which is why the model adds day counts.
   */
  function PlusDays(c: CalendarDate, n: nat): (r: CalendarDate)
    requires ValidDate(c) && EpochDay(c) + n <= EpochDay(LastDay)
    ensures ValidDate(r) && EpochDay(r) == EpochDay(c) + n
    decreases n
  {
    if n == 0 then c
    else
      assert c != LastDay;
      NextDayIsNextEpochDay(c);
      PlusDays(NextDay(c), n - 1)
  }

  /** `plusDays(n)` lands on the one valid date whose day count is `n` more. */
  lemma PlusDaysByDayCount(c: CalendarDate, n: nat, d: CalendarDate)
    requires ValidDate(c) && ValidDate(d) && EpochDay(d) == EpochDay(c) + n
    ensures PlusDays(c, n) == d
  {
    EpochDayOrder(PlusDays(c, n), d);
  }

  // ---------------------------------------------------------------------------
  // The text form YYYY-MM-DD

  predicate IsDigit(ch: char) {
    '0' <= ch <= '9'
  }

  function DigitValue(ch: char): (v: nat)
    requires IsDigit(ch)
    ensures v <= 9
  {
    ch as int - '0' as int
  }

  function DigitChar(v: nat): (ch: char)
    requires v <= 9
    ensures IsDigit(ch) && DigitValue(ch) == v
  {
    ('0' as int + v) as char
  }

  /** Ten characters: four digits, `-`, two digits, `-`, two digits. */
  predicate HasDateShape(s: string) {
    && |s| == 10
    && s[4] == '-' && s[7] == '-'
    && IsDigit(s[0]) && IsDigit(s[1]) && IsDigit(s[2]) && IsDigit(s[3])
    && IsDigit(s[5]) && IsDigit(s[6]) && IsDigit(s[8]) && IsDigit(s[9])
  }

  /** The year, month and day fields of a string of the right shape, read as decimal numbers. */
  function Fields(s: string): CalendarDate
    requires HasDateShape(s)
  {
    CalendarDate(
      1000 * DigitValue(s[0]) + 100 * DigitValue(s[1]) + 10 * DigitValue(s[2]) + DigitValue(s[3]),
      10 * DigitValue(s[5]) + DigitValue(s[6]),
      10 * DigitValue(s[8]) + DigitValue(s[9]))
  }

  /**
   * `LocalDate.parse` restricted to four-digit years: `None` stands for the
   * `DateTimeParseException` it throws on a malformed string, a month outside
   * 1..12 or a day the month does not have. An accepted string names a valid
   * date, the result is that date's day count, and it lies between the counts
   * of 0000-01-01 and 9999-12-31.
   */
  function ParseDate(s: string): (r: Option<Date>)
    ensures r.Some? ==> HasDateShape(s) && ValidDate(Fields(s)) && r.value == EpochDay(Fields(s))
    ensures r.Some? ==> -EpochOffset <= r.value <= MaxEpochDay
  {
    if HasDateShape(s) && ValidDate(Fields(s)) then
      DayCountRange(Fields(s));
      Some(EpochDay(Fields(s)))
    else None
  }

  /** The canonical `YYYY-MM-DD` text of a valid date (`LocalDate.toString`). */
  function FormatDate(c: CalendarDate): (s: string)
    requires ValidDate(c)
    ensures HasDateShape(s)
  {
    [ DigitChar(c.year / 1000), DigitChar(c.year / 100 % 10), DigitChar(c.year / 10 % 10), DigitChar(c.year % 10),
      '-', DigitChar(c.month / 10), DigitChar(c.month % 10),
      '-', DigitChar(c.day / 10), DigitChar(c.day % 10) ]
  }

  lemma DecimalDigits4(n: int)
    requires 0 <= n <= 9999
    ensures 1000 * (n / 1000) + 100 * (n / 100 % 10) + 10 * (n / 10 % 10) + n % 10 == n
  {
    var q := n / 10;
    assert n == 10 * q + n % 10;
    assert q / 10 == n / 100 && q % 10 == n / 10 % 10;
    assert q == 10 * (n / 100) + n / 10 % 10;
    var p := n / 100;
    assert p / 10 == n / 1000 && p % 10 == n / 100 % 10;
    assert p == 10 * (n / 1000) + n / 100 % 10;
  }

  lemma DigitsDecimal4(a: nat, b: nat, c: nat, d: nat)
    requires a <= 9 && b <= 9 && c <= 9 && d <= 9
    ensures var n := 1000 * a + 100 * b + 10 * c + d;
      n / 1000 == a && n / 100 % 10 == b && n / 10 % 10 == c && n % 10 == d
  {
    var n := 1000 * a + 100 * b + 10 * c + d;
    assert n == 10 * (100 * a + 10 * b + c) + d;
    assert n / 10 == 100 * a + 10 * b + c;
    assert n / 10 == 10 * (10 * a + b) + c;
    assert n / 100 == (n / 10) / 10 == 10 * a + b;
    assert n / 1000 == (n / 100) / 10 == a;
  }

  /** Parsing the text of a date gives back its day count. */
  lemma ParseFormat(c: CalendarDate)
    requires ValidDate(c)
    ensures ParseDate(FormatDate(c)) == Some(EpochDay(c))
  {
    var s := FormatDate(c);
    DecimalDigits4(c.year);
    assert Fields(s).year == c.year;
    assert Fields(s).month == c.month;
    assert Fields(s).day == c.day;
  }

  /** A string of the right shape whose fields name a real date is that date's canonical text. */
  lemma FormatParse(s: string)
    requires HasDateShape(s) && ValidDate(Fields(s))
    ensures FormatDate(Fields(s)) == s
  {
    var c := Fields(s);
    DigitsDecimal4(DigitValue(s[0]), DigitValue(s[1]), DigitValue(s[2]), DigitValue(s[3]));
    var t := FormatDate(c);
    assert t[0] == s[0] && t[1] == s[1] && t[2] == s[2] && t[3] == s[3];
    assert t[5] == s[5] && t[6] == s[6] && t[8] == s[8] && t[9] == s[9];
  }

  /** Two accepted strings that name the same day are the same string. */
  lemma ParseInjective(s: string, t: string)
    requires ParseDate(s).Some? && ParseDate(s) == ParseDate(t)
    ensures s == t
  {
    FormatParse(s);
    FormatParse(t);
    EpochDayOrder(Fields(s), Fields(t));
  }
}
