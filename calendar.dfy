/** The parts of java.time that the I bond engine relies on: YearMonth and
    LocalDate in the ISO calendar, month arithmetic and ordering. */
module Calendar {
  import opened Wrappers

  /** Year.MAX_VALUE; the least year java.time allows is its negation. */
  const MaxYear: int := 999999999

  type Month = m: int | 1 <= m <= 12 witness 1
  type DayOfMonth = d: int | 1 <= d <= 31 witness 1

  /** java.time.YearMonth */
  datatype YearMonth = YearMonth(year: int, month: Month)

  /** java.time.LocalDate; a real date also satisfies ValidDate */
  datatype Date = Date(year: int, month: Month, day: DayOfMonth)

  /** Number of months since January of year 0; orders and counts months. */
  function MonthIndex(ym: YearMonth): int
  {
    ym.year * 12 + (ym.month - 1)
  }

  /** The month with the given index: floorDiv(i, 12) years and
      floorMod(i, 12) + 1 months. It is the only month with that index. */
  function FromMonthIndex(i: int): (ym: YearMonth)
    ensures MonthIndex(ym) == i
  {
    assert MonthIndex(YearMonth(i / 12, i % 12 + 1)) == i;
    var ym :| MonthIndex(ym) == i;
    ym
  }

  /** A month is determined by its index. */
  lemma MonthIndexInjective(a: YearMonth, b: YearMonth)
    ensures MonthIndex(a) == MonthIndex(b) ==> a == b
  {
  }

  lemma FromMonthIndexOfMonthIndex(ym: YearMonth)
    ensures FromMonthIndex(MonthIndex(ym)) == ym
  {
    MonthIndexInjective(FromMonthIndex(MonthIndex(ym)), ym);
  }

  /** YearMonth.plusMonths: the month n months later (earlier when n < 0). */
  function PlusMonths(ym: YearMonth, n: int): (r: YearMonth)
    ensures MonthIndex(r) == MonthIndex(ym) + n
  {
    FromMonthIndex(MonthIndex(ym) + n)
  }

  lemma PlusMonthsInjective(a: YearMonth, b: YearMonth, n: int)
    requires PlusMonths(a, n) == PlusMonths(b, n)
    ensures a == b
  {
    FromMonthIndexOfMonthIndex(a);
    FromMonthIndexOfMonthIndex(b);
  }

  lemma PlusMonthsAdd(ym: YearMonth, m: int, n: int)
    ensures PlusMonths(PlusMonths(ym, m), n) == PlusMonths(ym, m + n)
  {
  }

  lemma PlusMonthsZero(ym: YearMonth)
    ensures PlusMonths(ym, 0) == ym
  {
    FromMonthIndexOfMonthIndex(ym);
  }

  /** YearMonth.plusYears keeps the month and shifts the year; it throws a
      DateTimeException, None here, when the new year is outside the years
      java.time allows. */
  function PlusYears(ym: YearMonth, n: int): (r: Option<YearMonth>)
    ensures r.Some? <==> -MaxYear <= ym.year + n <= MaxYear
    ensures r.Some? ==> r.value == PlusMonths(ym, 12 * n)
  {
    if ym.year + n < -MaxYear || MaxYear < ym.year + n then None
    else
      var r := YearMonth(ym.year + n, ym.month);
      FromMonthIndexOfMonthIndex(r);
      Some(r)
  }

  /** YearMonth.isBefore compares the year, then the month. */
  predicate IsBeforeMonth(a: YearMonth, b: YearMonth)
  {
    a.year < b.year || (a.year == b.year && a.month < b.month)
  }

  lemma IsBeforeMonthByIndex(a: YearMonth, b: YearMonth)
    ensures IsBeforeMonth(a, b) <==> MonthIndex(a) < MonthIndex(b)
  {
  }

  /** IsoChronology.isLeapYear */
  predicate IsLeapYear(year: int)
  {
    year % 4 == 0 && (year % 100 != 0 || year % 400 == 0)
  }

  /** Month.length in the given year. */
  function LengthOfMonth(year: int, month: Month): (n: int)
    ensures 28 <= n <= 31
  {
    if month == 2 then (if IsLeapYear(year) then 29 else 28)
    else if month == 4 || month == 6 || month == 9 || month == 11 then 30
    else 31
  }

  predicate ValidDate(d: Date)
  {
    d.day <= LengthOfMonth(d.year, d.month)
  }

  /** YearMonth.atDay(1) */
  function AtDay1(ym: YearMonth): (d: Date)
    ensures ValidDate(d) && d.day == 1 && YearMonthOf(d) == ym
  {
    Date(ym.year, ym.month, 1)
  }

  /** YearMonth.atEndOfMonth */
  function AtEndOfMonth(ym: YearMonth): (d: Date)
    ensures ValidDate(d) && YearMonthOf(d) == ym
    ensures forall other: Date :: YearMonthOf(other) == ym && ValidDate(other) ==> !IsBefore(d, other)
  {
    Date(ym.year, ym.month, LengthOfMonth(ym.year, ym.month))
  }

  /** YearMonth.from(date) */
  function YearMonthOf(d: Date): YearMonth
  {
    YearMonth(d.year, d.month)
  }

  /** LocalDate.plusMonths: same day of month, clipped to the length of the new month. */
  function PlusMonthsDate(d: Date, n: int): (r: Date)
    ensures ValidDate(r)
    ensures YearMonthOf(r) == PlusMonths(YearMonthOf(d), n)
    ensures r.day <= d.day && (ValidDate(d) && d.day <= 28 ==> r.day == d.day)
    ensures d.day <= LengthOfMonth(r.year, r.month) ==> r.day == d.day
    ensures d.day > LengthOfMonth(r.year, r.month) ==> r.day == LengthOfMonth(r.year, r.month)
  {
    var ym := PlusMonths(YearMonthOf(d), n);
    var len := LengthOfMonth(ym.year, ym.month);
    Date(ym.year, ym.month, if d.day <= len then d.day else len)
  }

  /** LocalDate.isBefore compares year, month and day in that order. */
  predicate IsBefore(a: Date, b: Date)
  {
    a.year < b.year
    || (a.year == b.year && a.month < b.month)
    || (a.year == b.year && a.month == b.month && a.day < b.day)
  }

  /** LocalDate.isAfter */
  predicate IsAfter(a: Date, b: Date)
  {
    IsBefore(b, a)
  }

  lemma IsBeforeIsStrictTotalOrder(a: Date, b: Date, c: Date)
    ensures !IsBefore(a, a)
    ensures IsBefore(a, b) && IsBefore(b, c) ==> IsBefore(a, c)
    ensures a != b ==> IsBefore(a, b) || IsBefore(b, a)
  {
  }

  /** An order-preserving integer key for dates, used to key ordered maps by date. */
  function DateKey(d: Date): int
  {
    d.year * 372 + (d.month - 1) * 31 + (d.day - 1)
  }

  function DateOfKey(k: int): (d: Date)
    ensures DateKey(d) == k
  {
    var r := k % 372;
    Date(k / 372, r / 31 + 1, r % 31 + 1)
  }

  lemma DateKeyInjective(a: Date, b: Date)
    requires DateKey(a) == DateKey(b)
    ensures a == b
  {
    var k := DateKey(a);
    assert k / 372 == a.year && k % 372 == (a.month - 1) * 31 + (a.day - 1);
    assert k / 372 == b.year && k % 372 == (b.month - 1) * 31 + (b.day - 1);
  }

  lemma DateKeyOrder(a: Date, b: Date)
    ensures IsBefore(a, b) <==> DateKey(a) < DateKey(b)
  {
    if a.year < b.year {
      assert DateKey(a) < (a.year + 1) * 372 <= DateKey(b);
    } else if a.year > b.year {
      assert DateKey(b) < (b.year + 1) * 372 <= DateKey(a);
    }
  }

  /** The last day of a month is the greatest date of that month. */
  lemma DateOfMonthBounds(d: Date)
    requires ValidDate(d)
    ensures !IsBefore(d, AtDay1(YearMonthOf(d)))
    ensures !IsAfter(d, AtEndOfMonth(YearMonthOf(d)))
  {
  }
}
