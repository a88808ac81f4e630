/** getDateForTicker: the issue month encoded in an I bond ticker symbol such
    as IBond202312 (prefix, year, two-digit month), read the way the strict,
    prefix-case-insensitive java.time formatter of IBondImporter reads it. */
module Tickers {
  import opened Wrappers
  import opened Calendar
  import opened Text
  import opened Decimals
  import opened Rates

  /** The text after the prefix, less a leading '-'. */
  function TickerDigits(ticker: string, prefix: string): string
    requires |ticker| >= |prefix|
  {
    var rest := ticker[|prefix|..];
    if |rest| > 0 && rest[0] == '-' then rest[1..] else rest
  }

  /** The text after the prefix starts with '-'. */
  predicate TickerNegative(ticker: string, prefix: string)
    requires |ticker| >= |prefix|
  {
    |ticker| > |prefix| && ticker[|prefix|] == '-'
  }

  /** The strings the formatter accepts: the prefix in any letter case, an
      optional '-' (a '+' is refused in strict parsing), then the year digits
      and exactly two month digits naming a month. Reading the year stops at
      19 digits, so at most 21 digits parse; the year is at most Year.MAX_VALUE
      in size, and "-0" is refused. */
  predicate MatchesTickerPattern(ticker: string, prefix: string)
  {
    |ticker| >= |prefix| && EqualsIgnoreCase(ticker[..|prefix|], prefix)
    && var d := TickerDigits(ticker, prefix);
       3 <= |d| <= 21 && AllDigits(d)
       && DigitsValue(d[..|d| - 2]) <= MaxYear
       && 1 <= DigitsValue(d[|d| - 2..]) <= 12
       && !(TickerNegative(ticker, prefix) && DigitsValue(d[..|d| - 2]) == 0)
  }

  /** getDateForTicker: a ticker parses exactly when it matches the pattern,
      to the first day of the month its last two digits name, in the year the
      other digits name, negated after a '-'. Every other string is the parse
      error for that ticker. */
  function GetDateForTicker(ticker: string, prefix: string): (r: Result<Date, ImportError>)
    ensures r.Success? <==> MatchesTickerPattern(ticker, prefix)
    ensures r.Success? ==>
      var d := TickerDigits(ticker, prefix);
      var yearAbs := DigitsValue(d[..|d| - 2]);
      r.value == Date(if TickerNegative(ticker, prefix) then -(yearAbs as int) else yearAbs,
                      DigitsValue(d[|d| - 2..]), 1)
    ensures r.Success? ==> ValidDate(r.value) && -MaxYear <= r.value.year <= MaxYear
    ensures r.Failure? ==> r.error == TickerParse(ticker)
  {
    if |ticker| < |prefix| || !EqualsIgnoreCase(ticker[..|prefix|], prefix) then Failure(TickerParse(ticker))
    else
      var digits := TickerDigits(ticker, prefix);
      if |digits| < 3 || |digits| > 21 || !AllDigits(digits) then Failure(TickerParse(ticker))
      else
        var yearAbs := DigitsValue(digits[..|digits| - 2]);
        var month := DigitsValue(digits[|digits| - 2..]);
        if (TickerNegative(ticker, prefix) && yearAbs == 0) || yearAbs > MaxYear || month < 1 || month > 12 then
          Failure(TickerParse(ticker))
        else
          Success(Date(if TickerNegative(ticker, prefix) then -(yearAbs as int) else yearAbs, month, 1))
  }

  /** The ticker of an issue month: the prefix, a '-' for a year before year
      0, the size of the year padded to four digits and the month padded to two. */
  function TickerFor(prefix: string, ym: YearMonth): string
  {
    var yearAbs := if ym.year < 0 then -ym.year else ym.year;
    prefix + ((if ym.year < 0 then "-" else "") + (ZeroPad(NatToString(yearAbs), 4) + ZeroPad(NatToString(ym.month), 2)))
  }

  /** A ticker of the prefix and 3 to 21 plain digits parses to the first day
      of the month the last two digits name, in the year the others name. */
  lemma ParseUnsigned(ticker: string, prefix: string, digits: string)
    requires |ticker| >= |prefix| && EqualsIgnoreCase(ticker[..|prefix|], prefix)
    requires digits == ticker[|prefix|..] && 3 <= |digits| <= 21 && AllDigits(digits)
    requires DigitsValue(digits[..|digits| - 2]) <= MaxYear
    requires 1 <= DigitsValue(digits[|digits| - 2..]) <= 12
    ensures GetDateForTicker(ticker, prefix)
      == Success(Date(DigitsValue(digits[..|digits| - 2]), DigitsValue(digits[|digits| - 2..]), 1))
  {
    assert IsDigit(digits[0]);
  }

  /** A ticker of the prefix, a '-' and 3 to 21 digits whose year part is
      not zero parses to the first day of that month in the negated year. */
  lemma ParseSigned(ticker: string, prefix: string, digits: string)
    requires |ticker| > |prefix| && EqualsIgnoreCase(ticker[..|prefix|], prefix) && ticker[|prefix|] == '-'
    requires digits == ticker[|prefix| + 1..] && 3 <= |digits| <= 21 && AllDigits(digits)
    requires 1 <= DigitsValue(digits[..|digits| - 2]) <= MaxYear
    requires 1 <= DigitsValue(digits[|digits| - 2..]) <= 12
    ensures GetDateForTicker(ticker, prefix)
      == Success(Date(-(DigitsValue(digits[..|digits| - 2]) as int), DigitsValue(digits[|digits| - 2..]), 1))
  {
    assert ticker[|prefix|..][1..] == digits;
  }

  /** Every issue month in the years java.time allows round-trips through its
      ticker, whatever the letter case the prefix is written in. */
  lemma TickerRoundTrip(prefix: string, written: string, ym: YearMonth)
    requires EqualsIgnoreCase(written, prefix) && -MaxYear <= ym.year <= MaxYear
    ensures GetDateForTicker(TickerFor(written, ym), prefix) == Success(AtDay1(ym))
  {
    var yearAbs := if ym.year < 0 then -ym.year else ym.year;
    var y, m := ZeroPad(NatToString(yearAbs), 4), ZeroPad(NatToString(ym.month), 2);
    PaddedYearMonth(yearAbs, ym.month);
    if ym.year < 0 {
      assert TickerFor(written, ym) == written + ("-" + (y + m));
      ParseSignedConcat(written, prefix, y, m);
    } else {
      assert "" + (y + m) == y + m;
      assert TickerFor(written, ym) == written + (y + m);
      ParseUnsignedConcat(written, prefix, y, m);
    }
  }

  /** The prefix as written, year digits and month digits. */
  lemma ParseUnsignedConcat(written: string, prefix: string, y: string, m: string)
    requires EqualsIgnoreCase(written, prefix) && AllDigits(y) && AllDigits(m)
    requires 1 <= |y| <= 19 && |m| == 2 && DigitsValue(y) <= MaxYear && 1 <= DigitsValue(m) <= 12
    ensures GetDateForTicker(written + (y + m), prefix) == Success(Date(DigitsValue(y), DigitsValue(m), 1))
  {
    ConcatDigits(y, m);
    PrefixSplit(written, y + m);
    ParseUnsigned(written + (y + m), prefix, y + m);
  }

  /** The prefix as written, '-', year digits and month digits. */
  lemma ParseSignedConcat(written: string, prefix: string, y: string, m: string)
    requires EqualsIgnoreCase(written, prefix) && AllDigits(y) && AllDigits(m)
    requires 1 <= |y| <= 19 && |m| == 2 && 1 <= DigitsValue(y) <= MaxYear && 1 <= DigitsValue(m) <= 12
    ensures GetDateForTicker(written + ("-" + (y + m)), prefix)
      == Success(Date(-(DigitsValue(y) as int), DigitsValue(m), 1))
  {
    ConcatDigits(y, m);
    PrefixSplit(written, "-" + (y + m));
    assert ("-" + (y + m))[1..] == y + m;
    ParseSigned(written + ("-" + (y + m)), prefix, y + m);
  }

  lemma PrefixSplit(a: string, b: string)
    ensures (a + b)[..|a|] == a && (a + b)[|a|..] == b
  {
  }

  /** The padded year takes 4 to 9 digits and reads back as the year; the
      padded month takes two and reads back as the month. */
  lemma PaddedYearMonth(year: nat, month: Month)
    requires year <= MaxYear
    ensures var y := ZeroPad(NatToString(year), 4);
      4 <= |y| <= 9 && AllDigits(y) && DigitsValue(y) == year
    ensures var m := ZeroPad(NatToString(month), 2);
      |m| == 2 && AllDigits(m) && DigitsValue(m) == month
  {
    assert Pow10(2) == 100;
    assert Pow10(9) == 1000000000 by {
      assert Pow10(3) == 1000;
      assert Pow10(6) == 1000 * Pow10(3) by { Pow10Add(3, 3); }
      Pow10Add(6, 3);
    }
    NatToStringLength(year, 9);
    NatToStringLength(month, 2);
    ZeroPadValue(year, 4);
    ZeroPadValue(month, 2);
  }

  /** Two digit strings side by side: all digits, and each part is found again
      by slicing off the last two. */
  lemma ConcatDigits(y: string, m: string)
    requires AllDigits(y) && AllDigits(m) && |m| == 2
    ensures var d := y + m;
      AllDigits(d) && d[..|d| - 2] == y && d[|d| - 2..] == m
  {
    var d := y + m;
    assert forall i :: 0 <= i < |d| ==> d[i] == if i < |y| then y[i] else m[i - |y|];
    assert d[..|d| - 2] == y && d[|d| - 2..] == m;
  }
}
