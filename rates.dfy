/** The I bond rate history (IBondImporter.IBondRateRec and the TreeMap of
    them keyed by start date), the composite-rate rule and the rate lookup. */
module Rates {
  import opened Wrappers
  import opened Calendar
  import opened Decimals
  import opened TreeMaps

  /** INTEREST_RATE_DIGITS */
  const InterestRateDigits: nat := 4

  /** The failures the importer reports: MduExcepcionito for a bad ticker or a
      month without rates, MduException for a spreadsheet without the column
      headers, the ArithmeticException of a division by a zero balance, and
      the DateTimeException of a year beyond those java.time allows. */
  datatype ImportError =
    | TickerParse(ticker: string)
    | NoRates(month: Date, ticker: string)
    | MissingColumnHeaders
    | DivisionByZero
    | YearOutOfRange(year: int)

  /** IBondRateRec: semiannual inflation rate, fixed rate, date the rates took effect. */
  datatype RateRec = RateRec(inflationRate: real, fixedRate: real, startDate: Date)

  /** TreeMap<LocalDate, IBondRateRec>: entries keyed by the start date of their record. */
  type RateTable = seq<(int, RateRec)>

  predicate ValidTable(table: RateTable)
  {
    Sorted(table) && forall i :: 0 <= i < |table| ==> table[i].0 == DateKey(table[i].1.startDate)
  }

  /** getInterestRateClean: the cell's number at four decimal places, half-even. */
  function GetInterestRateClean(number: real): (r: real)
    ensures HasPlaces(r, InterestRateDigits)
    ensures -0.5 <= (r - number) * 10000.0 <= 0.5
    ensures IsHalfEvenRounding((r * 10000.0).Floor, number * 10000.0)
  {
    RoundHalfEvenNearest(number, InterestRateDigits);
    assert Pow10(InterestRateDigits) == 10000;
    HalfEvenIntCharacterized(Scaled(number, InterestRateDigits), 0);
    var units := RoundedUnits(number, InterestRateDigits);
    assert RoundHalfEven(number, InterestRateDigits) * 10000.0 == units as real;
    assert (units as real).Floor == units;
    RoundHalfEven(number, InterestRateDigits)
  }

  /** The composite rate as TreasuryDirect publishes it:
      fixed + 2 * semiannual inflation + fixed * semiannual inflation. */
  function PublishedComposite(fixedRate: real, inflationRate: real): real
  {
    fixedRate + 2.0 * inflationRate + fixedRate * inflationRate
  }

  /** combineRate: the published composite, floored at zero, at four places. */
  function CombineRate(fixedRate: real, inflationRate: real): (r: real)
    ensures r >= 0.0 && HasPlaces(r, InterestRateDigits)
    ensures r == RoundHalfEven(if PublishedComposite(fixedRate, inflationRate) < 0.0 then 0.0
                               else PublishedComposite(fixedRate, inflationRate), InterestRateDigits)
  {
    var composite := (fixedRate + 2.0) * inflationRate + fixedRate;
    var floored := if composite < 0.0 then 0.0 else composite;
    RoundHalfEvenNonNegative(floored, InterestRateDigits);
    RoundHalfEven(floored, InterestRateDigits)
  }

  /** Deflation never makes the composite rate negative: it is zero whenever
      the published formula is negative. */
  lemma CombineRateFloor(fixedRate: real, inflationRate: real)
    requires PublishedComposite(fixedRate, inflationRate) <= 0.0
    ensures CombineRate(fixedRate, inflationRate) == 0.0
  {
    RoundHalfEvenOfScaled(0.0, InterestRateDigits);
  }

  /** Without inflation the composite rate is the fixed rate. */
  lemma CombineRateNoInflation(fixedRate: real)
    requires fixedRate >= 0.0 && HasPlaces(fixedRate, InterestRateDigits)
    ensures CombineRate(fixedRate, 0.0) == fixedRate
  {
    RoundHalfEvenOfScaled(fixedRate, InterestRateDigits);
  }

  /** More inflation never lowers the composite rate (for a non-negative fixed rate). */
  lemma CombineRateMonotone(fixedRate: real, i1: real, i2: real)
    requires fixedRate >= 0.0 && i1 <= i2
    ensures CombineRate(fixedRate, i1) <= CombineRate(fixedRate, i2)
  {
    ScaleMonotone(i1, i2, fixedRate + 2.0);
    var c1, c2 := PublishedComposite(fixedRate, i1), PublishedComposite(fixedRate, i2);
    assert c1 <= c2;
    RoundHalfEvenMonotone(if c1 < 0.0 then 0.0 else c1, if c2 < 0.0 then 0.0 else c2, InterestRateDigits);
  }

  /** getRateForMonth: the record of the latest start date on or before the
      given date, or the NoRates error when every record starts later. */
  function RateForMonth(table: RateTable, month: Date, ticker: string): (r: Result<RateRec, ImportError>)
    requires ValidTable(table)
    ensures r.Failure? <==> forall i :: 0 <= i < |table| ==> IsAfter(table[i].1.startDate, month)
    ensures r.Failure? ==> r.error == NoRates(month, ticker)
    ensures r.Success? ==>
      (exists i :: 0 <= i < |table| && table[i].1 == r.value)
      && !IsAfter(r.value.startDate, month)
      && forall i :: 0 <= i < |table| && !IsAfter(table[i].1.startDate, month) ==>
           !IsBefore(r.value.startDate, table[i].1.startDate)
  {
    FloorEntrySpec(table, DateKey(month));
    forall i | 0 <= i < |table| ensures IsAfter(table[i].1.startDate, month) <==> table[i].0 > DateKey(month) {
      DateKeyOrder(month, table[i].1.startDate);
    }
    match FloorEntry(table, DateKey(month))
    case None => Failure(NoRates(month, ticker))
    case Some(e) =>
      var k :| 0 <= k < |table| && table[k] == e;
      forall i | 0 <= i < |table| && !IsAfter(table[i].1.startDate, month)
        ensures !IsBefore(e.1.startDate, table[i].1.startDate)
      {
        DateKeyOrder(e.1.startDate, table[i].1.startDate);
      }
      DateKeyOrder(month, e.1.startDate);
      Success(e.1)
  }
}
