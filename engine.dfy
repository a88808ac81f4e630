/** The I bond interest rules of IBondImporter as functions: one six-month
    epoch of non-compounding months, the chain of epochs from the issue month
    to the current month, and the early-years deferral. */
module InterestEngine {
  import opened Wrappers
  import opened Calendar
  import opened Decimals
  import opened Text
  import opened Rates
  import opened Tickers
  import opened InterestTxns

  /** SEMIANNUAL_MONTHS, MONTHS_TO_LOSE, EARLY_YEARS */
  const SemiannualMonths: nat := 6
  const MonthsToLose: nat := 3
  const EarlyYears: nat := 5

  /** Formatter's %tb in an English locale. */
  function MonthAbbrev(m: Month): (s: string)
    ensures |s| == 3
  {
    ["Jan", "Feb", "Mar", "Apr", "May", "Jun", "Jul", "Aug", "Sep", "Oct", "Nov", "Dec"][m - 1]
  }

  /** ChronoField.YEAR_OF_ERA, the field %tY prints. */
  function YearOfEra(year: int): nat
  {
    if year >= 1 then year else 1 - year
  }

  /** The memo "%tb %<tY interest" of the month the interest was earned in. */
  function InterestMemo(ym: YearMonth): string
  {
    MonthAbbrev(ym.month) + " " + ZeroPad(NatToString(YearOfEra(ym.year)), 4) + " interest"
  }

  /** The month an English abbreviation names (0 for none). */
  function MonthOfAbbrev(s: string): int
  {
    if s == "Jan" then 1 else if s == "Feb" then 2 else if s == "Mar" then 3
    else if s == "Apr" then 4 else if s == "May" then 5 else if s == "Jun" then 6
    else if s == "Jul" then 7 else if s == "Aug" then 8 else if s == "Sep" then 9
    else if s == "Oct" then 10 else if s == "Nov" then 11 else if s == "Dec" then 12
    else 0
  }

  lemma MonthOfAbbrevOfMonthAbbrev(m: Month)
    ensures MonthOfAbbrev(MonthAbbrev(m)) == m
  {
  }

  /** In the years 1 to 9999 a memo is the abbreviation, a blank and four year digits. */
  lemma InterestMemoParts(ym: YearMonth)
    requires 1 <= ym.year <= 9999
    ensures |InterestMemo(ym)| == 17
    ensures InterestMemo(ym)[..3] == MonthAbbrev(ym.month)
    ensures AllDigits(InterestMemo(ym)[4..8]) && DigitsValue(InterestMemo(ym)[4..8]) == ym.year
  {
    assert Pow10(4) == 10000;
    NatToStringLength(ym.year, 4);
    ZeroPadValue(ym.year, 4);
    var y := ZeroPad(NatToString(ym.year), 4);
    assert InterestMemo(ym)[4..8] == y;
  }

  /** Memos tell months of the years 1 to 9999 apart. */
  lemma InterestMemoInjective(a: YearMonth, b: YearMonth)
    requires 1 <= a.year <= 9999 && 1 <= b.year <= 9999
    requires InterestMemo(a) == InterestMemo(b)
    ensures a == b
  {
    InterestMemoParts(a);
    InterestMemoParts(b);
    MonthOfAbbrevOfMonthAbbrev(a.month);
    MonthOfAbbrevOfMonthAbbrev(b.month);
  }

  /** The running values of addNonCompoundingMonths between two months. */
  datatype EpochState = EpochState(finalBal: real, eligibleBal: real, month: YearMonth)

  /** A twelfth of the composite rate. */
  function MonthlyRate(compositeRate: real): real
  {
    compositeRate / 12.0
  }

  /** One month's interest on the eligible balance, rounded half-even to cents. */
  function MonthlyInterest(eligibleBal: real, monthlyRate: real): real
  {
    RoundHalfEven(eligibleBal * monthlyRate, 2)
  }

  /** The interest is a whole number of cents within half a cent of the exact product. */
  lemma MonthlyInterestInCents(eligibleBal: real, monthlyRate: real)
    ensures HasPlaces(MonthlyInterest(eligibleBal, monthlyRate), 2)
    ensures -0.5 <= (MonthlyInterest(eligibleBal, monthlyRate) - eligibleBal * monthlyRate) * 100.0 <= 0.5
  {
    RoundHalfEvenNearest(eligibleBal * monthlyRate, 2);
    assert Pow10(2) == 100;
  }

  /** The balance once the month's interest is added. */
  function StartingBal(monthlyRate: real, s: EpochState): real
  {
    s.finalBal + MonthlyInterest(s.eligibleBal, monthlyRate)
  }

  /** The record of the month after s.month: interest on the eligible balance
      at the monthly rate, paid on day 1 of the next month, with the memo of
      s.month, added to the balance. */
  function MonthRecord(monthlyRate: real, s: EpochState, memoFor: YearMonth -> string): (r: InterestTxn)
    ensures r.payDate == AtDay1(PlusMonths(s.month, 1)) && r.memo == memoFor(s.month)
    ensures r.startingBal == s.finalBal + r.payAmount && r.startingBal == StartingBal(monthlyRate, s)
  {
    var interest := MonthlyInterest(s.eligibleBal, monthlyRate);
    InterestTxn(AtDay1(PlusMonths(s.month, 1)), interest, memoFor(s.month), s.finalBal + interest)
  }

  /** The eligible balance scaled by 1 + redemption / starting balance. */
  function ScaleEligible(eligibleBal: real, redemption: real, startingBal: real): real
    requires startingBal != 0.0
  {
    eligibleBal * (1.0 + redemption / startingBal)
  }

  /** The state after the month: the redemption joins the balance and scales
      the eligible balance by 1 + redemption / starting balance. */
  function NextState(monthlyRate: real, s: EpochState, redemptionForMonth: YearMonth -> real): (r: EpochState)
    requires StartingBal(monthlyRate, s) != 0.0
    ensures r.month == PlusMonths(s.month, 1)
    ensures r.finalBal == StartingBal(monthlyRate, s) + redemptionForMonth(r.month)
    ensures r.eligibleBal * StartingBal(monthlyRate, s) == s.eligibleBal * r.finalBal
  {
    var startingBal := StartingBal(monthlyRate, s);
    var next := PlusMonths(s.month, 1);
    var redemption := redemptionForMonth(next);
    ScaleEligibleProRata(s.eligibleBal, redemption, startingBal);
    EpochState(startingBal + redemption, ScaleEligible(s.eligibleBal, redemption, startingBal), next)
  }

  /** The eligible share of the balance is kept: the scaled eligible balance
      is to the balance after the redemption as the eligible balance was to
      the starting balance. */
  lemma ScaleEligibleProRata(eligibleBal: real, redemption: real, startingBal: real)
    requires startingBal != 0.0
    ensures ScaleEligible(eligibleBal, redemption, startingBal) * startingBal == eligibleBal * (startingBal + redemption)
  {
    assert (1.0 + redemption / startingBal) * startingBal == startingBal + redemption;
  }

  /** A redemption of the whole balance leaves no eligible balance, so the
      next month's starting balance is zero and the month after fails with
      the division by it. */
  lemma FullRedemption(k: nat, monthlyRate: real, s: EpochState, redemptionForMonth: YearMonth -> real,
                       memoFor: YearMonth -> string)
    requires StartingBal(monthlyRate, s) != 0.0 && k > 0
    requires NextState(monthlyRate, s, redemptionForMonth).finalBal == 0.0
    ensures NextState(monthlyRate, s, redemptionForMonth).eligibleBal == 0.0
    ensures StartingBal(monthlyRate, NextState(monthlyRate, s, redemptionForMonth)) == 0.0
    ensures Months(k, monthlyRate, NextState(monthlyRate, s, redemptionForMonth), redemptionForMonth, memoFor)
      == Failure(DivisionByZero)
  {
    var r := NextState(monthlyRate, s, redemptionForMonth);
    assert s.eligibleBal * r.finalBal == 0.0;
    ZeroTimesNonZero(r.eligibleBal, StartingBal(monthlyRate, s));
    NoInterestOnZero(monthlyRate);
    assert StartingBal(monthlyRate, r) == r.finalBal + MonthlyInterest(0.0, monthlyRate);
  }

  lemma NoInterestOnZero(monthlyRate: real)
    ensures MonthlyInterest(0.0, monthlyRate) == 0.0
  {
    assert 0.0 * monthlyRate == 0.0;
    assert HasPlaces(0.0, 2);
    RoundHalfEvenOfScaled(0.0, 2);
  }

  lemma ZeroTimesNonZero(x: real, y: real)
    requires y != 0.0 && x * y == 0.0
    ensures x == 0.0
  {
  }

  /** The records of the k months still to walk in an epoch and the final
      balance after them; a zero starting balance makes the division by it fail. */
  function Months(k: nat, monthlyRate: real, s: EpochState, redemptionForMonth: YearMonth -> real,
                  memoFor: YearMonth -> string): Result<(seq<InterestTxn>, real), ImportError>
    decreases k
  {
    if k == 0 then Success(([], s.finalBal))
    else if StartingBal(monthlyRate, s) == 0.0 then Failure(DivisionByZero)
    else Prepend([MonthRecord(monthlyRate, s, memoFor)],
                 Months(k - 1, monthlyRate, NextState(monthlyRate, s, redemptionForMonth), redemptionForMonth, memoFor))
  }

  /** Records already produced, in front of the outcome of the rest. */
  function Prepend(done: seq<InterestTxn>, rest: Result<(seq<InterestTxn>, real), ImportError>)
    : Result<(seq<InterestTxn>, real), ImportError>
  {
    match rest
    case Success((txns, bal)) => Success((done + txns, bal))
    case Failure(e) => Failure(e)
  }

  /** addNonCompoundingMonths: six months at a twelfth of the composite rate. */
  function Epoch(compositeRate: real, finalBal: real, month: YearMonth, redemptionForMonth: YearMonth -> real,
                 memoFor: YearMonth -> string): Result<(seq<InterestTxn>, real), ImportError>
  {
    Months(SemiannualMonths, MonthlyRate(compositeRate), EpochState(finalBal, finalBal, month), redemptionForMonth,
           memoFor)
  }

  /** The records of the months that start in the given states. */
  function MonthRecords(monthlyRate: real, states: seq<EpochState>, memoFor: YearMonth -> string)
    : (r: seq<InterestTxn>)
    ensures |r| == |states| && forall i :: 0 <= i < |states| ==> r[i] == MonthRecord(monthlyRate, states[i], memoFor)
  {
    if states == [] then []
    else [MonthRecord(monthlyRate, states[0], memoFor)] + MonthRecords(monthlyRate, states[1..], memoFor)
  }

  /** The states k months walk through from s: every state of the trace but
      the last has a non-zero starting balance and leads to the next; a full
      trace gives the records and final balance of Months, a short one ends in
      the month whose zero starting balance makes Months fail. */
  lemma {:induction false} MonthsTrace(k: nat, monthlyRate: real, s: EpochState,
                                       redemptionForMonth: YearMonth -> real, memoFor: YearMonth -> string)
    returns (states: seq<EpochState>)
    ensures 1 <= |states| <= k + 1 && states[0] == s
    ensures forall i :: 0 <= i < |states| - 1 ==>
      StartingBal(monthlyRate, states[i]) != 0.0 && states[i + 1] == NextState(monthlyRate, states[i], redemptionForMonth)
    ensures |states| == k + 1 ==>
      Months(k, monthlyRate, s, redemptionForMonth, memoFor)
        == Success((MonthRecords(monthlyRate, states[..k], memoFor), states[k].finalBal))
    ensures |states| <= k ==>
      StartingBal(monthlyRate, states[|states| - 1]) == 0.0
      && Months(k, monthlyRate, s, redemptionForMonth, memoFor) == Failure(DivisionByZero)
  {
    if k == 0 || StartingBal(monthlyRate, s) == 0.0 {
      states := [s];
    } else {
      var next := NextState(monthlyRate, s, redemptionForMonth);
      var tail := MonthsTrace(k - 1, monthlyRate, next, redemptionForMonth, memoFor);
      states := [s] + tail;
      forall i | 0 <= i < |states| - 1
        ensures StartingBal(monthlyRate, states[i]) != 0.0
        ensures states[i + 1] == NextState(monthlyRate, states[i], redemptionForMonth)
      {
        if i > 0 {
          assert states[i] == tail[i - 1] && states[i + 1] == tail[i];
        }
      }
      if |states| == k + 1 {
        assert states[..k] == [s] + tail[..k - 1];
        assert MonthRecords(monthlyRate, states[..k], memoFor)
          == [MonthRecord(monthlyRate, s, memoFor)] + MonthRecords(monthlyRate, tail[..k - 1], memoFor);
      }
    }
  }

  /** Record i is paid on day 1 of the month i+1 months after the given
      month, for the interest earned in the month i months after it. */
  predicate PaidMonthly(txns: seq<InterestTxn>, month: YearMonth, memoFor: YearMonth -> string)
  {
    forall i :: 0 <= i < |txns| ==>
      txns[i].payDate == AtDay1(PlusMonths(month, i + 1)) && txns[i].memo == memoFor(PlusMonths(month, i))
  }

  /** The k months of an epoch yield k records. */
  lemma {:induction false} MonthsLength(k: nat, monthlyRate: real, s: EpochState,
                                        redemptionForMonth: YearMonth -> real, memoFor: YearMonth -> string)
    requires Months(k, monthlyRate, s, redemptionForMonth, memoFor).Success?
    ensures |Months(k, monthlyRate, s, redemptionForMonth, memoFor).value.0| == k
  {
    if k > 0 {
      MonthsLength(k - 1, monthlyRate, NextState(monthlyRate, s, redemptionForMonth), redemptionForMonth, memoFor);
    }
  }

  /** Record i of an epoch is paid on day 1 of the month i+1 months after the
      epoch's first month, for the interest earned in month i. */
  lemma {:induction false} MonthsShape(k: nat, monthlyRate: real, s: EpochState,
                                       redemptionForMonth: YearMonth -> real, memoFor: YearMonth -> string)
    requires Months(k, monthlyRate, s, redemptionForMonth, memoFor).Success?
    ensures PaidMonthly(Months(k, monthlyRate, s, redemptionForMonth, memoFor).value.0, s.month, memoFor)
  {
    if k > 0 {
      var next := NextState(monthlyRate, s, redemptionForMonth);
      MonthsShape(k - 1, monthlyRate, next, redemptionForMonth, memoFor);
      var rest := Months(k - 1, monthlyRate, next, redemptionForMonth, memoFor).value.0;
      var txns := [MonthRecord(monthlyRate, s, memoFor)] + rest;
      forall i | 0 <= i < |txns|
        ensures txns[i].payDate == AtDay1(PlusMonths(s.month, i + 1)) && txns[i].memo == memoFor(PlusMonths(s.month, i))
      {
        if i == 0 {
          PlusMonthsZero(s.month);
        } else {
          assert txns[i] == rest[i - 1];
          MonthlyLater(rest, s.month, memoFor, i - 1);
        }
      }
    }
  }

  /** Record j of monthly records from the month after is the record of
      month j + 1. */
  lemma MonthlyLater(rest: seq<InterestTxn>, month: YearMonth, memoFor: YearMonth -> string, j: nat)
    requires PaidMonthly(rest, PlusMonths(month, 1), memoFor) && j < |rest|
    ensures rest[j].payDate == AtDay1(PlusMonths(month, j + 2)) && rest[j].memo == memoFor(PlusMonths(month, j + 1))
  {
    PlusMonthsAdd(month, 1, j);
    PlusMonthsAdd(month, 1, j + 1);
  }

  /** addNonCompoundingMonths appends exactly six records, paid on day 1 of
      the six months after the given one, for the interest of the month before. */
  lemma EpochShape(compositeRate: real, finalBal: real, month: YearMonth, redemptionForMonth: YearMonth -> real,
                   memoFor: YearMonth -> string)
    requires Epoch(compositeRate, finalBal, month, redemptionForMonth, memoFor).Success?
    ensures |Epoch(compositeRate, finalBal, month, redemptionForMonth, memoFor).value.0| == 6
    ensures PaidMonthly(Epoch(compositeRate, finalBal, month, redemptionForMonth, memoFor).value.0, month, memoFor)
  {
    var s := EpochState(finalBal, finalBal, month);
    MonthsLength(SemiannualMonths, MonthlyRate(compositeRate), s, redemptionForMonth, memoFor);
    MonthsShape(SemiannualMonths, MonthlyRate(compositeRate), s, redemptionForMonth, memoFor);
  }

  /** The sum of the payment amounts. */
  function TotalInterest(txns: seq<InterestTxn>): real
  {
    if txns == [] then 0.0 else txns[0].payAmount + TotalInterest(txns[1..])
  }

  /** The redemptions of the k months after the given one. */
  function TotalRedemptions(redemptionForMonth: YearMonth -> real, month: YearMonth, k: nat): real
    decreases k
  {
    if k == 0 then 0.0
    else redemptionForMonth(PlusMonths(month, 1)) + TotalRedemptions(redemptionForMonth, PlusMonths(month, 1), k - 1)
  }

  /** Nothing is lost: the final balance is the initial one plus every
      interest payment plus every (negative) redemption; each record's
      starting balance is the balance before it plus its interest. */
  lemma {:induction false} MonthsConserveBalance(k: nat, monthlyRate: real, s: EpochState,
                                                 redemptionForMonth: YearMonth -> real, memoFor: YearMonth -> string)
    requires Months(k, monthlyRate, s, redemptionForMonth, memoFor).Success?
    ensures var r := Months(k, monthlyRate, s, redemptionForMonth, memoFor).value;
      r.1 == s.finalBal + TotalInterest(r.0) + TotalRedemptions(redemptionForMonth, s.month, k)
  {
    if k > 0 {
      var next := NextState(monthlyRate, s, redemptionForMonth);
      MonthsConserveBalance(k - 1, monthlyRate, next, redemptionForMonth, memoFor);
      var rest := Months(k - 1, monthlyRate, next, redemptionForMonth, memoFor).value.0;
      var txns := [MonthRecord(monthlyRate, s, memoFor)] + rest;
      assert txns[1..] == rest;
    }
  }

  /** Without redemptions the eligible balance never changes within the
      epoch, so every month earns the same rounded interest; from a positive
      balance at a non-negative rate no division by zero can occur. */
  lemma {:induction false} MonthsWithoutRedemptions(k: nat, monthlyRate: real, s: EpochState,
                                                    redemptionForMonth: YearMonth -> real, memoFor: YearMonth -> string)
    requires NoRedemptions(redemptionForMonth, s.month, k)
    requires s.finalBal > 0.0 && s.eligibleBal >= 0.0 && monthlyRate >= 0.0
    ensures Months(k, monthlyRate, s, redemptionForMonth, memoFor).Success?
    ensures var txns := Months(k, monthlyRate, s, redemptionForMonth, memoFor).value.0;
      forall i :: 0 <= i < |txns| ==> txns[i].payAmount == MonthlyInterest(s.eligibleBal, monthlyRate)
  {
    if k > 0 {
      var rec := MonthRecord(monthlyRate, s, memoFor);
      NonNegativeInterest(s.eligibleBal, monthlyRate);
      var next := NextState(monthlyRate, s, redemptionForMonth);
      NextStateWithoutRedemption(monthlyRate, s, redemptionForMonth);
      MonthsWithoutRedemptions(k - 1, monthlyRate, next, redemptionForMonth, memoFor);
      var rest := Months(k - 1, monthlyRate, next, redemptionForMonth, memoFor).value.0;
      var txns := Months(k, monthlyRate, s, redemptionForMonth, memoFor).value.0;
      assert txns == [rec] + rest;
    }
  }

  /** No redemption in any of the k months after the given one. */
  predicate NoRedemptions(redemptionForMonth: YearMonth -> real, month: YearMonth, k: nat)
    decreases k
  {
    k == 0 || (redemptionForMonth(PlusMonths(month, 1)) == 0.0
               && NoRedemptions(redemptionForMonth, PlusMonths(month, 1), k - 1))
  }

  lemma NonNegativeInterest(eligibleBal: real, monthlyRate: real)
    requires eligibleBal >= 0.0 && monthlyRate >= 0.0
    ensures MonthlyInterest(eligibleBal, monthlyRate) >= 0.0
  {
    assert eligibleBal * monthlyRate >= 0.0;
    RoundHalfEvenNonNegative(eligibleBal * monthlyRate, 2);
  }

  lemma NextStateWithoutRedemption(monthlyRate: real, s: EpochState, redemptionForMonth: YearMonth -> real)
    requires StartingBal(monthlyRate, s) != 0.0
    requires redemptionForMonth(PlusMonths(s.month, 1)) == 0.0
    ensures NextState(monthlyRate, s, redemptionForMonth).eligibleBal == s.eligibleBal
    ensures NextState(monthlyRate, s, redemptionForMonth).finalBal == StartingBal(monthlyRate, s)
  {
    var b := StartingBal(monthlyRate, s);
    assert ScaleEligible(s.eligibleBal, 0.0, b) == s.eligibleBal;
  }

  /** The getIBondInterestTxns loop: an epoch for each month month, month+6,
      ... strictly before thisMonth, each with the inflation rate in effect at
      its first month, each starting from the previous epoch's final balance. */
  function Epochs(table: RateTable, ticker: string, fixedRate: real, finalBal: real, month: YearMonth,
                  thisMonth: YearMonth, redemptionForMonth: YearMonth -> real, memoFor: YearMonth -> string): Result<seq<InterestTxn>, ImportError>
    requires ValidTable(table)
    decreases MonthIndex(thisMonth) - MonthIndex(month)
  {
    if !IsBeforeMonth(month, thisMonth) then Success([])
    else
      var rate :- RateForMonth(table, AtDay1(month), ticker);
      var epoch :- Epoch(CombineRate(fixedRate, rate.inflationRate), finalBal, month, redemptionForMonth, memoFor);
      var rest :- Epochs(table, ticker, fixedRate, epoch.1, PlusMonths(month, SemiannualMonths), thisMonth,
                         redemptionForMonth, memoFor);
      Success(epoch.0 + rest)
  }

  /** The number of epochs that start strictly before a month lying the given
      number of months after the first one. */
  function EpochCount(months: int): nat
    decreases months
  {
    if months <= 0 then 0 else 1 + EpochCount(months - SemiannualMonths)
  }

  /** One epoch for every six months, the last one possibly cut short. */
  lemma {:induction false} EpochCountCeiling(months: int)
    ensures months > 0 ==> EpochCount(months) == (months + 5) / 6
    decreases months
  {
    if months > 6 {
      EpochCountCeiling(months - 6);
      assert (months + 5) / 6 == (months - 1) / 6 + 1;
    }
  }

  /** The chained epochs yield six records per epoch. */
  lemma {:induction false} EpochsCount(table: RateTable, ticker: string, fixedRate: real, finalBal: real,
                                       month: YearMonth, thisMonth: YearMonth, redemptionForMonth: YearMonth -> real,
                                       memoFor: YearMonth -> string, txns: seq<InterestTxn>)
    requires ValidTable(table)
    requires Epochs(table, ticker, fixedRate, finalBal, month, thisMonth, redemptionForMonth, memoFor) == Success(txns)
    ensures |txns| == 6 * EpochCount(MonthIndex(thisMonth) - MonthIndex(month))
    decreases MonthIndex(thisMonth) - MonthIndex(month)
  {
    if IsBeforeMonth(month, thisMonth) {
      var composite, epoch, nextBal, rest :=
        EpochsUnfold(table, ticker, fixedRate, finalBal, month, thisMonth, redemptionForMonth, memoFor, txns);
      EpochShape(composite, finalBal, month, redemptionForMonth, memoFor);
      var next := PlusMonths(month, SemiannualMonths);
      EpochsCount(table, ticker, fixedRate, nextBal, next, thisMonth, redemptionForMonth, memoFor, rest);
      EpochsLength(txns, epoch, rest, month, next, thisMonth);
    } else {
      NoEpochs(month, thisMonth, txns);
    }
  }

  /** No epoch starts when the first month is not before the current one. */
  lemma NoEpochs(month: YearMonth, thisMonth: YearMonth, txns: seq<InterestTxn>)
    requires !IsBeforeMonth(month, thisMonth) && txns == []
    ensures |txns| == 6 * EpochCount(MonthIndex(thisMonth) - MonthIndex(month))
  {
  }

  /** Record i of the chained epochs is paid on day 1 of the month i+1
      months after the first month and is the interest of month i. */
  lemma {:induction false} EpochsShape(table: RateTable, ticker: string, fixedRate: real, finalBal: real,
                                       month: YearMonth, thisMonth: YearMonth, redemptionForMonth: YearMonth -> real,
                                       memoFor: YearMonth -> string, txns: seq<InterestTxn>)
    requires ValidTable(table)
    requires Epochs(table, ticker, fixedRate, finalBal, month, thisMonth, redemptionForMonth, memoFor) == Success(txns)
    ensures PaidMonthly(txns, month, memoFor)
    decreases MonthIndex(thisMonth) - MonthIndex(month)
  {
    IsBeforeMonthByIndex(month, thisMonth);
    if IsBeforeMonth(month, thisMonth) {
      var composite, epoch, nextBal, rest :=
        EpochsUnfold(table, ticker, fixedRate, finalBal, month, thisMonth, redemptionForMonth, memoFor, txns);
      EpochShape(composite, finalBal, month, redemptionForMonth, memoFor);
      var next := PlusMonths(month, SemiannualMonths);
      EpochsShape(table, ticker, fixedRate, nextBal, next, thisMonth, redemptionForMonth, memoFor, rest);
      PaidMonthlyConcat(epoch, rest, month, memoFor);
    }
  }

  /** Six records, then six per epoch of the months left, are six per epoch
      of all the months. */
  lemma EpochsLength(whole: seq<InterestTxn>, epoch: seq<InterestTxn>, rest: seq<InterestTxn>,
                     month: YearMonth, next: YearMonth, thisMonth: YearMonth)
    requires IsBeforeMonth(month, thisMonth) && next == PlusMonths(month, SemiannualMonths)
    requires whole == epoch + rest && |epoch| == 6
    requires |rest| == 6 * EpochCount(MonthIndex(thisMonth) - MonthIndex(next))
    ensures |whole| == 6 * EpochCount(MonthIndex(thisMonth) - MonthIndex(month))
  {
    var months := MonthIndex(thisMonth) - MonthIndex(month);
    assert months > 0 && MonthIndex(thisMonth) - MonthIndex(next) == months - 6;
    assert EpochCount(months) == 1 + EpochCount(months - 6);
  }

  /** One turn of the getIBondInterestTxns loop: the epoch at the composite
      rate of its first month, then the epochs that follow from its final balance. */
  lemma EpochsUnfold(table: RateTable, ticker: string, fixedRate: real, finalBal: real,
                     month: YearMonth, thisMonth: YearMonth, redemptionForMonth: YearMonth -> real, memoFor: YearMonth -> string,
                     txns: seq<InterestTxn>)
    returns (composite: real, epoch: seq<InterestTxn>, nextBal: real, rest: seq<InterestTxn>)
    requires ValidTable(table) && IsBeforeMonth(month, thisMonth)
    requires Epochs(table, ticker, fixedRate, finalBal, month, thisMonth, redemptionForMonth, memoFor) == Success(txns)
    ensures RateForMonth(table, AtDay1(month), ticker).Success?
    ensures composite == CombineRate(fixedRate, RateForMonth(table, AtDay1(month), ticker).value.inflationRate)
    ensures Epoch(composite, finalBal, month, redemptionForMonth, memoFor) == Success((epoch, nextBal))
    ensures Epochs(table, ticker, fixedRate, nextBal, PlusMonths(month, SemiannualMonths), thisMonth, redemptionForMonth,
                   memoFor) == Success(rest)
    ensures txns == epoch + rest
  {
    composite := CombineRate(fixedRate, RateForMonth(table, AtDay1(month), ticker).value.inflationRate);
    var e := Epoch(composite, finalBal, month, redemptionForMonth, memoFor).value;
    epoch, nextBal := e.0, e.1;
    rest := Epochs(table, ticker, fixedRate, nextBal, PlusMonths(month, SemiannualMonths), thisMonth, redemptionForMonth,
                   memoFor).value;
  }

  /** Six monthly records followed by monthly records from six months later
      are monthly records throughout. */
  lemma PaidMonthlyConcat(epoch: seq<InterestTxn>, rest: seq<InterestTxn>, month: YearMonth,
                          memoFor: YearMonth -> string)
    requires |epoch| == 6 && PaidMonthly(epoch, month, memoFor) && PaidMonthly(rest, PlusMonths(month, 6), memoFor)
    ensures PaidMonthly(epoch + rest, month, memoFor)
  {
    var txns := epoch + rest;
    forall i | 0 <= i < |txns|
      ensures txns[i].payDate == AtDay1(PlusMonths(month, i + 1)) && txns[i].memo == memoFor(PlusMonths(month, i))
    {
      if i < 6 {
        assert txns[i] == epoch[i];
      } else {
        assert txns[i] == rest[i - 6];
        PaidMonthlyLater(rest, month, memoFor, i - 6);
      }
    }
  }

  /** Record j of monthly records from six months later is the record of
      month j + 6. */
  lemma PaidMonthlyLater(rest: seq<InterestTxn>, month: YearMonth, memoFor: YearMonth -> string, j: nat)
    requires PaidMonthly(rest, PlusMonths(month, 6), memoFor) && j < |rest|
    ensures rest[j].payDate == AtDay1(PlusMonths(month, j + 7)) && rest[j].memo == memoFor(PlusMonths(month, j + 6))
  {
    PlusMonthsAdd(month, 6, j);
    PlusMonthsAdd(month, 6, j + 1);
  }

  /** The date a payment made before the fifth anniversary moves to. */
  function DeferEarly(txn: InterestTxn, year5Age: Date): InterestTxn
  {
    if IsBefore(txn.payDate, year5Age) then txn.(payDate := DeferredDate(txn.payDate, MonthsToLose, year5Age))
    else txn
  }

  /** The first forEach of deferInterestInFirstYears. */
  function DeferAll(txns: seq<InterestTxn>, year5Age: Date): (r: seq<InterestTxn>)
    ensures |r| == |txns| && forall i :: 0 <= i < |txns| ==> r[i] == DeferEarly(txns[i], year5Age)
  {
    if txns == [] then [] else [DeferEarly(txns[0], year5Age)] + DeferAll(txns[1..], year5Age)
  }

  /** The removeIf of deferInterestInFirstYears: drop the payments dated
      after today, keeping the others in list order. */
  function KeepNotAfter(txns: seq<InterestTxn>, today: Date): seq<InterestTxn>
  {
    if txns == [] then []
    else
      var last := txns[|txns| - 1];
      KeepNotAfter(txns[..|txns| - 1], today) + (if IsAfter(last.payDate, today) then [] else [last])
  }

  /** The payments kept are exactly those of the list not dated after today. */
  lemma {:induction false} KeepNotAfterMembers(txns: seq<InterestTxn>, today: Date)
    ensures forall t :: t in KeepNotAfter(txns, today) <==> t in txns && !IsAfter(t.payDate, today)
  {
    if txns != [] {
      var init := txns[..|txns| - 1];
      KeepNotAfterMembers(init, today);
      assert txns == init + [txns[|txns| - 1]];
    }
  }

  /** Filtering one more element of a list: it is kept exactly when it is not after today. */
  lemma KeepNotAfterSnoc(txns: seq<InterestTxn>, i: nat, today: Date)
    requires i < |txns|
    ensures KeepNotAfter(txns[..i + 1], today)
      == KeepNotAfter(txns[..i], today) + (if IsAfter(txns[i].payDate, today) then [] else [txns[i]])
  {
    assert txns[..i + 1][..i] == txns[..i];
  }

  /** The fifth anniversary: day 1 of the issue month five years on. */
  function FifthAnniversary(issueMonth: YearMonth): Date
  {
    AtDay1(PlusMonths(issueMonth, 12 * EarlyYears))
  }

  /** year5Age, issueDate.plusYears(EARLY_YEARS).atDay(1): the fifth
      anniversary, or the DateTimeException of a year past Year.MAX_VALUE. */
  function Year5Age(issueMonth: YearMonth): (r: Result<Date, ImportError>)
    ensures r.Success? <==> -MaxYear <= issueMonth.year + EarlyYears <= MaxYear
    ensures r.Success? ==> r.value == FifthAnniversary(issueMonth)
    ensures r.Failure? ==> r.error == YearOutOfRange(issueMonth.year + EarlyYears)
  {
    match PlusYears(issueMonth, EarlyYears)
    case None => Failure(YearOutOfRange(issueMonth.year + EarlyYears))
    case Some(ym) => Success(AtDay1(ym))
  }

  /** Deferral moves an early payment later by three months but never past
      the fifth anniversary, and leaves every later payment where it is. */
  lemma DeferEarlyMoves(txn: InterestTxn, year5Age: Date)
    requires ValidDate(txn.payDate)
    ensures var d := DeferEarly(txn, year5Age);
      d.payAmount == txn.payAmount && d.memo == txn.memo && d.startingBal == txn.startingBal
      && (IsBefore(txn.payDate, year5Age) ==> !IsAfter(d.payDate, year5Age) && !IsBefore(d.payDate, txn.payDate))
      && (!IsBefore(txn.payDate, year5Age) ==> d == txn)
  {
    if IsBefore(txn.payDate, year5Age) {
      DeferredDateNotEarlier(txn.payDate, MonthsToLose, year5Age);
    }
  }

  /** getIBondInterestTxns from the given rate-table outcome: parse the issue
      month, take the fixed rate from it, chain the epochs, defer (which
      fails when the fifth anniversary is past Year.MAX_VALUE), drop the future. */
  function InterestTxnsFor(ticker: string, prefix: string, rates: Result<RateTable, ImportError>,
                           month0FinalBal: real, redemptionForMonth: YearMonth -> real, memoFor: YearMonth -> string,
                           thisMonth: YearMonth, today: Date): Result<seq<InterestTxn>, ImportError>
    requires rates.Success? ==> ValidTable(rates.value)
  {
    var issueDate :- GetDateForTicker(ticker, prefix);
    var table :- rates;
    var issueMonth := YearMonthOf(issueDate);
    var fixedRate :- RateForMonth(table, AtDay1(issueMonth), ticker);
    var txns :- Epochs(table, ticker, fixedRate.fixedRate, month0FinalBal, issueMonth, thisMonth, redemptionForMonth, memoFor);
    var year5Age :- Year5Age(issueMonth);
    Success(KeepNotAfter(DeferAll(txns, year5Age), today))
  }

  /** What the engine returns: nothing dated after today, and every record is
      a computed monthly record with the early-years deferral applied. */
  lemma InterestTxnsForShape(ticker: string, prefix: string, rates: Result<RateTable, ImportError>,
                             month0FinalBal: real, redemptionForMonth: YearMonth -> real, memoFor: YearMonth -> string,
                             thisMonth: YearMonth, today: Date)
    requires rates.Success? ==> ValidTable(rates.value)
    requires InterestTxnsFor(ticker, prefix, rates, month0FinalBal, redemptionForMonth, memoFor, thisMonth, today).Success?
    ensures var issueMonth := YearMonthOf(GetDateForTicker(ticker, prefix).value);
      forall t :: t in InterestTxnsFor(ticker, prefix, rates, month0FinalBal, redemptionForMonth, memoFor, thisMonth, today).value
        ==> !IsAfter(t.payDate, today)
            && exists i: nat :: t == DeferEarly(InterestTxn(AtDay1(PlusMonths(issueMonth, i + 1)), t.payAmount,
                                                             memoFor(PlusMonths(issueMonth, i)), t.startingBal),
                                                 FifthAnniversary(issueMonth))
  {
    var issueMonth := YearMonthOf(GetDateForTicker(ticker, prefix).value);
    var table := rates.value;
    var fixedRate := RateForMonth(table, AtDay1(issueMonth), ticker).value.fixedRate;
    var txns := Epochs(table, ticker, fixedRate, month0FinalBal, issueMonth, thisMonth, redemptionForMonth, memoFor).value;
    EpochsShape(table, ticker, fixedRate, month0FinalBal, issueMonth, thisMonth, redemptionForMonth, memoFor, txns);
    var deferred := DeferAll(txns, FifthAnniversary(issueMonth));
    KeepNotAfterMembers(deferred, today);
    forall t | t in KeepNotAfter(deferred, today)
      ensures exists i: nat :: t == DeferEarly(InterestTxn(AtDay1(PlusMonths(issueMonth, i + 1)), t.payAmount,
                                                            memoFor(PlusMonths(issueMonth, i)), t.startingBal),
                                                FifthAnniversary(issueMonth))
    {
      DeferredMonthly(txns, issueMonth, memoFor, t);
    }
  }

  /** A deferred monthly record is the deferral of the record of some month. */
  lemma DeferredMonthly(txns: seq<InterestTxn>, issueMonth: YearMonth, memoFor: YearMonth -> string, t: InterestTxn)
    requires PaidMonthly(txns, issueMonth, memoFor) && t in DeferAll(txns, FifthAnniversary(issueMonth))
    ensures exists i: nat :: t == DeferEarly(InterestTxn(AtDay1(PlusMonths(issueMonth, i + 1)), t.payAmount,
                                                          memoFor(PlusMonths(issueMonth, i)), t.startingBal),
                                              FifthAnniversary(issueMonth))
  {
    var deferred := DeferAll(txns, FifthAnniversary(issueMonth));
    var i :| 0 <= i < |deferred| && deferred[i] == t;
    assert txns[i] == InterestTxn(AtDay1(PlusMonths(issueMonth, i + 1)), t.payAmount,
                                  memoFor(PlusMonths(issueMonth, i)), t.startingBal);
  }
}
