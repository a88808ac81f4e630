/** The IBondImporter object: the column indexes and the cached rate table it
    keeps in fields, and the loops of the engine proved against the
    functions of InterestEngine. */
module Importer {
  import opened Wrappers
  import opened Calendar
  import opened TreeMaps
  import opened ColumnHeaders
  import opened Rates
  import opened RateSheet
  import opened Tickers
  import opened InterestTxns
  import opened InterestEngine

  class IBondImporter {
    /** The shared header-name table of IBondHistColHdr. */
    const headers: ColumnHeaderTable
    /** The data sheet of the TreasuryDirect spreadsheet, header row first. */
    const sheet: seq<Row>
    /** MdUtil.IBOND_TICKER_PREFIX */
    const tickerPrefix: string
    var iBondRates: Option<RateTable>
    var iRateCol: int
    var fRateCol: int
    var sDateCol: int

    predicate Valid()
      reads this
    {
      iBondRates.Some? ==> ValidTable(iBondRates.value)
    }

    function Cols(): Columns
      reads this
    {
      Columns(iRateCol, fRateCol, sDateCol)
    }

    /** The constructor registers the configured header names. */
    constructor (headers: ColumnHeaderTable, iRateName: string, fRateName: string, sDateName: string,
                 sheet: seq<Row>, tickerPrefix: string)
      modifies headers
      ensures headers.valMap == Register(old(headers.valMap), iRateName, fRateName, sDateName)
      ensures this.headers == headers && this.sheet == sheet && this.tickerPrefix == tickerPrefix
      ensures iBondRates == None && Cols() == Columns(-1, -1, -1)
      ensures Valid()
    {
      this.headers := headers;
      this.sheet := sheet;
      this.tickerPrefix := tickerPrefix;
      iBondRates := None;
      iRateCol, fRateCol, sDateCol := -1, -1, -1;
      new;
      headers.InitializeColumns(iRateName, fRateName, sDateName);
    }

    /** loadColumnIndexes: scan the header row (if any) and report whether all
        three columns are now located. */
    method LoadColumnIndexes() returns (located: bool)
      modifies this
      ensures Cols() == ScanHeader(sheet, headers.valMap, old(Cols()))
      ensures located <==> Cols().Located()
      ensures iBondRates == old(iBondRates)
    {
      if sheet != [] {
        var row := sheet[0];
        ghost var valMap := headers.valMap;
        ghost var previous := Cols();
        var i := 0;
        while i < |row|
          invariant 0 <= i <= |row|
          invariant iBondRates == old(iBondRates) && headers.valMap == valMap
          invariant iRateCol == LastColumn(row[..i], valMap, IRate, previous.iRateCol)
          invariant fRateCol == LastColumn(row[..i], valMap, FRate, previous.fRateCol)
          invariant sDateCol == LastColumn(row[..i], valMap, SDate, previous.sDateCol)
        {
          LastColumnStep(row, i, valMap, IRate, previous.iRateCol);
          LastColumnStep(row, i, valMap, FRate, previous.fRateCol);
          LastColumnStep(row, i, valMap, SDate, previous.sDateCol);
          if row[i].Some? && row[i].value.StringCell? {
            match headers.GetEnum(row[i].value.text)
            case IRate => iRateCol := i;
            case FRate => fRateCol := i;
            case SDate => sDateCol := i;
            case Other =>
          }
          i := i + 1;
        }
        assert row[..|row|] == row;
      }
      located := iRateCol >= 0 && fRateCol >= 0 && sDateCol >= 0;
    }

    /** getIBondRates(Spliterator): put the record of every qualifying row. */
    method LoadRates(rows: seq<Row>) returns (table: RateTable)
      requires Cols().Located()
      ensures table == LoadRows(rows, Cols())
    {
      table := [];
      var i := 0;
      while i < |rows|
        invariant 0 <= i <= |rows|
        invariant table == LoadRows(rows[..i], Cols())
      {
        assert rows[..i + 1][..i] == rows[..i];
        var iRateCell := GetCellOfType(iRateCol, NumberType, rows[i]);
        var fRateCell := GetCellOfType(fRateCol, NumberType, rows[i]);
        var sDateCell := GetCellOfType(sDateCol, FormulaType, rows[i]);
        if iRateCell.Some? && fRateCell.Some? && sDateCell.Some? {
          var inflateRate := GetInterestRateClean(iRateCell.value.number);
          var fixedRate := GetInterestRateClean(fRateCell.value.number);
          var startDate := sDateCell.value.date;
          table := PutRate(table, RateRec(inflateRate, fixedRate, startDate));
        }
        i := i + 1;
      }
      assert rows[..|rows|] == rows;
    }

    /** Public getIBondRates: the cached table, or a fresh load that is cached
        when the header row located every column. */
    method GetIBondRates() returns (r: Result<RateTable, ImportError>)
      requires Valid()
      modifies this
      ensures Valid()
      ensures r == RatesFrom(old(iBondRates), sheet, headers.valMap, old(Cols()))
      ensures old(iBondRates).Some? ==> iBondRates == old(iBondRates) && Cols() == old(Cols())
      ensures old(iBondRates).None? ==>
        (Cols() == ScanHeader(sheet, headers.valMap, old(Cols()))
         && iBondRates == (if r.Success? then Some(r.value) else None))
    {
      if iBondRates.None? {
        var located := LoadColumnIndexes();
        if !located {
          return Failure(MissingColumnHeaders);
        }
        var table := LoadRates(DataRows(sheet));
        iBondRates := Some(table);
      }
      r := Success(iBondRates.value);
    }

    /** getRateForMonth, loading the table on first use. */
    method GetRateForMonth(month: Date, tickerSymbol: string) returns (r: Result<RateRec, ImportError>)
      requires Valid()
      modifies this
      ensures Valid()
      ensures var rates := RatesFrom(old(iBondRates), sheet, headers.valMap, old(Cols()));
        r == (if rates.Failure? then Failure(rates.error) else RateForMonth(rates.value, month, tickerSymbol))
      ensures old(iBondRates).Some? ==> iBondRates == old(iBondRates) && Cols() == old(Cols())
      ensures old(iBondRates).None? ==> Cols() == ScanHeader(sheet, headers.valMap, old(Cols()))
      ensures old(iBondRates).None? ==>
        (var rates := RatesFrom(old(iBondRates), sheet, headers.valMap, old(Cols()));
         iBondRates == (if rates.Success? then Some(rates.value) else None))
    {
      var rates := GetIBondRates();
      if rates.Failure? {
        return Failure(rates.error);
      }
      r := RateForMonth(rates.value, month, tickerSymbol);
    }

    /** addNonCompoundingMonths: append the six records of an epoch to the
        list and return the final balance. */
    static method AddNonCompoundingMonths(compositeRate: real, finalBal: real, month: YearMonth,
                                          iBondIntTxns: seq<InterestTxnRec>,
                                          redemptionForMonth: YearMonth -> real, memoFor: YearMonth -> string)
      returns (result: Result<real, ImportError>, txns: seq<InterestTxnRec>)
      ensures var spec := Epoch(compositeRate, finalBal, month, redemptionForMonth, memoFor);
        (spec.Failure? ==> result == Failure(spec.error))
        && (spec.Success? ==> result == Success(spec.value.1)
                              && |txns| == |iBondIntTxns| + SemiannualMonths
                              && Values(txns[|iBondIntTxns|..]) == spec.value.0)
      ensures |iBondIntTxns| <= |txns| && txns[..|iBondIntTxns|] == iBondIntTxns
      ensures forall k :: |iBondIntTxns| <= k < |txns| ==> fresh(txns[k])
      ensures Distinct(iBondIntTxns) ==> Distinct(txns)
    {
      var monthlyRate := MonthlyRate(compositeRate);
      var eligibleBal := finalBal;
      var balance := finalBal;
      var cur := month;
      txns := iBondIntTxns;
      ghost var states := MonthsTrace(SemiannualMonths, monthlyRate, EpochState(finalBal, finalBal, month),
                                      redemptionForMonth, memoFor);
      ghost var added: seq<InterestTxnRec> := [];
      var m := 0;
      while m < SemiannualMonths
        invariant 0 <= m <= SemiannualMonths && m < |states|
        invariant txns == iBondIntTxns + added && |added| == m
        invariant forall i :: 0 <= i < m ==> added[i].Value() == MonthRecord(monthlyRate, states[i], memoFor)
        invariant forall k :: |iBondIntTxns| <= k < |txns| ==> fresh(txns[k])
        invariant Distinct(iBondIntTxns) ==> Distinct(txns)
        invariant states[m] == EpochState(balance, eligibleBal, cur)
      {
        var rec, startingBal, next := AddMonth(monthlyRate, EpochState(balance, eligibleBal, cur),
                                               redemptionForMonth, memoFor);
        txns := txns + [rec];
        added := added + [rec];
        if startingBal == 0.0 {
          return Failure(DivisionByZero), txns;
        }
        balance, eligibleBal, cur := next.finalBal, next.eligibleBal, next.month;
        m := m + 1;
      }
      assert txns[|iBondIntTxns|..] == added;
      ValuesPointwise(added, MonthRecords(monthlyRate, states[..SemiannualMonths], memoFor));
      result := Success(balance);
    }

    /** One month of addNonCompoundingMonths: the new record, the starting
        balance it carries and, when that balance is not zero, the running
        values of the next month. */
    static method AddMonth(monthlyRate: real, s: EpochState, redemptionForMonth: YearMonth -> real,
                           memoFor: YearMonth -> string)
      returns (rec: InterestTxnRec, startingBal: real, next: EpochState)
      ensures fresh(rec) && rec.Value() == MonthRecord(monthlyRate, s, memoFor)
      ensures startingBal == StartingBal(monthlyRate, s)
      ensures startingBal != 0.0 ==> next == NextState(monthlyRate, s, redemptionForMonth)
    {
      var interest := MonthlyInterest(s.eligibleBal, monthlyRate);
      var memo := memoFor(s.month);
      var cur := PlusMonths(s.month, 1);
      startingBal := s.finalBal + interest;
      rec := new InterestTxnRec(AtDay1(cur), interest, memo, startingBal);
      var redemption := redemptionForMonth(cur);
      if startingBal == 0.0 {
        return rec, startingBal, s;
      }
      next := EpochState(startingBal + redemption, ScaleEligible(s.eligibleBal, redemption, startingBal), cur);
    }

    /** deferInterestInFirstYears: move every payment before the fifth
        anniversary, then keep the payments not dated after today. When the
        anniversary is past Year.MAX_VALUE, plusYears throws before any
        payment is touched. */
    static method DeferInterestInFirstYears(issueDate: YearMonth, iBondIntTxns: seq<InterestTxnRec>, today: Date)
      returns (r: Result<seq<InterestTxnRec>, ImportError>)
      requires Distinct(iBondIntTxns)
      modifies set rec | rec in iBondIntTxns
      ensures Year5Age(issueDate).Failure? ==>
        r == Failure(Year5Age(issueDate).error) && Values(iBondIntTxns) == old(Values(iBondIntTxns))
      ensures Year5Age(issueDate).Success? ==>
        Values(iBondIntTxns) == DeferAll(old(Values(iBondIntTxns)), FifthAnniversary(issueDate))
        && r.Success? && Values(r.value) == KeepNotAfter(Values(iBondIntTxns), today)
        && forall rec :: rec in r.value ==> rec in iBondIntTxns
    {
      var year5Age := Year5Age(issueDate);
      if year5Age.Failure? {
        return Failure(year5Age.error);
      }
      DeferEarlyPayments(iBondIntTxns, year5Age.value);
      var kept := RemoveIfAfter(iBondIntTxns, today);
      RemoveIfAfterKeeps(iBondIntTxns, today);
      RemoveIfAfterSubset(iBondIntTxns, today);
      r := Success(kept);
    }

    /** The forEach of deferInterestInFirstYears: each payment dated before
        the fifth anniversary is deferred by three months, capped at it. */
    static method DeferEarlyPayments(iBondIntTxns: seq<InterestTxnRec>, year5Age: Date)
      requires Distinct(iBondIntTxns)
      modifies set rec | rec in iBondIntTxns
      ensures Values(iBondIntTxns) == DeferAll(old(Values(iBondIntTxns)), year5Age)
    {
      ghost var vals := Values(iBondIntTxns);
      var i := 0;
      while i < |iBondIntTxns|
        invariant 0 <= i <= |iBondIntTxns|
        invariant forall j :: 0 <= j < i ==> iBondIntTxns[j].Value() == DeferEarly(vals[j], year5Age)
        invariant forall j :: i <= j < |iBondIntTxns| ==> iBondIntTxns[j].Value() == vals[j]
      {
        DeferAt(iBondIntTxns, i, year5Age);
        i := i + 1;
      }
      ValuesPointwise(iBondIntTxns, DeferAll(vals, year5Age));
    }

    /** One step of that forEach: the record at position i is deferred and,
        the records being distinct, no other position changes. */
    static method DeferAt(iBondIntTxns: seq<InterestTxnRec>, i: nat, year5Age: Date)
      requires Distinct(iBondIntTxns) && i < |iBondIntTxns|
      modifies iBondIntTxns[i]
      ensures iBondIntTxns[i].Value() == DeferEarly(old(iBondIntTxns[i].Value()), year5Age)
      ensures forall j :: 0 <= j < |iBondIntTxns| && j != i ==> iBondIntTxns[j].Value() == old(iBondIntTxns[j].Value())
    {
      var rec := iBondIntTxns[i];
      if IsBefore(rec.payDate, year5Age) {
        rec.DeferPayment(MonthsToLose, year5Age);
      }
    }

    /** getIBondInterestTxns: the engine's records for an I bond ticker, with
        "now" given as the current month and today's date. */
    method GetIBondInterestTxns(tickerSymbol: string, month0FinalBal: real,
                                redemptionForMonth: YearMonth -> real, memoFor: YearMonth -> string,
                                thisMonth: YearMonth, today: Date)
      returns (result: Result<seq<InterestTxnRec>, ImportError>)
      requires Valid()
      modifies this
      ensures Valid()
      ensures var spec := InterestTxnsFor(tickerSymbol, tickerPrefix,
                                          RatesFrom(old(iBondRates), sheet, headers.valMap, old(Cols())),
                                          month0FinalBal, redemptionForMonth, memoFor, thisMonth, today);
        (spec.Failure? ==> result == Failure(spec.error))
        && (spec.Success? ==> result.Success? && Values(result.value) == spec.value)
      ensures result.Success? ==> forall rec :: rec in result.value ==> fresh(rec)
      ensures GetDateForTicker(tickerSymbol, tickerPrefix).Failure? ==>
        iBondRates == old(iBondRates) && Cols() == old(Cols())
      ensures GetDateForTicker(tickerSymbol, tickerPrefix).Success? && old(iBondRates).None? ==>
        var rates := RatesFrom(old(iBondRates), sheet, headers.valMap, old(Cols()));
        Cols() == ScanHeader(sheet, headers.valMap, old(Cols()))
        && iBondRates == (if rates.Success? then Some(rates.value) else None)
      ensures old(iBondRates).Some? ==> iBondRates == old(iBondRates) && Cols() == old(Cols())
    {
      var parsed := GetDateForTicker(tickerSymbol, tickerPrefix);
      if parsed.Failure? {
        return Failure(parsed.error);
      }
      var issueDate := YearMonthOf(parsed.value);
      var fixed := GetRateForMonth(AtDay1(issueDate), tickerSymbol);
      if fixed.Failure? {
        return Failure(fixed.error);
      }
      var chained := ChainEpochs(iBondRates.value, tickerSymbol, fixed.value.fixedRate, month0FinalBal, issueDate,
                                 thisMonth, redemptionForMonth, memoFor);
      if chained.Failure? {
        return Failure(chained.error);
      }
      result := DeferInterestInFirstYears(issueDate, chained.value, today);
    }

    /** The epoch loop of getIBondInterestTxns: from the issue month, an epoch
        for every sixth month strictly before thisMonth, at the composite rate
        of the fixed rate and the inflation rate in effect at its first month,
        each epoch starting from the final balance of the one before. The rate
        table is already cached here, so each getRateForMonth is RateForMonth
        on it. */
    static method ChainEpochs(table: RateTable, tickerSymbol: string, fixedRate: real, month0FinalBal: real,
                              issueDate: YearMonth, thisMonth: YearMonth, redemptionForMonth: YearMonth -> real,
                              memoFor: YearMonth -> string)
      returns (result: Result<seq<InterestTxnRec>, ImportError>)
      requires ValidTable(table)
      ensures var spec := Epochs(table, tickerSymbol, fixedRate, month0FinalBal, issueDate, thisMonth,
                                 redemptionForMonth, memoFor);
        (spec.Failure? ==> result == Failure(spec.error))
        && (spec.Success? ==> result.Success? && Values(result.value) == spec.value)
      ensures result.Success? ==> Distinct(result.value) && forall rec :: rec in result.value ==> fresh(rec)
    {
      var month := issueDate;
      var finalBal := month0FinalBal;
      var txns: seq<InterestTxnRec> := [];
      ghost var done: seq<InterestTxn> := [];
      ghost var start := Epochs(table, tickerSymbol, fixedRate, month0FinalBal, issueDate, thisMonth,
                                redemptionForMonth, memoFor);
      PrependAllEmpty(start);
      while IsBeforeMonth(month, thisMonth)
        invariant Distinct(txns) && forall k :: 0 <= k < |txns| ==> fresh(txns[k])
        invariant |txns| == |done| && forall i :: 0 <= i < |txns| ==> txns[i].Value() == done[i]
        invariant start == PrependAll(done, Epochs(table, tickerSymbol, fixedRate, finalBal, month, thisMonth,
                                                   redemptionForMonth, memoFor))
        decreases MonthIndex(thisMonth) - MonthIndex(month)
      {
        EpochsStep(table, tickerSymbol, fixedRate, finalBal, month, thisMonth, redemptionForMonth, memoFor, done, start);
        var rate := RateForMonth(table, AtDay1(month), tickerSymbol);
        if rate.Failure? {
          return Failure(rate.error);
        }
        var compositeRate := CombineRate(fixedRate, rate.value.inflationRate);
        var epochBal, txns' := AddNonCompoundingMonths(compositeRate, finalBal, month, txns, redemptionForMonth, memoFor);
        if epochBal.Failure? {
          return Failure(epochBal.error);
        }
        ghost var epoch := Epoch(compositeRate, finalBal, month, redemptionForMonth, memoFor).value.0;
        forall i | 0 <= i < |txns'|
          ensures fresh(txns'[i]) && txns'[i].Value() == (done + epoch)[i]
        {
          if i < |txns| {
            assert txns'[i] == txns[i];
          } else {
            assert fresh(txns'[i]);
          }
        }
        txns := txns';
        done := done + epoch;
        finalBal := epochBal.value;
        IsBeforeMonthByIndex(month, thisMonth);
        month := PlusMonths(month, SemiannualMonths);
      }
      ValuesPointwise(txns, done);
      forall rec | rec in txns
        ensures fresh(rec)
      {
        var k :| 0 <= k < |txns| && txns[k] == rec;
      }
      result := Success(txns);
    }
  }

  /** Records already computed, in front of the outcome of the remaining epochs. */
  function PrependAll(done: seq<InterestTxn>, rest: Result<seq<InterestTxn>, ImportError>)
    : Result<seq<InterestTxn>, ImportError>
  {
    match rest
    case Success(txns) => Success(done + txns)
    case Failure(e) => Failure(e)
  }

  lemma PrependAllConcat(a: seq<InterestTxn>, b: seq<InterestTxn>, rest: Result<seq<InterestTxn>, ImportError>)
    ensures PrependAll(a, PrependAll(b, rest)) == PrependAll(a + b, rest)
  {
    if rest.Success? {
      assert a + (b + rest.value) == (a + b) + rest.value;
    }
  }

  lemma PrependAllEmpty(rest: Result<seq<InterestTxn>, ImportError>)
    ensures PrependAll([], rest) == rest
  {
    if rest.Success? {
      assert [] + rest.value == rest.value;
    }
  }

  /** One turn of the getIBondInterestTxns loop on the outcome it is building:
      a missing rate or a failed epoch is the outcome; otherwise the epoch's
      records join the records produced and the chain goes on from its final
      balance six months later. */
  lemma EpochsStep(table: RateTable, ticker: string, fixedRate: real, finalBal: real, month: YearMonth,
                   thisMonth: YearMonth, redemptionForMonth: YearMonth -> real, memoFor: YearMonth -> string,
                   done: seq<InterestTxn>, outcome: Result<seq<InterestTxn>, ImportError>)
    requires ValidTable(table) && IsBeforeMonth(month, thisMonth)
    requires outcome == PrependAll(done, Epochs(table, ticker, fixedRate, finalBal, month, thisMonth,
                                                redemptionForMonth, memoFor))
    ensures var rate := RateForMonth(table, AtDay1(month), ticker);
      rate.Failure? ==> outcome == Failure(rate.error)
    ensures var rate := RateForMonth(table, AtDay1(month), ticker);
      rate.Success? ==>
        var epoch := Epoch(CombineRate(fixedRate, rate.value.inflationRate), finalBal, month, redemptionForMonth, memoFor);
        (epoch.Failure? ==> outcome == Failure(epoch.error))
        && (epoch.Success? ==>
              outcome == PrependAll(done + epoch.value.0,
                                    Epochs(table, ticker, fixedRate, epoch.value.1, PlusMonths(month, SemiannualMonths),
                                           thisMonth, redemptionForMonth, memoFor)))
  {
    var rate := RateForMonth(table, AtDay1(month), ticker);
    if rate.Success? {
      var epoch := Epoch(CombineRate(fixedRate, rate.value.inflationRate), finalBal, month, redemptionForMonth, memoFor);
      if epoch.Success? {
        PrependAllConcat(done, epoch.value.0,
                         Epochs(table, ticker, fixedRate, epoch.value.1, PlusMonths(month, SemiannualMonths),
                                thisMonth, redemptionForMonth, memoFor));
      }
    }
  }

  lemma ValuesPointwise(recs: seq<InterestTxnRec>, vals: seq<InterestTxn>)
    requires |recs| == |vals| && forall i :: 0 <= i < |recs| ==> recs[i].Value() == vals[i]
    ensures Values(recs) == vals
  {
  }

  /** The removeIf of deferInterestInFirstYears: the records whose payment
      date is not after today, in list order. */
  function RemoveIfAfter(recs: seq<InterestTxnRec>, today: Date): seq<InterestTxnRec>
    reads set rec | rec in recs
  {
    if recs == [] then []
    else
      var last := recs[|recs| - 1];
      RemoveIfAfter(recs[..|recs| - 1], today) + (if IsAfter(last.payDate, today) then [] else [last])
  }

  /** removeIf keeps exactly the values KeepNotAfter keeps. */
  lemma {:induction false} RemoveIfAfterKeeps(recs: seq<InterestTxnRec>, today: Date)
    ensures Values(RemoveIfAfter(recs, today)) == KeepNotAfter(Values(recs), today)
  {
    if recs != [] {
      var n := |recs|;
      var init := recs[..n - 1];
      var last := recs[n - 1];
      var tail := if IsAfter(last.payDate, today) then [] else [last];
      RemoveIfAfterKeeps(init, today);
      ValuesTake(recs, n - 1);
      ValuesConcat(RemoveIfAfter(init, today), tail);
    }
  }

  /** removeIf keeps only records of the list. */
  lemma {:induction false} RemoveIfAfterSubset(recs: seq<InterestTxnRec>, today: Date)
    ensures forall rec :: rec in RemoveIfAfter(recs, today) ==> rec in recs
  {
    if recs != [] {
      var init := recs[..|recs| - 1];
      RemoveIfAfterSubset(init, today);
      assert forall rec :: rec in init ==> rec in recs;
    }
  }

  /** The values of a prefix are the prefix of the values. */
  lemma ValuesTake(recs: seq<InterestTxnRec>, k: nat)
    requires k <= |recs|
    ensures Values(recs[..k]) == Values(recs)[..k]
  {
    var l, r := Values(recs[..k]), Values(recs)[..k];
    assert |l| == |r|;
    forall i | 0 <= i < k
      ensures l[i] == r[i]
    {
      assert recs[..k][i] == recs[i];
    }
  }

  /** The values of two lists side by side. */
  lemma ValuesConcat(a: seq<InterestTxnRec>, b: seq<InterestTxnRec>)
    ensures Values(a + b) == Values(a) + Values(b)
  {
    var l, r := Values(a + b), Values(a) + Values(b);
    assert |l| == |r|;
    forall i | 0 <= i < |l|
      ensures l[i] == r[i]
    {
      if i < |a| {
        assert (a + b)[i] == a[i];
      } else {
        assert (a + b)[i] == b[i - |a|];
      }
    }
  }
}
