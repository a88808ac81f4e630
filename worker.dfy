/** IBondWorker's bookkeeping: the month's net change of an account, the
    staging of interest payments that the ledger lacks, their commit, the
    discarding of future payments, and which accounts get interest at all.
    The SwingWorker lifecycle and all messages shown to the user are outside
    the model. */
module IBondWorkers {
  import opened Wrappers
  import opened Calendar
  import opened Decimals
  import opened Text
  import opened Longs
  import opened TreeMaps
  import opened Multimaps
  import opened Rates
  import opened Tickers
  import opened CalcTxns
  import opened CalcTxnLists
  import opened InvestTxnLists
  import opened TxnHandlers

  /** SplitTxn.getAmount of each change. */
  function Amounts(changes: seq<LedgerTxn>): (r: seq<Long>)
    ensures |r| == |changes| && forall i :: 0 <= i < |changes| ==> r[i] == changes[i].amount
  {
    seq(|changes|, i requires 0 <= i < |changes| => changes[i].amount)
  }

  /** changeForMonth, given the month's changes: their long sum, with the
      point moved left by the currency's decimal places. */
  function ChangeForMonth(changes: seq<LedgerTxn>, investAccount: Account): Decimal
  {
    Decimal(LongSum(Amounts(changes)), investAccount.decimalPlaces)
  }

  /** The change has the currency's scale and is the exact sum of the
      amounts in currency units whenever that sum fits in a long; with no
      changes it is zero. */
  lemma ChangeForMonthSpec(changes: seq<LedgerTxn>, investAccount: Account)
    ensures ChangeForMonth(changes, investAccount).scale == investAccount.decimalPlaces
    ensures LongMin <= Sum(Amounts(changes)) <= LongMax ==>
      ChangeForMonth(changes, investAccount).Value()
        == Sum(Amounts(changes)) as real / Pow10(investAccount.decimalPlaces) as real
    ensures changes == [] ==> ChangeForMonth(changes, investAccount).Value() == 0.0
  {
    var amounts := Amounts(changes);
    LongSumIsWrappedSum(amounts);
    var c := ChangeForMonth(changes, investAccount);
    assert c.unscaled == LongSum(amounts);
    if changes == [] {
      assert amounts == [];
      assert c.unscaled == 0;
    }
  }

  /** The summary commitChanges returns. */
  function CommitMessage(count: nat): string
  {
    "Recorded " + NatToString(count) + " interest payment transaction" + (if count == 1 then "" else "s")
  }

  /** The summary states the count in decimal right after "Recorded ", and
      ends in the plural "s" exactly when the count is not 1. */
  lemma CommitMessageSpec(count: nat)
    ensures var msg, digits := CommitMessage(count), NatToString(count);
      |msg| > 9 + |digits| && msg[..9] == "Recorded " && msg[9 + |digits|] == ' '
      && DigitsValue(msg[9..9 + |digits|]) == count
      && (msg[|msg| - 1] == 's' <==> count != 1)
  {
    var msg, digits := CommitMessage(count), NatToString(count);
    var head, tail := "Recorded ", " interest payment transaction" + (if count == 1 then "" else "s");
    assert msg == head + digits + tail;
    assert msg[..9] == head;
    assert msg[9..9 + |digits|] == digits;
    assert msg[9 + |digits|] == tail[0] == ' ';
    assert msg[|msg| - 1] == tail[|tail| - 1];
    DigitsValueOfNatToString(count);
  }

  /** The filter discardFutureTxns passes to removeIf. */
  function PaidAfter(thisMonth: YearMonth): CalcTxn -> bool
  {
    (t: CalcTxn) => IsBeforeMonth(thisMonth, t.payMonth)
  }

  /** discardFutureTxns, with the current month as a parameter. */
  method DiscardFutureTxns(iBondIntTxns: CalcTxnList, thisMonth: YearMonth)
    requires iBondIntTxns.Valid()
    modifies iBondIntTxns
    ensures iBondIntTxns.Valid()
    ensures iBondIntTxns.txnListMap == RemoveAll(old(iBondIntTxns.txnListMap), PaidAfter(thisMonth))
  {
    iBondIntTxns.RemoveIf(PaidAfter(thisMonth));
  }

  /** After discardFutureTxns no record is paid after the current month,
      every record paid in it or earlier is still there, in the same order,
      and every month key stays. */
  lemma DiscardFutureTxnsSpec(m: Multimap<CalcTxn>, thisMonth: YearMonth)
    ensures var kept := Flatten(RemoveAll(m, PaidAfter(thisMonth)));
      forall i :: 0 <= i < |kept| ==> !IsBeforeMonth(thisMonth, kept[i].payMonth)
    ensures var before, kept := Flatten(m), Flatten(RemoveAll(m, PaidAfter(thisMonth)));
      forall i :: 0 <= i < |before| && !IsBeforeMonth(thisMonth, before[i].payMonth) ==> before[i] in kept
    ensures Flatten(RemoveAll(m, PaidAfter(thisMonth))) == FilterOut(Flatten(m), PaidAfter(thisMonth))
    ensures KeysInOrder(RemoveAll(m, PaidAfter(thisMonth))) == KeysInOrder(m)
  {
    RemoveIfEffect(m, PaidAfter(thisMonth));
  }

  /** The ledger already holds the dividend reinvestment of the record. */
  predicate HasMatch(m: Multimap<LedgerTxn>, t: CalcTxn)
  {
    FirstMatch(ListFor(m, DateKey(t.payDate)), t.memo).Some?
  }

  function Handlers(ts: seq<CalcTxn>, investAccount: Account, secAccount: Account): (r: seq<TxnHandler>)
    ensures |r| == |ts| && forall i :: 0 <= i < |ts| ==> r[i] == TxnHandler(investAccount, secAccount, ts[i])
  {
    seq(|ts|, i requires 0 <= i < |ts| => TxnHandler(investAccount, secAccount, ts[i]))
  }

  /** The handlers that storing the records one after another stages. */
  function Staged(ts: seq<CalcTxn>, m: Multimap<LedgerTxn>, investAccount: Account, secAccount: Account): seq<TxnHandler>
  {
    Handlers(FilterOut(ts, (t: CalcTxn) => HasMatch(m, t)), investAccount, secAccount)
  }

  /** Storing records stages one handler for each record the ledger lacks,
      in the order of the records, and none for a record it holds. */
  lemma StagedSpec(ts: seq<CalcTxn>, m: Multimap<LedgerTxn>, investAccount: Account, secAccount: Account)
    ensures var s := Staged(ts, m, investAccount, secAccount);
      forall i :: 0 <= i < |s| ==>
        s[i].txnRec in ts && !HasMatch(m, s[i].txnRec)
        && s[i].investAccount == investAccount && s[i].securityAccount == secAccount
    ensures var s := Staged(ts, m, investAccount, secAccount);
      forall i :: 0 <= i < |ts| && !HasMatch(m, ts[i]) ==> TxnHandler(investAccount, secAccount, ts[i]) in s
  {
    var kept := FilterOut(ts, (t: CalcTxn) => HasMatch(m, t));
    var s := Staged(ts, m, investAccount, secAccount);
    forall i | 0 <= i < |ts| && !HasMatch(m, ts[i]) ensures TxnHandler(investAccount, secAccount, ts[i]) in s {
      var j :| 0 <= j < |kept| && kept[j] == ts[i];
      assert s[j] == TxnHandler(investAccount, secAccount, ts[i]);
    }
  }

  /** The least position at which applyUpdate fails, or the length when
      none does. */
  function FirstFailure(hs: seq<TxnHandler>, defaultCategory: Account -> Account): (k: nat)
    ensures k <= |hs|
    ensures forall j :: 0 <= j < k ==> ApplyUpdate(hs[j], defaultCategory).Success?
    ensures k < |hs| ==> ApplyUpdate(hs[k], defaultCategory).Failure?
  {
    if hs == [] || ApplyUpdate(hs[0], defaultCategory).Failure? then 0
    else
      var k := FirstFailure(hs[1..], defaultCategory);
      assert forall j :: 1 <= j < k + 1 ==> hs[j] == hs[1..][j - 1];
      k + 1
  }

  /** The fields applyUpdate stores for handlers that all convert. */
  function AppliedFields(hs: seq<TxnHandler>, defaultCategory: Account -> Account): (r: seq<InvestFields>)
    requires forall j :: 0 <= j < |hs| ==> ApplyUpdate(hs[j], defaultCategory).Success?
    ensures |r| == |hs| && forall j :: 0 <= j < |hs| ==> r[j] == ApplyUpdate(hs[j], defaultCategory).value
  {
    seq(|hs|, j requires 0 <= j < |hs| && ApplyUpdate(hs[j], defaultCategory).Success? =>
      ApplyUpdate(hs[j], defaultCategory).value)
  }

  /** The accounts storeNewIBondTxns calculates interest for, with the
      security's sub-account in each: those holding a sub-account named
      after the security whose balance at the end of the issue month is
      positive. */
  function HoldingAccounts(invAccounts: seq<Account>, secName: string, endOfIssueMonth: Date,
                           subAccountByName: (Account, string) -> Option<Account>,
                           balanceAsOf: (Account, Date) -> real): seq<(Account, Account)>
  {
    if invAccounts == [] then []
    else
      var rest := HoldingAccounts(invAccounts[1..], secName, endOfIssueMonth, subAccountByName, balanceAsOf);
      match subAccountByName(invAccounts[0], secName)
      case Some(sec) => if balanceAsOf(sec, endOfIssueMonth) > 0.0 then [(invAccounts[0], sec)] + rest else rest
      case None => rest
  }

  lemma {:induction false} HoldingAccountsSpec(invAccounts: seq<Account>, secName: string, endOfIssueMonth: Date,
                                               subAccountByName: (Account, string) -> Option<Account>,
                                               balanceAsOf: (Account, Date) -> real)
    ensures forall p :: p in HoldingAccounts(invAccounts, secName, endOfIssueMonth, subAccountByName, balanceAsOf) <==>
      p.0 in invAccounts && subAccountByName(p.0, secName) == Some(p.1) && balanceAsOf(p.1, endOfIssueMonth) > 0.0
  {
    if invAccounts != [] {
      HoldingAccountsSpec(invAccounts[1..], secName, endOfIssueMonth, subAccountByName, balanceAsOf);
      assert forall a :: a in invAccounts <==> a == invAccounts[0] || a in invAccounts[1..];
    }
  }
  /** xs is ys with some elements left out, the rest kept in order. */
  predicate Subsequence<T(==)>(xs: seq<T>, ys: seq<T>)
    decreases |ys|
  {
    if xs == [] then true
    else if ys == [] then false
    else (xs[0] == ys[0] && Subsequence(xs[1..], ys[1..])) || Subsequence(xs, ys[1..])
  }

  /** The selected accounts come in the order the book lists them, which is
      the order their interest payments are staged in. */
  lemma {:induction false} HoldingAccountsOrder(invAccounts: seq<Account>, secName: string, endOfIssueMonth: Date,
                                                subAccountByName: (Account, string) -> Option<Account>,
                                                balanceAsOf: (Account, Date) -> real)
    ensures Subsequence(KeysInOrder(HoldingAccounts(invAccounts, secName, endOfIssueMonth, subAccountByName, balanceAsOf)),
                        invAccounts)
  {
    if invAccounts != [] {
      var rest := HoldingAccounts(invAccounts[1..], secName, endOfIssueMonth, subAccountByName, balanceAsOf);
      HoldingAccountsOrder(invAccounts[1..], secName, endOfIssueMonth, subAccountByName, balanceAsOf);
      var r := HoldingAccounts(invAccounts, secName, endOfIssueMonth, subAccountByName, balanceAsOf);
      if r != rest {
        assert KeysInOrder(r) == [invAccounts[0]] + KeysInOrder(rest);
        assert KeysInOrder(r)[1..] == KeysInOrder(rest);
      }
    }
  }


  /** The gate of storeNewIBondTxns: nothing for a ticker without the I bond
      prefix, the parse error for an unreadable one, and otherwise the
      holding accounts as of the end of the issue month. The prefix test and
      the host's account queries are parameters. */
  function IBondAccounts(isIBondTicker: bool, ticker: string, prefix: string, secName: string,
                         invAccounts: seq<Account>,
                         subAccountByName: (Account, string) -> Option<Account>,
                         balanceAsOf: (Account, Date) -> real): Result<seq<(Account, Account)>, ImportError>
  {
    if !isIBondTicker then Success([])
    else
      match GetDateForTicker(ticker, prefix)
      case Failure(e) => Failure(e)
      case Success(issue) =>
        Success(HoldingAccounts(invAccounts, secName, AtEndOfMonth(YearMonthOf(issue)), subAccountByName, balanceAsOf))
  }

  /** Interest is calculated only for an I bond ticker that parses, and then
      exactly for the accounts holding the security with a positive balance
      on the last day of its issue month. */
  lemma IBondAccountsSpec(isIBondTicker: bool, ticker: string, prefix: string, secName: string,
                          invAccounts: seq<Account>,
                          subAccountByName: (Account, string) -> Option<Account>,
                          balanceAsOf: (Account, Date) -> real)
    ensures var r := IBondAccounts(isIBondTicker, ticker, prefix, secName, invAccounts, subAccountByName, balanceAsOf);
      r.Failure? <==> isIBondTicker && GetDateForTicker(ticker, prefix).Failure?
    ensures var r := IBondAccounts(isIBondTicker, ticker, prefix, secName, invAccounts, subAccountByName, balanceAsOf);
      r.Success? && r.value != [] ==> isIBondTicker && GetDateForTicker(ticker, prefix).Success?
    ensures var r := IBondAccounts(isIBondTicker, ticker, prefix, secName, invAccounts, subAccountByName, balanceAsOf);
      r.Success? && isIBondTicker ==>
        var end := AtEndOfMonth(YearMonthOf(GetDateForTicker(ticker, prefix).value));
        forall p :: p in r.value <==>
          p.0 in invAccounts && subAccountByName(p.0, secName) == Some(p.1) && balanceAsOf(p.1, end) > 0.0
  {
    var d := GetDateForTicker(ticker, prefix);
    if isIBondTicker && d.Success? {
      HoldingAccountsSpec(invAccounts, secName, AtEndOfMonth(YearMonthOf(d.value)), subAccountByName, balanceAsOf);
    }
  }

  class IBondWorker {
    /** The staged handlers, in staging order. */
    var interestTransactions: seq<TxnHandler>
    /** The investment transactions applyUpdate has stored in the book. */
    var recorded: seq<InvestFields>

    constructor ()
      ensures interestTransactions == [] && recorded == []
    {
      interestTransactions := [];
      recorded := [];
    }

    /** addHandler: the handler goes to the end of the staged list. */
    method AddHandler(handler: TxnHandler)
      modifies this
      ensures interestTransactions == old(interestTransactions) + [handler]
      ensures recorded == old(recorded)
    {
      interestTransactions := interestTransactions + [handler];
    }

    /** isModified: some handler is staged. */
    function IsModified(): (r: bool)
      reads this
      ensures r <==> |interestTransactions| > 0
    {
      interestTransactions != []
    }

    /** storeInterestTxnIfDiff: a handler for the record is staged exactly
        when the ledger of its security account holds no matching dividend
        reinvestment; differences in the matched case are only reported. */
    method StoreInterestTxnIfDiff(txn: CalcTxn, investAccount: Account, investTxns: InvestTxnList)
      modifies this
      ensures interestTransactions == old(interestTransactions) +
        (if HasMatch(investTxns.transactions, txn) then [] else [TxnHandler(investAccount, investTxns.account, txn)])
      ensures recorded == old(recorded)
    {
      var secAccount := investTxns.account;
      var divTxn := investTxns.GetMatchingDivReinvestTxn(txn.payDate, txn.memo);
      if divTxn.None? {
        AddHandler(TxnHandler(investAccount, secAccount, txn));
      }
    }

    /** The end of storeNewIBondTxns for one account, once the records are
        calculated: future records are discarded and the rest are stored in
        forEach order. */
    method StoreCalculatedTxns(txns: CalcTxnList, thisMonth: YearMonth, investAccount: Account, investTxns: InvestTxnList)
      requires txns.Valid()
      modifies this, txns
      ensures txns.Valid() && txns.txnListMap == RemoveAll(old(txns.txnListMap), PaidAfter(thisMonth))
      ensures interestTransactions == old(interestTransactions) +
        Staged(Flatten(txns.txnListMap), investTxns.transactions, investAccount, investTxns.account)
      ensures recorded == old(recorded)
    {
      DiscardFutureTxns(txns, thisMonth);
      var visited := txns.ForEach();
      StoreEach(visited, investAccount, investTxns);
    }

    /** The forEach of storeNewIBondTxns: each record stored in turn. */
    method StoreEach(visited: seq<CalcTxn>, investAccount: Account, investTxns: InvestTxnList)
      modifies this
      ensures interestTransactions == old(interestTransactions) +
        Staged(visited, investTxns.transactions, investAccount, investTxns.account)
      ensures recorded == old(recorded)
    {
      ghost var m, secAccount := investTxns.transactions, investTxns.account;
      for i := 0 to |visited|
        invariant interestTransactions == old(interestTransactions) + Staged(visited[..i], m, investAccount, secAccount)
        invariant recorded == old(recorded)
      {
        ghost var staged := Staged(visited[..i], m, investAccount, secAccount);
        StoreInterestTxnIfDiff(visited[i], investAccount, investTxns);
        StagedStep(visited, i, m, investAccount, secAccount);
        AppendAssoc(old(interestTransactions), staged,
          if HasMatch(m, visited[i]) then [] else [TxnHandler(investAccount, secAccount, visited[i])]);
      }
      assert visited[..|visited|] == visited;
    }

    /** commitChanges: applyUpdate runs on every staged handler in staging
        order, storing its transaction, and then the staged list is emptied
        and the count reported. An ArithmeticException from asLong stops the
        run: the transactions already stored stay, the list is not cleared
        and no summary is returned. */
    method CommitChanges(defaultCategory: Account -> Account) returns (r: Result<string, ArithmeticError>)
      modifies this
      ensures var staged := old(interestTransactions);
        var k := FirstFailure(staged, defaultCategory);
        recorded == old(recorded) + AppliedFields(staged[..k], defaultCategory)
        && (k == |staged| ==> r == Success(CommitMessage(|staged|)) && interestTransactions == [])
        && (k < |staged| ==> r == Failure(ApplyUpdate(staged[k], defaultCategory).error)
                             && interestTransactions == staged)
    {
      var numInterestTxns := |interestTransactions|;
      var i := 0;
      while i < |interestTransactions|
        invariant 0 <= i <= |interestTransactions|
        invariant interestTransactions == old(interestTransactions)
        invariant forall j :: 0 <= j < i ==> ApplyUpdate(interestTransactions[j], defaultCategory).Success?
        invariant recorded == old(recorded) + AppliedFields(interestTransactions[..i], defaultCategory)
      {
        var fields := ApplyUpdate(interestTransactions[i], defaultCategory);
        if fields.Failure? {
          return Failure(fields.error);
        }
        assert AppliedFields(interestTransactions[..i + 1], defaultCategory)
            == AppliedFields(interestTransactions[..i], defaultCategory) + [fields.value];
        recorded := recorded + [fields.value];
        i := i + 1;
      }
      assert interestTransactions[..i] == interestTransactions;
      interestTransactions := [];
      return Success(CommitMessage(numInterestTxns));
    }
  }

  lemma AppendAssoc<T>(a: seq<T>, b: seq<T>, c: seq<T>)
    ensures (a + b) + c == a + (b + c)
  {
  }

  /** Storing one more record stages at most its own handler. */
  lemma StagedStep(ts: seq<CalcTxn>, i: int, m: Multimap<LedgerTxn>, investAccount: Account, secAccount: Account)
    requires 0 <= i < |ts|
    ensures Staged(ts[..i + 1], m, investAccount, secAccount) == Staged(ts[..i], m, investAccount, secAccount) +
      (if HasMatch(m, ts[i]) then [] else [TxnHandler(investAccount, secAccount, ts[i])])
  {
    var f := (t: CalcTxn) => HasMatch(m, t);
    assert ts[..i + 1][..i] == ts[..i];
    FilterOutLast(ts[..i + 1], f);
  }
}
