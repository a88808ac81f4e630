/** InvestTxnList: the ledger transactions of one security account, grouped
    by date in a TreeMap, with the two queries the worker asks of them. */
module InvestTxnLists {
  import opened Wrappers
  import opened Calendar
  import opened TreeMaps
  import opened Multimaps
  import opened Text
  import opened Longs

  /** The investment transaction types the extension tells apart; every
      other Moneydance type is OtherType. */
  datatype InvestTxnType = DividendReinvest | Sell | SellXfer | OtherType

  /** A Moneydance account and the number of decimal places of its currency. */
  datatype Account = Account(name: string, decimalPlaces: nat)

  /** A Moneydance AbstractTxn of the security account: its date, the type and
      memo of its parent transaction, whether it is a SplitTxn, and its amount
      in the currency's smallest units. */
  datatype LedgerTxn = LedgerTxn(date: Date, parentType: InvestTxnType, isSplit: bool, memo: string, amount: Long)

  function DateKeyOf(t: LedgerTxn): int
  {
    DateKey(t.date)
  }

  /** REDEEM_TYPES.contains(parent type) and the transaction is a split. */
  predicate IsRedemption(t: LedgerTxn)
  {
    (t.parentType == Sell || t.parentType == SellXfer) && t.isSplit
  }

  predicate NotRedemption(t: LedgerTxn)
  {
    !IsRedemption(t)
  }

  /** The destination side of a dividend reinvestment whose parent memo equals
      the interest record's memo, ignoring case. */
  predicate MatchesInterest(t: LedgerTxn, memo: string)
  {
    t.parentType == DividendReinvest && t.isSplit && EqualsIgnoreCase(memo, t.memo)
  }

  /** The first transaction of s matching the memo, if any. */
  function FirstMatch(s: seq<LedgerTxn>, memo: string): Option<LedgerTxn>
  {
    if s == [] then None
    else if MatchesInterest(s[0], memo) then Some(s[0])
    else FirstMatch(s[1..], memo)
  }

  /** The redemptions dated in the month, by date and then by list order. */
  function Redemptions(m: Multimap<LedgerTxn>, month: YearMonth): seq<LedgerTxn>
  {
    FilterOut(Flatten(SubMap(m, DateKey(AtDay1(month)), DateKey(AtEndOfMonth(month)))), NotRedemption)
  }

  /** The transactions of an account, filed by date in arrival order. */
  method GroupByDate(txns: seq<LedgerTxn>) returns (grouped: Multimap<LedgerTxn>)
    ensures grouped == FileAll(txns, DateKeyOf)
  {
    grouped := [];
    for i := 0 to |txns|
      invariant grouped == FileAll(txns[..i], DateKeyOf)
    {
      assert txns[..i + 1][..i] == txns[..i];
      grouped := Append(grouped, DateKeyOf, txns[i]);
    }
    assert txns[..|txns|] == txns;
  }

  class InvestTxnList {
    const account: Account
    var transactions: Multimap<LedgerTxn>

    predicate Valid()
      reads this
    {
      Sorted(transactions) && WellKeyed(transactions, DateKeyOf)
    }

    /** The constructor files the account's transactions by date; within a
        date they keep the order they arrive in. */
    constructor (txns: seq<LedgerTxn>, account: Account)
      ensures Valid() && this.account == account
      ensures forall k :: ListFor(transactions, k) == OfKey(txns, DateKeyOf, k)
    {
      this.account := account;
      var grouped := GroupByDate(txns);
      this.transactions := grouped;
      forall k ensures ListFor(grouped, k) == OfKey(txns, DateKeyOf, k) {
        FileAllSpec(txns, DateKeyOf, k);
      }
    }

    /** getMatchingDivReinvestTxn, over the payment date and memo of the record. */
    method GetMatchingDivReinvestTxn(payDate: Date, memo: string) returns (r: Option<LedgerTxn>)
      ensures r == FirstMatch(ListFor(transactions, DateKey(payDate)), memo)
    {
      var txns := Get(transactions, DateKey(payDate));
      if txns.Some? {
        var l := txns.value;
        var i := 0;
        while i < |l|
          invariant 0 <= i <= |l|
          invariant FirstMatch(l[i..], memo) == FirstMatch(l, memo)
        {
          if MatchesInterest(l[i], memo) {
            return Some(l[i]);
          }
          assert l[i..][1..] == l[i + 1..];
          i := i + 1;
        }
        assert l[i..] == [];
      }
      return None;
    }

    /** getRedemptionsForMonth: the sub-map from day 1 to the last day of the
        month, visited in order, keeping the redemption splits. */
    method GetRedemptionsForMonth(month: YearMonth) returns (txns: seq<LedgerTxn>)
      ensures txns == Redemptions(transactions, month)
    {
      var sub := SubMap(transactions, DateKey(AtDay1(month)), DateKey(AtEndOfMonth(month)));
      txns := [];
      var i := 0;
      while i < |sub|
        invariant 0 <= i <= |sub|
        invariant txns + FilterOut(Flatten(sub[i..]), NotRedemption) == FilterOut(Flatten(sub), NotRedemption)
      {
        var l := sub[i].1;
        FlattenFilterStep(txns, sub, i, NotRedemption);
        ghost var start := txns;
        var j := 0;
        while j < |l|
          invariant 0 <= j <= |l|
          invariant txns + FilterOut(l[j..], NotRedemption) == start + FilterOut(l, NotRedemption)
        {
          FilterOutStep(txns, l, j, NotRedemption);
          if IsRedemption(l[j]) {
            txns := txns + [l[j]];
          }
          j := j + 1;
        }
        assert l[j..] == [] && txns + [] == txns;
        i := i + 1;
      }
      assert sub[i..] == [];
    }
  }

  /** A date's key lies between the keys of the first and last day of a month
      exactly when the date is in that month. */
  lemma DateKeyInMonth(d: Date, month: YearMonth)
    requires ValidDate(d)
    ensures DateKey(AtDay1(month)) <= DateKey(d) <= DateKey(AtEndOfMonth(month)) <==> YearMonthOf(d) == month
  {
    DateKeyOrder(d, AtDay1(month));
    DateKeyOrder(AtEndOfMonth(month), d);
    if YearMonthOf(d) == month {
      DateOfMonthBounds(d);
    }
  }

  /** getMatchingDivReinvestTxn finds the first matching transaction among
      those dated exactly payDate, in arrival order, and nothing when none
      matches. */
  lemma MatchingDivReinvestSpec(txns: seq<LedgerTxn>, m: Multimap<LedgerTxn>, payDate: Date, memo: string)
    requires forall k :: ListFor(m, k) == OfKey(txns, DateKeyOf, k)
    ensures var r := FirstMatch(ListFor(m, DateKey(payDate)), memo);
      (r.None? <==> forall i :: 0 <= i < |txns| && txns[i].date == payDate ==> !MatchesInterest(txns[i], memo))
      && (r.Some? ==> r.value.date == payDate && MatchesInterest(r.value, memo)
                      && exists i :: 0 <= i < |txns| && txns[i] == r.value
                           && forall j :: 0 <= j < i && txns[j].date == payDate ==> !MatchesInterest(txns[j], memo))
  {
    var k := DateKey(payDate);
    forall t ensures DateKeyOf(t) == k <==> t.date == payDate {
      if DateKeyOf(t) == k {
        DateKeyInjective(t.date, payDate);
      }
    }
    FirstMatchOfKeyNone(txns, memo, k);
    if FirstMatch(ListFor(m, k), memo).Some? {
      var i := FirstMatchOfKey(txns, memo, k);
    }
    assert forall j :: 0 <= j < |txns| ==> (Wanted(txns[j], k, memo) <==> txns[j].date == payDate && MatchesInterest(txns[j], memo));
  }

  predicate Wanted(t: LedgerTxn, k: int, memo: string)
  {
    DateKeyOf(t) == k && MatchesInterest(t, memo)
  }

  /** Filtering by key first and then looking for a match finds nothing
      exactly when no transaction has the key and matches. */
  lemma {:induction false} FirstMatchOfKeyNone(txns: seq<LedgerTxn>, memo: string, k: int)
    ensures FirstMatch(OfKey(txns, DateKeyOf, k), memo).None? <==> forall j :: 0 <= j < |txns| ==> !Wanted(txns[j], k, memo)
  {
    if txns != [] {
      var tail := txns[1..];
      FirstMatchOfKeyNone(tail, memo, k);
      OfKeyHead(txns, k);
      if !Wanted(txns[0], k, memo) {
        forall j | 1 <= j < |txns| ensures txns[j] == tail[j - 1] { }
      }
    }
  }

  /** When it finds one, the match is the first transaction, at position i,
      that has the key and matches. */
  lemma {:induction false} FirstMatchOfKey(txns: seq<LedgerTxn>, memo: string, k: int) returns (i: int)
    requires FirstMatch(OfKey(txns, DateKeyOf, k), memo).Some?
    ensures 0 <= i < |txns| && txns[i] == FirstMatch(OfKey(txns, DateKeyOf, k), memo).value && Wanted(txns[i], k, memo)
    ensures forall j :: 0 <= j < i ==> !Wanted(txns[j], k, memo)
  {
    OfKeyHead(txns, k);
    if Wanted(txns[0], k, memo) {
      i := 0;
    } else {
      var tail := txns[1..];
      var i' := FirstMatchOfKey(tail, memo, k);
      i := i' + 1;
      forall j | 1 <= j < i ensures txns[j] == tail[j - 1] { }
    }
  }

  /** FirstMatch on the transactions with key k looks at the first
      transaction only when it has that key. */
  lemma OfKeyHead(txns: seq<LedgerTxn>, k: int)
    requires txns != []
    ensures forall memo ::
              FirstMatch(OfKey(txns, DateKeyOf, k), memo) ==
              (if Wanted(txns[0], k, memo) then Some(txns[0]) else FirstMatch(OfKey(txns[1..], DateKeyOf, k), memo))
  {
    var o, o' := OfKey(txns, DateKeyOf, k), OfKey(txns[1..], DateKeyOf, k);
    if DateKeyOf(txns[0]) == k {
      assert o == [txns[0]] + o';
      assert o[0] == txns[0] && o[1..] == o';
    } else {
      assert o == [] + o';
      assert o == o';
    }
  }

  /** getRedemptionsForMonth returns only redemption splits dated in the
      month, in date order, and for each date of the month exactly that
      date's redemptions in list order. */
  lemma RedemptionsSpec(m: Multimap<LedgerTxn>, month: YearMonth)
    requires Sorted(m) && WellKeyed(m, DateKeyOf)
    requires forall i, j :: 0 <= i < |m| && 0 <= j < |m[i].1| ==> ValidDate(m[i].1[j].date)
    ensures var r := Redemptions(m, month);
      forall i :: 0 <= i < |r| ==> IsRedemption(r[i]) && YearMonthOf(r[i].date) == month
    ensures var r := Redemptions(m, month);
      forall i, j :: 0 <= i < j < |r| ==> !IsBefore(r[j].date, r[i].date)
    ensures forall d :: ValidDate(d) && YearMonthOf(d) == month ==>
      OfKey(Redemptions(m, month), DateKeyOf, DateKey(d)) == FilterOut(ListFor(m, DateKey(d)), NotRedemption)
  {
    var lo, hi := DateKey(AtDay1(month)), DateKey(AtEndOfMonth(month));
    var sub := SubMap(m, lo, hi);
    var f := Flatten(sub);
    var r := Redemptions(m, month);
    SubMapSpec(m, DateKeyOf, lo, hi);
    forall i | 0 <= i < |r| ensures IsRedemption(r[i]) && YearMonthOf(r[i].date) == month {
      var t := r[i];
      var e := FlattenIndex(sub, t);
      assert sub[e] in m;
      WellKeyedMember(m, DateKeyOf, sub[e], t);
      var a :| 0 <= a < |m| && m[a] == sub[e];
      var b :| 0 <= b < |m[a].1| && m[a].1[b] == t;
      DateKeyInMonth(t.date, month);
    }
    FlattenKeyOrder(sub, DateKeyOf);
    FilterOutKeyOrder(f, DateKeyOf, NotRedemption);
    forall i, j | 0 <= i < j < |r| ensures !IsBefore(r[j].date, r[i].date) {
      DateKeyOrder(r[j].date, r[i].date);
    }
    forall d | ValidDate(d) && YearMonthOf(d) == month
      ensures OfKey(r, DateKeyOf, DateKey(d)) == FilterOut(ListFor(m, DateKey(d)), NotRedemption)
    {
      DateKeyInMonth(d, month);
      OfKeyFilterOut(f, DateKeyOf, DateKey(d), NotRedemption);
      FlattenOfKey(sub, DateKeyOf, DateKey(d));
    }
  }
}
