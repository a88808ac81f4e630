/** InterestTxnRec: one computed interest payment, whose payment date alone
    can be moved later by a deferral. */
module InterestTxns {
  import opened Calendar

  /** The value an InterestTxnRec holds at one moment. */
  datatype InterestTxn = InterestTxn(payDate: Date, payAmount: real, memo: string, startingBal: real)

  /** The payment date deferPayment picks: the date n months later when that
      is strictly before latest, otherwise latest. */
  function DeferredDate(payDate: Date, monthsToDefer: int, latest: Date): (r: Date)
    ensures r == latest || (r == PlusMonthsDate(payDate, monthsToDefer) && IsBefore(r, latest))
    ensures !IsAfter(r, latest)
    ensures !IsAfter(r, PlusMonthsDate(payDate, monthsToDefer))
    ensures ValidDate(latest) ==> ValidDate(r)
  {
    var candidate := PlusMonthsDate(payDate, monthsToDefer);
    if IsBefore(candidate, latest) then candidate else latest
  }

  /** Deferring by a non-negative number of months never moves a payment
      earlier, unless latest itself is earlier than the payment. */
  lemma DeferredDateNotEarlier(payDate: Date, monthsToDefer: nat, latest: Date)
    requires ValidDate(payDate) && !IsBefore(latest, payDate)
    ensures !IsBefore(DeferredDate(payDate, monthsToDefer, latest), payDate)
  {
    var candidate := PlusMonthsDate(payDate, monthsToDefer);
    if monthsToDefer > 0 {
      assert MonthIndex(YearMonthOf(candidate)) > MonthIndex(YearMonthOf(payDate));
    } else {
      PlusMonthsZero(YearMonthOf(payDate));
      assert candidate == payDate;
    }
  }

  class InterestTxnRec {
    var payDate: Date
    const payAmount: real
    const memo: string
    const startingBal: real

    constructor (payDate: Date, payAmount: real, memo: string, startingBal: real)
      ensures Value() == InterestTxn(payDate, payAmount, memo, startingBal)
    {
      this.payDate := payDate;
      this.payAmount := payAmount;
      this.memo := memo;
      this.startingBal := startingBal;
    }

    /** The four getters together. */
    function Value(): InterestTxn
      reads this
    {
      InterestTxn(payDate, payAmount, memo, startingBal)
    }

    /** deferPayment: only the payment date changes. */
    method DeferPayment(monthsToDefer: int, latest: Date)
      modifies this
      ensures payDate == DeferredDate(old(payDate), monthsToDefer, latest)
      ensures !IsAfter(payDate, latest)
      ensures Value() == old(Value()).(payDate := payDate)
    {
      var candidate := PlusMonthsDate(payDate, monthsToDefer);
      payDate := if IsBefore(candidate, latest) then candidate else latest;
    }
  }

  /** The values of a list of records, in list order. */
  function Values(recs: seq<InterestTxnRec>): (r: seq<InterestTxn>)
    reads set rec | rec in recs
    ensures |r| == |recs| && forall i :: 0 <= i < |recs| ==> r[i] == recs[i].Value()
  {
    if recs == [] then [] else [recs[0].Value()] + Values(recs[1..])
  }

  /** No record occurs twice, so a mutation of one is a mutation of one position. */
  predicate Distinct(recs: seq<InterestTxnRec>)
  {
    forall i, j :: 0 <= i < j < |recs| ==> recs[i] != recs[j]
  }
}
