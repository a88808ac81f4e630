/** CalcTxn: one calculated interest payment, filed under its payment month.
    Everything but the month's ending balance is fixed at construction. */
module CalcTxns {
  import opened Calendar

  /** What the getters of a CalcTxn return at one moment. */
  datatype CalcTxnValue = CalcTxnValue(payMonth: YearMonth, payDate: Date, payAmount: real,
                                       memo: string, endingBal: real)

  class CalcTxn {
    const payMonth: YearMonth
    /** Derived from the payment month when the record is built. */
    const payDate: Date := AtDay1(payMonth)
    const payAmount: real
    const memo: string
    var endingBal: real

    /** The ending balance starts at zero; the payment date is day 1 of the payment month. */
    constructor (payMonth: YearMonth, payAmount: real, memo: string)
      ensures Value() == CalcTxnValue(payMonth, AtDay1(payMonth), payAmount, memo, 0.0)
      ensures payDate.day == 1 && YearMonthOf(payDate) == payMonth
    {
      this.payMonth := payMonth;
      this.payAmount := payAmount;
      this.memo := memo;
      this.endingBal := 0.0;
    }

    /** The five getters together. */
    function Value(): CalcTxnValue
      reads this
    {
      CalcTxnValue(payMonth, payDate, payAmount, memo, endingBal)
    }

    /** The endingBal setter: only the ending balance changes. */
    method SetEndingBal(endingBal: real)
      modifies this
      ensures Value() == old(Value()).(endingBal := endingBal)
    {
      this.endingBal := endingBal;
    }
  }
}
