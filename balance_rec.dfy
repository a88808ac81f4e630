/** IBondBalanceRec: the running total balance and the balance eligible to
    earn interest, each replaced through its own setter. */
module BalanceRecs {

  class IBondBalanceRec {
    var totalBal: real
    var eligibleBal: real

    constructor (totalBal: real, eligibleBal: real)
      ensures this.totalBal == totalBal && this.eligibleBal == eligibleBal
    {
      this.totalBal := totalBal;
      this.eligibleBal := eligibleBal;
    }

    /** The totalBal setter: the eligible balance is untouched. */
    method SetTotalBal(totalBal: real)
      modifies this
      ensures this.totalBal == totalBal && eligibleBal == old(eligibleBal)
    {
      this.totalBal := totalBal;
    }

    /** The eligibleBal setter: the total balance is untouched. */
    method SetEligibleBal(eligibleBal: real)
      modifies this
      ensures this.eligibleBal == eligibleBal && totalBal == old(totalBal)
    {
      this.eligibleBal := eligibleBal;
    }
  }
}
