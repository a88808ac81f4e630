/** TxnHandler: a staged interest payment and the investment transaction
    fields its applyUpdate fills in. The Moneydance transaction objects and
    storeFields/syncItem are outside the model; the fields are the result. */
module TxnHandlers {
  import opened Wrappers
  import opened Calendar
  import opened Decimals
  import opened Longs
  import opened CalcTxns
  import opened InvestTxnLists

  /** The ArithmeticException of BigDecimal.longValueExact, by cause. */
  datatype ArithmeticError = RoundingNecessary | Overflow

  /** 10^19: longValueExact refuses a value with more than 19 digits before
      the point (precision - scale > 19) as an overflow before it looks at
      the fraction. */
  const TwentyDigits: real := 10000000000000000000.0

  /** asLong: value.movePointRight(decimalPlaces).longValueExact(). */
  function AsLong(value: real, decimalPlaces: nat): Result<Long, ArithmeticError>
  {
    LongValueExact(MovePointRight(value, decimalPlaces))
  }

  /** BigDecimal.longValueExact: a value of 20 or more whole digits is an
      overflow; otherwise a fractional part is refused, and then a whole
      value outside the range of a long. */
  function LongValueExact(x: real): Result<Long, ArithmeticError>
  {
    if x <= -TwentyDigits || TwentyDigits <= x then Failure(Overflow)
    else if x.Floor as real != x then Failure(RoundingNecessary)
    else if x.Floor < LongMin || LongMax < x.Floor then Failure(Overflow)
    else Success(x.Floor)
  }

  /** longValueExact succeeds exactly on whole values in the range of a long;
      a fraction is the rounding error only below twenty whole digits. */
  lemma LongValueExactSpec(x: real)
    ensures LongValueExact(x).Success? <==> x.Floor as real == x && LongMin as real <= x <= LongMax as real
    ensures LongValueExact(x).Success? ==> LongValueExact(x).value as real == x
    ensures LongValueExact(x) == Failure(RoundingNecessary) <==> x.Floor as real != x && -TwentyDigits < x < TwentyDigits
    ensures LongValueExact(x) == Failure(Overflow) <==>
      !(LongMin as real <= x <= LongMax as real) && (x.Floor as real == x || !(-TwentyDigits < x < TwentyDigits))
  {
  }

  /** BigDecimal.movePointRight, exact. */
  function MovePointRight(value: real, places: nat): real
  {
    value * Pow10(places) as real
  }

  /** asLong succeeds exactly when the value has at most decimalPlaces places
      and the shifted value fits in a long; the long is then the value
      times 10^decimalPlaces, exactly. */
  lemma AsLongSpec(value: real, decimalPlaces: nat)
    ensures AsLong(value, decimalPlaces).Success? <==>
      HasPlaces(value, decimalPlaces) && LongMin as real <= value * Pow10(decimalPlaces) as real <= LongMax as real
    ensures AsLong(value, decimalPlaces).Success? ==>
      AsLong(value, decimalPlaces).value as real == value * Pow10(decimalPlaces) as real
    ensures AsLong(value, decimalPlaces) == Failure(RoundingNecessary) <==>
      !HasPlaces(value, decimalPlaces) && -TwentyDigits < value * Pow10(decimalPlaces) as real < TwentyDigits
    ensures AsLong(value, decimalPlaces) == Failure(Overflow) <==>
      !(LongMin as real <= value * Pow10(decimalPlaces) as real <= LongMax as real)
      && (HasPlaces(value, decimalPlaces) || !(-TwentyDigits < value * Pow10(decimalPlaces) as real < TwentyDigits))
  {
    var shifted := MovePointRight(value, decimalPlaces);
    LongValueExactSpec(shifted);
    assert AsLong(value, decimalPlaces) == LongValueExact(shifted);
    ShiftedPlaces(value, decimalPlaces);
  }

  /** movePointRight is the product with 10^places, and the value has at most
      that many places exactly when the product is whole. */
  lemma ShiftedPlaces(value: real, places: nat)
    ensures MovePointRight(value, places) == value * Pow10(places) as real
    ensures HasPlaces(value, places) <==> MovePointRight(value, places).Floor as real == MovePointRight(value, places)
  {
  }

  /** A value of twenty whole digits with a fraction is an overflow, not a
      rounding error. */
  lemma AsLongTwentyDigitsWithFraction()
    ensures AsLong(12345678901234567890.5, 0) == Failure(Overflow)
    ensures !HasPlaces(12345678901234567890.5, 0)
  {
    assert Pow10(0) == 1;
    assert MovePointRight(12345678901234567890.5, 0) == 12345678901234567890.5;
  }

  /** Moving the point back left recovers the value asLong converted. */
  lemma AsLongInverse(value: real, n: Long, decimalPlaces: nat)
    requires AsLong(value, decimalPlaces) == Success(n)
    ensures n as real / Pow10(decimalPlaces) as real == value
  {
    var p := Pow10(decimalPlaces) as real;
    assert n as real == value * p;
    DivideScaled(value, p);
  }

  /** Every long, with the point moved left by decimalPlaces, converts back
      to itself. */
  lemma AsLongOfShifted(n: Long, decimalPlaces: nat)
    ensures AsLong(n as real / Pow10(decimalPlaces) as real, decimalPlaces).Success?
    ensures AsLong(n as real / Pow10(decimalPlaces) as real, decimalPlaces).value == n
  {
    var p := Pow10(decimalPlaces) as real;
    var v := n as real / p;
    ScaleDivided(n as real, p);
    var shifted := MovePointRight(v, decimalPlaces);
    assert shifted == n as real;
    FloorOfInt(n);
    assert shifted.Floor == n;
    assert shifted.Floor as real == shifted;
    assert !(shifted.Floor < LongMin || LongMax < shifted.Floor);
  }

  lemma FloorOfInt(n: int)
    ensures (n as real).Floor == n
  {
  }

  lemma DivideScaled(x: real, p: real)
    requires p >= 1.0
    ensures x * p / p == x
  {
  }

  lemma ScaleDivided(x: real, p: real)
    requires p >= 1.0
    ensures x / p * p == x
  {
  }

  /** A staged update: the investment account, its security sub-account, and
      the calculated interest payment. */
  datatype TxnHandler = TxnHandler(investAccount: Account, securityAccount: Account, txnRec: CalcTxn)

  /** The InvestFields that applyUpdate stores; each has-flag it sets is true. */
  datatype InvestFields = InvestFields(
    txnType: InvestTxnType, date: Date, taxDate: Date, payee: string, memo: string,
    shares: Long, amount: Long, category: Account, price: real, security: Account)

  const TreasuryPayee: string := "US Dept. of the Treasury"

  /** applyUpdate, up to storeFields: the shares are converted before the
      amount, so a failing share conversion is the one reported. The default
      category lookup of the host is a parameter. */
  function ApplyUpdate(h: TxnHandler, defaultCategory: Account -> Account): Result<InvestFields, ArithmeticError>
  {
    var rec := h.txnRec;
    match AsLong(rec.payAmount, h.securityAccount.decimalPlaces)
    case Failure(e) => Failure(e)
    case Success(shares) =>
      match AsLong(rec.payAmount, h.investAccount.decimalPlaces)
      case Failure(e) => Failure(e)
      case Success(amount) =>
        Success(InvestFields(DividendReinvest, rec.payDate, rec.payDate, TreasuryPayee, rec.memo,
                             shares, amount, defaultCategory(h.investAccount), 1.0, h.securityAccount))
  }

  /** The stored transaction is a dividend reinvestment dated and tax-dated on
      the first day of the payment month, paid by the Treasury with the
      record's memo, buying payAmount shares of the security at price 1 for
      payAmount in the investment account's currency, booked to the account's
      default category. It fails exactly when payAmount does not convert for
      one of the two accounts, and then with the security account's error if
      that conversion fails. */
  lemma ApplyUpdateSpec(h: TxnHandler, defaultCategory: Account -> Account)
    ensures var r := ApplyUpdate(h, defaultCategory);
      r.Success? <==> AsLong(h.txnRec.payAmount, h.securityAccount.decimalPlaces).Success?
                      && AsLong(h.txnRec.payAmount, h.investAccount.decimalPlaces).Success?
    ensures var r := ApplyUpdate(h, defaultCategory);
      AsLong(h.txnRec.payAmount, h.securityAccount.decimalPlaces).Failure? ==>
        r == Failure(AsLong(h.txnRec.payAmount, h.securityAccount.decimalPlaces).error)
    ensures var r := ApplyUpdate(h, defaultCategory);
      r.Success? ==>
        var f := r.value;
        f.txnType == DividendReinvest && f.date == f.taxDate == h.txnRec.payDate
        && f.date.day == 1 && YearMonthOf(f.date) == h.txnRec.payMonth
        && f.payee == TreasuryPayee && f.memo == h.txnRec.memo
        && f.shares as real / Pow10(h.securityAccount.decimalPlaces) as real == h.txnRec.payAmount
        && f.amount as real / Pow10(h.investAccount.decimalPlaces) as real == h.txnRec.payAmount
        && f.price == 1.0 && f.security == h.securityAccount
        && f.category == defaultCategory(h.investAccount)
  {
    var r := ApplyUpdate(h, defaultCategory);
    if r.Success? {
      AsLongInverse(h.txnRec.payAmount, r.value.shares, h.securityAccount.decimalPlaces);
      AsLongInverse(h.txnRec.payAmount, r.value.amount, h.investAccount.decimalPlaces);
    }
  }
}
