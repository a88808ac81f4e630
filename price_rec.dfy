/** PriceRec: a security price and the date it took effect. The date is
    fixed; the price can be replaced. Equality compares the price in value
    and scale, and the date. */
module PriceRecs {
  import opened Calendar
  import opened Decimals

  /** What the getters of a PriceRec return at one moment. */
  datatype PriceValue = PriceValue(sharePrice: Decimal, date: Date)

  /** The argument of equals: null, a PriceRec, or an object of another class. */
  datatype Obj = Null | Price(rec: PriceRec) | OtherClass

  function Footprint(obj: Obj): set<object>
  {
    if obj.Price? then {obj.rec} else {}
  }

  class PriceRec {
    var sharePrice: Decimal
    const date: Date

    constructor (sharePrice: Decimal, date: Date)
      ensures Value() == PriceValue(sharePrice, date)
    {
      this.sharePrice := sharePrice;
      this.date := date;
    }

    function Value(): PriceValue
      reads this
    {
      PriceValue(sharePrice, date)
    }

    /** The sharePrice setter: the date cannot change. */
    method SetSharePrice(sharePrice: Decimal)
      modifies this
      ensures Value() == old(Value()).(sharePrice := sharePrice)
    {
      this.sharePrice := sharePrice;
    }

    /** equals: the identity test is subsumed, so two PriceRecs are equal
        exactly when their prices (value and scale) and dates are. */
    function Equals(obj: Obj): (r: bool)
      reads this, Footprint(obj)
      ensures r <==> obj.Price? && obj.rec.Value() == Value()
    {
      match obj
      case Price(other) => other == this || (other.sharePrice == sharePrice && other.date == date)
      case _ => false
    }

    /** hashCode: the price's hash XOR the date's hash; the two library
        hash functions are parameters. */
    function HashCode(decimalHash: Decimal -> bv32, dateHash: Date -> bv32): (h: bv32)
      reads this
    {
      decimalHash(sharePrice) ^ dateHash(date)
    }
  }

  /** equals is an equivalence relation on PriceRecs, and never holds for null
      or an object of another class. */
  lemma EqualsIsEquivalence(a: PriceRec, b: PriceRec, c: PriceRec)
    ensures a.Equals(Price(a))
    ensures a.Equals(Price(b)) <==> b.Equals(Price(a))
    ensures a.Equals(Price(b)) && b.Equals(Price(c)) ==> a.Equals(Price(c))
    ensures !a.Equals(Null) && !a.Equals(OtherClass)
  {
  }

  /** Equal PriceRecs have equal hash codes, whatever the library hash functions. */
  lemma EqualsAgreesWithHashCode(a: PriceRec, b: PriceRec, decimalHash: Decimal -> bv32, dateHash: Date -> bv32)
    requires a.Equals(Price(b))
    ensures a.HashCode(decimalHash, dateHash) == b.HashCode(decimalHash, dateHash)
  {
  }

  /** Prices that compare equal but differ in scale make PriceRecs unequal. */
  lemma EqualsSeesScale(a: PriceRec, b: PriceRec)
    requires a.date == b.date && a.sharePrice == Decimal(10, 1) && b.sharePrice == Decimal(100, 2)
    ensures a.sharePrice.Value() == b.sharePrice.Value() && !a.Equals(Price(b))
  {
    assert Pow10(1) == 10 && Pow10(2) == 100;
  }
}
