/** Exact decimal arithmetic for the BigDecimal values of the source.
    Values are reals; setScale(places, HALF_EVEN) is RoundHalfEven. */
module Decimals {

  function Pow10(n: nat): (r: nat)
    ensures r >= 1
  {
    if n == 0 then 1 else 10 * Pow10(n - 1)
  }

  /** x has no non-zero digits beyond the given number of decimal places. */
  predicate HasPlaces(x: real, places: nat)
  {
    (x * Pow10(places) as real).Floor as real == x * Pow10(places) as real
  }

  /** n is the half-even rounding of y to a whole number: the nearest whole
      number, and the even one of the two when y lies exactly halfway. */
  predicate IsHalfEvenRounding(n: int, y: real)
  {
    var d := n as real - y;
    -0.5 <= d <= 0.5 && ((d == 0.5 || d == -0.5) ==> n % 2 == 0)
  }

  /** The whole number RoundingMode.HALF_EVEN picks for y. */
  function HalfEvenInt(y: real): int
  {
    var f := y.Floor;
    var frac := y - f as real;
    if frac < 0.5 then f
    else if frac > 0.5 then f + 1
    else if f % 2 == 0 then f
    else f + 1
  }

  /** The whole number of units of 10^-places that HALF_EVEN rounding picks for x. */
  function RoundedUnits(x: real, places: nat): int
  {
    HalfEvenInt(Scaled(x, places))
  }

  /** x in units of 10^-places */
  function Scaled(x: real, places: nat): real
  {
    x * Pow10(places) as real
  }

  /** BigDecimal.setScale(places, RoundingMode.HALF_EVEN), on the value. */
  function RoundHalfEven(x: real, places: nat): (r: real)
    ensures r * Pow10(places) as real == RoundedUnits(x, places) as real
    ensures HasPlaces(r, places)
  {
    var p := Pow10(places) as real;
    var r := RoundedUnits(x, places) as real / p;
    assert r * p == RoundedUnits(x, places) as real;
    r
  }

  /** HalfEvenInt is the half-even rounding of y, and nothing else is. */
  lemma HalfEvenIntCharacterized(y: real, n: int)
    ensures IsHalfEvenRounding(HalfEvenInt(y), y)
    ensures IsHalfEvenRounding(n, y) ==> n == HalfEvenInt(y)
  {
  }

  /** The rounded value is within half a unit of the last kept place of x. */
  lemma RoundHalfEvenNearest(x: real, places: nat)
    ensures -0.5 <= Scaled(RoundHalfEven(x, places), places) - Scaled(x, places) <= 0.5
  {
    HalfEvenIntCharacterized(Scaled(x, places), 0);
  }

  lemma HalfEvenIntMonotone(a: real, b: real)
    requires a <= b
    ensures HalfEvenInt(a) <= HalfEvenInt(b)
  {
    var fa, fb := a.Floor, b.Floor;
    if fa < fb {
      assert HalfEvenInt(a) <= fa + 1 <= fb <= HalfEvenInt(b);
    }
  }

  lemma RoundHalfEvenNonNegative(x: real, places: nat)
    requires x >= 0.0
    ensures RoundHalfEven(x, places) >= 0.0
  {
    var p := Pow10(places) as real;
    assert x * p >= 0.0;
    assert RoundedUnits(x, places) >= 0;
  }

  /** A value that already has the scale is left as it is. */
  lemma RoundHalfEvenOfScaled(x: real, places: nat)
    requires HasPlaces(x, places)
    ensures RoundHalfEven(x, places) == x
  {
    var p := Pow10(places) as real;
    assert RoundedUnits(x, places) as real == x * p;
    assert RoundHalfEven(x, places) * p == x * p;
  }

  lemma RoundHalfEvenIdempotent(x: real, places: nat)
    ensures RoundHalfEven(RoundHalfEven(x, places), places) == RoundHalfEven(x, places)
  {
    RoundHalfEvenOfScaled(RoundHalfEven(x, places), places);
  }

  lemma RoundHalfEvenMonotone(x: real, y: real, places: nat)
    requires x <= y
    ensures RoundHalfEven(x, places) <= RoundHalfEven(y, places)
  {
    var p := Pow10(places) as real;
    RoundedUnitsMonotone(x, y, places);
    var ux, uy := RoundedUnits(x, places) as real, RoundedUnits(y, places) as real;
    DivideMonotone(ux, uy, p);
  }

  lemma RoundedUnitsMonotone(x: real, y: real, places: nat)
    requires x <= y
    ensures RoundedUnits(x, places) <= RoundedUnits(y, places)
  {
    var p := Pow10(places) as real;
    var a, b := Scaled(x, places), Scaled(y, places);
    assert a <= b by { ScaleMonotone(x, y, p); }
    HalfEvenIntMonotone(a, b);
  }

  lemma ScaleMonotone(x: real, y: real, p: real)
    requires x <= y && p > 0.0
    ensures x * p <= y * p
  {
  }

  lemma DivideMonotone(x: real, y: real, p: real)
    requires x <= y && p > 0.0
    ensures x / p <= y / p
  {
  }

  /** java.math.BigDecimal as an unscaled integer and a (non-negative) scale;
      datatype equality is BigDecimal.equals, Value equality is compareTo == 0. */
  datatype Decimal = Decimal(unscaled: int, scale: nat) {
    function Value(): real
    {
      unscaled as real / Pow10(scale) as real
    }
  }

  /** equals distinguishes scales that compareTo identifies: 1.0 and 1.00. */
  lemma EqualsIsStricterThanCompareTo(a: Decimal, b: Decimal)
    ensures a == b ==> a.Value() == b.Value()
    ensures Decimal(10, 1) != Decimal(100, 2) && Decimal(10, 1).Value() == Decimal(100, 2).Value()
  {
    assert Pow10(1) == 10 && Pow10(2) == 100;
  }

  lemma {:induction false} Pow10Add(a: nat, b: nat)
    ensures Pow10(a + b) == Pow10(a) * Pow10(b)
  {
    if a > 0 {
      Pow10Add(a - 1, b);
    }
  }
}
