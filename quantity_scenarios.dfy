/** The documented behaviour of `BigIntegerQuantity`, case by case: each
    lemma states one of the library's own example assertions about 1 Ω, 2 Ω,
    Ω², metric prefixes of the ohm, days and hours, and proves it of the
    model. */
module BigIntegerQuantityScenarios {
  import Dimensions
  import Units
  import opened BigIntegerQuantities

  const ONE_OHM: Quantity := Quantity(1, Units.OHM)
  const TWO_OHM: Quantity := Quantity(2, Units.OHM)
  const SQUARE_OHM: Units.Unit := Units.Multiply(Units.OHM, Units.OHM)
  const MILLI_OHM: Units.Unit := Units.Prefix(Units.OHM, -3)

  /** 2 Ω × 2 Ω = 4 Ω², where Ω² has twice the exponents of Ω. */
  lemma QuantityMultiplication()
    ensures Multiply(TWO_OHM, TWO_OHM) == Quantity(4, SQUARE_OHM)
    ensures Dimensions.Exponent(SQUARE_OHM.dimension, Dimensions.Mass) == 2
    ensures Dimensions.Exponent(SQUARE_OHM.dimension, Dimensions.ElectricCurrent) == -4
    ensures SQUARE_OHM != Units.OHM
  {
    Units.SquareOfUnit(Units.OHM);
  }

  /** 2 Ω × 2 = 4 Ω. */
  lemma NumberMultiplication()
    ensures Times(TWO_OHM, 2) == Quantity(4, Units.OHM)
  {
  }

  /** 2 Ω ÷ 2 Ω = 1, dimensionless. */
  lemma QuantityDivision()
    ensures Divide(TWO_OHM, TWO_OHM) == Success(Quantity(1, Units.ONE))
  {
    DivideBySelf(TWO_OHM);
  }

  /** 2 Ω ÷ 2 = 1 Ω. */
  lemma NumberDivision()
    ensures DivideBy(TWO_OHM, 2) == Success(ONE_OHM)
  {
    DivideByUndoesTimes(ONE_OHM, 2);
  }

  /** 1 Ω inverts to 1 Ω⁻¹, 2 Ω to 0 Ω⁻¹, and 0 Ω throws ArithmeticException. */
  lemma Inversion()
    ensures Inverse(ONE_OHM) == Success(Quantity(1, Units.Inverse(Units.OHM)))
    ensures Inverse(TWO_OHM) == Success(Quantity(0, Units.Inverse(Units.OHM)))
    ensures Inverse(Quantity(0, Units.OHM)) == Failure(DivisionByZero)
  {
  }

  /** 3 days are 72 hours as a `long`, and 72 hours are 3 days again. */
  lemma DaysInHours()
    ensures LongValue(Quantity(3, Units.DAY), Units.HOUR) == Success(72)
    ensures LongValue(Quantity(72, Units.HOUR), Units.DAY) == Success(3)
  {
    assert Units.DAY.scale == 24 as real * Units.HOUR.scale;
    LongValueExact(Quantity(3, Units.DAY), Units.HOUR, 24);
    ConvertRoundTrip(3, Units.DAY, Units.HOUR, 24);
  }

  /** 1 Ω + 2 Ω = 3 Ω. */
  lemma AdditionSameUnits()
    ensures Add(ONE_OHM, Quantity(2, Units.OHM)) == Success(Quantity(3, Units.OHM))
  {
    SameUnit(ONE_OHM, Quantity(2, Units.OHM));
  }

  /** 1 Ω + 1 Ω with any metric prefix, in either order, is 10^|e| + 1 in
      the finer unit: Ω for a positive exponent, the prefixed unit otherwise. */
  lemma {:induction false} AdditionConvertsToLowestPrefix(e: int)
    ensures var operand := Quantity(1, Units.Prefix(Units.OHM, e));
      var expected := if e > 0 then Quantity(Units.TenTo(e) + 1, Units.OHM)
                      else Quantity(Units.TenTo(-e) + 1, Units.Prefix(Units.OHM, e));
      Add(ONE_OHM, operand) == Success(expected) && Add(operand, ONE_OHM) == Success(expected)
  {
    AddAcrossPrefixes(Units.OHM, 1, 1, e);
    AddCommutes(ONE_OHM, Quantity(1, Units.Prefix(Units.OHM, e)));
    Units.PrefixComposes(Units.OHM, 0, 0);
  }

  /** 1 Ω - 1001 mΩ = -1 mΩ, and (1001 mΩ - 1 Ω) × (-1) is the same. */
  lemma Subtraction()
    ensures Subtract(ONE_OHM, Quantity(1001, MILLI_OHM)) == Success(Quantity(-1, MILLI_OHM))
    ensures Subtract(Quantity(1001, MILLI_OHM), ONE_OHM).Success?
    ensures Times(Subtract(Quantity(1001, MILLI_OHM), ONE_OHM).value, -1) == Quantity(-1, MILLI_OHM)
  {
    var operand := Quantity(1001, MILLI_OHM);
    SubtractIsAddNegated(ONE_OHM, operand);
    AddAcrossPrefixes(Units.OHM, 1, -1001, -3);
    assert Units.TenTo(3) == 1000;
    SubtractAntiCommutes(ONE_OHM, operand);
  }
}
