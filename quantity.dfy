/** `BigIntegerQuantity`: an arbitrary-precision integer magnitude paired with
    a unit. Every operation builds a new quantity; two quantities are equal
    when both magnitude and unit are equal, so 1000 mΩ and 1 Ω are different
    quantities with the same physical value. */
module BigIntegerQuantities {
  import opened JavaIntegers
  import Dimensions
  import opened Units

  /** The exceptions the quantity operations throw. */
  datatype QuantityError =
    | DivisionByZero       // java.lang.ArithmeticException
    | IncommensurableUnits // operands or target unit of different dimensions

  datatype Result<T> = Success(value: T) | Failure(error: QuantityError)

  datatype Quantity = Quantity(value: int, unit: Unit)

  /** The physical value of q, expressed in the system unit of its dimension. */
  function SystemValue(q: Quantity): real {
    q.value as real * q.unit.scale
  }

  /** Narrowing of an exact rational to an integer: toward zero. */
  function Truncate(x: real): (n: int)
    ensures x >= 0.0 ==> n as real <= x < n as real + 1.0
    ensures x < 0.0 ==> n as real - 1.0 < x <= n as real
  {
    if x >= 0.0 then x.Floor else -((-x).Floor)
  }

  /** The magnitude m, given in `from`, expressed in `to` through the converter
      between them; exact when `to` divides `from` evenly, otherwise truncated
      toward zero. */
  function Convert(m: int, from: Unit, to: Unit): int
    requires from.dimension == to.dimension
  {
    Truncate(m as real * ConversionFactor(from, to))
  }

  /** Of two units of one dimension, the one with the smaller scale: values in
      the other unit reach it by multiplication, never by division. */
  function Finer(u: Unit, v: Unit): (r: Unit)
    ensures r == u || r == v
    ensures r.scale <= u.scale && r.scale <= v.scale
  {
    if v.scale < u.scale then v else u
  }

  /** `multiply(Quantity)`: product of the magnitudes in the product unit. */
  function Multiply(q: Quantity, p: Quantity): (r: Quantity)
    ensures r.value == q.value * p.value
    ensures r.unit == Units.Multiply(q.unit, p.unit)
    ensures forall b :: Dimensions.Exponent(r.unit.dimension, b)
                     == Dimensions.Exponent(q.unit.dimension, b) + Dimensions.Exponent(p.unit.dimension, b)
    ensures SystemValue(r) == SystemValue(q) * SystemValue(p)
  {
    var r := Quantity(q.value * p.value, Units.Multiply(q.unit, p.unit));
    ProductOfValues(q.value, p.value, q.unit.scale, p.unit.scale);
    r
  }

  /** `multiply(Number)`: the magnitude scaled, the unit unchanged. */
  function Times(q: Quantity, n: int): (r: Quantity)
    ensures r.unit == q.unit
    ensures SystemValue(r) == SystemValue(q) * n as real
  {
    var r := Quantity(q.value * n, q.unit);
    ProductOfValues(q.value, n, q.unit.scale, 1.0);
    r
  }

  /** The physical value of a product is the product of the physical values. */
  lemma ProductOfValues(x: int, y: int, s: real, t: real)
    ensures (x * y) as real * (s * t) == (x as real * s) * (y as real * t)
  {
    RealOfProduct(x, y);
    assert (x as real * y as real) * (s * t) == (x as real * s) * (y as real * t);
  }

  /** `divide(Quantity)`: the truncated quotient of the magnitudes in the
      quotient unit; a zero divisor throws ArithmeticException. */
  function Divide(q: Quantity, p: Quantity): (r: Result<Quantity>)
    ensures r.Failure? <==> p.value == 0
    ensures r.Success? ==> r.value.value == Quotient(q.value, p.value)
    ensures r.Success? ==> r.value.unit == Units.Divide(q.unit, p.unit)
    ensures r.Success? ==> Abs(r.value.value) * Abs(p.value) <= Abs(q.value)
    ensures r.Success? ==> r.value.unit.dimension == Dimensions.Quotient(q.unit.dimension, p.unit.dimension)
  {
    if p.value == 0 then Failure(DivisionByZero)
    else Success(Quantity(Quotient(q.value, p.value), Units.Divide(q.unit, p.unit)))
  }

  /** `divide(Number)`: the truncated quotient, the unit unchanged; dividing
      by zero throws ArithmeticException. */
  function DivideBy(q: Quantity, n: int): (r: Result<Quantity>)
    ensures r.Failure? <==> n == 0
    ensures r.Success? ==> r.value.unit == q.unit
    ensures r.Success? ==> r.value.value == Quotient(q.value, n)
    ensures r.Success? ==> Abs(q.value - r.value.value * n) < Abs(n)
  {
    if n == 0 then Failure(DivisionByZero)
    else Success(Quantity(Quotient(q.value, n), q.unit))
  }

  /** `inverse()`: the reciprocal of the magnitude, truncated to an integer,
      in the inverse unit. 1 and -1 are their own reciprocals, every larger
      magnitude has reciprocal 0, and zero throws ArithmeticException. */
  function Inverse(q: Quantity): (r: Result<Quantity>)
    ensures r.Failure? <==> q.value == 0
    ensures r.Success? ==> r.value.unit == Units.Inverse(q.unit)
    ensures r.Success? ==> r.value.value == if Abs(q.value) == 1 then q.value else 0
  {
    if q.value == 0 then Failure(DivisionByZero)
    else
      QuotientOfOne(q.value);
      Success(Quantity(Quotient(1, q.value), Units.Inverse(q.unit)))
  }

  /** `add(Quantity)`: both operands converted into the finer of their units,
      then the magnitudes added; units of different dimensions cannot be
      added. */
  function Add(a: Quantity, b: Quantity): (r: Result<Quantity>)
    ensures r.Failure? <==> a.unit.dimension != b.unit.dimension
    ensures r.Success? ==> r.value.unit == Finer(a.unit, b.unit)
  {
    if a.unit.dimension != b.unit.dimension then Failure(IncommensurableUnits)
    else
      var u := Finer(a.unit, b.unit);
      Success(Quantity(Convert(a.value, a.unit, u) + Convert(b.value, b.unit, u), u))
  }

  /** `subtract(Quantity)`: as `add`, with the magnitudes subtracted. */
  function Subtract(a: Quantity, b: Quantity): (r: Result<Quantity>)
    ensures r.Failure? <==> a.unit.dimension != b.unit.dimension
    ensures r.Success? ==> r.value.unit == Finer(a.unit, b.unit)
  {
    if a.unit.dimension != b.unit.dimension then Failure(IncommensurableUnits)
    else
      var u := Finer(a.unit, b.unit);
      Success(Quantity(Convert(a.value, a.unit, u) - Convert(b.value, b.unit, u), u))
  }

  /** `longValue(target)`: the magnitude converted into `target` (truncated
      toward zero), then narrowed to a Java `long`. */
  function LongValue(q: Quantity, target: Unit): (r: Result<int>)
    ensures r.Failure? <==> q.unit.dimension != target.dimension
    ensures r.Success? ==> LONG_MIN <= r.value <= LONG_MAX
  {
    if q.unit.dimension != target.dimension then Failure(IncommensurableUnits)
    else Success(ToLong(Convert(q.value, q.unit, target)))
  }

  // ---------------------------------------------------------------------
  // Conversion

  lemma RealOfProduct(x: int, y: int)
    ensures (x * y) as real == x as real * y as real
  {
  }

  lemma TruncateInteger(n: int)
    ensures Truncate(n as real) == n
  {
  }

  lemma TruncateNegates(x: real)
    ensures Truncate(-x) == -Truncate(x)
  {
  }

  lemma MultipleOverScale(x: real, f: real, t: real, k: real)
    requires t > 0.0 && f == k * t
    ensures x * (f / t) == x * k
  {
  }

  /** Converting into a unit that divides the source unit k times is an
      exact multiplication by k: no truncation happens. */
  lemma {:induction false} ConvertByIntegerFactor(m: int, from: Unit, to: Unit, k: int)
    requires from.dimension == to.dimension
    requires from.scale == k as real * to.scale
    ensures Convert(m, from, to) == m * k
  {
    MultipleOverScale(m as real, from.scale, to.scale, k as real);
    RealOfProduct(m, k);
    TruncateInteger(m * k);
  }

  /** A unit converts into itself unchanged. */
  lemma {:induction false} ConvertToSameUnit(m: int, u: Unit)
    ensures Convert(m, u, u) == m
  {
    ConvertByIntegerFactor(m, u, u, 1);
  }

  lemma BackOverScale(y: real, f: real, t: real, k: real)
    requires t > 0.0 && k > 0.0 && f == k * t
    ensures (y * k) * (t / f) == y
  {
    calc {
      (y * k) * (t / f);
      (y * k) * (t / (k * t));
      (y * k) * (1.0 / k);
      y;
    }
  }

  /** Coarse to fine and back is the identity: 3 days are 72 hours, and 72
      hours are 3 days again. */
  lemma {:induction false} ConvertRoundTrip(m: int, from: Unit, to: Unit, k: int)
    requires from.dimension == to.dimension
    requires from.scale == k as real * to.scale
    ensures Convert(Convert(m, from, to), to, from) == m
  {
    ConvertByIntegerFactor(m, from, to, k);
    assert k > 0 by {
      PositiveRatio(from.scale, to.scale, k as real);
    }
    RealOfProduct(m, k);
    BackOverScale(m as real, from.scale, to.scale, k as real);
    TruncateInteger(m);
  }

  lemma PositiveRatio(f: real, t: real, k: real)
    requires f > 0.0 && t > 0.0 && f == k * t
    ensures k > 0.0
  {
  }

  /** A whole multiple of a scale is no smaller than it. */
  lemma WholeMultiple(f: real, t: real, k: int)
    requires f > 0.0 && t > 0.0 && f == k as real * t
    ensures f >= t
  {
    PositiveRatio(f, t, k as real);
    assert f - t == (k - 1) as real * t;
  }

  /** Conversion commutes with negation, because truncation is toward zero. */
  lemma {:induction false} ConvertNegates(m: int, from: Unit, to: Unit)
    requires from.dimension == to.dimension
    ensures Convert(-m, from, to) == -Convert(m, from, to)
  {
    var f := ConversionFactor(from, to);
    assert (-m) as real * f == -(m as real * f);
    TruncateNegates(m as real * f);
  }

  // ---------------------------------------------------------------------
  // Multiplication and division

  /** Multiplying quantities commutes. */
  lemma {:induction false} MultiplyCommutes(q: Quantity, p: Quantity)
    ensures Multiply(q, p) == Multiply(p, q)
  {
    Units.MultiplyCommutes(q.unit, p.unit);
  }

  /** The product of a quantity with itself is in the square of its unit,
      whose dimension has every exponent doubled. */
  lemma {:induction false} SquareOfQuantity(q: Quantity)
    ensures Multiply(q, q).value == q.value * q.value
    ensures forall b :: Dimensions.Exponent(Multiply(q, q).unit.dimension, b) == 2 * Dimensions.Exponent(q.unit.dimension, b)
    ensures q.unit.dimension != Dimensions.NONE ==> Multiply(q, q).unit != q.unit
  {
    SquareOfUnit(q.unit);
  }

  /** Dividing a product by one of its factors gives back the other. */
  lemma {:induction false} DivideUndoesMultiply(q: Quantity, p: Quantity)
    requires p.value != 0
    ensures Divide(Multiply(q, p), p) == Success(q)
  {
    QuotientOfProduct(q.value, p.value);
    Units.DivideUndoesMultiply(q.unit, p.unit);
  }

  /** Dividing a scaled quantity by the same number gives it back. */
  lemma {:induction false} DivideByUndoesTimes(q: Quantity, n: int)
    requires n != 0
    ensures DivideBy(Times(q, n), n) == Success(q)
  {
    QuotientOfProduct(q.value, n);
  }

  /** A non-zero quantity divided by itself is 1, in the dimensionless unit
      ONE. */
  lemma {:induction false} DivideBySelf(q: Quantity)
    requires q.value != 0
    ensures Divide(q, q) == Success(Quantity(1, ONE))
  {
    QuotientOfProduct(1, q.value);
    Units.DivideBySelf(q.unit);
  }

  /** Two quantities in one unit divide to the truncated quotient of their
      magnitudes, in the dimensionless unit ONE. */
  lemma {:induction false} DivideInOneUnit(a: int, b: int, u: Unit)
    requires b != 0
    ensures Divide(Quantity(a, u), Quantity(b, u)) == Success(Quantity(Quotient(a, b), ONE))
  {
    Units.DivideBySelf(u);
  }

  /** A quantity times its inverse is 1 in ONE when the magnitude is 1 or -1,
      and 0 in ONE otherwise: the reciprocal loses precision by design. */
  lemma {:induction false} MultiplyByInverse(q: Quantity)
    requires q.value != 0
    ensures Inverse(q).Success?
    ensures Multiply(q, Inverse(q).value) == Quantity(if Abs(q.value) == 1 then 1 else 0, ONE)
  {
    Units.MultiplyByInverse(q.unit);
  }

  /** Inverting twice gives the quantity back exactly when its magnitude is 1
      or -1. */
  lemma {:induction false} InverseTwice(q: Quantity)
    requires q.value != 0
    ensures Inverse(q).Success?
    ensures Inverse(Inverse(q).value) == (if Abs(q.value) == 1 then Success(q) else Failure(DivisionByZero))
  {
    Units.InverseInvolutive(q.unit);
  }

  // ---------------------------------------------------------------------
  // Addition and subtraction

  /** Two units of one dimension with the same scale are the same unit. */
  lemma SameScaleSameUnit(u: Unit, v: Unit)
    requires u.dimension == v.dimension && u.scale == v.scale
    ensures u == v
  {
  }

  /** The finer unit does not depend on the order of the operands. */
  lemma {:induction false} FinerCommutes(u: Unit, v: Unit)
    requires u.dimension == v.dimension
    ensures Finer(u, v) == Finer(v, u)
  {
    if u.scale == v.scale {
      SameScaleSameUnit(u, v);
    }
  }

  /** Addition commutes, including across units: 1 Ω + 1 mΩ and
      1 mΩ + 1 Ω are both 1001 mΩ. */
  lemma {:induction false} AddCommutes(a: Quantity, b: Quantity)
    ensures Add(a, b) == Add(b, a)
  {
    if a.unit.dimension == b.unit.dimension {
      FinerCommutes(a.unit, b.unit);
    }
  }

  /** In one unit, addition and subtraction act on the magnitudes alone. */
  lemma {:induction false} SameUnit(a: Quantity, b: Quantity)
    requires a.unit == b.unit
    ensures Add(a, b) == Success(Quantity(a.value + b.value, a.unit))
    ensures Subtract(a, b) == Success(Quantity(a.value - b.value, a.unit))
  {
    ConvertToSameUnit(a.value, a.unit);
    ConvertToSameUnit(b.value, b.unit);
  }

  /** Subtracting is adding the operand multiplied by -1. */
  lemma {:induction false} SubtractIsAddNegated(a: Quantity, b: Quantity)
    ensures Subtract(a, b) == Add(a, Times(b, -1))
  {
    if a.unit.dimension == b.unit.dimension {
      ConvertNegates(b.value, b.unit, Finer(a.unit, b.unit));
    }
  }

  /** Swapping the operands of a subtraction negates the result:
      (1001 mΩ - 1 Ω) × (-1) = 1 Ω - 1001 mΩ. */
  lemma {:induction false} SubtractAntiCommutes(a: Quantity, b: Quantity)
    requires a.unit.dimension == b.unit.dimension
    ensures Subtract(a, b).Success? && Subtract(b, a).Success?
    ensures Subtract(a, b).value == Times(Subtract(b, a).value, -1)
  {
    FinerCommutes(a.unit, b.unit);
  }

  lemma Distributes(x: int, y: int, k: int, s: real, f: real)
    requires s == k as real * f
    ensures (x * k + y) as real * f == x as real * s + y as real * f
  {
    RealOfProduct(x, k);
    assert (x * k + y) as real * f == (x as real * k as real) * f + y as real * f;
  }

  /** When the coarser unit is a whole multiple of the finer, the sum loses
      nothing: its physical value is the sum of the operands' values. */
  lemma {:induction false} AddIsExact(a: Quantity, b: Quantity, k: int)
    requires a.unit.dimension == b.unit.dimension
    requires a.unit.scale == k as real * b.unit.scale
    ensures Add(a, b).Success?
    ensures Add(a, b).value.unit == b.unit
    ensures SystemValue(Add(a, b).value) == SystemValue(a) + SystemValue(b)
  {
    FinerOfMultiple(a.unit, b.unit, k);
    ConvertByIntegerFactor(a.value, a.unit, b.unit, k);
    ConvertToSameUnit(b.value, b.unit);
    assert Add(a, b) == Success(Quantity(a.value * k + b.value, b.unit));
    Distributes(a.value, b.value, k, a.unit.scale, b.unit.scale);
  }

  /** Of two units where one is a whole multiple of the other, the other is
      the finer. */
  lemma {:induction false} FinerOfMultiple(u: Unit, v: Unit, k: int)
    requires u.dimension == v.dimension
    requires u.scale == k as real * v.scale
    ensures Finer(u, v) == v && Finer(v, u) == v
  {
    WholeMultiple(u.scale, v.scale, k);
    if u.scale == v.scale {
      SameScaleSameUnit(u, v);
    }
  }

  /** Adding across metric prefixes: x in u plus y in u with prefix 10^e is
      expressed in the finer unit, where the coarser magnitude has been
      multiplied by a power of ten. */
  lemma {:induction false} AddAcrossPrefixes(u: Unit, x: int, y: int, e: int)
    ensures Add(Quantity(x, u), Quantity(y, Prefix(u, e)))
         == if e >= 0 then Success(Quantity(x + y * TenTo(e), u))
            else Success(Quantity(x * TenTo(-e) + y, Prefix(u, e)))
  {
    var p := Prefix(u, e);
    if e >= 0 {
      FinerOfMultiple(p, u, TenTo(e));
      ConvertToSameUnit(x, u);
      ConvertByIntegerFactor(y, p, u, TenTo(e));
    } else {
      FinerOfMultiple(u, p, TenTo(-e));
      ConvertByIntegerFactor(x, u, p, TenTo(-e));
      ConvertToSameUnit(y, p);
    }
  }

  /** Between units whose scales are not whole multiples of each other the
      coarser operand is truncated: 1 m + 0 ft is 3 ft, not 3.28… ft. */
  lemma AddTruncatesAcrossNonWholeRatio()
    ensures Add(Quantity(1, METRE), Quantity(0, Unit(METRE.dimension, 0.3048)))
         == Success(Quantity(3, Unit(METRE.dimension, 0.3048)))
  {
    var foot := Unit(METRE.dimension, 0.3048);
    var f := ConversionFactor(METRE, foot);
    assert 3.0 * 0.3048 <= 1.0 < 4.0 * 0.3048;
    assert 3.0 <= f < 4.0 by {
      assert f * 0.3048 == 1.0;
    }
    ConvertToSameUnit(0, foot);
  }

  /** Exact conversion survives the narrowing to `long` when the converted
      magnitude fits. */
  lemma {:induction false} LongValueExact(q: Quantity, target: Unit, k: int)
    requires q.unit.dimension == target.dimension
    requires q.unit.scale == k as real * target.scale
    requires LONG_MIN <= q.value * k <= LONG_MAX
    ensures LongValue(q, target) == Success(q.value * k)
  {
    ConvertByIntegerFactor(q.value, q.unit, target, k);
  }

  /** Beyond the `long` range, `longValue` keeps the low 64 bits of the exact
      conversion instead of failing or saturating. */
  lemma {:induction false} LongValueWraps(q: Quantity, target: Unit, k: int)
    requires q.unit.dimension == target.dimension
    requires q.unit.scale == k as real * target.scale
    ensures LongValue(q, target) == Success(ToLong(q.value * k))
  {
    ConvertByIntegerFactor(q.value, q.unit, target, k);
  }

  /** One second past `Long.MAX_VALUE` seconds wraps to `Long.MIN_VALUE`. */
  lemma LongValueOverflow()
    ensures LongValue(Quantity(LONG_MAX + 1, SECOND), SECOND) == Success(LONG_MIN)
  {
    LongValueWraps(Quantity(LONG_MAX + 1, SECOND), SECOND, 1);
  }

  // ---------------------------------------------------------------------
  // Fine into coarse

  lemma SplitFraction(a: real, b: real, c: real, k: real)
    requires k > 0.0 && a == b * k + c
    ensures a / k == b + c / k
  {
    assert (b * k) / k == b;
  }

  lemma FractionBelowOne(r: int, k: int)
    requires k > 0 && Abs(r) < k
    ensures r >= 0 ==> 0.0 <= r as real / k as real < 1.0
    ensures r <= 0 ==> -1.0 < r as real / k as real <= 0.0
  {
  }

  /** Truncating the exact fraction m/k is `BigInteger.divide`. */
  lemma {:induction false} TruncatedFraction(m: int, k: int)
    requires k > 0
    ensures Truncate(m as real / k as real) == Quotient(m, k)
  {
    var q := Quotient(m, k);
    var r := m - q * k;
    RealOfProduct(q, k);
    SplitFraction(m as real, q as real, r as real, k as real);
    FractionBelowOne(r, k);
  }

  lemma ReciprocalFactor(x: real, f: real, t: real, s: real, k: real)
    requires s > 0.0 && k > 0.0 && t == k * s && f * t == s
    ensures x * f == x / k
  {
    assert f * k * s == 1.0 * s;
    assert f * k == 1.0;
    assert f == 1.0 / k;
  }

  /** Converting into a unit k times coarser divides the magnitude by k,
      truncating toward zero: 73 h are 3 days, -73 h are -3 days. */
  lemma {:induction false} ConvertByIntegerDivisor(m: int, from: Unit, to: Unit, k: int)
    requires from.dimension == to.dimension
    requires to.scale == k as real * from.scale
    ensures Convert(m, from, to) == Quotient(m, k)
  {
    PositiveRatio(to.scale, from.scale, k as real);
    ReciprocalFactor(m as real, ConversionFactor(from, to), to.scale, from.scale, k as real);
    TruncatedFraction(m, k);
  }

  /** Reading a quantity in a unit k times coarser is the truncated quotient,
      narrowed to `long`. */
  lemma {:induction false} LongValueTruncates(q: Quantity, target: Unit, k: int)
    requires q.unit.dimension == target.dimension
    requires target.scale == k as real * q.unit.scale
    ensures LongValue(q, target) == Success(ToLong(Quotient(q.value, k)))
  {
    ConvertByIntegerDivisor(q.value, q.unit, target, k);
  }

  /** Fine to coarse loses the remainder: 73 h read in days is 3, -73 h is
      -3, and 73 h to days and back is 72 h. */
  lemma HoursToDaysTruncates()
    ensures LongValue(Quantity(73, HOUR), DAY) == Success(3)
    ensures LongValue(Quantity(-73, HOUR), DAY) == Success(-3)
    ensures Convert(Convert(73, HOUR, DAY), DAY, HOUR) == 72
  {
    assert DAY.scale == 24 as real * HOUR.scale;
    LongValueTruncates(Quantity(73, HOUR), DAY, 24);
    LongValueTruncates(Quantity(-73, HOUR), DAY, 24);
    assert Quotient(73, 24) == 3 by { QuotientOfNaturals(73, 24); }
    assert Quotient(-73, 24) == -3;
    ConvertByIntegerDivisor(73, HOUR, DAY, 24);
    ConvertByIntegerFactor(3, DAY, HOUR, 24);
  }

}
