/** Units of measurement. A unit is described by its dimension and by the
    exact, positive factor that converts a value in the unit into the system
    unit of that dimension (1 for Ω and s, 1/1000 for mΩ, 3600 for h). Units
    are values: multiplying, dividing, inverting or prefixing a unit builds a
    new one. Dafny's `real` is exact rational arithmetic, so scales never
    round. */
module Units {
  import opened Dimensions

  /** The factor from a unit to its system unit. */
  type Scale = r: real | r > 0.0 witness 1.0

  datatype Unit = Unit(dimension: Dimension, scale: Scale)

  /** The dimensionless unit `AbstractUnit.ONE`. */
  const ONE: Unit := Unit(NONE, 1.0)
  const SECOND: Unit := Unit(map[Time := 1], 1.0)
  const HOUR: Unit := Unit(map[Time := 1], 3600.0)
  const DAY: Unit := Unit(map[Time := 1], 86400.0)
  const METRE: Unit := Unit(map[Length := 1], 1.0)
  /** The ohm, V/A = kg·m²·s⁻³·A⁻². */
  const OHM: Unit := Unit(map[Mass := 1, Length := 2, Time := -3, ElectricCurrent := -2], 1.0)

  function Multiply(u: Unit, v: Unit): (r: Unit)
    ensures forall b :: Exponent(r.dimension, b) == Exponent(u.dimension, b) + Exponent(v.dimension, b)
    ensures r.scale == u.scale * v.scale
  {
    Unit(Product(u.dimension, v.dimension), u.scale * v.scale)
  }

  function Inverse(u: Unit): (r: Unit)
    ensures forall b :: Exponent(r.dimension, b) == -Exponent(u.dimension, b)
    ensures r.scale * u.scale == 1.0
  {
    Unit(Dimensions.Inverse(u.dimension), 1.0 / u.scale)
  }

  function Divide(u: Unit, v: Unit): (r: Unit)
    ensures forall b :: Exponent(r.dimension, b) == Exponent(u.dimension, b) - Exponent(v.dimension, b)
    ensures r.scale * v.scale == u.scale
  {
    Unit(Quotient(u.dimension, v.dimension), u.scale / v.scale)
  }

  /** 10 to a natural power, as an integer: `BigInteger.TEN.pow(n)`. */
  function TenTo(n: nat): (r: nat)
    ensures r >= 1
  {
    if n == 0 then 1 else 10 * TenTo(n - 1)
  }

  /** A scale multiplied by 10^e, one factor of ten at a time: the
      converter of the metric prefix with base-10 exponent e (kilo is 3,
      milli is -3). */
  function Rescale(s: Scale, e: int): Scale
    decreases if e >= 0 then e else -e
  {
    if e == 0 then s
    else if e > 0 then 10.0 * Rescale(s, e - 1)
    else Rescale(s, e + 1) / 10.0
  }

  /** `unit.prefix(p)` for the metric prefix with exponent e: same dimension,
      scale multiplied by 10^e. */
  function Prefix(u: Unit, e: int): (r: Unit)
    ensures r.dimension == u.dimension
    ensures e >= 0 ==> r.scale == TenTo(e) as real * u.scale
    ensures e < 0 ==> r.scale * TenTo(-e) as real == u.scale
  {
    if e >= 0 then
      RescaleUp(u.scale, e);
      Unit(u.dimension, Rescale(u.scale, e))
    else
      RescaleDown(u.scale, -e);
      Unit(u.dimension, Rescale(u.scale, e))
  }

  /** The factor that converts a value in `from` into `to`: the converter
      `from.getConverterTo(to)`, which exists only between units of one
      dimension. */
  function ConversionFactor(from: Unit, to: Unit): (f: Scale)
    requires from.dimension == to.dimension
    ensures f * to.scale == from.scale
  {
    from.scale / to.scale
  }

  lemma {:induction false} MultiplyCommutes(u: Unit, v: Unit)
    ensures Multiply(u, v) == Multiply(v, u)
  {
    ProductCommutes(u.dimension, v.dimension);
  }

  lemma {:induction false} MultiplyAssociates(u: Unit, v: Unit, w: Unit)
    ensures Multiply(Multiply(u, v), w) == Multiply(u, Multiply(v, w))
  {
    ProductAssociates(u.dimension, v.dimension, w.dimension);
  }

  /** Multiplying by ONE changes nothing. */
  lemma {:induction false} MultiplyByOne(u: Unit)
    ensures Multiply(u, ONE) == u && Multiply(ONE, u) == u
  {
    ProductWithNone(u.dimension);
  }

  /** A unit over itself is ONE: Ω/Ω is dimensionless with factor 1. */
  lemma {:induction false} DivideBySelf(u: Unit)
    ensures Divide(u, u) == ONE
  {
    QuotientBySelf(u.dimension);
    assert u.scale / u.scale == 1.0;
  }

  /** A unit times its inverse is ONE. */
  lemma {:induction false} MultiplyByInverse(u: Unit)
    ensures Multiply(u, Inverse(u)) == ONE
  {
    QuotientBySelf(u.dimension);
  }

  lemma {:induction false} InverseInvolutive(u: Unit)
    ensures Inverse(Inverse(u)) == u
  {
    Dimensions.InverseInvolutive(u.dimension);
  }

  /** Dividing a product unit by one factor gives back the other. */
  lemma {:induction false} DivideUndoesMultiply(u: Unit, v: Unit)
    ensures Divide(Multiply(u, v), v) == u
  {
    Dimensions.QuotientOfProduct(u.dimension, v.dimension);
  }

  /** Dividing is multiplying by the inverse. */
  lemma {:induction false} DivideIsMultiplyByInverse(u: Unit, v: Unit)
    ensures Divide(u, v) == Multiply(u, Inverse(v))
  {
    assert u.scale / v.scale == u.scale * (1.0 / v.scale);
  }

  /** The square of a unit has twice its exponents and the square of its
      factor; Ω·Ω is a new unit, distinct from Ω. */
  lemma {:induction false} SquareOfUnit(u: Unit)
    ensures forall b :: Exponent(Multiply(u, u).dimension, b) == 2 * Exponent(u.dimension, b)
    ensures Multiply(u, u).scale == u.scale * u.scale
    ensures u.dimension != NONE ==> Multiply(u, u) != u
  {
    SquareDoublesExponents(u.dimension);
  }

  /** Powers of ten multiply by adding exponents: a prefix of 10^a applied
      over one of 10^b is the prefix 10^(a+b). */
  lemma {:induction false} TenToAdds(a: nat, b: nat)
    ensures TenTo(a + b) == TenTo(a) * TenTo(b)
  {
    if a > 0 {
      TenToAdds(a - 1, b);
      assert TenTo(a + b) == 10 * TenTo(a - 1 + b);
      assert 10 * (TenTo(a - 1) * TenTo(b)) == (10 * TenTo(a - 1)) * TenTo(b);
    }
  }

  lemma {:induction false} RescaleUp(s: Scale, n: nat)
    ensures Rescale(s, n) == TenTo(n) as real * s
  {
    if n > 0 {
      RescaleUp(s, n - 1);
      TenfoldUp(Rescale(s, n), Rescale(s, n - 1), TenTo(n) as real, TenTo(n - 1) as real, s);
    }
  }

  lemma TenfoldUp(r: real, r': real, t: real, t': real, s: real)
    requires r == 10.0 * r' && r' == t' * s && t == 10.0 * t'
    ensures r == t * s
  {
  }

  lemma {:induction false} RescaleDown(s: Scale, n: nat)
    ensures Rescale(s, -(n as int)) * TenTo(n) as real == s
  {
    if n > 0 {
      RescaleDown(s, n - 1);
      TenfoldDown(Rescale(s, -(n as int)), Rescale(s, -(n as int) + 1), TenTo(n) as real, TenTo(n - 1) as real, s);
    }
  }

  lemma TenfoldDown(r: real, r': real, t: real, t': real, s: real)
    requires r' == 10.0 * r && r' * t' == s && t == 10.0 * t'
    ensures r * t == s
  {
  }

  /** One more power of ten is one more factor of ten, for either sign. */
  lemma RescaleStep(s: Scale, e: int)
    ensures Rescale(s, e + 1) == 10.0 * Rescale(s, e)
  {
  }

  /** Prefixes compose: `KILO(MILLI(u))` is u again, and the empty prefix
      changes nothing. */
  lemma {:induction false} PrefixComposes(u: Unit, a: int, b: int)
    ensures Prefix(Prefix(u, a), b) == Prefix(u, a + b)
    ensures Prefix(u, 0) == u
  {
    RescaleComposes(u.scale, a, b);
  }

  lemma {:induction false} RescaleComposes(s: Scale, a: int, b: int)
    ensures Rescale(Rescale(s, a), b) == Rescale(s, a + b)
    decreases if b >= 0 then b else -b
  {
    if b > 0 {
      RescaleComposes(s, a, b - 1);
      RescaleStep(s, a + b - 1);
    } else if b < 0 {
      RescaleComposes(s, a, b + 1);
      RescaleStep(s, a + b);
      RescaleStep(Rescale(s, a), b);
    }
  }

  lemma Scaled(s: real, t: real)
    requires s > 0.0
    ensures t > 1.0 ==> t * s > s
  {
    assert t * s - s == (t - 1.0) * s;
  }

  /** A positive exponent makes a coarser unit, a negative one a finer unit. */
  lemma {:induction false} PrefixOrder(u: Unit, e: int)
    ensures e > 0 ==> Prefix(u, e).scale > u.scale
    ensures e < 0 ==> Prefix(u, e).scale < u.scale
  {
    var p := Prefix(u, e);
    if e > 0 {
      var t := TenTo(e);
      assert t == 10 * TenTo(e - 1);
      assert t as real > 1.0;
      assert p.scale == t as real * u.scale;
      Scaled(u.scale, t as real);
    } else if e < 0 {
      var t := TenTo(-e);
      assert t == 10 * TenTo(-e - 1);
      assert t as real > 1.0;
      assert p.scale * t as real == u.scale;
      Scaled(p.scale, t as real);
    }
  }

  /** Converters compose, and every converter is inverted exactly by the
      converter in the other direction. */
  lemma {:induction false} ConversionFactorsCompose(u: Unit, v: Unit, w: Unit)
    requires u.dimension == v.dimension == w.dimension
    ensures ConversionFactor(u, v) * ConversionFactor(v, w) == ConversionFactor(u, w)
    ensures ConversionFactor(u, v) * ConversionFactor(v, u) == 1.0
    ensures ConversionFactor(u, u) == 1.0
  {
  }

  /** A day is 24 hours. */
  lemma DayInHours()
    ensures ConversionFactor(DAY, HOUR) == 24.0
    ensures ConversionFactor(HOUR, DAY) * 24.0 == 1.0
  {
  }
}
