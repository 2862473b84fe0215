# BigIntegerQuantity of the Indriya units library, in Dafny

Indriya's `BigIntegerQuantity` pairs an arbitrary-precision integer magnitude
(`java.math.BigInteger`) with a unit of measurement. Its arithmetic respects
units:

- `multiply` and `divide` by another quantity combine the units;
- `multiply` and `divide` by a number scale the magnitude only;
- `inverse` inverts the unit and takes the integer reciprocal of the magnitude;
- `add` and `subtract` need units of one dimension, and express the result in
  the finer of the two units;
- `longValue(unit)` converts into another unit and narrows to a Java `long`.

The behaviour modelled here is the one fixed by the library's own examples in
`BigIntegerQuantityTest.java`. The implementation class itself is not part of
this model, so every operation is defined from the documented results.

The project has five modules:

- `JavaIntegers` (`java_integers.dfy`): `BigInteger.divide`, which truncates
  toward zero, and Java's narrowing to `long`, which wraps modulo 2^64. Both
  are written out, since Dafny's `/` is Euclidean and its integers are
  unbounded.
- `Dimensions` (`dimensions.dfy`): a dimension is a map from the seven SI
  base dimensions to non-zero integer exponents. Two dimensions are equal
  exactly when their exponents are.
- `Units` (`units.dfy`): a unit is a dimension plus an exact positive
  rational scale to the system unit, such as 1/1000 for mΩ or 3600 for h. The
  module defines products, quotients and inverses of units. A metric prefix is
  its base-10 exponent, and prefixing multiplies the scale by that power of ten.
  Converters between units of one dimension are the ratios of their scales.
- `BigIntegerQuantities` (`quantity.dfy`): the quantity operations, with
  their error cases as `Result` values, and their algebraic laws.
- `BigIntegerQuantityScenarios` (`quantity_scenarios.dfy`): each documented
  example restated as a lemma. The metric-prefix example is stated for every
  prefix exponent, not only for the prefixes Java enumerates.

Modelling decisions:

- Magnitudes are divided with truncation toward zero, in both `divide` forms
  and in `inverse`. For `inverse` the examples decide it: 2 Ω inverts to
  0 Ω⁻¹, which keeping an exact rational magnitude (truncating only when a
  `long` or `double` is requested) would not give. The `divide` examples
  (2 Ω ÷ 2 Ω, 2 Ω ÷ 2) divide exactly and do not decide it; both `divide`
  forms are taken to truncate like `BigInteger.divide` and `inverse`.
- A conversion multiplies by the exact ratio of the two scales, then truncates
  toward zero. Converting from a coarser unit into a finer one that divides it
  a whole number of times is exact (`ConvertByIntegerFactor`), and so is every
  `add` and `subtract` between such units (`AddIsExact`); this covers every
  example (prefixes of the ohm, days into hours). The other direction
  truncates toward zero: 73 h read in days is 3, and -73 h is -3
  (`ConvertByIntegerDivisor`, `HoursToDaysTruncates`). When neither scale is
  a whole multiple of the other, `add` and `subtract` truncate the coarser
  operand, so 1 m + 0 ft is 3 ft (`AddTruncatesAcrossNonWholeRatio`).
- `longValue` narrows the converted magnitude the way Java narrows a
  `BigInteger` to `long`: it keeps the low 64 bits rather than failing.
- Units are compared by dimension and scale. Symbols and names are not
  modelled, so Ω/Ω is the same unit as `AbstractUnit.ONE`.
- Java's generic dimension tags (`Quantity<ElectricResistance>`) are checked
  statically in Java. Here they are a run-time check: a mismatch gives
  `Failure(IncommensurableUnits)`.

## Model

| member | source | states |
|---|---|---|
| JavaIntegers.Quotient | src/test/java/tech/units/indriya/quantity/BigIntegerQuantityTest.java:96-100 | `BigInteger.divide`: the remainder is smaller than the divisor, is zero or has the dividend's sign, and the quotient's magnitude times the divisor's never exceeds the dividend's |
| JavaIntegers.QuotientOfNaturals | src/test/java/tech/units/indriya/quantity/BigIntegerQuantityTest.java:96-100 | for non-negative operands, the truncated quotient is ordinary division |
| JavaIntegers.QuotientTruncatesTowardZero | src/test/java/tech/units/indriya/quantity/BigIntegerQuantityTest.java:96-100 | -7 / 2 is -3, not Dafny's -4, and the signs combine as in Java |
| JavaIntegers.QuotientOfProduct | src/test/java/tech/units/indriya/quantity/BigIntegerQuantityTest.java:96-100 | an exact division undoes a multiplication by the same non-zero number |
| JavaIntegers.QuotientOfOne | src/test/java/tech/units/indriya/quantity/BigIntegerQuantityTest.java:105-120 | the truncated reciprocal of m is m when m is 1 or -1, and 0 otherwise |
| JavaIntegers.ToLong | src/test/java/tech/units/indriya/quantity/BigIntegerQuantityTest.java:140-145 | narrowing to `long` gives a value in the long range, congruent to the input modulo 2^64, and equal to the input whenever the input fits |
| Dimensions.Extensionality | src/test/java/tech/units/indriya/quantity/BigIntegerQuantityTest.java:86-91 | two dimensions with the same exponents are equal maps, so Ω/Ω has exactly the dimension NONE of `ONE` |
| Dimensions.Product | src/test/java/tech/units/indriya/quantity/BigIntegerQuantityTest.java:55 | the exponents of a product dimension are the sums of the factors' exponents |
| Dimensions.Inverse | src/test/java/tech/units/indriya/quantity/BigIntegerQuantityTest.java:108 | the exponents of an inverse dimension are the negated exponents |
| Dimensions.Quotient | src/test/java/tech/units/indriya/quantity/BigIntegerQuantityTest.java:88-89 | the exponents of a quotient dimension are the differences of the exponents |
| Dimensions.ProductCommutes | src/test/java/tech/units/indriya/quantity/BigIntegerQuantityTest.java:55 | the product of dimensions does not depend on the order |
| Dimensions.ProductAssociates | src/test/java/tech/units/indriya/quantity/BigIntegerQuantityTest.java:55 | the product of dimensions is associative |
| Dimensions.ProductWithNone | src/test/java/tech/units/indriya/quantity/BigIntegerQuantityTest.java:89 | the dimensionless dimension is neutral for products |
| Dimensions.QuotientBySelf | src/test/java/tech/units/indriya/quantity/BigIntegerQuantityTest.java:86-91 | a dimension times its inverse, or divided by itself, is dimensionless |
| Dimensions.InverseInvolutive | src/test/java/tech/units/indriya/quantity/BigIntegerQuantityTest.java:108 | inverting a dimension twice gives it back |
| Dimensions.InverseOfProduct | src/test/java/tech/units/indriya/quantity/BigIntegerQuantityTest.java:108 | the inverse of a product is the product of the inverses |
| Dimensions.QuotientOfProduct | src/test/java/tech/units/indriya/quantity/BigIntegerQuantityTest.java:86-91 | dividing a product dimension by one factor gives back the other |
| Dimensions.SquareDoublesExponents | src/test/java/tech/units/indriya/quantity/BigIntegerQuantityTest.java:55 | squaring doubles every exponent, and changes every dimension except the dimensionless one |
| Units.Multiply | src/test/java/tech/units/indriya/quantity/BigIntegerQuantityTest.java:55 | `Unit.multiply`: exponents add and scales multiply |
| Units.Inverse | src/test/java/tech/units/indriya/quantity/BigIntegerQuantityTest.java:108 | `Unit.inverse`: exponents negate and the scale is the reciprocal |
| Units.Divide | src/test/java/tech/units/indriya/quantity/BigIntegerQuantityTest.java:88-89 | `Unit.divide`: exponents subtract, and the quotient's scale times the divisor's is the dividend's |
| Units.TenTo | src/test/java/tech/units/indriya/quantity/BigIntegerQuantityTest.java:188 | `BigInteger.TEN.pow(n)` is a positive integer |
| Units.TenToAdds | src/test/java/tech/units/indriya/quantity/BigIntegerQuantityTest.java:188-190 | powers of ten multiply by adding exponents: 10^(a+b) = 10^a · 10^b |
| Units.Prefix | src/test/java/tech/units/indriya/quantity/BigIntegerQuantityTest.java:185 | `unit.prefix(p)` keeps the dimension and multiplies the scale by 10^e: by `TenTo(e)` for e >= 0, and by the reciprocal of `TenTo(-e)` otherwise |
| Units.RescaleUp | src/test/java/tech/units/indriya/quantity/BigIntegerQuantityTest.java:185 | a positive prefix exponent multiplies a scale by exactly `TenTo(n)` |
| Units.RescaleDown | src/test/java/tech/units/indriya/quantity/BigIntegerQuantityTest.java:201 | a negative prefix exponent divides a scale by exactly `TenTo(n)` |
| Units.RescaleComposes | src/test/java/tech/units/indriya/quantity/BigIntegerQuantityTest.java:185 | rescaling by 10^a and then by 10^b is rescaling by 10^(a+b) |
| Units.PrefixComposes | src/test/java/tech/units/indriya/quantity/BigIntegerQuantityTest.java:185 | prefixes compose by adding exponents, and the zero exponent changes nothing |
| Units.PrefixOrder | src/test/java/tech/units/indriya/quantity/BigIntegerQuantityTest.java:187-192 | a positive exponent gives a coarser unit, a negative one a finer unit |
| Units.ConversionFactor | src/test/java/tech/units/indriya/quantity/BigIntegerQuantityTest.java:143 | the converter between units of one dimension takes the source scale to the target scale |
| Units.ConversionFactorsCompose | src/test/java/tech/units/indriya/quantity/BigIntegerQuantityTest.java:143 | converters compose, each is inverted by the converter back, and a unit converts to itself by 1 |
| Units.DayInHours | src/test/java/tech/units/indriya/quantity/BigIntegerQuantityTest.java:142-143 | the converter from days to hours is 24, and from hours to days is its reciprocal |
| Units.MultiplyCommutes | src/test/java/tech/units/indriya/quantity/BigIntegerQuantityTest.java:55 | unit products do not depend on order |
| Units.MultiplyAssociates | src/test/java/tech/units/indriya/quantity/BigIntegerQuantityTest.java:55 | unit products are associative |
| Units.MultiplyByOne | src/test/java/tech/units/indriya/quantity/BigIntegerQuantityTest.java:89 | `ONE` is neutral for unit products |
| Units.DivideBySelf | src/test/java/tech/units/indriya/quantity/BigIntegerQuantityTest.java:86-91 | Ω/Ω is `AbstractUnit.ONE` |
| Units.MultiplyByInverse | src/test/java/tech/units/indriya/quantity/BigIntegerQuantityTest.java:108 | a unit times its inverse is `ONE` |
| Units.InverseInvolutive | src/test/java/tech/units/indriya/quantity/BigIntegerQuantityTest.java:108 | inverting a unit twice gives it back |
| Units.DivideUndoesMultiply | src/test/java/tech/units/indriya/quantity/BigIntegerQuantityTest.java:55 | dividing a product unit by one factor gives back the other |
| Units.DivideIsMultiplyByInverse | src/test/java/tech/units/indriya/quantity/BigIntegerQuantityTest.java:88-89 | dividing by a unit is multiplying by its inverse |
| Units.SquareOfUnit | src/test/java/tech/units/indriya/quantity/BigIntegerQuantityTest.java:55 | Ω·Ω has twice Ω's exponents and the square of its scale, and differs from Ω |
| BigIntegerQuantities.Truncate | src/test/java/tech/units/indriya/quantity/BigIntegerQuantityTest.java:143 | narrowing an exact value to an integer rounds toward zero, staying within 1 of it |
| BigIntegerQuantities.Finer | src/test/java/tech/units/indriya/quantity/BigIntegerQuantityTest.java:187-192 | the unit chosen for a sum is one of the operands' units, with the smaller scale |
| BigIntegerQuantities.Multiply | src/test/java/tech/units/indriya/quantity/BigIntegerQuantityTest.java:66-71 | `multiply(Quantity)`: the magnitude is the product of the magnitudes and the unit is the product unit, so exponents add and the physical value is the product of the physical values |
| BigIntegerQuantities.Times | src/test/java/tech/units/indriya/quantity/BigIntegerQuantityTest.java:76-81 | `multiply(Number)`: the unit is unchanged, and the physical value is scaled by the number |
| BigIntegerQuantities.Divide | src/test/java/tech/units/indriya/quantity/BigIntegerQuantityTest.java:86-91 | `divide(Quantity)` fails exactly for a zero divisor; otherwise the magnitude is the quotient truncated toward zero (`Quotient`) and the unit is the quotient unit, whose dimension is the quotient dimension |
| BigIntegerQuantities.DivideInOneUnit | src/test/java/tech/units/indriya/quantity/BigIntegerQuantityTest.java:86-91 | any two quantities in one unit divide to the truncated quotient of their magnitudes in `ONE` |
| BigIntegerQuantities.DivideBy | src/test/java/tech/units/indriya/quantity/BigIntegerQuantityTest.java:96-100 | `divide(Number)` fails exactly for zero; otherwise the unit is unchanged and the magnitude is the quotient truncated toward zero (`Quotient`), leaving a remainder smaller than the divisor |
| BigIntegerQuantities.Inverse | src/test/java/tech/units/indriya/quantity/BigIntegerQuantityTest.java:105-130 | `inverse()` fails exactly for magnitude 0; otherwise the unit is the inverse unit and the magnitude is 1 or -1 for those magnitudes, else 0 |
| BigIntegerQuantities.Add | src/test/java/tech/units/indriya/quantity/BigIntegerQuantityTest.java:173-196 | `add` fails exactly for different dimensions; otherwise the result is in the finer unit |
| BigIntegerQuantities.Subtract | src/test/java/tech/units/indriya/quantity/BigIntegerQuantityTest.java:198-206 | `subtract` fails exactly for different dimensions; otherwise the result is in the finer unit |
| BigIntegerQuantities.LongValue | src/test/java/tech/units/indriya/quantity/BigIntegerQuantityTest.java:140-145 | `longValue(unit)` fails exactly for a target of another dimension; otherwise the result is in the long range |
| BigIntegerQuantities.ConvertByIntegerFactor | src/test/java/tech/units/indriya/quantity/BigIntegerQuantityTest.java:140-145 | converting into a unit that divides the source unit k times multiplies the magnitude by exactly k |
| BigIntegerQuantities.ConvertToSameUnit | src/test/java/tech/units/indriya/quantity/BigIntegerQuantityTest.java:173-179 | converting into the same unit changes nothing |
| BigIntegerQuantities.ConvertRoundTrip | src/test/java/tech/units/indriya/quantity/BigIntegerQuantityTest.java:154-164 | coarse to fine by a whole factor and back gives the magnitude back: days to hours to days |
| BigIntegerQuantities.ConvertNegates | src/test/java/tech/units/indriya/quantity/BigIntegerQuantityTest.java:205 | converting -m gives the negation of converting m |
| BigIntegerQuantities.FinerOfMultiple | src/test/java/tech/units/indriya/quantity/BigIntegerQuantityTest.java:187-192 | when one unit is a whole multiple of another, the other is the finer one, in either operand order |
| BigIntegerQuantities.MultiplyCommutes | src/test/java/tech/units/indriya/quantity/BigIntegerQuantityTest.java:66-71 | quantity products do not depend on order |
| BigIntegerQuantities.SquareOfQuantity | src/test/java/tech/units/indriya/quantity/BigIntegerQuantityTest.java:55-71 | q × q has the squared magnitude, a unit with doubled exponents, and a unit different from q's unless q is dimensionless |
| BigIntegerQuantities.DivideUndoesMultiply | src/test/java/tech/units/indriya/quantity/BigIntegerQuantityTest.java:86-91 | dividing a product of quantities by a non-zero factor gives back the other factor exactly |
| BigIntegerQuantities.DivideByUndoesTimes | src/test/java/tech/units/indriya/quantity/BigIntegerQuantityTest.java:76-100 | dividing by a non-zero number undoes multiplying by it |
| BigIntegerQuantities.DivideBySelf | src/test/java/tech/units/indriya/quantity/BigIntegerQuantityTest.java:86-91 | a non-zero quantity divided by itself is 1 in `ONE` |
| BigIntegerQuantities.MultiplyByInverse | src/test/java/tech/units/indriya/quantity/BigIntegerQuantityTest.java:105-120 | a quantity times its inverse is 1 in `ONE` for magnitude 1 or -1, and 0 in `ONE` otherwise |
| BigIntegerQuantities.InverseTwice | src/test/java/tech/units/indriya/quantity/BigIntegerQuantityTest.java:105-130 | inverting twice gives the quantity back for magnitude 1 or -1; otherwise the second inversion fails on the zero magnitude |
| BigIntegerQuantities.SameScaleSameUnit | src/test/java/tech/units/indriya/quantity/BigIntegerQuantityTest.java:173-179 | units of one dimension with one scale are equal |
| BigIntegerQuantities.FinerCommutes | src/test/java/tech/units/indriya/quantity/BigIntegerQuantityTest.java:193-194 | the finer unit does not depend on the operand order |
| BigIntegerQuantities.AddCommutes | src/test/java/tech/units/indriya/quantity/BigIntegerQuantityTest.java:193-194 | addition commutes, including across units and in the failure case |
| BigIntegerQuantities.SameUnit | src/test/java/tech/units/indriya/quantity/BigIntegerQuantityTest.java:173-179 | in a single unit, addition and subtraction act on the magnitudes alone |
| BigIntegerQuantities.SubtractIsAddNegated | src/test/java/tech/units/indriya/quantity/BigIntegerQuantityTest.java:198-206 | subtracting is adding the operand multiplied by -1 |
| BigIntegerQuantities.SubtractAntiCommutes | src/test/java/tech/units/indriya/quantity/BigIntegerQuantityTest.java:204-205 | swapping a subtraction's operands negates its result |
| BigIntegerQuantities.AddIsExact | src/test/java/tech/units/indriya/quantity/BigIntegerQuantityTest.java:181-196 | when the coarser unit is a whole multiple of the finer, the sum is in the finer unit and its physical value is the sum of the operands' physical values |
| BigIntegerQuantities.AddAcrossPrefixes | src/test/java/tech/units/indriya/quantity/BigIntegerQuantityTest.java:181-196 | x in u plus y in u prefixed by 10^e is x + y·10^e in u for e >= 0, and x·10^-e + y in the prefixed unit otherwise |
| BigIntegerQuantities.AddTruncatesAcrossNonWholeRatio | src/test/java/tech/units/indriya/quantity/BigIntegerQuantityTest.java:181-196 | the finer-unit rule on a non-whole scale ratio truncates the coarser operand: 1 m + 0 ft (0.3048 m) is 3 ft |
| BigIntegerQuantities.LongValueExact | src/test/java/tech/units/indriya/quantity/BigIntegerQuantityTest.java:140-145 | converting coarse to fine by a whole factor k and narrowing gives exactly m·k when that fits in a `long` |
| BigIntegerQuantities.LongValueWraps | src/test/java/tech/units/indriya/quantity/BigIntegerQuantityTest.java:140-145 | for a whole-factor conversion, `longValue` is exactly the Java `long` narrowing of m·k, for every magnitude, including those outside the long range |
| BigIntegerQuantities.ConvertByIntegerDivisor | src/test/java/tech/units/indriya/quantity/BigIntegerQuantityTest.java:140-145 | converting into a unit k times coarser gives the magnitude divided by k, truncated toward zero (`Quotient`) |
| BigIntegerQuantities.TruncatedFraction | src/test/java/tech/units/indriya/quantity/BigIntegerQuantityTest.java:140-145 | truncating the exact fraction m/k toward zero is `BigInteger.divide` of m by k |
| BigIntegerQuantities.LongValueTruncates | src/test/java/tech/units/indriya/quantity/BigIntegerQuantityTest.java:140-145 | reading a quantity in a unit k times coarser is the truncated quotient, narrowed to `long` |
| BigIntegerQuantities.HoursToDaysTruncates | src/test/java/tech/units/indriya/quantity/BigIntegerQuantityTest.java:140-145 | 73 h read as a `long` in days is 3 and -73 h is -3; 73 h to days and back is 72 h |
| BigIntegerQuantities.LongValueOverflow | src/test/java/tech/units/indriya/quantity/BigIntegerQuantityTest.java:140-145 | Long.MAX_VALUE + 1 seconds read as a `long` in seconds is Long.MIN_VALUE: the value wraps rather than failing or saturating |
| BigIntegerQuantityScenarios.QuantityMultiplication | src/test/java/tech/units/indriya/quantity/BigIntegerQuantityTest.java:55-71 | 2 Ω × 2 Ω = 4 Ω², where Ω² has mass exponent 2 and current exponent -4 and differs from Ω |
| BigIntegerQuantityScenarios.NumberMultiplication | src/test/java/tech/units/indriya/quantity/BigIntegerQuantityTest.java:76-81 | 2 Ω × 2 = 4 Ω |
| BigIntegerQuantityScenarios.QuantityDivision | src/test/java/tech/units/indriya/quantity/BigIntegerQuantityTest.java:86-91 | 2 Ω ÷ 2 Ω = 1 in `ONE` |
| BigIntegerQuantityScenarios.NumberDivision | src/test/java/tech/units/indriya/quantity/BigIntegerQuantityTest.java:96-100 | 2 Ω ÷ 2 = 1 Ω |
| BigIntegerQuantityScenarios.Inversion | src/test/java/tech/units/indriya/quantity/BigIntegerQuantityTest.java:105-130 | 1 Ω inverts to 1 Ω⁻¹, 2 Ω to 0 Ω⁻¹, and 0 Ω fails with a division by zero |
| BigIntegerQuantityScenarios.DaysInHours | src/test/java/tech/units/indriya/quantity/BigIntegerQuantityTest.java:140-145 | 3 days as a `long` in hours is 72, and 72 hours as a `long` in days is 3 |
| BigIntegerQuantityScenarios.AdditionSameUnits | src/test/java/tech/units/indriya/quantity/BigIntegerQuantityTest.java:173-179 | 1 Ω + 2 Ω = 3 Ω |
| BigIntegerQuantityScenarios.AdditionConvertsToLowestPrefix | src/test/java/tech/units/indriya/quantity/BigIntegerQuantityTest.java:181-196 | for every prefix exponent e, 1 Ω + 1 (10^e Ω), in either order, is 10^e + 1 Ω when e > 0 and 10^-e + 1 in the prefixed unit otherwise |
| BigIntegerQuantityScenarios.Subtraction | src/test/java/tech/units/indriya/quantity/BigIntegerQuantityTest.java:198-206 | 1 Ω - 1001 mΩ = -1 mΩ, and (1001 mΩ - 1 Ω) × (-1) = -1 mΩ |

## Left out

- `doubleValue` and the `to` conversion through `Quantities.getQuantity(1D, …)` (BigIntegerQuantityTest.java lines 147-164) work on `double`, which is floating point. Their day↔hour round trip is stated over integers instead (`ConvertRoundTrip`, `DaysInHours`).
- `isBig()` always answers true for this class. It is a constant marker with no behaviour to model.
- `testEquality` depends on the `Quantities.getQuantity` factory and on boxing `Long`. Neither is part of this model. Quantity equality here is datatype equality on magnitude and unit.
- Service-provider discovery and formatter lookup (`FormatServiceTest.java`) depend on which providers are registered at run time. The provider registry is not part of this model.
- Unit symbols, names, formatting and parsing are not modelled. Units are compared by dimension and scale.
- The `MetricPrefix` enumeration is not listed. A prefix is its base-10 exponent, and the prefix example is proved for every integer exponent.
- Units with additive offsets (such as °C) and non-linear converters are not modelled. Every unit here is a pure scale of its system unit.
- Java's compile-time dimension tags (`Quantity<Q>`) become a run-time dimension check with a `Failure(IncommensurableUnits)` result.
- BigIntegerQuantities.Add: when the two scales are not whole multiples of each other, the coarser operand is truncated toward zero on conversion into the finer unit, so the sum can lose precision (`AddTruncatesAcrossNonWholeRatio`); the exactness lemma `AddIsExact` holds only for whole ratios.
- BigIntegerQuantities.Subtract: as for `Add`, the coarser operand is truncated toward zero when the scales are not whole multiples of each other, so the difference can lose precision.
- BigIntegerQuantities.Convert: has no contract of its own. It is stated through `ConvertByIntegerFactor`, `ConvertByIntegerDivisor`, `ConvertRoundTrip` and `ConvertNegates`. Any conversion that does not land on a whole number (fine into coarse, or between scales that are not whole multiples of each other) is assumed to truncate toward zero like `BigInteger.divide`, because the implementation's converter arithmetic is not part of this model.
- BigIntegerQuantities.LongValue: reading a value in a coarser unit drops the remainder (73 h is 3 days), by the same truncation assumption; `LongValueTruncates` states it for whole ratios.
