/** Physical dimensions, as products of integer powers of the SI base
    dimensions: resistance is M·L²·T⁻³·I⁻², and so on. Two units can be
    converted into each other, added or subtracted exactly when their
    dimensions are equal. */
module Dimensions {

  datatype BaseDimension =
    | Length
    | Mass
    | Time
    | ElectricCurrent
    | Temperature
    | AmountOfSubstance
    | LuminousIntensity

  /** A dimension maps each base dimension to its exponent. A base dimension
      with exponent zero is absent from the map, so that two dimensions with
      the same exponents are the same map. */
  type Dimension = d: map<BaseDimension, int> | forall b :: b in d ==> d[b] != 0

  /** The dimension of pure numbers. */
  const NONE: Dimension := map[]

  function Exponent(d: Dimension, b: BaseDimension): int {
    if b in d then d[b] else 0
  }

  /** A dimension is determined by its exponents. */
  lemma {:induction false} Extensionality(d: Dimension, e: Dimension)
    requires forall b :: Exponent(d, b) == Exponent(e, b)
    ensures d == e
  {
    forall b ensures b in d <==> b in e {
      assert Exponent(d, b) == Exponent(e, b);
    }
    assert d.Keys == e.Keys;
    forall b | b in d ensures d[b] == e[b] {
      assert Exponent(d, b) == Exponent(e, b);
    }
  }

  /** The dimension of a product of units: exponents add. */
  function Product(d: Dimension, e: Dimension): (r: Dimension)
    ensures forall b :: Exponent(r, b) == Exponent(d, b) + Exponent(e, b)
  {
    map b | b in d.Keys + e.Keys && Exponent(d, b) + Exponent(e, b) != 0 :: Exponent(d, b) + Exponent(e, b)
  }

  /** The dimension of an inverse unit: exponents change sign. */
  function Inverse(d: Dimension): (r: Dimension)
    ensures forall b :: Exponent(r, b) == -Exponent(d, b)
  {
    map b | b in d :: -d[b]
  }

  /** The dimension of a quotient of units: exponents subtract. */
  function Quotient(d: Dimension, e: Dimension): (r: Dimension)
    ensures forall b :: Exponent(r, b) == Exponent(d, b) - Exponent(e, b)
  {
    Product(d, Inverse(e))
  }

  lemma {:induction false} ProductCommutes(d: Dimension, e: Dimension)
    ensures Product(d, e) == Product(e, d)
  {
    Extensionality(Product(d, e), Product(e, d));
  }

  lemma {:induction false} ProductAssociates(d: Dimension, e: Dimension, f: Dimension)
    ensures Product(Product(d, e), f) == Product(d, Product(e, f))
  {
    Extensionality(Product(Product(d, e), f), Product(d, Product(e, f)));
  }

  lemma {:induction false} ProductWithNone(d: Dimension)
    ensures Product(d, NONE) == d && Product(NONE, d) == d
  {
    Extensionality(Product(d, NONE), d);
    Extensionality(Product(NONE, d), d);
  }

  /** A dimension times its inverse is dimensionless; in particular a
      dimension divided by itself is. */
  lemma {:induction false} QuotientBySelf(d: Dimension)
    ensures Product(d, Inverse(d)) == NONE
    ensures Quotient(d, d) == NONE
  {
    Extensionality(Product(d, Inverse(d)), NONE);
  }

  lemma {:induction false} InverseInvolutive(d: Dimension)
    ensures Inverse(Inverse(d)) == d
  {
    Extensionality(Inverse(Inverse(d)), d);
  }

  lemma {:induction false} InverseOfProduct(d: Dimension, e: Dimension)
    ensures Inverse(Product(d, e)) == Product(Inverse(d), Inverse(e))
  {
    Extensionality(Inverse(Product(d, e)), Product(Inverse(d), Inverse(e)));
  }

  /** Dividing a product by one of its factors gives back the other factor. */
  lemma {:induction false} QuotientOfProduct(d: Dimension, e: Dimension)
    ensures Quotient(Product(d, e), e) == d
  {
    Extensionality(Quotient(Product(d, e), e), d);
  }

  /** Squaring a unit doubles every exponent of its dimension (Ω·Ω has twice
      the exponents of Ω), which changes every dimension except NONE. */
  lemma {:induction false} SquareDoublesExponents(d: Dimension)
    ensures forall b :: Exponent(Product(d, d), b) == 2 * Exponent(d, b)
    ensures Product(d, d) == d <==> d == NONE
  {
    if Product(d, d) == d {
      forall b ensures Exponent(d, b) == 0 {
        assert Exponent(Product(d, d), b) == Exponent(d, b);
      }
      Extensionality(d, NONE);
    } else {
      ProductWithNone(d);
    }
  }
}
