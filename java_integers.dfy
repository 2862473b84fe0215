/** Integer operations with the semantics of java.math.BigInteger and of the
    primitive `long`, written out explicitly because Dafny's `/` and `%` on
    `int` are Euclidean and Dafny's integers never overflow. */
module JavaIntegers {

  const LONG_MIN: int := -0x8000_0000_0000_0000
  const LONG_MAX: int := 0x7FFF_FFFF_FFFF_FFFF
  const TWO_TO_64: int := 0x1_0000_0000_0000_0000

  function Abs(x: int): nat {
    if x < 0 then -x else x
  }

  /** `BigInteger.divide`: the quotient rounded toward zero. The remainder it
      leaves is smaller than the divisor and, when non-zero, has the sign of the
      dividend. A zero divisor is the caller's ArithmeticException. */
  function Quotient(a: int, b: int): (q: int)
    requires b != 0
    ensures Abs(a - q * b) < Abs(b)
    ensures a - q * b == 0 || (a - q * b < 0 <==> a < 0)
    ensures Abs(q) * Abs(b) <= Abs(a)
  {
    var m := Abs(a) / Abs(b);
    var q := if (a < 0) == (b < 0) then m else -m;
    QuotientOfMagnitudes(a, b, m);
    SignedQuotient(a, b, m, q);
    q
  }

  /** Euclidean division of the magnitudes leaves a remainder below the divisor. */
  lemma QuotientOfMagnitudes(a: int, b: int, m: int)
    requires b != 0 && m == Abs(a) / Abs(b)
    ensures m >= 0
    ensures m * Abs(b) <= Abs(a) < (m + 1) * Abs(b)
  {
    var A, B := Abs(a), Abs(b);
    var r := A % B;
    assert A == m * B + r && 0 <= r < B;
    assert (m + 1) * B == m * B + B;
  }

  /** Giving the quotient of the magnitudes the sign of a over b. */
  lemma SignedQuotient(a: int, b: int, m: int, q: int)
    requires b != 0 && m >= 0 && q == if (a < 0) == (b < 0) then m else -m
    ensures q * b == if a < 0 then -(m * Abs(b)) else m * Abs(b)
    ensures Abs(q) == m
  {
    var B: int := Abs(b);
    if a < 0 && b < 0 {
      assert q * b == m * -B == -(m * B);
    } else if a < 0 {
      assert q * b == -m * B == -(m * B);
    } else if b < 0 {
      assert q * b == -m * -B == m * B;
    }
  }

  /** Quotient agrees with Euclidean division when nothing is negative... */
  lemma {:induction false} QuotientOfNaturals(a: nat, b: nat)
    requires b > 0
    ensures Quotient(a, b) == a / b
  {
    var q := Quotient(a, b);
    assert 0 <= a - q * b < b;
    assert q == a / b by {
      var r := a - q * b;
      assert a == q * b + r;
    }
  }

  /** ...but not for a negative dividend: BigInteger gives -7 / 2 = -3, while
      Dafny's Euclidean division gives -4. */
  lemma QuotientTruncatesTowardZero()
    ensures Quotient(-7, 2) == -3 && -7 / 2 == -4
    ensures Quotient(7, -2) == -3 && Quotient(-7, -2) == 3
  {
    assert Quotient(-7, 2) == -(Abs(-7) / Abs(2));
    assert Quotient(7, -2) == -(Abs(7) / Abs(-2));
  }

  /** An exact division undoes the multiplication it divides by. */
  lemma {:induction false} QuotientOfProduct(a: int, b: int)
    requires b != 0
    ensures Quotient(a * b, b) == a
  {
    var n := a * b;
    ExactQuotient(n, b, a, Quotient(n, b));
  }

  /** A quotient leaving a remainder smaller than the divisor is the exact one. */
  lemma ExactQuotient(n: int, b: int, a: int, q: int)
    requires b != 0 && n == a * b && Abs(n - q * b) < Abs(b)
    ensures q == a
  {
    var d := a - q;
    assert n - q * b == d * b;
    AbsOfProduct(d, b);
    SmallMultiple(Abs(d), Abs(b));
  }

  /** The only multiple of y smaller than y is the zeroth one. */
  lemma SmallMultiple(x: nat, y: nat)
    requires y > 0 && x * y < y
    ensures x == 0
  {
    AtLeastOnce(x, y);
  }

  lemma AbsOfProduct(x: int, y: int)
    ensures Abs(x * y) == Abs(x) * Abs(y)
  {
    if x < 0 && y < 0 {
      assert x * y == (-x) * (-y);
    } else if x < 0 {
      assert -(x * y) == (-x) * y;
    } else if y < 0 {
      assert -(x * y) == x * (-y);
    }
  }

  /** A non-zero multiplier does not make a natural smaller. */
  lemma AtLeastOnce(x: nat, y: nat)
    ensures x >= 1 ==> x * y >= y
  {
    if x >= 1 {
      assert x * y == (x - 1) * y + y;
    }
  }

  /** The reciprocal of an integer, truncated: 1 and -1 are their own
      reciprocals, every other non-zero integer has reciprocal 0. */
  lemma {:induction false} QuotientOfOne(m: int)
    requires m != 0
    ensures Quotient(1, m) == if m == 1 || m == -1 then m else 0
  {
    var q := Quotient(1, m);
    AtLeastOnce(Abs(q), Abs(m));
    if Abs(m) == 1 {
      assert Abs(1 - q * m) < 1;
    }
  }

  /** Java's narrowing of an integer to `long` (`BigInteger.longValue`): the low
      64 bits, read as a two's-complement number. */
  function ToLong(x: int): (r: int)
    ensures LONG_MIN <= r <= LONG_MAX
    ensures (r - x) % TWO_TO_64 == 0
    ensures LONG_MIN <= x <= LONG_MAX ==> r == x
  {
    var low := (x - LONG_MIN) % TWO_TO_64;
    assert x - LONG_MIN == ((x - LONG_MIN) / TWO_TO_64) * TWO_TO_64 + low;
    low + LONG_MIN
  }
}
