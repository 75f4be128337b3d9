/** Facts about pairs of integers read as fractions, and the reductions behind the rational operators. */
module Fractions {
  import opened Integers

  function Real(n: int, d: int): real
    requires d != 0
  {
    n as real / d as real
  }

  lemma {:induction false} RealTimes(x: int, y: int)
    ensures (x * y) as real == x as real * y as real
  {
    if x >= 0 {
      RealTimesNat(x, y);
    } else {
      RealTimesNat(-x, y);
      assert x * y == -(-x * y);
    }
  }

  lemma {:induction false} RealTimesNat(x: nat, y: int)
    ensures (x * y) as real == x as real * y as real
  {
    if x > 0 {
      RealTimesNat(x - 1, y);
      assert x * y == (x - 1) * y + y;
    }
  }

  /** Comparing fractions with positive denominators is comparing cross products. */
  lemma {:induction false} RealCompare(n: int, d: int, n': int, d': int)
    requires d > 0 && d' > 0
    ensures Real(n, d) < Real(n', d') <==> n * d' < n' * d
    ensures Real(n, d) == Real(n', d') <==> n * d' == n' * d
  {
    var x, y := Real(n, d), Real(n', d');
    var u, v := d as real, d' as real;
    RealTimes(n, d');
    RealTimes(n', d);
    assert x * u == n as real && y * v == n' as real;
    assert n as real * v == x * (u * v) && n' as real * u == y * (u * v);
    RealScale(x, y, u * v);
  }

  lemma {:induction false} RealScale(x: real, y: real, w: real)
    requires w > 0.0
    ensures x < y <==> x * w < y * w
    ensures x == y <==> x * w == y * w
  {
  }

  /** Equal cross products, any signs. */
  lemma {:induction false} RealEqual(n: int, d: int, n': int, d': int)
    requires d != 0 && d' != 0 && n * d' == n' * d
    ensures Real(n, d) == Real(n', d')
  {
    RealTimes(n, d');
    RealTimes(n', d);
    RealCross(n as real, d as real, n' as real, d' as real);
  }

  lemma {:induction false} RealCross(n: real, d: real, n': real, d': real)
    requires d != 0.0 && d' != 0.0 && n * d' == n' * d
    ensures n / d == n' / d'
  {
    assert n == (n / d) * d && n' == (n' / d') * d';
    RealCancel(n / d, n' / d', d * d');
  }

  lemma {:induction false} RealCancel(x: real, y: real, w: real)
    requires w != 0.0 && x * w == y * w
    ensures x == y
  {
    assert (x - y) * w == 0.0;
  }

  lemma {:induction false} RealSum(a: int, b: int, c: int, d: int)
    requires b != 0 && d != 0
    ensures b * d != 0
    ensures Real(a, b) + Real(c, d) == Real(a * d + c * b, b * d)
  {
    NonZeroProduct(b, d);
    RealTimes(a, d);
    RealTimes(c, b);
    RealTimes(b, d);
    var x, y, u, v := Real(a, b), Real(c, d), b as real, d as real;
    assert a as real == x * u && c as real == y * v;
    assert x * u * v + y * v * u == (x + y) * (u * v);
    RealQuotient(x + y, u * v);
  }

  lemma {:induction false} RealProduct(a: int, b: int, c: int, d: int)
    requires b != 0 && d != 0
    ensures b * d != 0
    ensures Real(a, b) * Real(c, d) == Real(a * c, b * d)
  {
    NonZeroProduct(b, d);
    RealTimes(a, c);
    RealTimes(b, d);
    var x, y, u, v := Real(a, b), Real(c, d), b as real, d as real;
    assert a as real == x * u && c as real == y * v;
    assert (x * u) * (y * v) == (x * y) * (u * v);
    RealQuotient(x * y, u * v);
  }

  lemma {:induction false} RealQuotient(x: real, w: real)
    requires w != 0.0
    ensures (x * w) / w == x
  {
  }

  lemma {:induction false} NonZeroProduct(x: int, y: int)
    requires x != 0 && y != 0
    ensures x * y != 0
  {
    if x * y == 0 {
      MulZero(x, y);
    }
  }

  // ----- reductions -----

  /** The argument in the header's comment: with g = gcd(b, d), b = b1 g and d = d1 g, the numerator
      a d1 + c b1 can share a factor with the denominator b1 d1 g only inside g. */
  lemma {:induction false} SumReduced(a: int, b: int, c: int, d: int, b1: int, d1: int,
                                      g2: nat, num: int, h: int)
    requires Lowest(a, b) && Lowest(c, d)
    requires b == b1 * Gcd(b, d) && d == d1 * Gcd(b, d)
    requires g2 == Gcd(a * d1 + c * b1, Gcd(b, d)) > 0
    requires a * d1 + c * b1 == num * g2 && Gcd(b, d) == h * g2
    ensures Lowest(num, b1 * (d1 * h))
    ensures num * (b * d) == (a * d + c * b) * (b1 * (d1 * h))
  {
    var g := Gcd(b, d);
    GcdBounds(b, d);
    MulPositive(b1, g);
    MulPositive(d1, g);
    MulPositive(h, g2);
    SumCoprime(a, b, c, d, b1, d1, num, g2);
    CoprimeCofactors(a * d1 + c * b1, g, num, h);
    CoprimeProduct(num, d1, h);
    CoprimeProduct(num, b1, d1 * h);
    PositiveProduct(d1, h);
    PositiveProduct(b1, d1 * h);
    SumExact(a, c, b1, d1, g2, num, h);
  }

  lemma {:induction false} PositiveProduct(x: int, y: int)
    requires x > 0 && y > 0
    ensures x * y > 0
  {
  }

  /** The sum's numerator shares nothing with either cofactor of the denominators. */
  lemma {:induction false} SumCoprime(a: int, b: int, c: int, d: int, b1: int, d1: int, num: int, g2: int)
    requires Lowest(a, b) && Lowest(c, d) && Gcd(b, d) > 0
    requires b == b1 * Gcd(b, d) && d == d1 * Gcd(b, d)
    requires a * d1 + c * b1 == num * g2
    ensures Coprime(num, b1) && Coprime(num, d1)
  {
    CoprimeCofactors(b, d, b1, d1);
    CoprimeSymmetric(b1, d1);
    CoprimeTerm(a, b, b1, Gcd(b, d), d1);
    CoprimeShift(a * d1, b1, c);
    CoprimeDivisor(num, g2, b1);
    CoprimeTerm(c, d, d1, Gcd(b, d), b1);
    CoprimeShift(c * b1, d1, a);
    CoprimeDivisor(num, g2, d1);
  }

  lemma {:induction false} CoprimeTerm(a: int, b: int, b1: int, g: int, d1: int)
    requires Coprime(a, b) && b == b1 * g && Coprime(b1, d1)
    ensures Coprime(a * d1, b1)
  {
    CoprimeSymmetric(a, b);
    CoprimeDivisor(b1, g, a);
    CoprimeProduct(b1, a, d1);
    CoprimeSymmetric(b1, a * d1);
  }

  lemma {:induction false} SumExact(a: int, c: int, b1: int, d1: int, g2: int, num: int, h: int)
    requires a * d1 + c * b1 == num * g2
    ensures var b, d := b1 * (h * g2), d1 * (h * g2);
      num * (b * d) == (a * d + c * b) * (b1 * (d1 * h))
  {
    var b, d := b1 * (h * g2), d1 * (h * g2);
    var m := b1 * (d1 * h);
    calc {
      (a * d + c * b) * m;
      { assert a * d == a * d1 * (h * g2) && c * b == c * b1 * (h * g2); }
      (a * d1 * (h * g2) + c * b1 * (h * g2)) * m;
      ((a * d1 + c * b1) * (h * g2)) * m;
      (num * g2 * (h * g2)) * m;
      { ProductShuffle(num, g2, h, b1, d1); }
      num * (b * d);
    }
  }

  lemma {:induction false} ProductShuffle(num: int, g: int, h: int, b: int, d: int)
    ensures (num * g * (h * g)) * (b * (d * h)) == num * ((b * (h * g)) * (d * (h * g)))
  {
  }

  /** Cross-reduction of a product: a = a1 g1, d = d1 g1, c = c1 g2, b = b1 g2. */
  lemma {:induction false} ProductReduced(a: int, b: int, c: int, d: int,
                                          a1: int, d1: int, c1: int, b1: int)
    requires b != 0 && d != 0 && Coprime(a, b) && Coprime(c, d)
    requires Gcd(a, d) > 0 && a == a1 * Gcd(a, d) && d == d1 * Gcd(a, d)
    requires Gcd(c, b) > 0 && c == c1 * Gcd(c, b) && b == b1 * Gcd(c, b)
    ensures Coprime(a1 * c1, b1 * d1)
    ensures b1 * d1 != 0
    ensures (a1 * c1) * (b * d) == (a * c) * (b1 * d1)
  {
    var g1, g2 := Gcd(a, d), Gcd(c, b);
    CoprimeCofactors(a, d, a1, d1);
    CoprimeCofactors(c, b, c1, b1);
    // a1 with b1, and c1 with d1, inherit it from the operands
    CoprimeDivisor(a1, g1, b);
    CoprimeSymmetric(a1, b);
    CoprimeDivisor(b1, g2, a1);
    CoprimeSymmetric(b1, a1);
    CoprimeDivisor(c1, g2, d);
    CoprimeSymmetric(c1, d);
    CoprimeDivisor(d1, g1, c1);
    CoprimeSymmetric(d1, c1);
    CoprimeProduct(a1, b1, d1);
    CoprimeProduct(c1, b1, d1);
    CoprimeSymmetric(a1, b1 * d1);
    CoprimeSymmetric(c1, b1 * d1);
    CoprimeProduct(b1 * d1, a1, c1);
    CoprimeSymmetric(b1 * d1, a1 * c1);
    NonZeroFactor(b1, g2);
    NonZeroFactor(d1, g1);
    NonZeroProduct(b1, d1);
    CrossShuffle(a1, c1, b1, d1, g1, g2);
  }

  lemma {:induction false} NonZeroFactor(x: int, y: int)
    requires x * y != 0
    ensures x != 0
  {
  }

  lemma {:induction false} CrossShuffle(a: int, c: int, b: int, d: int, g: int, h: int)
    ensures (a * c) * ((b * h) * (d * g)) == ((a * g) * (c * h)) * (b * d)
  {
  }

  // ----- continued fractions -----

  /** Different integer parts decide the order of two fractions. */
  lemma {:induction false} QuotientDecides(n: int, d: int, q: int, r: int, n': int, d': int, q': int, r': int)
    requires n == q * d + r && 0 <= r < d && n' == q' * d' + r' && 0 <= r' < d'
    requires q < q'
    ensures n * d' < n' * d
  {
    ScaleLess(n, (q + 1) * d, d');
    ScaleLessEqual((q + 1) * d, q' * d, d');
    ScaleLessEqual(q' * d', n', d);
    assert (q + 1) * d == q * d + d;
    GapGrows(q, q', d);
    assert q' * d * d' == q' * d' * d;
  }

  lemma {:induction false} GapGrows(q: int, q': int, d: int)
    requires q < q' && d > 0
    ensures (q + 1) * d <= q' * d
  {
    ScaleLessEqual(q + 1, q', d);
  }

  lemma {:induction false} ScaleLess(x: int, y: int, w: int)
    requires x < y && w > 0
    ensures x * w < y * w
  {
    MulGrows(w, y - x);
    assert w * (y - x) == y * w - x * w;
  }

  lemma {:induction false} ScaleLessEqual(x: int, y: int, w: int)
    requires x <= y && w > 0
    ensures x * w <= y * w
  {
    if x < y {
      ScaleLess(x, y, w);
    }
  }

  /** With equal integer parts the fractional parts decide. */
  lemma {:induction false} RemainderDecides(q: int, d: int, r: int, d': int, r': int)
    ensures (q * d + r) * d' - (q * d' + r') * d == r * d' - r' * d
  {
  }
}
