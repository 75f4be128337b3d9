/** Integer arithmetic as boost/rational.hpp sees it: truncating division, and the greatest common divisor. */
module Integers {

  function Abs(x: int): (r: nat) {
    if x < 0 then -x else x
  }

  function Max(x: nat, y: nat): (r: nat)
    ensures r == x || r == y
    ensures x <= r && y <= r
  {
    if x < y then y else x
  }

  /** C++ `a / b`: truncates toward zero. */
  function Quot(a: int, b: int): (q: int)
    requires b != 0
  {
    if a < 0 then -(-a / b) else a / b
  }

  /** C++ `a % b`: takes the sign of the dividend. */
  function Rem(a: int, b: int): (r: int)
    requires b != 0
  {
    if a < 0 then -(-a % b) else a % b
  }

  lemma {:induction false} QuotRem(a: int, b: int)
    requires b != 0
    ensures a == Quot(a, b) * b + Rem(a, b)
    ensures Abs(Rem(a, b)) < Abs(b)
    ensures a >= 0 ==> Rem(a, b) >= 0
    ensures a <= 0 ==> Rem(a, b) <= 0
  {
  }

  /** Dividing exactly. */
  lemma {:induction false} QuotExact(a: int, b: int, k: int)
    requires b != 0 && a == k * b
    ensures Quot(a, b) == k
  {
    QuotRem(a, b);
    MulSmall(k - Quot(a, b), b, Rem(a, b));
  }

  /** A multiple of b smaller than b is zero. */
  lemma {:induction false} MulSmall(k: int, b: int, r: int)
    requires k * b == r && Abs(r) < Abs(b)
    ensures k == 0
  {
    MulAbs(k, b);
    MulGrows(Abs(k), Abs(b));
  }

  lemma {:induction false} MulAbs(x: int, y: int)
    ensures Abs(x * y) == Abs(x) * Abs(y)
  {
    if x >= 0 {
      MulSign(x, y);
    } else {
      MulSign(-x, y);
      assert x * y == -(-x * y);
    }
  }

  lemma {:induction false} MulSign(x: nat, y: int)
    ensures y >= 0 ==> x * y >= 0
    ensures y <= 0 ==> x * y <= 0
    ensures x * -y == -(x * y)
  {
  }

  lemma {:induction false} MulGrows(x: nat, y: nat)
    ensures x > 0 ==> x * y >= y
  {
    if x > 0 {
      assert x * y == y + (x - 1) * y;
    }
  }

  lemma {:induction false} MulZero(x: int, y: int)
    requires x * y == 0 && y != 0
    ensures x == 0
  {
    MulSmall(x, y, 0);
  }

  /** A positive multiple of a positive number is no smaller, and the factor is positive. */
  lemma {:induction false} MulPositive(x: int, y: int)
    requires x * y > 0 && y > 0
    ensures 0 < x <= x * y && y <= x * y
  {
    MulGrows(x, y);
    MulGrows(y, x);
    assert x * y == y * x;
  }

  // ----- greatest common divisor -----

  function Euclid(a: nat, b: nat): (g: nat)
    decreases b
  {
    if b == 0 then a else Euclid(b, a % b)
  }

  /** integer::gcd: the non-negative greatest common divisor. */
  function Gcd(a: int, b: int): (g: nat) {
    Euclid(Abs(a), Abs(b))
  }

  function Combine(a: int, x: int, b: int, y: int): int {
    a * x + b * y
  }

  ghost predicate Coprime(a: int, b: int) {
    Gcd(a, b) == 1
  }

  lemma {:induction false} EuclidDivides(a: nat, b: nat) returns (p: nat, q: nat)
    ensures a == p * Euclid(a, b) && b == q * Euclid(a, b)
    decreases b
  {
    if b == 0 {
      p, q := 1, 0;
    } else {
      var p', q' := EuclidDivides(b, a % b);
      p, q := p' * (a / b) + q', p';
      Factor2(p', a / b, q', Euclid(a, b));
      assert a == b * (a / b) + a % b;
    }
  }

  lemma {:induction false} Factor2(p: int, k: int, q: int, g: int)
    ensures (p * k + q) * g == (p * g) * k + q * g
  {
  }

  lemma {:induction false} EuclidBezout(a: nat, b: nat) returns (x: int, y: int)
    ensures Combine(a, x, b, y) == Euclid(a, b)
    decreases b
  {
    if b == 0 {
      x, y := 1, 0;
    } else {
      var x', y' := EuclidBezout(b, a % b);
      x, y := y', x' - (a / b) * y';
      assert a == b * (a / b) + a % b;
      BezoutStep(b, a / b, a % b, x', y');
    }
  }

  lemma {:induction false} BezoutStep(b: int, k: int, r: int, x: int, y: int)
    ensures (b * k + r) * y + b * (x - k * y) == b * x + r * y
  {
  }

  /** The gcd divides both numbers; the cofactors carry their signs. */
  lemma {:induction false} GcdDivides(a: int, b: int) returns (p: int, q: int)
    ensures a == p * Gcd(a, b) && b == q * Gcd(a, b)
  {
    p, q := EuclidDivides(Abs(a), Abs(b));
    if a < 0 {
      assert -p * Gcd(a, b) == -(p * Gcd(a, b));
      p := -p;
    }
    if b < 0 {
      assert -q * Gcd(a, b) == -(q * Gcd(a, b));
      q := -q;
    }
  }

  lemma {:induction false} GcdBounds(a: int, b: int)
    ensures Gcd(a, b) == 0 <==> a == 0 && b == 0
    ensures a != 0 ==> Gcd(a, b) <= Abs(a)
    ensures b != 0 ==> Gcd(a, b) <= Abs(b)
  {
    var p, q := EuclidDivides(Abs(a), Abs(b));
    var g := Gcd(a, b);
    if g == 0 {
      assert p * g == 0 && q * g == 0;
    } else {
      MulGrows(p, g);
      MulGrows(q, g);
    }
  }

  lemma {:induction false} Bezout(a: int, b: int) returns (x: int, y: int)
    ensures Combine(a, x, b, y) == Gcd(a, b)
  {
    x, y := EuclidBezout(Abs(a), Abs(b));
    if a < 0 {
      assert -a * x == a * -x;
      x := -x;
    }
    if b < 0 {
      assert -b * y == b * -y;
      y := -y;
    }
  }

  lemma {:induction false} CombineFactor(p: int, q: int, d: int, x: int, y: int)
    ensures Combine(p * d, x, q * d, y) == Combine(p, x, q, y) * d
  {
  }

  /** A common divisor divides the gcd. */
  lemma {:induction false} GcdGreatest(a: int, b: int, d: int, p: int, q: int) returns (k: int)
    requires a == p * d && b == q * d
    ensures Gcd(a, b) == k * d
  {
    var x, y := Bezout(a, b);
    CombineFactor(p, q, d, x, y);
    k := Combine(p, x, q, y);
  }

  ghost predicate Divides(d: int, x: int) {
    exists k :: x == k * d
  }

  lemma {:induction false} DividesBy(d: int, x: int, k: int)
    requires x == k * d
    ensures Divides(d, x)
  {
  }

  /** Gcd is the greatest common divisor in the order of divisibility, and the only non-negative one. */
  lemma {:induction false} GcdIsGreatest(a: int, b: int, g: nat)
    ensures g == Gcd(a, b) <==>
              Divides(g, a) && Divides(g, b) && forall d :: Divides(d, a) && Divides(d, b) ==> Divides(d, g)
  {
    hide Gcd;
    var p, q := GcdDivides(a, b);
    DividesBy(Gcd(a, b), a, p);
    DividesBy(Gcd(a, b), b, q);
    forall d | Divides(d, a) && Divides(d, b) ensures Divides(d, Gcd(a, b)) {
      var i :| a == i * d;
      var j :| b == j * d;
      var k := GcdGreatest(a, b, d, i, j);
      DividesBy(d, Gcd(a, b), k);
    }
    if Divides(g, a) && Divides(g, b) && forall d :: Divides(d, a) && Divides(d, b) ==> Divides(d, g) {
      assert Divides(g, Gcd(a, b)) && Divides(Gcd(a, b), g);
      DivideEachOther(g, Gcd(a, b));
    }
  }

  lemma {:induction false} DivideEachOther(x: nat, y: nat)
    requires Divides(x, y) && Divides(y, x)
    ensures x == y
  {
    var i :| y == i * x;
    var j :| x == j * y;
    if x > 0 && y > 0 {
      MulPositive(i, x);
      MulPositive(j, y);
    }
  }

  // ----- coprimality -----

  lemma {:induction false} CoprimeFromBezout(a: int, b: int, x: int, y: int)
    requires Combine(a, x, b, y) == 1
    ensures Coprime(a, b)
  {
    var p, q := GcdDivides(a, b);
    CombineFactor(p, q, Gcd(a, b), x, y);
    UnitFactor(Combine(p, x, q, y), Gcd(a, b));
  }

  lemma {:induction false} UnitFactor(k: int, g: nat)
    requires k * g == 1
    ensures g == 1
  {
    if g > 0 {
      MulPositive(k, g);
    }
  }

  lemma {:induction false} CoprimeSymmetric(a: int, b: int)
    ensures Coprime(a, b) <==> Coprime(b, a)
  {
    if Coprime(a, b) {
      var x, y := Bezout(a, b);
      CoprimeFromBezout(b, a, y, x);
    }
    if Coprime(b, a) {
      var x, y := Bezout(b, a);
      CoprimeFromBezout(a, b, y, x);
    }
  }

  lemma {:induction false} GcdNegate(a: int, b: int)
    ensures Gcd(-a, b) == Gcd(a, b) == Gcd(a, -b)
  {
  }

  lemma {:induction false} CoprimeProduct(a: int, b: int, c: int)
    requires Coprime(a, b) && Coprime(a, c)
    ensures Coprime(a, b * c)
  {
    var x, y := Bezout(a, b);
    var u, v := Bezout(a, c);
    CombineProduct(a, b, c, x, y, u, v);
    CoprimeFromBezout(a, b * c, a * x * u + x * c * v + b * y * u, y * v);
  }

  lemma {:induction false} CombineProduct(a: int, b: int, c: int, x: int, y: int, u: int, v: int)
    ensures Combine(a, x, b, y) * Combine(a, u, c, v)
         == Combine(a, a * x * u + x * c * v + b * y * u, b * c, y * v)
  {
    var s, t := a * x, b * y;
    var m, n := a * u, c * v;
    assert (s + t) * (m + n) == s * m + s * n + t * m + t * n;
    assert s * m == a * (a * x * u);
    assert s * n == a * (x * c * v);
    assert t * m == a * (b * y * u);
    assert t * n == (b * c) * (y * v);
    var i, j, k := a * x * u, x * c * v, b * y * u;
    assert a * (i + j + k) == a * i + a * j + a * k;
  }

  lemma {:induction false} CoprimeDivisor(a: int, k: int, b: int)
    requires Coprime(a * k, b)
    ensures Coprime(a, b)
  {
    var x, y := Bezout(a * k, b);
    assert a * k * x == a * (k * x);
    CoprimeFromBezout(a, b, k * x, y);
  }

  lemma {:induction false} CoprimeShift(a: int, b: int, k: int)
    requires Coprime(a, b)
    ensures Coprime(a + k * b, b)
  {
    var x, y := Bezout(a, b);
    CombineShift(a, b, k, x, y);
    CoprimeFromBezout(a + k * b, b, x, y - k * x);
  }

  lemma {:induction false} CombineShift(a: int, b: int, k: int, x: int, y: int)
    ensures Combine(a + k * b, x, b, y - k * x) == Combine(a, x, b, y)
  {
  }

  /** Dividing both numbers by their gcd leaves coprime numbers. */
  lemma {:induction false} CoprimeCofactors(a: int, b: int, p: int, q: int)
    requires Gcd(a, b) > 0 && a == p * Gcd(a, b) && b == q * Gcd(a, b)
    ensures Coprime(p, q)
  {
    var x, y := Bezout(a, b);
    CombineFactor(p, q, Gcd(a, b), x, y);
    UnitCofactor(Combine(p, x, q, y), Gcd(a, b));
    CoprimeFromBezout(p, q, x, y);
  }

  lemma {:induction false} UnitCofactor(k: int, g: nat)
    requires k * g == g > 0
    ensures k == 1
  {
    assert (k - 1) * g == k * g - g;
    MulZero(k - 1, g);
  }

  /** Euclid's lemma. */
  lemma {:induction false} CoprimeCancels(a: int, b: int, c: int, k: int) returns (m: int)
    requires Coprime(a, b) && b * c == k * a
    ensures c == m * a
  {
    var x, y := Bezout(a, b);
    m := c * x + k * y;
    CombineCancel(a, b, c, x, y);
    Factor2(c, x, k * y, a);
    assert k * a * y == k * y * a;
  }

  lemma {:induction false} CombineCancel(a: int, b: int, c: int, x: int, y: int)
    ensures c * Combine(a, x, b, y) == (c * a) * x + (b * c) * y
  {
  }

  /** a / b in lowest terms with a positive denominator. */
  ghost predicate Lowest(n: int, d: int) {
    d > 0 && Coprime(n, d)
  }

  /** Lowest terms are unique. */
  lemma {:induction false} LowestUnique(n: int, d: int, n': int, d': int)
    requires Lowest(n, d) && Lowest(n', d') && n * d' == n' * d
    ensures n == n' && d == d'
  {
    CoprimeSymmetric(n, d);
    CoprimeSymmetric(n', d');
    var m := CoprimeCancels(d, n, d', n');
    var m' := CoprimeCancels(d', n', d, n);
    MulPositive(m, d);
    MulPositive(m', d');
    assert (n - n') * d == n * d - n' * d;
    MulZero(n - n', d);
  }
}
