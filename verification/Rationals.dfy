/** boost::rational over an integer type without a width: its state is always a fraction in lowest terms. */
module Rationals {
  import opened Integers
  import opened Fractions

  datatype Outcome = Done | BadRational

  /** The least value of the component type, if it has one: in two's complement it is its own negation. */
  datatype Least = Unbounded | Least(value: int)

  /** Unary minus in the component type. */
  function Negation(x: int, least: Least): int {
    if least == Least(x) then x else -x
  }

  class Rational {
    var num: int
    var den: int

    /** test_invariant */
    ghost predicate Valid()
      reads this
    {
      Lowest(num, den)
    }

    /** The rational number this object stands for. */
    ghost function Value(): real
      requires den != 0
      reads this
    {
      Real(num, den)
    }

    constructor Whole(n: int)
      ensures Valid() && Value() == n as real
      ensures num == n && den == 1
    {
      num, den := n, 1;
      new;
      CoprimeFromBezout(n, 1, 0, 1);
    }

    /** The fields as given, not yet in lowest terms. */
    constructor Raw(n: int, d: int)
      ensures num == n && den == d
    {
      num, den := n, d;
    }

    /** The two-argument constructor; null stands for the exception. */
    static method New(n: int, d: int, least: Least) returns (r: Rational?)
      requires least.Least? ==> least.value < 0
      ensures r == null <==> d == 0 || SingularDenominator(n, d, least)
      ensures r != null ==> fresh(r) && r.Valid()
      ensures r != null ==> (r.Value() == Real(n, d) <==> !SingularNumerator(n, d, least))
    {
      var t := new Rational.Raw(n, d);
      var outcome := t.Normalize(least);
      r := if outcome == Done then t else null;
    }

    /** Throws exactly for a zero denominator and for one that is still negative after reduction and negation.
        Otherwise it reaches lowest terms, and keeps the value exactly when the numerator can be negated. */
    method Normalize(least: Least) returns (outcome: Outcome)
      requires least.Least? ==> least.value < 0
      modifies this
      ensures outcome == BadRational <==> old(den) == 0 || SingularDenominator(old(num), old(den), least)
      ensures old(den) == 0 ==> unchanged(this)
      ensures outcome == Done ==> Valid()
      ensures outcome == Done ==>
                (Value() == Real(old(num), old(den)) <==> !SingularNumerator(old(num), old(den), least))
    {
      if den == 0 {
        return BadRational;
      }
      if num == 0 {
        ZeroReduced(den);
        den := 1;
        return Done;
      }
      NormalizeCorrect(num, den);
      var g := Gcd(num, den);
      ReducedSign(num, den);
      num := Quot(num, g);
      den := Quot(den, g);
      if den < 0 {
        FlipSigns(num, den);
        FlipDenominator(num, den);
        num := Negation(num, least);
        den := Negation(den, least);
      }
      if den < 0 {
        return BadRational;
      }
      outcome := Done;
    }

    /** operator+= on another fraction, which may be this one. */
    method PlusAssign(r: Rational)
      requires Valid() && r.Valid()
      modifies this
      ensures Valid() && Value() == old(Value()) + old(r.Value())
    {
      SumCorrect(num, den, r.num, r.den);
      var rNum := r.num;
      var rDen := r.den;
      var g := Gcd(den, rDen);
      den := Quot(den, g);
      num := num * Quot(rDen, g) + rNum * den;
      g := Gcd(num, g);
      num := Quot(num, g);
      den := den * Quot(rDen, g);
    }

    method MinusAssign(r: Rational)
      requires Valid() && r.Valid()
      modifies this
      ensures Valid() && Value() == old(Value()) - old(r.Value())
    {
      DifferenceCorrect(num, den, r.num, r.den);
      var rNum := r.num;
      var rDen := r.den;
      var g := Gcd(den, rDen);
      den := Quot(den, g);
      num := num * Quot(rDen, g) - rNum * den;
      g := Gcd(num, g);
      num := Quot(num, g);
      den := den * Quot(rDen, g);
    }

    /** operator*=. `peak` is the largest magnitude of anything computed on the way. */
    method TimesAssign(r: Rational) returns (ghost peak: nat)
      requires Valid() && r.Valid()
      modifies this
      ensures Valid() && Value() == old(Value()) * old(r.Value())
      ensures peak <= Max(Widest(old(num), old(den), old(r.num), old(r.den)), Widest(num, den, 0, 0))
    {
      hide Real, Quot, Gcd, Widest, Max;
      ProductCorrect(num, den, r.num, r.den);
      var rNum := r.num;
      var rDen := r.den;
      var gcd1 := Gcd(num, rDen);
      var gcd2 := Gcd(rNum, den);
      peak := Max(Widest(gcd1, gcd2, Quot(num, gcd1), Quot(rNum, gcd2)),
                  Widest(Quot(den, gcd2), Quot(rDen, gcd1), 0, 0));
      ghost var bound := Widest(num, den, r.num, r.den);
      num := Quot(num, gcd1) * Quot(rNum, gcd2);
      den := Quot(den, gcd2) * Quot(rDen, gcd1);
      MaxMonotone(peak, bound, Widest(num, den, 0, 0));
      peak := Max(peak, Widest(num, den, 0, 0));
    }

    /** operator/=, which refuses a zero divisor. */
    method DivideAssign(r: Rational) returns (outcome: Outcome, ghost peak: nat)
      requires Valid() && r.Valid()
      modifies this
      ensures outcome == BadRational <==> old(r.num) == 0
      ensures outcome == BadRational ==> unchanged(this)
      ensures outcome == Done ==> Valid() && old(r.Value()) != 0.0 && Value() == old(Value()) / old(r.Value())
      ensures peak <= Max(Widest(old(num), old(den), old(r.num), old(r.den)), Widest(num, den, 0, 0))
    {
      var rNum := r.num;
      var rDen := r.den;
      peak := 0;
      if rNum == 0 {
        return BadRational, peak;
      }
      QuotientCorrect(num, den, rNum, rDen);
      if num == 0 {
        return Done, peak;
      }
      var gcd1 := Gcd(num, rNum);
      var gcd2 := Gcd(rDen, den);
      peak := Max(Widest(gcd1, gcd2, Quot(num, gcd1), Quot(rDen, gcd2)),
                  Widest(Quot(den, gcd2), Quot(rNum, gcd1), 0, 0));
      num := Quot(num, gcd1) * Quot(rDen, gcd2);
      den := Quot(den, gcd2) * Quot(rNum, gcd1);
      peak := Max(peak, Widest(num, den, 0, 0));
      if den < 0 {
        FlipSigns(num, den);
        num := -num;
        den := -den;
      }
      outcome := Done;
    }

    /** operator-: builds the negated fraction through the normalising constructor. */
    method Negate() returns (r: Rational)
      requires Valid()
      ensures fresh(r) && r.Valid() && r.Value() == -Value() && r.num == -num && r.den == den
    {
      var t := New(-num, den, Unbounded);
      r := t;
      RealNegate(num, den);
      GcdNegate(num, den);
      FieldsDecideValue(r.num, r.den, -num, den);
    }

    // ----- with integers -----

    method Increment()
      requires Valid()
      modifies this
      ensures Valid() && Value() == old(Value()) + 1.0
    {
      CoprimeShift(num, den, 1);
      RealSum(num, den, 1, 1);
      num := num + den;
    }

    method Decrement()
      requires Valid()
      modifies this
      ensures Valid() && Value() == old(Value()) - 1.0
    {
      CoprimeShift(num, den, -1);
      RealSum(num, den, -1, 1);
      num := num - den;
    }

    method PlusAssignWhole(i: int)
      requires Valid()
      modifies this
      ensures Valid() && Value() == old(Value()) + i as real
    {
      CoprimeShift(num, den, i);
      RealSum(num, den, i, 1);
      num := num + i * den;
    }

    method MinusAssignWhole(i: int)
      requires Valid()
      modifies this
      ensures Valid() && Value() == old(Value()) - i as real
    {
      CoprimeShift(num, den, -i);
      RealSum(num, den, -i, 1);
      assert -i * den == -(i * den);
      num := num - i * den;
    }

    method TimesAssignWhole(i: int)
      requires Valid()
      modifies this
      ensures Valid() && Value() == old(Value()) * i as real
    {
      hide Real;
      ProductWholeCorrect(num, den, i);
      var gcd := Gcd(i, den);
      num := num * Quot(i, gcd);
      den := Quot(den, gcd);
    }

    method DivideAssignWhole(i: int) returns (outcome: Outcome)
      requires Valid()
      modifies this
      ensures outcome == BadRational <==> i == 0
      ensures outcome == BadRational ==> unchanged(this)
      ensures outcome == Done ==> Valid() && i as real != 0.0 && Value() == old(Value()) / i as real
    {
      if i == 0 {
        return BadRational;
      }
      QuotientWholeCorrect(num, den, i);
      if num == 0 {
        return Done;
      }
      var gcd := Gcd(num, i);
      num := Quot(num, gcd);
      den := den * Quot(i, gcd);
      if den < 0 {
        FlipSigns(num, den);
        num := -num;
        den := -den;
      }
      outcome := Done;
    }

    // ----- comparison -----

    /** operator== compares the fields; on lowest terms that decides equality of the numbers. */
    method Equals(r: Rational) returns (eq: bool)
      requires Valid() && r.Valid()
      ensures eq <==> Value() == r.Value()
    {
      eq := num == r.num && den == r.den;
      FieldsDecideValue(num, den, r.num, r.den);
    }

    method EqualsWhole(i: int) returns (eq: bool)
      requires Valid()
      ensures eq <==> Value() == i as real
    {
      eq := den == 1 && num == i;
      WholeReal(i);
      FieldsDecideValue(num, den, i, 1);
    }

    /** operator<: two continued-fraction expansions side by side. It needs only positive denominators. */
    method LessThan(r: Rational) returns (less: bool, ghost peak: nat)
      requires den > 0 && r.den > 0
      ensures less <==> Value() < r.Value()
      ensures peak <= Widest(num, den, r.num, r.den)
    {
      ghost var bound := Widest(num, den, r.num, r.den);
      RealCompare(num, den, r.num, r.den);
      ghost var answer := num * r.den < r.num * den;
      var tn, td, tq, tr := num, den, Quot(num, den), Rem(num, den);
      var rn, rd, rq, rr := r.num, r.den, Quot(r.num, r.den), Rem(r.num, r.den);
      Truncated(tn, td);
      Truncated(rn, rd);
      peak := Max(Widest(tn, td, tq, tr), Widest(rn, rd, rq, rr));
      var reverse := false;
      while tr < 0
        invariant Rounding(tn, td, tq, tr) && peak <= bound
        decreases -tr
      {
        RoundDown(tn, td, tq, tr);
        tr := tr + td;
        tq := tq - 1;
        peak := Max(peak, Widest(tr, tq, 0, 0));
      }
      while rr < 0
        invariant Rounding(rn, rd, rq, rr) && peak <= bound
        decreases -rr
      {
        RoundDown(rn, rd, rq, rr);
        rr := rr + rd;
        rq := rq - 1;
        peak := Max(peak, Widest(rr, rq, 0, 0));
      }
      while true
        invariant Expansion(tn, td, tq, tr) && Expansion(rn, rd, rq, rr)
        invariant Ordered(answer, reverse, tn, td, rn, rd)
        invariant td <= bound && rd <= bound && peak <= bound
        decreases td
      {
        if tq != rq {
          FirstDifference(answer, reverse, tn, td, tq, tr, rn, rd, rq, rr);
          return if reverse then tq > rq else tq < rq, peak;
        }
        Reciprocate(answer, reverse, tn, td, tq, tr, rn, rd, rq, rr);
        reverse := !reverse;
        if tr == 0 || rr == 0 {
          break;
        }
        tn := td;
        td := tr;
        tq, tr := Quot(tn, td), Rem(tn, td);
        rn := rd;
        rd := rr;
        rq, rr := Quot(rn, rd), Rem(rn, rd);
        Truncated(tn, td);
        Truncated(rn, rd);
        peak := Max(peak, Max(Widest(tn, td, tq, tr), Widest(rn, rd, rq, rr)));
      }
      ExpansionEnds(answer, reverse, td, tr, rd, rr);
      if tr == rr {
        less := false;
      } else {
        less := (tr != 0) != reverse;
      }
    }

    method LessThanWhole(i: int) returns (less: bool)
      requires den > 0
      ensures less <==> Value() < i as real
    {
      var q, r := Quot(num, den), Rem(num, den);
      Truncated(num, den);
      while r < 0
        invariant Rounding(num, den, q, r)
        decreases -r
      {
        RoundDown(num, den, q, r);
        r := r + den;
        q := q - 1;
      }
      FloorDecides(num, den, q, r, i);
      less := q < i;
    }

    method GreaterThanWhole(i: int) returns (greater: bool)
      requires Valid()
      ensures greater <==> Value() > i as real
    {
      var eq := EqualsWhole(i);
      var less := LessThanWhole(i);
      greater := !eq && !less;
    }

    // ----- whole histories -----

    method ApplyWhole(kind: Kind, i: int) returns (outcome: Outcome)
      requires Valid()
      modifies this
      ensures Valid()
      ensures Calculate(kind, old(Value()), i as real) == if outcome == Done then Number(Value()) else Thrown
    {
      outcome := Done;
      match kind
      case Plus => PlusAssignWhole(i);
      case Minus => MinusAssignWhole(i);
      case Times => TimesAssignWhole(i);
      case Divide => outcome := DivideAssignWhole(i);
    }

    method ApplyFraction(kind: Kind, r: Rational) returns (outcome: Outcome)
      requires Valid() && r.Valid() && r != this
      modifies this
      ensures Valid()
      ensures Calculate(kind, old(Value()), r.Value()) == if outcome == Done then Number(Value()) else Thrown
    {
      hide Real, Coprime, Widest, Max;
      outcome := Done;
      ghost var peak;
      ZeroNumerator(r.num, r.den);
      match kind
      case Plus => PlusAssign(r);
      case Minus => MinusAssign(r);
      case Times => peak := TimesAssign(r);
      case Divide => outcome, peak := DivideAssign(r);
    }

    method Apply(op: Operation) returns (outcome: Outcome)
      requires Valid()
      modifies this
      ensures Valid()
      ensures Meaning(old(Value()), op) == if outcome == Done then Number(Value()) else Thrown
    {
      outcome := Done;
      match op
      case Increment => Increment();
      case Decrement => Decrement();
      case ByWhole(kind, i) => outcome := ApplyWhole(kind, i);
      case ByFraction(kind, n, d) =>
        var r := New(n, d, Unbounded);
        if r == null {
          outcome := BadRational;
        } else {
          outcome := ApplyFraction(kind, r);
        }
    }

    /** Any sequence of arithmetic, up to the first exception, keeps lowest terms and computes exactly
        what the same sequence means on real numbers. */
    method Run(ops: seq<Operation>) returns (outcome: Outcome)
      requires Valid()
      modifies this
      ensures Valid()
      ensures Outcomes(old(Value()), ops) == if outcome == Done then Number(Value()) else Thrown
    {
      outcome := Done;
      assert ops[0..] == ops;
      for i := 0 to |ops|
        invariant Valid() && outcome == Done
        invariant Outcomes(old(Value()), ops) == Outcomes(Value(), ops[i..])
      {
        assert ops[i..][0] == ops[i] && ops[i..][1..] == ops[i + 1..];
        outcome := Apply(ops[i]);
        if outcome == BadRational {
          return;
        }
      }
    }

    /** Adding and subtracting the same fraction restores the fields, not just the value. */
    method PlusThenMinus(r: Rational)
      requires Valid() && r.Valid() && r != this
      modifies this
      ensures num == old(num) && den == old(den)
    {
      PlusAssign(r);
      MinusAssign(r);
      FieldsDecideValue(num, den, old(num), old(den));
    }
  }

  datatype Kind = Plus | Minus | Times | Divide

  datatype Operation =
    | ByWhole(kind: Kind, i: int)
    | ByFraction(kind: Kind, n: int, d: int)
    | Increment
    | Decrement

  datatype Result = Number(value: real) | Thrown

  ghost function Calculate(kind: Kind, v: real, w: real): Result {
    match kind
    case Plus => Number(v + w)
    case Minus => Number(v - w)
    case Times => Number(v * w)
    case Divide => if w == 0.0 then Thrown else Number(v / w)
  }

  /** What one operation means on real numbers. */
  ghost function Meaning(v: real, op: Operation): Result {
    match op
    case Increment => Number(v + 1.0)
    case Decrement => Number(v - 1.0)
    case ByWhole(kind, i) => Calculate(kind, v, i as real)
    case ByFraction(kind, n, d) => if d == 0 then Thrown else Calculate(kind, v, Real(n, d))
  }

  ghost function Outcomes(v: real, ops: seq<Operation>): Result
    decreases ops
  {
    if ops == [] then Number(v)
    else
      match Meaning(v, ops[0])
      case Thrown => Thrown
      case Number(w) => Outcomes(w, ops[1..])
  }

  /** One plus two, times three, less a half, over five, up and down by one; and a division by zero ends a history. */
  lemma {:induction false} HistoryExamples()
    ensures Outcomes(1.0, [ByWhole(Plus, 2), ByWhole(Times, 3), ByFraction(Minus, 1, 2), ByWhole(Divide, 5),
                           Increment, Decrement, Decrement]) == Number(0.7)
    ensures Outcomes(1.0, [ByFraction(Divide, 0, 3), Increment]) == Thrown
  {
    var ops1 := [Increment, Decrement, Decrement];
    var ops2 := [ByFraction(Minus, 1, 2), ByWhole(Divide, 5)] + ops1;
    assert ops1[1..] == [Decrement, Decrement] && [Decrement, Decrement][1..] == [Decrement] && [Decrement][1..] == [];
    assert Outcomes(1.7, ops1) == Number(0.7) by {
      assert Outcomes(0.7, []) == Number(0.7);
      assert Outcomes(1.7, [Decrement]) == Number(0.7);
      assert Outcomes(2.7, [Decrement, Decrement]) == Number(0.7);
    }
    assert ops2[1..] == [ByWhole(Divide, 5)] + ops1 && ([ByWhole(Divide, 5)] + ops1)[1..] == ops1;
    assert Outcomes(8.5, [ByWhole(Divide, 5)] + ops1) == Number(0.7);
    assert Outcomes(9.0, ops2) == Number(0.7);
    assert ([ByWhole(Times, 3)] + ops2)[1..] == ops2;
    assert Outcomes(3.0, [ByWhole(Times, 3)] + ops2) == Number(0.7);
    assert [ByWhole(Plus, 2), ByWhole(Times, 3), ByFraction(Minus, 1, 2), ByWhole(Divide, 5), Increment, Decrement,
            Decrement] == [ByWhole(Plus, 2)] + ([ByWhole(Times, 3)] + ops2);
    assert ([ByWhole(Plus, 2)] + ([ByWhole(Times, 3)] + ops2))[1..] == [ByWhole(Times, 3)] + ops2;
  }

  /** The lowest-terms form is unique: the fields decide the value and the value decides the fields. */
  lemma {:induction false} FieldsDecideValue(n: int, d: int, n': int, d': int)
    requires Lowest(n, d) && Lowest(n', d')
    ensures Real(n, d) == Real(n', d') <==> n == n' && d == d'
  {
    RealCompare(n, d, n', d');
    if n * d' == n' * d {
      LowestUnique(n, d, n', d');
    }
  }

  lemma {:induction false} ZeroNumerator(n: int, d: int)
    requires d != 0
    ensures n == 0 <==> Real(n, d) == 0.0
  {
    var u := d as real;
    assert n as real == Real(n, d) * u;
  }

  // ----- is_normalized -----

  /** inner_gcd: Euclid's algorithm on signed numbers with the truncating remainder. */
  function InnerGcd(a: int, b: int): int
    decreases Abs(b)
  {
    if b == 0 then a
    else
      QuotRem(a, b);
      InnerGcd(b, Rem(a, b))
  }

  function IsNormalized(n: int, d: int): bool {
    d > 0 && (n != 0 || d == 1) && Abs(InnerGcd(n, d)) == 1
  }

  lemma {:induction false} InnerGcdIsGcd(a: int, b: int)
    ensures Abs(InnerGcd(a, b)) == Gcd(a, b)
    decreases Abs(b)
  {
    if b != 0 {
      QuotRem(a, b);
      RemainderMagnitude(a, b);
      InnerGcdIsGcd(b, Rem(a, b));
    }
  }

  lemma {:induction false} RemainderMagnitude(a: int, b: int)
    requires b != 0
    ensures Abs(Rem(a, b)) == Abs(a) % Abs(b)
  {
    QuotRem(a, b);
    var k := if a < 0 then -Quot(a, b) else Quot(a, b);
    var m := if b < 0 then -k else k;
    Reflected(a, b, Quot(a, b), Rem(a, b), k, m);
    RemainderUnique(Abs(a), Abs(b), m, Abs(Rem(a, b)));
  }

  lemma {:induction false} Reflected(a: int, b: int, q: int, r: int, k: int, m: int)
    requires a == q * b + r && (a >= 0 ==> r >= 0) && (a <= 0 ==> r <= 0)
    requires k == (if a < 0 then -q else q) && m == if b < 0 then -k else k
    ensures Abs(a) == m * Abs(b) + Abs(r)
  {
    if a < 0 {
      assert k * b == -(q * b);
    }
    if b < 0 {
      assert m * -b == k * b;
    }
  }

  lemma {:induction false} RemainderUnique(x: nat, y: nat, m: int, r: nat)
    requires y > 0 && x == m * y + r && r < y
    ensures x % y == r
  {
    var q := x / y;
    assert x == q * y + x % y;
    assert (q - m) * y == q * y - m * y;
    MulSmall(q - m, y, r - x % y);
  }

  /** The check on converted fractions accepts exactly those in lowest terms. */
  lemma {:induction false} IsNormalizedMeansLowest(n: int, d: int)
    ensures IsNormalized(n, d) <==> Lowest(n, d)
  {
    InnerGcdIsGcd(n, d);
  }

  // ----- the mathematics of each operator, on the values it starts from -----

  function Widest(a: int, b: int, c: int, d: int): nat {
    Max(Max(Abs(a), Abs(b)), Max(Abs(c), Abs(d)))
  }

  /** The bound on intermediates is met by one of the four: a type that holds them holds everything below it. */
  lemma {:induction false} WidestIsOne(a: int, b: int, c: int, d: int, m: int)
    ensures Widest(a, b, c, d) <= m <==> -m <= a <= m && -m <= b <= m && -m <= c <= m && -m <= d <= m
  {
  }

  lemma {:induction false} MaxMonotone(x: nat, y: nat, z: nat)
    requires x <= y
    ensures Max(x, z) <= Max(y, z)
  {
  }

  lemma {:induction false} FlipSigns(n: int, d: int)
    requires d != 0
    ensures Real(-n, -d) == Real(n, d)
    ensures Gcd(-n, -d) == Gcd(n, d)
  {
    assert -n * d == n * -d;
    RealEqual(-n, -d, n, d);
    GcdNegate(n, d);
    GcdNegate(-n, d);
  }

  /** The reduced denominator is the least value, which negation leaves negative. */
  predicate SingularDenominator(n: int, d: int, least: Least) {
    n != 0 && d < 0 && Gcd(n, d) != 0 && least == Least(Quot(d, Gcd(n, d)))
  }

  /** The reduced numerator is the least value and would have to be negated. */
  predicate SingularNumerator(n: int, d: int, least: Least) {
    n != 0 && d < 0 && Gcd(n, d) != 0 && least == Least(Quot(n, Gcd(n, d)))
  }

  /** In terms of the reduced fraction p / q: negation is needed for a negative denominator, and fails on the least
      value. */
  lemma {:induction false} SingularExactly(n: int, d: int, p: int, q: int, g: int, least: Least)
    requires d != 0 && g > 0 && n == p * g && d == q * g && Coprime(p, q)
    ensures SingularDenominator(n, d, least) <==> n != 0 && d < 0 && least == Least(q)
    ensures SingularNumerator(n, d, least) <==> n != 0 && d < 0 && least == Least(p)
  {
    hide Real, Quot, Gcd;
    if n != 0 && d < 0 {
      NormalizeCorrect(n, d);
      ReducedSign(n, d);
      var p', q' := Quot(n, Gcd(n, d)), Quot(d, Gcd(n, d));
      assert q < 0 by { SignOfFactor(q, g); }
      ReducedEqual(n, d, p, q, g);
      FlipSigns(p, q);
      FlipSigns(p', q');
      FieldsDecideValue(-p, -q, -p', -q');
    }
  }

  lemma {:induction false} SignOfFactor(q: int, g: int)
    requires g > 0 && q * g < 0
    ensures q < 0
  {
    if q >= 0 {
      MulSign(q, g);
    }
  }

  /** Negating only the denominator changes the value. */
  lemma {:induction false} FlipDenominator(n: int, d: int)
    requires n != 0 && d != 0
    ensures Real(n, -d) == -Real(n, d) && Real(n, d) != 0.0
    ensures Gcd(n, -d) == Gcd(n, d)
  {
    FlipSigns(n, -d);
    RealNegate(n, d);
    ZeroNumerator(n, d);
    GcdNegate(n, d);
  }

  lemma {:induction false} ReducedSign(n: int, d: int)
    requires d != 0
    ensures Gcd(n, d) != 0 && (Quot(d, Gcd(n, d)) < 0 <==> d < 0)
  {
    var p, q := ReduceCross(n, d);
    var g := Gcd(n, d);
    if q >= 0 {
      MulSign(q, g);
    } else {
      ScaleLess(q, 0, g);
    }
  }

  lemma {:induction false} ZeroReduced(d: int)
    requires d != 0
    ensures Lowest(0, 1) && Real(0, 1) == Real(0, d)
  {
    WholeReal(0);
    ZeroReal(0, d, 1.0);
    RealQuotient(0.0, d as real);
  }

  /** Dividing by the gcd. */
  lemma {:induction false} NormalizeCorrect(n: int, d: int)
    requires n != 0 && d != 0
    ensures Gcd(n, d) != 0
    ensures var p, q := Quot(n, Gcd(n, d)), Quot(d, Gcd(n, d));
      q != 0 && Coprime(p, q) && Real(p, q) == Real(n, d)
  {
    var p, q := ReduceCross(n, d);
    CoprimeCofactors(n, d, p, q);
    ReducedEqual(n, d, p, q, Gcd(n, d));
  }

  lemma {:induction false} ReducedEqual(n: int, d: int, p: int, q: int, g: int)
    requires d != 0 && n == p * g && d == q * g
    ensures q != 0 && Real(p, q) == Real(n, d)
  {
    NonZeroFactor(q, g);
    assert p * (q * g) == (p * g) * q;
    RealEqual(p, q, n, d);
  }

  lemma {:induction false} SumCorrect(a: int, b: int, c: int, d: int)
    requires Lowest(a, b) && Lowest(c, d)
    ensures Gcd(b, d) != 0
    ensures var g := Gcd(b, d);
      var s := a * Quot(d, g) + c * Quot(b, g);
      && Gcd(s, g) != 0
      && Lowest(Quot(s, Gcd(s, g)), Quot(b, g) * Quot(d, Gcd(s, g)))
      && Real(Quot(s, Gcd(s, g)), Quot(b, g) * Quot(d, Gcd(s, g))) == Real(a, b) + Real(c, d)
  {
    var b1, d1 := ReduceCross(b, d);
    var num, h := ReduceCross(a * d1 + c * b1, Gcd(b, d));
    var g2 := Gcd(a * d1 + c * b1, Gcd(b, d));
    SumWhole(a, b, c, d, b1, d1, g2, num, h);
    ExactThroughBoth(d, d1, h, g2);
  }

  lemma {:induction false} ExactThroughBoth(d: int, d1: int, h: int, g2: int)
    requires g2 != 0 && d == d1 * (h * g2)
    ensures Quot(d, g2) == d1 * h
  {
    assert d1 * (h * g2) == (d1 * h) * g2;
    QuotExact(d, g2, d1 * h);
  }

  lemma {:induction false} SumWhole(a: int, b: int, c: int, d: int, b1: int, d1: int, g2: nat, num: int, h: int)
    requires Lowest(a, b) && Lowest(c, d)
    requires b == b1 * Gcd(b, d) && d == d1 * Gcd(b, d)
    requires g2 == Gcd(a * d1 + c * b1, Gcd(b, d)) > 0
    requires a * d1 + c * b1 == num * g2 && Gcd(b, d) == h * g2
    ensures Lowest(num, b1 * (d1 * h)) && Real(num, b1 * (d1 * h)) == Real(a, b) + Real(c, d)
  {
    SumReduced(a, b, c, d, b1, d1, g2, num, h);
    RealSum(a, b, c, d);
    RealEqual(num, b1 * (d1 * h), a * d + c * b, b * d);
  }

  lemma {:induction false} DifferenceCorrect(a: int, b: int, c: int, d: int)
    requires Lowest(a, b) && Lowest(c, d)
    ensures Gcd(b, d) != 0
    ensures var g := Gcd(b, d);
      var s := a * Quot(d, g) - c * Quot(b, g);
      && Gcd(s, g) != 0
      && Lowest(Quot(s, Gcd(s, g)), Quot(b, g) * Quot(d, Gcd(s, g)))
      && Real(Quot(s, Gcd(s, g)), Quot(b, g) * Quot(d, Gcd(s, g))) == Real(a, b) - Real(c, d)
  {
    GcdNegate(c, d);
    SumCorrect(a, b, -c, d);
    NegateTerm(c, Quot(b, Gcd(b, d)));
    RealNegate(c, d);
  }

  lemma {:induction false} NegateTerm(x: int, y: int)
    ensures -x * y == -(x * y)
  {
  }

  lemma {:induction false} RealNegate(n: int, d: int)
    requires d != 0
    ensures Real(-n, d) == -Real(n, d)
  {
    var u := d as real;
    assert (-n) as real == -(n as real);
    RealQuotient(-(n as real / u), u);
    assert -(n as real / u) * u == -(n as real);
  }

  lemma {:induction false} ProductWhole(a: int, b: int, c: int, d: int, a1: int, d1: int, c1: int, b1: int)
    requires b != 0 && d != 0 && Coprime(a, b) && Coprime(c, d)
    requires Gcd(a, d) > 0 && a == a1 * Gcd(a, d) && d == d1 * Gcd(a, d)
    requires Gcd(c, b) > 0 && c == c1 * Gcd(c, b) && b == b1 * Gcd(c, b)
    ensures b1 * d1 != 0 && Coprime(a1 * c1, b1 * d1)
    ensures Real(a1 * c1, b1 * d1) == Real(a, b) * Real(c, d)
    ensures b > 0 && d > 0 ==> b1 * d1 > 0
  {
    ProductReduced(a, b, c, d, a1, d1, c1, b1);
    RealProduct(a, b, c, d);
    RealEqual(a1 * c1, b1 * d1, a * c, b * d);
    if b > 0 && d > 0 {
      MulPositive(b1, Gcd(c, b));
      MulPositive(d1, Gcd(a, d));
      PositiveProduct(b1, d1);
    }
  }

  lemma {:induction false} ProductCorrect(a: int, b: int, c: int, d: int)
    requires Lowest(a, b) && Lowest(c, d)
    ensures Gcd(a, d) != 0 && Gcd(c, b) != 0
    ensures var g1, g2 := Gcd(a, d), Gcd(c, b);
      && Lowest(Quot(a, g1) * Quot(c, g2), Quot(b, g2) * Quot(d, g1))
      && Real(Quot(a, g1) * Quot(c, g2), Quot(b, g2) * Quot(d, g1)) == Real(a, b) * Real(c, d)
      && Max(Widest(g1, g2, Quot(a, g1), Quot(c, g2)), Widest(Quot(b, g2), Quot(d, g1), 0, 0)) <= Widest(a, b, c, d)
  {
    var a1, d1 := ReduceCross(a, d);
    var c1, b1 := ReduceCross(c, b);
    ProductWhole(a, b, c, d, a1, d1, c1, b1);
  }

  lemma {:induction false} QuotientCorrect(a: int, b: int, c: int, d: int)
    requires Lowest(a, b) && Lowest(c, d) && c != 0
    ensures Gcd(a, c) != 0 && Gcd(d, b) != 0 && Real(c, d) != 0.0
    ensures a == 0 ==> Real(a, b) / Real(c, d) == Real(a, b)
    ensures var g1, g2 := Gcd(a, c), Gcd(d, b);
      && Quot(b, g2) * Quot(c, g1) != 0
      && Coprime(Quot(a, g1) * Quot(d, g2), Quot(b, g2) * Quot(c, g1))
      && Real(Quot(a, g1) * Quot(d, g2), Quot(b, g2) * Quot(c, g1)) == Real(a, b) / Real(c, d)
      && Max(Widest(g1, g2, Quot(a, g1), Quot(d, g2)), Widest(Quot(b, g2), Quot(c, g1), 0, 0)) <= Widest(a, b, c, d)
  {
    var a1, c1 := ReduceCross(a, c);
    var d1, b1 := ReduceCross(d, b);
    CoprimeSymmetric(c, d);
    ProductWhole(a, b, d, c, a1, c1, d1, b1);
    RealInverse(Real(a, b), c, d);
    ZeroReal(a, b, Real(c, d));
  }

  lemma {:induction false} ZeroReal(a: int, b: int, x: real)
    requires b != 0 && x != 0.0
    ensures a == 0 ==> Real(a, b) / x == Real(a, b)
  {
  }

  lemma {:induction false} RealInverse(x: real, n: int, d: int)
    requires n != 0 && d != 0
    ensures Real(n, d) != 0.0
    ensures x / Real(n, d) == x * Real(d, n)
  {
    DivideByQuotient(x, n as real, d as real);
  }

  lemma {:induction false} DivideByQuotient(x: real, u: real, v: real)
    requires u != 0.0 && v != 0.0
    ensures u / v != 0.0
    ensures x / (u / v) == x * (v / u)
  {
    var w := u / v;
    assert w * v == u;
    assert w != 0.0;
    var y := v / u;
    assert y * u == v;
    assert (w * y) * u == w * v;
    assert w * y == 1.0;
    assert (x * y) * w == x;
    RealQuotient(x * y, w);
  }

  lemma {:induction false} WholeReal(i: int)
    ensures Coprime(i, 1) && Coprime(1, i) && Real(i, 1) == i as real
    ensures Gcd(i, 1) == 1 == Gcd(1, i)
  {
    CoprimeFromBezout(i, 1, 0, 1);
    CoprimeFromBezout(1, i, 1, 0);
  }

  lemma {:induction false} ProductWholeCorrect(a: int, b: int, i: int)
    requires Lowest(a, b)
    ensures Gcd(i, b) != 0
    ensures var g := Gcd(i, b);
      Lowest(a * Quot(i, g), Quot(b, g)) && Real(a * Quot(i, g), Quot(b, g)) == Real(a, b) * i as real
  {
    hide Real, Quot;
    var i1, b1 := ReduceCross(i, b);
    WholeReal(i);
    WholeReal(a);
    ProductWhole(a, b, i, 1, a, 1, i1, b1);
  }

  lemma {:induction false} QuotientWholeCorrect(a: int, b: int, i: int)
    requires Lowest(a, b) && i != 0
    ensures Gcd(a, i) != 0
    ensures a == 0 ==> Real(a, b) / i as real == Real(a, b)
    ensures var g := Gcd(a, i);
      && b * Quot(i, g) != 0
      && Coprime(Quot(a, g), b * Quot(i, g))
      && Real(Quot(a, g), b * Quot(i, g)) == Real(a, b) / i as real
  {
    var a1, i1 := ReduceCross(a, i);
    WholeReal(i);
    WholeReal(b);
    ProductWhole(a, b, 1, i, a1, i1, 1, b);
    RealInverse(Real(a, b), i, 1);
    ZeroReal(a, b, i as real);
  }

  /** The cofactors of a cross gcd, and the quotients that compute them. */
  lemma {:induction false} ReduceCross(x: int, y: int) returns (p: int, q: int)
    requires y != 0
    ensures Gcd(x, y) > 0 && x == p * Gcd(x, y) && y == q * Gcd(x, y)
    ensures Quot(x, Gcd(x, y)) == p && Quot(y, Gcd(x, y)) == q
    ensures Abs(p) <= Abs(x) && Abs(q) <= Abs(y)
    ensures Gcd(x, y) <= Abs(y)
  {
    p, q := GcdDivides(x, y);
    var g := Gcd(x, y);
    GcdBounds(x, y);
    QuotExact(x, g, p);
    QuotExact(y, g, q);
    CofactorSmaller(p, g);
    CofactorSmaller(q, g);
  }

  lemma {:induction false} CofactorSmaller(p: int, g: int)
    requires g > 0
    ensures Abs(p) <= Abs(p * g)
  {
    MulAbs(p, g);
    MulGrows(g, Abs(p));
  }

  // ----- the continued fractions of operator< -----

  /** A quotient on its way from truncation to the floor, never growing past the numerator. */
  ghost predicate Rounding(n: int, d: int, q: int, r: int) {
    && n == q * d + r && -d < r < d
    && Abs(q) <= Abs(n) && (r < 0 ==> Abs(q) < Abs(n))
  }

  /** One cycle of the expansion: integer part and remainder. */
  ghost predicate Expansion(n: int, d: int, q: int, r: int) {
    n == q * d + r && 0 <= r < d
  }

  /** What the comparison of the original fractions has been turned into. */
  ghost predicate Ordered(answer: bool, reverse: bool, tn: int, td: int, rn: int, rd: int) {
    answer == if reverse then rn * td < tn * rd else tn * rd < rn * td
  }

  lemma {:induction false} Truncated(n: int, d: int)
    requires d > 0
    ensures Rounding(n, d, Quot(n, d), Rem(n, d))
    ensures n >= 0 ==> Expansion(n, d, Quot(n, d), Rem(n, d))
  {
    QuotRem(n, d);
    TruncatedBound(n, d, Quot(n, d), Rem(n, d));
  }

  lemma {:induction false} TruncatedBound(n: int, d: int, q: int, r: int)
    requires d > 0 && n == q * d + r && Abs(r) < d && (n >= 0 ==> r >= 0) && (n <= 0 ==> r <= 0)
    ensures Abs(q) <= Abs(n) && (r < 0 ==> Abs(q) < Abs(n))
  {
    CofactorSmaller(q, d);
    MulAbs(q, d);
    SameSign(n, d, q, r);
  }

  lemma {:induction false} SameSign(n: int, d: int, q: int, r: int)
    requires d > 0 && n == q * d + r && Abs(r) < d && (n >= 0 ==> r >= 0) && (n <= 0 ==> r <= 0)
    ensures Abs(n) == Abs(q * d) + Abs(r)
  {
    if n >= 0 && q < 0 {
      ScaleLessEqual(q, -1, d);
    }
    if n <= 0 && q > 0 {
      ScaleLessEqual(1, q, d);
    }
    if q >= 0 {
      MulSign(q, d);
    } else {
      ScaleLess(q, 0, d);
    }
  }

  lemma {:induction false} RoundDown(n: int, d: int, q: int, r: int)
    requires d > 0 && r < 0 && Rounding(n, d, q, r)
    ensures r + d > 0 && Rounding(n, d, q - 1, r + d)
  {
    assert (q - 1) * d == q * d - d;
  }

  lemma {:induction false} FirstDifference(answer: bool, reverse: bool, tn: int, td: int, tq: int, tr: int,
                                           rn: int, rd: int, rq: int, rr: int)
    requires Expansion(tn, td, tq, tr) && Expansion(rn, rd, rq, rr)
    requires Ordered(answer, reverse, tn, td, rn, rd) && tq != rq
    ensures answer == if reverse then tq > rq else tq < rq
  {
    if tq < rq {
      QuotientDecides(tn, td, tq, tr, rn, rd, rq, rr);
    } else {
      QuotientDecides(rn, rd, rq, rr, tn, td, tq, tr);
    }
  }

  /** With equal integer parts, comparing the fractions is comparing the reciprocals of what is left, reversed. */
  lemma {:induction false} Reciprocate(answer: bool, reverse: bool, tn: int, td: int, tq: int, tr: int,
                                       rn: int, rd: int, rq: int, rr: int)
    requires Expansion(tn, td, tq, tr) && Expansion(rn, rd, rq, rr)
    requires Ordered(answer, reverse, tn, td, rn, rd) && tq == rq
    ensures Ordered(answer, !reverse, td, tr, rd, rr)
  {
    RemainderDecides(tq, td, tr, rd, rr);
    assert tr * rd == rd * tr && rr * td == td * rr;
  }

  /** A remainder of zero is an infinite next component: the expansion that ended stands for the larger
      value of the two, unless both ended. */
  lemma {:induction false} ExpansionEnds(answer: bool, reverse: bool, td: int, tr: int, rd: int, rr: int)
    requires Ordered(answer, reverse, td, tr, rd, rr)
    requires td > 0 && rd > 0 && tr >= 0 && rr >= 0 && (tr == 0 || rr == 0)
    ensures answer == if tr == rr then false else (tr != 0) != reverse
  {
    if tr > 0 {
      PositiveProduct(rd, tr);
    }
    if rr > 0 {
      PositiveProduct(td, rr);
    }
  }

  /** The floor decides a comparison with an integer. */
  lemma {:induction false} FloorDecides(n: int, d: int, q: int, r: int, i: int)
    requires Expansion(n, d, q, r)
    ensures Real(n, d) < i as real <==> q < i
  {
    RealCompare(n, d, i, 1);
    if q < i {
      QuotientDecides(n, d, q, r, i, 1, i, 0);
    } else {
      ScaleLessEqual(i, q, d);
    }
  }
}
