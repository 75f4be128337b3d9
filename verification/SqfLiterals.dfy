/**
 What the strict real parser makes of decimal literals: which are no number, which value the others get, and exactly
 when that is the value written.
 */
module SqfLiterals {

  import opened SqfText
  import opened SqfNumbers

  // ----- powers of ten -----

  lemma {:induction false} Pow10Add(a: nat, b: nat)
    ensures Pow10(a + b) == Pow10(a) * Pow10(b)
  {
    if a > 0 {
      Pow10Add(a - 1, b);
      TimesTen(Pow10(a - 1), Pow10(b));
    }
  }

  lemma {:induction false} TimesTen(p: int, q: int)
    ensures 10 * (p * q) == (10 * p) * q
  {
  }

  lemma {:induction false} TenToNext(e: int)
    ensures TenTo(e + 1) == 10.0 * TenTo(e)
  {
    if e < 0 {
      OneOver(Pow10(-e - 1));
    }
  }

  lemma {:induction false} OneOver(p: nat)
    requires p >= 1
    ensures 1.0 / p as real == 10.0 * (1.0 / (10 * p) as real)
  {
    var x := p as real;
    assert (10 * p) as real == 10.0 * x;
    assert 1.0 / (10.0 * x) == 0.1 * (1.0 / x);
  }

  lemma {:induction false} TenToAdd(e: int, t: nat)
    ensures TenTo(e + t) == TenTo(e) * Pow10(t) as real
  {
    hide TenTo;
    if t > 0 {
      TenToAdd(e, t - 1);
      TenToNext(e + t - 1);
      TimesTenReal(TenTo(e), Pow10(t - 1));
    }
  }

  lemma {:induction false} TimesTenReal(x: real, p: nat)
    ensures 10.0 * (x * p as real) == x * (10 * p) as real
  {
    assert (10 * p) as real == 10.0 * p as real;
  }

  /** Trailing zeros of the mantissa move into the exponent. */
  lemma {:induction false} TimesShift(n: int, t: nat, e: int)
    ensures Times(n * Pow10(t), e) == Times(n, e + t)
  {
    hide Pow10, TenTo;
    TenToAdd(e, t);
    RealOfProduct(n, Pow10(t));
    Reorder(n as real, Pow10(t) as real, TenTo(e));
  }

  lemma {:induction false} RealOfProduct(n: int, p: nat)
    ensures (n * p) as real == n as real * p as real
  {
    if p > 0 {
      RealOfProduct(n, p - 1);
      assert n * p == n * (p - 1) + n;
      assert n as real * p as real == n as real * (p - 1) as real + n as real;
    }
  }

  lemma {:induction false} Reorder(x: real, y: real, z: real)
    ensures x * y * z == x * (z * y)
  {
  }

  lemma {:induction false} TimesInjective(a: int, b: int, e: int)
    ensures Times(a, e) == Times(b, e) <==> a == b
    ensures Times(a, e) < Times(b, e) <==> a < b
  {
    hide TenTo;
    ScaleOrder(a as real, b as real, TenTo(e));
  }

  lemma {:induction false} ScaleOrder(x: real, y: real, p: real)
    requires p > 0.0
    ensures x * p == y * p <==> x == y
    ensures x * p < y * p <==> x < y
  {
  }

  // ----- digits that fit the mantissa -----

  predicate AllZeros(ds: string) {
    forall c :: c in ds ==> c == '0'
  }

  lemma {:induction false} NumberBound(ds: string)
    requires AllDigits(ds)
    ensures Number(ds) < Pow10(|ds|)
    ensures Number(ds) == 0 <==> AllZeros(ds)
  {
    if ds != "" {
      var k := |ds| - 1;
      NumberBound(ds[..k]);
      assert ds == ds[..k] + [ds[k]];
      assert ds[k] in ds && forall c :: c in ds[..k] ==> c in ds;
      assert AllZeros(ds) <== AllZeros(ds[..k]) && ds[k] == '0';
    }
  }

  /** The number before the point with k digits after it appended. */
  function PrefixValue(n: nat, ds: string, k: nat): (v: nat)
    requires AllDigits(ds) && k <= |ds|
  {
    n * Pow10(k) + Number(ds[..k])
  }

  /** How many digits after the point the 64-bit mantissa can take. */
  function FittingDigits(n: nat, ds: string): (k: nat)
    requires AllDigits(ds)
    ensures k <= |ds|
  {
    if ds == "" then 0
    else
      var k := FittingDigits(n, ds[..|ds| - 1]);
      if k == |ds| - 1 && PrefixValue(n, ds, |ds|) <= Max(Mantissa) then |ds| else k
  }

  lemma {:induction false} PrefixNext(n: nat, ds: string, k: nat)
    requires AllDigits(ds) && k < |ds|
    ensures PrefixValue(n, ds, k + 1) == PrefixValue(n, ds, k) * 10 + Digit(ds[k])
  {
    assert ds[..k + 1][..k] == ds[..k];
    Horner(n, Pow10(k), Number(ds[..k]), Digit(ds[k]));
  }

  lemma {:induction false} PrefixOfInit(n: nat, ds: string, k: nat)
    requires AllDigits(ds) && k < |ds|
    ensures PrefixValue(n, ds[..|ds| - 1], k) == PrefixValue(n, ds, k)
  {
    assert ds[..|ds| - 1][..k] == ds[..k];
  }

  /** It is the longest prefix that fits. */
  lemma {:induction false} FittingIsLongest(n: nat, ds: string, j: nat)
    requires AllDigits(ds) && n <= Max(Mantissa) && j <= |ds|
    ensures PrefixValue(n, ds, j) <= Max(Mantissa) <==> j <= FittingDigits(n, ds)
  {
    if ds == "" {
    } else {
      var k := |ds| - 1;
      if j <= k {
        FittingIsLongest(n, ds[..k], j);
        PrefixOfInit(n, ds, j);
      } else {
        FittingIsLongest(n, ds[..k], k);
        PrefixOfInit(n, ds, k);
        PrefixNext(n, ds, k);
      }
    }
  }

  /** The mantissa holds the prefix that fits, or ten times that when the next digit was refused too late. */
  lemma {:induction false} FractionPrefix(n: nat, ds: string)
    requires AllDigits(ds) && n <= Max(Mantissa)
    ensures var (m, k, open) := Fraction(n, ds);
      var v := PrefixValue(n, ds, k);
      && k == FittingDigits(n, ds) && v <= Max(Mantissa)
      && (open <==> k == |ds|)
      && (k < |ds| ==> v > 0)
      && (m == v || (k < |ds| && m == 10 * v && ds[k] >= '6'))
  {
    if ds == "" {
    } else {
      var init := ds[..|ds| - 1];
      FractionPrefix(n, init);
      var k := FittingDigits(n, init);
      PrefixOfInit(n, ds, k);
      PrefixNext(n, ds, |ds| - 1);
      if k < |init| {
        assert init[k] == ds[k];
      }
    }
  }

  // ----- the value read against the value written -----

  lemma {:induction false} NumberSplit(whole: string, frac: string, k: nat)
    requires AllDigits(whole) && AllDigits(frac) && k <= |frac|
    ensures AllDigits(whole + frac) && AllDigits(frac[k..])
    ensures Number(whole + frac)
         == PrefixValue(Number(whole), frac, k) * Pow10(|frac| - k) + Number(frac[k..])
  {
    hide Pow10, Number;
    NumberConcat(whole, frac[..k]);
    NumberConcat(whole + frac[..k], frac[k..]);
    assert whole + frac[..k] + frac[k..] == whole + frac;
  }

  /** Digits refused cost nothing exactly when they are zeros. */
  lemma {:induction false} MantissaExact(whole: string, frac: string)
    requires AllDigits(whole) && AllDigits(frac) && Number(whole) <= Max(Mantissa)
    ensures AllDigits(whole + frac)
    ensures var (m, k, _) := Fraction(Number(whole), frac);
      m * Pow10(|frac| - k) == Number(whole + frac) <==> AllZeros(frac[k..])
  {
    hide Pow10, Number, Fraction, PrefixValue;
    var (m, k, _) := Fraction(Number(whole), frac);
    FractionPrefix(Number(whole), frac);
    NumberSplit(whole, frac, k);
    NumberBound(frac[k..]);
    var v := PrefixValue(Number(whole), frac, k);
    if m != v {
      assert frac[k..][0] == frac[k] && frac[k] in frac[k..];
      NineMore(v, Pow10(|frac| - k), Number(frac[k..]));
    }
  }

  lemma {:induction false} NineMore(v: nat, p: nat, t: nat)
    requires v > 0 && t < p
    ensures (10 * v) * p > v * p + t
  {
    assert (10 * v) * p == v * p + 9 * (v * p);
    AtLeast(p, v);
    assert p * v == v * p;
  }

  lemma {:induction false} AtLeast(n: nat, p: nat)
    requires p >= 1
    ensures n <= n * p
  {
  }

  /** Behind the tables of the scale only zero is still right. */
  lemma {:induction false} DeepMantissa(whole: string, frac: string)
    requires AllDigits(whole) && AllDigits(frac) && Number(whole) <= Max(Mantissa)
    requires FittingDigits(Number(whole), frac) > 614
    ensures AllDigits(whole + frac)
    ensures var (m, k, _) := Fraction(Number(whole), frac);
      m * Pow10(|frac| - 307) == Number(whole + frac) <==> PrefixValue(Number(whole), frac, k) == 0
  {
    hide Pow10, Number, Fraction, PrefixValue;
    var (m, k, _) := Fraction(Number(whole), frac);
    FractionPrefix(Number(whole), frac);
    NumberSplit(whole, frac, k);
    NumberBound(frac[k..]);
    var v, p := PrefixValue(Number(whole), frac, k), Pow10(|frac| - k);
    if v == 0 {
      assert frac[k..] == "";
      assert 0 * p == 0 && 0 * Pow10(|frac| - 307) == 0;
    } else {
      Pow10Add(|frac| - k, k - 307);
      Pow10Add(1, k - 308);
      assert Pow10(1) == 10 by { TenIsTen(); }
      TenTimesMore(m, v, p, Pow10(k - 308), Number(frac[k..]));
    }
  }

  lemma {:induction false} TenIsTen()
    ensures Pow10(1) == 10
  {
  }

  lemma {:induction false} TenTimesMore(m: nat, v: nat, p: nat, q: nat, t: nat)
    requires m >= v > 0 && t < p && q >= 1
    ensures m * (p * (10 * q)) > v * p + t
  {
    NineMore(v, p, t);
    var a := v * p;
    assert m * (p * (10 * q)) == 10 * ((m * p) * q);
    AtLeast(m * p, q);
    Monotone(v, m, p);
    assert (10 * v) * p == 10 * (v * p);
  }

  lemma {:induction false} Monotone(v: nat, m: nat, p: nat)
    requires v <= m
    ensures v * p <= m * p
  {
  }

  /** The value read for digits around a point without an exponent. */
  function DecimalRead(n: nat, frac: string): real
    requires AllDigits(frac) && n <= Max(Mantissa)
  {
    var (m, k, _) := Fraction(n, frac);
    Scale(-(k as int), m).1
  }

  /** The digits the mantissa refuses are zeros, and what it takes is within the tables of the scale. */
  predicate ExactDigits(whole: string, frac: string)
    requires AllDigits(whole) && AllDigits(frac)
  {
    var j := FittingDigits(Number(whole), frac);
    AllZeros(frac[j..]) && (j <= 614 || PrefixValue(Number(whole), frac, j) == 0)
  }

  lemma {:induction false} DecimalReadExact(whole: string, frac: string)
    requires AllDigits(whole) && AllDigits(frac) && Number(whole) <= Max(Mantissa)
    ensures AllDigits(whole + frac)
    ensures DecimalRead(Number(whole), frac) == Times(Number(whole + frac), -|frac|) <==> ExactDigits(whole, frac)
  {
    hide Pow10, Number, Fraction, PrefixValue, Times, AllZeros;
    var (m, k, _) := Fraction(Number(whole), frac);
    FractionPrefix(Number(whole), frac);
    MantissaExact(whole, frac);
    var n := Number(whole + frac);
    if k <= 614 {
      TimesShift(m, |frac| - k, -|frac|);
      TimesInjective(m * Pow10(|frac| - k), n, -|frac|);
    } else {
      DeepMantissa(whole, frac);
      TimesShift(m, |frac| - 307, -|frac|);
      TimesInjective(m * Pow10(|frac| - 307), n, -|frac|);
      if PrefixValue(Number(whole), frac, k) == 0 {
        assert frac[k..] == "";
        assert AllZeros("") by { NoDigits(); }
      }
    }
  }

  lemma {:induction false} NoDigits()
    ensures AllZeros("")
  {
  }

  // ----- the text of a literal -----

  lemma {:induction false} WholeIs(ds: string, rest: string)
    requires AllDigits(ds) && !StartsWith(rest, IsDigit)
    ensures Whole(ds + rest) == if ds != "" && Number(ds) <= Max(Mantissa) then Some(Number(ds)) else None
    ensures (ds + rest)[Span(ds + rest, IsDigit)..] == rest
  {
    SpanIs(ds, rest, IsDigit);
    ExtractIsNumber(ds, false, Mantissa);
  }

  lemma {:induction false} NoSpecial(t: string)
    requires t == "" || IsDigit(t[0]) || t[0] == '.'
    ensures NanOrInf(t) == (None, t)
  {
  }

  /** Digits around an optional point, up to the exponent or the end. */
  function Digital(whole: string, point: bool, frac: string): string {
    whole + if point then "." + frac else ""
  }

  /** A literal has a digit, and a point or an exponent. */
  predicate IsDigital(whole: string, point: bool, frac: string, tail: string) {
    && AllDigits(whole) && AllDigits(frac) && !StartsWith(tail, IsDigit)
    && (if point then whole != "" || frac != "" else whole != "" && frac == "" && StartsWith(tail, IsExponent))
  }

  lemma {:induction false} FromPoint(neg: bool, n: Option<int>, frac: string, tail: string)
    requires AllDigits(frac) && !StartsWith(tail, IsDigit) && (n.None? ==> frac != "")
    requires n.Some? ==> InRange(n.value, Mantissa)
    ensures var (m, k, _) := Fraction(if n.Some? then n.value else 0, frac);
      AfterWhole(neg, n, "." + frac + tail) == Finish(neg, m, k, tail)
  {
    hide Finish, Fraction, Span;
    var b := "." + frac + tail;
    assert b[1..] == frac + tail;
    SpanIs(frac, tail, IsDigit);
  }

  /** The digits are read into the mantissa, and what follows is finished from there. */
  lemma {:induction false} DigitsRead(neg: bool, whole: string, point: bool, frac: string, tail: string)
    requires IsDigital(whole, point, frac, tail)
    ensures AfterSign(neg, Digital(whole, point, frac) + tail)
         == if Number(whole) > Max(Mantissa) then Restored
            else var (m, k, _) := Fraction(Number(whole), frac);
              Finish(neg, m, k, tail)
  {
    hide Whole, Span, Number, NanOrInf, Finish;
    var b := if point then "." + frac + tail else tail;
    assert Digital(whole, point, frac) + tail == whole + b;
    WholeIs(whole, b);
    if whole == "" {
      assert Number("") == 0 by { NothingIsZero(); }
      assert whole + b == b;
      NoSpecial(b);
    } else {
      assert (whole + b)[0] == whole[0] && whole[0] in whole;
      NoSpecial(whole + b);
    }
    if point && Number(whole) <= Max(Mantissa) {
      FromPoint(neg, if whole == "" then None else Some(Number(whole)), frac, tail);
    }
  }

  lemma {:induction false} NothingIsZero()
    ensures Number("") == 0
  {
  }

  lemma {:induction false} SignedDigits(s: string, whole: string, point: bool, frac: string, tail: string)
    requires IsSign(s) && IsDigital(whole, point, frac, tail)
    ensures var t := s + Digital(whole, point, frac) + tail;
      StrictDouble(t)
      == if Number(whole) > Max(Mantissa) then (None, t)
         else
           var (m, k, _) := Fraction(Number(whole), frac);
           match Finish(s == "-", m, k, tail)
           case Matched(d, rest) => (Some(d), rest)
           case Restored => (None, t)
           case Stuck(rest) => (None, rest)
  {
    hide AfterSign, Sign, Number, Fraction, Finish;
    var a := Digital(whole, point, frac) + tail;
    assert s + Digital(whole, point, frac) + tail == s + a;
    assert whole != "" ==> a[0] == whole[0] && whole[0] in whole;
    SignIs(s, a);
    DigitsRead(s == "-", whole, point, frac, tail);
  }

  lemma {:induction false} ScaleNothing(m: int)
    ensures Scale(0, m) == (true, m as real)
  {
    assert TenTo(0) == 1.0;
  }

  lemma {:induction false} FinishPlain(neg: bool, n: nat, frac: string, rest: string)
    requires AllDigits(frac) && n <= Max(Mantissa)
    requires !StartsWith(rest, IsExponent)
    requires frac == "" ==> !Reads(rest, "nan") && !Reads(rest, "inf")
    ensures var (m, k, _) := Fraction(n, frac);
      Finish(neg, m, k, rest) == Matched(Negated(neg, Finite(DecimalRead(n, frac))), rest)
  {
    hide Fraction, Scale, PrefixValue;
    var (m, k, _) := Fraction(n, frac);
    FractionPrefix(n, frac);
    ScaleNothing(m);
    if k == 0 && frac != "" {
      RefusedAtOnce(n, frac);
    }
  }

  /** A mantissa that takes no digit is not one. */
  lemma {:induction false} RefusedAtOnce(n: nat, frac: string)
    requires AllDigits(frac) && frac != "" && n <= Max(Mantissa) && FittingDigits(n, frac) == 0
    ensures Fraction(n, frac).0 != 1
  {
    FractionPrefix(n, frac);
    FittingIsLongest(n, frac, 1);
    PrefixNext(n, frac, 0);
    assert frac[..0] == "";
  }

  /** A literal with a point and no exponent. It is refused, with nothing consumed, exactly when the digits before the
      point do not fit 64 bits; otherwise it is a number and everything up to `rest` is consumed. The number is the one
      written exactly when the digits after the point that the mantissa refuses are zeros and those it takes are at most
      614 or stand for zero. */
  lemma {:induction false} DecimalLiteral(s: string, whole: string, frac: string, rest: string)
    requires IsSign(s) && AllDigits(whole) && AllDigits(frac) && (whole != "" || frac != "")
    requires !StartsWith(rest, IsDigit) && !StartsWith(rest, IsExponent)
    requires frac == "" ==> !Reads(rest, "nan") && !Reads(rest, "inf")
    ensures AllDigits(whole + frac)
    ensures var t := s + Digital(whole, true, frac) + rest;
      var written := Negated(s == "-", Finite(Times(Number(whole + frac), -|frac|)));
      && StrictDouble(t) == (if Number(whole) > Max(Mantissa) then (None, t)
                             else (Some(Negated(s == "-", Finite(DecimalRead(Number(whole), frac)))), rest))
      && (StrictDouble(t) == (Some(written), rest) <==> Number(whole) <= Max(Mantissa) && ExactDigits(whole, frac))
  {
    hide StrictDouble, Number, Times, DecimalRead, ExactDigits, Finish, Fraction, Digital;
    NumberSplit(whole, frac, 0);
    SignedDigits(s, whole, true, frac, rest);
    if Number(whole) <= Max(Mantissa) {
      FinishPlain(s == "-", Number(whole), frac, rest);
      DecimalReadExact(whole, frac);
    }
  }

  /** With an exponent. One that does not fit 32 bits is not consumed. One that takes the scale out of its tables leaves
      no number, and parsing goes on behind the literal. Otherwise the number is the one written exactly when the digits
      the mantissa refuses are zeros. */
  lemma {:induction false} ExponentLiteral(s: string, whole: string, point: bool, frac: string, e: char,
                                           es: string, ds: string, rest: string)
    requires IsSign(s) && AllDigits(whole) && AllDigits(frac)
    requires if point then whole != "" || frac != "" else whole != "" && frac == ""
    requires IsExponent(e) && IsSign(es) && ds != "" && AllDigits(ds) && !StartsWith(rest, IsDigit)
    ensures AllDigits(whole + frac)
    ensures var tail := [e] + (es + ds + rest);
      var t := s + Digital(whole, point, frac) + tail;
      var exp := Literal(es, ds);
      var k := FittingDigits(Number(whole), frac);
      var written := Negated(s == "-", Finite(Times(Number(whole + frac), exp - |frac|)));
      && (Number(whole) > Max(Mantissa) ==> StrictDouble(t) == (None, t))
      && (Number(whole) <= Max(Mantissa) ==>
            if !InRange(exp, Bits32) then
              StrictDouble(t) == (Some(Negated(s == "-", Finite(DecimalRead(Number(whole), frac)))), tail)
            else if exp - k > 308 || exp - k < -614 then StrictDouble(t) == (None, rest)
            else
              && StrictDouble(t).0.Some? && StrictDouble(t).1 == rest
              && (StrictDouble(t).0 == Some(written) <==> AllZeros(frac[k..])))
  {
    hide StrictDouble, Number, Times, Fraction, Digital, ParseSigned, PrefixValue, AllZeros, Literal;
    var tail := [e] + (es + ds + rest);
    NumberSplit(whole, frac, 0);
    SignedDigits(s, whole, point, frac, tail);
    assert tail[1..] == es + ds + rest;
    SignedLiteral(es, ds, rest, Bits32);
    if Number(whole) <= Max(Mantissa) {
      var (m, k, _) := Fraction(Number(whole), frac);
      FractionPrefix(Number(whole), frac);
      MantissaExact(whole, frac);
      var exp, n := Literal(es, ds), Number(whole + frac);
      TimesShift(m, |frac| - k, exp - |frac|);
      TimesInjective(m * Pow10(|frac| - k), n, exp - |frac|);
    }
  }

  lemma {:induction false} IntegerRestores(neg: bool, ds: string, rest: string)
    requires ds != "" && AllDigits(ds)
    requires rest == "" || (!IsDigit(rest[0]) && !IsExponent(rest[0]) && rest[0] != '.')
    ensures AfterSign(neg, ds + rest) == Restored
  {
    hide Whole, Span, Finish, Fraction;
    WholeIs(ds, rest);
    if Number(ds) > Max(Mantissa) {
      assert (ds + rest)[0] == ds[0] && ds[0] in ds;
    }
  }

  /** No point and no exponent: not a strict real, and nothing is consumed. */
  lemma {:induction false} IntegerIsNotDouble(s: string, ds: string, rest: string)
    requires IsSign(s) && ds != "" && AllDigits(ds)
    requires rest == "" || (!IsDigit(rest[0]) && !IsExponent(rest[0]) && rest[0] != '.')
    ensures StrictDouble(s + ds + rest) == (None, s + ds + rest)
  {
    hide Sign, AfterSign;
    var t := ds + rest;
    assert s + ds + rest == s + t;
    assert t[0] == ds[0] && ds[0] in ds;
    SignIs(s, t);
    IntegerRestores(s == "-", ds, rest);
  }
}
