/**
 How the generator writes a double, and what reading that gives. The value is cut to three digits after the point, of
 itself between 0.001 and 100000, otherwise of its mantissa in front of an exponent.
 */
module SqfDoubles {

  import opened SqfText
  import opened SqfNumbers
  import opened SqfLiterals

  // ----- the generator -----

  function AbsReal(x: real): (n: real)
    ensures n >= 0.0 && (n == 0.0 <==> x == 0.0)
  {
    if x < 0.0 then -x else x
  }

  /** n in thousandths, rounded half up. */
  function Thousandths(n: real): int {
    (n * 1000.0 + 0.5).Floor
  }

  /** Written without an exponent. */
  predicate FixedNotation(n: real) {
    n == 0.0 || 0.001 <= n < 100000.0
  }

  /** Within the generator's table of powers, and not so large that the rounded value is beyond a double. */
  predicate InTable(n: real) {
    n == 0.0 || (TenTo(-308) <= n < Times(17975, 304))
  }

  /** The largest exponent up to e whose power of ten does not exceed n. */
  function ExponentFrom(n: real, e: int): (r: int)
    requires -308 <= e
    ensures -308 <= r <= e
    ensures TenTo(-308) <= n ==> TenTo(r) <= n
    ensures n < TenTo(e + 1) ==> n < TenTo(r + 1)
    decreases e + 308
  {
    if e == -308 || TenTo(e) <= n then e else ExponentFrom(n, e - 1)
  }

  /** The decimal exponent the generator writes n with. */
  function Exponent(n: real): (e: int)
    ensures -308 <= e <= 308
  {
    if FixedNotation(n) then 0 else ExponentFrom(n, 308)
  }

  /** Dropping trailing zeros of a three-digit fraction: what is left, and in how many digits. */
  function Trim(f: nat, precision: nat): (r: (nat, nat))
  {
    if precision != 0 && f % 10 == 0 then Trim(f / 10, precision - 1) else (f, precision)
  }

  function Zeros(n: nat): (z: string)
    ensures |z| == n && AllDigits(z)
  {
    if n == 0 then "" else "0" + Zeros(n - 1)
  }

  /** Right-aligned in `width` digits. */
  function Pad(n: nat, width: nat): string {
    var ds := Digits(n);
    Zeros(if |ds| < width then width - |ds| else 0) + ds
  }

  /** The digits after the point for f thousandths, at least one. */
  function FractionDigits(f: nat): string
    requires f < 1000
  {
    if f == 0 then "0"
    else
      var (g, precision) := Trim(f, 3);
      Pad(g, precision)
  }

  function Magnitude(e: int): nat {
    if e < 0 then -e else e
  }

  function ExponentSign(e: int): string {
    if e < 0 then "-" else ""
  }

  /** At least two digits. */
  function ExponentDigits(e: int): string {
    (if Magnitude(e) < 10 then "0" else "") + Digits(Magnitude(e))
  }

  function Ratio(x: real, p: real): (r: real)
    requires x >= 0.0 && p > 0.0
    ensures r >= 0.0
  {
    x / p
  }

  /** What is written in front of the exponent, before it is cut. */
  function Mantissa(n: real): (m: real)
    requires n >= 0.0
    ensures m >= 0.0
  {
    Ratio(n, TenTo(Exponent(n)))
  }

  /** The part before the point, and what is behind it in thousandths, which may round up into the former. */
  function Parts(m: real): (r: (nat, nat))
    requires m >= 0.0
    ensures r.1 < 1000
  {
    var whole := m.Floor;
    var scaled := ((m - whole as real) * 1000.0 + 0.5).Floor;
    if scaled >= 1000 then (whole + 1, scaled - 1000) else (whole, scaled)
  }

  function PrintReal(x: real): string
    requires InTable(AbsReal(x))
  {
    var n := AbsReal(x);
    var (w, f) := Parts(Mantissa(n));
    var sign := if x < 0.0 && !(w == 0 && f == 0) then "-" else "";
    sign + Digits(w) + "." + FractionDigits(f)
    + if FixedNotation(n) then "" else "e" + ExponentSign(Exponent(n)) + ExponentDigits(Exponent(n))
  }

  // ----- what it stands for -----

  /** The mantissa of n in thousandths. */
  function Mantissa3(n: real): int
    requires n >= 0.0
  {
    Thousandths(Mantissa(n))
  }

  /** What the text for n says. */
  function RoundedUp(n: real): real
    requires n >= 0.0
  {
    Times(Mantissa3(n), Exponent(n) - 3)
  }

  function Rounded(x: real): real {
    if x < 0.0 then -RoundedUp(-x) else RoundedUp(x)
  }

  /** Rounding reaches the next power of ten, which the generator would have written otherwise. */
  predicate Carries(n: real)
    requires n >= 0.0
  {
    n != 0.0 && Mantissa3(n) == if FixedNotation(n) then 100_000_000 else 10_000
  }

  // ----- powers and mantissas -----

  lemma {:induction false} TenToOrder(a: int, b: int)
    requires a < b
    ensures TenTo(a) < TenTo(b)
    decreases b - a
  {
    TenToNext(b - 1);
    if a < b - 1 {
      TenToOrder(a, b - 1);
    }
  }

  lemma {:induction false} TimesIs(t: nat, e: int)
    ensures Times(Pow10(t), e) == TenTo(e + t)
  {
    TimesShift(1, t, e);
  }

  lemma {:induction false} SmallPowers()
    ensures Pow10(3) == 1000 && Pow10(4) == 10_000 && Pow10(5) == 100_000 && Pow10(8) == 100_000_000
    ensures TenTo(0) == 1.0 && TenTo(5) == 100000.0 && TenTo(-3) == 0.001
  {
    assert Pow10(1) == 10 && Pow10(2) == 100;
    assert Pow10(6) == 10 * Pow10(5) && Pow10(7) == 10 * Pow10(6);
  }

  /** A positive number between two powers of ten has the exponent of the lower one. */
  lemma {:induction false} ExponentIs(n: real, e: int, from: int)
    requires -308 <= e <= from && TenTo(e) <= n < TenTo(e + 1)
    ensures ExponentFrom(n, from) == e
    decreases from - e
  {
    hide TenTo;
    if from > e {
      if from > e + 1 {
        TenToOrder(e + 1, from);
      }
      ExponentIs(n, e, from - 1);
    }
  }

  lemma {:induction false} BelowTop()
    ensures Times(17975, 304) < TenTo(309)
    ensures TenTo(308) == TenTo(304) * 10_000.0
  {
    hide TenTo;
    SmallPowers();
    TimesIs(5, 304);
    TimesIs(4, 304);
    TimesInjective(17975, 100_000, 304);
  }

  lemma {:induction false} RatioTimes(x: real, p: real)
    requires x >= 0.0 && p > 0.0
    ensures Ratio(x, p) * p == x
  {
  }

  lemma {:induction false} RatioOf(m: real, p: real)
    requires m >= 0.0 && p > 0.0
    ensures m * p >= 0.0 && Ratio(m * p, p) == m
  {
  }

  lemma {:induction false} RatioOrder(x: real, p: real, c: real)
    requires x >= 0.0 && p > 0.0
    ensures Ratio(x, p) < c <==> x < c * p
  {
    hide Ratio;
    RatioTimes(x, p);
    ScaleOrder(Ratio(x, p), c, p);
  }

  lemma {:induction false} MantissaBetween(n: real, p: real)
    requires p > 0.0 && p <= n < 10.0 * p
    ensures 1_000 <= Thousandths(Ratio(n, p)) <= 10_000
  {
    hide Ratio;
    RatioOrder(n, p, 10.0);
    RatioOrder(n, p, 1.0);
  }

  lemma {:induction false} MantissaBelow(n: real, p: real, q: real)
    requires q > 0.0 && p == q * 10_000.0 && 0.0 <= n < 17975.0 * q
    ensures Thousandths(Ratio(n, p)) <= 1_797
  {
    hide Ratio;
    RatioOrder(n, p, 1.7975);
  }

  /** The mantissa in front of an exponent lies between 1 and 10, and the exponent outside those of fixed notation. */
  lemma {:induction false} MantissaRange(n: real)
    requires n > 0.0 && InTable(n) && !FixedNotation(n)
    ensures var e := Exponent(n);
      && (e >= 5 || e <= -4)
      && TenTo(e) <= n < TenTo(e + 1)
      && 1_000 <= Mantissa3(n) <= 10_000
      && (e == 308 ==> Mantissa3(n) <= 1_797)
  {
    hide TenTo, Thousandths;
    var e := Exponent(n);
    SmallPowers();
    BelowTop();
    if e < 5 && e > -4 {
      if e < 4 {
        TenToOrder(e + 1, 5);
      }
      if e > -3 {
        TenToOrder(-3, e);
      }
    }
    TenToNext(e);
    MantissaBetween(n, TenTo(e));
    if e == 308 {
      MantissaBelow(n, TenTo(308), TenTo(304));
    }
  }

  /** In fixed notation the number itself is cut. */
  lemma {:induction false} FixedRange(n: real)
    requires n >= 0.0 && FixedNotation(n)
    ensures Mantissa(n) == n
    ensures 0 <= Mantissa3(n) <= 100_000_000 && (n == 0.0 <==> Mantissa3(n) == 0)
  {
    SmallPowers();
  }

  lemma {:induction false} TrimKeeps(f: nat, precision: nat)
    requires 0 < f < Pow10(precision)
    ensures var (g, p) := Trim(f, precision);
      1 <= p <= precision && 0 < g < Pow10(p) && g * Pow10(precision - p) == f
  {
    if precision != 0 && f % 10 == 0 {
      TrimKeeps(f / 10, precision - 1);
      var (g, p) := Trim(f / 10, precision - 1);
      Shift(g, Pow10(precision - 1 - p), f);
    }
  }

  lemma {:induction false} Shift(g: nat, p: nat, f: nat)
    requires f % 10 == 0 && g * p == f / 10
    ensures g * (10 * p) == f
  {
    assert g * (10 * p) == 10 * (g * p);
  }

  lemma {:induction false} DigitsFit(n: nat, k: nat)
    requires k >= 1 && n < Pow10(k)
    ensures |Digits(n)| <= k
  {
    if n >= 10 {
      DigitsFit(n / 10, k - 1);
    }
  }

  lemma {:induction false} ZerosCountNothing(n: nat)
    ensures Number(Zeros(n)) == 0
  {
    if n > 0 {
      ZerosCountNothing(n - 1);
      NumberConcat("0", Zeros(n - 1));
      assert "0"[..0] == "";
    }
  }

  /** Zeros in front, up to a width the number fits, say nothing. */
  lemma {:induction false} Padded(g: nat, p: nat)
    requires p >= 1 && g < Pow10(p)
    ensures AllDigits(Pad(g, p)) && |Pad(g, p)| == p >= |Digits(g)| && Number(Pad(g, p)) == g
  {
    hide Pow10, Number, Digits, Zeros;
    var ds := Digits(g);
    DigitsFit(g, p);
    DigitsDenote(g);
    ZerosCountNothing(p - |ds|);
    NumberConcat(Zeros(p - |ds|), ds);
    assert 0 * Pow10(|ds|) == 0;
  }

  lemma {:induction false} FractionValue(f: nat)
    requires f < 1000
    ensures var ds := FractionDigits(f);
      AllDigits(ds) && 1 <= |ds| <= 3 && Number(ds) * Pow10(3 - |ds|) == f
  {
    hide Pad, Trim;
    if f == 0 {
      assert "0"[..0] == "";
    } else {
      SmallPowers();
      hide Pow10, Number;
      TrimKeeps(f, 3);
      var (g, p) := Trim(f, 3);
      Padded(g, p);
    }
  }

  lemma {:induction false} WholeAndThousandths(n: real)
    requires n >= 0.0
    ensures var whole := n.Floor;
      var scaled := ((n - whole as real) * 1000.0 + 0.5).Floor;
      0 <= scaled <= 1000 && whole * 1000 + scaled == (n * 1000.0 + 0.5).Floor
  {
    var whole := n.Floor;
    var r := n - whole as real;
    assert n * 1000.0 + 0.5 == (whole * 1000) as real + (r * 1000.0 + 0.5);
  }

  /** The digits of the rounded mantissa, and the exponent if there is one. */
  function Written(m: nat, fixed: bool, e: int): string {
    Digits(m / 1000) + "." + FractionDigits(m % 1000)
    + if fixed then "" else "e" + ExponentSign(e) + ExponentDigits(e)
  }

  lemma {:induction false} PartsAre(m: real)
    requires m >= 0.0
    ensures Thousandths(m) >= 0 && Parts(m) == (Thousandths(m) / 1000, Thousandths(m) % 1000)
  {
    WholeAndThousandths(m);
  }

  /** The generator writes the rounded thousandths, with a sign only when they are not zero. */
  lemma {:induction false} PrintRealForm(x: real)
    requires InTable(AbsReal(x))
    ensures var n := AbsReal(x);
      var m := Mantissa3(n);
      && 0 <= m <= 100_000_000 && (x != 0.0 ==> m > 0) && (!FixedNotation(n) ==> m <= 10_000)
      && PrintReal(x) == (if x < 0.0 then "-" else "") + Written(m, FixedNotation(n), Exponent(n))
  {
    hide Digits, FractionDigits, ExponentDigits, ExponentSign, TenTo, Mantissa, Parts, Thousandths, Exponent;
    var n := AbsReal(x);
    if FixedNotation(n) {
      FixedRange(n);
    } else {
      MantissaRange(n);
    }
    PartsAre(Mantissa(n));
  }

  // ----- reading it back -----

  /** The digits of m thousandths, as a number in their own last place. */
  lemma {:induction false} WrittenDigits(m: nat)
    requires m <= 100_000_000
    ensures var whole, frac := Digits(m / 1000), FractionDigits(m % 1000);
      && AllDigits(frac) && 1 <= |frac| <= 3 && AllDigits(whole + frac)
      && Number(whole + frac) * Pow10(3 - |frac|) == m
      && Number(whole + frac) <= m
      && Number(whole) == m / 1000
  {
    var w, f := m / 1000, m % 1000;
    var frac := FractionDigits(f);
    FractionValue(f);
    DigitsDenote(w);
    NumberConcat(Digits(w), frac);
    SmallPowers();
    Pow10Add(|frac|, 3 - |frac|);
    hide Pow10, Number, Digits, FractionDigits;
    ThreePlaces(w, Pow10(|frac|), Number(frac), Pow10(3 - |frac|), f);
    AtLeast(Number(Digits(w) + frac), Pow10(3 - |frac|));
  }

  lemma {:induction false} ThreePlaces(w: nat, p: nat, g: nat, q: nat, f: nat)
    requires p * q == 1000 && g * q == f
    ensures (w * p + g) * q == w * 1000 + f
  {
    assert (w * p + g) * q == w * (p * q) + g * q;
  }

  lemma {:induction false} AllFit(n: nat, frac: string)
    requires AllDigits(frac) && PrefixValue(n, frac, |frac|) <= Max(Bits64) && n <= Max(Bits64)
    ensures FittingDigits(n, frac) == |frac|
  {
    FittingIsLongest(n, frac, |frac|);
  }

  lemma {:induction false} FixedReadsBack(s: string, m: nat, rest: string)
    requires IsSign(s) && m <= 100_000_000 && !StartsWith(rest, IsDigit) && !StartsWith(rest, IsExponent)
    ensures StrictDouble(s + Digits(m / 1000) + "." + FractionDigits(m % 1000) + rest)
         == (Some(Negated(s == "-", Finite(Times(m, -3)))), rest)
  {
    hide StrictDouble, Number, Times, Pow10, Digits, FractionDigits, FittingDigits, PrefixValue, DecimalRead;
    var whole, frac := Digits(m / 1000), FractionDigits(m % 1000);
    WrittenDigits(m);
    WholePrefix(whole, frac);
    AllFit(Number(whole), frac);
    DecimalLiteral(s, whole, frac, rest);
    TimesShift(Number(whole + frac), 3 - |frac|, -3);
    assert s + Digital(whole, true, frac) + rest == s + whole + "." + frac + rest;
  }

  lemma {:induction false} WholePrefix(whole: string, frac: string)
    requires AllDigits(whole) && AllDigits(frac)
    ensures AllDigits(whole + frac) && PrefixValue(Number(whole), frac, |frac|) == Number(whole + frac)
  {
    NumberConcat(whole, frac);
    assert frac[..|frac|] == frac;
  }

  lemma {:induction false} ExponentValue(e: int)
    requires -308 <= e <= 308
    ensures IsSign(ExponentSign(e)) && ExponentDigits(e) != "" && AllDigits(ExponentDigits(e))
    ensures Literal(ExponentSign(e), ExponentDigits(e)) == e
  {
    var d := Magnitude(e);
    DigitsDenote(d);
    ZeroInFront(Digits(d));
    hide Number, Digits;
    assert "" + Digits(d) == Digits(d);
  }

  lemma {:induction false} ZeroInFront(ds: string)
    requires AllDigits(ds)
    ensures AllDigits("0" + ds) && Number("0" + ds) == Number(ds)
  {
    NumberConcat("0", ds);
    assert "0"[..0] == "";
    assert 0 * Pow10(|ds|) == 0;
  }

  lemma {:induction false} ScientificReadsBack(s: string, m: nat, e: int, rest: string)
    requires IsSign(s) && m <= 10_000 && -308 <= e <= 308 && !StartsWith(rest, IsDigit)
    ensures StrictDouble(s + Digits(m / 1000) + "." + FractionDigits(m % 1000)
                           + ("e" + ExponentSign(e) + ExponentDigits(e)) + rest)
         == (Some(Negated(s == "-", Finite(Times(m, e - 3)))), rest)
  {
    hide StrictDouble, Number, Times, Pow10, Digits, FractionDigits, FittingDigits, PrefixValue, DecimalRead;
    hide ExponentSign, ExponentDigits, Literal;
    var whole, frac := Digits(m / 1000), FractionDigits(m % 1000);
    WrittenDigits(m);
    WholePrefix(whole, frac);
    AllFit(Number(whole), frac);
    ExponentValue(e);
    ExponentLiteral(s, whole, true, frac, 'e', ExponentSign(e), ExponentDigits(e), rest);
    TimesShift(Number(whole + frac), 3 - |frac|, e - 3);
    assert frac[|frac|..] == "";
    assert s + Digital(whole, true, frac) + (['e'] + (ExponentSign(e) + ExponentDigits(e) + rest))
        == s + whole + "." + frac + ("e" + ExponentSign(e) + ExponentDigits(e)) + rest;
  }

  lemma {:induction false} Regroup(s: string, a: string, b: string, c: string, rest: string)
    ensures s + (a + "." + b + c) + rest == s + a + "." + b + c + rest
    ensures c == "" ==> s + (a + "." + b + c) + rest == s + a + "." + b + rest
  {
  }

  lemma {:induction false} WrittenReadsBack(s: string, m: nat, fixed: bool, e: int, rest: string)
    requires IsSign(s) && m <= (if fixed then 100_000_000 else 10_000)
    requires if fixed then e == 0 else -308 <= e <= 308
    requires !StartsWith(rest, IsDigit) && !StartsWith(rest, IsExponent)
    ensures StrictDouble(s + Written(m, fixed, e) + rest) == (Some(Negated(s == "-", Finite(Times(m, e - 3)))), rest)
  {
    hide StrictDouble, Digits, FractionDigits, Times, ExponentSign, ExponentDigits, Negated;
    var tail := if fixed then "" else "e" + ExponentSign(e) + ExponentDigits(e);
    Regroup(s, Digits(m / 1000), FractionDigits(m % 1000), tail, rest);
    if fixed {
      FixedReadsBack(s, m, rest);
    } else {
      ScientificReadsBack(s, m, e, rest);
    }
  }

  /** Reading back what was written for a double gives it rounded, in either notation, and leaves exactly the rest. */
  lemma {:induction false} DoubleReadsBack(x: real, rest: string)
    requires InTable(AbsReal(x))
    requires !StartsWith(rest, IsDigit) && !StartsWith(rest, IsExponent)
    ensures StrictDouble(PrintReal(x) + rest) == (Some(Finite(Rounded(x))), rest)
  {
    hide StrictDouble, PrintReal, Written, Mantissa3, Times;
    var n := AbsReal(x);
    PrintRealForm(x);
    WrittenReadsBack(if x < 0.0 then "-" else "", Mantissa3(n), FixedNotation(n), Exponent(n), rest);
  }

  // ----- when the text is stable -----

  lemma {:induction false} ThousandthsOf(m: nat)
    ensures Thousandths(m as real / 1000.0) == m
  {
  }

  /** A number of thousandths before an exponent has the exponent and the thousandths it says. */
  lemma {:induction false} ScientificIs(m: nat, e: int)
    requires 1_000 <= m < 10_000 && -308 <= e <= 308 && (e >= 5 || e <= -4)
    ensures var y := Times(m, e - 3);
      && y > 0.0 && TenTo(e) <= y < TenTo(e + 1) && !FixedNotation(y)
      && Exponent(y) == e && Mantissa3(y) == m && RoundedUp(y) == y
  {
    hide TenTo, Times, Thousandths, Pow10, Ratio;
    var y := Times(m, e - 3);
    SmallPowers();
    TimesIs(3, e - 3);
    TimesIs(4, e - 3);
    TimesInjective(1_000, m, e - 3);
    TimesInjective(m, 10_000, e - 3);
    if e > 5 {
      TenToOrder(5, e);
    }
    if e + 1 < -3 {
      TenToOrder(e + 1, -3);
    }
    ExponentIs(y, e, 308);
    ThousandsOf(m, e);
    ThousandthsOf(m);
  }

  lemma {:induction false} ThousandsOf(m: nat, e: int)
    ensures Times(m, e - 3) >= 0.0 && Ratio(Times(m, e - 3), TenTo(e)) == m as real / 1000.0
  {
    hide TenTo, Ratio;
    TenToAdd(e - 3, 3);
    SmallPowers();
    ThousandthScale(m as real, TenTo(e - 3), TenTo(e));
    RatioOf(m as real / 1000.0, TenTo(e));
  }

  lemma {:induction false} ThousandthScale(m: real, q: real, p: real)
    requires p == q * 1000.0
    ensures m * q == (m / 1000.0) * p
  {
  }

  /** Thousandths in fixed notation say themselves. */
  lemma {:induction false} FixedIs(m: nat)
    requires m < 100_000_000
    ensures var y := Times(m, -3);
      && y >= 0.0 && FixedNotation(y) && Exponent(y) == 0 && Mantissa3(y) == m && RoundedUp(y) == y
  {
    hide TenTo, Thousandths;
    var y := Times(m, -3);
    SmallPowers();
    assert y == m as real / 1000.0;
    ThousandthsOf(m);
    RatioOf(y, 1.0);
  }

  lemma {:induction false} PowerInTable(y: real, e: int)
    requires -308 <= e <= 307 && TenTo(e) <= y < TenTo(e + 1)
    ensures InTable(y)
  {
    hide TenTo, Times;
    if e > -308 {
      TenToOrder(-308, e);
    }
    if e < 307 {
      TenToOrder(e + 1, 308);
    }
    TimesIs(4, 304);
    SmallPowers();
    TimesInjective(10_000, 17975, 304);
  }

  lemma {:induction false} ScientificInTable(m: nat, e: int)
    requires 1_000 <= m < 10_000 && -308 <= e <= 308 && (e >= 5 || e <= -4) && (e == 308 ==> m <= 1_797)
    ensures Times(m, e - 3) >= 0.0 && InTable(Times(m, e - 3))
  {
    hide TenTo, Times, Pow10;
    ScientificIs(m, e);
    if e <= 307 {
      PowerInTable(Times(m, e - 3), e);
    } else {
      TenToOrder(-308, 308);
      SmallPowers();
      assert Pow10(1) == 10 by { TenIsTen(); }
      TimesShift(m, 1, 304);
      TimesInjective(m * 10, 17975, 304);
    }
  }

  lemma {:induction false} FixedInTable(n: real)
    requires n >= 0.0 && FixedNotation(n)
    ensures InTable(n)
  {
    hide TenTo, Times;
    SmallPowers();
    TenToOrder(-308, -3);
    TenToOrder(5, 308);
    TimesIs(4, 304);
    TimesInjective(10_000, 17975, 304);
  }

  /** Where rounding carries to: one in the first place, in the notation of the next power of ten. */
  lemma {:induction false} CarriedTo(e: int)
    requires -308 <= e <= 308 && (e >= 5 || e <= -3)
    ensures var y := TenTo(e);
      && InTable(y) && RoundedUp(y) == y && !Carries(y)
      && Mantissa3(y) == if FixedNotation(y) then 1 else 1_000
  {
    hide TenTo, Times, Mantissa3, RoundedUp;
    SmallPowers();
    if e == -3 {
      FixedIs(1);
      TimesIs(0, -3);
      assert Pow10(0) == 1;
      FixedInTable(0.001);
    } else {
      TimesIs(3, e - 3);
      ScientificIs(1_000, e);
      ScientificInTable(1_000, e);
    }
  }

  /** What rounding does to a magnitude. */
  lemma {:induction false} RoundedMagnitude(n: real)
    requires n >= 0.0 && InTable(n)
    ensures var y := RoundedUp(n);
      && y >= 0.0 && (y == 0.0 <==> n == 0.0) && InTable(y) && RoundedUp(y) == y && !Carries(y)
      && (!Carries(n) ==>
            FixedNotation(y) == FixedNotation(n) && Exponent(y) == Exponent(n) && Mantissa3(y) == Mantissa3(n))
      && (Carries(n) ==> Mantissa3(y) == if FixedNotation(y) then 1 else 1_000)
  {
    hide TenTo, Times, Mantissa3, Exponent;
    var m, e := Mantissa3(n), Exponent(n);
    SmallPowers();
    if FixedNotation(n) {
      FixedRange(n);
      assert e == 0 by { FixedExponent(n); }
      if m < 100_000_000 {
        FixedIs(m);
        FixedInTable(Times(m, -3));
        TimesZero(m, -3);
      } else {
        TimesIs(8, -3);
        CarriedTo(5);
      }
    } else {
      MantissaRange(n);
      TimesZero(m, e - 3);
      if m < 10_000 {
        ScientificIs(m, e);
        ScientificInTable(m, e);
      } else {
        TimesIs(4, e - 3);
        CarriedTo(e + 1);
      }
    }
  }

  lemma {:induction false} FixedExponent(n: real)
    requires FixedNotation(n)
    ensures Exponent(n) == 0
  {
  }

  lemma {:induction false} TimesZero(m: nat, e: int)
    ensures Times(m, e) >= 0.0 && (Times(m, e) == 0.0 <==> m == 0)
  {
    TimesInjective(0, m, e);
  }

  // ----- texts that differ -----

  /** The texts differ at a place both have, so they differ whatever follows them. */
  ghost predicate Clash(a: string, b: string) {
    exists i :: 0 <= i < |a| && i < |b| && a[i] != b[i]
  }

  lemma {:induction false} ClashAt(a: string, b: string, i: nat)
    requires i < |a| && i < |b| && a[i] != b[i]
    ensures Clash(a, b)
  {
  }

  lemma {:induction false} ClashInside(front: string, a: string, b: string, c: string, d: string)
    requires Clash(a, b)
    ensures Clash(front + a + c, front + b + d) && front + a + c != front + b + d
  {
    var i :| 0 <= i < |a| && i < |b| && a[i] != b[i];
    ClashAt(front + a + c, front + b + d, |front| + i);
  }

  /** A carried text goes on with a zero where the other one has its point. */
  lemma {:induction false} SecondCharacter(m: nat, fixed: bool, e: int)
    ensures |Written(m, fixed, e)| >= 2
    ensures m == 1 || m == 1_000 ==> Written(m, fixed, e)[1] == '.'
    ensures m == 10_000 || m == 100_000_000 ==> Written(m, fixed, e)[1] == '0'
  {
    hide FractionDigits, ExponentDigits, ExponentSign;
    assert |Digits(0)| == |Digits(1)| == 1;
    TenZeros(10);
    TenZeros(100_000);
  }

  lemma {:induction false} TenZeros(n: nat)
    requires n == 10 || n == 100_000
    ensures |Digits(n)| >= 2 && Digits(n)[1] == '0'
  {
    assert |Digits(1)| == 1 && Digits(10) == Digits(1) + "0";
    if n == 100_000 {
      assert Digits(100) == Digits(10) + "0" && Digits(1_000) == Digits(100) + "0";
      assert Digits(10_000) == Digits(1_000) + "0" && Digits(100_000) == Digits(10_000) + "0";
    }
  }

  /** Rounding is idempotent. The rounded double is written with the same text exactly when rounding does not carry;
      it never carries twice. */
  lemma {:induction false} RoundedPrints(x: real)
    requires InTable(AbsReal(x))
    ensures var y := Rounded(x);
      && InTable(AbsReal(y)) && Rounded(y) == y && !Carries(AbsReal(y))
      && (if Carries(AbsReal(x)) then Clash(PrintReal(x), PrintReal(y)) else PrintReal(x) == PrintReal(y))
  {
    hide PrintReal, Written, RoundedUp, Mantissa3, InTable, Exponent, FixedNotation, TenTo;
    var n, y := AbsReal(x), Rounded(x);
    RoundedMagnitude(n);
    PrintRealForm(x);
    PrintRealForm(y);
    SecondCharacter(Mantissa3(n), FixedNotation(n), Exponent(n));
    SecondCharacter(Mantissa3(AbsReal(y)), FixedNotation(AbsReal(y)), Exponent(AbsReal(y)));
    if Carries(n) {
      ClashAt(PrintReal(x), PrintReal(y), if x < 0.0 then 2 else 1);
    }
  }
}
