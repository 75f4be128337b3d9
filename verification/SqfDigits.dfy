/**
 The texts of numbers, characterised without the functions that write them: no superfluous zeros, and the rounded value.
 */
module SqfDigits {

  import opened SqfText
  import opened SqfNumbers
  import opened SqfLiterals
  import opened SqfDoubles

  // ----- digit strings -----

  /** A number in decimal: at least one digit, and no zero in front of others. */
  predicate Canonical(ds: string) {
    ds != "" && (forall c :: c in ds ==> '0' <= c <= '9') && (|ds| == 1 || ds[0] != '0')
  }

  lemma {:induction false} LastDigit(ds: string)
    requires ds != "" && AllDigits(ds)
    ensures var front := ds[..|ds| - 1];
      && AllDigits(front) && Number(ds) == Number(front) * 10 + Digit(ds[|ds| - 1])
      && Number(ds) / 10 == Number(front) && Number(ds) % 10 == Digit(ds[|ds| - 1])
  {
    TenTimes(Number(ds[..|ds| - 1]), Digit(ds[|ds| - 1]));
  }

  lemma {:induction false} TenTimes(n: nat, d: nat)
    requires d <= 9
    ensures (n * 10 + d) / 10 == n && (n * 10 + d) % 10 == d
  {
  }

  lemma {:induction false} NumberPositive(ds: string)
    requires ds != "" && AllDigits(ds) && ds[0] != '0'
    ensures Number(ds) > 0
  {
    hide Number;
    LastDigit(ds);
    if |ds| > 1 {
      NumberPositive(ds[..|ds| - 1]);
    }
  }

  /** Every number is written in exactly one way. */
  lemma {:induction false} DigitsUnique(n: nat, ds: string)
    ensures ds == Digits(n) <==> Canonical(ds) && Number(ds) == n
    decreases n
  {
    DigitsDenote(n);
    DigitsCanonical(n);
    if Canonical(ds) && Number(ds) == n {
      assert AllDigits(ds);
      CanonicalIs(ds);
    }
  }

  lemma {:induction false} DigitsCanonical(n: nat)
    ensures Canonical(Digits(n)) && (n > 0 ==> Digits(n)[0] != '0')
  {
    hide Number;
    if n >= 10 {
      DigitsCanonical(n / 10);
    }
  }

  lemma {:induction false} CanonicalIs(ds: string)
    requires Canonical(ds) && AllDigits(ds)
    ensures Digits(Number(ds)) == ds
  {
    hide Number;
    LastDigit(ds);
    var front, c := ds[..|ds| - 1], ds[|ds| - 1];
    assert DigitChar(Digit(c)) == c;
    assert ds == front + [c];
    if |ds| == 1 {
      assert front == "";
      assert Number("") == 0 by { NothingIsZero(); }
    } else {
      NumberPositive(front);
      CanonicalIs(front);
    }
  }

  lemma {:induction false} NumberInjective(a: string, b: string)
    requires AllDigits(a) && AllDigits(b) && |a| == |b| && Number(a) == Number(b)
    ensures a == b
  {
    hide Number;
    if a != "" {
      LastDigit(a);
      LastDigit(b);
      var k := |a| - 1;
      NumberInjective(a[..k], b[..k]);
      assert a == a[..k] + [a[k]] && b == b[..k] + [b[k]];
    }
  }

  lemma {:induction false} NumberFits(ds: string)
    requires AllDigits(ds)
    ensures Number(ds) < Pow10(|ds|)
  {
    if ds != "" {
      NumberFits(ds[..|ds| - 1]);
    }
  }

  // ----- the digits after the point -----

  /** ds, read behind a point, is f thousandths. */
  predicate Says(ds: string, f: nat) {
    1 <= |ds| <= 3 && (forall c :: c in ds ==> '0' <= c <= '9') && AllDigits(ds) && Number(ds) * Pow10(3 - |ds|) == f
  }

  lemma {:induction false} TrimEnds(f: nat, precision: nat)
    ensures var (g, p) := Trim(f, precision);
      p == 0 || g % 10 != 0
  {
    if precision != 0 && f % 10 == 0 {
      TrimEnds(f / 10, precision - 1);
    }
  }

  lemma {:induction false} LastOfDigits(n: nat)
    ensures var ds := Digits(n);
      ds != "" && ds[|ds| - 1] == DigitChar(n % 10)
  {
  }

  /** The digits after the point are the only ones that say f thousandths and end in no zero, unless they are just 0. */
  lemma {:induction false} FractionUnique(f: nat, ds: string)
    requires f < 1000
    ensures ds == FractionDigits(f) <==> Says(ds, f) && (ds == "0" || ds[|ds| - 1] != '0')
  {
    hide Trim, Pad, Number, Pow10, FractionDigits;
    var fs := FractionDigits(f);
    FractionValue(f);
    FractionEnds(f);
    if Says(ds, f) && (ds == "0" || ds[|ds| - 1] != '0') {
      SameFraction(fs, ds, f);
    }
  }

  lemma {:induction false} FractionEnds(f: nat)
    requires f < 1000
    ensures var ds := FractionDigits(f);
      if f == 0 then ds == "0" else ds != "" && ds[|ds| - 1] != '0'
  {
    if f > 0 {
      SmallPowers();
      hide Trim, Pow10;
      TrimKeeps(f, 3);
      TrimEnds(f, 3);
      LastOfDigits(Trim(f, 3).0);
    }
  }

  lemma {:induction false} SameFraction(a: string, b: string, f: nat)
    requires Says(a, f) && Says(b, f) && (a == "0" || a[|a| - 1] != '0') && (b == "0" || b[|b| - 1] != '0')
    ensures a == b
  {
    hide Number, Pow10;
    NotLonger(a, b, f);
    NotLonger(b, a, f);
    if |a| == |b| {
      Cancel(Number(a), Number(b), Pow10(3 - |a|));
      NumberInjective(a, b);
    }
  }

  lemma {:induction false} Cancel(a: nat, b: nat, p: nat)
    requires p > 0 && a * p == b * p
    ensures a == b
  {
  }

  lemma {:induction false} TenDivides(n: nat, m: nat, i: nat, j: nat)
    requires 1 <= j < i <= 3 && n * Pow10(3 - i) == m * Pow10(3 - j)
    ensures n % 10 == 0
  {
    Powers();
    hide Pow10;
    assert n == 10 * m || n == 100 * m;
  }

  lemma {:induction false} NotLonger(a: string, b: string, f: nat)
    requires Says(a, f) && Says(b, f) && (a == "0" || a[|a| - 1] != '0')
    ensures |a| <= |b|
  {
    LastDigit(a);
    hide Number, Pow10;
    if |b| < |a| {
      TenDivides(Number(a), Number(b), |a|, |b|);
    }
  }

  lemma {:induction false} Powers()
    ensures Pow10(0) == 1 && Pow10(1) == 10 && Pow10(2) == 100 && Pow10(3) == 1000
  {
  }

  /** None of the digits is superfluous: no other way to say f thousandths is shorter. */
  lemma {:induction false} ShortestFraction(f: nat, ds: string)
    requires 0 < f < 1000
    ensures var fs := FractionDigits(f);
      Says(fs, f) && fs[|fs| - 1] != '0' && (Says(ds, f) ==> |fs| <= |ds|)
  {
    hide Number, Pow10, FractionDigits;
    FractionUnique(f, FractionDigits(f));
    FractionValue(f);
    FractionEnds(f);
    if Says(ds, f) {
      NotLonger(FractionDigits(f), ds, f);
    }
  }

  // ----- whole texts -----

  /** whole and frac are the digits of m thousandths, as they are written. */
  predicate Decimals(whole: string, frac: string, m: nat) {
    && Canonical(whole) && AllDigits(whole)
    && Says(frac, m % 1000) && (frac == "0" || frac[|frac| - 1] != '0')
    && Number(whole) == m / 1000
  }

  lemma {:induction false} DecimalsAre(whole: string, frac: string, m: nat)
    requires Decimals(whole, frac, m)
    ensures Digits(m / 1000) == whole && FractionDigits(m % 1000) == frac
  {
    hide Number, Pow10, Digits, FractionDigits, Says, Canonical;
    DigitsUnique(m / 1000, whole);
    FractionUnique(m % 1000, frac);
  }

  /** Zero, and magnitudes from 0.001 up to 100000, are written rounded half up to thousandths. */
  lemma {:induction false} FixedText(x: real, whole: string, frac: string)
    requires x == 0.0 || 0.001 <= x < 100000.0 || 0.001 <= -x < 100000.0
    requires Decimals(whole, frac, ((if x < 0.0 then -x else x) * 1000.0 + 0.5).Floor)
    ensures InTable(AbsReal(x)) && PrintReal(x) == (if x < 0.0 then "-" else "") + whole + "." + frac
  {
    hide PrintReal, Digits, FractionDigits, InTable, Decimals;
    var n := AbsReal(x);
    FixedInTable(n);
    FixedRange(n);
    PrintRealForm(x);
    DecimalsAre(whole, frac, Mantissa3(n));
  }

  /** The exponent, in at least two digits and with a sign only if it is negative. */
  predicate ExponentText(s: string, ds: string, e: int) {
    && s == (if e < 0 then "-" else "")
    && |ds| >= 2 && (|ds| == 2 || ds[0] != '0') && AllDigits(ds)
    && Number(ds) == if e < 0 then -e else e
  }

  lemma {:induction false} ExponentIsText(s: string, ds: string, e: int)
    requires ExponentText(s, ds, e)
    ensures s == ExponentSign(e) && ds == ExponentDigits(e)
  {
    hide Number;
    var d := Magnitude(e);
    if ds[0] == '0' {
      LastDigit(ds);
      assert ds[..1] == "0";
      LastDigit("0");
      assert "0"[..0] == "";
      NothingIsZero();
      var c := ds[1];
      assert Digits(d) == [DigitChar(d)];
      assert ds == "0" + [c];
    } else {
      assert Canonical(ds);
      DigitsUnique(d, ds);
      DigitsLong(ds);
    }
  }

  lemma {:induction false} DigitsLong(ds: string)
    requires |ds| >= 2 && ds[0] != '0' && AllDigits(ds)
    ensures Number(ds) >= 10
  {
    hide Number;
    var front := ds[..|ds| - 1];
    LastDigit(ds);
    NumberPositive(front);
  }

  /** All other magnitudes are written by the power of ten below them and their mantissa in thousandths. */
  lemma {:induction false} ScientificText(x: real, e: int, whole: string, frac: string, es: string, ed: string)
    requires var n := if x < 0.0 then -x else x;
      && n != 0.0 && !(0.001 <= n < 100000.0)
      && TenTo(-308) <= n < Times(17975, 304)
      && -308 <= e <= 308 && TenTo(e) <= n < TenTo(e + 1)
      && Decimals(whole, frac, (n / TenTo(e) * 1000.0 + 0.5).Floor)
    requires ExponentText(es, ed, e)
    ensures InTable(AbsReal(x))
    ensures PrintReal(x) == (if x < 0.0 then "-" else "") + whole + "." + frac + "e" + es + ed
  {
    hide PrintReal, Digits, FractionDigits, Decimals, TenTo, Times, ExponentText, ExponentSign, ExponentDigits;
    var n := AbsReal(x);
    ExponentIs(n, e, 308);
    assert Mantissa3(n) == (n / TenTo(e) * 1000.0 + 0.5).Floor;
    PrintRealForm(x);
    DecimalsAre(whole, frac, Mantissa3(n));
    ExponentIsText(es, ed, e);
    Joined(if x < 0.0 then "-" else "", whole, frac, es, ed);
  }

  lemma {:induction false} Joined(s: string, whole: string, frac: string, es: string, ed: string)
    ensures s + (whole + "." + frac + ("e" + es + ed)) == s + whole + "." + frac + "e" + es + ed
  {
  }
}
