/**
 Concrete inputs at which a promise one might expect fails.
 */
module SqfCounterexamples {

  import opened SqfText
  import opened SqfNumbers
  import opened SqfLiterals
  import opened SqfDoubles
  import opened Sqf
  import opened SqfRoundTrip

  // ----- decimal literals -----

  lemma {:induction false} OneMoreDigit(n: nat, d: nat, ds: string)
    requires n > 0 && d <= 9 && Digits(n) == ds
    ensures Digits(10 * n + d) == ds + [DigitChar(d)]
  {
  }

  lemma {:induction false} LongMantissa()
    ensures Digits(1844674407370955161) == "1844674407370955161"
  {
    assert Digits(1) == "1";
    hide Digits;
    OneMoreDigit(1, 8, "1");
    OneMoreDigit(18, 4, "18");
    OneMoreDigit(184, 4, "184");
    OneMoreDigit(1844, 6, "1844");
    OneMoreDigit(18446, 7, "18446");
    OneMoreDigit(184467, 4, "184467");
    OneMoreDigit(1844674, 4, "1844674");
    OneMoreDigit(18446744, 0, "18446744");
    OneMoreDigit(184467440, 7, "184467440");
    OneMoreDigit(1844674407, 3, "1844674407");
    OneMoreDigit(18446744073, 7, "18446744073");
    OneMoreDigit(184467440737, 0, "184467440737");
    OneMoreDigit(1844674407370, 9, "1844674407370");
    OneMoreDigit(18446744073709, 5, "18446744073709");
    OneMoreDigit(184467440737095, 5, "184467440737095");
    OneMoreDigit(1844674407370955, 1, "1844674407370955");
    OneMoreDigit(18446744073709551, 6, "18446744073709551");
    OneMoreDigit(184467440737095516, 1, "184467440737095516");
  }

  lemma {:induction false} OneDigit(c: char)
    requires IsDigit(c)
    ensures AllDigits([c]) && Number([c]) == Digit(c)
  {
    assert [c][..0] == "";
  }

  lemma {:induction false} BareLiteral(whole: string, frac: string)
    requires whole != "" && AllDigits(whole) && frac != "" && AllDigits(frac) && Number(whole) <= Max(Mantissa)
    ensures ParseValue(whole + "." + frac) == Some((Real(Finite(DecimalRead(Number(whole), frac))), ""))
  {
    hide StrictDouble, DecimalRead;
    var t := whole + "." + frac;
    assert t[0] == whole[0] && whole[0] in whole;
    SkipNothing(t);
    DecimalLiteral("", whole, frac, "");
    assert "" + Digital(whole, true, frac) + "" == t;
  }

  /** A digit that is refused only after the multiplication: the number read is ten times too large. */
  lemma {:induction false} RefusedDigit()
    ensures ParseValue("1844674407370955161.6") == Some((Real(Finite(18446744073709551610.0)), ""))
  {
    hide ParseValue, Number, Digits;
    var n := 1844674407370955161;
    LongMantissa();
    DigitsDenote(n);
    OneDigit('6');
    BareLiteral(Digits(n), "6");
    RefusedAt(n);
    assert Digits(n) + "." + "6" == "1844674407370955161.6";
  }

  lemma {:induction false} RefusedAt(n: nat)
    requires n == 1844674407370955161
    ensures AllDigits("6") && DecimalRead(n, "6") == 18446744073709551610.0
  {
    assert Fraction(n, "6") == (18446744073709551610, 0, false) by {
      assert "6"[..0] == "";
      assert Fraction(n, "") == (n, 0, true);
    }
    ScaleNothing(18446744073709551610);
  }

  /** More digits after the point than the scale's tables reach: the mantissa is scaled by 10^-307 only. */
  lemma {:induction false} DeepDigit()
    ensures ParseValue("0" + "." + (Zeros(614) + "1")) == Some((Real(Finite(Times(1, -307))), ""))
    ensures Times(1, -615) < Times(1, -307)
  {
    hide ParseValue, Number, Times, Fraction, PrefixValue, Zeros;
    var frac := Zeros(614) + "1";
    OneDigit('0');
    OneDigit('1');
    ZerosCountNothing(614);
    NumberConcat(Zeros(614), "1");
    BareLiteral("0", frac);
    FractionPrefix(0, frac);
    assert PrefixValue(0, frac, 615) == 1 by { WholeOfZero(frac); }
    AllFit(0, frac);
    TenToOrder(-615, -307);
    TimesIs(0, -615);
    TimesIs(0, -307);
    assert Pow10(0) == 1;
  }

  lemma {:induction false} WholeOfZero(frac: string)
    requires AllDigits(frac)
    ensures PrefixValue(0, frac, |frac|) == Number(frac)
  {
    assert frac[..|frac|] == frac;
    assert 0 * Pow10(|frac|) == 0;
  }

  // ----- print after parse -----

  /** In fixed notation, but rounded up to 100000.0, which is then written with an exponent. */
  lemma {:induction false} CarriedText()
    ensures FixedNotation(99999.9996) && Carries(99999.9996) && Rounded(99999.9996) == 100000.0
    ensures InTable(99999.9996) && InTable(100000.0)
    ensures PrintReal(99999.9996) == "100000.0" && PrintReal(100000.0) == "1.0e05"
  {
    hide TenTo, Times, InTable, PrintReal, Carries;
    var x := 99999.9996;
    SmallPowers();
    FixedInTable(x);
    FixedRange(x);
    assert Mantissa3(x) == 100_000_000;
    CarriedTo(5);
    TimesIs(8, -3);
    ScientificIs(1_000, 5);
    TimesIs(3, 2);
    PrintRealForm(x);
    PrintRealForm(100000.0);
    WrittenExamples();
    assert Carries(x) by { CarriesAt(x); }
  }

  lemma {:induction false} CarriesAt(x: real)
    requires x > 0.0 && FixedNotation(x) && Mantissa3(x) == 100_000_000
    ensures Carries(x)
  {
  }

  lemma {:induction false} WrittenExamples()
    ensures Written(100_000_000, true, 0) == "100000.0"
    ensures Written(1_000, false, 5) == "1.0e05"
  {
    assert Digits(100) == "100" && Digits(1_000) == Digits(100) + "0" && Digits(10_000) == Digits(1_000) + "0";
    assert Digits(100_000) == "100000";
  }

  /** A text in single quotes may hold a double quote; printed, it is read up to that quote. */
  lemma {:induction false} QuoteInside()
    ensures ParseValue("'a\"b'") == Some((Str("a\"b"), ""))
    ensures Print(Str("a\"b")) == "\"a\"b\"" && ParseValue("\"a\"b\"") == Some((Str("a"), "b\""))
  {
    hide ParseValue;
    QuotedReads('\'', "a\"b", "");
    assert ['\''] + "a\"b" + ['\''] + "" == "'a\"b'";
    QuotedReads('"', "a", "b\"");
    assert ['"'] + "a" + ['"'] + "b\"" == "\"a\"b\"";
  }

  /** The same text can be printed for another value than the one that is read from it. */
  lemma {:induction false} SameTextOtherValue()
    ensures var one, two := Array([Str("a\",\"b")]), Array([Str("a"), Str("b")]);
      && one != two && Print(one) == Print(two) && ParseValue(Print(one)) == Some((two, ""))
  {
    hide ParseValue;
    var one, two := Array([Str("a\",\"b")]), Array([Str("a"), Str("b")]);
    assert two.elements[1..] == [Str("b")] && [Str("b")][1..] == [] && one.elements[1..] == [];
    assert PrintMore([Str("b")], true) == "," + "\"b\"" + "";
    assert Print(one) == "[\"a\",\"b\"]" == Print(two);
    TwoStrings();
    ReadsBack(two, true, "");
    assert Print(two) + "" == Print(two);
  }

  lemma {:induction false} TwoStrings()
    ensures var v := Array([Str("a"), Str("b")]);
      Printable(v) && Clean(v, true) && Normal(v) == v
  {
    var vs := [Str("a"), Str("b")];
    assert vs[1..] == [Str("b")];
    assert NormalAll(vs) == [Str("a")] + NormalAll([Str("b")]);
    assert [Str("b")][1..] == [];
    assert NormalAll([Str("b")]) == [Str("b")];
  }
}
