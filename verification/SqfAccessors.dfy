/**
 When the integer accessors succeed, for every value, and with what.
 */
module SqfAccessors {

  import opened SqfText
  import opened SqfNumbers
  import opened Sqf

  /** s is an optional sign and at least one digit, and nothing else, and writes n. */
  ghost predicate WritesInteger(s: string, n: int) {
    exists sign: string, ds: string :: Writes(s, sign, ds, n)
  }

  predicate Writes(s: string, sign: string, ds: string, n: int) {
    && s == sign + ds && sign in {"", "+", "-"}
    && ds != "" && (forall c :: c in ds ==> '0' <= c <= '9') && AllDigits(ds)
    && n == (if sign == "-" then -1 else 1) * Number(ds)
  }

  /** The whole text is read as one literal exactly when it writes an integer of the width. */
  lemma {:induction false} WholeLiteral(s: string, n: int, w: Width)
    requires w != Mantissa
    ensures ParseSigned(s, w) == Some((n, "")) <==> WritesInteger(s, n) && InRange(n, w)
  {
    hide Number, Extract, Sign;
    if ParseSigned(s, w) == Some((n, "")) {
      var (neg, a) := Sign(s);
      var sign := if neg then "-" else if |a| < |s| then "+" else "";
      SignSplits(s);
      assert a[..Span(a, IsDigit)] == a;
      ExtractIsNumber(a, neg, w);
      assert Writes(s, sign, a, n);
    }
    if WritesInteger(s, n) && InRange(n, w) {
      var sign, ds :| Writes(s, sign, ds, n);
      SignedLiteral(sign, ds, "", w);
      assert sign + ds + "" == s;
    }
  }

  lemma {:induction false} SignSplits(s: string)
    ensures var (neg, a) := Sign(s);
      s == (if neg then "-" else if |a| < |s| then "+" else "") + a
  {
  }

  /** A string gives the 64-bit accessor an integer exactly when it is written out in it and fits; every other string
      is a bad_get. */
  lemma {:induction false} BigIntOfText(s: string, n: int)
    ensures GetBigInt(Str(s)) == Got(n)
       <==> WritesInteger(s, n) && -9_223_372_036_854_775_808 <= n <= 9_223_372_036_854_775_807
  {
    hide ParseSigned, WritesInteger;
    WholeLiteral(s, n, Bits64);
  }

  lemma {:induction false} IntAnyOfText(s: string, n: int)
    ensures GetIntAny(Str(s)) == Got(n) <==> WritesInteger(s, n) && -2_147_483_648 <= n <= 2_147_483_647
  {
    hide ParseSigned, WritesInteger;
    WholeLiteral(s, n, Bits32);
  }

  /** The variants without text: the 64-bit accessor takes both integers, and a double exactly when it is whole and
      fits; the 32-bit one takes its own variant only. */
  lemma {:induction false} IntegersOfOthers(v: Value, n: int)
    requires !v.Str?
    ensures GetBigInt(v) == Got(n)
       <==> || v in {Int(n), Int64(n)}
            || (v == Real(Finite(n as real)) && -9_223_372_036_854_775_808 <= n <= 9_223_372_036_854_775_807)
    ensures GetIntAny(v) == Got(n) <==> v == Int(n)
  {
  }

  /** Text behind the digits, spaces in front of them and a sign alone are refused. */
  lemma {:induction false} RefusedTexts(s: string)
    requires s in {"12abc", " 12", "12 ", "", "-", "1.0"}
    ensures GetBigInt(Str(s)) == GetIntAny(Str(s)) == BadGet
  {
    assert s != "" ==> s[|s| - 1] in "c- " || s[0] == ' ' || s[1] == '.';
    forall n ensures !WritesInteger(s, n) {
      if WritesInteger(s, n) {
        var sign, ds :| Writes(s, sign, ds, n);
        OnlyDigits(s, sign, ds);
      }
    }
    hide WritesInteger, GetBigInt, GetIntAny;
    if GetBigInt(Str(s)).Got? {
      BigIntOfText(s, GetBigInt(Str(s)).value);
    }
    if GetIntAny(Str(s)).Got? {
      IntAnyOfText(s, GetIntAny(Str(s)).value);
    }
  }

  lemma {:induction false} OnlyDigits(s: string, sign: string, ds: string)
    requires s == sign + ds && sign in {"", "+", "-"} && ds != "" && forall c :: c in ds ==> '0' <= c <= '9'
    ensures '0' <= s[|s| - 1] <= '9' && (s[0] in "+-" || '0' <= s[0] <= '9')
    ensures forall i :: 0 < i < |s| ==> '0' <= s[i] <= '9'
  {
    forall i | |sign| <= i < |s| ensures '0' <= s[i] <= '9' {
      assert s[i] == ds[i - |sign|] && ds[i - |sign|] in ds;
    }
  }
}
