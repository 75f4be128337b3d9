/**
 The numeric parsers of the SQF grammar: int_, long_long and the strict real parser. Doubles are mathematical reals:
 nothing here rounds to 53 bits.
 */
module SqfNumbers {

  import opened SqfText

  datatype Width = Bits32 | Bits64 | Mantissa

  function Min(w: Width): int {
    match w
    case Bits32 => -0x8000_0000
    case Bits64 => -0x8000_0000_0000_0000
    case Mantissa => 0
  }

  function Max(w: Width): int {
    match w
    case Bits32 => 0x7fff_ffff
    case Bits64 => 0x7fff_ffff_ffff_ffff
    case Mantissa => 0xffff_ffff_ffff_ffff
  }

  predicate InRange(n: int, w: Width) {
    Min(w) <= n <= Max(w)
  }

  // ----- integers -----

  /** One digit more, refused when it would leave the range; every intermediate fits the width. */
  function AddDigit(n: int, d: nat, neg: bool, w: Width): (r: Option<int>)
    requires InRange(n, w) && d <= 9
    requires if neg then n <= 0 else n >= 0
    ensures r.Some? ==> InRange(r.value, w) && if neg then r.value <= 0 else r.value >= 0
  {
    if neg then
      if n < -((-(Min(w) + 1)) / 10) then None
      else if n * 10 < Min(w) + d then None
      else Some(n * 10 - d)
    else if n > Max(w) / 10 then None
    else if n * 10 > Max(w) - d then None
    else Some(n * 10 + d)
  }

  /** The accumulator run over a whole digit string. */
  function Extract(ds: string, neg: bool, w: Width): (r: Option<int>)
    requires AllDigits(ds)
    ensures r.Some? ==> InRange(r.value, w) && if neg then r.value <= 0 else r.value >= 0
  {
    if ds == "" then Some(0)
    else
      match Extract(ds[..|ds| - 1], neg, w)
      case None => None
      case Some(n) => AddDigit(n, Digit(ds[|ds| - 1]), neg, w)
  }

  function Signed(neg: bool, n: int): int {
    if neg then -n else n
  }

  /** The checked accumulator refuses exactly the numbers out of range, and never overflows on the way. */
  lemma {:induction false} ExtractIsNumber(ds: string, neg: bool, w: Width)
    requires AllDigits(ds) && (neg ==> w != Mantissa)
    ensures Extract(ds, neg, w)
         == if InRange(Signed(neg, Number(ds)), w) then Some(Signed(neg, Number(ds))) else None
  {
    if ds != "" {
      ExtractIsNumber(ds[..|ds| - 1], neg, w);
    }
  }

  /** An optional sign: whether it was a minus, and what follows it. */
  function Sign(t: string): (bool, string) {
    if t != "" && t[0] == '-' then (true, t[1..])
    else if t != "" && t[0] == '+' then (false, t[1..])
    else (false, t)
  }

  /** int_ and long_long, after the skipper: sign, digits, and the text that follows. */
  function ParseSigned(t: string, w: Width): (r: Option<(int, string)>)
    ensures r.Some? ==> InRange(r.value.0, w) && |r.value.1| < |t|
  {
    var (neg, a) := Sign(t);
    var k := Span(a, IsDigit);
    if k == 0 then None
    else
      match Extract(a[..k], neg, w)
      case None => None
      case Some(n) => Some((n, a[k..]))
  }

  /** An optional sign and at least one digit. */
  predicate IsSign(s: string) {
    s == "" || s == "+" || s == "-"
  }

  function Literal(s: string, ds: string): int
    requires IsSign(s) && AllDigits(ds)
  {
    Signed(s == "-", Number(ds))
  }

  lemma {:induction false} SignIs(s: string, t: string)
    requires IsSign(s) && (t == "" || (t[0] != '-' && t[0] != '+'))
    ensures Sign(s + t) == (s == "-", t)
  {
    assert s == "" ==> s + t == t;
    assert s != "" ==> (s + t)[1..] == t;
  }

  lemma {:induction false} SignedLiteral(s: string, ds: string, rest: string, w: Width)
    requires IsSign(s) && ds != "" && AllDigits(ds) && !StartsWith(rest, IsDigit) && w != Mantissa
    ensures ParseSigned(s + ds + rest, w)
         == if InRange(Literal(s, ds), w) then Some((Literal(s, ds), rest)) else None
  {
    var t := ds + rest;
    assert s + ds + rest == s + t;
    assert t[0] == ds[0] && ds[0] in ds;
    SignIs(s, t);
    SpanIs(ds, rest, IsDigit);
    ExtractIsNumber(ds, s == "-", w);
  }

  // ----- reals -----

  datatype Double = Finite(x: real) | Infinite(negative: bool) | NotANumber(negative: bool)

  function Negated(neg: bool, d: Double): Double {
    match d
    case Finite(x) => Finite(if neg then -x else x)
    case Infinite(n) => Infinite(n != neg)
    case NotANumber(n) => NotANumber(n != neg)
  }

  function Lower(c: char): char {
    if 'A' <= c <= 'Z' then (c as int + 32) as char else c
  }

  /** t begins with the lower-case word p in any case. */
  predicate Reads(t: string, p: string) {
    |p| <= |t| && forall i :: 0 <= i < |p| ==> Lower(t[i]) == p[i]
  }

  /** nan, nan(...), inf and infinity. An unclosed nan( is no match, but what follows nan is where parsing goes on. */
  function NanOrInf(t: string): (r: (Option<Double>, string))
    ensures |r.1| <= |t| && (r.0.Some? ==> |r.1| < |t|)
  {
    if Reads(t, "nan") then
      var a := t[3..];
      if a != "" && a[0] == '(' then
        var k := Span(a, c => c != ')');
        if k == |a| then (None, a) else (Some(NotANumber(false)), a[k + 1..])
      else (Some(NotANumber(false)), a)
    else if Reads(t, "inf") then
      (Some(Infinite(false)), if Reads(t[3..], "inity") then t[8..] else t[3..])
    else (None, t)
  }

  /** The digits after the point go into the same 64-bit mantissa until one no longer fits; a digit refused only
      after the multiplication has still multiplied. The count is of the digits taken. */
  function Fraction(n: int, ds: string): (r: (int, nat, bool))
    requires InRange(n, Mantissa) && AllDigits(ds)
    ensures InRange(r.0, Mantissa) && r.1 <= |ds|
  {
    if ds == "" then (n, 0, true)
    else
      var (m, k, open) := Fraction(n, ds[..|ds| - 1]);
      var d := Digit(ds[|ds| - 1]);
      if !open || m > Max(Mantissa) / 10 then (m, k, false)
      else if m * 10 > Max(Mantissa) - d then (m * 10, k, false)
      else (m * 10 + d, k + 1, true)
  }

  function TenTo(e: int): (p: real)
    ensures p > 0.0
  {
    if e >= 0 then Pow10(e) as real else 1.0 / Pow10(-e) as real
  }

  /** n times ten to the power e. */
  function Times(n: int, e: int): real {
    n as real * TenTo(e)
  }

  /** Multiplying by a power of ten, which fails beyond 308 and below -614. */
  function Scale(exp: int, n: int): (bool, real) {
    if exp > 308 then (false, n as real)
    else if exp < -614 then (false, Times(n, -307))
    else (true, Times(n, exp))
  }

  predicate IsExponent(c: char) {
    c == 'e' || c == 'E'
  }

  /** How an attempt at a strict real ends: with a number, back at the start, or, when its scale fails, behind
      the literal but without a number. */
  datatype Attempt = Matched(d: Double, rest: string) | Restored | Stuck(rest: string)

  predicate Within(r: Attempt, t: string) {
    !r.Restored? ==> |r.rest| <= |t|
  }

  /** What follows the digits: an exponent, or the 1.#INF styles, or nothing. `n` is the mantissa, `k` the number
      of its digits that stand after the point. */
  function Finish(neg: bool, n: int, k: nat, t: string): (r: Attempt)
    ensures Within(r, t)
  {
    if StartsWith(t, IsExponent) then
      match ParseSigned(t[1..], Bits32)
      case None => Matched(Negated(neg, Finite(Scale(-(k as int), n).1)), t)
      case Some((exp, rest)) =>
        var (ok, x) := Scale(exp - k, n);
        if ok then Matched(Negated(neg, Finite(x)), rest) else Stuck(rest)
    else if k > 0 then Matched(Negated(neg, Finite(Scale(-(k as int), n).1)), t)
    else
      var (special, rest) := if n == 1 then NanOrInf(t) else (None, t);
      Matched(Negated(neg, if special.Some? then special.value else Finite(n as real)), rest)
  }

  /** The digits before the point, if there are any and they fit 64 bits. */
  function Whole(t: string): (r: Option<int>)
    ensures r.Some? ==> InRange(r.value, Mantissa)
  {
    var k := Span(t, IsDigit);
    if k == 0 then None else Extract(t[..k], false, Mantissa)
  }

  /** From the point on; without one there must have been digits, and an exponent must follow. */
  function AfterWhole(neg: bool, whole: Option<int>, b: string): (r: Attempt)
    requires whole.Some? ==> InRange(whole.value, Mantissa)
    ensures Within(r, b)
  {
    if b != "" && b[0] == '.' then
      var k := Span(b[1..], IsDigit);
      if whole.None? && k == 0 then Restored
      else
        var (m, digits, _) := Fraction(if whole.Some? then whole.value else 0, b[1..][..k]);
        Finish(neg, m, digits, b[1..][k..])
    else if whole.None? || !StartsWith(b, IsExponent) then Restored
    else Finish(neg, whole.value, 0, b)
  }

  function AfterSign(neg: bool, a: string): (r: Attempt)
    ensures Within(r, a)
  {
    var whole := Whole(a);
    if whole.Some? then AfterWhole(neg, whole, a[Span(a, IsDigit)..])
    else
      var (special, b) := NanOrInf(a);
      if special.Some? then Matched(Negated(neg, special.value), b) else AfterWhole(neg, None, b)
  }

  /** The strict real parser, after the skipper: the number if there is one, and where parsing goes on either way. */
  function StrictDouble(t: string): (r: (Option<Double>, string))
    ensures |r.1| <= |t|
  {
    var (neg, a) := Sign(t);
    match AfterSign(neg, a)
    case Matched(d, rest) => (Some(d), rest)
    case Restored => (None, t)
    case Stuck(rest) => (None, rest)
  }

  lemma {:induction false} StrictDoubleMoves(t: string)
    ensures StrictDouble(t).0.Some? ==> |StrictDouble(t).1| < |t|
  {
    hide Finish, NanOrInf, Fraction, Extract;
  }

  // ----- where a failing attempt leaves the parser -----

  predicate IsNumeric(c: char) {
    IsDigit(c) || IsExponent(c) || c == '.' || c == '-' || c == '+'
  }

  predicate IsPassed(c: char) {
    IsNumeric(c) || IsSpace(c)
  }

  /** `rest` is what is left of t behind some spaces and characters of numbers. */
  ghost predicate BehindNumber(t: string, rest: string) {
    exists k :: 0 <= k <= |t| && rest == t[k..] && forall i :: 0 <= i < k ==> IsPassed(t[i])
  }

  lemma {:induction false} NoneBehind(t: string)
    ensures BehindNumber(t, t)
  {
    assert t == t[0..];
  }

  lemma {:induction false} BehindAll(t: string, k: nat)
    requires k <= |t| && forall i :: 0 <= i < k ==> IsPassed(t[i])
    ensures BehindNumber(t, t[k..])
  {
  }

  lemma {:induction false} DropTwice(t: string, j: nat, k: nat)
    requires j + k <= |t|
    ensures t[j..][k..] == t[j + k..]
  {
  }

  lemma {:induction false} BehindTwice(t: string, a: string, b: string)
    requires BehindNumber(t, a) && BehindNumber(a, b)
    ensures BehindNumber(t, b)
  {
    hide IsPassed;
    var j :| 0 <= j <= |t| && a == t[j..] && forall i :: 0 <= i < j ==> IsPassed(t[i]);
    var k :| 0 <= k <= |a| && b == a[k..] && forall i :: 0 <= i < k ==> IsPassed(a[i]);
    DropTwice(t, j, k);
    forall i | 0 <= i < j + k ensures IsPassed(t[i]) {
      assert i >= j ==> t[i] == a[i - j];
    }
  }

  lemma {:induction false} BehindSign(t: string)
    ensures BehindNumber(t, Sign(t).1)
  {
    NoneBehind(t);
    if t != "" && (t[0] == '-' || t[0] == '+') {
      BehindAll(t, 1);
    }
  }

  lemma {:induction false} BehindSigned(t: string, w: Width)
    ensures ParseSigned(t, w).Some? ==> BehindNumber(t, ParseSigned(t, w).value.1)
  {
    var (_, a) := Sign(t);
    BehindSign(t);
    BehindAll(a, Span(a, IsDigit));
    BehindTwice(t, a, a[Span(a, IsDigit)..]);
  }

  lemma {:induction false} BehindFinish(neg: bool, n: int, k: nat, t: string)
    ensures var r := Finish(neg, n, k, t);
      r.Stuck? ==> BehindNumber(t, r.rest)
  {
    hide Scale;
    var r := Finish(neg, n, k, t);
    if r.Stuck? {
      BehindAll(t, 1);
      BehindSigned(t[1..], Bits32);
      BehindTwice(t, t[1..], r.rest);
    }
  }

  lemma {:induction false} BehindWhole(neg: bool, whole: Option<int>, b: string)
    requires whole.Some? ==> InRange(whole.value, Mantissa)
    ensures var r := AfterWhole(neg, whole, b);
      r.Stuck? ==> BehindNumber(b, r.rest)
  {
    hide Finish, BehindNumber;
    var r := AfterWhole(neg, whole, b);
    if r.Stuck? {
      if b != "" && b[0] == '.' {
        var k := Span(b[1..], IsDigit);
        var (m, digits, _) := Fraction(if whole.Some? then whole.value else 0, b[1..][..k]);
        BehindFinish(neg, m, digits, b[1..][k..]);
        assert b[1..][k..] == b[1 + k..];
        BehindAll(b, 1 + k);
        BehindTwice(b, b[1 + k..], r.rest);
      } else {
        BehindFinish(neg, whole.value, 0, b);
      }
    }
  }

  lemma {:induction false} NoPointRestores(neg: bool, b: string)
    requires b == "" || b[0] != '.'
    ensures AfterWhole(neg, None, b) == Restored
  {
  }

  /** A strict real that fails leaves the parser where it was, or behind characters of a number. */
  lemma {:induction false} FailsBehindNumber(t: string)
    requires StrictDouble(t).0.None?
    ensures BehindNumber(t, StrictDouble(t).1)
  {
    hide AfterWhole, BehindNumber;
    var (neg, a) := Sign(t);
    var r := AfterSign(neg, a);
    NoneBehind(t);
    if r.Stuck? {
      BehindSign(t);
      var whole := Whole(a);
      if whole.Some? {
        var k := Span(a, IsDigit);
        BehindAll(a, k);
        BehindWhole(neg, whole, a[k..]);
        BehindTwice(a, a[k..], r.rest);
      } else if NanOrInf(a).1 == a {
        BehindWhole(neg, None, a);
      } else {
        NoPointRestores(neg, NanOrInf(a).1);
      }
      BehindTwice(t, a, r.rest);
    }
  }
}
