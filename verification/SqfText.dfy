/**
 Text scanning shared by the SQF parser's primitives, and decimal digit strings.
 */
module SqfText {

  datatype Option<+T> = None | Some(value: T)

  /** How many leading characters of t satisfy p. */
  function Span(t: string, p: char -> bool): (k: nat)
    ensures k <= |t|
    ensures forall i :: 0 <= i < k ==> p(t[i])
    ensures k < |t| ==> !p(t[k])
  {
    if t != "" && p(t[0]) then 1 + Span(t[1..], p) else 0
  }

  predicate StartsWith(t: string, p: char -> bool) {
    t != "" && p(t[0])
  }

  lemma {:induction false} SpanIs(a: string, b: string, p: char -> bool)
    requires forall c :: c in a ==> p(c)
    requires !StartsWith(b, p)
    ensures Span(a + b, p) == |a|
    ensures (a + b)[..|a|] == a && (a + b)[|a|..] == b
  {
    if a == "" {
      assert a + b == b;
    } else {
      SpanIs(a[1..], b, p);
      assert (a + b)[1..] == a[1..] + b;
    }
  }

  predicate IsSpace(c: char) {
    c == ' ' || '\t' <= c <= '\r'
  }

  predicate IsDigit(c: char) {
    '0' <= c <= '9'
  }

  /** What every primitive parser does first. */
  function Skip(t: string): (r: string)
    ensures |r| <= |t|
    ensures !StartsWith(r, IsSpace)
  {
    t[Span(t, IsSpace)..]
  }

  lemma {:induction false} SkipNothing(t: string)
    requires !StartsWith(t, IsSpace)
    ensures Skip(t) == t
  {
  }

  predicate Prefixed(t: string, p: string) {
    |p| <= |t| && t[..|p|] == p
  }

  predicate AllDigits(ds: string) {
    forall c :: c in ds ==> IsDigit(c)
  }

  function Digit(c: char): (d: nat)
    requires IsDigit(c)
    ensures d <= 9
  {
    c as int - '0' as int
  }

  function DigitChar(d: nat): (c: char)
    requires d <= 9
    ensures IsDigit(c) && Digit(c) == d
  {
    ('0' as int + d) as char
  }

  /** The number a digit string denotes. */
  function Number(ds: string): nat
    requires AllDigits(ds)
  {
    if ds == "" then 0 else Number(ds[..|ds| - 1]) * 10 + Digit(ds[|ds| - 1])
  }

  function Pow10(n: nat): (p: nat)
    ensures p >= 1
  {
    if n == 0 then 1 else 10 * Pow10(n - 1)
  }

  lemma {:induction false} NumberConcat(a: string, b: string)
    requires AllDigits(a) && AllDigits(b)
    ensures AllDigits(a + b)
    ensures Number(a + b) == Number(a) * Pow10(|b|) + Number(b)
  {
    if b == "" {
      assert a + b == a;
    } else {
      var init := b[..|b| - 1];
      NumberConcat(a, init);
      assert (a + b)[..|a + b| - 1] == a + init;
      Horner(Number(a), Pow10(|init|), Number(init), Digit(b[|b| - 1]));
    }
  }

  lemma {:induction false} Horner(a: nat, p: nat, n: nat, d: nat)
    ensures (a * p + n) * 10 + d == a * (10 * p) + (n * 10 + d)
  {
  }

  /** The decimal digits of n, as the generator writes them. */
  function Digits(n: nat): (ds: string)
    ensures ds != "" && AllDigits(ds)
  {
    if n < 10 then [DigitChar(n)] else Digits(n / 10) + [DigitChar(n % 10)]
  }

  lemma {:induction false} DigitsDenote(n: nat)
    ensures Number(Digits(n)) == n
  {
    var ds := Digits(n);
    if n < 10 {
      assert ds[..0] == "";
    } else {
      DigitsDenote(n / 10);
      assert ds[..|ds| - 1] == Digits(n / 10);
    }
  }

  /** A signed number in decimal. */
  function Decimal(n: int): string {
    if n < 0 then "-" + Digits(-n) else Digits(n)
  }
}
