/**
 What the value grammar does with a field is decided in front of its colon, as long as the field opens no quote and no
 nan( that could cross it.
 */
module SqfLocality {

  import opened SqfText
  import opened SqfNumbers
  import opened Sqf
  import opened SqfRoundTrip
  import opened SqfParameters

  /** Nothing in c can lead the grammar across a colon. */
  predicate IsLocal(c: char) {
    !IsQuote(c) && c != '(' && c != ':'
  }

  /** A text that ends with its only colon and holds nothing that crosses it. */
  predicate Closed(t: string) {
    t != "" && t[|t| - 1] == ':' && forall i :: 0 <= i < |t| - 1 ==> IsLocal(t[i])
  }

  lemma {:induction false} ClosedDrop(t: string, k: nat, x: string)
    requires Closed(t) && k < |t|
    ensures Closed(t[k..]) && (t + x)[k..] == t[k..] + x
  {
  }

  lemma {:induction false} ClosedSpan(t: string, x: string, p: char -> bool)
    requires Closed(t) && !p(':')
    ensures Span(t, p) < |t| && Span(t + x, p) == Span(t, p)
  {
    var k := Span(t, p);
    assert t + x == t[..k] + (t[k..] + x);
    SpanIs(t[..k], t[k..] + x, p);
  }

  lemma {:induction false} ClosedSkip(t: string, x: string)
    requires Closed(t)
    ensures Closed(Skip(t)) && Skip(t + x) == Skip(t) + x
  {
    ClosedSpan(t, x, IsSpace);
    ClosedDrop(t, Span(t, IsSpace), x);
  }

  lemma {:induction false} ClosedSign(t: string, x: string)
    requires Closed(t)
    ensures Closed(Sign(t).1) && Sign(t + x) == (Sign(t).0, Sign(t).1 + x)
  {
    assert (t + x)[0] == t[0];
    ClosedDrop(t, 0, x);
    if t[0] == '-' || t[0] == '+' {
      ClosedDrop(t, 1, x);
    }
  }

  /** Words without a colon are read inside or not at all. */
  lemma {:induction false} ClosedReads(t: string, x: string, p: string)
    requires Closed(t) && forall c :: c in p ==> c != ':'
    ensures Reads(t + x, p) <==> Reads(t, p)
    ensures Prefixed(t + x, p) <==> Prefixed(t, p)
    ensures Reads(t, p) || Prefixed(t, p) ==> |p| < |t|
  {
    var k := |t| - 1;
    if |p| > k {
      assert p[k] in p;
      assert (t + x)[k] == ':' && Lower(':') == ':';
    } else {
      assert (t + x)[..|p|] == t[..|p|];
      forall i | 0 <= i < |p| ensures (t + x)[i] == t[i] {
      }
    }
  }

  lemma {:induction false} ClosedSpecial(t: string, x: string)
    requires Closed(t)
    ensures Closed(NanOrInf(t).1) && NanOrInf(t + x) == (NanOrInf(t).0, NanOrInf(t).1 + x)
  {
    hide Span, Reads;
    ClosedReads(t, x, "nan");
    ClosedReads(t, x, "inf");
    ClosedDrop(t, 0, x);
    if Reads(t, "nan") {
      ClosedDrop(t, 3, x);
      assert (t + x)[3] == t[3];
    } else if Reads(t, "inf") {
      ClosedDrop(t, 3, x);
      ClosedReads(t[3..], x, "inity");
      if Reads(t[3..], "inity") {
        ClosedDrop(t, 8, x);
      }
    }
  }

  /** A result with more text behind it. */
  function Behind<T>(r: Option<(T, string)>, x: string): Option<(T, string)> {
    match r
    case None => None
    case Some((v, rest)) => Some((v, rest + x))
  }

  lemma {:induction false} ClosedSigned(t: string, x: string, w: Width)
    requires Closed(t)
    ensures ParseSigned(t + x, w) == Behind(ParseSigned(t, w), x)
    ensures ParseSigned(t, w).Some? ==> Closed(ParseSigned(t, w).value.1)
  {
    hide Extract, Sign, Span;
    var a := Sign(t).1;
    ClosedSign(t, x);
    ClosedSpan(a, x, IsDigit);
    var k := Span(a, IsDigit);
    ClosedDrop(a, k, x);
    assert (a + x)[..k] == a[..k];
  }

  function AttemptBehind(r: Attempt, x: string): Attempt {
    match r
    case Matched(d, rest) => Matched(d, rest + x)
    case Restored => Restored
    case Stuck(rest) => Stuck(rest + x)
  }

  predicate AttemptClosed(r: Attempt) {
    !r.Restored? ==> Closed(r.rest)
  }

  lemma {:induction false} ClosedFinish(neg: bool, n: int, k: nat, t: string, x: string)
    requires Closed(t)
    ensures Finish(neg, n, k, t + x) == AttemptBehind(Finish(neg, n, k, t), x)
    ensures AttemptClosed(Finish(neg, n, k, t))
  {
    hide Scale, ParseSigned, NanOrInf, Negated;
    assert (t + x)[0] == t[0];
    ClosedSpecial(t, x);
    if StartsWith(t, IsExponent) {
      ClosedDrop(t, 1, x);
      ClosedSigned(t[1..], x, Bits32);
    }
  }

  lemma {:induction false} ClosedAfterWhole(neg: bool, whole: Option<int>, b: string, x: string)
    requires Closed(b) && (whole.Some? ==> InRange(whole.value, Mantissa))
    ensures AfterWhole(neg, whole, b + x) == AttemptBehind(AfterWhole(neg, whole, b), x)
    ensures AttemptClosed(AfterWhole(neg, whole, b))
  {
    hide Finish, Fraction, Span;
    assert (b + x)[0] == b[0];
    if b[0] == '.' {
      ClosedDrop(b, 1, x);
      ClosedSpan(b[1..], x, IsDigit);
      var k := Span(b[1..], IsDigit);
      ClosedDrop(b[1..], k, x);
      assert (b[1..] + x)[..k] == b[1..][..k];
      var (m, digits, _) := Fraction(if whole.Some? then whole.value else 0, b[1..][..k]);
      ClosedFinish(neg, m, digits, b[1..][k..], x);
    } else if whole.Some? {
      ClosedFinish(neg, whole.value, 0, b, x);
    }
  }

  lemma {:induction false} ClosedAfterSign(neg: bool, a: string, x: string)
    requires Closed(a)
    ensures AfterSign(neg, a + x) == AttemptBehind(AfterSign(neg, a), x)
    ensures AttemptClosed(AfterSign(neg, a))
  {
    hide AfterWhole, Extract, Span, NanOrInf, Negated;
    ClosedSpan(a, x, IsDigit);
    var k := Span(a, IsDigit);
    assert (a + x)[..k] == a[..k];
    ClosedDrop(a, k, x);
    ClosedSpecial(a, x);
    var whole := Whole(a);
    if whole.Some? {
      ClosedAfterWhole(neg, whole, a[k..], x);
    } else {
      ClosedAfterWhole(neg, None, NanOrInf(a).1, x);
    }
  }

  lemma {:induction false} ClosedDouble(t: string, x: string)
    requires Closed(t)
    ensures StrictDouble(t + x) == (StrictDouble(t).0, StrictDouble(t).1 + x)
    ensures Closed(StrictDouble(t).1)
  {
    hide AfterSign, Sign;
    ClosedSign(t, x);
    ClosedAfterSign(Sign(t).0, Sign(t).1, x);
  }

  /** The value grammar, list included, stops in front of the colon with the same result whatever follows. */
  lemma {:induction false} ClosedValue(t: string, x: string)
    requires Closed(t)
    ensures ParseValue(t + x) == Behind(ParseValue(t), x)
    ensures ParseValue(t).Some? ==> Closed(ParseValue(t).value.1)
    decreases |t|, 1
  {
    hide StrictDouble, ParseOther, Skip;
    ClosedSkip(t, x);
    ClosedDouble(Skip(t), x);
    var b := StrictDouble(Skip(t)).1;
    ClosedSkip(b, x);
    ClosedOther(Skip(b), x);
  }

  lemma {:induction false} ClosedOther(c: string, x: string)
    requires Closed(c)
    ensures ParseOther(c + x) == Behind(ParseOther(c), x)
    ensures ParseOther(c).Some? ==> Closed(ParseOther(c).value.1)
    decreases |c|, 0
  {
    hide ParseSigned, ParseQuoted, ParseList, Skip, Prefixed;
    ClosedSigned(c, x, Bits32);
    ClosedSigned(c, x, Bits64);
    if ParseSigned(c, Bits32).Some? {
      ClosedSkip(ParseSigned(c, Bits32).value.1, x);
      SameStart(Skip(ParseSigned(c, Bits32).value.1), x, IsDigit);
    }
    ClosedReads(c, x, "true");
    ClosedReads(c, x, "false");
    ClosedReads(c, x, "any");
    ClosedReads(c, x, "[");
    SameStart(c, x, IsQuote);
    assert !StartsWith(c, IsQuote);
    NotQuoted(c);
    NotQuoted(c + x);
    if Prefixed(c, "true") {
      ClosedDrop(c, 4, x);
    } else if Prefixed(c, "false") {
      ClosedDrop(c, 5, x);
    } else if Prefixed(c, "any") {
      ClosedDrop(c, 3, x);
    } else if Prefixed(c, "[") {
      ClosedDrop(c, 1, x);
      ClosedList(c[1..], x);
      var d := ParseList(c[1..]).1;
      ClosedSkip(d, x);
      ClosedReads(Skip(d), x, "]");
      if Prefixed(Skip(d), "]") {
        ClosedDrop(Skip(d), 1, x);
      }
    }
  }

  lemma {:induction false} SameStart(t: string, x: string, p: char -> bool)
    requires t != ""
    ensures StartsWith(t + x, p) <==> StartsWith(t, p)
  {
    assert (t + x)[0] == t[0];
  }

  lemma {:induction false} ClosedList(t: string, x: string)
    requires Closed(t)
    ensures ParseList(t + x) == (ParseList(t).0, ParseList(t).1 + x)
    ensures Closed(ParseList(t).1)
    decreases |t|, 2
  {
    hide ParseValue, ParseMore;
    ClosedValue(t, x);
    if ParseValue(t).Some? {
      ClosedMore(ParseValue(t).value.1, x);
    }
  }

  lemma {:induction false} ClosedMore(t: string, x: string)
    requires Closed(t)
    ensures ParseMore(t + x) == (ParseMore(t).0, ParseMore(t).1 + x)
    ensures Closed(ParseMore(t).1)
    decreases |t|, 0
  {
    hide ParseValue, Skip, Prefixed;
    ClosedSkip(t, x);
    ClosedReads(Skip(t), x, ",");
    if Prefixed(Skip(t), ",") {
      ClosedDrop(Skip(t), 1, x);
      ClosedValue(Skip(t)[1..], x);
      if ParseValue(Skip(t)[1..]).Some? {
        ClosedMore(ParseValue(Skip(t)[1..]).value.1, x);
      }
    }
  }

  /** A raw string without quotes and parentheses survives in front of any fields exactly when it survives at the
      end of the list. */
  lemma {:induction false} SurvivalIsLocal(s: string, rest: string)
    requires forall c :: c in s ==> !IsQuote(c) && c != '('
    ensures FieldSurvives(Str(s), rest) <==> FieldSurvives(Str(s), "")
  {
    hide ParseValue, Skip;
    if forall c :: c in s ==> c != ':' {
      var t := s + ":";
      assert t + rest == s + ":" + rest && s + ":" + "" == t;
      ClosedValue(t, rest);
      if ParseValue(t).Some? {
        ClosedSkip(ParseValue(t).value.1, rest);
        SameStart(Skip(ParseValue(t).value.1), rest, IsColon);
      }
    }
  }

  /** A list whose strings hold neither survives exactly when each of its fields does on its own. */
  lemma {:induction false} ListsWithoutQuotes(ps: seq<Value>)
    requires forall p :: p in ps ==> Printable(p)
    requires forall p :: p in ps && p.Str? ==> forall c :: c in p.s ==> !IsQuote(c) && c != '('
    ensures ParseParameters(PrintParameters(ps)) == (ps, "") <==> forall p :: p in ps ==> FieldSurvives(p, "")
  {
    hide ParseParameters, PrintParameters, FieldSurvives;
    ParametersRoundTrip(ps);
    SurviveOneByOne(ps);
  }

  lemma {:induction false} SurviveOneByOne(ps: seq<Value>)
    requires forall p :: p in ps ==> Printable(p)
    requires forall p :: p in ps && p.Str? ==> forall c :: c in p.s ==> !IsQuote(c) && c != '('
    ensures AllSurvive(ps) <==> forall p :: p in ps ==> FieldSurvives(p, "")
  {
    if ps != [] {
      SurviveOneByOne(ps[1..]);
      Rejoin(ps);
      if ps[0].Str? {
        SurvivalIsLocal(ps[0].s, PrintParameters(ps[1..]));
      }
      assert FieldSurvives(ps[0], PrintParameters(ps[1..])) <==> FieldSurvives(ps[0], "");
    }
  }
}
