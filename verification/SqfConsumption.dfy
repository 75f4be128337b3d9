/**
 What every parser leaves is an end of the text it was given, and what the parameter grammar makes of any text.
 */
module SqfConsumption {

  import opened SqfText
  import opened SqfNumbers
  import opened Sqf
  import opened SqfRoundTrip
  import opened SqfParameters

  predicate Ends(t: string, rest: string) {
    |rest| <= |t| && rest == t[|t| - |rest|..]
  }

  lemma {:induction false} Dropped(t: string, k: nat)
    requires k <= |t|
    ensures Ends(t, t[k..])
  {
  }

  lemma {:induction false} EndsTwice(t: string, a: string, b: string)
    requires Ends(t, a) && Ends(a, b)
    ensures Ends(t, b)
  {
    DropTwice(t, |t| - |a|, |a| - |b|);
  }

  lemma {:induction false} SkipEnds(t: string)
    ensures Ends(t, Skip(t))
  {
    Dropped(t, Span(t, IsSpace));
  }

  lemma {:induction false} SignEnds(t: string)
    ensures Ends(t, Sign(t).1)
  {
    Dropped(t, 0);
    if t != "" {
      Dropped(t, 1);
    }
  }

  lemma {:induction false} SignedEnds(t: string, w: Width)
    ensures ParseSigned(t, w).Some? ==> Ends(t, ParseSigned(t, w).value.1)
  {
    hide Ends, Sign, Extract;
    var a := Sign(t).1;
    SignEnds(t);
    Dropped(a, Span(a, IsDigit));
    EndsTwice(t, a, a[Span(a, IsDigit)..]);
  }

  lemma {:induction false} SpecialEnds(t: string)
    ensures Ends(t, NanOrInf(t).1)
  {
    hide Ends, Span;
    Dropped(t, 0);
    if |t| >= 3 {
      Dropped(t, 3);
      var a := t[3..];
      var k := Span(a, c => c != ')');
      if k < |a| {
        Dropped(a, k + 1);
        EndsTwice(t, a, a[k + 1..]);
      }
    }
    if |t| >= 8 {
      Dropped(t, 8);
    }
  }

  predicate AttemptEnds(t: string, r: Attempt) {
    !r.Restored? ==> Ends(t, r.rest)
  }

  lemma {:induction false} AttemptLater(t: string, a: string, r: Attempt)
    requires Ends(t, a) && AttemptEnds(a, r)
    ensures AttemptEnds(t, r)
  {
    hide Ends;
    if !r.Restored? {
      EndsTwice(t, a, r.rest);
    }
  }

  lemma {:induction false} FinishEnds(neg: bool, n: int, k: nat, t: string)
    ensures AttemptEnds(t, Finish(neg, n, k, t))
  {
    hide Ends, Scale, ParseSigned, NanOrInf, Negated;
    Dropped(t, 0);
    SpecialEnds(t);
    if StartsWith(t, IsExponent) {
      Dropped(t, 1);
      SignedEnds(t[1..], Bits32);
      if ParseSigned(t[1..], Bits32).Some? {
        EndsTwice(t, t[1..], ParseSigned(t[1..], Bits32).value.1);
      }
    }
  }

  lemma {:induction false} WholeEnds(neg: bool, whole: Option<int>, b: string)
    requires whole.Some? ==> InRange(whole.value, Mantissa)
    ensures AttemptEnds(b, AfterWhole(neg, whole, b))
  {
    hide Finish, Fraction, Ends, Span;
    if b != "" && b[0] == '.' {
      var a := b[1..];
      var k := Span(a, IsDigit);
      var (m, digits, _) := Fraction(if whole.Some? then whole.value else 0, a[..k]);
      Dropped(b, 1);
      Dropped(a, k);
      FinishEnds(neg, m, digits, a[k..]);
      AttemptLater(a, a[k..], Finish(neg, m, digits, a[k..]));
      AttemptLater(b, a, Finish(neg, m, digits, a[k..]));
    } else if whole.Some? {
      FinishEnds(neg, whole.value, 0, b);
    }
  }

  lemma {:induction false} SignedDoubleEnds(neg: bool, a: string)
    ensures AttemptEnds(a, AfterSign(neg, a))
  {
    hide AfterWhole, Extract, Span, Ends, NanOrInf, Negated;
    var whole := Whole(a);
    if whole.Some? {
      var b := a[Span(a, IsDigit)..];
      Dropped(a, Span(a, IsDigit));
      WholeEnds(neg, whole, b);
      AttemptLater(a, b, AfterWhole(neg, whole, b));
    } else {
      var b := NanOrInf(a).1;
      SpecialEnds(a);
      WholeEnds(neg, None, b);
      AttemptLater(a, b, AfterWhole(neg, None, b));
    }
  }

  lemma {:induction false} DoubleEnds(t: string)
    ensures Ends(t, StrictDouble(t).1)
  {
    hide AfterSign, Ends, Sign;
    var (neg, a) := Sign(t);
    Dropped(t, 0);
    SignEnds(t);
    SignedDoubleEnds(neg, a);
    AttemptLater(t, a, AfterSign(neg, a));
  }

  lemma {:induction false} QuotedEnds(t: string)
    ensures ParseQuoted(t).Some? ==> Ends(t, ParseQuoted(t).value.1)
  {
    hide Ends;
    if ParseQuoted(t).Some? {
      Dropped(t, 2 + Span(t[1..], Plain(t[0])));
    }
  }

  /** Whatever is read, what is left is an end of the text. */
  lemma {:induction false} ValueEnds(t: string)
    ensures ParseValue(t).Some? ==> Ends(t, ParseValue(t).value.1)
    decreases |t|, 1
  {
    hide StrictDouble, ParseOther, Ends, Skip;
    var a := Skip(t);
    var b := StrictDouble(a).1;
    SkipEnds(t);
    DoubleEnds(a);
    EndsTwice(t, a, b);
    SkipEnds(b);
    EndsTwice(t, b, Skip(b));
    if StrictDouble(a).0.None? && ParseOther(Skip(b)).Some? {
      OtherEnds(Skip(b));
      EndsTwice(t, Skip(b), ParseOther(Skip(b)).value.1);
    }
  }

  lemma {:induction false} OtherEnds(c: string)
    ensures ParseOther(c).Some? ==> Ends(c, ParseOther(c).value.1)
    decreases |c|, 0
  {
    hide ParseSigned, ParseQuoted, ParseList, Ends, Skip;
    SignedEnds(c, Bits32);
    SignedEnds(c, Bits64);
    QuotedEnds(c);
    WordsEnd(c);
    if Prefixed(c, "[") {
      ListEnds(c[1..]);
      BracketEnds(c, ParseList(c[1..]).1);
    }
  }

  lemma {:induction false} WordsEnd(c: string)
    ensures |c| >= 3 ==> Ends(c, c[3..])
    ensures |c| >= 4 ==> Ends(c, c[4..])
    ensures |c| >= 5 ==> Ends(c, c[5..])
  {
  }

  lemma {:induction false} BracketEnds(c: string, d: string)
    requires c != "" && Ends(c[1..], d)
    ensures Prefixed(Skip(d), "]") ==> Ends(c, Skip(d)[1..])
  {
    hide Ends, Skip;
    Dropped(c, 1);
    EndsTwice(c, c[1..], d);
    SkipEnds(d);
    EndsTwice(c, d, Skip(d));
    if Prefixed(Skip(d), "]") {
      Dropped(Skip(d), 1);
      EndsTwice(c, Skip(d), Skip(d)[1..]);
    }
  }

  lemma {:induction false} ListEnds(t: string)
    ensures Ends(t, ParseList(t).1)
    decreases |t|, 2
  {
    hide ParseValue, ParseMore, Ends;
    Dropped(t, 0);
    if ParseValue(t).Some? {
      var rest := ParseValue(t).value.1;
      ValueEnds(t);
      MoreEnds(rest);
      EndsTwice(t, rest, ParseMore(rest).1);
    }
  }

  lemma {:induction false} MoreEnds(t: string)
    ensures Ends(t, ParseMore(t).1)
    decreases |t|, 0
  {
    hide ParseValue, Ends, Skip;
    Dropped(t, 0);
    if Prefixed(Skip(t), ",") && ParseValue(Skip(t)[1..]).Some? {
      var a := Skip(t)[1..];
      var rest := ParseValue(a).value.1;
      SkipEnds(t);
      Dropped(Skip(t), 1);
      EndsTwice(t, Skip(t), a);
      ValueEnds(a);
      EndsTwice(t, a, rest);
      MoreEnds(rest);
      EndsTwice(t, rest, ParseMore(rest).1);
    }
  }

  // ----- what the parameter grammar makes of a text -----

  lemma {:induction false} EndsIn(t: string, a: string, c: char)
    requires Ends(t, a) && c in a
    ensures c in t
  {
  }

  /** Every field ends in front of a colon, so a text without one holds no parameters. */
  lemma {:induction false} NoColonNoFields(t: string)
    requires ':' !in t
    ensures ParseParameters(t) == ([], Skip(t))
  {
    hide ParseValue, Skip, Span, Ends;
    if ParseField(t).Some? {
      var rest := ParseField(t).value.1;
      FieldEnds(t);
      SkipEnds(rest);
      EndsTwice(t, rest, Skip(rest));
      EndsIn(t, Skip(rest), ':');
    }
  }

  lemma {:induction false} FieldEnds(t: string)
    ensures ParseField(t).Some? ==> Ends(t, ParseField(t).value.1)
  {
    hide ParseValue, Skip, Span, Ends;
    ValueEnds(t);
    var a := Skip(t);
    var k := Span(a, NotColon);
    SkipEnds(t);
    Dropped(a, k);
    EndsTwice(t, a, a[k..]);
  }

  /** The first field of any text with a colon in it: the value grammar's, if that ends in front of a colon, spaces
      aside; otherwise the text up to the first colon, without the spaces in front of it. The fields after it are
      those of the text behind that colon. */
  lemma {:induction false} FirstField(spaces: string, s: string, rest: string)
    requires forall c :: c in spaces ==> c == ' ' || 9 <= c as int <= 13
    requires ':' !in s && (s == "" || (s[0] != ' ' && !(9 <= s[0] as int <= 13)))
    ensures var t := spaces + s + ":" + rest;
      var value := ParseValue(t);
      if value.Some? && StartsWith(Skip(value.value.1), c => c == ':') then
        ParseParameters(t) == ([value.value.0] + ParseParameters(Skip(value.value.1)[1..]).0,
                               ParseParameters(Skip(value.value.1)[1..]).1)
      else
        ParseParameters(t) == ([Str(s)] + ParseParameters(rest).0, ParseParameters(rest).1)
  {
    hide ParseValue, Skip, Span, ParseField;
    var t := spaces + s + ":" + rest;
    var value := ParseValue(t);
    if ReadableField(t) {
      ValueField(t);
    } else {
      RawField(t);
      RawBegins(spaces, s, rest);
      ColonComes(rest);
      assert (":" + rest)[1..] == rest;
    }
  }

  lemma {:induction false} RawBegins(spaces: string, s: string, rest: string)
    requires forall c :: c in spaces ==> c == ' ' || 9 <= c as int <= 13
    requires ':' !in s && (s == "" || (s[0] != ' ' && !(9 <= s[0] as int <= 13)))
    ensures var a := Skip(spaces + s + ":" + rest);
      a == s + (":" + rest) && Span(a, NotColon) == |s| && a[..|s|] == s && a[|s|..] == ":" + rest
  {
    var a := s + (":" + rest);
    assert spaces + s + ":" + rest == spaces + a;
    assert a[0] == if s == "" then ':' else s[0];
    SpanIs(spaces, a, IsSpace);
    SpanIs(s, ":" + rest, NotColon);
  }
}
