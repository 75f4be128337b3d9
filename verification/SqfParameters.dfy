/**
 Which parameter lists survive being written and read.
 */
module SqfParameters {

  import opened SqfText
  import opened SqfNumbers
  import opened Sqf
  import opened SqfRoundTrip

  /** The value grammar would take the beginning of t for a whole field. */
  predicate ReadableField(t: string) {
    var r := ParseValue(t);
    r.Some? && StartsWith(Skip(r.value.1), IsColon)
  }

  /** A field survives in front of the rest of the list: a value if it is in normal form and holds no string, a raw
      string if it has no colon, does not begin with a space, and is not taken for a value, together with whatever
      of the later fields the value grammar would reach. */
  predicate FieldSurvives(p: Value, rest: string) {
    match p
    case Str(s) =>
      (forall c :: c in s ==> c != ':') && !StartsWith(s, IsSpace) && !ReadableField(s + ":" + rest)
    case _ => Clean(p, false) && Normal(p) == p
  }

  predicate AllSurvive(ps: seq<Value>)
    requires forall p :: p in ps ==> Printable(p)
  {
    ps != [] ==> FieldSurvives(ps[0], PrintParameters(ps[1..])) && AllSurvive(ps[1..])
  }

  lemma {:induction false} ColonComes(rest: string)
    ensures Terminated(":" + rest) && Skip(":" + rest) == ":" + rest && StartsWith(":" + rest, IsColon)
  {
    SkipNothing(":" + rest);
  }

  lemma {:induction false} ValueField(t: string)
    requires ReadableField(t)
    ensures ParseField(t) == ParseValue(t)
  {
    hide ParseValue, Skip, Span;
  }

  /** The raw alternative, when the value alternative does not apply. */
  lemma {:induction false} RawField(t: string)
    requires !ReadableField(t)
    ensures var a := Skip(t);
      var k := Span(a, NotColon);
      ParseField(t) == if k < |a| then Some((Str(a[..k]), a[k..])) else None
  {
    hide ParseValue, Skip, Span;
  }

  lemma {:induction false} RawText(s: string, rest: string)
    requires (forall c :: c in s ==> c != ':') && !StartsWith(s, IsSpace)
    requires !ReadableField(s + ":" + rest)
    ensures ParseField(s + ":" + rest) == Some((Str(s), ":" + rest))
  {
    hide ReadableField, ParseField, Skip;
    var t := s + ":" + rest;
    RawField(t);
    assert t == s + (":" + rest);
    assert t[0] == if s == "" then ':' else s[0];
    SkipNothing(t);
    SpanIs(s, ":" + rest, NotColon);
  }

  lemma {:induction false} SurvivorIsRead(p: Value, rest: string)
    requires Printable(p) && FieldSurvives(p, rest)
    ensures ParseField(PrintWith(p, false) + ":" + rest) == Some((p, ":" + rest))
  {
    hide ParseValue, Normal, Clean;
    ColonComes(rest);
    if p.Str? {
      RawText(p.s, rest);
    } else {
      ReadsBack(p, false, ":" + rest);
      assert PrintWith(p, false) + ":" + rest == PrintWith(p, false) + (":" + rest);
    }
  }

  /** A raw string that was read back whole had no colon and no space in front. */
  lemma {:induction false} RawSurvived(s: string, rest: string)
    requires var a := Skip(s + ":" + rest);
      s == a[..Span(a, NotColon)]
    ensures (forall c :: c in s ==> c != ':') && !StartsWith(s, IsSpace)
    ensures Skip(s + ":" + rest)[|s|..] == ":" + rest
  {
    var t := s + ":" + rest;
    var a := Skip(t);
    var k := Span(t, IsSpace);
    forall c | c in s ensures c != ':' {
      var i :| 0 <= i < |s| && s[i] == c;
      assert a[i] == c && NotColon(a[i]);
    }
    assert t[|s|] == ':';
    assert k <= |s|;
    assert k < |s| ==> a[|s| - k] == ':';
    assert t == s + (":" + rest);
  }

  /** What is read as the field that was written can only be a survivor, and the rest is what was written after it. */
  lemma {:induction false} OnlySurvivors(p: Value, rest: string)
    requires Printable(p)
    requires var r := ParseField(PrintWith(p, false) + ":" + rest);
      r.Some? && r.value.0 == p
    ensures FieldSurvives(p, rest)
  {
    hide ParseValue, Normal, Clean, PrintWith;
    var t := PrintWith(p, false) + ":" + rest;
    ColonComes(rest);
    assert t == PrintWith(p, false) + (":" + rest);
    if p.Str? {
      PrintsRaw(p.s);
      NeverItself(p.s, ":" + rest);
      RawField(t);
      RawSurvived(p.s, rest);
    } else {
      ItselfOnlyClean(p, false, ":" + rest);
      ReadsBack(p, false, ":" + rest);
    }
  }

  lemma {:induction false} PrintsRaw(s: string)
    ensures PrintWith(Str(s), false) == s
  {
  }

  /** One field of a list is read off its printed form. */
  lemma {:induction false} FieldsStep(p: Value, rest: string)
    requires Printable(p) && FieldSurvives(p, rest)
    ensures ParseFields(PrintWith(p, false) + ":" + rest) == ([p] + ParseFields(rest).0, ParseFields(rest).1)
  {
    hide ParseField, FieldSurvives, PrintWith, Skip;
    SurvivorIsRead(p, rest);
    ColonComes(rest);
    assert (":" + rest)[1..] == rest;
  }

  lemma {:induction false} NoFields()
    ensures ParseFields("") == ([], "") && ParseParameters("") == ([], "")
  {
    hide ParseValue;
    assert ParseValue("").None?;
  }

  /** Reading a printed list gives the list back, with nothing left over, exactly when every field survives in front
      of the fields after it. */
  lemma {:induction false} ParametersRoundTrip(ps: seq<Value>)
    requires forall p :: p in ps ==> Printable(p)
    ensures ParseParameters(PrintParameters(ps)) == (ps, "") <==> AllSurvive(ps)
  {
    if AllSurvive(ps) {
      SurvivorsReadBack(ps);
    } else if ParseParameters(PrintParameters(ps)) == (ps, "") {
      ReadBackSurvives(ps);
    }
  }

  lemma {:induction false} SurvivorsReadBack(ps: seq<Value>)
    requires forall p :: p in ps ==> Printable(p)
    requires AllSurvive(ps)
    ensures ParseFields(PrintParameters(ps)) == (ps, "")
  {
    hide ParseFields, FieldSurvives, PrintWith;
    if ps == [] {
      NoFields();
    } else {
      SurvivorsReadBack(ps[1..]);
      FieldsStep(ps[0], PrintParameters(ps[1..]));
      assert ps == [ps[0]] + ps[1..];
    }
  }

  lemma {:induction false} ReadBackSurvives(ps: seq<Value>)
    requires forall p :: p in ps ==> Printable(p)
    requires ParseFields(PrintParameters(ps)).0 == ps
    ensures AllSurvive(ps)
  {
    hide FieldSurvives, PrintWith, ParseField;
    if ps != [] {
      var rest := PrintParameters(ps[1..]);
      OnlySurvivors(ps[0], rest);
      FieldsStep(ps[0], rest);
      ReadBackSurvives(ps[1..]);
    }
  }

  /** Empty fields survive anywhere. */
  lemma {:induction false} EmptyFieldSurvives(rest: string)
    ensures FieldSurvives(Str(""), rest)
  {
    hide ParseValue, ParseSigned, ParseQuoted, ParseList;
    var t := ":" + rest;
    assert "" + ":" + rest == t;
    NoNumber(t);
    NotQuoted(t);
    NoWord(t);
  }

  /** A text that begins with none of the words and brackets of the grammar, and is no number and no quoted string,
      is no value. */
  lemma {:induction false} NoWord(t: string)
    requires t != "" && t[0] !in {'t', 'f', 'a', '['}
    requires ParseSigned(t, Bits32) == None == ParseSigned(t, Bits64) && ParseQuoted(t) == None
    ensures ParseOther(t) == None
  {
    hide ParseSigned, ParseQuoted, ParseList;
    assert t[..1][0] == t[0];
    assert |t| < 3 || t[..3][0] == t[0];
    assert |t| < 4 || t[..4][0] == t[0];
    assert |t| < 5 || t[..5][0] == t[0];
  }

  /** Whether a raw string survives depends on the fields behind it: each of these two survives at the end of a list,
      but written one after the other they are read as one quoted string. */
  lemma {:induction false} FieldsReadTogether()
    ensures var first, second := Str("\"a"), Str("b\"");
      && FieldSurvives(first, "") && FieldSurvives(second, "")
      && PrintParameters([first, second]) == "\"a:b\":"
      && ParseParameters(PrintParameters([first, second])) == ([Str("a:b")], "")
  {
    hide ParseValue, ParseParameters, FieldSurvives;
    EachSurvives();
    var first, second := Str("\"a"), Str("b\"");
    assert [first, second][1..] == [second];
    assert [second][1..] == [];
    assert PrintParameters([]) == "";
    assert PrintParameters([second]) == "b\"" + ":" + "";
    assert PrintParameters([first, second]) == "\"a" + ":" + PrintParameters([second]);
    QuotedField("a:b");
    assert "\"" + "a:b" + "\"" + ":" == "\"a:b\":";
  }

  lemma {:induction false} EachSurvives()
    ensures FieldSurvives(Str("\"a"), "") && FieldSurvives(Str("b\""), "")
  {
    hide ParseValue;
    OpenQuote();
    LetterAndQuote();
    assert "\"a" + ":" + "" == "\"a:";
    assert "b\"" + ":" + "" == "b\":";
  }

  /** A field that begins and ends with the quote is read as the string between, colons included. */
  lemma {:induction false} QuotedField(s: string)
    requires forall c :: c in s ==> c != '"' && c as int < 128
    ensures ParseParameters("\"" + s + "\"" + ":") == ([Str(s)], "")
  {
    hide ParseValue, ParseParameters, ParseField, Skip, Span;
    StringReadsBack(s, ":");
    SkipNothing(":");
    ValueField("\"" + s + "\"" + ":");
    LastField("\"" + s + "\"" + ":", Str(s));
  }

  lemma {:induction false} LastField(t: string, v: Value)
    requires ParseField(t) == Some((v, ":"))
    ensures ParseParameters(t) == ([v], "")
  {
    hide ParseField;
    SkipNothing(":");
    assert ":"[1..] == "";
    NoFields();
    assert [v] + [] == [v];
    assert Skip("") == "";
  }

  lemma {:induction false} OpenQuote()
    ensures ParseValue("\"a:") == None
  {
    hide ParseValue, ParseSigned, ParseList, ParseQuoted;
    var t := "\"a:";
    NoNumber(t);
    Unclosed(t);
    NoWord(t);
  }

  lemma {:induction false} Unclosed(t: string)
    requires t == "\"a:"
    ensures ParseQuoted(t) == None
  {
    assert t[1..] == "a:" + "";
    SpanIs("a:", "", Plain('"'));
  }

  lemma {:induction false} LetterAndQuote()
    ensures ParseValue("b\":") == None
  {
    hide ParseValue, ParseSigned, ParseList, ParseQuoted;
    var t := "b\":";
    NoNumber(t);
    NotQuoted(t);
    NoWord(t);
  }
}
