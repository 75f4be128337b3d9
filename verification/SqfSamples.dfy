/**
 Texts and values written out: the samples of the source's own check, which reads each and expects the same text back,
 the words of the grammar, and what begins no value.
 */
module SqfSamples {

  import opened SqfText
  import opened SqfNumbers
  import opened SqfLiterals
  import opened SqfDoubles
  import opened SqfDigits
  import opened Sqf
  import opened SqfRoundTrip
  import opened SqfParameters

  // ----- what begins a value -----

  /** Spaces are the blank and the control characters 9 to 13. No value begins with any other character than those. */
  lemma {:induction false} NothingElseBegins(t: string)
    requires t != "" && t[0] != ' ' && !(9 <= t[0] as int <= 13)
    ensures Skip(t) == t
    ensures t[0] !in "0123456789+-.nNiItfa[\"'" ==> ParseValue(t) == None
  {
    SkipNothing(t);
    if t[0] !in "0123456789+-.nNiItfa[\"'" {
      hide ParseValue, ParseSigned, ParseQuoted, ParseList;
      NotListed(t[0]);
      NoNumberHere(t);
      NotQuoted(t);
      NoWord(t);
    }
  }

  lemma {:induction false} NotListed(c: char)
    requires c !in "0123456789+-.nNiItfa[\"'"
    ensures !IsDigit(c) && c !in {'+', '-', '.'} && Lower(c) != 'n' && Lower(c) != 'i'
    ensures c !in {'t', 'f', 'a', '[', '"', '\''}
  {
    var all := "0123456789+-.nNiItfa[\"'";
    assert all[0] == '0' && all[1] == '1' && all[2] == '2' && all[3] == '3' && all[4] == '4' && all[5] == '5';
    assert all[6] == '6' && all[7] == '7' && all[8] == '8' && all[9] == '9' && all[10] == '+' && all[11] == '-';
    assert all[12] == '.' && all[13] == 'n' && all[14] == 'N' && all[15] == 'i' && all[16] == 'I' && all[17] == 't';
    assert all[18] == 'f' && all[19] == 'a' && all[20] == '[' && all[21] == '"' && all[22] == '\'';
  }

  lemma {:induction false} NoNumberHere(t: string)
    requires t != "" && !IsSpace(t[0])
    requires !IsDigit(t[0]) && t[0] !in {'+', '-', '.'} && Lower(t[0]) != 'n' && Lower(t[0]) != 'i'
    ensures ParseSigned(t, Bits32) == None == ParseSigned(t, Bits64)
    ensures ParseValue(t) == ParseOther(t)
  {
    hide Finish, Fraction, Extract, ParseOther;
    SkipNothing(t);
    assert Span(t, IsDigit) == 0;
  }

  /** A text that begins like one of the three words is a value exactly when it begins with that word, in lower case,
      whatever follows. */
  lemma {:induction false} WordsOnly(t: string, v: Value, rest: string)
    requires t != "" && t[0] in {'t', 'f', 'a'}
    ensures ParseValue(t) == Some((v, rest))
       <==> || (v == Bool(true) && t == "true" + rest)
            || (v == Bool(false) && t == "false" + rest)
            || (v == Any && t == "any" + rest)
  {
    hide ParseValue, ParseSigned, ParseQuoted, ParseList;
    NoNumberHere(t);
    NotQuoted(t);
    PrefixIs(t, "true", rest);
    PrefixIs(t, "false", rest);
    PrefixIs(t, "any", rest);
    assert t[..1][0] == t[0];
  }

  lemma {:induction false} PrefixIs(t: string, p: string, rest: string)
    requires t != "" && p != ""
    ensures t == p + rest <==> Prefixed(t, p) && rest == t[|p|..]
    ensures Prefixed(t, p) ==> t[0] == p[0]
  {
    if Prefixed(t, p) {
      assert t == p + t[|p|..];
      assert t[..|p|][0] == t[0];
    }
    if t == p + rest {
      assert t[..|p|] == p && t[|p|..] == rest;
    }
  }

  // ----- infinities and numbers that are none -----

  /** w is the lower-case word p, each letter in either case. */
  predicate Spells(w: string, p: string) {
    |w| == |p| && forall i :: 0 <= i < |w| ==> w[i] == p[i] || w[i] as int == p[i] as int - 32
  }

  predicate SpelledFirst(t: string, p: string) {
    |p| <= |t| && Spells(t[..|p|], p)
  }

  lemma {:induction false} ReadsIsSpelled(t: string, p: string)
    requires forall c :: c in p ==> 'a' <= c <= 'z'
    ensures Reads(t, p) ==> SpelledFirst(t, p)
  {
    if Reads(t, p) {
      forall i | 0 <= i < |p| ensures t[..|p|][i] == p[i] || t[..|p|][i] as int == p[i] as int - 32 {
        assert p[i] in p;
      }
    }
  }

  lemma {:induction false} SpelledReads(w: string, rest: string, p: string)
    requires Spells(w, p) && forall c :: c in p ==> 'a' <= c <= 'z'
    ensures Reads(w + rest, p) && (w + rest)[|p|..] == rest
    ensures forall i :: 0 <= i < |w| ==> Lower(w[i]) == p[i]
  {
    forall i | 0 <= i < |w| ensures Lower(w[i]) == p[i] && (w + rest)[i] == w[i] {
      assert p[i] in p;
    }
  }

  /** A sign and one of the words nan, inf and infinity in any case; nan may have anything in parentheses behind it. */
  lemma {:induction false} SpecialWords(s: string, w: string, inside: string, rest: string)
    requires s in {"", "+", "-"} && ')' !in inside
    ensures Spells(w, "nan") && (rest == "" || rest[0] != '(') ==>
              ParseValue(s + w + rest) == Some((Real(NotANumber(s == "-")), rest))
    ensures Spells(w, "nan") ==>
              ParseValue(s + w + "(" + inside + ")" + rest) == Some((Real(NotANumber(s == "-")), rest))
    ensures Spells(w, "infinity") || (Spells(w, "inf") && !SpelledFirst(rest, "inity")) ==>
              ParseValue(s + w + rest) == Some((Real(Infinite(s == "-")), rest))
  {
    hide ParseValue, Spells, NanOrInf;
    if Spells(w, "nan") {
      NanReads(w, inside, rest);
      if rest == "" || rest[0] != '(' {
        SignedSpecial(s, w[0], w + rest, NotANumber(false), rest);
        assert s + w + rest == s + (w + rest);
      }
      assert (w + "(" + inside + ")" + rest)[0] == w[0];
      SignedSpecial(s, w[0], w + "(" + inside + ")" + rest, NotANumber(false), rest);
      assert s + w + "(" + inside + ")" + rest == s + (w + "(" + inside + ")" + rest);
    }
    if Spells(w, "infinity") || (Spells(w, "inf") && !SpelledFirst(rest, "inity")) {
      InfReads(w, rest);
      SignedSpecial(s, w[0], w + rest, Infinite(false), rest);
      assert s + w + rest == s + (w + rest);
    }
  }

  lemma {:induction false} NanReads(w: string, inside: string, rest: string)
    requires Spells(w, "nan") && ')' !in inside
    ensures |w| == 3 && Lower(w[0]) == 'n'
    ensures rest == "" || rest[0] != '(' ==> NanOrInf(w + rest) == (Some(NotANumber(false)), rest)
    ensures NanOrInf(w + "(" + inside + ")" + rest) == (Some(NotANumber(false)), rest)
  {
    hide Reads;
    SpelledReads(w, rest, "nan");
    var tail := "(" + inside + ")" + rest;
    SpelledReads(w, tail, "nan");
    assert w + "(" + inside + ")" + rest == w + tail;
    assert tail == ("(" + inside) + (")" + rest);
    SpanIs("(" + inside, ")" + rest, c => c != ')');
  }

  lemma {:induction false} InfReads(w: string, rest: string)
    requires Spells(w, "infinity") || (Spells(w, "inf") && !SpelledFirst(rest, "inity"))
    ensures |w| >= 3 && Lower(w[0]) == 'i'
    ensures NanOrInf(w + rest) == (Some(Infinite(false)), rest)
  {
    if Spells(w, "inf") {
      hide Spells;
      ReadsIsSpelled(rest, "inity");
      SpelledReads(w, rest, "inf");
      assert Lower((w + rest)[0]) == 'i';
    } else {
      InfinityReads(w, rest);
    }
  }

  lemma {:induction false} InfinityReads(w: string, rest: string)
    requires Spells(w, "infinity")
    ensures Lower(w[0]) == 'i' && NanOrInf(w + rest) == (Some(Infinite(false)), rest)
  {
    assert Spells(w[..3], "inf") && Spells(w[3..], "inity");
    hide Spells;
    var t := w[3..] + rest;
    SpelledReads(w[..3], t, "inf");
    SpelledReads(w[3..], rest, "inity");
    assert w + rest == w[..3] + t;
    assert Lower((w + rest)[0]) == 'i';
    assert (w + rest)[8..] == rest;
  }

  lemma {:induction false} SpecialIs(neg: bool, a: string, d: Double, rest: string)
    requires a != "" && Lower(a[0]) in {'n', 'i'} && NanOrInf(a) == (Some(d), rest)
    ensures AfterSign(neg, a) == Matched(Negated(neg, d), rest)
  {
    hide NanOrInf, AfterWhole, Extract, Negated;
    assert Span(a, IsDigit) == 0;
  }

  lemma {:induction false} SignedSpecial(s: string, c: char, a: string, d: Double, rest: string)
    requires s in {"", "+", "-"} && a != "" && a[0] == c && Lower(c) in {'n', 'i'}
    requires NanOrInf(a) == (Some(d), rest)
    ensures ParseValue(s + a) == Some((Real(Negated(s == "-", d)), rest))
  {
    hide NanOrInf, AfterSign, ParseValue, Negated, Skip;
    SignIs(s, a);
    SpecialIs(s == "-", a, d, rest);
    assert (s + a)[0] == if s == "" then a[0] else s[0];
    DoubleFirst(s + a);
  }

  // ----- the samples -----

  /** v is written as t, and t is read as v, with nothing left over. */
  ghost predicate Kept(v: Value, t: string) {
    Printable(v) && Print(v) == t && ParseValue(t) == Some((v, ""))
  }

  predicate Stays(v: Value, t: string) {
    Printable(v) && Clean(v, true) && Normal(v) == v && PrintWith(v, true) == t
  }

  lemma {:induction false} StaysKept(v: Value, t: string)
    requires Stays(v, t)
    ensures Kept(v, t)
  {
    hide ParseValue, PrintWith, Normal, Clean;
    ReadsBack(v, true, "");
    assert t + "" == t;
  }

  /** The elements of an array behind the first one. */
  predicate MoreStay(vs: seq<Value>, t: string) {
    (forall v :: v in vs ==> Printable(v) && Clean(v, true)) && NormalAll(vs) == vs && PrintMore(vs, true) == t
  }

  lemma {:induction false} NoneMore()
    ensures MoreStay([], "")
  {
  }

  /** Each further element stands behind a comma. */
  lemma {:induction false} OneMore(v: Value, s: string, vs: seq<Value>, more: string, t: string)
    requires Stays(v, s) && MoreStay(vs, more) && t == "," + s + more
    ensures MoreStay([v] + vs, t)
  {
    hide PrintWith, Normal, Clean, Printable;
    assert ([v] + vs)[1..] == vs;
  }

  /** An array is its elements' texts between brackets, with a comma between each two. */
  lemma {:induction false} ArrayStays(v: Value, s: string, vs: seq<Value>, more: string, t: string)
    requires Stays(v, s) && MoreStay(vs, more) && t == "[" + s + more + "]"
    ensures Stays(Array([v] + vs), t)
  {
    hide PrintMore;
    var ws := [v] + vs;
    assert ws[0] == v && ws[1..] == vs;
    assert Printable(Array(ws)) && Clean(Array(ws), true);
    assert NormalAll(ws) == ws;
  }

  lemma {:induction false} ThousandthsStay(m: nat, whole: string, frac: string)
    requires m < 100_000_000 && Decimals(whole, frac, m)
    ensures Stays(Real(Finite(m as real / 1000.0)), whole + "." + frac)
  {
    hide PrintReal, Decimals, InTable, TenTo, RoundedUp, FixedNotation;
    var x := m as real / 1000.0;
    SmallPowers();
    FixedIs(m);
    assert x == Times(m, -3);
    ThousandthsOf(m);
    FixedText(x, whole, frac);
    assert whole + "." + frac == "" + whole + "." + frac;
  }

  lemma {:induction false} Numbers()
    ensures Number("0") == 0 && Number("1") == 1 && Number("3") == 3 && Number("5") == 5
    ensures Number("837") == 837 && Number("10130") == 10130
  {
    assert "0"[..0] == "1"[..0] == "3"[..0] == "5"[..0] == "8"[..0] == "";
    assert "837"[..2] == "83" && "83"[..1] == "8";
    assert "10130"[..4] == "1013" && "1013"[..3] == "101" && "101"[..2] == "10" && "10"[..1] == "1";
  }

  /** The doubles among the samples; in particular 10130.1 is written with one digit behind the point. */
  lemma {:induction false} SampleDoubles()
    ensures Stays(Real(Finite(5.0)), "5.0") && Stays(Real(Finite(3.0)), "3.0")
    ensures Stays(Real(Finite(0.837)), "0.837") && Stays(Real(Finite(10130.1)), "10130.1")
  {
    Numbers();
    Powers();
    hide Number, Pow10, Stays;
    ThousandthsStay(5_000, "5", "0");
    ThousandthsStay(3_000, "3", "0");
    ThousandthsStay(837, "0", "837");
    ThousandthsStay(10_130_100, "10130", "1");
    assert "5" + "." + "0" == "5.0" && "3" + "." + "0" == "3.0";
    assert "0" + "." + "837" == "0.837" && "10130" + "." + "1" == "10130.1";
  }

  lemma {:induction false} SampleLeaves()
    ensures Stays(Int(5), "5") && Stays(Int(0), "0") && Stays(Str("hello"), "\"hello\"") && Stays(Array([]), "[]")
  {
    hide PrintReal, PrintMore;
    assert "\"" + "hello" + "\"" == "\"hello\"";
  }

  lemma {:induction false} SampleWords()
    ensures Stays(Bool(true), "true") && Stays(Bool(false), "false") && Stays(Any, "any")
  {
    hide PrintReal, PrintMore, Digits;
  }

  lemma {:induction false} SpecialsStay()
    ensures Stays(Real(Infinite(false)), "inf") && Stays(Real(Infinite(true)), "-inf")
    ensures Stays(Real(NotANumber(false)), "nan") && Stays(Real(NotANumber(true)), "-nan")
  {
    hide PrintReal, PrintMore, Digits;
  }

  /** The samples of one element, or none. */
  lemma {:induction false} SmallSamples()
    ensures Kept(Int(5), "5") && Kept(Real(Finite(5.0)), "5.0")
    ensures Kept(Str("hello"), "\"hello\"") && Kept(Array([]), "[]")
  {
    hide Stays, Kept;
    SampleDoubles();
    SampleLeaves();
    StaysKept(Int(5), "5");
    StaysKept(Real(Finite(5.0)), "5.0");
    StaysKept(Str("hello"), "\"hello\"");
    StaysKept(Array([]), "[]");
  }

  lemma {:induction false} TwoStay(v: Value, s: string, w: Value, t: string, text: string)
    requires Stays(v, s) && Stays(w, t) && text == "[" + s + "," + t + "]"
    ensures Stays(Array([v, w]), text)
  {
    hide Stays, MoreStay;
    NoneMore();
    OneMore(w, t, [], "", "," + t);
    ArrayStays(v, s, [w] + [], "," + t, text);
    assert [v] + ([w] + []) == [v, w];
  }

  /** [5,"hello",3.0] */
  lemma {:induction false} MixedSample()
    ensures Kept(Array([Int(5), Str("hello"), Real(Finite(3.0))]), "[5,\"hello\",3.0]")
  {
    hide Stays, Kept, MoreStay;
    SampleDoubles();
    SampleLeaves();
    NoneMore();
    var more := [Str("hello")] + ([Real(Finite(3.0))] + []);
    OneMore(Real(Finite(3.0)), "3.0", [], "", ",3.0");
    OneMore(Str("hello"), "\"hello\"", [Real(Finite(3.0))] + [], ",3.0", ",\"hello\",3.0");
    ArrayStays(Int(5), "5", more, ",\"hello\",3.0", "[5,\"hello\",3.0]");
    assert [Int(5)] + more == [Int(5), Str("hello"), Real(Finite(3.0))];
    StaysKept(Array([Int(5), Str("hello"), Real(Finite(3.0))]), "[5,\"hello\",3.0]");
  }

  /** [[],[],[],[5]] */
  lemma {:induction false} NestedSample()
    ensures Kept(Array([Array([]), Array([]), Array([]), Array([Int(5)])]), "[[],[],[],[5]]")
  {
    hide Stays, Kept, MoreStay;
    SampleLeaves();
    NoneMore();
    var none, one := Array([]), Array([Int(5)] + []);
    ArrayStays(Int(5), "5", [], "", "[5]");
    OneMore(one, "[5]", [], "", ",[5]");
    OneMore(none, "[]", [one] + [], ",[5]", ",[],[5]");
    OneMore(none, "[]", [none] + ([one] + []), ",[],[5]", ",[],[],[5]");
    ArrayStays(none, "[]", [none] + ([none] + ([one] + [])), ",[],[],[5]", "[[],[],[],[5]]");
    assert [none] + ([none] + ([none] + ([one] + []))) == [none, none, none, one];
    assert one == Array([Int(5)]);
    StaysKept(Array([none, none, none, one]), "[[],[],[],[5]]");
  }

  const LongEnd: seq<Value> := [Any, Array([Real(Finite(0.837)), Int(0)]), Int(0), Array([Int(0), Int(0)])]

  const LongSample: seq<Value> :=
    [Bool(false), Bool(false), Bool(false), Bool(false), Bool(false), Bool(false), Bool(true), Real(Finite(10130.1))]
    + LongEnd

  lemma {:induction false} LongArrays()
    ensures Stays(Array([Real(Finite(0.837)), Int(0)]), "[0.837,0]")
    ensures Stays(Array([Int(0), Int(0)]), "[0,0]")
  {
    hide Stays;
    SampleDoubles();
    SampleLeaves();
    TwoStay(Real(Finite(0.837)), "0.837", Int(0), "0", "[0.837,0]");
    TwoStay(Int(0), "0", Int(0), "0", "[0,0]");
  }

  lemma {:induction false} LongEnds()
    ensures MoreStay(LongEnd, ",any,[0.837,0],0,[0,0]")
  {
    hide Stays, MoreStay;
    SampleLeaves();
    SampleWords();
    NoneMore();
    LongArrays();
    var v3, v1 := Array([Real(Finite(0.837)), Int(0)]), Array([Int(0), Int(0)]);
    OneMore(v1, "[0,0]", [], "", ",[0,0]");
    OneMore(Int(0), "0", [v1] + [], ",[0,0]", ",0,[0,0]");
    OneMore(v3, "[0.837,0]", [Int(0)] + ([v1] + []), ",0,[0,0]", ",[0.837,0],0,[0,0]");
    OneMore(Any, "any", [v3] + ([Int(0)] + ([v1] + [])), ",[0.837,0],0,[0,0]", ",any,[0.837,0],0,[0,0]");
    assert [Any] + ([v3] + ([Int(0)] + ([v1] + []))) == LongEnd;
  }

  lemma {:induction false} TrueAndDouble(vs: seq<Value>, text: string)
    requires MoreStay(vs, text)
    ensures MoreStay([Bool(true), Real(Finite(10130.1))] + vs, ",true,10130.1" + text)
  {
    hide Stays, MoreStay;
    SampleDoubles();
    SampleWords();
    var d, t := Real(Finite(10130.1)), Bool(true);
    OneMore(d, "10130.1", vs, text, ",10130.1" + text);
    OneMore(t, "true", [d] + vs, ",10130.1" + text, ",true,10130.1" + text);
    assert [t] + ([d] + vs) == [t, d] + vs;
  }

  lemma {:induction false} TwoFalse(vs: seq<Value>, text: string)
    requires MoreStay(vs, text)
    ensures MoreStay([Bool(false), Bool(false)] + vs, ",false,false" + text)
  {
    hide Stays, MoreStay;
    SampleWords();
    var f := Bool(false);
    OneMore(f, "false", vs, text, ",false" + text);
    OneMore(f, "false", [f] + vs, ",false" + text, ",false,false" + text);
    assert [f] + ([f] + vs) == [f, f] + vs;
  }

  lemma {:induction false} LastFalse(vs: seq<Value>, text: string)
    requires MoreStay(vs, text)
    ensures Stays(Array([Bool(false), Bool(false)] + vs), "[false,false" + text + "]")
  {
    hide Stays, MoreStay;
    SampleWords();
    var f := Bool(false);
    OneMore(f, "false", vs, text, ",false" + text);
    ArrayStays(f, "false", [f] + vs, ",false" + text, "[false,false" + text + "]");
    assert [f] + ([f] + vs) == [f, f] + vs;
  }

  lemma {:induction false} SixFalse(x: string)
    ensures "[false,false" + (",false,false" + (",false,false" + x)) + "]"
         == "[false,false,false,false,false,false" + (x + "]")
  {
  }

  /** The longest sample, an array of twelve. */
  lemma {:induction false} LongestSample()
    ensures Kept(Array(LongSample),
                 "[false,false,false,false,false,false" + ",true,10130.1,any,[0.837,0],0,[0,0]]")
  {
    hide Stays, Kept, MoreStay;
    LongEnds();
    var end := ",any,[0.837,0],0,[0,0]";
    TrueAndDouble(LongEnd, end);
    var f := Bool(false);
    var v2 := [Bool(true), Real(Finite(10130.1))] + LongEnd;
    TwoFalse(v2, ",true,10130.1" + end);
    TwoFalse([f, f] + v2, ",false,false" + (",true,10130.1" + end));
    var text := ",false,false" + (",false,false" + (",true,10130.1" + end));
    LastFalse([f, f] + ([f, f] + v2), text);
    assert [f, f] + ([f, f] + ([f, f] + v2)) == LongSample;
    SixFalse(",true,10130.1" + end);
    assert (",true,10130.1" + end) + "]" == ",true,10130.1,any,[0.837,0],0,[0,0]]";
    StaysKept(Array(LongSample), "[false,false" + text + "]");
  }

  // ----- what is refused, and what is read after a failure -----

  lemma {:induction false} Five(rest: string)
    requires rest == "" || rest[0] == ','
    ensures ParseValue("5" + rest) == Some((Int(5), rest))
  {
    hide ParseValue, Number;
    Numbers();
    SkipNothing(rest);
    IntegerLiteral("", "5", rest);
    assert "" + "5" + rest == "5" + rest;
  }

  /** A comma must be followed by a value. */
  lemma {:induction false} TrailingComma()
    ensures ParseValue("[5,]") == None
  {
    hide ParseValue, ParseList, ParseMore, Skip;
    Five(",]");
    assert "5" + ",]" == "5,]" && "[" + "5,]" == "[5,]";
    BracketThen("5,]");
    NothingAtBracket("]");
    CommaThen("]");
    assert "," + "]" == ",]";
    ListOfOne("5,]", Int(5), ",]");
    SkipNothing(",]");
  }

  lemma {:induction false} ListOfOne(t: string, v: Value, rest: string)
    requires ParseValue(t) == Some((v, rest)) && ParseMore(rest) == ([], rest)
    ensures ParseList(t) == ([v], rest)
  {
    hide ParseValue, ParseMore;
    assert [v] + [] == [v];
  }

  /** A strict real whose scale fails is skipped, and what stands behind it is the value. */
  lemma {:induction false} FailedScaleIsSkipped(t: string, rest: string)
    requires !StartsWith(t, IsSpace) && StrictDouble(t) == (None, rest)
    requires StrictDouble(Skip(rest)) == (None, Skip(rest))
    ensures ParseValue(t) == ParseValue(rest)
  {
    hide StrictDouble, ParseOther;
    SkipNothing(t);
    SkipNothing(Skip(rest));
  }

  lemma {:induction false} FailingScale()
    ensures StrictDouble("1.0e999 5") == (None, " 5")
  {
    hide StrictDouble, Number, Times, PrefixValue, FittingDigits, DecimalRead;
    Numbers();
    assert Number("999") == 999 by { Nines(); }
    assert PrefixValue(1, "0", 1) == 10 by { OneAndZero(); }
    AllFit(1, "0");
    ExponentLiteral("", "1", true, "0", 'e', "", "999", " 5");
    assert ['e'] + ("" + "999" + " 5") == "e999 5";
    assert "" + Digital("1", true, "0") + "e999 5" == "1.0e999 5";
  }

  lemma {:induction false} Nines()
    ensures Number("999") == 999
  {
    assert "9"[..0] == "" && "99"[..1] == "9" && "999"[..2] == "99";
  }

  lemma {:induction false} OneAndZero()
    ensures PrefixValue(1, "0", 1) == 10
  {
    Numbers();
    Powers();
    assert "0"[..1] == "0";
  }

  lemma {:induction false} SkippedDouble()
    ensures ParseValue("1.0e999 5") == Some((Int(5), "")) && ParseValue(" 5") == Some((Int(5), ""))
  {
    hide ParseValue, StrictDouble;
    FailingScale();
    assert Skip(" 5") == "5" && " " + "5" == " 5";
    SpacesAreSkipped(" ", "5");
    Five("");
    assert "5" + "" == "5";
    assert StrictDouble("5") == (None, "5") by {
      IntegerIsNotDouble("", "5", "");
      assert "" + "5" + "" == "5";
    }
    FailedScaleIsSkipped("1.0e999 5", " 5");
  }
}
