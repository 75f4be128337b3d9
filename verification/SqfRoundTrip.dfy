/**
 Reading back what the generator wrote, and what integer literals become.
 */
module SqfRoundTrip {

  import opened SqfText
  import opened SqfNumbers
  import opened SqfLiterals
  import opened SqfDoubles
  import opened Sqf

  // ----- texts that are no number -----

  predicate IsNumberStart(c: char) {
    IsNumeric(c) || Lower(c) == 'n' || Lower(c) == 'i'
  }

  lemma {:induction false} NoNumber(t: string)
    requires t != "" && !IsSpace(t[0]) && !IsNumberStart(t[0])
    ensures StrictDouble(t) == (None, t)
    ensures ParseSigned(t, Bits32) == None == ParseSigned(t, Bits64)
    ensures ParseValue(t) == ParseOther(t)
  {
    SkipNothing(t);
    NoDouble(t);
  }

  lemma {:induction false} NoDouble(t: string)
    requires t != "" && !IsNumberStart(t[0])
    ensures StrictDouble(t) == (None, t)
  {
    hide Finish, Fraction, Extract;
    assert Span(t, IsDigit) == 0;
  }

  /** Spaces in front of a value, of a separating comma and of the closing bracket say nothing. */
  lemma {:induction false} SpacesAreSkipped(sp: string, t: string)
    requires forall c :: c in sp ==> c == ' ' || 9 <= c as int <= 13
    ensures Skip(sp + t) == Skip(t)
    ensures ParseValue(sp + t) == ParseValue(t)
    ensures Prefixed(Skip(t), ",") ==>
              ParseMore(sp + t) == if ParseMore(t).0 == [] then ([], sp + t) else ParseMore(t)
  {
    hide StrictDouble, ParseOther;
    SkipMore(sp, t);
  }

  lemma {:induction false} SkipMore(sp: string, t: string)
    requires forall c :: c in sp ==> IsSpace(c)
    ensures Skip(sp + t) == Skip(t)
  {
    var k := Span(t, IsSpace);
    var front := sp + t[..k];
    assert sp + t == front + t[k..];
    forall c | c in front ensures IsSpace(c) {
    }
    SpanIs(front, t[k..], IsSpace);
  }

  // ----- integers -----

  /** What may follow an integer literal. */
  predicate EndsInteger(rest: string) {
    rest == "" || (!IsDigit(rest[0]) && !IsExponent(rest[0]) && rest[0] != '.')
  }

  /** An integer literal is read as the number written, never truncated, and refused exactly when it does not fit
      64 bits. It is the 32-bit variant exactly when it fits 32 bits and no digit comes after it, not even behind
      spaces, which the negative lookahead skips. */
  lemma {:induction false} IntegerLiteral(s: string, ds: string, rest: string)
    requires (s == "" || s == "+" || s == "-") && ds != "" && AllDigits(ds)
    requires rest == "" || (!('0' <= rest[0] <= '9') && rest[0] != 'e' && rest[0] != 'E' && rest[0] != '.')
    ensures var n := (if s == "-" then -1 else 1) * Number(ds);
      ParseValue(s + ds + rest)
      == if n < -9_223_372_036_854_775_808 || 9_223_372_036_854_775_807 < n then None
         else if -2_147_483_648 <= n <= 2_147_483_647 && !StartsWith(Skip(rest), IsDigit) then Some((Int(n), rest))
         else Some((Int64(n), rest))
  {
    hide StrictDouble, Number, ParseSigned, ParseList, Skip;
    var t := s + ds + rest;
    assert ds[0] in ds;
    assert t[0] == if s == "" then ds[0] else s[0];
    SkipNothing(t);
    IntegerIsNotDouble(s, ds, rest);
    SignedLiteral(s, ds, rest, Bits32);
    SignedLiteral(s, ds, rest, Bits64);
  }

  /** Fitting 32 bits is not enough: 5 in front of a space and a digit is read as the wide variant. */
  lemma {:induction false} SpacedDigitWidens()
    ensures ParseValue("5 6") == Some((Int64(5), " 6")) && ParseValue("5,6") == Some((Int(5), ",6"))
  {
    hide ParseValue;
    assert Number("5") == 5 by {
      assert "5"[..0] == "";
    }
    assert Skip(" 6") == "6";
    SkipNothing(",6");
    IntegerLiteral("", "5", " 6");
    IntegerLiteral("", "5", ",6");
    assert "" + "5" + " 6" == "5 6" && "" + "5" + ",6" == "5,6";
  }

  /** The accessor gives back the number written, whether it was read as either width, quoted as a string or
      written as a whole double, and fails on the literals that fit no width. */
  lemma {:induction false} BigIntIsExact(s: string, ds: string, rest: string)
    requires IsSign(s) && ds != "" && AllDigits(ds) && EndsInteger(rest)
    ensures var n := Literal(s, ds);
      && GetBigInt(Str(s + ds)) == (if InRange(n, Bits64) then Got(n) else BadGet)
      && GetBigInt(Real(Finite(n as real))) == GetBigInt(Str(s + ds))
      && (ParseValue(s + ds + rest).Some? <==> InRange(n, Bits64))
      && (InRange(n, Bits64) ==> GetBigInt(ParseValue(s + ds + rest).value.0) == Got(n))
  {
    hide Number, ParseSigned, ParseValue;
    IntegerLiteral(s, ds, rest);
    SignedLiteral(s, ds, "", Bits64);
    assert s + ds + "" == s + ds;
  }

  /** The 32-bit accessor reads quoted integers by their value, but bare ones by their variant: a bare integer that
      was widened by a digit behind it is refused although it fits. */
  lemma {:induction false} IntAnyByVariant(s: string, ds: string, rest: string)
    requires IsSign(s) && ds != "" && AllDigits(ds) && EndsInteger(rest)
    ensures var n := Literal(s, ds);
      && GetIntAny(Str(s + ds)) == (if InRange(n, Bits32) then Got(n) else BadGet)
      && (InRange(n, Bits64) ==>
            ParseValue(s + ds + rest).Some? &&
            GetIntAny(ParseValue(s + ds + rest).value.0)
            == if InRange(n, Bits32) && !StartsWith(Skip(rest), IsDigit) then Got(n) else BadGet)
  {
    hide Number, ParseSigned, ParseValue;
    IntegerLiteral(s, ds, rest);
    SignedLiteral(s, ds, "", Bits32);
    assert s + ds + "" == s + ds;
  }

  lemma {:induction false} DecimalIsLiteral(n: int)
    ensures var s := if n < 0 then "-" else "";
      var ds := Digits(if n < 0 then -n else n);
      Decimal(n) == s + ds && IsSign(s) && Literal(s, ds) == n
  {
    DigitsDenote(if n < 0 then -n else n);
  }

  // ----- values -----

  /** What may follow a value: the end, or one of the grammar's own separators. */
  predicate Terminated(rest: string) {
    rest == "" || rest[0] == ',' || rest[0] == ']' || rest[0] == ':'
  }

  /** The value that stands for v once it has been written: doubles rounded, integers in the narrowest variant. */
  function Normal(v: Value): Value
    decreases v
  {
    match v
    case Real(Finite(x)) => Real(Finite(Rounded(x)))
    case Int64(n) => if InRange(n, Bits32) then Int(n) else v
    case Array(vs) => Array(NormalAll(vs))
    case _ => v
  }

  function NormalAll(vs: seq<Value>): (ws: seq<Value>)
    ensures |ws| == |vs|
    decreases vs
  {
    if vs == [] then [] else [Normal(vs[0])] + NormalAll(vs[1..])
  }

  /** Every string in v survives between double quotes; without quotes there must be none. */
  predicate Clean(v: Value, quoted: bool)
    decreases v
  {
    match v
    case Str(s) => quoted && forall c :: c in s ==> c != '"' && c as int < 128
    case Array(vs) => forall w :: w in vs ==> Clean(w, quoted)
    case _ => true
  }

  lemma {:induction false} SpecialWord(infinite: bool, neg: bool, rest: string)
    requires Terminated(rest)
    ensures AfterSign(neg, (if infinite then "inf" else "nan") + rest)
         == Matched(if infinite then Infinite(neg) else NotANumber(neg), rest)
  {
    hide AfterWhole, Extract;
    var a := (if infinite then "inf" else "nan") + rest;
    assert a[3..] == rest;
    assert !Reads(rest, "inity");
    assert Span(a, IsDigit) == 0;
  }

  lemma {:induction false} SpecialReadsBack(d: Double, rest: string)
    requires !d.Finite? && Terminated(rest)
    ensures ParseValue(PrintDouble(d) + rest) == Some((Real(d), rest))
  {
    hide AfterSign;
    var s := if d.negative then "-" else "";
    var a := (if d.Infinite? then "inf" else "nan") + rest;
    assert PrintDouble(d) + rest == s + a;
    SkipNothing(s + a);
    SignIs(s, a);
    SpecialWord(d.Infinite?, d.negative, rest);
  }

  lemma {:induction false} IntReadsBack(n: int, rest: string)
    requires InRange(n, Bits64) && Terminated(rest)
    ensures ParseValue(Decimal(n) + rest) == Some((Normal(Int64(n)), rest))
  {
    hide Digits, ParseValue, Number;
    var s, ds := if n < 0 then "-" else "", Digits(if n < 0 then -n else n);
    DecimalIsLiteral(n);
    IntegerLiteral(s, ds, rest);
    SkipNothing(rest);
  }

  lemma {:induction false} FiniteReadsBack(x: real, rest: string)
    requires InTable(AbsReal(x)) && Terminated(rest)
    ensures ParseValue(PrintReal(x) + rest) == Some((Real(Finite(Rounded(x))), rest))
  {
    hide PrintReal, StrictDouble, Rounded, InTable, ParseValue, AbsReal;
    var t := PrintReal(x) + rest;
    TextBegins(x);
    DoubleReadsBack(x, rest);
    DoubleFirst(t);
  }

  lemma {:induction false} DoubleFirst(t: string)
    requires !StartsWith(t, IsSpace) && StrictDouble(t).0.Some?
    ensures ParseValue(t) == Some((Real(StrictDouble(t).0.value), StrictDouble(t).1))
  {
    hide StrictDouble, ParseOther;
    SkipNothing(t);
  }

  lemma {:induction false} TextBegins(x: real)
    requires InTable(AbsReal(x))
    ensures PrintReal(x) != "" && (PrintReal(x)[0] == '-' || IsDigit(PrintReal(x)[0]))
  {
    hide PrintReal, Digits, FractionDigits, Mantissa3, ExponentDigits, InTable, FixedNotation, Exponent;
    PrintRealForm(x);
    var whole := Digits(Mantissa3(AbsReal(x)) / 1000);
    assert whole[0] in whole;
  }

  lemma {:induction false} WordReadsBack(v: Value, rest: string)
    requires v.Bool? || v.Any?
    ensures ParseValue(PrintWith(v, true) + rest) == Some((v, rest))
  {
    hide ParseValue, ParseSigned, ParseQuoted, ParseList;
    var word := PrintWith(v, true);
    var t := word + rest;
    NoNumber(t);
    NotQuoted(t);
    assert t[..|word|] == word && t[|word|..] == rest;
    assert |t| < 4 || t[..4][0] == t[0];
  }

  /** Either quote delimits a string, which may then hold the other one. */
  lemma {:induction false} QuotedReads(q: char, s: string, rest: string)
    requires (q == '"' || q == '\'') && forall c :: c in s ==> c != q && c as int < 128
    ensures ParseValue([q] + s + [q] + rest) == Some((Str(s), rest))
  {
    hide ParseValue, ParseSigned, ParseQuoted, ParseList;
    var t := [q] + s + [q] + rest;
    NoNumber(t);
    QuotedText(q, s, rest);
    assert t[0] == q;
    assert |t| < 4 || t[..4][0] == q;
    assert |t| < 5 || t[..5][0] == q;
  }

  lemma {:induction false} QuotedText(q: char, s: string, rest: string)
    requires (q == '"' || q == '\'') && forall c :: c in s ==> c != q && c as int < 128
    ensures ParseQuoted([q] + s + [q] + rest) == Some((s, rest))
  {
    var tail := [q] + rest;
    var t := [q] + s + [q] + rest;
    assert t[1..] == s + tail;
    SpanIs(s, tail, Plain(q));
    assert t[1..1 + |s|] == s;
    assert t[1 + |s|] == q;
    assert t[2 + |s|..] == rest;
  }

  /** A quoted text is read exactly when every character before the first closing quote is of seven bits. */
  lemma {:induction false} QuotedExactly(t: string, s: string, rest: string)
    requires t != "" && (t[0] == '"' || t[0] == '\'')
    ensures ParseQuoted(t) == Some((s, rest))
       <==> t == [t[0]] + s + [t[0]] + rest && forall c :: c in s ==> c != t[0] && c as int < 128
  {
    var q := t[0];
    if ParseQuoted(t) == Some((s, rest)) {
      var k := Span(t[1..], Plain(q));
      forall c | c in s ensures c != q && c as int < 128 {
        var i :| 0 <= i < k && c == s[i];
        assert t[1..][i] == c;
      }
    } else if t == [q] + s + [q] + rest && forall c :: c in s ==> c != q && c as int < 128 {
      QuotedText(q, s, rest);
    }
  }

  /** A text that begins with a quote is a value only as a quoted string: not at all without a closing quote, or with
      a character of eight bits in front of the first one. */
  lemma {:induction false} QuotedOnly(t: string, v: Value, rest: string)
    requires t != "" && (t[0] == '"' || t[0] == '\'')
    ensures ParseValue(t) == Some((v, rest))
       <==> v.Str? && t == [t[0]] + v.s + [t[0]] + rest && forall c :: c in v.s ==> c != t[0] && c as int < 128
  {
    hide ParseValue, ParseSigned, ParseQuoted, ParseList;
    NoNumber(t);
    assert t[..1][0] == t[0];
    assert |t| < 3 || t[..3][0] == t[0];
    assert |t| < 4 || t[..4][0] == t[0];
    assert |t| < 5 || t[..5][0] == t[0];
    if v.Str? {
      QuotedExactly(t, v.s, rest);
    }
  }

  lemma {:induction false} StringReadsBack(s: string, rest: string)
    requires forall c :: c in s ==> c != '"' && c as int < 128
    ensures ParseValue("\"" + s + "\"" + rest) == Some((Str(s), rest))
  {
    hide ParseValue;
    QuotedReads('"', s, rest);
  }

  /** Reading what was written for v gives v in its normal form and leaves exactly the rest, whatever separator
      follows and however deep the arrays nest. */
  lemma {:induction false} ReadsBack(v: Value, quoted: bool, rest: string)
    requires Printable(v) && Clean(v, quoted) && Terminated(rest)
    ensures ParseValue(PrintWith(v, quoted) + rest) == Some((Normal(v), rest))
    decreases v
  {
    hide ParseValue, Decimal, PrintReal, Rounded;
    match v
    case Real(Finite(x)) => FiniteReadsBack(x, rest);
    case Real(d) => SpecialReadsBack(d, rest);
    case Int(n) => IntReadsBack(n, rest);
    case Int64(n) => IntReadsBack(n, rest);
    case Str(s) => StringReadsBack(s, rest);
    case Array(vs) =>
      ListReadsBack(vs, quoted, "]" + rest);
      ArrayOpens(vs, quoted, rest);
    case _ => WordReadsBack(v, rest);
  }

  function PrintList(vs: seq<Value>, quoted: bool): string
    requires forall v :: v in vs ==> Printable(v)
  {
    if vs == [] then "" else PrintWith(vs[0], quoted) + PrintMore(vs[1..], quoted)
  }

  lemma {:induction false} BracketThen(u: string)
    ensures var (ws, d) := ParseList(u);
      ParseValue("[" + u) == if Prefixed(Skip(d), "]") then Some((Array(ws), Skip(d)[1..])) else None
  {
    hide ParseValue, ParseList, ParseSigned, Skip, ParseQuoted;
    var t := "[" + u;
    NoNumber(t);
    assert t[1..] == u;
    assert !StartsWith(t, IsQuote);
    assert ParseQuoted(t).None? by { NotQuoted(t); }
  }

  lemma {:induction false} NotQuoted(t: string)
    requires !StartsWith(t, IsQuote)
    ensures ParseQuoted(t) == None
  {
  }

  lemma {:induction false} CommaThen(u: string)
    ensures ParseMore("," + u)
         == match ParseValue(u)
            case None => ([], "," + u)
            case Some((v, rest)) => ([v] + ParseMore(rest).0, ParseMore(rest).1)
  {
    hide ParseValue;
    SkipNothing("," + u);
    assert ("," + u)[1..] == u;
  }

  lemma {:induction false} PrintArray(vs: seq<Value>, quoted: bool)
    requires Printable(Array(vs))
    ensures PrintWith(Array(vs), quoted) == "[" + PrintList(vs, quoted) + "]"
  {
    hide PrintMore;
  }

  lemma {:induction false} ArrayOpens(vs: seq<Value>, quoted: bool, rest: string)
    requires Printable(Array(vs))
    ensures var (ws, d) := ParseList(PrintList(vs, quoted) + ("]" + rest));
      ParseValue(PrintWith(Array(vs), quoted) + rest)
      == if Prefixed(Skip(d), "]") then Some((Array(ws), Skip(d)[1..])) else None
  {
    hide ParseValue, ParseList, Skip, PrintWith, PrintList;
    var u := PrintList(vs, quoted) + ("]" + rest);
    BracketThen(u);
    PrintArray(vs, quoted);
    assert PrintWith(Array(vs), quoted) + rest == "[" + u;
  }

  lemma {:induction false} ListReadsBack(vs: seq<Value>, quoted: bool, close: string)
    requires forall v :: v in vs ==> Printable(v) && Clean(v, quoted)
    requires close != "" && close[0] == ']'
    ensures ParseList(PrintList(vs, quoted) + close) == (NormalAll(vs), close)
    decreases vs, 1
  {
    hide ParseValue, ParseMore, PrintWith, PrintMore;
    if vs == [] {
      NothingAtBracket(close);
      assert "" + close == close;
    } else {
      MoreReadsBack(vs[1..], quoted, close);
      var more := PrintMore(vs[1..], quoted) + close;
      MoreTerminates(vs[1..], quoted, close);
      ReadsBack(vs[0], quoted, more);
      assert PrintList(vs, quoted) + close == PrintWith(vs[0], quoted) + more;
    }
  }

  lemma {:induction false} NothingAtBracket(t: string)
    requires t != "" && t[0] == ']'
    ensures ParseValue(t) == None
  {
    hide ParseValue, ParseSigned, ParseList;
    NoNumber(t);
  }

  lemma {:induction false} MoreTerminates(vs: seq<Value>, quoted: bool, close: string)
    requires forall v :: v in vs ==> Printable(v)
    requires Terminated(close)
    ensures Terminated(PrintMore(vs, quoted) + close)
  {
  }

  lemma {:induction false} MoreReadsBack(vs: seq<Value>, quoted: bool, close: string)
    requires forall v :: v in vs ==> Printable(v) && Clean(v, quoted)
    requires close != "" && close[0] == ']'
    ensures ParseMore(PrintMore(vs, quoted) + close) == (NormalAll(vs), close)
    decreases vs, 0
  {
    hide ParseValue, PrintWith, ParseMore;
    if vs == [] {
      NoMoreAtBracket(close);
      assert "" + close == close;
    } else {
      var more := PrintMore(vs[1..], quoted) + close;
      MoreReadsBack(vs[1..], quoted, close);
      MoreTerminates(vs[1..], quoted, close);
      ReadsBack(vs[0], quoted, more);
      CommaThen(PrintWith(vs[0], quoted) + more);
      assert PrintMore(vs, quoted) + close == "," + (PrintWith(vs[0], quoted) + more);
    }
  }

  lemma {:induction false} NoMoreAtBracket(t: string)
    requires t != "" && t[0] == ']'
    ensures ParseMore(t) == ([], t)
  {
    hide ParseValue;
    SkipNothing(t);
  }

  // ----- nothing else reads back -----

  lemma {:induction false} BehindSpaces(t: string)
    ensures BehindNumber(t, Skip(t))
  {
    BehindAll(t, Span(t, IsSpace));
  }

  /** Where the alternatives after the first begin: behind spaces and characters of numbers. */
  lemma {:induction false} OthersBegin(t: string)
    requires StrictDouble(Skip(t)).0.None?
    ensures BehindNumber(t, Skip(StrictDouble(Skip(t)).1))
  {
    hide StrictDouble, BehindNumber;
    var b := StrictDouble(Skip(t)).1;
    BehindSpaces(t);
    FailsBehindNumber(Skip(t));
    BehindTwice(t, Skip(t), b);
    BehindSpaces(b);
    BehindTwice(t, b, Skip(b));
  }

  lemma {:induction false} OnlyQuotedGivesString(c: string)
    requires ParseOther(c).Some? && ParseOther(c).value.0.Str?
    ensures StartsWith(c, IsQuote) && forall x :: x in ParseOther(c).value.0.s ==> x != c[0]
  {
    hide ParseSigned, ParseList, Skip;
    var k := Span(c[1..], Plain(c[0]));
    forall x | x in c[1..1 + k] ensures Plain(c[0])(x) {
      var i :| 0 <= i < k && x == c[1..1 + k][i];
      assert x == c[1..][i];
    }
  }

  lemma {:induction false} QuoteIsInside(s: string, rest: string, k: nat)
    requires Terminated(rest) && k < |s + rest| && IsQuote((s + rest)[k])
    requires forall i :: 0 <= i < k ==> IsPassed((s + rest)[i])
    ensures k < |s|
  {
    assert rest != "" ==> (s + rest)[|s|] == rest[0];
  }

  /** An unquoted string is never read as itself: the text of a string value has a quote that its contents lack. */
  lemma {:induction false} NeverItself(s: string, rest: string)
    requires Terminated(rest)
    ensures var r := ParseValue(s + rest);
      r.Some? ==> r.value.0 != Str(s)
  {
    hide StrictDouble, ParseOther, Skip;
    var t := s + rest;
    var r := ParseValue(t);
    if r.Some? && r.value.0.Str? {
      var c := Skip(StrictDouble(Skip(t)).1);
      OthersBegin(t);
      OnlyQuotedGivesString(c);
      var k :| 0 <= k <= |t| && c == t[k..] && forall i :: 0 <= i < k ==> IsPassed(t[i]);
      QuoteIsInside(s, rest, k);
      assert c[0] == s[k] && s[k] in s;
    }
  }

  lemma {:induction false} QuotedOnlyClean(s: string, rest: string)
    requires var r := ParseValue("\"" + s + "\"" + rest);
      r.Some? && r.value.0 == Str(s)
    ensures forall c :: c in s ==> c != '"' && c as int < 128
  {
    hide ParseValue, ParseSigned, ParseList;
    var t := "\"" + s + "\"" + rest;
    NoNumber(t);
    var k := Span(t[1..], Plain('"'));
    forall c | c in s ensures c != '"' && c as int < 128 {
      var i :| 0 <= i < |s| && s[i] == c;
      assert t[1..][i] == s[i];
    }
  }

  /** w has the shape of v and the same strings. */
  predicate Like(v: Value, w: Value)
    decreases v
  {
    match v
    case Str(_) => w == v
    case Array(vs) => w.Array? && LikeAll(vs, w.elements)
    case _ => true
  }

  predicate LikeAll(vs: seq<Value>, ws: seq<Value>)
    decreases vs
  {
    |vs| == |ws| && (vs != [] ==> Like(vs[0], ws[0]) && LikeAll(vs[1..], ws[1..]))
  }

  lemma {:induction false} LikeItself(v: Value)
    ensures Like(v, v) && Like(v, Normal(v))
    decreases v
  {
    if v.Array? {
      LikeThemselves(v.elements);
    }
  }

  lemma {:induction false} LikeThemselves(vs: seq<Value>)
    ensures LikeAll(vs, vs) && LikeAll(vs, NormalAll(vs))
    decreases vs
  {
    if vs != [] {
      LikeItself(vs[0]);
      LikeThemselves(vs[1..]);
    }
  }

  /** A value whose shape and strings read back has only strings the quotes can hold, and none where none are quoted. */
  lemma {:induction false} ReadBackMeansClean(v: Value, w: Value, quoted: bool, rest: string)
    requires Printable(v) && Terminated(rest) && Like(v, w)
    requires var r := ParseValue(PrintWith(v, quoted) + rest);
      r.Some? && r.value.0 == w
    ensures Clean(v, quoted)
    decreases v
  {
    hide ParseValue, Decimal, PrintReal;
    match v
    case Str(s) =>
      if quoted {
        QuotedOnlyClean(s, rest);
      } else {
        NeverItself(s, rest);
      }
    case Array(vs) =>
      ArrayOpens(vs, quoted, rest);
      ListMeansClean(vs, w.elements, quoted, "]" + rest);
    case _ =>
  }

  lemma {:induction false} ListMeansClean(vs: seq<Value>, ws: seq<Value>, quoted: bool, close: string)
    requires forall v :: v in vs ==> Printable(v)
    requires close != "" && close[0] == ']' && LikeAll(vs, ws)
    requires ParseList(PrintList(vs, quoted) + close).0 == ws
    ensures forall v :: v in vs ==> Clean(v, quoted)
    decreases vs, 1
  {
    hide ParseValue, ParseMore, PrintWith, PrintMore, Like;
    if vs != [] {
      var more := PrintMore(vs[1..], quoted) + close;
      MoreTerminates(vs[1..], quoted, close);
      assert PrintList(vs, quoted) + close == PrintWith(vs[0], quoted) + more;
      ReadBackMeansClean(vs[0], ws[0], quoted, more);
      ReadsBack(vs[0], quoted, more);
      MoreMeansClean(vs[1..], ws[1..], quoted, close);
      Rejoin(vs);
    }
  }

  lemma {:induction false} Rejoin(vs: seq<Value>)
    requires vs != []
    ensures forall v :: v in vs <==> v == vs[0] || v in vs[1..]
  {
    assert vs == [vs[0]] + vs[1..];
  }

  lemma {:induction false} MoreMeansClean(vs: seq<Value>, ws: seq<Value>, quoted: bool, close: string)
    requires forall v :: v in vs ==> Printable(v)
    requires close != "" && close[0] == ']' && LikeAll(vs, ws)
    requires ParseMore(PrintMore(vs, quoted) + close).0 == ws
    ensures forall v :: v in vs ==> Clean(v, quoted)
    decreases vs, 0
  {
    hide ParseValue, ParseMore, PrintWith, Like;
    if vs != [] {
      var more := PrintMore(vs[1..], quoted) + close;
      MoreTerminates(vs[1..], quoted, close);
      CommaThen(PrintWith(vs[0], quoted) + more);
      assert PrintMore(vs, quoted) + close == "," + (PrintWith(vs[0], quoted) + more);
      ReadBackMeansClean(vs[0], ws[0], quoted, more);
      ReadsBack(vs[0], quoted, more);
      MoreMeansClean(vs[1..], ws[1..], quoted, close);
      Rejoin(vs);
    }
  }

  lemma {:induction false} ItselfOnlyClean(v: Value, quoted: bool, rest: string)
    requires Printable(v) && Terminated(rest)
    requires var r := ParseValue(PrintWith(v, quoted) + rest);
      r.Some? && r.value.0 in {v, Normal(v)}
    ensures Clean(v, quoted)
  {
    hide ParseValue, PrintWith, Like;
    LikeItself(v);
    ReadBackMeansClean(v, ParseValue(PrintWith(v, quoted) + rest).value.0, quoted, rest);
  }

  /** Exactly which values survive writing and reading: those in normal form whose strings are clean. */
  lemma {:induction false} ValueRoundTrip(v: Value, quoted: bool, rest: string)
    requires Printable(v) && Terminated(rest)
    ensures ParseValue(PrintWith(v, quoted) + rest) == Some((v, rest)) <==> Clean(v, quoted) && Normal(v) == v
  {
    hide ParseValue, PrintWith, Clean, Normal;
    if Clean(v, quoted) {
      ReadsBack(v, quoted, rest);
    } else if ParseValue(PrintWith(v, quoted) + rest) == Some((v, rest)) {
      ItselfOnlyClean(v, quoted, rest);
    }
  }

  // ----- printing what was parsed -----

  /** Some double in v is rounded up to the next power of ten. */
  predicate Carrying(v: Value)
    decreases v
  {
    match v
    case Real(Finite(x)) => Carries(AbsReal(x))
    case Array(vs) => exists w :: w in vs && Carrying(w)
    case _ => false
  }

  /** The normal form prints, with the same text exactly when no double carries; it carries none itself. */
  lemma {:induction false} NormalPrints(v: Value, quoted: bool)
    requires Printable(v)
    ensures Printable(Normal(v)) && Normal(Normal(v)) == Normal(v) && !Carrying(Normal(v))
    ensures if Carrying(v) then Clash(PrintWith(v, quoted), PrintWith(Normal(v), quoted))
            else PrintWith(v, quoted) == PrintWith(Normal(v), quoted)
    decreases v, 1
  {
    hide PrintReal, Decimal, Carries, InTable, Rounded, Clash;
    match v
    case Real(Finite(x)) => RoundedPrints(x);
    case Array(vs) => NormalArray(vs, quoted);
    case _ =>
  }

  lemma {:induction false} NormalArray(vs: seq<Value>, quoted: bool)
    requires Printable(Array(vs))
    ensures var v := Array(vs);
      && Printable(Normal(v)) && Normal(Normal(v)) == Normal(v) && !Carrying(Normal(v))
      && if Carrying(v) then Clash(PrintWith(v, quoted), PrintWith(Normal(v), quoted))
         else PrintWith(v, quoted) == PrintWith(Normal(v), quoted)
    decreases vs, 2
  {
    hide PrintWith, Clash;
    var ws := NormalAll(vs);
    NormalMore(vs, quoted);
    PrintArray(vs, quoted);
    PrintArray(ws, quoted);
    if vs != [] {
      NormalPrints(vs[0], quoted);
      NormalMore(vs[1..], quoted);
      Rejoin(vs);
      var first, first', more, more' := PrintWith(vs[0], quoted), PrintWith(ws[0], quoted),
                                        PrintMore(vs[1..], quoted), PrintMore(ws[1..], quoted);
      Bracketed(first, more);
      Bracketed(first', more');
      if Carrying(vs[0]) {
        ClashInside("[", first, first', more + "]", more' + "]");
      } else if exists w :: w in vs[1..] && Carrying(w) {
        ClashInside("[" + first, more, more', "]", "]");
      }
    }
  }

  lemma {:induction false} Bracketed(a: string, b: string)
    ensures "[" + (a + b) + "]" == "[" + a + b + "]" == "[" + a + (b + "]")
  {
  }

  lemma {:induction false} NormalMore(vs: seq<Value>, quoted: bool)
    requires forall v :: v in vs ==> Printable(v)
    ensures forall w :: w in NormalAll(vs) ==> Printable(w) && !Carrying(w)
    ensures NormalAll(NormalAll(vs)) == NormalAll(vs)
    ensures if exists v :: v in vs && Carrying(v) then Clash(PrintMore(vs, quoted), PrintMore(NormalAll(vs), quoted))
            else PrintMore(vs, quoted) == PrintMore(NormalAll(vs), quoted)
    decreases vs, 1
  {
    hide PrintWith, Clash, Carrying, Normal;
    if vs != [] {
      NormalPrints(vs[0], quoted);
      NormalMore(vs[1..], quoted);
      Rejoin(vs);
      var ws := NormalAll(vs);
      assert ws[1..] == NormalAll(vs[1..]);
      var first, first', more, more' := PrintWith(vs[0], quoted), PrintWith(ws[0], quoted),
                                        PrintMore(vs[1..], quoted), PrintMore(ws[1..], quoted);
      if Carrying(vs[0]) {
        ClashInside(",", first, first', more, more');
      } else if exists w :: w in vs[1..] && Carrying(w) {
        ClashInside("," + first, more, more', "", "");
        NothingAfter(first, more);
        NothingAfter(first, more');
      }
    }
  }

  lemma {:induction false} NothingAfter(a: string, b: string)
    ensures "," + a + b + "" == "," + a + b
  {
  }

  /** Only the doubles, rounded; every other part as it is. */
  function RoundAll(v: Value): Value
    decreases v
  {
    match v
    case Real(Finite(x)) => Real(Finite(Rounded(x)))
    case Array(vs) => Array(RoundEach(vs))
    case _ => v
  }

  function RoundEach(vs: seq<Value>): seq<Value>
    decreases vs
  {
    if vs == [] then [] else [RoundAll(vs[0])] + RoundEach(vs[1..])
  }

  /** The integers in v are in the narrowest variant. */
  predicate Narrow(v: Value)
    decreases v
  {
    match v
    case Int(n) => InRange(n, Bits32)
    case Int64(n) => InRange(n, Bits64) && !InRange(n, Bits32)
    case Array(vs) => forall w :: w in vs ==> Narrow(w)
    case _ => true
  }

  lemma {:induction false} NarrowNormal(v: Value)
    requires Narrow(v)
    ensures Normal(v) == RoundAll(v)
    decreases v
  {
    if v.Array? {
      NarrowNormals(v.elements);
    }
  }

  lemma {:induction false} NarrowNormals(vs: seq<Value>)
    requires forall v :: v in vs ==> Narrow(v)
    ensures NormalAll(vs) == RoundEach(vs)
    decreases vs
  {
    if vs != [] {
      NarrowNormal(vs[0]);
      NarrowNormals(vs[1..]);
    }
  }

  /** Whatever is read has its integers in the narrowest variant, unless it is itself a bare integer with another
      digit behind spaces. */
  lemma {:induction false} ReadsNarrow(t: string)
    requires ParseValue(t).Some?
    ensures var (v, rest) := ParseValue(t).value;
      Narrow(v) || (v.Int64? && StartsWith(Skip(rest), IsDigit))
    decreases |t|, 1
  {
    hide StrictDouble, ParseOther;
    var b := StrictDouble(Skip(t)).1;
    if StrictDouble(Skip(t)).0.None? {
      OtherReadsNarrow(Skip(b));
    }
  }

  lemma {:induction false} OtherReadsNarrow(c: string)
    requires ParseOther(c).Some?
    ensures var (v, rest) := ParseOther(c).value;
      Narrow(v) || (v.Int64? && StartsWith(Skip(rest), IsDigit))
    decreases |c|, 0
  {
    hide ParseList, ParseQuoted, Skip, Span;
    var v := ParseOther(c).value.0;
    if v.Array? {
      ListReadsNarrow(c[1..]);
    } else if v.Int64? {
      BothWidths(c);
    }
  }

  lemma {:induction false} BothWidths(c: string)
    requires ParseSigned(c, Bits64).Some?
    ensures var (n, rest) := ParseSigned(c, Bits64).value;
      ParseSigned(c, Bits32) == if InRange(n, Bits32) then Some((n, rest)) else None
  {
    var (neg, a) := Sign(c);
    var ds := a[..Span(a, IsDigit)];
    ExtractIsNumber(ds, neg, Bits32);
    ExtractIsNumber(ds, neg, Bits64);
  }

  lemma {:induction false} ListReadsNarrow(t: string)
    ensures var (vs, d) := ParseList(t);
      Prefixed(Skip(d), "]") ==> forall v :: v in vs ==> Narrow(v)
    decreases |t|, 2
  {
    hide ParseValue, ParseMore, Narrow, Skip, Prefixed;
    if ParseValue(t).Some? {
      var (v, rest) := ParseValue(t).value;
      ReadsNarrow(t);
      AfterElement(v, rest);
    }
  }

  /** The rest of a list behind an element: if the list closes, the element was no wide integer either. */
  lemma {:induction false} AfterElement(v: Value, rest: string)
    requires Narrow(v) || StartsWith(Skip(rest), IsDigit)
    ensures var (vs, d) := ParseMore(rest);
      Prefixed(Skip(d), "]") ==> Narrow(v) && forall w :: w in vs ==> Narrow(w)
    decreases |rest|, 1
  {
    hide ParseMore, Narrow, Skip;
    if Narrow(v) {
      MoreReadsNarrow(rest);
    } else {
      NothingAfterDigit(rest);
    }
  }

  lemma {:induction false} NothingAfterDigit(t: string)
    requires StartsWith(Skip(t), IsDigit)
    ensures ParseMore(t) == ([], t) && !Prefixed(Skip(t), "]")
  {
    hide ParseValue, Skip;
    assert Skip(t)[..1][0] == Skip(t)[0];
  }

  lemma {:induction false} MoreReadsNarrow(t: string)
    ensures var (vs, d) := ParseMore(t);
      Prefixed(Skip(d), "]") ==> forall v :: v in vs ==> Narrow(v)
    decreases |t|, 0
  {
    hide ParseValue, Narrow, Skip;
    if Prefixed(Skip(t), ",") && ParseValue(Skip(t)[1..]).Some? {
      var (v, rest) := ParseValue(Skip(t)[1..]).value;
      ReadsNarrow(Skip(t)[1..]);
      AfterElement(v, rest);
    }
  }

  lemma {:induction false} CleanNormal(v: Value, quoted: bool)
    ensures Clean(Normal(v), quoted) <==> Clean(v, quoted)
    decreases v
  {
    if v.Array? {
      CleanNormals(v.elements, quoted);
    }
  }

  lemma {:induction false} CleanNormals(vs: seq<Value>, quoted: bool)
    ensures (forall w :: w in NormalAll(vs) ==> Clean(w, quoted)) <==> forall v :: v in vs ==> Clean(v, quoted)
    decreases vs
  {
    hide Clean, Normal;
    if vs != [] {
      CleanNormal(vs[0], quoted);
      CleanNormals(vs[1..], quoted);
      Rejoin(vs);
      Rejoin(NormalAll(vs));
      assert NormalAll(vs)[1..] == NormalAll(vs[1..]);
    }
  }

  /** Printing what was read from a whole text, and reading that. It gives the first value with its doubles rounded
      exactly when no string holds a double quote. Printing that value gives the same text exactly when no double was
      rounded up to the next power of ten, and always from the second time on. */
  lemma {:induction false} PrintAfterParse(t: string)
    requires ParseValue(t).Some? && Skip(ParseValue(t).value.1) == ""
    requires Printable(ParseValue(t).value.0)
    ensures var v := ParseValue(t).value.0;
      && (ParseValue(Print(v)) == Some((RoundAll(v), "")) <==> Clean(v, true))
      && Printable(RoundAll(v)) && (Print(RoundAll(v)) == Print(v) <==> !Carrying(v))
      && !Carrying(RoundAll(v)) && RoundAll(RoundAll(v)) == RoundAll(v)
  {
    hide ParseValue, PrintWith, Normal, RoundAll, Clean, Printable, Carrying, Narrow;
    var v := ParseValue(t).value.0;
    ReadsNarrow(t);
    NarrowNormal(v);
    NormalPrints(v, true);
    NormalIsNarrow(v);
    NarrowNormal(RoundAll(v));
    CleanNormal(v, true);
    assert Print(v) + "" == Print(v);
    if Carrying(v) {
      ClashInside("", Print(v), Print(RoundAll(v)), "", "");
    }
    if Clean(v, true) {
      ReadsBack(v, true, "");
    } else if ParseValue(Print(v)) == Some((RoundAll(v), "")) {
      ItselfOnlyClean(v, true, "");
    }
  }

  lemma {:induction false} NormalIsNarrow(v: Value)
    requires Narrow(v)
    ensures Narrow(Normal(v))
    decreases v
  {
    if v.Array? {
      NormalsAreNarrow(v.elements);
    }
  }

  lemma {:induction false} NormalsAreNarrow(vs: seq<Value>)
    requires forall v :: v in vs ==> Narrow(v)
    ensures forall w :: w in NormalAll(vs) ==> Narrow(w)
    decreases vs
  {
    if vs != [] {
      NormalIsNarrow(vs[0]);
      NormalsAreNarrow(vs[1..]);
    }
  }
}
