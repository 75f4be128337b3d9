/**
 SQF values: the grammar that reads them, the generators that write them, and the accessors.
 */
module Sqf {

  import opened SqfText
  import opened SqfNumbers
  import opened SqfDoubles

  datatype Value =
    | Real(d: Double)
    | Int(n: int)
    | Int64(n: int)
    | Bool(b: bool)
    | Str(s: string)
    | Any
    | Array(elements: seq<Value>)

  // ----- reading a value -----

  predicate IsQuote(c: char) {
    c == '"' || c == '\''
  }

  /** A character a quoted string may contain: seven bits, and not the quote it began with. */
  function Plain(q: char): char -> bool {
    c => c != q && c < 128 as char
  }

  /** The two quoted alternatives: the text between the quotes, and what follows. */
  function ParseQuoted(t: string): (r: Option<(string, string)>)
    ensures r.Some? ==> |r.value.1| < |t|
  {
    if !StartsWith(t, IsQuote) then None
    else
      var k := Span(t[1..], Plain(t[0]));
      if 1 + k < |t| && t[1 + k] == t[0] then Some((t[1..1 + k], t[2 + k..])) else None
  }

  /** The grammar of a value, its alternatives in order. */
  function ParseValue(t: string): (r: Option<(Value, string)>)
    ensures r.Some? ==> |r.value.1| < |t|
    decreases |t|, 1
  {
    var (x, b) := StrictDouble(Skip(t));
    if x.Some? then
      StrictDoubleMoves(Skip(t));
      Some((Real(x.value), b))
    else ParseOther(Skip(b))
  }

  /** Every alternative but the first. */
  function ParseOther(c: string): (r: Option<(Value, string)>)
    ensures r.Some? ==> |r.value.1| < |c|
    decreases |c|, 0
  {
    var small, large := ParseSigned(c, Bits32), ParseSigned(c, Bits64);
    if small.Some? && !StartsWith(Skip(small.value.1), IsDigit) then Some((Int(small.value.0), small.value.1))
    else if large.Some? then Some((Int64(large.value.0), large.value.1))
    else if Prefixed(c, "true") then Some((Bool(true), c[4..]))
    else if Prefixed(c, "false") then Some((Bool(false), c[5..]))
    else if ParseQuoted(c).Some? then Some((Str(ParseQuoted(c).value.0), ParseQuoted(c).value.1))
    else if Prefixed(c, "any") then Some((Any, c[3..]))
    else if Prefixed(c, "[") then
      var (vs, d) := ParseList(c[1..]);
      if Prefixed(Skip(d), "]") then Some((Array(vs), Skip(d)[1..])) else None
    else None
  }

  /** An optional comma-separated list. */
  function ParseList(t: string): (r: (seq<Value>, string))
    ensures |r.1| <= |t|
    decreases |t|, 2
  {
    match ParseValue(t)
    case None => ([], t)
    case Some((v, rest)) =>
      var (vs, d) := ParseMore(rest);
      ([v] + vs, d)
  }

  /** Further elements; a comma that no value follows is not consumed. */
  function ParseMore(t: string): (r: (seq<Value>, string))
    ensures |r.1| <= |t|
    decreases |t|, 0
  {
    if !Prefixed(Skip(t), ",") then ([], t)
    else
      match ParseValue(Skip(t)[1..])
      case None => ([], t)
      case Some((v, rest)) =>
        var (vs, d) := ParseMore(rest);
        ([v] + vs, d)
  }

  // ----- reading parameters -----

  predicate IsColon(c: char) {
    c == ':'
  }

  predicate NotColon(c: char) {
    c != ':'
  }

  /** One field: a value if the next thing after it is a colon, otherwise the raw text up to the colon. */
  function ParseField(t: string): (r: Option<(Value, string)>)
    ensures r.Some? ==> |r.value.1| <= |t| && StartsWith(Skip(r.value.1), IsColon)
  {
    var value := ParseValue(t);
    if value.Some? && StartsWith(Skip(value.value.1), IsColon) then value
    else
      var a := Skip(t);
      var k := Span(a, NotColon);
      if k < |a| then
        SkipNothing(a[k..]);
        Some((Str(a[..k]), a[k..]))
      else None
  }

  function ParseFields(t: string): (r: (seq<Value>, string))
    ensures |r.1| <= |t|
    decreases |t|
  {
    match ParseField(t)
    case None => ([], t)
    case Some((v, rest)) =>
      var (vs, d) := ParseFields(Skip(rest)[1..]);
      ([v] + vs, d)
  }

  /** The parameters read, and the text that was not. */
  function ParseParameters(t: string): (seq<Value>, string) {
    var (vs, d) := ParseFields(t);
    (vs, Skip(d))
  }

  // ----- writing -----

  /** Doubles the generator's table of powers covers, and integers of their width. */
  predicate Printable(v: Value)
    decreases v
  {
    match v
    case Real(Finite(x)) => InTable(AbsReal(x))
    case Int(n) => InRange(n, Bits32)
    case Int64(n) => InRange(n, Bits64)
    case Array(vs) => forall w :: w in vs ==> Printable(w)
    case _ => true
  }

  function PrintDouble(d: Double): string
    requires d.Finite? ==> InTable(AbsReal(d.x))
  {
    match d
    case Finite(x) => PrintReal(x)
    case Infinite(negative) => if negative then "-inf" else "inf"
    case NotANumber(negative) => if negative then "-nan" else "nan"
  }

  /** The generator; parameters are written with the strings unquoted, in arrays too. */
  function PrintWith(v: Value, quoted: bool): string
    requires Printable(v)
    decreases v
  {
    match v
    case Real(d) => PrintDouble(d)
    case Int(n) => Decimal(n)
    case Int64(n) => Decimal(n)
    case Bool(b) => if b then "true" else "false"
    case Str(s) => if quoted then "\"" + s + "\"" else s
    case Any => "any"
    case Array(vs) =>
      if vs == [] then "[]"
      else "[" + PrintWith(vs[0], quoted) + PrintMore(vs[1..], quoted) + "]"
  }

  function PrintMore(vs: seq<Value>, quoted: bool): string
    requires forall v :: v in vs ==> Printable(v)
    decreases vs
  {
    if vs == [] then "" else "," + PrintWith(vs[0], quoted) + PrintMore(vs[1..], quoted)
  }

  function Print(v: Value): string
    requires Printable(v)
  {
    PrintWith(v, true)
  }

  function PrintParameters(ps: seq<Value>): string
    requires forall p :: p in ps ==> Printable(p)
  {
    if ps == [] then "" else PrintWith(ps[0], false) + ":" + PrintParameters(ps[1..])
  }

  // ----- accessors -----

  /** The outcome of an accessor, which throws bad_get when the variant does not fit. */
  datatype Outcome<+T> = Got(value: T) | BadGet

  /** lexical_cast from text to an integer: the whole text must be one literal in range. */
  function LexicalCast(s: string, w: Width): Outcome<int> {
    match ParseSigned(s, w)
    case Some((n, rest)) => if rest == "" then Got(n) else BadGet
    case None => BadGet
  }

  function GetBigInt(v: Value): (r: Outcome<int>)
    ensures r.Got? ==> InRange(r.value, Bits64) || v.Int? || v.Int64?
  {
    match v
    case Int64(n) => Got(n)
    case Int(n) => Got(n)
    case Real(Finite(x)) => if x.Floor as real == x && InRange(x.Floor, Bits64) then Got(x.Floor) else BadGet
    case Str(s) => LexicalCast(s, Bits64)
    case _ => BadGet
  }

  function GetIntAny(v: Value): Outcome<int> {
    match v
    case Int(n) => Got(n)
    case Str(s) => LexicalCast(s, Bits32)
    case _ => BadGet
  }
}
