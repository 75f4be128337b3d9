/**
 The sample parameter lists of the source's own check: each is read, and what was read is written as the same text.
 */
module SqfSampleLists {

  import opened SqfText
  import opened SqfNumbers
  import opened SqfDoubles
  import opened SqfDigits
  import opened Sqf
  import opened SqfRoundTrip
  import opened SqfParameters
  import opened SqfSamples

  /** Without strings, the two generators write the same. */
  lemma {:induction false} UnquotedSame(v: Value)
    requires Printable(v) && Clean(v, false)
    ensures Clean(v, true) && PrintWith(v, false) == PrintWith(v, true)
    decreases v
  {
    hide PrintReal, Decimal;
    if v.Array? {
      UnquotedMore(v.elements);
      if v.elements != [] {
        UnquotedSame(v.elements[0]);
        UnquotedMore(v.elements[1..]);
      }
    }
  }

  lemma {:induction false} UnquotedMore(vs: seq<Value>)
    requires forall v :: v in vs ==> Printable(v) && Clean(v, false)
    ensures forall v :: v in vs ==> Clean(v, true)
    ensures PrintMore(vs, false) == PrintMore(vs, true)
    decreases vs
  {
    hide PrintWith, Clean;
    if vs != [] {
      UnquotedSame(vs[0]);
      UnquotedMore(vs[1..]);
      assert vs == [vs[0]] + vs[1..];
    }
  }

  // ----- lists, field by field -----

  /** ps is written as t, and t is read as ps. */
  predicate ListStays(ps: seq<Value>, t: string) {
    (forall p :: p in ps ==> Printable(p)) && AllSurvive(ps) && PrintParameters(ps) == t
  }

  lemma {:induction false} NoneStay()
    ensures ListStays([], "")
  {
  }

  lemma {:induction false} OneMoreField(p: Value, s: string, ps: seq<Value>, more: string, t: string)
    requires Printable(p) && PrintWith(p, false) == s && FieldSurvives(p, more)
    requires ListStays(ps, more) && t == s + ":" + more
    ensures ListStays([p] + ps, t)
  {
    hide PrintWith, FieldSurvives;
    assert ([p] + ps)[1..] == ps;
  }

  lemma {:induction false} OneMoreValue(p: Value, s: string, ps: seq<Value>, more: string, t: string)
    requires Stays(p, s) && Clean(p, false) && ListStays(ps, more) && t == s + ":" + more
    ensures ListStays([p] + ps, t)
  {
    hide ListStays, PrintWith;
    UnquotedSame(p);
    assert !p.Str?;
    OneMoreField(p, s, ps, more, t);
  }

  /** A raw text that begins like no value. */
  lemma {:induction false} OneMoreText(s: string, ps: seq<Value>, more: string, t: string)
    requires s != "" && s[0] in {'C', 'S'} && (forall c :: c in s ==> c != ':')
    requires ListStays(ps, more) && t == s + ":" + more
    ensures ListStays([Str(s)] + ps, t)
  {
    hide ListStays, ParseValue;
    assert t[0] == s[0];
    CapitalBeginsNothing(s[0]);
    NothingElseBegins(t);
    OneMoreField(Str(s), s, ps, more, t);
  }

  lemma {:induction false} CapitalBeginsNothing(c: char)
    requires c in {'C', 'S'}
    ensures c !in "0123456789+-.nNiItfa[\"'"
  {
  }

  lemma {:induction false} OneMoreEmpty(ps: seq<Value>, more: string, t: string)
    requires ListStays(ps, more) && t == ":" + more
    ensures ListStays([Str("")] + ps, t)
  {
    hide ListStays, FieldSurvives;
    EmptyFieldSurvives(more);
    assert t == "" + ":" + more;
    OneMoreField(Str(""), "", ps, more, t);
  }

  lemma {:induction false} IntStays(n: nat, ds: string)
    requires n <= 2_147_483_647 && Canonical(ds) && Number(ds) == n
    ensures Stays(Int(n), ds) && Clean(Int(n), false)
  {
    hide Number, Digits, Canonical;
    DigitsUnique(n, ds);
  }

  /** t is read as ps, nothing left over, and ps is written as t. */
  ghost predicate Reprinted(ps: seq<Value>, t: string) {
    (forall p :: p in ps ==> Printable(p)) && ParseParameters(t) == (ps, "") && PrintParameters(ps) == t
  }

  lemma {:induction false} ListKept(ps: seq<Value>, t: string)
    requires ListStays(ps, t)
    ensures Reprinted(ps, t)
  {
    hide ParseParameters, AllSurvive, PrintParameters;
    ParametersRoundTrip(ps);
  }

  // ----- CHILD:101:14352902:1337:4Fun: -----

  lemma {:induction false} LongNumber()
    ensures Number("14352902") == 14352902
  {
    assert "1"[..0] == "" && "14"[..1] == "1" && "143"[..2] == "14" && "1435"[..3] == "143" && "14352"[..4] == "1435";
    assert "143529"[..5] == "14352" && "1435290"[..6] == "143529" && "14352902"[..7] == "1435290";
  }

  lemma {:induction false} PlayerNumbers()
    ensures Stays(Int(101), "101") && Stays(Int(1337), "1337") && Stays(Int(14352902), "14352902")
  {
    hide Stays;
    assert Number("101") == 101 by {
      assert "1"[..0] == "" && "10"[..1] == "1" && "101"[..2] == "10";
    }
    assert Number("1337") == 1337 by {
      assert "1"[..0] == "" && "13"[..1] == "1" && "133"[..2] == "13" && "1337"[..3] == "133";
    }
    LongNumber();
    hide Number;
    IntStays(101, "101");
    IntStays(1337, "1337");
    IntStays(14352902, "14352902");
  }

  lemma {:induction false} FourThen(rest: string)
    requires rest != "" && rest[0] == 'F'
    ensures ParseValue("4" + rest) == Some((Int(4), rest)) && Skip(rest) == rest
  {
    assert Number("4") == 4 by {
      assert "4"[..0] == "";
    }
    hide ParseValue, Number;
    SkipNothing(rest);
    IntegerLiteral("", "4", rest);
    assert "" + "4" + rest == "4" + rest;
  }

  /** A number in front of other text, but not of a colon, is no field. */
  lemma {:induction false} FourFun(more: string)
    ensures FieldSurvives(Str("4Fun"), more)
  {
    hide ParseValue, Skip;
    var rest := "Fun:" + more;
    FourThen(rest);
    assert "4" + rest == "4Fun" + ":" + more;
    assert !ReadableField("4" + rest);
  }

  lemma {:induction false} FourFunLast()
    ensures ListStays([Str("4Fun")], "4Fun:")
  {
    hide ListStays, FieldSurvives;
    NoneStay();
    FourFun("");
    OneMoreField(Str("4Fun"), "4Fun", [], "", "4Fun:");
    assert [Str("4Fun")] + [] == [Str("4Fun")];
  }

  lemma {:induction false} PlayerTail()
    ensures ListStays([Int(14352902), Int(1337), Str("4Fun")], "14352902:1337:4Fun:")
  {
    hide Stays, ListStays;
    PlayerNumbers();
    FourFunLast();
    OneMoreValue(Int(1337), "1337", [Str("4Fun")], "4Fun:", "1337:4Fun:");
    OneMoreValue(Int(14352902), "14352902", [Int(1337)] + [Str("4Fun")], "1337:4Fun:", "14352902:1337:4Fun:");
    assert [Int(14352902)] + ([Int(1337)] + [Str("4Fun")]) == [Int(14352902), Int(1337), Str("4Fun")];
  }

  /** The second sample. */
  lemma {:induction false} PlayerList()
    ensures Reprinted([Str("CHILD"), Int(101), Int(14352902), Int(1337), Str("4Fun")],
                      "CHILD:101:" + "14352902:1337:4Fun:")
  {
    hide Stays, ListStays, Reprinted;
    PlayerNumbers();
    PlayerTail();
    var l3, t3 := [Int(14352902), Int(1337), Str("4Fun")], "14352902:1337:4Fun:";
    OneMoreValue(Int(101), "101", l3, t3, "101:" + t3);
    OneMoreText("CHILD", [Int(101)] + l3, "101:" + t3, "CHILD:" + ("101:" + t3));
    ListKept([Str("CHILD")] + ([Int(101)] + l3), "CHILD:" + ("101:" + t3));
    assert [Str("CHILD")] + ([Int(101)] + l3) == [Str("CHILD"), Int(101), Int(14352902), Int(1337), Str("4Fun")];
    assert "CHILD:" + ("101:" + t3) == "CHILD:101:" + t3;
  }

  // ----- CHILD:302:666:Some String With Spaces::[5.0,[3,5,[]]]:623: -----

  lemma {:induction false} CharacterNumbers()
    ensures Stays(Int(302), "302") && Stays(Int(666), "666") && Stays(Int(623), "623") && Stays(Int(3), "3")
  {
    hide Stays;
    assert Number("302") == 302 by {
      assert "3"[..0] == "" && "30"[..1] == "3" && "302"[..2] == "30";
    }
    assert Number("666") == 666 by {
      assert "6"[..0] == "" && "66"[..1] == "6" && "666"[..2] == "66";
    }
    assert Number("623") == 623 by {
      assert "6"[..0] == "" && "62"[..1] == "6" && "623"[..2] == "62";
    }
    Numbers();
    hide Number;
    IntStays(302, "302");
    IntStays(666, "666");
    IntStays(623, "623");
    IntStays(3, "3");
  }

  const Worldspace: Value := Array([Real(Finite(5.0)), Array([Int(3), Int(5), Array([])])])

  lemma {:induction false} WorldspaceStays()
    ensures Stays(Worldspace, "[5.0,[3,5,[]]]") && Clean(Worldspace, false)
  {
    hide Stays, MoreStay;
    SampleDoubles();
    SampleLeaves();
    CharacterNumbers();
    NoneMore();
    var none := Array([]);
    OneMore(none, "[]", [], "", ",[]");
    OneMore(Int(5), "5", [none] + [], ",[]", ",5,[]");
    ArrayStays(Int(3), "3", [Int(5)] + ([none] + []), ",5,[]", "[3,5,[]]");
    assert [Int(3)] + ([Int(5)] + ([none] + [])) == [Int(3), Int(5), none];
    TwoStay(Real(Finite(5.0)), "5.0", Array([Int(3), Int(5), none]), "[3,5,[]]", "[5.0,[3,5,[]]]");
  }

  lemma {:induction false} CharacterTail()
    ensures ListStays([Str(""), Worldspace, Int(623)], ":[5.0,[3,5,[]]]:623:")
  {
    hide Stays, ListStays;
    CharacterNumbers();
    WorldspaceStays();
    NoneStay();
    OneMoreValue(Int(623), "623", [], "", "623:");
    OneMoreValue(Worldspace, "[5.0,[3,5,[]]]", [Int(623)] + [], "623:", "[5.0,[3,5,[]]]:623:");
    OneMoreEmpty([Worldspace] + ([Int(623)] + []), "[5.0,[3,5,[]]]:623:", ":[5.0,[3,5,[]]]:623:");
    assert [Str("")] + ([Worldspace] + ([Int(623)] + [])) == [Str(""), Worldspace, Int(623)];
  }

  lemma {:induction false} CharacterFront(ps: seq<Value>, t: string)
    requires ListStays(ps, t)
    ensures Reprinted([Str("CHILD"), Int(302), Int(666)] + ps, "CHILD:302:666:" + t)
  {
    hide Stays, ListStays, Reprinted;
    CharacterNumbers();
    var l3, t3 := [Int(666)] + ps, "666:" + t;
    var l2, t2 := [Int(302)] + l3, "302:" + t3;
    OneMoreValue(Int(666), "666", ps, t, t3);
    OneMoreValue(Int(302), "302", l3, t3, t2);
    OneMoreText("CHILD", l2, t2, "CHILD:" + t2);
    ListKept([Str("CHILD")] + l2, "CHILD:" + t2);
    assert [Str("CHILD")] + l2 == [Str("CHILD"), Int(302), Int(666)] + ps;
    assert "CHILD:" + t2 == "CHILD:302:666:" + t;
  }

  /** The first sample. */
  lemma {:induction false} CharacterList()
    ensures Reprinted([Str("CHILD"), Int(302), Int(666), Str("Some String With Spaces"), Str(""), Worldspace, Int(623)],
                      "CHILD:302:666:" + ("Some String With Spaces:" + ":[5.0,[3,5,[]]]:623:"))
  {
    hide Stays, ListStays, Reprinted;
    CharacterTail();
    var l5, t5 := [Str(""), Worldspace, Int(623)], ":[5.0,[3,5,[]]]:623:";
    var s := "Some String With Spaces";
    OneMoreText(s, l5, t5, "Some String With Spaces:" + t5);
    CharacterFront([Str(s)] + l5, "Some String With Spaces:" + t5);
    assert [Str("CHILD"), Int(302), Int(666)] + ([Str(s)] + l5)
        == [Str("CHILD"), Int(302), Int(666), Str(s), Str(""), Worldspace, Int(623)];
  }
}
