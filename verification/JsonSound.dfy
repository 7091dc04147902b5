/** Whatever the loader accepts is a text of the grammar, with that meaning. */
module JsonSound {
  import opened Bytes
  import Utf8
  import opened OrderedMap
  import opened JsonValue
  import opened JsonGrammar
  import opened JsonLex
  import opened JsonParse
  import opened JsonComplete

  // ---- Tokens ----

  lemma {:induction false} SplitBlank(s: seq<byte>) returns (b: seq<byte>)
    ensures Blank(b) && s == b + SkipBlank(s)
  {
    if s != [] && Space(s[0]) {
      var b' := SplitBlank(s[1..]);
      b := [s[0]] + b';
      assert s == [s[0]] + s[1..];
    } else {
      b := [];
    }
  }

  lemma {:induction false} StringSound(body: seq<byte>) returns (cs: seq<SChar>)
    requires Scanned(body) && Unescape(body).Some?
    ensures CharsOk(cs) && CharsText(cs) == body && CharsValue(cs) == Unescape(body).value
  {
    if body == [] {
      cs := [];
    } else {
      var c, n := FirstChar(body);
      var more := StringSound(body[n..]);
      cs := [c] + more;
      assert cs[1..] == more;
      assert body == body[..n] + body[n..];
    }
  }

  lemma FirstChar(body: seq<byte>) returns (c: SChar, n: nat)
    requires body != [] && Scanned(body) && Unescape(body).Some?
    ensures SCharOk(c) && 1 <= n <= |body| && body[..n] == SCharText(c)
    ensures Scanned(body[n..]) && Unescape(body) == Prepend(SCharValue(c), Unescape(body[n..]))
    ensures Unescape(body[n..]).Some?
  {
    if body[0] != 92 {
      return Raw(body[0]), 1;
    }
    if body[1] != 117 {
      return Short(body[1]), 2;
    }
    var v := Hex4Value(body[2..6]);
    if High(v) {
      var u := body[6..];
      c := Pair(body[2..6], u[2..6]);
      n := 12;
      assert u[6..] == body[12..];
      assert body[..12] == SCharText(c);
    } else {
      c := Unit(body[2..6]);
      n := 6;
    }
  }

  lemma CutAt(s: seq<byte>, k: nat)
    requires k < |s|
    ensures s == s[..k] + ([s[k]] + s[k + 1..])
  {
  }

  lemma StringTokenSound(s: seq<byte>) returns (cs: seq<SChar>)
    requires StringLex(s).token.StringToken?
    ensures CharsOk(cs) && CharsValue(cs) == StringLex(s).token.text
    ensures [34] + s == StrText(cs) + StringLex(s).rest
  {
    hide Unescape, Scanned, BodyEnd;
    var n := BodyEnd(s).value;
    BodyIsScanned(s);
    cs := StringSound(s[..n - 1]);
    hide CharsText, CharsOk, CharsValue;
    CutAt(s, n - 1);
    Assoc([34], CharsText(cs), [34]);
    Assoc([34], CharsText(cs) + [34], s[n..]);
    Assoc(CharsText(cs), [34], s[n..]);
  }

  lemma IntegerSound(s: seq<byte>, w: nat, opt: Options) returns (x: Syntax)
    requires s != [] && MinusLen(s) + w <= |s| && IsInt(s[MinusLen(s)..MinusLen(s) + w]) && !opt.intAsReal
    requires var t := s[..MinusLen(s) + w];
      t != [] && AllDigits(if t[0] == 45 then t[1..] else t) && INT_MIN <= IntValue(t) <= INT_MAX
    ensures var t := s[..MinusLen(s) + w];
      x.Num? && Ok(x, opt) && Text(x) == t && Value(x, opt) == Integer(IntValue(t))
  {
    hide Horner;
    var m := s[0] == 45;
    var a := MinusLen(s) + w;
    var whole := s[MinusLen(s)..a];
    var t := s[..a];
    x := Num(m, whole, [], []);
    assert t == (if m then [45] else []) + whole;
    assert whole == if t[0] == 45 then t[1..] else t;
    assert Text(x) == t;
  }

  lemma RealSound(s: seq<byte>, a: nat, f: nat, e: nat, opt: Options) returns (x: Syntax)
    requires MinusLen(s) < a && a + f + e <= |s| && IsInt(s[MinusLen(s)..a])
    requires opt.intAsReal || f > 0 || e > 0
    requires IsFrac(s[a..][..f]) && IsExp(s[a + f..][..e]) && !opt.overflows(s[..a + f + e])
    ensures x.Num? && Ok(x, opt) && Text(x) == s[..a + f + e] && Value(x, opt) == Real(s[..a + f + e])
  {
    hide Horner, IsInt, IsFrac, IsExp;
    var frac, exp := s[a..][..f], s[a + f..][..e];
    var m := s[0] == 45;
    x := Num(m, s[MinusLen(s)..a], frac, exp);
    assert s[..a] == (if m then [45] else []) + s[MinusLen(s)..a];
    assert s[..a + f + e] == s[..a] + frac + exp;
    assert Text(x) == s[..a + f + e];
  }

  /** A part that is there moves its end. */
  lemma PartsMove(s: seq<byte>, f: nat, e: nat)
    requires FracEnd(s) == Some(f) && ExpEnd(s[f..]) == Some(e) && !IntStop(s)
    ensures f > 0 || e > 0
  {
  }

  /** An accepted number has all its parts. */
  lemma NumberParts(s: seq<byte>, opt: Options)
    requires s != [] && Weight(NumberLex(s, opt).token) == 1
    ensures WholeEnd(s[MinusLen(s)..]).Some?
    ensures var a := MinusLen(s) + WholeEnd(s[MinusLen(s)..]).value;
      opt.intAsReal || !IntStop(s[a..]) ==> FracEnd(s[a..]).Some? && ExpEnd(s[a + FracEnd(s[a..]).value..]).Some?
  {
    hide WholeEnd, FracEnd, ExpEnd, IntegerOf, RealOf;
  }

  lemma RealTokenSound(s: seq<byte>, w: nat, f: nat, e: nat, opt: Options) returns (x: Syntax)
    requires s != [] && Weight(NumberLex(s, opt).token) == 1 && WholeEnd(s[MinusLen(s)..]) == Some(w)
    requires opt.intAsReal || !IntStop(s[MinusLen(s) + w..])
    requires FracEnd(s[MinusLen(s) + w..]) == Some(f) && ExpEnd(s[MinusLen(s) + w + f..]) == Some(e)
    ensures x.Num? && Ok(x, opt) && s == Text(x) + NumberLex(s, opt).rest
    ensures Value(x, opt).Real? && NumberLex(s, opt).token == RealToken(Value(x, opt).text)
  {
    hide WholeEnd, FracEnd, ExpEnd, IsInt, IsFrac, IsExp, Ok, Value, Text, NumberLex, IntStop;
    var a := MinusLen(s) + w;
    assert s[MinusLen(s)..a] == s[MinusLen(s)..][..w];
    assert s[a..][f..] == s[a + f..];
    RealCase(s, w, f, e, opt);
    if !opt.intAsReal {
      PartsMove(s[a..], f, e);
    }
    x := RealSound(s, a, f, e, opt);
    assert s == s[..a + f + e] + s[a + f + e..];
  }

  lemma NumberTokenSound(s: seq<byte>, opt: Options) returns (x: Syntax)
    requires s != [] && Weight(NumberLex(s, opt).token) == 1
    ensures x.Num? && Ok(x, opt) && s == Text(x) + NumberLex(s, opt).rest
    ensures NumberLex(s, opt).token == if Value(x, opt).Integer? then IntegerToken(Value(x, opt).value)
      else RealToken(Value(x, opt).text)
  {
    hide WholeEnd, FracEnd, ExpEnd, Horner, IsInt, IsFrac, IsExp, Ok, Value, Text, IntValue, NumberLex, IntStop;
    NumberParts(s, opt);
    var n := MinusLen(s);
    var w := WholeEnd(s[n..]).value;
    var a := n + w;
    if !opt.intAsReal && IntStop(s[a..]) {
      assert s[n..a] == s[n..][..w];
      IntegerCase(s, w, opt);
      x := IntegerSound(s, w, opt);
      assert s == s[..a] + s[a..];
    } else {
      x := RealTokenSound(s, w, FracEnd(s[a..]).value, ExpEnd(s[a + FracEnd(s[a..]).value..]).value, opt);
    }
  }

  lemma WordTokenSound(s: seq<byte>) returns (x: Syntax)
    requires s != [] && Alpha(s[0]) && Weight(WordLex(s).token) == 1
    ensures x.WordNull? || x.WordTrue? || x.WordFalse?
    ensures s == Text(x) + WordLex(s).rest
    ensures WordLex(s).token == if x.WordNull? then NullToken else if x.WordTrue? then TrueToken else FalseToken
  {
    var n := Run(s, IsAlpha);
    assert s == s[..n] + s[n..];
    x := if s[..n] == TRUE_TEXT then WordTrue else if s[..n] == FALSE_TEXT then WordFalse else WordNull;
  }

  /** The syntax of a token that is a value by itself. */
  lemma LeafSound(r: seq<byte>, opt: Options) returns (x: Syntax)
    requires r != [] && !TokenLex(r, opt).token.Punct? && Weight(TokenLex(r, opt).token) == 1
    requires TokenLex(r, opt).token.StringToken? && !opt.allowNul ==> 0 !in TokenLex(r, opt).token.text
    ensures Ok(x, opt) && !x.Arr? && !x.Obj? && r == Text(x) + TokenLex(r, opt).rest
    ensures LeafValue(TokenLex(r, opt).token, Value(x, opt))
  {
    hide StringLex, NumberLex, WordLex;
    if r[0] == 34 {
      StringLexKind(r[1..]);
      var cs := StringTokenSound(r[1..]);
      x := Str(cs);
      assert r == [34] + r[1..];
    } else if Digit(r[0]) || r[0] == 45 {
      x := NumberTokenSound(r, opt);
    } else {
      x := WordTokenSound(r);
    }
  }

  predicate LeafValue(t: Token, v: Json) {
    match t
    case StringToken(s) => v == String(s)
    case IntegerToken(i) => v == Integer(i)
    case RealToken(s) => v == Real(s)
    case TrueToken => v == Json.True
    case FalseToken => v == Json.False
    case NullToken => v == Json.Null
    case _ => false
  }

  lemma PunctSound(s: seq<byte>, cx: Input) returns (b: seq<byte>)
    requires Next(s, cx).token.Punct?
    ensures Blank(b) && s == b + [Next(s, cx).token.c] + Next(s, cx).rest
  {
    hide StringLex, NumberLex, WordLex;
    b := SplitBlank(s);
    var r := SkipBlank(s);
    assert r == [r[0]] + r[1..];
    NotPunct(r, cx.opt);
  }

  lemma NotPunct(r: seq<byte>, opt: Options)
    requires r != []
    ensures TokenLex(r, opt).token.Punct? ==> Punctuation(r[0])
  {
    hide BodyEnd, WholeEnd, FracEnd, ExpEnd, Unescape;
  }

  lemma KeySound(s: seq<byte>, cx: Input) returns (b: seq<byte>, cs: seq<SChar>)
    requires Next(s, cx).token.StringToken?
    ensures Blank(b) && CharsOk(cs) && CharsValue(cs) == Next(s, cx).token.text
    ensures s == b + StrText(cs) + Next(s, cx).rest
  {
    hide NumberLex, WordLex, StringLex;
    b := SplitBlank(s);
    var r := SkipBlank(s);
    NotString(r, cx.opt);
    cs := StringTokenSound(r[1..]);
    assert r == [34] + r[1..];
  }

  lemma NotString(r: seq<byte>, opt: Options)
    requires r != []
    ensures TokenLex(r, opt).token.StringToken? ==> r[0] == 34
  {
    hide BodyEnd, WholeEnd, FracEnd, ExpEnd, Unescape;
  }

  // ---- Values ----

  lemma {:induction false} ValueSound(s: seq<byte>, d: nat, cx: Input) returns (b: seq<byte>, x: Syntax)
    requires var l := Next(s, cx); ParseValue(l.token, l.rest, d, cx).Some?
    ensures var l := Next(s, cx); var p := ParseValue(l.token, l.rest, d, cx).value;
      Blank(b) && Ok(x, cx.opt) && d + Depth(x) <= MAX_DEPTH && s == b + Text(x) + p.rest && Value(x, cx.opt) == p.value
    decreases |s|, 1
  {
    hide TokenLex, SkipBlank, ElemsText, PairsText, ElemsValue, PairsValue;
    var l := Next(s, cx);
    b := SplitBlank(s);
    var r := SkipBlank(s);
    if l.token.Punct? {
      var b' := PunctSound(s, cx);
      b := b';
      if l.token.c == 91 {
        x := ArraySound(l.rest, d + 1, cx);
        assert s == b + ([91] + l.rest);
      } else {
        x := ObjectSound(l.rest, d + 1, cx);
        assert s == b + ([123] + l.rest);
      }
    } else {
      x := LeafSound(r, cx.opt);
    }
  }

  lemma {:induction false} ArraySound(s: seq<byte>, d: nat, cx: Input) returns (x: Syntax)
    requires ParseArray(s, d, cx).Some? && d <= MAX_DEPTH
    ensures var p := ParseArray(s, d, cx).value;
      x.Arr? && Ok(x, cx.opt) && d - 1 + Depth(x) <= MAX_DEPTH && [91] + s == Text(x) + p.rest && Value(x, cx.opt) == p.value
    decreases |s|, 4
  {
    hide Next, ParseValue, ElemsText, ElemsValue;
    var l := Next(s, cx);
    if l.token == Punct(93) {
      var b := PunctSound(s, cx);
      x := Arr(b, NoElem);
      assert ElemsValue(NoElem, cx.opt) == [] by { NoElemsValue(cx.opt); }
    } else {
      var es := ElemsSound(s, d, [], cx);
      x := Arr([], es);
      assert [] + ElemsValue(es, cx.opt) == ElemsValue(es, cx.opt);
    }
  }

  lemma NoElemsValue(opt: Options)
    ensures ElemsValue(NoElem, opt) == []
  {
  }

  lemma {:induction false} ElemsSound(s: seq<byte>, d: nat, acc: seq<Json>, cx: Input) returns (es: Elems)
    requires var l := Next(s, cx); ParseElems(l.token, l.rest, d, acc, cx).Some?
    ensures es.Elem? && ElemsOk(es, cx.opt) && d + ElemsDepth(es) <= MAX_DEPTH
    ensures var l := Next(s, cx); var p := ParseElems(l.token, l.rest, d, acc, cx).value;
      s == ElemsText(es) + [93] + p.rest && p.value == Array(acc + ElemsValue(es, cx.opt))
    decreases |s|, 3
  {
    hide Next, ParseValue, Text, Value, Ok, Depth;
    var l := Next(s, cx);
    var p := ParseValue(l.token, l.rest, d, cx).value;
    var b, x := ValueSound(s, d, cx);
    var v := Value(x, cx.opt);
    var k := Next(p.rest, cx);
    var a := PunctSound(p.rest, cx);
    if k.token == Punct(44) {
      var more := ElemsSound(k.rest, d, acc + [v], cx);
      es := Elem(b, x, a, more);
      assert acc + [v] + ElemsValue(more, cx.opt) == acc + ElemsValue(es, cx.opt);
      var q := ParseElems(l.token, l.rest, d, acc, cx).value;
      Assoc(a, [44], k.rest);
      Assoc(b, Text(x), p.rest);
      ElemsLayout(es, q.rest);
    } else {
      es := Elem(b, x, a, NoElem);
      NoElemsValue(cx.opt);
      Assoc(a, [93], k.rest);
      Assoc(b, Text(x), p.rest);
      ElemsLayout(es, k.rest);
      assert ElemsValue(es, cx.opt) == [v];
    }
  }

  lemma {:induction false} ObjectSound(s: seq<byte>, d: nat, cx: Input) returns (x: Syntax)
    requires ParseObject(s, d, cx).Some? && d <= MAX_DEPTH
    ensures var p := ParseObject(s, d, cx).value;
      x.Obj? && Ok(x, cx.opt) && d - 1 + Depth(x) <= MAX_DEPTH && [123] + s == Text(x) + p.rest && Value(x, cx.opt) == p.value
    decreases |s|, 4
  {
    hide Next, ParseValue, PairsText;
    var l := Next(s, cx);
    if l.token == Punct(125) {
      var b := PunctSound(s, cx);
      x := Obj(b, NoPair);
    } else {
      var ps := PairsSound(s, d, [], {}, cx);
      x := Obj([], ps);
    }
  }

  lemma PairsUnfold(t: Token, s: seq<byte>, d: nat, acc: seq<Entry<Json>>, cx: Input)
    requires ParsePairs(t, s, d, acc, cx).Some?
    ensures KeyAllowed(t, acc, cx.opt) && Next(s, cx).token == Punct(58)
    ensures var first := Next(Next(s, cx).rest, cx); var p := ParseValue(first.token, first.rest, d, cx);
      p.Some? && var k := Next(p.value.rest, cx); var m := Next(k.rest, cx); var acc' := Set(acc, t.text, p.value.value);
      (k.token == Punct(44) && ParsePairs(t, s, d, acc, cx) == ParsePairs(m.token, m.rest, d, acc', cx))
      || (k.token == Punct(125) && ParsePairs(t, s, d, acc, cx) == Some(Parsed(Object(acc'), k.rest)))
  {
    hide Next, ParseValue, KeyAllowed;
  }

  lemma JoinPairs(s: seq<byte>, ps: Pairs, afterKey: seq<byte>, afterColon: seq<byte>, behind: seq<byte>,
        rest: seq<byte>)
    requires ps.APair? && s == ps.before + StrText(ps.key) + afterKey && afterKey == ps.mid1 + [58] + afterColon
    requires afterColon == ps.mid2 + Text(ps.item) + behind && behind == ps.after + PairsTail(ps.others, rest)
    ensures s == PairsText(ps) + [125] + rest
  {
    hide PairsText, StrText, Text, PairsTail;
    PairsLayout(ps, rest);
    Assoc(ps.before, StrText(ps.key), afterKey);
    Assoc(ps.mid2, Text(ps.item), behind);
  }

  lemma {:induction false} PairsSound(s: seq<byte>, d: nat, acc: seq<Entry<Json>>, seen: set<Key>, cx: Input)
      returns (ps: Pairs)
    requires var l := Next(s, cx); ParsePairs(l.token, l.rest, d, acc, cx).Some?
    requires Seen(acc, seen)
    ensures ps.APair? && PairsOk(ps, seen, cx.opt) && d + PairsDepth(ps) <= MAX_DEPTH
    ensures var l := Next(s, cx); var p := ParsePairs(l.token, l.rest, d, acc, cx).value;
      s == PairsText(ps) + [125] + p.rest && p.value == Object(PairsValue(ps, acc, seen, cx.opt))
    decreases |s|, 3
  {
    hide Next, ParseValue, ParsePairs, Text, Value, Ok, Depth, PairsText, CharsValue, StrText;
    var l := Next(s, cx);
    PairsUnfold(l.token, l.rest, d, acc, cx);
    var b, cs := KeySound(s, cx);
    var k := CharsValue(cs);
    var colon := Next(l.rest, cx);
    var m1 := PunctSound(l.rest, cx);
    var first := Next(colon.rest, cx);
    var p := ParseValue(first.token, first.rest, d, cx).value;
    var m2, x := ValueSound(colon.rest, d, cx);
    var v := Value(x, cx.opt);
    var e := Next(p.rest, cx);
    var a := PunctSound(p.rest, cx);
    SeenSet(acc, seen, k, v);
    var q := ParsePairs(l.token, l.rest, d, acc, cx).value;
    if e.token == Punct(44) {
      var more := PairsSound(e.rest, d, Set(acc, k, v), seen + {k}, cx);
      ps := APair(b, cs, m1, m2, x, a, more);
      Assoc(a, [44], e.rest);
      JoinPairs(s, ps, l.rest, colon.rest, p.rest, q.rest);
    } else {
      ps := APair(b, cs, m1, m2, x, a, NoPair);
      Assoc(a, [125], e.rest);
      JoinPairs(s, ps, l.rest, colon.rest, p.rest, q.rest);
    }
  }

  lemma LoadUnfold(text: seq<byte>, opt: Options)
    requires Load(text, opt).Some? && !opt.disableEofCheck
    ensures var input := Utf8.ValidPrefix(text); var cx := Input(input == text, opt); var l := Next(input, cx);
      var p := ParseValue(l.token, l.rest, 0, cx);
      && (opt.decodeAny || l.token.Punct?)
      && p.Some? && Next(p.value.rest, cx).token.Eof? && Load(text, opt) == Some(p.value.value)
  {
    hide ParseValue, Next;
  }

  /** Every accepted text is a document of the grammar. */
  lemma DocumentSound(text: seq<byte>, opt: Options) returns (doc: Document)
    requires Load(text, opt).Some? && !opt.disableEofCheck
    ensures Utf8.IsUtf8(text) && DocumentOk(doc, opt) && DocumentText(doc) == text
    ensures Load(text, opt) == Some(Value(doc.value, opt))
  {
    hide ParseValue, Text, Value, Ok, Depth, Load, Next;
    LoadUnfold(text, opt);
    var input := Utf8.ValidPrefix(text);
    var cx := Input(input == text, opt);
    var l := Next(input, cx);
    var p := ParseValue(l.token, l.rest, 0, cx).value;
    var b, x := ValueSound(input, 0, cx);
    EofSound(p.rest, cx);
    var a := SplitBlank(p.rest);
    Utf8.ValidPrefixIff(text);
    doc := Document(b, x, a);
    LexBlank(b, Text(x) + p.rest, cx);
    Assoc(b, Text(x), p.rest);
    LeafFirst(x, p.rest, cx);
  }

  lemma EofSound(s: seq<byte>, cx: Input)
    requires Next(s, cx).token.Eof?
    ensures SkipBlank(s) == [] && cx.eof
  {
    hide BodyEnd, WholeEnd, FracEnd, ExpEnd, Unescape;
  }

  lemma LeafFirst(x: Syntax, s: seq<byte>, cx: Input)
    requires Ok(x, cx.opt)
    ensures Next(Text(x) + s, cx).token.Punct? ==> x.Arr? || x.Obj?
  {
    hide StringLex, NumberLex, WordLex, CharsText, NumText, ElemsText, PairsText;
    var t := Text(x) + s;
    if !x.Arr? && !x.Obj? {
      LeafStart(x);
      assert t[0] == Text(x)[0];
      NotPunct(t, cx.opt);
    }
  }

  lemma LeafStart(x: Syntax)
    requires !x.Arr? && !x.Obj? && (x.Num? ==> IsInt(x.whole))
    ensures Text(x) != [] && !Punctuation(Text(x)[0]) && !Space(Text(x)[0])
  {
    if x.Num? {
      assert Text(x)[0] == if x.minus then 45 else x.whole[0];
    }
  }

  /**
    * The main result on loading. With the end of input checked, json_loads succeeds exactly on
    * the UTF-8 texts of the grammar, and yields what the grammar says they mean.
    */
  lemma LoadIffGrammar(text: seq<byte>, v: Json, opt: Options)
    requires !opt.disableEofCheck
    ensures Load(text, opt) == Some(v) <==>
            Utf8.IsUtf8(text) && exists doc :: DocumentOk(doc, opt) && DocumentText(doc) == text && Value(doc.value, opt) == v
  {
    if Load(text, opt) == Some(v) {
      var doc := DocumentSound(text, opt);
    }
    if Utf8.IsUtf8(text) && exists doc :: DocumentOk(doc, opt) && DocumentText(doc) == text && Value(doc.value, opt) == v {
      var doc :| DocumentOk(doc, opt) && DocumentText(doc) == text && Value(doc.value, opt) == v;
      DocumentComplete(doc, opt);
    }
  }
}
