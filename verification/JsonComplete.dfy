/** Every text of the grammar is accepted with its meaning. */
module JsonComplete {
  import opened Bytes
  import Utf8
  import opened OrderedMap
  import opened JsonValue
  import opened JsonGrammar
  import opened JsonLex
  import opened JsonParse

  /** What may stand behind a value: the end, a blank, a comma or a closing bracket. */
  predicate Follow(s: seq<byte>) {
    s == [] || Space(s[0]) || s[0] == 44 || s[0] == 93 || s[0] == 125
  }

  lemma {:induction false} LexBlank(b: seq<byte>, s: seq<byte>, cx: Input)
    requires Blank(b)
    ensures Next(b + s, cx) == Next(s, cx)
  {
    if b == [] {
      assert b + s == s;
    } else {
      LexBlank(b[1..], s, cx);
      assert (b + s)[1..] == b[1..] + s && Space((b + s)[0]);
      hide *;
      LexSkips(b + s, cx);
    }
  }

  lemma LexSkips(s: seq<byte>, cx: Input)
    requires s != [] && Space(s[0])
    ensures Next(s, cx) == Next(s[1..], cx)
  {
    hide TokenLex;
  }

  lemma {:induction false} RunOf(a: seq<byte>, s: seq<byte>, p: byte -> bool)
    requires forall i :: 0 <= i < |a| ==> p(a[i])
    requires s == [] || !p(s[0])
    ensures Run(a + s, p) == |a|
  {
    if a == [] {
      assert a + s == s;
    } else {
      RunOf(a[1..], s, p);
      assert (a + s)[1..] == a[1..] + s;
    }
  }

  // ---- Numbers ----

  lemma Assoc(a: seq<byte>, b: seq<byte>, c: seq<byte>)
    ensures (a + b) + c == a + (b + c)
  {
  }

  lemma WholeComplete(w: seq<byte>, s: seq<byte>)
    requires IsInt(w) && (s == [] || !Digit(s[0]))
    ensures WholeEnd(w + s) == Some(|w|)
  {
    if w != [48] {
      RunOf(w, s, IsDigit);
    }
  }

  lemma FracComplete(f: seq<byte>, s: seq<byte>)
    requires IsFrac(f) && (s == [] || !Digit(s[0])) && (f == [] ==> s == [] || s[0] != 46)
    ensures FracEnd(f + s) == Some(|f|)
  {
    if f == [] {
      assert f + s == s;
    } else {
      RunOf(f[1..], s, IsDigit);
      assert (f + s)[1..] == f[1..] + s;
      assert (f + s)[1] == f[1..][0];
    }
  }

  lemma ExpComplete(e: seq<byte>, s: seq<byte>)
    requires IsExp(e) && (s == [] || !Digit(s[0])) && (e == [] ==> IntStop(s))
    ensures ExpEnd(e + s) == Some(|e|)
  {
    if e == [] {
      assert e + s == s;
    } else {
      var k := if Sign(e[1]) then 2 else 1;
      assert e[k..][0] == e[k];
      assert (e + s)[k] == e[k];
      RunOf(e[k..], s, IsDigit);
      assert (e + s)[k..] == e[k..] + s;
    }
  }

  /** A number's text, cut where the lexer cuts it. */
  lemma NumberCuts(m: bool, w: seq<byte>, f: seq<byte>, e: seq<byte>, s: seq<byte>)
    requires w != [] && w[0] != 45
    ensures var all := NumText(m, w, f, e) + s; var n := if m then 1 else 0; var a := n + |w|;
      && |all| == a + |f| + |e| + |s| && MinusLen(all) == n && all[n] == w[0]
      && all[n..] == w + (f + e + s) && all[a..] == f + (e + s) && all[a + |f|..] == e + s
      && all[a + |f| + |e|..] == s && all[..a + |f| + |e|] == NumText(m, w, f, e)
      && all[..a] == NumText(m, w, [], [])
      && (if m then all[..a][1..] == w else all[..a] == w)
  {
    var all := NumText(m, w, f, e) + s;
    var n := if m then 1 else 0;
    var sign := if m then [45] else [];
    var head := sign + w;
    assert NumText(m, w, [], []) == head && NumText(m, w, f, e) == head + f + e;
    hide *;
    Assoc(f, e, s);
    Assoc(head + f, e, s);
    Assoc(head, f, e + s);
    Assoc(sign, w, f + e + s);
    CutAt(head, f + (e + s));
    CutAt(head + f, e + s);
    CutAt(head + f + e, s);
    CutAt(sign, w + (f + e + s));
    CutAt(sign, w);
    MinusFirst(m, w, f + e + s);
  }

  lemma CutAt(a: seq<byte>, b: seq<byte>)
    ensures (a + b)[|a|..] == b && (a + b)[..|a|] == a
  {
  }

  lemma MinusFirst(m: bool, w: seq<byte>, rest: seq<byte>)
    requires w != [] && w[0] != 45
    ensures var all, n := (if m then [45] else []) + (w + rest), if m then 1 else 0;
      MinusLen(all) == n && all[n] == w[0]
  {
  }

  lemma IntegerComplete(m: bool, w: seq<byte>, s: seq<byte>, opt: Options)
    requires NumOk(m, w, [], [], opt) && Follow(s) && !opt.intAsReal
    ensures NumText(m, w, [], []) + s != []
    ensures NumberLex(NumText(m, w, [], []) + s, opt) == Lexed(IntegerToken(SignedBy(m, Horner(w))), s)
  {
    hide WholeEnd, FracEnd, ExpEnd, NumText, Horner, NumberLex;
    NumberCuts(m, w, [], [], s);
    RealTail(w, [], [], s);
    assert [] + [] + s == s && [] + ([] + s) == s;
    WholeComplete(w, s);
    var all := NumText(m, w, [], []) + s;
    IntegerCase(all, |w|, opt);
  }

  lemma RealEnds(w: seq<byte>, f: seq<byte>, e: seq<byte>, s: seq<byte>)
    requires IsInt(w) && IsFrac(f) && IsExp(e) && Follow(s)
    ensures WholeEnd(w + (f + e + s)) == Some(|w|) && FracEnd(f + (e + s)) == Some(|f|) && ExpEnd(e + s) == Some(|e|)
    ensures IntStop(f + (e + s)) ==> f == [] && e == []
  {
    hide WholeEnd, FracEnd, ExpEnd;
    RealTail(w, f, e, s);
    WholeComplete(w, f + e + s);
    FracComplete(f, e + s);
    ExpComplete(e, s);
  }

  lemma RealComplete(m: bool, w: seq<byte>, f: seq<byte>, e: seq<byte>, s: seq<byte>, opt: Options)
    requires NumOk(m, w, f, e, opt) && Follow(s) && (f != [] || e != [] || opt.intAsReal)
    ensures NumText(m, w, f, e) + s != []
    ensures NumberLex(NumText(m, w, f, e) + s, opt) == Lexed(RealToken(NumText(m, w, f, e)), s)
  {
    hide WholeEnd, FracEnd, ExpEnd, NumText, Horner, NumberLex, Follow, IsInt, IsFrac, IsExp, IntStop;
    RealEnds(w, f, e, s);
    RealTail(w, f, e, s);
    NumberCuts(m, w, f, e, s);
    var all := NumText(m, w, f, e) + s;
    RealCase(all, |w|, |f|, |e|, opt);
  }

  lemma RealTail(w: seq<byte>, f: seq<byte>, e: seq<byte>, s: seq<byte>)
    requires IsInt(w) && IsFrac(f) && IsExp(e) && Follow(s)
    ensures w != []
    ensures w[0] != 45
    ensures IntStop(f + (e + s)) ==> f == [] && e == []
    ensures (f + e + s) == [] || !Digit((f + e + s)[0])
    ensures e + s == [] || !Digit((e + s)[0])
    ensures f == [] ==> e + s == [] || (e + s)[0] != 46
    ensures s == [] || !Digit(s[0])
    ensures e == [] ==> IntStop(s)
  {
    var es := e + s;
    assert f + e + s == f + es;
    assert e != [] ==> es[0] == e[0];
    assert e == [] ==> es == s;
    assert f != [] ==> (f + es)[0] == f[0];
    assert f == [] ==> f + es == es;
  }

  // ---- Strings ----

  lemma CharPiece(c: SChar, s: seq<byte>)
    requires SCharOk(c) && !c.Pair?
    ensures var t := SCharText(c) + s;
      t != [] && t[0] != 34 && PieceLen(t) == Some(|SCharText(c)|) && t[|SCharText(c)|..] == s
    ensures c.Unit? ==> (SCharText(c) + s)[2..6] == c.hex
  {
    var t := SCharText(c) + s;
    if c.Unit? {
      assert t[2..6] == c.hex;
    }
  }

  lemma PairPieces(c: SChar, s: seq<byte>)
    requires SCharOk(c) && c.Pair?
    ensures var t := SCharText(c) + s; var u := t[6..];
      && |t| >= 12 && t[0] == 92 && t[1] == 117 && t[2..6] == c.high
      && |t| == 12 + |s| && |SCharText(c)| == 12
      && u[0] == 92 && u[1] == 117 && u[2..6] == c.low && u[6..] == s
      && PieceLen(t) == Some(6) && PieceLen(u) == Some(6)
  {
    var t := SCharText(c) + s;
    assert t[2..6] == c.high;
    var u := t[6..];
    assert u[2..6] == c.low;
    assert u[6..] == s;
  }

  lemma BodyStep(t: seq<byte>, k: nat, n: nat)
    requires t != [] && t[0] != 34 && PieceLen(t) == Some(k) && BodyEnd(t[k..]) == Some(n)
    ensures BodyEnd(t) == Some(k + n)
  {
  }

  lemma CharBody(c: SChar, tail: seq<byte>, n: nat)
    requires SCharOk(c) && BodyEnd(tail) == Some(n)
    ensures BodyEnd(SCharText(c) + tail) == Some(|SCharText(c)| + n)
  {
    hide PieceLen, BodyEnd, SCharText, SCharOk;
    var t := SCharText(c) + tail;
    if c.Pair? {
      PairPieces(c, tail);
      BodyStep(t[6..], 6, n);
      BodyStep(t, 6, n + 6);
    } else {
      CharPiece(c, tail);
      BodyStep(t, |SCharText(c)|, n);
    }
  }

  lemma QuoteEnds(s: seq<byte>)
    ensures BodyEnd([34] + s) == Some(1)
  {
    assert ([34] + s)[0] == 34;
  }

  lemma {:induction false} BodyComplete(cs: seq<SChar>, s: seq<byte>)
    requires CharsOk(cs)
    ensures BodyEnd(CharsText(cs) + ([34] + s)) == Some(|CharsText(cs)| + 1)
  {
    hide BodyEnd, SCharText, SCharOk;
    if cs == [] {
      QuoteEnds(s);
      assert [] + ([34] + s) == [34] + s;
    } else {
      var tail := CharsText(cs[1..]) + ([34] + s);
      BodyComplete(cs[1..], s);
      CharBody(cs[0], tail, |CharsText(cs[1..])| + 1);
      Assoc(SCharText(cs[0]), CharsText(cs[1..]), [34] + s);
    }
  }

  lemma {:induction false} UnescapeComplete(cs: seq<SChar>)
    requires CharsOk(cs)
    ensures Scanned(CharsText(cs))
    ensures Unescape(CharsText(cs)) == Some(CharsValue(cs))
  {
    var t := CharsText(cs);
    if cs != [] {
      hide PieceLen;
      UnescapeComplete(cs[1..]);
      var tail := CharsText(cs[1..]);
      if cs[0].Pair? {
        PairPieces(cs[0], tail);
        assert Scanned(t[6..]);
      } else {
        CharPiece(cs[0], tail);
        CharUnescape(cs[0], tail);
      }
    }
  }

  lemma CharUnescape(c: SChar, s: seq<byte>)
    requires SCharOk(c) && !c.Pair? && Scanned(s) && Scanned(SCharText(c) + s)
    ensures Unescape(SCharText(c) + s) == Prepend(SCharValue(c), Unescape(s))
  {
    var t := SCharText(c) + s;
    match c
    case Raw(b) => assert t[1..] == s;
    case Short(e) => assert t[2..] == s;
    case Unit(h) =>
      assert t[2..6] == h;
      assert t[6..] == s;
  }

  lemma StringComplete(cs: seq<SChar>, s: seq<byte>, cx: Input)
    requires CharsOk(cs)
    ensures Next(StrText(cs) + s, cx) == Lexed(StringToken(CharsValue(cs)), s)
  {
    hide Unescape, BodyEnd, Scanned, CharsText, CharsValue;
    var body := CharsText(cs);
    BodyComplete(cs, s);
    UnescapeComplete(cs);
    BodyLexed(body, s);
    QuoteGoesFirst(body, s, cx);
  }

  lemma BodyLexed(body: seq<byte>, s: seq<byte>)
    requires BodyEnd(body + ([34] + s)) == Some(|body| + 1) && Scanned(body) && Unescape(body).Some?
    ensures StringLex(body + ([34] + s)) == Lexed(StringToken(Unescape(body).value), s)
  {
    hide Unescape, BodyEnd, Scanned;
    var t := body + ([34] + s);
    assert t[..|body|] == body && t[|body| + 1..] == s;
  }

  /** A text that begins with a quote is lexed as a string. */
  lemma QuoteGoesFirst(body: seq<byte>, s: seq<byte>, cx: Input)
    ensures Next([34] + body + [34] + s, cx) == StringLex(body + ([34] + s))
  {
    hide StringLex;
    var t := [34] + body + [34] + s;
    assert t[0] == 34 && t[1..] == body + ([34] + s);
  }

  // ---- Single tokens ----

  lemma WordComplete(w: seq<byte>, s: seq<byte>)
    requires w == TRUE_TEXT || w == FALSE_TEXT || w == NULL_TEXT
    requires Follow(s)
    ensures WordLex(w + s)
         == Lexed(if w == TRUE_TEXT then TrueToken else if w == FALSE_TEXT then FalseToken else NullToken, s)
  {
    RunOf(w, s, IsAlpha);
    assert (w + s)[..|w|] == w && (w + s)[|w|..] == s;
  }

  lemma PunctComplete(c: byte, s: seq<byte>, cx: Input)
    requires Punctuation(c)
    ensures Next([c] + s, cx) == Lexed(Punct(c), s)
  {
    assert ([c] + s)[1..] == s;
  }

  /** A blank and then a mark of punctuation. */
  lemma BlankPunct(b: seq<byte>, c: byte, s: seq<byte>, cx: Input)
    requires Blank(b) && Punctuation(c)
    ensures Next(b + [c] + s, cx) == Lexed(Punct(c), s)
  {
    LexBlank(b, [c] + s, cx);
    PunctComplete(c, s, cx);
    assert b + [c] + s == b + ([c] + s);
  }

  lemma BlankFollows(b: seq<byte>, s: seq<byte>)
    requires Blank(b) && Follow(s)
    ensures Follow(b + s)
  {
    assert b != [] ==> (b + s)[0] == b[0];
    assert b == [] ==> b + s == s;
  }

  // ---- Values ----

  predicate Accepts(s: seq<byte>, d: nat, v: Json, rest: seq<byte>, cx: Input) {
    var l := Next(s, cx);
    ParseValue(l.token, l.rest, d, cx) == Some(Parsed(v, rest))
  }

  lemma WordLeaf(w: seq<byte>, s: seq<byte>, cx: Input)
    requires w == TRUE_TEXT || w == FALSE_TEXT || w == NULL_TEXT
    requires Follow(s)
    ensures Next(w + s, cx)
         == Lexed(if w == TRUE_TEXT then TrueToken else if w == FALSE_TEXT then FalseToken else NullToken, s)
  {
    WordComplete(w, s);
    assert (w + s)[0] == w[0];
    hide WordLex;
  }

  lemma NumLeaf(x: Syntax, s: seq<byte>, cx: Input)
    requires x.Num? && Ok(x, cx.opt) && Follow(s)
    ensures Next(Text(x) + s, cx)
         == Lexed(if x.frac == [] && x.exp == [] && !cx.opt.intAsReal then IntegerToken(SignedBy(x.minus, Horner(x.whole)))
                  else RealToken(NumText(x.minus, x.whole, x.frac, x.exp)), s)
  {
    NumberGoesFirst(x, s, cx);
    hide NumberLex, NumText, Horner, Next, Text;
    NumberCuts(x.minus, x.whole, x.frac, x.exp, s);
    if x.frac == [] && x.exp == [] && !cx.opt.intAsReal {
      IntegerComplete(x.minus, x.whole, s, cx.opt);
    } else {
      RealComplete(x.minus, x.whole, x.frac, x.exp, s, cx.opt);
    }
  }

  /** A number's text is lexed as a number. */
  lemma NumberGoesFirst(x: Syntax, s: seq<byte>, cx: Input)
    requires x.Num? && Ok(x, cx.opt)
    ensures Text(x) == NumText(x.minus, x.whole, x.frac, x.exp)
    ensures Next(Text(x) + s, cx) == NumberLex(Text(x) + s, cx.opt)
  {
    hide NumberLex;
    assert !x.minus ==> Digit(x.whole[0]);
    assert (Text(x) + s)[0] == if x.minus then 45 else x.whole[0];
  }

  lemma LeafComplete(x: Syntax, s: seq<byte>, d: nat, cx: Input)
    requires Ok(x, cx.opt) && d + 1 <= MAX_DEPTH && Follow(s) && !x.Arr? && !x.Obj?
    ensures Accepts(Text(x) + s, d, Value(x, cx.opt), s, cx)
  {
    hide Next, StrText, CharsValue, NumText, Horner;
    match x
    case WordNull => WordLeaf(NULL_TEXT, s, cx);
    case WordTrue => WordLeaf(TRUE_TEXT, s, cx);
    case WordFalse => WordLeaf(FALSE_TEXT, s, cx);
    case Num(m, w, f, e) => NumLeaf(x, s, cx);
    case Str(cs) => StringComplete(cs, s, cx);
  }

  // One unfolding of the parser for each bracketed form.

  lemma OpenBracket(inner: seq<byte>, d: nat, cx: Input)
    requires d + 1 <= MAX_DEPTH
    ensures var l := Next([91] + inner, cx); ParseValue(l.token, l.rest, d, cx) == ParseArray(inner, d + 1, cx)
    ensures var l := Next([123] + inner, cx); ParseValue(l.token, l.rest, d, cx) == ParseObject(inner, d + 1, cx)
  {
    PunctComplete(91, inner, cx);
    PunctComplete(123, inner, cx);
    hide Next, ParseArray, ParseObject;
  }

  lemma ElemsStep(s: seq<byte>, d: nat, acc: seq<Json>, v: Json, rest: seq<byte>, cx: Input)
    requires Accepts(s, d, v, rest, cx)
    ensures var l := Next(s, cx); var k := Next(rest, cx); var m := Next(k.rest, cx);
      && l.token != Punct(93)
      && ParseElems(l.token, l.rest, d, acc, cx)
      == if k.token == Punct(44) then ParseElems(m.token, m.rest, d, acc + [v], cx)
         else if k.token == Punct(93) then Some(Parsed(Array(acc + [v]), k.rest))
         else None
  {
    hide Next, ParseArray, ParseObject;
  }

  lemma PairsStep(t: Token, s: seq<byte>, d: nat, acc: seq<Entry<Json>>, item: seq<byte>, v: Json, rest: seq<byte>,
        cx: Input)
    requires KeyAllowed(t, acc, cx.opt) && Next(s, cx) == Lexed(Punct(58), item)
    requires Accepts(item, d, v, rest, cx)
    ensures var k := Next(rest, cx); var m := Next(k.rest, cx);
      ParsePairs(t, s, d, acc, cx)
      == if k.token == Punct(44) then ParsePairs(m.token, m.rest, d, Set(acc, t.text, v), cx)
         else if k.token == Punct(125) then Some(Parsed(Object(Set(acc, t.text, v)), k.rest))
         else None
  {
    hide Next, ParseArray, ParseObject, ParseValue, KeyAllowed;
  }

  lemma {:induction false} ValueComplete(x: Syntax, s: seq<byte>, d: nat, cx: Input)
    requires Ok(x, cx.opt) && d + Depth(x) <= MAX_DEPTH && Follow(s)
    ensures Accepts(Text(x) + s, d, Value(x, cx.opt), s, cx)
    decreases x
  {
    hide Next, ParseValue, ElemsText, PairsText, ElemsDepth, PairsDepth, ParseElems, ParsePairs;
    if x.Arr? {
      var inner := (if x.elems.NoElem? then x.blank else ElemsText(x.elems)) + [93] + s;
      assert Text(x) + s == [91] + inner;
      OpenBracket(inner, d, cx);
      if x.elems.NoElem? {
        BlankPunct(x.blank, 93, s, cx);
        assert ElemsValue(x.elems, cx.opt) == [];
      } else {
        ElemsComplete(x.elems, s, d + 1, [], cx);
        assert [] + ElemsValue(x.elems, cx.opt) == ElemsValue(x.elems, cx.opt);
      }
    } else if x.Obj? {
      var inner := (if x.pairs.NoPair? then x.blank else PairsText(x.pairs)) + [125] + s;
      assert Text(x) + s == [123] + inner;
      OpenBracket(inner, d, cx);
      if x.pairs.NoPair? {
        BlankPunct(x.blank, 125, s, cx);
      } else {
        PairsComplete(x.pairs, s, d + 1, [], {}, cx);
      }
    } else {
      LeafComplete(x, s, d, cx);
    }
  }

  /** What stands behind an element: more elements or the closing bracket. */
  function ElemsTail(es: Elems, s: seq<byte>): seq<byte> {
    if es.NoElem? then [93] + s else [44] + (ElemsText(es) + [93] + s)
  }

  lemma ElemsLayout(es: Elems, s: seq<byte>)
    requires es.Elem?
    ensures ElemsText(es) + [93] + s == es.before + (Text(es.item) + (es.after + ElemsTail(es.others, s)))
  {
    hide Text;
    var more := if es.others.NoElem? then [] else [44] + ElemsText(es.others);
    var close := [93] + s;
    assert ElemsTail(es.others, s) == more + close by {
      if es.others.Elem? {
        Assoc(ElemsText(es.others), [93], s);
        Assoc([44], ElemsText(es.others), close);
      }
    }
    assert ElemsText(es) == es.before + (Text(es.item) + (es.after + more));
    hide ElemsText, ElemsTail;
    Assoc(es.after, more, close);
    Assoc(Text(es.item), es.after + more, close);
    Assoc(es.before, Text(es.item) + (es.after + more), close);
    Assoc(ElemsText(es), [93], s);
  }

  lemma {:induction false} ElemsComplete(es: Elems, s: seq<byte>, d: nat, acc: seq<Json>, cx: Input)
    requires es.Elem? && ElemsOk(es, cx.opt) && d + ElemsDepth(es) <= MAX_DEPTH
    ensures var l := Next(ElemsText(es) + [93] + s, cx);
      && l.token != Punct(93)
      && ParseElems(l.token, l.rest, d, acc, cx) == Some(Parsed(Array(acc + ElemsValue(es, cx.opt)), s))
    decreases es
  {
    hide Next, ParseElems, ParseValue, Depth, Text, Value, Accepts, Ok, ElemsText;
    var tail := ElemsTail(es.others, s);
    var behind := es.after + tail;
    var v := Value(es.item, cx.opt);
    ElemsLayout(es, s);
    BlankFollows(es.after, tail);
    LexBlank(es.before, Text(es.item) + behind, cx);
    LexBlank(es.after, tail, cx);
    ValueComplete(es.item, behind, d, cx);
    ElemsStep(Text(es.item) + behind, d, acc, v, behind, cx);
    if es.others.NoElem? {
      PunctComplete(93, s, cx);
      assert ElemsValue(es, cx.opt) == [v];
    } else {
      PunctComplete(44, ElemsText(es.others) + [93] + s, cx);
      ElemsComplete(es.others, s, d, acc + [v], cx);
      assert acc + [v] + ElemsValue(es.others, cx.opt) == acc + ElemsValue(es, cx.opt);
    }
  }

  /** With duplicates rejected, the keys seen are the keys set so far. */
  ghost predicate Seen(acc: seq<Entry<Json>>, seen: set<Key>) {
    forall k :: k in seen <==> Get(acc, k).Some?
  }

  lemma SeenSet(acc: seq<Entry<Json>>, seen: set<Key>, k: Key, v: Json)
    requires Seen(acc, seen)
    ensures Seen(Set(acc, k, v), seen + {k})
  {
    forall other
      ensures other in seen + {k} <==> Get(Set(acc, k, v), other).Some?
    {
      GetSet(acc, k, v, other);
    }
  }

  function PairsTail(ps: Pairs, s: seq<byte>): seq<byte> {
    if ps.NoPair? then [125] + s else [44] + (PairsText(ps) + [125] + s)
  }

  lemma PairsLayout(ps: Pairs, s: seq<byte>)
    requires ps.APair?
    ensures PairsText(ps) + [125] + s
         == ps.before + (StrText(ps.key) + ((ps.mid1 + [58]) + (ps.mid2 + (Text(ps.item) + (ps.after + PairsTail(ps.others, s))))))
  {
    hide Text, StrText;
    var more := if ps.others.NoPair? then [] else [44] + PairsText(ps.others);
    var colon := ps.mid1 + [58];
    assert PairsText(ps) == ps.before + (StrText(ps.key) + (colon + (ps.mid2 + (Text(ps.item) + (ps.after + more)))));
    assert PairsTail(ps.others, s) == more + ([125] + s);
    hide *;
    Assoc(PairsText(ps), [125], s);
    Chained(ps.before, StrText(ps.key), colon, ps.mid2, Text(ps.item), ps.after, more, [125] + s);
  }

  lemma Chained(a: seq<byte>, b: seq<byte>, c: seq<byte>, d: seq<byte>, e: seq<byte>, f: seq<byte>, g: seq<byte>,
        s: seq<byte>)
    ensures a + (b + (c + (d + (e + (f + g))))) + s == a + (b + (c + (d + (e + (f + (g + s))))))
  {
    var y := d + (e + (f + g));
    ChainedThree(d, e, f, g, s);
    ChainedThree(a, b, c, y, s);
  }

  lemma ChainedThree(a: seq<byte>, b: seq<byte>, c: seq<byte>, x: seq<byte>, s: seq<byte>)
    ensures a + (b + (c + x)) + s == a + (b + (c + (x + s)))
  {
    Assoc(a, b + (c + x), s);
    Assoc(b, c + x, s);
    Assoc(c, x, s);
  }

  lemma {:induction false} PairsComplete(ps: Pairs, s: seq<byte>, d: nat, acc: seq<Entry<Json>>, seen: set<Key>,
        cx: Input)
    requires ps.APair? && PairsOk(ps, seen, cx.opt) && d + PairsDepth(ps) <= MAX_DEPTH && Seen(acc, seen)
    ensures var l := Next(PairsText(ps) + [125] + s, cx);
      && l.token != Punct(125)
      && ParsePairs(l.token, l.rest, d, acc, cx) == Some(Parsed(Object(PairsValue(ps, acc, seen, cx.opt)), s))
    decreases ps
  {
    hide Next, ParsePairs, ParseValue, Depth, Text, Value, Accepts, Ok, StrText, CharsText, CharsValue, PairsText;
    PairsLayout(ps, s);
    var tail := PairsTail(ps.others, s);
    var behind := ps.after + tail;
    var item := ps.mid2 + (Text(ps.item) + behind);
    var k := CharsValue(ps.key);
    var v := Value(ps.item, cx.opt);
    LexBlank(ps.before, StrText(ps.key) + (ps.mid1 + [58] + item), cx);
    StringComplete(ps.key, ps.mid1 + [58] + item, cx);
    BlankPunct(ps.mid1, 58, item, cx);
    LexBlank(ps.mid2, Text(ps.item) + behind, cx);
    LexBlank(ps.after, tail, cx);
    BlankFollows(ps.after, tail);
    ValueComplete(ps.item, behind, d, cx);
    AcceptsAfterBlank(ps.mid2, Text(ps.item) + behind, d, v, behind, cx);
    PairsStep(StringToken(k), ps.mid1 + [58] + item, d, acc, item, v, behind, cx);
    SeenSet(acc, seen, k, v);
    if ps.others.NoPair? {
      PunctComplete(125, s, cx);
    } else {
      PunctComplete(44, PairsText(ps.others) + [125] + s, cx);
      PairsComplete(ps.others, s, d, Set(acc, k, v), seen + {k}, cx);
    }
  }

  lemma AcceptsAfterBlank(b: seq<byte>, s: seq<byte>, d: nat, v: Json, rest: seq<byte>, cx: Input)
    requires Blank(b) && Accepts(s, d, v, rest, cx)
    ensures Accepts(b + s, d, v, rest, cx)
  {
    LexBlank(b, s, cx);
  }

  lemma LoadFold(text: seq<byte>, opt: Options, v: Json, rest: seq<byte>)
    requires Utf8.ValidPrefix(text) == text && Accepts(text, 0, v, rest, Input(true, opt))
    requires Next(rest, Input(true, opt)).token.Eof?
    requires opt.decodeAny || Next(text, Input(true, opt)).token in {Punct(91), Punct(123)}
    ensures Load(text, opt) == Some(v)
  {
    hide Next, ParseValue;
  }

  /** The loader accepts every document of the grammar and gives it its meaning. */
  lemma DocumentComplete(doc: Document, opt: Options)
    requires DocumentOk(doc, opt) && Utf8.IsUtf8(DocumentText(doc))
    ensures Load(DocumentText(doc), opt) == Some(Value(doc.value, opt))
  {
    hide Text, Value, ParseValue, Ok, Depth, Next, Accepts;
    var text := DocumentText(doc);
    Utf8.ValidPrefixIff(text);
    var cx := Input(true, opt);
    var x := doc.value;
    Assoc(doc.before, Text(x), doc.after);
    BlankFollowsDocument(doc.after);
    ValueComplete(x, doc.after, 0, cx);
    AcceptsAfterBlank(doc.before, Text(x) + doc.after, 0, Value(x, opt), doc.after, cx);
    LexBlank(doc.before, Text(x) + doc.after, cx);
    BracketFirst(x, doc.after, cx);
    BlankEnds(doc.after, cx);
    LoadFold(text, opt, Value(x, opt), doc.after);
  }

  lemma BlankFollowsDocument(b: seq<byte>)
    requires Blank(b)
    ensures Follow(b)
  {
  }

  lemma BlankEnds(b: seq<byte>, cx: Input)
    requires Blank(b) && cx.eof
    ensures Next(b, cx).token.Eof?
  {
    assert b + [] == b;
    LexBlank(b, [], cx);
  }

  lemma BracketFirst(x: Syntax, s: seq<byte>, cx: Input)
    ensures x.Arr? ==> Next(Text(x) + s, cx).token == Punct(91)
    ensures x.Obj? ==> Next(Text(x) + s, cx).token == Punct(123)
  {
    hide ElemsText, PairsText;
    if x.Arr? || x.Obj? {
      assert (Text(x) + s)[0] == if x.Arr? then 91 else 123;
    }
  }
}
