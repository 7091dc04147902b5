/** Loading what was dumped. */
module JsonRoundTrip {
  import opened Bytes
  import opened Utf8
  import opened OrderedMap
  import opened JsonValue
  import opened JsonGrammar
  import opened JsonLex
  import opened JsonParse
  import opened JsonComplete
  import JsonSound
  import opened JsonDump
  import opened SortedMap

  // ---- The values JSON text can carry ----

  /** A text that the lexer takes for one real number. */
  predicate RealLexeme(t: seq<byte>, opt: Options) {
    t != [] && (Digit(t[0]) || t[0] == 45) && NumberLex(t, opt) == Lexed(RealToken(t), [])
  }

  ghost predicate KeyLoadable(k: Key) { IsUtf8(k) && 0 !in k }

  ghost predicate Loadable(j: Json, opt: Options) {
    match j
    case Null => true
    case True => true
    case False => true
    case Integer(i) => INT_MIN <= i <= INT_MAX && !opt.intAsReal
    case Real(t) => RealLexeme(t, opt)
    case String(s) => IsUtf8(s) && (opt.allowNul || 0 !in s)
    case Array(items) => forall i :: 0 <= i < |items| ==> Loadable(items[i], opt)
    case Object(ms) =>
      Distinct(ms) && forall i :: 0 <= i < |ms| ==> KeyLoadable(ms[i].key) && Loadable(ms[i].value, opt)
  }

  /** Nesting, counting every value as one level. */
  function Height(j: Json): nat {
    match j
    case Array(items) => 1 + ItemsHeight(items)
    case Object(ms) => 1 + MembersHeight(ms)
    case _ => 1
  }

  function ItemsHeight(items: seq<Json>): nat {
    if items == [] then 0 else Max(Height(items[0]), ItemsHeight(items[1..]))
  }

  function MembersHeight(ms: seq<Entry<Json>>): nat {
    if ms == [] then 0 else Max(Height(ms[0].value), MembersHeight(ms[1..]))
  }

  // ---- Hexadecimal and decimal text ----

  lemma HexCharBack(v: int)
    requires 0 <= v < 16
    ensures HexDigit(HexChar(v)) && HexValue(HexChar(v)) == v && HexChar(v) < 0x80
  {
  }

  lemma Hex4Back(v: int)
    requires 0 <= v < 0x10000
    ensures Hex4(Hex4Text(v)) && Hex4Value(Hex4Text(v)) == v && Ascii(Hex4Text(v))
  {
    HexCharBack(v / 4096);
    HexCharBack(v / 256 % 16);
    HexCharBack(v / 16 % 16);
    HexCharBack(v % 16);
    hide HexChar, HexValue, HexDigit;
    Nibbles(v);
  }

  lemma Nibbles(v: nat)
    ensures ((v / 4096 * 16 + v / 256 % 16) * 16 + v / 16 % 16) * 16 + v % 16 == v
  {
    var a, b := v / 16, v / 256;
    assert v == a * 16 + v % 16 && a == b * 16 + a % 16 && b == v / 4096 * 16 + b % 16;
  }

  lemma HornerSnoc(a: seq<byte>, d: nat)
    requires AllDigits(a) && d < 10
    ensures AllDigits(a + [48 + d]) && Horner(a + [48 + d]) == Horner(a) * 10 + d
    ensures Horner([]) == 0
  {
    assert (a + [48 + d])[..|a|] == a;
  }

  lemma {:induction false} DecimalBack(n: nat)
    ensures IsInt(Decimal(n)) && Horner(Decimal(n)) == n && Ascii(Decimal(n)) && (n > 0 ==> Decimal(n)[0] != 48)
  {
    hide Horner;
    if n >= 10 {
      DecimalBack(n / 10);
      HornerSnoc(Decimal(n / 10), n % 10);
      assert Decimal(n)[0] == Decimal(n / 10)[0];
    } else {
      HornerSnoc([], n);
      assert [] + [48 + n] == [48 + n];
    }
  }

  lemma IntegerSyntax(i: int, opt: Options) returns (x: Syntax)
    requires INT_MIN <= i <= INT_MAX && !opt.intAsReal
    ensures Ok(x, opt) && Text(x) == IntegerText(i) && Value(x, opt) == Integer(i) && Depth(x) == 1 && Ascii(Text(x))
  {
    hide Decimal, Horner;
    var n := if i < 0 then -i else i;
    DecimalBack(n);
    x := Num(i < 0, Decimal(n), [], []);
    assert Text(x) == IntegerText(i);
  }

  lemma RealSyntax(t: seq<byte>, opt: Options) returns (x: Syntax)
    requires RealLexeme(t, opt)
    ensures Ok(x, opt) && Text(x) == t && Value(x, opt) == Real(t) && Depth(x) == 1 && Ascii(Text(x))
  {
    hide NumberLex, Ok, Value, NumText;
    x := JsonSound.NumberTokenSound(t, opt);
    assert Text(x) + [] == Text(x);
    NumAscii(x, opt);
    NumKind(x, opt);
  }

  lemma NumKind(x: Syntax, opt: Options)
    requires x.Num? && Ok(x, opt)
    ensures Value(x, opt).Integer? || Value(x, opt).Real?
  {
    hide Horner, NumText;
  }

  lemma NumAscii(x: Syntax, opt: Options)
    requires x.Num? && Ok(x, opt)
    ensures Ascii(Text(x))
  {
    hide Horner;
    assert x.frac != [] ==> x.frac == [x.frac[0]] + x.frac[1..];
    ExpAscii(x.exp);
    assert Ascii(x.whole) && Ascii(x.frac) && Ascii(x.exp);
  }

  lemma ExpAscii(e: seq<byte>)
    requires IsExp(e)
    ensures Ascii(e)
  {
    if e != [] {
      var k := if Sign(e[1]) then 2 else 1;
      assert forall i :: k <= i < |e| ==> e[i] == e[k..][i - k];
    }
  }

  // ---- Strings ----

  /** Plain bytes, each standing for itself. */
  lemma {:induction false} RawChars(s: seq<byte>) returns (cs: seq<SChar>)
    requires forall i :: 0 <= i < |s| ==> RawByte(s[i])
    ensures CharsOk(cs) && CharsText(cs) == s && CharsValue(cs) == s
  {
    if s == [] {
      cs := [];
    } else {
      var more := RawChars(s[1..]);
      cs := [Raw(s[0])] + more;
      assert cs[1..] == more;
    }
  }

  lemma {:induction false} TextConcat(a: seq<SChar>, b: seq<SChar>)
    ensures CharsText(a + b) == CharsText(a) + CharsText(b)
  {
    hide SCharText;
    if a == [] {
      assert a + b == b;
    } else {
      TextConcat(a[1..], b);
      assert (a + b)[0] == a[0] && (a + b)[1..] == a[1..] + b;
      Assoc(SCharText(a[0]), CharsText(a[1..]), CharsText(b));
    }
  }

  lemma {:induction false} ValueConcat(a: seq<SChar>, b: seq<SChar>)
    requires CharsOk(a) && CharsOk(b)
    ensures CharsOk(a + b) && CharsValue(a + b) == CharsValue(a) + CharsValue(b)
  {
    hide SCharValue, SCharOk;
    if a == [] {
      assert a + b == b;
    } else {
      ValueConcat(a[1..], b);
      assert (a + b)[0] == a[0] && (a + b)[1..] == a[1..] + b;
      Assoc(SCharValue(a[0]), CharsValue(a[1..]), CharsValue(b));
    }
  }

  lemma PlainCharacter(cp: int)
    requires Scalar(cp) && cp >= 0x20 && cp != 34 && cp != 92
    ensures forall i :: 0 <= i < |Encode(cp)| ==> RawByte(Encode(cp)[i])
  {
  }

  lemma EscapeSyntax(cp: int, f: Flags) returns (c: SChar)
    requires Scalar(cp) && NeedsEscape(cp, f)
    ensures SCharOk(c) && SCharText(c) == EscapeText(cp) && SCharValue(c) == Encode(cp) && Ascii(EscapeText(cp))
  {
    hide Hex4Text, Hex4Value, Hex4;
    if ShortLetter(cp).Some? {
      c := Short(ShortLetter(cp).value);
    } else if cp < 0x10000 {
      Hex4Back(cp);
      c := Unit(Hex4Text(cp));
    } else {
      c := PairSyntax(cp);
    }
  }

  lemma PairSyntax(cp: int) returns (c: SChar)
    requires Scalar(cp) && cp >= 0x10000 && ShortLetter(cp).None?
    ensures SCharOk(c) && SCharText(c) == EscapeText(cp) && SCharValue(c) == Encode(cp) && Ascii(EscapeText(cp))
  {
    hide Hex4Text, Hex4Value, Hex4, Encode, PairValue, High, Low;
    var v := cp - 0x10000;
    var high, low := 0xD800 + v / 1024, 0xDC00 + v % 1024;
    PairBack(cp);
    Hex4Back(high);
    Hex4Back(low);
    c := SChar.Pair(Hex4Text(high), Hex4Text(low));
    Regrouped([92, 117] + Hex4Text(high), [92, 117], Hex4Text(low));
  }

  lemma Regrouped(a: seq<byte>, b: seq<byte>, c: seq<byte>)
    ensures a + b + c == a + (b + c)
  {
  }

  /** A surrogate pair stands for the code point it was made from. */
  lemma PairBack(cp: int)
    requires 0x10000 <= cp <= 0x10FFFF
    ensures var high, low := 0xD800 + (cp - 0x10000) / 1024, 0xDC00 + (cp - 0x10000) % 1024;
      High(high) && Low(low) && PairValue(high, low) == cp
  {
  }

  /** The characters a dumped string body is made of. */
  lemma {:induction false} BodySyntax(s: seq<byte>, run: seq<byte>, f: Flags) returns (cs: seq<SChar>)
    requires IsUtf8(s)
    ensures CharsOk(cs) && CharsValue(cs) == s && StringBody(s, run, f) == Written(run + CharsText(cs), true)
    ensures IsUtf8(CharsText(cs))
    decreases |s|
  {
    hide First, Encode, EscapeText, NeedsEscape, SCharText, SCharValue, SCharOk;
    if s == [] {
      cs := [];
      assert run + [] == run;
    } else {
      DecodeIff(s);
      EncodeOfFirst(s);
      var (cp, n) := First(s).value;
      DecodeIff(s[n..]);
      assert s == s[..n] + s[n..];
      if NeedsEscape(cp, f) {
        var c := EscapeSyntax(cp, f);
        var more := BodySyntax(s[n..], [], f);
        cs := [c] + more;
        assert cs[1..] == more;
        AsciiIsUtf8(EscapeText(cp));
        Utf8Concat(EscapeText(cp), CharsText(more));
        assert [] + CharsText(more) == CharsText(more);
        Assoc(run, EscapeText(cp), CharsText(more));
      } else {
        PlainNeeds(cp, f);
        PlainCharacter(cp);
        var raw := RawChars(Encode(cp));
        var more := BodySyntax(s[n..], run + s[..n], f);
        TextConcat(raw, more);
        ValueConcat(raw, more);
        cs := raw + more;
        EncodeIsUtf8(cp);
        Utf8Concat(Encode(cp), CharsText(more));
        Assoc(run, s[..n], CharsText(more));
      }
    }
  }

  lemma PlainNeeds(cp: int, f: Flags)
    requires !NeedsEscape(cp, f)
    ensures cp >= 0x20 && cp != 34 && cp != 92
  {
  }

  lemma StringSyntax(s: seq<byte>, f: Flags) returns (cs: seq<SChar>)
    requires IsUtf8(s)
    ensures CharsOk(cs) && CharsValue(cs) == s && StringOut(s, f) == Written(StrText(cs), true) && IsUtf8(StrText(cs))
  {
    hide StringBody;
    cs := BodySyntax(s, [], f);
    assert [] + CharsText(cs) == CharsText(cs);
    AsciiIsUtf8([34]);
    Utf8Concat([34], CharsText(cs));
    Utf8Concat([34] + CharsText(cs), [34]);
  }

  // ---- Layout ----

  lemma IndentBlank(f: Flags, depth: nat, space: bool)
    ensures Blank(IndentText(f, depth, space))
    ensures IsUtf8(IndentText(f, depth, space))
  {
    AsciiIsUtf8(IndentText(f, depth, space));
  }

  /** A dumped value is a text of the grammar that means the value. */
  lemma {:induction false} PlainSyntax(j: Json, f: Flags, depth: nat, opt: Options) returns (x: Syntax)
    requires Loadable(j, opt)
    ensures Ok(x, opt) && Value(x, opt) == j && Depth(x) == Height(j)
    ensures Plain(j, f, depth) == Some(Text(x)) && IsUtf8(Text(x))
    ensures x.Arr? <==> j.Array?
    ensures x.Obj? <==> j.Object?
    decreases j, 1
  {
    hide CharsValue, StrText, StringOut, IntegerText, IndentText, RealLexeme, NumText, Horner;
    hide ItemsHeight, MembersHeight, ElemsDepth, PairsDepth, ElemsText, PairsText, PlainItems, PlainMembers;
    match j
    case Null => x := WordNull; AsciiIsUtf8(Text(x));
    case True => x := WordTrue; AsciiIsUtf8(Text(x));
    case False => x := WordFalse; AsciiIsUtf8(Text(x));
    case Integer(i) =>
      x := IntegerSyntax(i, opt);
      AsciiIsUtf8(Text(x));
    case Real(t) =>
      x := RealSyntax(t, opt);
      AsciiIsUtf8(Text(x));
    case String(s) =>
      var cs := StringSyntax(s, f);
      x := Str(cs);
    case Array(items) => x := ArraySyntax(items, f, depth, opt);
    case Object(ms) => x := ObjectSyntax(ms, f, depth, opt);
  }

  lemma {:induction false} ArraySyntax(items: seq<Json>, f: Flags, depth: nat, opt: Options) returns (x: Syntax)
    requires forall i :: 0 <= i < |items| ==> Loadable(items[i], opt)
    ensures x.Arr? && Ok(x, opt) && Value(x, opt) == Array(items) && Depth(x) == Height(Array(items))
    ensures Plain(Array(items), f, depth) == Some(Text(x)) && IsUtf8(Text(x))
    decreases items, 1
  {
    hide IndentText, ElemsText, PlainItems, Loadable;
    if items == [] {
      x := Arr([], NoElem);
      assert Text(x) == [91, 93];
      AsciiIsUtf8(Text(x));
    } else {
      var before := IndentText(f, depth + 1, false);
      IndentBlank(f, depth + 1, false);
      var es := ItemsSyntax(items, before, f, depth, opt);
      x := Arr([], es);
      Assoc([91], before, PlainItems(items, f, depth).value);
      Assoc([91], ElemsText(es), [93]);
      AsciiIsUtf8([91]);
      Utf8Concat([91], ElemsText(es) + [93]);
    }
  }

  lemma {:induction false} ItemsSyntax(items: seq<Json>, before: seq<byte>, f: Flags, depth: nat, opt: Options)
      returns (es: Elems)
    requires items != [] && Blank(before) && IsUtf8(before)
    requires forall i :: 0 <= i < |items| ==> Loadable(items[i], opt)
    ensures es.Elem? && ElemsOk(es, opt) && ElemsValue(es, opt) == items && ElemsDepth(es) == ItemsHeight(items)
    ensures PlainItems(items, f, depth).Some? && before + PlainItems(items, f, depth).value == ElemsText(es) + [93]
    ensures IsUtf8(ElemsText(es) + [93])
    decreases items, 0
  {
    hide IndentText, Plain, Text, Value, Ok, Depth, Height, Loadable, Blank, ElemsText, PlainItems;
    var x := PlainSyntax(items[0], f, depth + 1, opt);
    NoBlank();
    if |items| == 1 {
      var after := IndentText(f, depth, false);
      IndentBlank(f, depth, false);
      es := Elem(before, x, after, NoElem);
      JsonSound.NoElemsValue(opt);
      assert items == [items[0]] + items[1..];
      ItemsLayout(items, es, [], f, depth);
    } else {
      var next := IndentText(f, depth + 1, true);
      IndentBlank(f, depth + 1, true);
      var more := ItemsSyntax(items[1..], next, f, depth, opt);
      es := Elem(before, x, [], more);
      ItemsLayout(items, es, next, f, depth);
    }
  }

  /** One element's text, in the grammar and as dumped. */
  lemma ItemsLayout(items: seq<Json>, es: Elems, next: seq<byte>, f: Flags, depth: nat)
    requires items != [] && es.Elem? && Plain(items[0], f, depth + 1) == Some(Text(es.item))
    requires IsUtf8(es.before) && IsUtf8(Text(es.item)) && IsUtf8(es.after)
    requires |items| == 1 ==> es.others.NoElem? && es.after == IndentText(f, depth, false)
    requires |items| > 1 ==>
      && es.after == [] && es.others.Elem? && next == IndentText(f, depth + 1, true)
      && PlainItems(items[1..], f, depth).Some?
      && next + PlainItems(items[1..], f, depth).value == ElemsText(es.others) + [93] && IsUtf8(ElemsText(es.others) + [93])
    ensures PlainItems(items, f, depth).Some? && es.before + PlainItems(items, f, depth).value == ElemsText(es) + [93]
    ensures IsUtf8(ElemsText(es) + [93])
  {
    hide IndentText, Plain, Text, ElemsText;
    var t := Text(es.item);
    var tail := ElemsTail(es.others, []);
    assert [93] + [] == [93];
    var rest := PlainItems(items[1..], f, depth);
    var behind := Behind(|items| == 1, 93, f, depth);
    AsciiIsUtf8([93]);
    AsciiIsUtf8([44]);
    assert rest.Some? && behind + rest.value == es.after + tail by {
      if |items| == 1 {
        assert items[1..] == [];
        assert behind + [] == behind;
      } else {
        Assoc([44], next, rest.value);
        Assoc(ElemsText(es.others), [93], []);
        assert es.after + tail == tail;
      }
    }
    ElemsLayout(es, []);
    assert ElemsText(es) + [93] + [] == ElemsText(es) + [93];
    Assoc(t, behind, rest.value);
    if |items| > 1 {
      Utf8Concat([44], ElemsText(es.others) + [93]);
    }
    Utf8Join4(es.before, t, es.after, tail);
  }

  lemma NoBlank()
    ensures Blank([]) && IsUtf8([])
  {
    AsciiIsUtf8([]);
  }

  lemma Utf8Join4(a: seq<byte>, b: seq<byte>, c: seq<byte>, d: seq<byte>)
    requires IsUtf8(a) && IsUtf8(b) && IsUtf8(c) && IsUtf8(d)
    ensures IsUtf8(a + (b + (c + d)))
  {
    Utf8Concat(c, d);
    Utf8Concat(b, c + d);
    Utf8Concat(a, b + (c + d));
  }

  lemma {:induction false} ObjectSyntax(ms: seq<Entry<Json>>, f: Flags, depth: nat, opt: Options) returns (x: Syntax)
    requires Loadable(Object(ms), opt)
    ensures x.Obj? && Ok(x, opt) && Value(x, opt) == Object(ms) && Depth(x) == Height(Object(ms))
    ensures Plain(Object(ms), f, depth) == Some(Text(x)) && IsUtf8(Text(x))
    decreases ms, 1
  {
    if ms == [] {
      x := Obj([], NoPair);
      EmptyObject(f, depth, opt);
    } else {
      var before := IndentText(f, depth + 1, false);
      IndentBlank(f, depth + 1, false);
      LoadableParts(ms, opt);
      hide IndentText, PairsText, PlainMembers, Loadable, KeyLoadable, Value, Ok, Depth, Height, PairsOk, PairsValue,
        Plain, Text;
      assert [] + ms == ms;
      var ps := MembersSyntax([], ms, before, {}, f, depth, opt);
      x := Obj([], ps);
      ObjectMeans(ms, ps, opt);
      ObjectShape(ms, ps, before, f, depth, opt);
    }
  }

  lemma EmptyObject(f: Flags, depth: nat, opt: Options)
    ensures var x := Obj([], NoPair); Ok(x, opt) && Value(x, opt) == Object([]) && Depth(x) == Height(Object([]))
    ensures var x := Obj([], NoPair); Plain(Object([]), f, depth) == Some(Text(x)) && IsUtf8(Text(x))
  {
    var x := Obj([], NoPair);
    assert Text(x) == [123, 125];
    AsciiIsUtf8(Text(x));
  }

  lemma LoadableParts(ms: seq<Entry<Json>>, opt: Options)
    requires Loadable(Object(ms), opt)
    ensures Distinct(ms) && forall i :: 0 <= i < |ms| ==> KeyLoadable(ms[i].key) && Loadable(ms[i].value, opt)
  {
    assert Object(ms).members == ms;
  }

  lemma ObjectMeans(ms: seq<Entry<Json>>, ps: Pairs, opt: Options)
    requires ps.APair? && PairsOk(ps, {}, opt)
    requires PairsValue(ps, [], {}, opt) == ms && PairsDepth(ps) == MembersHeight(ms)
    ensures var x := Obj([], ps); Ok(x, opt) && Value(x, opt) == Object(ms) && Depth(x) == Height(Object(ms))
  {
    hide PairsOk, PairsValue, PairsDepth, MembersHeight;
  }

  /** An object's text around its members. */
  lemma ObjectShape(ms: seq<Entry<Json>>, ps: Pairs, before: seq<byte>, f: Flags, depth: nat, opt: Options)
    requires ms != [] && ps.APair? && before == IndentText(f, depth + 1, false) && PlainMembers(ms, f, depth).Some?
    requires before + PlainMembers(ms, f, depth).value == PairsText(ps) + [125] && IsUtf8(PairsText(ps) + [125])
    ensures Plain(Object(ms), f, depth) == Some(Text(Obj([], ps))) && IsUtf8(Text(Obj([], ps)))
  {
    hide IndentText, PairsText, PlainMembers;
    Assoc([123], before, PlainMembers(ms, f, depth).value);
    Assoc([123], PairsText(ps), [125]);
    AsciiIsUtf8([123]);
    Utf8Concat([123], PairsText(ps) + [125]);
  }

  /** The members from some point on, after the members done. */
  lemma {:induction false} MembersSyntax(done: seq<Entry<Json>>, ms: seq<Entry<Json>>, before: seq<byte>,
        seen: set<Key>, f: Flags, depth: nat, opt: Options) returns (ps: Pairs)
    requires ms != [] && Blank(before) && IsUtf8(before) && Distinct(done + ms)
    requires forall i :: 0 <= i < |ms| ==> KeyLoadable(ms[i].key) && Loadable(ms[i].value, opt)
    requires forall k :: k in seen <==> Has(done, k)
    ensures ps.APair? && PairsOk(ps, seen, opt) && PairsValue(ps, done, seen, opt) == done + ms
    ensures PairsDepth(ps) == MembersHeight(ms)
    ensures PlainMembers(ms, f, depth).Some? && before + PlainMembers(ms, f, depth).value == PairsText(ps) + [125]
    ensures IsUtf8(PairsText(ps) + [125])
    decreases ms, 0
  {
    hide IndentText, Plain, Text, Value, Ok, Depth, Height, Loadable, Blank, Distinct, StringOut, CharsValue,
      CharsText, StrText, PairsText, PlainMembers, Set, Get;
    var k := ms[0].key;
    assert KeyLoadable(k);
    var x := PlainSyntax(ms[0].value, f, depth + 1, opt);
    var cs := StringSyntax(k, f);
    var sep := if f.compact then [] else [32];
    SeparatorBlank(sep);
    NoBlank();
    NewKey(done, ms, seen);
    SetAbsent(done, k, ms[0].value);
    var done' := done + [ms[0]];
    assert done' + ms[1..] == done + ms;
    if |ms| == 1 {
      var after := IndentText(f, depth, false);
      IndentBlank(f, depth, false);
      ps := APair(before, cs, [], sep, x, after, NoPair);
      MembersLayout(ms, ps, [], f, depth);
      assert done' == done + ms;
    } else {
      var next := IndentText(f, depth + 1, true);
      IndentBlank(f, depth + 1, true);
      var more := MembersSyntax(done', ms[1..], next, seen + {k}, f, depth, opt);
      ps := APair(before, cs, [], sep, x, [], more);
      MembersLayout(ms, ps, next, f, depth);
    }
  }

  lemma SeparatorBlank(sep: seq<byte>)
    requires sep == [] || sep == [32]
    ensures Blank(sep)
  {
  }

  lemma NewKey(done: seq<Entry<Json>>, ms: seq<Entry<Json>>, seen: set<Key>)
    requires ms != [] && Distinct(done + ms) && forall k :: k in seen <==> Has(done, k)
    ensures !Has(done, ms[0].key) && ms[0].key !in seen
    ensures forall k :: k in seen + {ms[0].key} <==> Has(done + [ms[0]], k)
  {
    var all := done + ms;
    assert all[|done|] == ms[0];
    assert forall i :: 0 <= i < |done| ==> all[i] == done[i];
    var done' := done + [ms[0]];
    forall k
      ensures Has(done', k) <==> Has(done, k) || k == ms[0].key
    {
      if Has(done, k) {
        var i :| 0 <= i < |done| && done[i].key == k;
        assert done'[i].key == k;
      }
      assert done'[|done|].key == ms[0].key;
    }
  }

  /** One member's text, in the grammar and as dumped. */
  lemma MembersLayout(ms: seq<Entry<Json>>, ps: Pairs, next: seq<byte>, f: Flags, depth: nat)
    requires ms != [] && ps.APair? && ps.mid1 == [] && ps.mid2 == (if f.compact then [] else [32])
    requires Plain(ms[0].value, f, depth + 1) == Some(Text(ps.item)) && StringOut(ms[0].key, f).text == StrText(ps.key)
    requires IsUtf8(ps.before) && IsUtf8(StrText(ps.key)) && IsUtf8(Text(ps.item)) && IsUtf8(ps.after)
    requires |ms| == 1 ==> ps.others.NoPair? && ps.after == IndentText(f, depth, false)
    requires |ms| > 1 ==>
      && ps.after == [] && ps.others.APair? && next == IndentText(f, depth + 1, true)
      && PlainMembers(ms[1..], f, depth).Some?
      && next + PlainMembers(ms[1..], f, depth).value == PairsText(ps.others) + [125] && IsUtf8(PairsText(ps.others) + [125])
    ensures PlainMembers(ms, f, depth).Some? && ps.before + PlainMembers(ms, f, depth).value == PairsText(ps) + [125]
    ensures IsUtf8(PairsText(ps) + [125])
  {
    hide IndentText, Plain, Text, StringOut, StrText, PairsText;
    var key, t := StrText(ps.key), Text(ps.item);
    var tail := PairsTail(ps.others, []);
    var rest := PlainMembers(ms[1..], f, depth);
    var behind := Behind(|ms| == 1, 125, f, depth);
    assert PlainMembers(ms, f, depth) == Prefixed(key + Separator(f) + t + behind, rest);
    MembersBehind(ms, ps, next, f, depth);
    var colon := Separator(f);
    AsciiIsUtf8(colon);
    ColonLayout(ps, colon);
    MembersUtf8(ps, colon);
    hide *;
    PieceJoin(ps.before, key, colon, t, behind, rest.value);
  }

  lemma ColonLayout(ps: Pairs, colon: seq<byte>)
    requires ps.APair? && ps.mid1 == [] && colon == [58] + ps.mid2
    ensures PairsText(ps) + [125] ==
      ps.before + (StrText(ps.key) + (colon + (Text(ps.item) + (ps.after + PairsTail(ps.others, [])))))
  {
    hide Text, StrText, PairsText, PairsTail;
    var rest := Text(ps.item) + (ps.after + PairsTail(ps.others, []));
    PairsLayout(ps, []);
    assert PairsText(ps) + [125] + [] == PairsText(ps) + [125];
    assert (ps.mid1 + [58]) + (ps.mid2 + rest) == colon + rest;
  }

  lemma MembersUtf8(ps: Pairs, colon: seq<byte>)
    requires ps.APair? && ps.mid1 == [] && colon == [58] + ps.mid2 && IsUtf8(colon)
    requires IsUtf8(ps.before) && IsUtf8(StrText(ps.key)) && IsUtf8(Text(ps.item)) && IsUtf8(ps.after)
    requires ps.others.APair? ==> IsUtf8(PairsText(ps.others) + [125])
    ensures IsUtf8(PairsText(ps) + [125])
  {
    hide *;
    var key, t, tail := StrText(ps.key), Text(ps.item), PairsTail(ps.others, []);
    ColonLayout(ps, colon);
    TailUtf8(ps.others);
    Utf8Join4(colon, t, ps.after, tail);
    Utf8Concat(key, colon + (t + (ps.after + tail)));
    Utf8Concat(ps.before, key + (colon + (t + (ps.after + tail))));
  }

  /** What follows the member, in both texts. */
  lemma MembersBehind(ms: seq<Entry<Json>>, ps: Pairs, next: seq<byte>, f: Flags, depth: nat)
    requires ms != [] && ps.APair?
    requires |ms| == 1 ==> ps.others.NoPair? && ps.after == IndentText(f, depth, false)
    requires |ms| > 1 ==>
      && ps.after == [] && ps.others.APair? && next == IndentText(f, depth + 1, true)
      && PlainMembers(ms[1..], f, depth).Some?
      && next + PlainMembers(ms[1..], f, depth).value == PairsText(ps.others) + [125]
    ensures var rest := PlainMembers(ms[1..], f, depth);
      rest.Some? && Behind(|ms| == 1, 125, f, depth) + rest.value == ps.after + PairsTail(ps.others, [])
  {
    hide IndentText, Plain, Text, StringOut, StrText, PairsText;
    var tail := PairsTail(ps.others, []);
    var behind := Behind(|ms| == 1, 125, f, depth);
    assert [125] + [] == [125];
    if |ms| == 1 {
      assert ms[1..] == [];
      assert behind + [] == behind;
    } else {
      Assoc([44], next, PlainMembers(ms[1..], f, depth).value);
      Assoc(PairsText(ps.others), [125], []);
      assert ps.after + tail == tail;
    }
  }

  lemma TailUtf8(others: Pairs)
    requires others.APair? ==> IsUtf8(PairsText(others) + [125])
    ensures IsUtf8(PairsTail(others, []))
  {
    hide PairsText;
    AsciiIsUtf8([125]);
    AsciiIsUtf8([44]);
    assert [125] + [] == [125];
    if others.APair? {
      Assoc(PairsText(others), [125], []);
      assert PairsText(others) + [125] + [] == PairsText(others) + [125];
      Utf8Concat([44], PairsText(others) + [125]);
    }
  }

  lemma PieceJoin(a: seq<byte>, key: seq<byte>, colon: seq<byte>, t: seq<byte>, behind: seq<byte>, rest: seq<byte>)
    ensures a + ((key + colon + t + behind) + rest) == a + (key + (colon + (t + (behind + rest))))
  {
    Assoc(key + colon + t, behind, rest);
    Assoc(key + colon, t, behind + rest);
    Assoc(key, colon, t + (behind + rest));
  }

  // ---- Writing order keeps everything but the order ----

  lemma {:induction false} InsertHeight(e: Entry<Json>, m: seq<Entry<Json>>)
    ensures MembersHeight(Insert(e, m)) == Max(Height(e.value), MembersHeight(m))
  {
    hide Height;
    if m != [] && !KeyLeq(e.key, m[0].key) {
      InsertHeight(e, m[1..]);
      assert Insert(e, m)[1..] == Insert(e, m[1..]);
    } else {
      assert ([e] + m)[1..] == m;
    }
  }

  lemma {:induction false} SortHeight(m: seq<Entry<Json>>)
    ensures MembersHeight(Sort(m)) == MembersHeight(m)
  {
    if m != [] {
      SortHeight(m[1..]);
      InsertHeight(m[0], Sort(m[1..]));
    }
  }

  lemma {:induction false} CanonHeight(j: Json, f: Flags)
    ensures Height(Canon(j, f)) == Height(j)
    decreases j, 1
  {
    hide CanonItems, CanonMembers, ItemsHeight, MembersHeight;
    match j
    case Array(items) => CanonItemsHeight(items, f);
    case Object(ms) =>
      CanonMembersHeight(ms, f);
      SortHeight(CanonMembers(ms, f));
    case _ =>
  }

  lemma {:induction false} CanonItemsHeight(items: seq<Json>, f: Flags)
    ensures ItemsHeight(CanonItems(items, f)) == ItemsHeight(items)
    decreases items, 0
  {
    hide Canon, Height;
    if items != [] {
      CanonHeight(items[0], f);
      CanonItemsHeight(items[1..], f);
      assert CanonItems(items, f)[1..] == CanonItems(items[1..], f);
    }
  }

  lemma {:induction false} CanonMembersHeight(ms: seq<Entry<Json>>, f: Flags)
    ensures MembersHeight(CanonMembers(ms, f)) == MembersHeight(ms)
    decreases ms, 0
  {
    hide Canon, Height;
    if ms != [] {
      CanonHeight(ms[0].value, f);
      CanonMembersHeight(ms[1..], f);
      assert CanonMembers(ms, f)[1..] == CanonMembers(ms[1..], f);
    }
  }

  ghost predicate MembersLoadable(ms: seq<Entry<Json>>, opt: Options) {
    forall i :: 0 <= i < |ms| ==> KeyLoadable(ms[i].key) && Loadable(ms[i].value, opt)
  }

  lemma PermutedLoadable(a: seq<Entry<Json>>, b: seq<Entry<Json>>, opt: Options)
    requires multiset(a) == multiset(b) && MembersLoadable(a, opt)
    ensures MembersLoadable(b, opt)
  {
    hide Loadable;
    forall i | 0 <= i < |b|
      ensures KeyLoadable(b[i].key) && Loadable(b[i].value, opt)
    {
      assert b[i] in multiset(a);
      assert b[i] in a;
    }
  }

  lemma {:induction false} CanonLoadable(j: Json, f: Flags, opt: Options)
    requires Proper(j)
    ensures Loadable(Canon(j, f), opt) <==> Loadable(j, opt)
  {
    hide CanonMembers, CanonItems, Distinct;
    match j
    case Array(items) =>
      forall i | 0 <= i < |items|
        ensures Loadable(CanonItems(items, f)[i], opt) <==> Loadable(items[i], opt)
      {
        CanonLoadable(items[i], f, opt);
      }
    case Object(ms) =>
      forall i | 0 <= i < |ms|
        ensures Loadable(CanonMembers(ms, f)[i].value, opt) <==> Loadable(ms[i].value, opt)
      {
        CanonLoadable(ms[i].value, f, opt);
      }
      CanonDistinct(ms, f);
      var c := CanonMembers(ms, f);
      SortSorts(c);
      SortDistinct(c);
      hide Loadable;
      assert MembersLoadable(c, opt) <==> MembersLoadable(ms, opt);
      if MembersLoadable(c, opt) {
        PermutedLoadable(c, Sort(c), opt);
      }
      if MembersLoadable(Sort(c), opt) {
        PermutedLoadable(Sort(c), c, opt);
      }
      ObjectLoadable(ms, opt);
      ObjectLoadable(c, opt);
      ObjectLoadable(Sort(c), opt);
    case _ =>
  }

  lemma ObjectLoadable(ms: seq<Entry<Json>>, opt: Options)
    ensures Loadable(Object(ms), opt) <==> Distinct(ms) && MembersLoadable(ms, opt)
  {
    hide Distinct;
    assert Object(ms).members == ms;
  }

  lemma CanonDistinct(ms: seq<Entry<Json>>, f: Flags)
    requires Distinct(ms)
    ensures Distinct(CanonMembers(ms, f))
  {
    var c := CanonMembers(ms, f);
    assert forall i :: 0 <= i < |c| ==> c[i].key == ms[i].key;
    hide CanonMembers;
  }

  // ---- Whatever is loaded could be dumped and loaded again ----

  lemma {:induction false} StripLeft(a: seq<byte>, b: seq<byte>)
    requires IsUtf8(a + b) && Ascii(a)
    ensures IsUtf8(b)
  {
    if a == [] {
      assert a + b == b;
    } else {
      assert a + b == [] + [a[0]] + (a[1..] + b);
      SplitAtAscii([], a[0], a[1..] + b);
      StripLeft(a[1..], b);
    }
  }

  lemma StripRight(a: seq<byte>, b: seq<byte>)
    requires IsUtf8(a + b) && Ascii(b)
    ensures IsUtf8(a)
  {
    if b == [] {
      assert a + b == a;
    } else {
      assert a + b == a + [b[0]] + b[1..];
      SplitAtAscii(a, b[0], b[1..]);
    }
  }

  lemma BlankAscii(b: seq<byte>)
    requires Blank(b)
    ensures Ascii(b)
  {
  }

  /** High bytes in a string's text are raw characters. */
  lemma {:induction false} RawRun(cs: seq<SChar>, n: nat)
    requires CharsOk(cs) && n <= |CharsText(cs)| && forall i :: 0 <= i < n ==> CharsText(cs)[i] >= 0x80
    ensures n <= |cs| && CharsText(cs)[n..] == CharsText(cs[n..])
    ensures CharsValue(cs) == CharsText(cs)[..n] + CharsValue(cs[n..])
  {
    hide SCharText, SCharValue, SCharOk, CharsText, CharsValue;
    var t := CharsText(cs);
    if n == 0 {
      assert cs[0..] == cs && t[0..] == t && t[..0] == [];
      assert [] + CharsValue(cs) == CharsValue(cs);
    } else {
      HighIsRaw(cs);
      assert forall i :: 0 <= i < n - 1 ==> t[1..][i] == t[i + 1];
      RawRun(cs[1..], n - 1);
      assert cs[1..][n - 1..] == cs[n..];
      FirstOfRun(t, n);
      Assoc([t[0]], t[1..][..n - 1], CharsValue(cs[n..]));
    }
  }

  lemma FirstOfRun(t: seq<byte>, n: nat)
    requires 1 <= n <= |t|
    ensures t[n..] == t[1..][n - 1..] && t[..n] == [t[0]] + t[1..][..n - 1]
  {
  }

  lemma HighIsRaw(cs: seq<SChar>)
    requires CharsOk(cs) && CharsText(cs) != [] && CharsText(cs)[0] >= 0x80
    ensures cs != [] && CharsOk(cs[1..]) && CharsText(cs)[1..] == CharsText(cs[1..])
    ensures CharsValue(cs) == [CharsText(cs)[0]] + CharsValue(cs[1..])
  {
    hide Encode;
    var t := CharsText(cs);
    assert SCharText(cs[0])[0] == t[0];
    assert cs[0].Raw?;
  }

  lemma SCharUtf8(c: SChar)
    requires SCharOk(c) && !(c.Raw? && c.b >= 0x80)
    ensures Ascii(SCharText(c)) && IsUtf8(SCharValue(c))
  {
    hide Encode;
    match c
    case Raw(b) => AsciiIsUtf8([b]);
    case Short(e) => AsciiIsUtf8([ShortValue(e)]);
    case Unit(h) =>
      HexAscii(h);
      EncodeIsUtf8(Hex4Value(h));
    case Pair(h, l) =>
      HexAscii(h);
      HexAscii(l);
      EncodeIsUtf8(PairValue(Hex4Value(h), Hex4Value(l)));
  }

  lemma HexAscii(h: seq<byte>)
    requires Hex4(h)
    ensures Ascii([92, 117] + h)
  {
  }

  /** A string of UTF-8 text denotes UTF-8. */
  lemma {:induction false} CharsUtf8(cs: seq<SChar>)
    requires CharsOk(cs) && IsUtf8(CharsText(cs))
    ensures IsUtf8(CharsValue(cs))
    decreases |cs|
  {
    hide First, Encode, SCharText, SCharValue, SCharOk;
    if cs == [] {
      AsciiIsUtf8([]);
    } else if cs[0].Raw? && cs[0].b >= 0x80 {
      var t := CharsText(cs);
      RawFirst(cs);
      DecodeIff(t);
      var (cp, n) := First(t).value;
      DecodeIff(t[n..]);
      HighFirst(t);
      RawRun(cs, n);
      assert IsUtf8(t[n..]);
      CharsUtf8(cs[n..]);
      EncodeOfFirst(t);
      EncodeIsUtf8(cp);
      Utf8Concat(t[..n], CharsValue(cs[n..]));
    } else {
      SCharUtf8(cs[0]);
      StripLeft(SCharText(cs[0]), CharsText(cs[1..]));
      CharsUtf8(cs[1..]);
      Utf8Concat(SCharValue(cs[0]), CharsValue(cs[1..]));
    }
  }

  lemma RawFirst(cs: seq<SChar>)
    requires cs != [] && cs[0].Raw?
    ensures CharsText(cs) != [] && CharsText(cs)[0] == cs[0].b
  {
  }

  lemma HighFirst(t: seq<byte>)
    requires t != [] && First(t).Some? && t[0] >= 0x80
    ensures First(t).value.1 > 1 && forall i :: 0 <= i < First(t).value.1 ==> t[i] >= 0x80
  {
    MultibyteHigh(t);
  }

  lemma {:induction false} ValueLoadable(x: Syntax, opt: Options)
    requires Ok(x, opt) && IsUtf8(Text(x))
    ensures Loadable(Value(x, opt), opt) && Height(Value(x, opt)) <= Depth(x)
    decreases x
  {
    hide NumText, Horner, CharsText, CharsValue, ElemsText, PairsText, RealLexeme, ItemsHeight, MembersHeight,
      ElemsValue, PairsValue;
    match x
    case WordNull =>
    case WordTrue =>
    case WordFalse =>
    case Num(m, w, f, e) => NumLoadable(x, opt);
    case Str(cs) =>
      StrUtf8(cs, []);
      CharsUtf8(cs);
    case Arr(b, es) =>
      if es.Elem? {
        Framed(91, ElemsText(es), 93);
        ElemsLoadable(es, opt);
      } else {
        JsonSound.NoElemsValue(opt);
        assert ItemsHeight([]) == 0 by { EmptyHeights(); }
      }
    case Obj(b, ps) =>
      EmptyHeights();
      if ps.APair? {
        Framed(123, PairsText(ps), 125);
        PairsLoadable(ps, [], {}, opt);
      } else {
        NoPairsValue(opt);
      }
      ObjectLoadable(PairsValue(ps, [], {}, opt), opt);
  }

  lemma EmptyHeights()
    ensures ItemsHeight([]) == 0 && MembersHeight([]) == 0
  {
  }

  lemma NoPairsValue(opt: Options)
    ensures PairsValue(NoPair, [], {}, opt) == []
  {
  }

  lemma Framed(open: byte, inner: seq<byte>, close: byte)
    requires open < 0x80 && close < 0x80 && IsUtf8([open] + inner + [close])
    ensures IsUtf8(inner)
  {
    Assoc([open], inner, [close]);
    StripLeft([open], inner + [close]);
    StripRight(inner, [close]);
  }

  lemma StrUtf8(cs: seq<SChar>, rest: seq<byte>)
    requires IsUtf8(StrText(cs) + rest)
    ensures IsUtf8(CharsText(cs)) && IsUtf8(rest)
  {
    hide CharsText;
    assert StrText(cs) + rest == [] + [34] + (CharsText(cs) + [34] + rest);
    SplitAtAscii([], 34, CharsText(cs) + [34] + rest);
    SplitAtAscii(CharsText(cs), 34, rest);
  }

  lemma NumLoadable(x: Syntax, opt: Options)
    requires x.Num? && Ok(x, opt)
    ensures Loadable(Value(x, opt), opt)
  {
    hide NumText, Horner, NumberLex;
    if x.frac != [] || x.exp != [] || opt.intAsReal {
      var t := NumText(x.minus, x.whole, x.frac, x.exp);
      RealComplete(x.minus, x.whole, x.frac, x.exp, [], opt);
      assert t + [] == t;
      NumberCuts(x.minus, x.whole, x.frac, x.exp, []);
    }
  }

  /** A value followed by blanks and then by nothing or a comma. */
  lemma ValuePart(t: seq<byte>, after: seq<byte>, more: seq<byte>)
    requires IsUtf8(t + (after + more)) && Blank(after) && (more == [] || more[0] == 44)
    ensures IsUtf8(t) && (more != [] ==> IsUtf8(more[1..]))
  {
    BlankAscii(after);
    Assoc(t, after, more);
    if more != [] {
      assert t + after + more == (t + after) + [44] + more[1..];
      SplitAtAscii(t + after, 44, more[1..]);
    } else {
      assert after + more == after;
    }
    StripRight(t, after);
  }

  lemma {:induction false} ElemsLoadable(es: Elems, opt: Options)
    requires es.Elem? && ElemsOk(es, opt) && IsUtf8(ElemsText(es))
    ensures var vs := ElemsValue(es, opt);
      (forall i :: 0 <= i < |vs| ==> Loadable(vs[i], opt)) && ItemsHeight(vs) <= ElemsDepth(es)
    decreases es
  {
    hide Text, Value, Ok, Depth, Loadable, Height, Blank;
    var more := if es.others.NoElem? then [] else [44] + ElemsText(es.others);
    BlankAscii(es.before);
    StripLeft(es.before, Text(es.item) + (es.after + more));
    ValuePart(Text(es.item), es.after, more);
    ValueLoadable(es.item, opt);
    var rest := ElemsValue(es.others, opt);
    if es.others.Elem? {
      assert more[1..] == ElemsText(es.others);
      ElemsLoadable(es.others, opt);
    } else {
      JsonSound.NoElemsValue(opt);
    }
    var vs := ElemsValue(es, opt);
    assert vs == [Value(es.item, opt)] + rest && vs[1..] == rest;
  }

  lemma {:induction false} PairsLoadable(ps: Pairs, acc: seq<Entry<Json>>, seen: set<Key>, opt: Options)
    requires ps.APair? && PairsOk(ps, seen, opt) && IsUtf8(PairsText(ps)) && Distinct(acc) && MembersLoadable(acc, opt)
    ensures var ms := PairsValue(ps, acc, seen, opt);
      Distinct(ms) && MembersLoadable(ms, opt) && MembersHeight(ms) <= Max(MembersHeight(acc), PairsDepth(ps))
    decreases ps
  {
    hide Text, Value, Ok, Depth, Loadable, Height, Blank, StrText, CharsValue, CharsText, Distinct, Set,
      MembersHeight, MembersLoadable;
    var more := if ps.others.NoPair? then [] else [44] + PairsText(ps.others);
    var t4 := Text(ps.item) + (ps.after + more);
    var t3 := ps.mid2 + t4;
    var t2 := (ps.mid1 + [58]) + t3;
    BlankAscii(ps.before);
    BlankAscii(ps.mid1);
    BlankAscii(ps.mid2);
    StripLeft(ps.before, StrText(ps.key) + t2);
    StrUtf8(ps.key, t2);
    CharsUtf8(ps.key);
    StripLeft(ps.mid1 + [58], t3);
    StripLeft(ps.mid2, t4);
    ValuePart(Text(ps.item), ps.after, more);
    ValueLoadable(ps.item, opt);
    var k, v := CharsValue(ps.key), Value(ps.item, opt);
    SetLoadable(acc, k, v, opt);
    if ps.others.APair? {
      assert more[1..] == PairsText(ps.others);
      PairsLoadable(ps.others, Set(acc, k, v), seen + {k}, opt);
    }
  }

  lemma SetLoadable(acc: seq<Entry<Json>>, k: Key, v: Json, opt: Options)
    requires Distinct(acc) && MembersLoadable(acc, opt) && KeyLoadable(k) && Loadable(v, opt)
    ensures Distinct(Set(acc, k, v)) && MembersLoadable(Set(acc, k, v), opt)
    ensures MembersHeight(Set(acc, k, v)) <= Max(MembersHeight(acc), Height(v))
  {
    SetHeight(acc, k, v);
    SetKeepsDistinct(acc, k, v);
    hide Loadable, Height, KeyLoadable, MembersHeight, Max, Distinct;
    SetMembers(acc, k, v, opt);
  }

  lemma SetMembers(acc: seq<Entry<Json>>, k: Key, v: Json, opt: Options)
    requires Distinct(acc) && MembersLoadable(acc, opt) && KeyLoadable(k) && Loadable(v, opt)
    ensures MembersLoadable(Set(acc, k, v), opt)
  {
    hide Loadable, KeyLoadable, Set;
    if Has(acc, k) {
      var i :| 0 <= i < |acc| && acc[i].key == k;
      SetAt(acc, i, v);
    } else {
      SetAbsent(acc, k, v);
    }
  }

  lemma {:induction false} SetHeight(acc: seq<Entry<Json>>, k: Key, v: Json)
    ensures MembersHeight(Set(acc, k, v)) <= Max(MembersHeight(acc), Height(v))
  {
    hide Height;
    if acc == [] {
    } else if acc[0].key == k {
      assert Set(acc, k, v)[1..] == acc[1..];
    } else {
      SetHeight(acc[1..], k, v);
      assert Set(acc, k, v)[1..] == Set(acc[1..], k, v);
    }
  }

  // ---- The main results ----

  predicate Container(j: Json) { j.Array? || j.Object? }

  /** Every value loaded from a text that was read to its end is within the loadable ones. */
  lemma LoadedIsLoadable(text: seq<byte>, opt: Options)
    requires !opt.disableEofCheck && Load(text, opt).Some?
    ensures Loadable(Load(text, opt).value, opt) && Height(Load(text, opt).value) <= MAX_DEPTH
    ensures opt.decodeAny || Container(Load(text, opt).value)
  {
    hide Load, Loadable, Text, Value, Ok, Depth, Height;
    var doc := JsonSound.DocumentSound(text, opt);
    BlankAscii(doc.before);
    BlankAscii(doc.after);
    StripRight(doc.before + Text(doc.value), doc.after);
    StripLeft(doc.before, Text(doc.value));
    ValueLoadable(doc.value, opt);
    ContainerValue(doc.value, opt);
  }

  lemma ContainerValue(x: Syntax, opt: Options)
    requires Ok(x, opt)
    ensures x.Arr? || x.Obj? <==> Container(Value(x, opt))
  {
  }

  /**
    * The main result on dumping: for every mix of flags, a value comes back from its own dump,
    * members in writing order, if and only if it is loadable and within the parser's nesting limit.
    */
  lemma RoundTrip(j: Json, f: Flags, opt: Options)
    requires Proper(j) && !opt.disableEofCheck
    ensures Dumps(j, f).Some? && Load(Dumps(j, f).value, opt) == Some(Canon(j, f))
       <==> Loadable(j, opt) && Height(j) <= MAX_DEPTH && (Container(j) || (f.encodeAny && opt.decodeAny))
  {
    hide Load, Loadable, Canon, Plain, Height;
    CanonHeight(j, f);
    CanonLoadable(j, f, opt);
    CanonContainer(j, f);
    var c := Canon(j, f);
    if Loadable(j, opt) && Height(j) <= MAX_DEPTH && (Container(j) || (f.encodeAny && opt.decodeAny)) {
      DumpLoads(c, f, opt);
    }
    if Dumps(j, f).Some? && Load(Dumps(j, f).value, opt) == Some(c) {
      LoadedIsLoadable(Dumps(j, f).value, opt);
    }
  }

  /** A tree that can be written and not loaded back. */
  lemma NulDoesNotReturn(f: Flags, opt: Options) returns (j: Json)
    requires !opt.disableEofCheck && !opt.allowNul
    ensures Proper(j) && Container(j) && Dumps(j, f).Some? && Load(Dumps(j, f).value, opt) != Some(Canon(j, f))
  {
    j := Array([String([0])]);
    assert !Loadable(Array([String([0])]), opt) by {
      assert !Loadable([String([0])][0], opt);
    }
    RoundTrip(j, f, opt);
    var allowed := opt.(allowNul := true);
    AsciiIsUtf8([0]);
    assert Loadable(String([0]), allowed);
    assert Height(j) <= 2 by { assert Height(String([0])) == 1; }
    RoundTrip(j, f, allowed);
  }

  lemma CanonContainer(j: Json, f: Flags)
    ensures Container(Canon(j, f)) <==> Container(j)
  {
  }

  lemma DumpLoads(c: Json, f: Flags, opt: Options)
    requires Loadable(c, opt) && Height(c) <= MAX_DEPTH && (Container(c) || opt.decodeAny)
    ensures Plain(c, f, 0).Some? && Load(Plain(c, f, 0).value, opt) == Some(c)
  {
    hide Load, Plain, Text, Value, Ok, Depth, Height, Loadable;
    var x := PlainSyntax(c, f, 0, opt);
    NoBlank();
    var doc := Document([], x, []);
    assert DocumentText(doc) == Text(x) by {
      assert [] + Text(x) + [] == Text(x);
    }
    DocumentComplete(doc, opt);
  }

  /** Without sorted keys the very same value comes back, members in their own order. */
  lemma {:induction false} UnsortedCanon(j: Json, f: Flags)
    requires !f.sortKeys
    ensures Canon(j, f) == j
  {
    match j
    case Array(items) =>
      forall i | 0 <= i < |items|
        ensures CanonItems(items, f)[i] == items[i]
      {
        UnsortedCanon(items[i], f);
      }
      assert CanonItems(items, f) == items;
    case Object(ms) =>
      forall i | 0 <= i < |ms|
        ensures CanonMembers(ms, f)[i] == ms[i]
      {
        UnsortedCanon(ms[i].value, f);
      }
      assert CanonMembers(ms, f) == ms;
    case _ =>
  }
}
