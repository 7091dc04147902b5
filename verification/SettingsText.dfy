/** A setting and its JSON text, outright: what one value is written as, and what a written value is read as. */
module SettingsText {
  import opened Bytes
  import opened Utf8
  import opened OrderedMap
  import opened SortedMap
  import opened JsonValue
  import opened JsonGrammar
  import JsonParse
  import opened JsonComplete
  import JsonDump
  import JsonRoundTrip
  import JsonEscapes
  import JsonLimits
  import opened Settings

  /** Settings that are no reference. */
  predicate Leaf(s: Setting) { s.Text? || s.Int? || s.Double? || s.Bool? }

  /** A setting as the writer of its type spells it. */
  function Spelled(s: Setting): seq<byte>
    requires Leaf(s)
  {
    match s
    case Text(t) => JsonDump.StringOut(t, DUMP_FLAGS).text
    case Int(i) => JsonDump.IntegerText(i)
    case Double(t) => t
    case Bool(b) => Chars(if b then "true" else "false")
  }

  /** The JSON value a leaf is exported as has the spelling for its text. */
  lemma LeafJson(s: Setting, m: Machine, depth: nat)
    requires Leaf(s) && (s.Text? ==> IsUtf8(s.text))
    ensures ToJson(s, m).Wrote? && !ToJson(s, m).json.Array? && !ToJson(s, m).json.Object?
    ensures JsonDump.Plain(ToJson(s, m).json, DUMP_FLAGS, depth) == Some(Spelled(s))
  {
    hide JsonDump.StringOut, JsonDump.IntegerText;
    if s.Text? {
      var _ := JsonRoundTrip.StringSyntax(s.text, DUMP_FLAGS);
    }
    JsonEscapes.Words(DUMP_FLAGS, depth);
  }

  lemma OneExported(name: Key, s: Setting, m: Machine)
    requires CheckText(name) && Leaf(s) && ToJson(s, m).Wrote?
    ensures SetUser([], name, s) == [Entry(name, Alone(s))]
    ensures Export([Entry(name, Alone(s))], m) == Some([Entry(name, ToJson(s, m).json)])
  {
    hide ToJson, CheckText;
    var d := [Entry(name, Alone(s))];
    assert Insert(Entry(name, Alone(s)), []) == d;
    assert d[..|d| - 1] == [] && Export([], m) == Some([]);
    assert ItemJson(Alone(s), m) == ToJson(s, m);
  }

  lemma OneDumped(name: Key, j: Json, text: seq<byte>)
    requires !j.Array? && !j.Object? && JsonDump.Plain(j, DUMP_FLAGS, 1) == Some(text)
    ensures JsonDump.Dumps(Object([Entry(name, j)]), DUMP_FLAGS)
         == Some([123, 10, 32, 32, 32, 32] + (JsonDump.StringOut(name, DUMP_FLAGS).text + [58, 32] + text + [10, 125]))
  {
    hide JsonDump.StringOut, JsonDump.Plain;
    var ms := [Entry(name, j)];
    assert ms[1..] == [];
    assert JsonDump.CanonMembers([], DUMP_FLAGS) == [];
    assert JsonDump.Canon(j, DUMP_FLAGS) == j;
    assert JsonDump.CanonMembers(ms, DUMP_FLAGS) == ms;
    assert JsonDump.Canon(Object(ms), DUMP_FLAGS) == Object(ms);
    OneMember(name, j, text);
  }

  lemma OneMember(name: Key, j: Json, text: seq<byte>)
    requires JsonDump.Plain(j, DUMP_FLAGS, 1) == Some(text)
    ensures JsonDump.Plain(Object([Entry(name, j)]), DUMP_FLAGS, 0)
         == Some([123, 10, 32, 32, 32, 32] + (JsonDump.StringOut(name, DUMP_FLAGS).text + [58, 32] + text + [10, 125]))
  {
    hide JsonDump.StringOut;
    var ms := [Entry(name, j)];
    var key := JsonDump.StringOut(name, DUMP_FLAGS).text;
    assert ms[1..] == [];
    assert JsonDump.Behind(true, 125, DUMP_FLAGS, 0) == [10, 125];
    assert [123] + JsonDump.IndentText(DUMP_FLAGS, 1, false) == [123, 10, 32, 32, 32, 32];
    assert JsonDump.PlainMembers([], DUMP_FLAGS, 0) == Some([]);
    assert key + [58, 32] + text + [10, 125] + [] == key + [58, 32] + text + [10, 125];
  }

  /** A single setting, as wsc_data_get_json writes it. */
  lemma LeafExported(name: Key, s: Setting, m: Machine)
    requires IsUtf8(name) && Leaf(s) && (s.Text? ==> IsUtf8(s.text))
    ensures GetJson(SetUser([], name, s), m)
         == Some(Chars("{\n    ") + (JsonDump.StringOut(name, DUMP_FLAGS).text + Chars(": ") + Spelled(s) + Chars("\n}")))
  {
    hide JsonDump.StringOut, JsonDump.Plain, JsonDump.Dumps, CheckText, ToJson, Spelled, SetUser, Export;
    LeafJson(s, m, 1);
    OneExported(name, s, m);
    OneDumped(name, ToJson(s, m).json, Spelled(s));
    assert Chars("{\n    ") == [123, 10, 32, 32, 32, 32] && Chars(": ") == [58, 32] && Chars("\n}") == [10, 125];
  }

  predicate Literal(x: Syntax) { x.WordTrue? || x.WordFalse? || x.Num? || x.Str? }

  /** The setting a literal of the JSON grammar stands for. */
  function Meant(x: Syntax): Setting
    requires Literal(x) && (x.Num? ==> AllDigits(x.whole)) && (x.Str? ==> CharsOk(x.chars))
  {
    match x
    case WordTrue => Bool(true)
    case WordFalse => Bool(false)
    case Num(minus, whole, frac, exp) =>
      if frac == [] && exp == [] then Int(if minus then 0 - Horner(whole) else Horner(whole))
      else Double(NumText(minus, whole, frac, exp))
    case Str(cs) => Setting.Text(CharsValue(cs))
  }

  function MemberText(key: seq<SChar>, x: Syntax): seq<byte> {
    Chars("{") + (StrText(key) + (Chars(":") + JsonGrammar.Text(x))) + Chars("}")
  }

  /** A single member, as wsc_data_create_from_json reads it. */
  lemma LeafImported(key: seq<SChar>, x: Syntax, overflows: seq<byte> -> bool)
    requires CharsOk(key) && 0 !in CharsValue(key) && Literal(x) && Ok(x, LoadFlags(overflows))
    requires IsUtf8(MemberText(key, x))
    ensures CreateFromJson(MemberText(key, x), overflows) == Some([Entry(CharsValue(key), Alone(Meant(x)))])
  {
    hide JsonParse.Load, StrText, CharsValue, CharsOk, NumText, Horner, JsonGrammar.Text, SetUser;
    var opt := LoadFlags(overflows);
    MemberDocument(key, x, opt);
    LiteralMeans(x, opt);
    var k, j := CharsValue(key), JsonGrammar.Value(x, opt);
    DocumentComplete(Document([], Obj([], APair([], key, [], [], x, [], NoPair)), []), opt);
    var e := Entry(k, j);
    var ms := [e];
    assert ms[..0] == [] && AddMembers([], []) == [];
    assert AddMembers([], [e]) == AddItem([], k, j) == SetUser([], k, Meant(x));
    OneSet(k, Meant(x));
  }

  lemma OneSet(name: Key, s: Setting)
    ensures SetUser([], name, s) == [Entry(name, Alone(s))]
  {
    assert Insert(Entry(name, Alone(s)), []) == [Entry(name, Alone(s))];
  }

  lemma LiteralMeans(x: Syntax, opt: Options)
    requires Literal(x) && Ok(x, opt) && !opt.intAsReal
    ensures (x.Num? ==> AllDigits(x.whole)) && (x.Str? ==> CharsOk(x.chars))
    ensures !JsonGrammar.Value(x, opt).Null? && FromJson(JsonGrammar.Value(x, opt)) == Meant(x) && Depth(x) == 1
  {
    hide Horner, NumText, CharsValue;
  }

  lemma MemberDocument(key: seq<SChar>, x: Syntax, opt: Options)
    requires CharsOk(key) && 0 !in CharsValue(key) && Literal(x) && Ok(x, opt)
    ensures var doc := Document([], Obj([], APair([], key, [], [], x, [], NoPair)), []);
      && DocumentText(doc) == MemberText(key, x) && DocumentOk(doc, opt)
      && JsonGrammar.Value(doc.value, opt) == Object([Entry(CharsValue(key), JsonGrammar.Value(x, opt))])
  {
    hide StrText, CharsValue, CharsOk, JsonGrammar.Text, NumText, Horner;
    var ps := APair([], key, [], [], x, [], NoPair);
    var k, v := CharsValue(key), JsonGrammar.Value(x, opt);
    MemberLayout(key, x);
    assert Depth(x) == 1;
    assert PairsOk(NoPair, {} + {k}, opt) && PairsOk(ps, {}, opt) && PairsDepth(ps) == 1;
    assert Set([], k, v) == [Entry(k, v)];
    assert PairsValue(ps, [], {}, opt) == [Entry(k, v)];
  }

  lemma MemberLayout(key: seq<SChar>, x: Syntax)
    ensures DocumentText(Document([], Obj([], APair([], key, [], [], x, [], NoPair)), [])) == MemberText(key, x)
  {
    hide StrText, JsonGrammar.Text;
    var ps := APair([], key, [], [], x, [], NoPair);
    var k, t := StrText(key), JsonGrammar.Text(x);
    NothingAround([58] + t, t, [58]);
    assert PairsText(ps) == k + ([58] + t);
    ObjectText(ps);
    assert Chars("{") == [123] && Chars(":") == [58] && Chars("}") == [125];
  }

  lemma ObjectText(ps: Pairs)
    requires ps.APair?
    ensures JsonGrammar.Text(Obj([], ps)) == [123] + PairsText(ps) + [125]
  {
    hide PairsText;
  }

  lemma NothingAround(a: seq<byte>, b: seq<byte>, c: seq<byte>)
    ensures [] + a == a && [] + c == c && [] + (b + ([] + [])) == b
  {
    assert b + [] == b;
  }

  /** Settings are not read from a text with a repeated key. */
  lemma RepeatedNameRefused(key: seq<SChar>, x: Syntax, tail: seq<byte>, overflows: seq<byte> -> bool)
    requires CharsOk(key) && Ok(x, LoadFlags(overflows)) && Depth(x) < MAX_DEPTH
    requires IsUtf8(JsonLimits.KeyTwice(key, x, tail))
    ensures CreateFromJson(JsonLimits.KeyTwice(key, x, tail), overflows) == None
  {
    hide JsonParse.Load;
    JsonLimits.RepeatedKeyRefused(key, x, tail, LoadFlags(overflows));
  }

  // ---- Arrays ----

  /** Whatever stands around it, an element of an array is kept in its place if it is an object and dropped if not. */
  lemma {:induction false} ElementKept(before: seq<Json>, j: Json, after: seq<Json>)
    ensures AddObjects(before + [j] + after)
         == AddObjects(before) + (if j.Object? then [Store(AddMembers([], j.members))] else []) + AddObjects(after)
  {
    var items := before + [j] + after;
    if before == [] {
      assert items[1..] == after && items[0] == j;
    } else {
      hide AddMembers;
      assert items[0] == before[0] && items[1..] == before[1..] + [j] + after;
      ElementKept(before[1..], j, after);
    }
  }

  /** An array of objects is written object by object, each in its place. */
  lemma {:induction false} ElementWritten(ds: seq<Store>, m: Machine, i: nat)
    requires i < |ds| && ExportAll(ds, m).Some?
    ensures Export(ds[i].data, m).Some? && ExportAll(ds, m).value[i] == Object(Export(ds[i].data, m).value)
  {
    if i > 0 {
      ElementWritten(ds[1..], m, i - 1);
    }
  }

  /** Bytes read as a value of a direct type are written as that value would be. */
  lemma ForeignWrittenAsRead(kind: Kind, s: Setting, m: Machine)
    requires Direct(kind) && Typed(m)
    ensures ForeignJson(kind, s, m) == ToJson(m(kind, s), m)
  {
  }
}
