/**
  * The reference grammar: sections 2 to 7 of RFC 8259 as concrete syntax trees. Text gives a
  * tree's bytes, Value its meaning, and Ok the side conditions the loader adds to the grammar.
  */
module JsonGrammar {
  import opened Bytes
  import opened Utf8
  import opened OrderedMap
  import opened JsonValue

  // ---- Blanks and numbers (sections 2 and 6) ----

  predicate Space(b: byte) { b == 32 || b == 9 || b == 10 || b == 13 }

  predicate Blank(s: seq<byte>) { forall i :: 0 <= i < |s| ==> Space(s[i]) }

  predicate AllDigits(s: seq<byte>) { forall i :: 0 <= i < |s| ==> Digit(s[i]) }

  predicate Digits(s: seq<byte>) { s != [] && AllDigits(s) }

  predicate IsInt(s: seq<byte>) { s == [48] || (Digits(s) && s[0] != 48) }

  predicate IsFrac(s: seq<byte>) { s == [] || (s[0] == 46 && Digits(s[1..])) }

  predicate ExpMark(b: byte) { b == 69 || b == 101 }

  predicate Sign(b: byte) { b == 43 || b == 45 }

  predicate IsExp(s: seq<byte>) {
    s == [] || (|s| > 1 && ExpMark(s[0]) && Digits(if Sign(s[1]) then s[2..] else s[1..]))
  }

  /** The number a run of decimal digits denotes. */
  function Horner(s: seq<byte>): nat
    requires AllDigits(s)
  {
    if s == [] then 0 else Horner(s[..|s| - 1]) * 10 + (s[|s| - 1] - 48)
  }

  function SignedBy(minus: bool, n: nat): int { if minus then 0 - n else n }

  /** The value of an optional minus sign and digits. */
  function IntValue(s: seq<byte>): int
    requires s != [] && AllDigits(if s[0] == 45 then s[1..] else s)
  {
    SignedBy(s[0] == 45, if s[0] == 45 then Horner(s[1..]) else Horner(s))
  }

  // ---- Strings (section 7) ----

  datatype SChar =
    | Raw(b: byte)
    | Short(e: byte)
    | Unit(hex: seq<byte>)
    | Pair(high: seq<byte>, low: seq<byte>)

  predicate Hex4(h: seq<byte>) { |h| == 4 && forall i :: 0 <= i < 4 ==> HexDigit(h[i]) }

  function Hex4Value(h: seq<byte>): (v: int)
    requires Hex4(h)
    ensures 0 <= v < 0x10000
  {
    ((HexValue(h[0]) * 16 + HexValue(h[1])) * 16 + HexValue(h[2])) * 16 + HexValue(h[3])
  }

  predicate High(v: int) { 0xD800 <= v <= 0xDBFF }

  predicate Low(v: int) { 0xDC00 <= v <= 0xDFFF }

  function PairValue(high: int, low: int): (v: int)
    requires High(high) && Low(low)
    ensures 0x10000 <= v <= 0x10FFFF
  {
    (high - 0xD800) * 1024 + (low - 0xDC00) + 0x10000
  }

  predicate RawByte(b: byte) { b >= 0x20 && b != 34 && b != 92 }

  predicate ShortEscape(e: byte) {
    e == 34 || e == 92 || e == 47 || e == 98 || e == 102 || e == 110 || e == 114 || e == 116
  }

  function ShortValue(e: byte): byte
    requires ShortEscape(e)
  {
    if e == 98 then 8 else if e == 102 then 12 else if e == 110 then 10
    else if e == 114 then 13 else if e == 116 then 9 else e
  }

  predicate SCharOk(c: SChar) {
    match c
    case Raw(b) => RawByte(b)
    case Short(e) => ShortEscape(e)
    case Unit(h) => Hex4(h) && !High(Hex4Value(h)) && !Low(Hex4Value(h))
    case Pair(h, l) => Hex4(h) && Hex4(l) && High(Hex4Value(h)) && Low(Hex4Value(l))
  }

  function SCharText(c: SChar): seq<byte> {
    match c
    case Raw(b) => [b]
    case Short(e) => [92, e]
    case Unit(h) => [92, 117] + h
    case Pair(h, l) => [92, 117] + h + [92, 117] + l
  }

  function SCharValue(c: SChar): seq<byte>
    requires SCharOk(c)
  {
    match c
    case Raw(b) => [b]
    case Short(e) => [ShortValue(e)]
    case Unit(h) => Encode(Hex4Value(h))
    case Pair(h, l) => Encode(PairValue(Hex4Value(h), Hex4Value(l)))
  }

  predicate CharsOk(cs: seq<SChar>) { forall i :: 0 <= i < |cs| ==> SCharOk(cs[i]) }

  function CharsText(cs: seq<SChar>): seq<byte> {
    if cs == [] then [] else SCharText(cs[0]) + CharsText(cs[1..])
  }

  function CharsValue(cs: seq<SChar>): seq<byte>
    requires CharsOk(cs)
  {
    if cs == [] then [] else SCharValue(cs[0]) + CharsValue(cs[1..])
  }

  // ---- Values, arrays and objects (sections 3 to 5) ----

  datatype Syntax =
    | WordNull
    | WordTrue
    | WordFalse
    | Num(minus: bool, whole: seq<byte>, frac: seq<byte>, exp: seq<byte>)
    | Str(chars: seq<SChar>)
    | Arr(blank: seq<byte>, elems: Elems)
    | Obj(blank: seq<byte>, pairs: Pairs)

  datatype Elems = NoElem | Elem(before: seq<byte>, item: Syntax, after: seq<byte>, others: Elems)

  datatype Pairs =
    | NoPair
    | APair(before: seq<byte>, key: seq<SChar>, mid1: seq<byte>, mid2: seq<byte>, item: Syntax, after: seq<byte>, others: Pairs)

  const NULL_TEXT: seq<byte> := [110, 117, 108, 108]
  const TRUE_TEXT: seq<byte> := [116, 114, 117, 101]
  const FALSE_TEXT: seq<byte> := [102, 97, 108, 115, 101]

  function NumText(minus: bool, whole: seq<byte>, frac: seq<byte>, exp: seq<byte>): seq<byte> {
    (if minus then [45] else []) + whole + frac + exp
  }

  function StrText(cs: seq<SChar>): seq<byte> { [34] + CharsText(cs) + [34] }

  function Text(x: Syntax): seq<byte> {
    match x
    case WordNull => NULL_TEXT
    case WordTrue => TRUE_TEXT
    case WordFalse => FALSE_TEXT
    case Num(m, w, f, e) => NumText(m, w, f, e)
    case Str(cs) => StrText(cs)
    case Arr(b, es) => [91] + (if es.NoElem? then b else ElemsText(es)) + [93]
    case Obj(b, ps) => [123] + (if ps.NoPair? then b else PairsText(ps)) + [125]
  }

  function ElemsText(es: Elems): seq<byte>
    requires es.Elem?
  {
    var more := if es.others.NoElem? then [] else [44] + ElemsText(es.others);
    es.before + (Text(es.item) + (es.after + more))
  }

  function PairsText(ps: Pairs): seq<byte>
    requires ps.APair?
  {
    var more := if ps.others.NoPair? then [] else [44] + PairsText(ps.others);
    ps.before + (StrText(ps.key) + ((ps.mid1 + [58]) + (ps.mid2 + (Text(ps.item) + (ps.after + more)))))
  }

  // ---- Side conditions ----

  predicate NumOk(minus: bool, whole: seq<byte>, frac: seq<byte>, exp: seq<byte>, opt: Options) {
    && IsInt(whole) && IsFrac(frac) && IsExp(exp)
    && if frac == [] && exp == [] && !opt.intAsReal
       then INT_MIN <= SignedBy(minus, Horner(whole)) <= INT_MAX
       else !opt.overflows(NumText(minus, whole, frac, exp))
  }

  predicate Ok(x: Syntax, opt: Options) {
    match x
    case WordNull => true
    case WordTrue => true
    case WordFalse => true
    case Num(m, w, f, e) => NumOk(m, w, f, e, opt)
    case Str(cs) => CharsOk(cs) && (opt.allowNul || 0 !in CharsValue(cs))
    case Arr(b, es) => Blank(b) && ElemsOk(es, opt)
    case Obj(b, ps) => Blank(b) && PairsOk(ps, {}, opt)
  }

  predicate ElemsOk(es: Elems, opt: Options) {
    match es
    case NoElem => true
    case Elem(b, x, a, rest) => Blank(b) && Ok(x, opt) && Blank(a) && ElemsOk(rest, opt)
  }

  /** Keys hold no NUL; with duplicates rejected, none is among those already seen. */
  predicate PairsOk(ps: Pairs, seen: set<Key>, opt: Options) {
    match ps
    case NoPair => true
    case APair(b, k, m1, m2, x, a, rest) =>
      && Blank(b) && Blank(m1) && Blank(m2) && Blank(a)
      && CharsOk(k) && 0 !in CharsValue(k)
      && (opt.rejectDuplicates ==> CharsValue(k) !in seen)
      && Ok(x, opt) && PairsOk(rest, seen + {CharsValue(k)}, opt)
  }

  function Max(a: nat, b: nat): nat { if a < b then b else a }

  /** Nesting, counting every value as one level. */
  function Depth(x: Syntax): nat {
    match x
    case Arr(_, es) => 1 + ElemsDepth(es)
    case Obj(_, ps) => 1 + PairsDepth(ps)
    case _ => 1
  }

  function ElemsDepth(es: Elems): nat {
    match es
    case NoElem => 0
    case Elem(_, x, _, rest) => Max(Depth(x), ElemsDepth(rest))
  }

  function PairsDepth(ps: Pairs): nat {
    match ps
    case NoPair => 0
    case APair(_, _, _, _, x, _, rest) => Max(Depth(x), PairsDepth(rest))
  }

  // ---- Meaning ----

  function Value(x: Syntax, opt: Options): Json
    requires Ok(x, opt)
  {
    match x
    case WordNull => Json.Null
    case WordTrue => Json.True
    case WordFalse => Json.False
    case Num(m, w, f, e) =>
      if f == [] && e == [] && !opt.intAsReal then Integer(SignedBy(m, Horner(w)))
      else Real(NumText(m, w, f, e))
    case Str(cs) => String(CharsValue(cs))
    case Arr(_, es) => Array(ElemsValue(es, opt))
    case Obj(_, ps) => Object(PairsValue(ps, [], {}, opt))
  }

  function ElemsValue(es: Elems, opt: Options): seq<Json>
    requires ElemsOk(es, opt)
  {
    if es.NoElem? then [] else [Value(es.item, opt)] + ElemsValue(es.others, opt)
  }

  /** Members are set one after another: a repeated key keeps its place and takes the later value. */
  function PairsValue(ps: Pairs, acc: seq<Entry<Json>>, seen: set<Key>, opt: Options): seq<Entry<Json>>
    requires PairsOk(ps, seen, opt)
  {
    if ps.NoPair? then acc
    else PairsValue(ps.others, Set(acc, CharsValue(ps.key), Value(ps.item, opt)), seen + {CharsValue(ps.key)}, opt)
  }

  /** A JSON text (section 2): a value between blanks. */
  datatype Document = Document(before: seq<byte>, value: Syntax, after: seq<byte>)

  function DocumentText(d: Document): seq<byte> { d.before + Text(d.value) + d.after }

  predicate DocumentOk(d: Document, opt: Options) {
    && Blank(d.before) && Blank(d.after) && Ok(d.value, opt) && Depth(d.value) <= MAX_DEPTH
    && (opt.decodeAny || d.value.Arr? || d.value.Obj?)
  }
}
