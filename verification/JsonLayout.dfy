/**
  * The blanks, brackets and bytes of a dumped text, read back by an automaton that knows only the
  * text: where blanks stand outside strings, and how deep each line is indented.
  */
module JsonLayout {
  import opened Bytes
  import opened Utf8
  import opened OrderedMap
  import opened JsonValue
  import opened SortedMap
  import opened JsonDump
  import opened JsonEscapes
  import opened JsonRoundTrip

  // ---- The automaton ----

  /**
    * Where a scan stands: before a value, inside or behind a token, behind an opening bracket, a
    * comma or a colon, in the blanks of a line (at its end before a closing bracket or not), or in a
    * string.
    */
  datatype Mode =
    | Fresh
    | Token
    | Opened
    | Comma
    | Colon
    | Line(blanks: nat, closes: bool)
    | Quoted
    | Escaped

  /** depth counts the brackets open outside strings. */
  datatype At = At(mode: Mode, depth: nat)

  predicate Opens(b: byte) { b == '[' as int || b == '{' as int }

  predicate Closes(b: byte) { b == ']' as int || b == '}' as int }

  /** A byte outside strings that is no blank. */
  function TokenByte(depth: nat, b: byte): Option<At> {
    if b == '\"' as int then Some(At(Quoted, depth))
    else if Opens(b) then Some(At(Opened, depth + 1))
    else if Closes(b) then (if depth > 0 then Some(At(Token, depth - 1)) else None)
    else if b == ',' as int then Some(At(Comma, depth))
    else if b == ':' as int then Some(At(Colon, depth))
    else if b <= ' ' as int then None
    else Some(At(Token, depth))
  }

  /** One byte; None where a blank is missing or one too many. */
  function Step(at: At, b: byte, f: Flags): Option<At> {
    var d := at.depth;
    match at.mode
    case Quoted =>
      if b < 0x20 then None
      else Some(At(if b == '\"' as int then Token else if b == '\\' as int then Escaped else Quoted, d))
    case Escaped => if b < 0x20 then None else Some(At(Quoted, d))
    case Fresh => if Closes(b) then None else TokenByte(d, b)
    case Token =>
      if f.indent == 0 then TokenByte(d, b)
      else if b == '\n' as int then Some(At(Line(0, true), d))
      else if Closes(b) then None
      else TokenByte(d, b)
    case Opened =>
      if f.indent == 0 || Closes(b) then TokenByte(d, b)
      else if b == '\n' as int then Some(At(Line(0, false), d))
      else None
    case Comma =>
      if f.indent > 0 then (if b == '\n' as int then Some(At(Line(0, false), d)) else None)
      else if f.compact then (if Closes(b) then None else TokenByte(d, b))
      else if b == ' ' as int then Some(At(Fresh, d))
      else None
    case Colon =>
      if f.compact then (if Closes(b) then None else TokenByte(d, b))
      else if b == ' ' as int then Some(At(Fresh, d))
      else None
    case Line(k, closes) =>
      if b == ' ' as int then Some(At(Line(k + 1, closes), d))
      else if closes != Closes(b) || d == 0 || k != f.indent * (if closes then d - 1 else d) then None
      else TokenByte(d, b)
  }

  function Scan(s: seq<byte>, at: At, f: Flags): Option<At> {
    if s == [] then Some(at)
    else match Step(at, s[0], f)
      case None => None
      case Some(next) => Scan(s[1..], next, f)
  }

  const START := At(Fresh, 0)

  /** A text whose blanks are exactly those the flags ask for, with its brackets matched in number. */
  predicate LaidOut(text: seq<byte>, f: Flags) { Scan(text, START, f) == Some(At(Token, 0)) }

  lemma {:induction false} ScanConcat(a: seq<byte>, b: seq<byte>, at: At, f: Flags)
    ensures Scan(a + b, at, f) == match Scan(a, at, f) case None => None case Some(next) => Scan(b, next, f)
  {
    hide Step;
    if a == [] {
      assert a + b == b;
    } else {
      assert (a + b)[0] == a[0] && (a + b)[1..] == a[1..] + b;
      if Step(at, a[0], f).Some? {
        ScanConcat(a[1..], b, Step(at, a[0], f).value, f);
      }
    }
  }

  lemma ScanOne(b: byte, at: At, f: Flags)
    ensures Scan([b], at, f) == Step(at, b, f)
  {
    hide Step;
    assert [b][1..] == [];
  }

  // ---- What a scanned text looks like ----

  /** Outside strings, before the byte at i. */
  predicate Outside(text: seq<byte>, i: nat, f: Flags)
    requires i <= |text|
  {
    Scan(text[..i], START, f).Some? && !Scan(text[..i], START, f).value.mode.Quoted?
    && !Scan(text[..i], START, f).value.mode.Escaped?
  }

  lemma StepAt(text: seq<byte>, i: nat, f: Flags)
    requires i < |text| && Scan(text, START, f).Some?
    ensures Scan(text[..i], START, f).Some?
    ensures Scan(text[..i + 1], START, f) == Step(Scan(text[..i], START, f).value, text[i], f)
    ensures Scan(text[..i + 1], START, f).Some?
  {
    hide Step;
    var upto, here := text[..i], [text[i]];
    assert text[..i + 1] == upto + here;
    assert text == upto + here + text[i + 1..];
    ScanConcat(upto + here, text[i + 1..], START, f);
    ScanConcat(upto, here, START, f);
    if Scan(upto, START, f).Some? {
      ScanOne(text[i], Scan(upto, START, f).value, f);
    }
  }

  /** Without indentation no line is ever begun. */
  lemma {:induction false} NoLine(s: seq<byte>, at: At, f: Flags)
    requires f.indent == 0 && !at.mode.Line?
    ensures Scan(s, at, f).Some? ==> !Scan(s, at, f).value.mode.Line?
  {
    if s != [] && Step(at, s[0], f).Some? {
      NoLine(s[1..], Step(at, s[0], f).value, f);
    }
  }

  /** Compact and without indentation there is no blank and no control character outside strings. */
  lemma NoBlankOutside(text: seq<byte>, f: Flags, i: nat)
    requires LaidOut(text, f) && f.compact && f.indent == 0
    requires i < |text| && Outside(text, i, f)
    ensures text[i] > ' ' as int
  {
    StepAt(text, i, f);
    NoLine(text[..i], START, f);
  }

  /** Without indentation and not compact, one blank follows every comma and colon, and none stands elsewhere. */
  lemma OneBlankBehind(text: seq<byte>, f: Flags, i: nat)
    requires LaidOut(text, f) && !f.compact && f.indent == 0
    requires 0 < i < |text| && Outside(text, i - 1, f) && Outside(text, i, f)
    ensures text[i] <= ' ' as int <==> text[i - 1] == ',' as int || text[i - 1] == ':' as int
    ensures text[i] <= ' ' as int ==> text[i] == ' ' as int
  {
    StepAt(text, i - 1, f);
    StepAt(text, i, f);
    NoLine(text[..i - 1], START, f);
    NoLine(text[..i], START, f);
  }

  /** The brackets open outside strings before the byte at i. */
  function DepthAt(text: seq<byte>, i: nat, f: Flags): nat
    requires i <= |text| && Scan(text[..i], START, f).Some?
  {
    Scan(text[..i], START, f).value.depth
  }

  predicate Blanks(text: seq<byte>, from: nat, to: nat)
    requires from <= to <= |text|
  {
    forall i :: from <= i < to ==> text[i] == ' ' as int
  }

  lemma {:induction false} RestOfLine(text: seq<byte>, f: Flags, p: nat) returns (q: nat)
    requires LaidOut(text, f) && p <= |text|
    requires Scan(text[..p], START, f).Some? && Scan(text[..p], START, f).value.mode.Line?
    ensures p <= q < |text| && Blanks(text, p, q) && text[q] > ' ' as int
    ensures var at := Scan(text[..p], START, f).value;
      && at.depth > 0 && at.mode.closes == Closes(text[q])
      && at.mode.blanks + (q - p) == f.indent * (if Closes(text[q]) then at.depth - 1 else at.depth)
    decreases |text| - p
  {
    assert text[..|text|] == text;
    StepAt(text, p, f);
    q := p;
    if text[p] == ' ' as int {
      q := RestOfLine(text, f, p + 1);
    }
  }

  /**
    * Every line break stands outside strings, and the line behind it begins with exactly indent
    * blanks for each bracket open there, where a closing bracket at its start counts as closed.
    */
  lemma LineIndent(text: seq<byte>, f: Flags, i: nat) returns (q: nat)
    requires LaidOut(text, f) && i < |text| && text[i] == '\n' as int
    ensures f.indent > 0 && Outside(text, i, f)
    ensures i < q < |text| && Blanks(text, i + 1, q) && text[q] > ' ' as int
    ensures DepthAt(text, i, f) > 0
    ensures q - (i + 1) == f.indent * (DepthAt(text, i, f) - (if Closes(text[q]) then 1 else 0))
  {
    StepAt(text, i, f);
    if f.indent == 0 {
      NoLine(text[..i], START, f);
    }
    q := RestOfLine(text, f, i + 1);
  }

  /**
    * With indentation, a line ends behind every comma and opening bracket and before every closing
    * one, but none between the two brackets of an empty value; a colon is followed by one blank,
    * or by none when compact.
    */
  lemma LineEnds(text: seq<byte>, f: Flags, i: nat)
    requires LaidOut(text, f) && f.indent > 0
    requires 0 < i < |text| && Outside(text, i - 1, f) && Outside(text, i, f)
    ensures text[i - 1] == ',' as int ==> text[i] == '\n' as int
    ensures Opens(text[i - 1]) ==> text[i] == '\n' as int || Closes(text[i])
    ensures Closes(text[i]) ==> Opens(text[i - 1]) || text[i - 1] == ' ' as int || text[i - 1] == '\n' as int
    ensures text[i - 1] == ':' as int ==> (text[i] == ' ' as int <==> !f.compact) && text[i] != '\n' as int
  {
    StepAt(text, i - 1, f);
    StepAt(text, i, f);
  }

  // ---- Pieces of a text ----

  /** A piece of a text between two places of the scan, with what the flags promise of its bytes. */
  predicate Fits(s: seq<byte>, from: At, to: At, f: Flags) { Scan(s, from, f) == Some(to) && Clean(s, f) }

  lemma FitsConcat(a: seq<byte>, b: seq<byte>, p: At, q: At, r: At, f: Flags)
    requires Fits(a, p, q, f) && Fits(b, q, r, f)
    ensures Fits(a + b, p, r, f)
  {
    hide Scan, Clean;
    ScanConcat(a, b, p, f);
    CleanConcat(a, b, f);
  }

  lemma FitsOne(b: byte, at: At, f: Flags)
    requires Step(at, b, f).Some? && b < 0x80 && b != '/' as int
    ensures Fits([b], at, Step(at, b, f).value, f)
  {
    hide Step;
    ScanOne(b, at, f);
  }

  /** A byte of a number or a word. */
  predicate WordByte(b: byte) { Digit(b) || Alpha(b) || b == '+' as int || b == '-' as int || b == '.' as int }

  predicate Word(s: seq<byte>) { s != [] && forall i :: 0 <= i < |s| ==> WordByte(s[i]) }

  lemma {:induction false} WordFits(s: seq<byte>, at: At, f: Flags)
    requires Word(s) && (at.mode.Fresh? || at.mode.Token?)
    ensures Fits(s, at, At(Token, at.depth), f)
  {
    FitsOne(s[0], at, f);
    assert Step(at, s[0], f) == Some(At(Token, at.depth));
    hide Fits, Step, WordByte;
    if |s| > 1 {
      WordFits(s[1..], At(Token, at.depth), f);
      FitsConcat([s[0]], s[1..], at, At(Token, at.depth), At(Token, at.depth), f);
      assert s == [s[0]] + s[1..];
    } else {
      assert s == [s[0]];
    }
  }

  lemma {:induction false} SpacesFit(m: nat, k: nat, closes: bool, d: nat, f: Flags)
    ensures Fits(Spaces(m), At(Line(k, closes), d), At(Line(k + m, closes), d), f)
  {
    if m > 0 {
      FitsOne(32, At(Line(k, closes), d), f);
      SpacesFit(m - 1, k + 1, closes, d, f);
      hide Fits;
      FitsConcat([32], Spaces(m - 1), At(Line(k, closes), d), At(Line(k + 1, closes), d), At(Line(k + m, closes), d),
        f);
      assert Spaces(m) == [32] + Spaces(m - 1);
    }
  }

  /** A place where a value may begin. */
  predicate Ready(at: At, f: Flags) {
    match at.mode
    case Fresh => true
    case Opened => f.indent == 0
    case Comma => f.indent == 0 && f.compact
    case Colon => f.compact
    case Line(k, closes) => !closes && at.depth > 0 && k == f.indent * at.depth
    case _ => false
  }

  /** A first byte of a value. */
  predicate Begins(s: seq<byte>) { s != [] && s[0] > ' ' as int && !Closes(s[0]) }

  lemma ReadyFits(s: seq<byte>, at: At, to: At, f: Flags)
    requires Begins(s) && Ready(at, f) && Fits(s, At(Fresh, at.depth), to, f)
    ensures Fits(s, at, to, f)
  {
    assert Step(at, s[0], f) == Step(At(Fresh, at.depth), s[0], f);
    hide Step;
  }

  // ---- Strings ----

  predicate Raws(s: seq<byte>) { forall i :: 0 <= i < |s| ==> s[i] >= 0x20 && s[i] != '\"' as int && s[i] != '\\' as int }

  lemma {:induction false} RawsScan(s: seq<byte>, d: nat, f: Flags)
    requires Raws(s)
    ensures Scan(s, At(Quoted, d), f) == Some(At(Quoted, d))
  {
    if s != [] {
      RawsScan(s[1..], d, f);
    }
  }

  lemma EscapeScan(x: byte, s: seq<byte>, d: nat, f: Flags)
    requires x >= 0x20 && Raws(s)
    ensures Scan([92, x] + s, At(Quoted, d), f) == Some(At(Quoted, d))
  {
    RawsScan(s, d, f);
    assert ([92, x] + s)[1..] == [x] + s && ([x] + s)[1..] == s;
    assert Scan([x] + s, At(Escaped, d), f) == Scan(s, At(Quoted, d), f);
  }

  lemma FourRaw(v: nat)
    requires v < 0x10000
    ensures Raws(Hex4Text(v))
  {
  }

  lemma ShownScan(cp: int, d: nat, f: Flags)
    requires Scalar(cp)
    ensures Scan(Shown(cp, f), At(Quoted, d), f) == Some(At(Quoted, d))
  {
    EscapeShown(cp, f);
    hide Shown, Scan, Hex4Text, Step;
    if !NeedsEscape(cp, f) {
      PlainCharacter(cp);
      RawsScan(Encode(cp), d, f);
    } else if ShortLetter(cp).Some? {
      EscapeScan(ShortLetter(cp).value, [], d, f);
      assert [92, ShortLetter(cp).value] + [] == [92, ShortLetter(cp).value];
    } else if cp < 0x10000 {
      FourRaw(cp);
      EscapeScan(117, Hex4Text(cp), d, f);
    } else {
      var high, low := Hex4Text(0xD800 + (cp - 0x10000) / 1024), Hex4Text(0xDC00 + (cp - 0x10000) % 1024);
      FourRaw(0xD800 + (cp - 0x10000) / 1024);
      FourRaw(0xDC00 + (cp - 0x10000) % 1024);
      EscapeScan(117, high, d, f);
      EscapeScan(117, low, d, f);
      ScanConcat([92, 117] + high, [92, 117] + low, At(Quoted, d), f);
    }
  }

  lemma {:induction false} ShownAllFits(cps: seq<int>, d: nat, f: Flags)
    requires Scalars(cps)
    ensures Fits(ShownAll(cps, f), At(Quoted, d), At(Quoted, d), f)
  {
    if cps != [] {
      hide Shown, Scan, Clean;
      ShownScan(cps[0], d, f);
      ShownClean(cps[0], f);
      ShownAllFits(cps[1..], d, f);
      FitsConcat(Shown(cps[0], f), ShownAll(cps[1..], f), At(Quoted, d), At(Quoted, d), At(Quoted, d), f);
    }
  }

  lemma StringFits(s: seq<byte>, d: nat, f: Flags)
    requires IsUtf8(s)
    ensures StringOut(s, f).ok && Begins(StringOut(s, f).text)
    ensures Fits(StringOut(s, f).text, At(Fresh, d), At(Token, d), f)
  {
    hide ShownAll, StringOut, EncodeAll, Fits;
    var cps :| Scalars(cps) && EncodeAll(cps) == s;
    StringShown(cps, f);
    ShownAllFits(cps, d, f);
    FitsOne(34, At(Fresh, d), f);
    FitsOne(34, At(Quoted, d), f);
    FitsConcat([34], ShownAll(cps, f), At(Fresh, d), At(Quoted, d), At(Quoted, d), f);
    FitsConcat([34] + ShownAll(cps, f), [34], At(Fresh, d), At(Quoted, d), At(Token, d), f);
  }

  // ---- Values ----

  /** What the constructors of value.c let through: UTF-8 strings and keys, and reals as printf spells them. */
  ghost predicate Writable(j: Json) {
    match j
    case Real(t) => Word(t)
    case String(s) => IsUtf8(s)
    case Array(items) => forall i :: 0 <= i < |items| ==> Writable(items[i])
    case Object(ms) => MembersWritable(ms)
    case _ => true
  }

  ghost predicate MembersWritable(ms: seq<Entry<Json>>) {
    forall i :: 0 <= i < |ms| ==> IsUtf8(ms[i].key) && Writable(ms[i].value)
  }

  /** A bracket and the break behind it leave the scan where a value may begin. */
  lemma OpenFits(open: byte, d: nat, f: Flags) returns (at: At)
    requires Opens(open)
    ensures Ready(at, f) && at.depth == d + 1
    ensures Fits([open] + IndentText(f, d + 1, false), At(Fresh, d), at, f)
  {
    hide Fits;
    FitsOne(open, At(Fresh, d), f);
    at := At(Opened, d + 1);
    if f.indent > 0 {
      NewLine(f, d + 1, false, at);
      FitsConcat([open], IndentText(f, d + 1, false), At(Fresh, d), at, At(Line(f.indent * (d + 1), false), d + 1), f);
      at := At(Line(f.indent * (d + 1), false), d + 1);
    } else {
      assert [open] + [] == [open];
    }
  }

  /** A line break with its blanks. */
  lemma NewLine(f: Flags, d: nat, closes: bool, at: At)
    requires f.indent > 0 && Step(at, 10, f) == Some(At(Line(0, closes), at.depth))
    ensures forall space :: Fits(IndentText(f, d, space), at, At(Line(f.indent * d, closes), at.depth), f)
  {
    FitsOne(10, at, f);
    SpacesFit(d * f.indent, 0, closes, at.depth, f);
    FitsConcat([10], Spaces(d * f.indent), at, At(Line(0, closes), at.depth),
      At(Line(d * f.indent, closes), at.depth), f);
  }

  lemma BehindFits(last: bool, close: byte, f: Flags, d: nat) returns (at: At)
    requires Closes(close)
    ensures Fits(Behind(last, close, f, d), At(Token, d + 1), at, f)
    ensures if last then at == At(Token, d) else Ready(at, f) && at.depth == d + 1
  {
    hide Fits;
    var token := At(Token, d + 1);
    if last {
      at := At(Token, d);
      if f.indent > 0 {
        NewLine(f, d, true, token);
        FitsOne(close, At(Line(f.indent * d, true), d + 1), f);
        FitsConcat(IndentText(f, d, false), [close], token, At(Line(f.indent * d, true), d + 1), at, f);
      } else {
        FitsOne(close, token, f);
        assert [] + [close] == [close];
      }
    } else {
      var comma := At(Comma, d + 1);
      FitsOne(44, token, f);
      if f.indent > 0 {
        NewLine(f, d + 1, false, comma);
        at := At(Line(f.indent * (d + 1), false), d + 1);
        FitsConcat([44], IndentText(f, d + 1, true), token, comma, at, f);
      } else if f.compact {
        at := comma;
        assert [44] + [] == [44];
      } else {
        at := At(Fresh, d + 1);
        FitsOne(32, comma, f);
        FitsConcat([44], [32], token, comma, at, f);
      }
    }
  }

  lemma SeparatorFits(f: Flags, d: nat) returns (at: At)
    ensures Ready(at, f) && at.depth == d && Fits(Separator(f), At(Token, d), at, f)
  {
    hide Fits;
    FitsOne(58, At(Token, d), f);
    at := At(Colon, d);
    if !f.compact {
      FitsOne(32, at, f);
      FitsConcat([58], [32], At(Token, d), at, At(Fresh, d), f);
      assert [58] + [32] == [58, 32];
      at := At(Fresh, d);
    }
  }

  lemma LeafFits(j: Json, f: Flags, d: nat)
    requires Writable(j) && !j.Array? && !j.Object?
    ensures Plain(j, f, d).Some? && Begins(Plain(j, f, d).value)
    ensures Fits(Plain(j, f, d).value, At(Fresh, d), At(Token, d), f)
  {
    if j.String? {
      hide Fits, StringOut;
      StringFits(j.text, d, f);
    } else {
      assert Word(Plain(j, f, d).value) by {
        if j.Integer? {
          IntegerWord(j.value);
        }
      }
      WordFits(Plain(j, f, d).value, At(Fresh, d), f);
    }
  }

  lemma IntegerWord(i: int)
    ensures Word(IntegerText(i))
  {
    hide Decimal;
    DecimalBack(if i < 0 then -i else i);
  }

  /** A dumped value is laid out, from the place where it begins to the place behind it. */
  lemma {:induction false} ValueFits(j: Json, f: Flags, d: nat)
    requires Writable(j)
    ensures Plain(j, f, d).Some? && Begins(Plain(j, f, d).value)
    ensures Fits(Plain(j, f, d).value, At(Fresh, d), At(Token, d), f)
    decreases j, 1
  {
    hide Fits, PlainItems, PlainMembers, IndentText;
    if j.Array? || j.Object? {
      var open: byte := if j.Array? then 91 else 123;
      var close: byte := if j.Array? then 93 else 125;
      if (if j.Array? then j.items == [] else j.members == []) {
        FitsOne(open, At(Fresh, d), f);
        FitsOne(close, At(Opened, d + 1), f);
        FitsConcat([open], [close], At(Fresh, d), At(Opened, d + 1), At(Token, d), f);
        assert [open] + [close] == [open, close];
      } else {
        var at := OpenFits(open, d, f);
        var inner;
        if j.Array? {
          ItemsFit(j.items, f, d);
          inner := PlainItems(j.items, f, d).value;
        } else {
          MembersFit(j.members, f, d);
          inner := PlainMembers(j.members, f, d).value;
        }
        ReadyFits(inner, at, At(Token, d), f);
        FitsConcat([open] + IndentText(f, d + 1, false), inner, At(Fresh, d), at, At(Token, d), f);
      }
    } else {
      LeafFits(j, f, d);
    }
  }

  lemma {:induction false} ItemsFit(items: seq<Json>, f: Flags, d: nat)
    requires items != [] && forall i :: 0 <= i < |items| ==> Writable(items[i])
    ensures PlainItems(items, f, d).Some? && Begins(PlainItems(items, f, d).value)
    ensures Fits(PlainItems(items, f, d).value, At(Fresh, d + 1), At(Token, d), f)
    decreases items, 0
  {
    hide Fits, Plain, Behind, Writable, Ready;
    ValueFits(items[0], f, d + 1);
    var t := Plain(items[0], f, d + 1).value;
    var last := |items| == 1;
    var at := BehindFits(last, 93, f, d);
    FitsConcat(t, Behind(last, 93, f, d), At(Fresh, d + 1), At(Token, d + 1), at, f);
    if last {
      assert items[1..] == [];
      assert t + Behind(true, 93, f, d) + [] == t + Behind(true, 93, f, d);
    } else {
      ItemsFit(items[1..], f, d);
      var rest := PlainItems(items[1..], f, d).value;
      ReadyFits(rest, at, At(Token, d), f);
      FitsConcat(t + Behind(last, 93, f, d), rest, At(Fresh, d + 1), at, At(Token, d), f);
    }
  }

  lemma {:induction false} MembersFit(ms: seq<Entry<Json>>, f: Flags, d: nat)
    requires ms != [] && MembersWritable(ms)
    ensures PlainMembers(ms, f, d).Some? && Begins(PlainMembers(ms, f, d).value)
    ensures Fits(PlainMembers(ms, f, d).value, At(Fresh, d + 1), At(Token, d), f)
    decreases ms, 0
  {
    hide Fits, Plain, Behind, Writable, Ready, StringOut, Separator;
    ValueFits(ms[0].value, f, d + 1);
    StringFits(ms[0].key, d + 1, f);
    var key, t := StringOut(ms[0].key, f).text, Plain(ms[0].value, f, d + 1).value;
    var last := |ms| == 1;
    var colon := SeparatorFits(f, d + 1);
    var at := BehindFits(last, 125, f, d);
    var start, token := At(Fresh, d + 1), At(Token, d + 1);
    ReadyFits(t, colon, token, f);
    FitsConcat(key, Separator(f), start, token, colon, f);
    FitsConcat(key + Separator(f), t, start, colon, token, f);
    var member := key + Separator(f) + t + Behind(last, 125, f, d);
    FitsConcat(key + Separator(f) + t, Behind(last, 125, f, d), start, token, at, f);
    if last {
      assert ms[1..] == [];
      assert member + [] == member;
    } else {
      MembersFit(ms[1..], f, d);
      var rest := PlainMembers(ms[1..], f, d).value;
      ReadyFits(rest, at, At(Token, d), f);
      FitsConcat(member, rest, start, at, At(Token, d), f);
    }
  }

  // ---- Whole texts ----

  lemma {:induction false} CanonWritable(j: Json, f: Flags)
    requires Writable(j)
    ensures Writable(Canon(j, f))
  {
    hide CanonMembers, CanonItems;
    match j
    case Array(items) =>
      forall i | 0 <= i < |items|
        ensures Writable(CanonItems(items, f)[i])
      {
        CanonWritable(items[i], f);
      }
    case Object(ms) =>
      forall i | 0 <= i < |ms|
        ensures Writable(CanonMembers(ms, f)[i].value)
      {
        CanonWritable(ms[i].value, f);
      }
      var c := CanonMembers(ms, f);
      assert MembersWritable(c);
      SortSorts(c);
      PermutedWritable(c, Sort(c));
    case _ =>
  }

  lemma PermutedWritable(a: seq<Entry<Json>>, b: seq<Entry<Json>>)
    requires multiset(a) == multiset(b) && MembersWritable(a)
    ensures MembersWritable(b)
  {
    hide Writable;
    forall i | 0 <= i < |b|
      ensures IsUtf8(b[i].key) && Writable(b[i].value)
    {
      assert b[i] in multiset(a);
      assert b[i] in a;
    }
  }

  /**
    * Every dump is laid out by its flags; under ensureAscii all of it is ASCII, and under
    * escapeSlash every slash has a backslash in front.
    */
  lemma DumpLaidOut(j: Json, f: Flags)
    requires Writable(j) && (f.encodeAny || j.Array? || j.Object?)
    ensures Dumps(j, f).Some? && LaidOut(Dumps(j, f).value, f) && Clean(Dumps(j, f).value, f)
  {
    hide Plain, Canon, Writable, Scan, Clean;
    CanonWritable(j, f);
    ValueFits(Canon(j, f), f, 0);
  }
}
