/** The printer of dump.c: escapes, indentation and key order. */
module JsonDump {
  import opened Bytes
  import opened Utf8
  import opened OrderedMap
  import opened JsonValue
  import opened SortedMap

  /** The dump flags; indent is between 0 and 31. */
  datatype Flags = Flags(indent: nat, compact: bool, ensureAscii: bool, sortKeys: bool, escapeSlash: bool, encodeAny: bool)

  // ---- Strings ----

  function HexChar(v: int): byte
    requires 0 <= v < 16
  {
    if v < 10 then 48 + v else 55 + v
  }

  /** %04X */
  function Hex4Text(v: int): seq<byte>
    requires 0 <= v < 0x10000
  {
    [HexChar(v / 4096), HexChar(v / 256 % 16), HexChar(v / 16 % 16), HexChar(v % 16)]
  }

  predicate NeedsEscape(cp: int, f: Flags) {
    cp == 92 || cp == 34 || cp < 0x20 || (f.escapeSlash && cp == 47) || (f.ensureAscii && cp > 0x7F)
  }

  function ShortLetter(cp: int): Option<byte> {
    if cp == 92 then Some(92) else if cp == 34 then Some(34) else if cp == 8 then Some(98)
    else if cp == 12 then Some(102) else if cp == 10 then Some(110) else if cp == 13 then Some(114)
    else if cp == 9 then Some(116) else if cp == 47 then Some(47) else None
  }

  function EscapeText(cp: int): seq<byte>
    requires Scalar(cp)
  {
    if ShortLetter(cp).Some? then [92, ShortLetter(cp).value]
    else if cp < 0x10000 then [92, 117] + Hex4Text(cp)
    else
      var c := cp - 0x10000;
      [92, 117] + Hex4Text(0xD800 + c / 1024) + ([92, 117] + Hex4Text(0xDC00 + c % 1024))
  }

  /** What a dump writes, and whether it succeeds. */
  datatype Written = Written(text: seq<byte>, ok: bool)

  function After(a: seq<byte>, w: Written): Written { Written(a + w.text, w.ok) }

  /**
    * The body of a dumped string. The run of plain characters before an escape or the end is
    * written in one piece, so a malformed character loses the run in front of it.
    */
  function StringBody(s: seq<byte>, run: seq<byte>, f: Flags): Written
    decreases |s|
  {
    if s == [] then Written(run, true)
    else match First(s)
      case None => Written([], false)
      case Some(c) =>
        EncodeOfFirst(s);
        if NeedsEscape(c.0, f) then After(run + EscapeText(c.0), StringBody(s[c.1..], [], f))
        else StringBody(s[c.1..], run + s[..c.1], f)
  }

  function StringOut(s: seq<byte>, f: Flags): Written {
    var w := StringBody(s, [], f);
    Written([34] + w.text + (if w.ok then [34] else []), w.ok)
  }

  // ---- Numbers, blanks ----

  function Decimal(n: nat): seq<byte> {
    (if n < 10 then [] else Decimal(n / 10)) + [48 + n % 10]
  }

  /** %lld */
  function IntegerText(i: int): seq<byte> {
    if i < 0 then [45] + Decimal(-i) else Decimal(i)
  }

  function Spaces(n: nat): seq<byte> { seq(n, _ => 32) }

  function IndentText(f: Flags, depth: nat, space: bool): seq<byte> {
    if f.indent > 0 then [10] + Spaces(depth * f.indent)
    else if space && !f.compact then [32]
    else []
  }

  function Separator(f: Flags): seq<byte> { if f.compact then [58] else [58, 32] }

  /** The value in the order it is written: with sorted keys, every object's members are sorted. */
  function Canon(j: Json, f: Flags): Json
    decreases j, 2
  {
    match j
    case Array(items) => Array(CanonItems(items, f))
    case Object(members) => Object(CanonObject(members, f))
    case _ => j
  }

  function CanonObject(members: seq<Entry<Json>>, f: Flags): (r: seq<Entry<Json>>)
    ensures |r| == |members|
    decreases members, 1
  {
    if f.sortKeys then Sort(CanonMembers(members, f)) else CanonMembers(members, f)
  }

  function CanonItems(items: seq<Json>, f: Flags): (r: seq<Json>)
    ensures |r| == |items| && forall i :: 0 <= i < |items| ==> r[i] == Canon(items[i], f)
    decreases items, 0
  {
    if items == [] then [] else [Canon(items[0], f)] + CanonItems(items[1..], f)
  }

  function CanonMembers(members: seq<Entry<Json>>, f: Flags): (r: seq<Entry<Json>>)
    ensures |r| == |members| && forall i :: 0 <= i < |members| ==>
      r[i] == Entry(members[i].key, Canon(members[i].value, f))
    decreases members, 0
  {
    if members == [] then [] else [Entry(members[0].key, Canon(members[0].value, f))] + CanonMembers(members[1..], f)
  }

  // ---- Values ----

  function Prefixed(a: seq<byte>, r: Option<seq<byte>>): Option<seq<byte>> {
    match r
    case None => None
    case Some(s) => Some(a + s)
  }

  /** The text of a value at a depth, members as they stand; None where a string value is not UTF-8. */
  function Plain(j: Json, f: Flags, depth: nat): Option<seq<byte>>
    decreases j
  {
    match j
    case Null => Some([110, 117, 108, 108])
    case True => Some([116, 114, 117, 101])
    case False => Some([102, 97, 108, 115, 101])
    case Integer(i) => Some(IntegerText(i))
    case Real(t) => Some(t)
    case String(s) => if StringOut(s, f).ok then Some(StringOut(s, f).text) else None
    case Array(items) =>
      if items == [] then Some([91, 93])
      else Prefixed([91] + IndentText(f, depth + 1, false), PlainItems(items, f, depth))
    case Object(members) =>
      if members == [] then Some([123, 125])
      else Prefixed([123] + IndentText(f, depth + 1, false), PlainMembers(members, f, depth))
  }

  /** What stands behind an item or member: a comma and a break, or a break and the closing bracket. */
  function Behind(last: bool, close: byte, f: Flags, depth: nat): seq<byte> {
    if last then IndentText(f, depth, false) + [close] else [44] + IndentText(f, depth + 1, true)
  }

  /** The items from here on, with the closing bracket. */
  function PlainItems(items: seq<Json>, f: Flags, depth: nat): Option<seq<byte>>
    decreases items
  {
    if items == [] then Some([])
    else match Plain(items[0], f, depth + 1)
      case None => None
      case Some(t) => Prefixed(t + Behind(|items| == 1, 93, f, depth), PlainItems(items[1..], f, depth))
  }

  function PlainMembers(members: seq<Entry<Json>>, f: Flags, depth: nat): Option<seq<byte>>
    decreases members
  {
    if members == [] then Some([])
    else match Plain(members[0].value, f, depth + 1)
      case None => None
      case Some(t) =>
        Prefixed(StringOut(members[0].key, f).text + Separator(f) + t + Behind(|members| == 1, 125, f, depth),
                 PlainMembers(members[1..], f, depth))
  }

  function DumpText(j: Json, f: Flags, depth: nat): Option<seq<byte>> { Plain(Canon(j, f), f, depth) }

  /** json_dumps: only arrays and objects unless any value may be encoded. */
  function Dumps(j: Json, f: Flags): Option<seq<byte>> {
    if !f.encodeAny && !j.Array? && !j.Object? then None else DumpText(j, f, 0)
  }

  /** Every object of a value has distinct keys. */
  ghost predicate Proper(j: Json) {
    match j
    case Array(items) => forall i :: 0 <= i < |items| ==> Proper(items[i])
    case Object(members) => Distinct(members) && forall i :: 0 <= i < |members| ==> Proper(members[i].value)
    case _ => true
  }
}
