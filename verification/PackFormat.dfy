/**
  * The format language of deps/jansson/src/pack_unpack.c on its tokens: what json_pack builds and
  * what json_unpack stores.
  */
module PackFormat {
  import opened Bytes
  import opened Utf8
  import opened OrderedMap
  import opened JsonValue

  /** next_token skips these: blanks, commas and colons. */
  predicate Ignored(c: byte) {
    c == 32 || c == 9 || c == 10 || c == 44 || c == 58
  }

  function Tokens(fmt: seq<byte>): seq<byte> {
    if fmt == [] then [] else (if Ignored(fmt[0]) then [] else [fmt[0]]) + Tokens(fmt[1..])
  }

  /** The token ahead; 0 is the end of the format. */
  function Head(ts: seq<byte>): byte {
    if ts == [] then 0 else ts[0]
  }

  function Next(ts: seq<byte>): seq<byte> {
    if ts == [] then [] else ts[1..]
  }

  // ---- Packing ----

  /** The bytes of a C string: those up to the first zero, if there is one before the terminator. */
  function CString(s: seq<byte>): (r: seq<byte>)
    ensures 0 !in r && r <= s && (|r| < |s| ==> s[|r|] == 0)
  {
    if s == [] || s[0] == 0 then [] else [s[0]] + CString(s[1..])
  }

  lemma {:induction false} CStringWhole(s: seq<byte>)
    requires 0 !in s
    ensures CString(s) == s
  {
    if s != [] {
      assert s[0] in s;
      CStringWhole(s[1..]);
    }
  }

  /** One variable argument of json_pack; a text is what stands at a pointer, up to some zero or further. */
  datatype Arg =
    | AString(text: Option<seq<byte>>)
    | AInt(value: int)
    | AWide(value: int)
    | ASize(size: nat)
    | AReal(lexeme: seq<byte>)
    | AJson(json: Option<Json>)

  /** Mismatch: the arguments are not of the types the format asks for. */
  datatype Step<T, A> = Fail | Mismatch | Done(value: T, rest: seq<byte>, args: seq<A>)

  /** read_string: one string, or parts with lengths joined by '+'; no value for a null or ill-formed one. */
  function ReadString(ts: seq<byte>, args: seq<Arg>): Step<Option<seq<byte>>, Arg> {
    if Head(ts) !in [35, 37, 43] then
      if args == [] || !args[0].AString? then Mismatch
      else if args[0].text.None? || !CheckText(CString(args[0].text.value)) then Done(None, ts, args[1..])
      else Done(Some(CString(args[0].text.value)), ts, args[1..])
    else ReadParts(ts, args, [])
  }

  function ReadParts(ts: seq<byte>, args: seq<Arg>, done: seq<byte>): Step<Option<seq<byte>>, Arg>
    decreases |ts|
  {
    if args == [] || !args[0].AString? then Mismatch
    else if args[0].text.None? then Done(None, ts, args[1..])
    else
      var part := ReadPart(ts, args[0].text.value, args[1..]);
      match part
      case Fail => Fail
      case Mismatch => Mismatch
      case Done(s, ts', args') =>
        if Head(ts') == 43 && |ts'| <= |ts| then ReadParts(ts'[1..], args', done + s)
        else Done(if CheckText(done + s) then Some(done + s) else None, ts', args')
  }

  /** A part is cut to the int after '#' or the size_t after '%', or at its first zero. */
  function ReadPart(ts: seq<byte>, s: seq<byte>, args: seq<Arg>): (r: Step<seq<byte>, Arg>)
    ensures r.Done? ==> |r.rest| <= |ts|
  {
    if Head(ts) == 35 then
      if args == [] || !args[0].AInt? || !(0 <= args[0].value <= |s|) then Mismatch
        else Done(s[..args[0].value], ts[1..], args[1..])
    else if Head(ts) == 37 then
      if args == [] || !args[0].ASize? || args[0].size > |s| then Mismatch
        else Done(s[..args[0].size], ts[1..], args[1..])
    else Done(CString(s), ts, args)
  }

  lemma ReadShrinks(ts: seq<byte>, args: seq<Arg>)
    ensures ReadString(ts, args).Done? ==> |ReadString(ts, args).rest| <= |ts|
  {
    PartsShrink(ts, args, []);
  }

  lemma {:induction false} PartsShrink(ts: seq<byte>, args: seq<Arg>, done: seq<byte>)
    ensures ReadParts(ts, args, done).Done? ==> |ReadParts(ts, args, done).rest| <= |ts|
    decreases |ts|
  {
    if args != [] && args[0].AString? && args[0].text.Some? {
      var part := ReadPart(ts, args[0].text.value, args[1..]);
      if part.Done? && Head(part.rest) == 43 {
        PartsShrink(part.rest[1..], part.args, done + part.value);
      }
    }
  }

  /** pack, the current token first. */
  function PackValue(ts: seq<byte>, args: seq<Arg>): (r: Step<Json, Arg>)
    ensures r.Done? ==> |r.rest| < |ts|
    decreases |ts|, 0
  {
    if Head(ts) == 123 then PackPairs(ts[1..], args, [])
    else if Head(ts) == 91 then PackItems(ts[1..], args, [])
    else if Head(ts) == 115 then
      var nullable := Head(ts[1..]) == 63;
      var after := if nullable then ts[2..] else ts[1..];
      ReadShrinks(after, args);
      match ReadString(after, args)
      case Fail => Fail
      case Mismatch => Mismatch
      case Done(s, rest, args') =>
        if s.Some? then Done(String(s.value), rest, args') else if nullable then Done(Null, rest, args') else Fail
    else if Head(ts) == 110 then Done(Null, ts[1..], args)
    else if Head(ts) == 98 then
      if args == [] || !args[0].AInt? then Mismatch
        else Done(if args[0].value != 0 then True else False, ts[1..], args[1..])
    else if Head(ts) == 105 then
      if args == [] || !args[0].AInt? then Mismatch else Done(Integer(args[0].value), ts[1..], args[1..])
    else if Head(ts) == 73 then
      if args == [] || !args[0].AWide? then Mismatch else Done(Integer(args[0].value), ts[1..], args[1..])
    else if Head(ts) == 102 then
      if args == [] || !args[0].AReal? then Mismatch else Done(Real(args[0].lexeme), ts[1..], args[1..])
    else if Head(ts) == 79 || Head(ts) == 111 then
      var nullable := Head(ts[1..]) == 63;
      var rest := if nullable then ts[2..] else ts[1..];
      if args == [] || !args[0].AJson? then Mismatch
      else if args[0].json.Some? then Done(args[0].json.value, rest, args[1..])
      else if nullable then Done(Null, rest, args[1..]) else Fail
    else Fail
  }

  /** pack_object behind its brace, with the members so far; a key is set as a C string, whatever its length was. */
  function PackPairs(ts: seq<byte>, args: seq<Arg>, ms: seq<Entry<Json>>): (r: Step<Json, Arg>)
    ensures r.Done? ==> |r.rest| < |ts|
    decreases |ts|, 1
  {
    if Head(ts) == 125 then Done(Object(ms), ts[1..], args)
    else if Head(ts) != 115 then Fail
    else
      ReadShrinks(ts[1..], args);
      match ReadString(ts[1..], args)
      case Fail => Fail
      case Mismatch => Mismatch
      case Done(key, rest, args') =>
        if key.None? then Fail
        else
          match PackValue(rest, args')
          case Fail => Fail
          case Mismatch => Mismatch
          case Done(v, rest', args'') => PackPairs(rest', args'', Set(ms, CString(key.value), v))
  }

  /** pack_array behind its bracket. */
  function PackItems(ts: seq<byte>, args: seq<Arg>, items: seq<Json>): (r: Step<Json, Arg>)
    ensures r.Done? ==> |r.rest| < |ts|
    decreases |ts|, 1
  {
    if Head(ts) == 93 then Done(Array(items), ts[1..], args)
    else
      match PackValue(ts, args)
      case Fail => Fail
      case Mismatch => Mismatch
      case Done(v, rest, args') => PackItems(rest, args', items + [v])
  }

  // ---- Unpacking ----

  /** One variable argument of json_unpack: a key, or a target that may be null. */
  datatype Slot = Key(key: Option<seq<byte>>) | Target(present: bool)

  /** What a target got; a skipped one is untouched. */
  datatype Out =
    | OString(text: seq<byte>)
    | OLength(length: nat)
    | OInt(value: int)
    | OBool(isTrue: bool)
    | ONumber(number: Json)
    | OJson(json: Json)
    | Untouched

  datatype Flags = Flags(strict: bool, validateOnly: bool)

  /** Narrowing to int. */
  function ToInt(v: int): int {
    (v + 0x8000_0000) % 0x1_0000_0000 - 0x8000_0000
  }

  /** Stores into one target. */
  function Store(rest: seq<byte>, args: seq<Slot>, f: Flags, o: Out): Step<seq<Out>, Slot> {
    if f.validateOnly then Done([], rest, args)
    else if args == [] || !args[0].Target? || !args[0].present then Mismatch
    else Done([o], rest, args[1..])
  }

  /** unpack, the current token first; without a root the format is only skipped. */
  function UnpackValue(ts: seq<byte>, root: Option<Json>, args: seq<Slot>, f: Flags): (r: Step<seq<Out>, Slot>)
    ensures r.Done? ==> |r.rest| < |ts|
    decreases |ts|, 0
  {
    if Head(ts) == 123 then
      if root.Some? && !root.value.Object? then Fail
      else UnpackPairs(ts[1..], if root.None? then None else Some(root.value.members), args, f, [], false, [])
    else if Head(ts) == 91 then
      if root.Some? && !root.value.Array? then Fail
      else UnpackItems(ts[1..], if root.None? then None else Some(root.value.items), args, f, 0, [])
    else if Head(ts) == 115 then
      if root.Some? && !root.value.String? then Fail
      else UnpackString(ts[1..], if root.None? then None else Some(root.value.text), args, f)
    else if Head(ts) == 105 then
      if root.Some? && !root.value.Integer? then Fail
      else Store(ts[1..], args, f, if root.None? then Untouched else OInt(ToInt(root.value.value)))
    else if Head(ts) == 73 then
      if root.Some? && !root.value.Integer? then Fail
      else Store(ts[1..], args, f, if root.None? then Untouched else OInt(root.value.value))
    else if Head(ts) == 98 then
      if root.Some? && !root.value.True? && !root.value.False? then Fail
      else Store(ts[1..], args, f, if root.None? then Untouched else OBool(root.value.True?))
    else if Head(ts) == 102 then
      if root.Some? && !root.value.Real? then Fail
      else Store(ts[1..], args, f, if root.None? then Untouched else ONumber(root.value))
    else if Head(ts) == 70 then
      if root.Some? && !root.value.Real? && !root.value.Integer? then Fail
      else Store(ts[1..], args, f, if root.None? then Untouched else ONumber(root.value))
    else if Head(ts) == 79 || Head(ts) == 111 then
      Store(ts[1..], args, f, if root.None? then Untouched else OJson(root.value))
    else if Head(ts) == 110 then
      if root.Some? && !root.value.Null? then Fail else Done([], ts[1..], args)
    else Fail
  }

  /** The string target and, after '%', the length target. */
  function UnpackString(ts: seq<byte>, text: Option<seq<byte>>, args: seq<Slot>, f: Flags): (r: Step<seq<Out>, Slot>)
    ensures r.Done? ==> |r.rest| <= |ts|
  {
    if f.validateOnly then Done([], ts, args)
    else if args == [] || !args[0].Target? then Mismatch
    else if !args[0].present then Fail
    else if Head(ts) != 37 then Done([if text.None? then Untouched else OString(text.value)], ts, args[1..])
    else if |args| == 1 || !args[1].Target? then Mismatch
    else if !args[1].present then Fail
    else Done(if text.None? then [Untouched, Untouched] else [OString(text.value), OLength(|text.value|)], ts[1..], args[2..])
  }

  /** unpack_object behind its brace: the keys named so far, and whether one was optional. */
  function UnpackPairs(ts: seq<byte>, root: Option<seq<Entry<Json>>>, args: seq<Slot>, f: Flags,
        named: seq<Entry<()>>, optional: bool, outs: seq<Out>): (r: Step<seq<Out>, Slot>)
    ensures r.Done? ==> |r.rest| < |ts|
    decreases |ts|, 1
  {
    if Head(ts) == 125 then
      if AllNamed(root, named, optional, f.strict) then Done(outs, ts[1..], args) else Fail
    else if Head(ts) == 33 || Head(ts) == 42 then
      if Head(ts[1..]) != 125 || !AllNamed(root, named, optional, Head(ts) == 33) then Fail
        else Done(outs, ts[2..], args)
    else if Head(ts) != 115 then Fail
    else if args == [] || !args[0].Key? then Mismatch
    else if args[0].key.None? then Fail
    else
      var key := CString(args[0].key.value);
      var opt := Head(ts[1..]) == 63;
      var rest := if opt then ts[2..] else ts[1..];
      var value := if root.None? then None else Get(root.value, key);
      if root.Some? && value.None? && !opt then Fail
      else
        match UnpackValue(rest, value, args[1..], f)
        case Fail => Fail
        case Mismatch => Mismatch
        case Done(os, rest', args') => UnpackPairs(rest', root, args', f, Set(named, key, ()), optional || opt, outs + os)
  }

  /** The strict check at the closing brace: key by key when a key was optional, else by count. */
  predicate AllNamed(root: Option<seq<Entry<Json>>>, named: seq<Entry<()>>, optional: bool, strict: bool) {
    !strict || root.None? ||
    if optional then forall i :: 0 <= i < |root.value| ==> Get(named, root.value[i].key).Some?
    else |root.value| == |named|
  }

  /** unpack_array behind its bracket, at element i. */
  function UnpackItems(ts: seq<byte>, root: Option<seq<Json>>, args: seq<Slot>, f: Flags, i: nat,
        outs: seq<Out>): (r: Step<seq<Out>, Slot>)
    ensures r.Done? ==> |r.rest| < |ts|
    decreases |ts|, 1
  {
    if Head(ts) == 93 then
      if f.strict && root.Some? && i != |root.value| then Fail else Done(outs, ts[1..], args)
    else if Head(ts) == 33 || Head(ts) == 42 then
      if Head(ts[1..]) != 93 || (Head(ts) == 33 && root.Some? && i != |root.value|) then Fail
        else Done(outs, ts[2..], args)
    else if root.Some? && i >= |root.value| then Fail
    else
      match UnpackValue(ts, if root.None? then None else Some(root.value[i]), args, f)
      case Fail => Fail
      case Mismatch => Mismatch
      case Done(os, rest, args') => UnpackItems(rest, root, args', f, i + 1, outs + os)
  }

  // ---- Whole formats ----

  datatype Outcome<T> = Ok(value: T) | Failed | Stuck

  /** A whole format: nothing may follow its one value. */
  function PackResult(ts: seq<byte>, args: seq<Arg>): Outcome<Json> {
    match PackValue(ts, args)
    case Fail => Failed
    case Mismatch => Stuck
    case Done(v, rest, _) => if rest == [] then Ok(v) else Failed
  }

  /** A whole format: nothing may follow its one value. */
  function UnpackResult(ts: seq<byte>, root: Json, args: seq<Slot>, f: Flags): Outcome<seq<Out>> {
    match UnpackValue(ts, Some(root), args, f)
    case Fail => Failed
    case Mismatch => Stuck
    case Done(outs, rest, _) => if rest == [] then Ok(outs) else Failed
  }
}
