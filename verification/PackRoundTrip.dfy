/** What json_pack builds from a format and its arguments, and the strict check of json_unpack. */
module PackRoundTrip {
  import opened Bytes
  import opened Utf8
  import opened OrderedMap
  import opened JsonValue
  import opened PackFormat
  import JsonEqual

  // ---- The strict check ----

  /** The state of unpack_object at its closing brace: the keys named, whether one was optional, and strictness. */
  datatype Close = Close(named: seq<Entry<()>>, optional: bool, strict: bool)

  function CloseOf(ts: seq<byte>, root: seq<Entry<Json>>, args: seq<Slot>, f: Flags, named: seq<Entry<()>>,
        optional: bool): Option<Close>
    decreases |ts|
  {
    if Head(ts) == 125 then Some(Close(named, optional, f.strict))
    else if Head(ts) == 33 || Head(ts) == 42 then
      if Head(ts[1..]) == 125 then Some(Close(named, optional, Head(ts) == 33)) else None
    else if Head(ts) != 115 || args == [] || !args[0].Key? || args[0].key.None? then None
    else
      var key := CString(args[0].key.value);
      var opt := Head(ts[1..]) == 63;
      var value := Get(root, key);
      if value.None? && !opt then None
      else
        match UnpackValue(if opt then ts[2..] else ts[1..], value, args[1..], f)
        case Done(_, rest, args') => CloseOf(rest, root, args', f, Set(named, key, ()), optional || opt)
        case _ => None
  }

  lemma {:induction false} UnpackCloses(ts: seq<byte>, root: seq<Entry<Json>>, args: seq<Slot>, f: Flags,
        named: seq<Entry<()>>, optional: bool, outs: seq<Out>)
    ensures UnpackPairs(ts, Some(root), args, f, named, optional, outs).Done?
       <==> (var c := CloseOf(ts, root, args, f, named, optional);
             c.Some? && AllNamed(Some(root), c.value.named, c.value.optional, c.value.strict))
    decreases |ts|
  {
    hide AllNamed;
    if Head(ts) == 115 && args != [] && args[0].Key? && args[0].key.Some? {
      var key := CString(args[0].key.value);
      var opt := Head(ts[1..]) == 63;
      var value := Get(root, key);
      if value.Some? || opt {
        var r := UnpackValue(if opt then ts[2..] else ts[1..], value, args[1..], f);
        if r.Done? {
          UnpackCloses(r.rest, root, r.args, f, Set(named, key, ()), optional || opt, outs + r.value);
        }
      }
    }
  }

  /** Unless a key was optional, every named key is one of the object's. */
  ghost predicate Found(root: seq<Entry<Json>>, named: seq<Entry<()>>, optional: bool) {
    Distinct(named) && (!optional ==> forall i :: 0 <= i < |named| ==> Get(root, named[i].key).Some?)
  }

  lemma FoundNext(root: seq<Entry<Json>>, named: seq<Entry<()>>, optional: bool, key: OrderedMap.Key)
    requires Found(root, named, optional) && (!optional ==> Get(root, key).Some?)
    ensures Found(root, Set(named, key, ()), optional)
  {
    SetKeepsDistinct(named, key, ());
    var keys := Keys(Set(named, key, ()));
    assert forall i :: 0 <= i < |keys| ==> keys[i] == Set(named, key, ())[i].key;
    if Has(named, key) {
      assert keys == Keys(named);
    }
  }

  lemma {:induction false} CloseFound(ts: seq<byte>, root: seq<Entry<Json>>, args: seq<Slot>, f: Flags,
        named: seq<Entry<()>>, optional: bool)
    requires Found(root, named, optional)
    ensures var c := CloseOf(ts, root, args, f, named, optional); c.Some? ==>
      Found(root, c.value.named, c.value.optional)
    decreases |ts|
  {
    hide Found;
    if Head(ts) == 115 && args != [] && args[0].Key? && args[0].key.Some? {
      var key := CString(args[0].key.value);
      var opt := Head(ts[1..]) == 63;
      var value := Get(root, key);
      if value.Some? || opt {
        var r := UnpackValue(if opt then ts[2..] else ts[1..], value, args[1..], f);
        if r.Done? {
          FoundMore(root, named, optional, opt);
          FoundNext(root, named, optional || opt, key);
          CloseFound(r.rest, root, r.args, f, Set(named, key, ()), optional || opt);
        }
      }
    }
  }

  lemma FoundMore(root: seq<Entry<Json>>, named: seq<Entry<()>>, optional: bool, opt: bool)
    requires Found(root, named, optional)
    ensures Found(root, named, optional || opt)
  {
  }

  /** The count and the key-by-key check both say that every key of the object was named. */
  lemma CountIsEnough(root: seq<Entry<Json>>, named: seq<Entry<()>>, optional: bool)
    requires Distinct(root) && Found(root, named, optional)
    ensures AllNamed(Some(root), named, optional, true) <==> forall i :: 0 <= i < |root| ==>
      Get(named, root[i].key).Some?
  {
    if !optional {
      if |root| == |named| {
        forall i | 0 <= i < |root|
          ensures Get(named, root[i].key).Some?
        {
          JsonEqual.SameKeys(named, root, root[i].key);
          GetAt(root, i);
        }
      }
      if forall i :: 0 <= i < |root| ==> Get(named, root[i].key).Some? {
        Contained(root, named);
        Contained(named, root);
      }
    }
  }

  lemma Contained<V, W>(m: seq<Entry<V>>, n: seq<Entry<W>>)
    requires Distinct(m) && Distinct(n) && forall i :: 0 <= i < |m| ==> Get(n, m[i].key).Some?
    ensures |m| <= |n|
  {
    JsonEqual.KeySetSize(m);
    JsonEqual.KeySetSize(n);
    forall x | x in JsonEqual.KeySet(m)
      ensures x in JsonEqual.KeySet(n)
    {
      var i :| 0 <= i < |m| && m[i].key == x;
      GetAbsent(n, x);
    }
    var a, b := JsonEqual.KeySet(m), JsonEqual.KeySet(n);
    assert b == a + (b - a);
    assert |b| == |a| + |b - a|;
  }

  /**
    * In strict mode, an object that was read to its closing brace is unpacked exactly when every one
    * of its keys was named, also when some of them were optional.
    */
  lemma StrictNamesEveryKey(ts: seq<byte>, root: seq<Entry<Json>>, args: seq<Slot>, f: Flags)
    requires Distinct(root)
    ensures var c := CloseOf(ts, root, args, f, [], false);
      c.Some? && c.value.strict ==>
        (UnpackPairs(ts, Some(root), args, f, [], false, []).Done? <==> forall i :: 0 <= i < |root| ==> Get(c.value.named, root[i].key).Some?)
    ensures UnpackPairs(ts, Some(root), args, f, [], false, []).Done? ==> CloseOf(ts, root, args, f, [], false).Some?
  {
    UnpackCloses(ts, root, args, f, [], false, []);
    CloseFound(ts, root, args, f, [], false);
    var c := CloseOf(ts, root, args, f, [], false);
    if c.Some? {
      CountIsEnough(root, c.value.named, c.value.optional);
    }
  }

  // ---- Formats with the arguments they take ----

  /** How a part of a string is cut: at its first zero, or to the length after '#' or '%'. */
  datatype Cut = Whole | ByInt(length: nat) | BySize(length: nat)

  datatype Part = Part(text: seq<byte>, cut: Cut)

  /** A value of json_pack's language; shared tells 'O' from 'o', and the maybe forms have a '?'. */
  datatype Typed =
    | TString(text: seq<byte>)
    | TMaybeString(maybeText: Option<seq<byte>>)
    | TParts(parts: seq<Part>)
    | TInt(int32: int)
    | TWide(int64: int)
    | TBool(isTrue: bool)
    | TReal(lexeme: seq<byte>)
    | TNull
    | TJson(json: Json, shared: bool)
    | TMaybeJson(maybeJson: Option<Json>, shared: bool)
    | TObject(fields: seq<Entry<Typed>>)
    | TArray(items: seq<Typed>)

  function Reference(shared: bool): byte { if shared then 79 else 111 }

  function CutText(c: Cut): seq<byte> {
    match c
    case Whole => []
    case ByInt(_) => [35]
    case BySize(_) => [37]
  }

  function PartsText(parts: seq<Part>, rest: seq<byte>): seq<byte>
    requires parts != []
  {
    CutText(parts[0].cut) + (if |parts| == 1 then rest else [43] + PartsText(parts[1..], rest))
  }

  /** The format's tokens, in front of rest. */
  function Text(v: Typed, rest: seq<byte>): seq<byte>
    decreases v, 0
  {
    match v
    case TString(_) => [115] + rest
    case TMaybeString(_) => [115, 63] + rest
    case TParts(parts) => [115] + (if parts == [] then rest else PartsText(parts, rest))
    case TInt(_) => [105] + rest
    case TWide(_) => [73] + rest
    case TBool(_) => [98] + rest
    case TReal(_) => [102] + rest
    case TNull => [110] + rest
    case TJson(_, shared) => [Reference(shared)] + rest
    case TMaybeJson(_, shared) => [Reference(shared), 63] + rest
    case TObject(fields) => [123] + FieldsText(fields, [125] + rest)
    case TArray(items) => [91] + ItemsText(items, [93] + rest)
  }

  function FieldsText(fields: seq<Entry<Typed>>, rest: seq<byte>): seq<byte>
    decreases fields, 0
  {
    if fields == [] then rest else [115] + Text(fields[0].value, FieldsText(fields[1..], rest))
  }

  function ItemsText(items: seq<Typed>, rest: seq<byte>): seq<byte>
    decreases items, 0
  {
    if items == [] then rest else Text(items[0], ItemsText(items[1..], rest))
  }

  function CutArgs(c: Cut, more: seq<Arg>): seq<Arg> {
    match c
    case Whole => more
    case ByInt(n) => [AInt(n)] + more
    case BySize(n) => [ASize(n)] + more
  }

  function PartsArgs(parts: seq<Part>, more: seq<Arg>): seq<Arg> {
    if parts == [] then more
    else [AString(Some(parts[0].text))] + CutArgs(parts[0].cut, PartsArgs(parts[1..], more))
  }

  predicate PartOk(p: Part) { !p.cut.Whole? ==> p.cut.length <= |p.text| }

  /** The bytes a part stands for. */
  function PartBytes(p: Part): seq<byte>
    requires PartOk(p)
  {
    if p.cut.Whole? then CString(p.text) else p.text[..p.cut.length]
  }

  function Joined(parts: seq<Part>): seq<byte>
    requires forall i :: 0 <= i < |parts| ==> PartOk(parts[i])
  {
    if parts == [] then [] else PartBytes(parts[0]) + Joined(parts[1..])
  }

  /** Several parts, or one with its length; each within its text. */
  predicate PartsOk(parts: seq<Part>) {
    && parts != [] && (|parts| > 1 || !parts[0].cut.Whole?)
    && forall i :: 0 <= i < |parts| ==> PartOk(parts[i])
  }

  /** The arguments json_pack is given, in front of more. */
  function Args(v: Typed, more: seq<Arg>): seq<Arg>
    decreases v, 0
  {
    match v
    case TString(s) => [AString(Some(s))] + more
    case TMaybeString(s) => [AString(s)] + more
    case TParts(parts) => PartsArgs(parts, more)
    case TInt(i) => [AInt(i)] + more
    case TWide(i) => [AWide(i)] + more
    case TBool(b) => [AInt(if b then 1 else 0)] + more
    case TReal(t) => [AReal(t)] + more
    case TNull => more
    case TJson(j, _) => [AJson(Some(j))] + more
    case TMaybeJson(j, _) => [AJson(j)] + more
    case TObject(fields) => FieldsArgs(fields, more)
    case TArray(items) => ItemsArgs(items, more)
  }

  function FieldsArgs(fields: seq<Entry<Typed>>, more: seq<Arg>): seq<Arg>
    decreases fields, 0
  {
    if fields == [] then more else [AString(Some(fields[0].key))] + Args(fields[0].value, FieldsArgs(fields[1..], more))
  }

  function ItemsArgs(items: seq<Typed>, more: seq<Arg>): seq<Arg>
    decreases items, 0
  {
    if items == [] then more else Args(items[0], ItemsArgs(items[1..], more))
  }

  /** The value the arguments describe. */
  function Value(v: Typed): Json
    decreases v, 0
  {
    match v
    case TString(s) => String(s)
    case TMaybeString(s) => if s.None? then Null else String(s.value)
    case TParts(parts) => if PartsOk(parts) then String(Joined(parts)) else Null
    case TInt(i) => Integer(i)
    case TWide(i) => Integer(i)
    case TBool(b) => if b then True else False
    case TReal(t) => Real(t)
    case TNull => Null
    case TJson(j, _) => j
    case TMaybeJson(j, _) => if j.None? then Null else j.value
    case TObject(fields) => Object(Members(fields))
    case TArray(items) => Array(Items(items))
  }

  function Members(fields: seq<Entry<Typed>>): (ms: seq<Entry<Json>>)
    ensures |ms| == |fields| && forall i :: 0 <= i < |ms| ==> ms[i] == Entry(fields[i].key, Value(fields[i].value))
    decreases fields, 0
  {
    if fields == [] then [] else [Entry(fields[0].key, Value(fields[0].value))] + Members(fields[1..])
  }

  function Items(items: seq<Typed>): (js: seq<Json>)
    ensures |js| == |items| && forall i :: 0 <= i < |js| ==> js[i] == Value(items[i])
    decreases items, 0
  {
    if items == [] then [] else [Value(items[0])] + Items(items[1..])
  }

  /** Strings and keys are UTF-8, without a zero where no length is given, and the keys of an object are distinct. */
  ghost predicate Typable(v: Typed) {
    match v
    case TString(s) => IsUtf8(s) && 0 !in s
    case TMaybeString(s) => s.Some? ==> IsUtf8(s.value) && 0 !in s.value
    case TParts(parts) => PartsOk(parts) && IsUtf8(Joined(parts))
    case TInt(i) => -0x8000_0000 <= i < 0x8000_0000
    case TObject(fields) =>
      Distinct(fields) && forall i :: 0 <= i < |fields| ==> IsUtf8(fields[i].key) && 0 !in fields[i].key && Typable(fields[i].value)
    case TArray(items) => forall i :: 0 <= i < |items| ==> Typable(items[i])
    case _ => true
  }

  /** A token that would modify a string in front of it. */
  predicate Modifier(t: byte) {
    t == 63 || t == 35 || t == 37 || t == 43
  }

  predicate Starter(t: byte) {
    t == 115 || t == 105 || t == 73 || t == 98 || t == 102 || t == 110 || t == 79 || t == 111 || t == 123 || t == 91
  }

  lemma TextStarts(v: Typed, rest: seq<byte>)
    ensures var t := Head(Text(v, rest)); Starter(t) && !Modifier(t) && t != 93
  {
  }

  lemma FieldsFollow(fields: seq<Entry<Typed>>, rest: seq<byte>)
    ensures !Modifier(Head(FieldsText(fields, [125] + rest)))
  {
  }

  lemma ItemsFollow(items: seq<Typed>, rest: seq<byte>)
    ensures !Modifier(Head(ItemsText(items, [93] + rest)))
  {
    if items != [] {
      TextStarts(items[0], ItemsText(items[1..], [93] + rest));
    }
  }

  // ---- Packing ----

  /** json_pack builds exactly the value its arguments describe. */
  lemma {:induction false} PackTyped(v: Typed, rest: seq<byte>, more: seq<Arg>)
    requires Typable(v) && !Modifier(Head(rest))
    ensures PackValue(Text(v, rest), Args(v, more)) == Done(Value(v), rest, more)
    decreases v, 1
  {
    hide PackValue, PackPairs, PackItems, FieldsText, ItemsText, FieldsArgs, ItemsArgs, Members, Items, IsUtf8;
    match v
    case TObject(fields) =>
      PackObjectStep(FieldsText(fields, [125] + rest), FieldsArgs(fields, more));
      PackFields(fields, rest, more, []);
      assert [] + Members(fields) == Members(fields);
    case TArray(items) =>
      PackArrayStep(ItemsText(items, [93] + rest), ItemsArgs(items, more));
      PackAll(items, rest, more, []);
      assert [] + Items(items) == Items(items);
    case _ => PackScalar(v, rest, more);
  }

  lemma PackScalar(v: Typed, rest: seq<byte>, more: seq<Arg>)
    requires Typable(v) && !v.TObject? && !v.TArray? && !Modifier(Head(rest))
    ensures PackValue(Text(v, rest), Args(v, more)) == Done(Value(v), rest, more)
  {
    hide PackPairs, PackItems;
    if v.TString? || v.TMaybeString? || v.TParts? {
      PackText(v, rest, more);
    } else {
      assert v.TMaybeJson? ==> Text(v, rest)[1..] == [63] + rest && Text(v, rest)[2..] == rest;
      assert !v.TMaybeJson? ==> Text(v, rest)[1..] == rest;
      assert !v.TNull? ==> Args(v, more)[1..] == more;
    }
  }

  lemma PackText(v: Typed, rest: seq<byte>, more: seq<Arg>)
    requires Typable(v) && (v.TString? || v.TMaybeString? || v.TParts?) && !Modifier(Head(rest))
    ensures PackValue(Text(v, rest), Args(v, more)) == Done(Value(v), rest, more)
  {
    hide PackFormat.ReadString, CString, PartsText, Joined;
    match v
    case TString(s) =>
      PlainRead(Some(s), rest, more);
      assert ([115] + rest)[1..] == rest;
    case TMaybeString(s) =>
      PlainRead(s, rest, more);
      assert ([115, 63] + rest)[1..] == [63] + rest && ([115, 63] + rest)[2..] == rest;
    case TParts(parts) =>
      PartsRead(parts, rest, more);
      assert ([115] + PartsText(parts, rest))[1..] == PartsText(parts, rest);
  }

  /** A string without lengths and parts is read up to its zero, and refused if it is null or not UTF-8. */
  lemma PlainRead(s: Option<seq<byte>>, rest: seq<byte>, more: seq<Arg>)
    requires !Modifier(Head(rest)) && (s.Some? ==> 0 !in s.value)
    ensures ReadString(rest, [AString(s)] + more) ==
      Done(if s.Some? && CheckText(s.value) then s else None, rest, more)
  {
    if s.Some? {
      CStringWhole(s.value);
    }
    assert ([AString(s)] + more)[1..] == more;
  }

  lemma PartsRead(parts: seq<Part>, rest: seq<byte>, more: seq<Arg>)
    requires PartsOk(parts) && !Modifier(Head(rest))
    ensures ReadString(PartsText(parts, rest), PartsArgs(parts, more)) ==
      Done(if CheckText(Joined(parts)) then Some(Joined(parts)) else None, rest, more)
    ensures Head(PartsText(parts, rest)) in [35, 37, 43]
  {
    PartsJoined(parts, rest, more, []);
    assert [] + Joined(parts) == Joined(parts);
    hide ReadParts, Joined, PartsArgs, CheckText;
  }

  /** The parts are joined in order, each cut to its length. */
  lemma {:induction false} PartsJoined(parts: seq<Part>, rest: seq<byte>, more: seq<Arg>, done: seq<byte>)
    requires parts != [] && (forall i :: 0 <= i < |parts| ==> PartOk(parts[i])) && !Modifier(Head(rest))
    ensures ReadParts(PartsText(parts, rest), PartsArgs(parts, more), done) ==
      Done(if CheckText(done + Joined(parts)) then Some(done + Joined(parts)) else None, rest, more)
  {
    hide CheckText, ReadPart, CutText, CutArgs, PartBytes;
    var tail := parts[1..];
    var after := if |parts| == 1 then rest else [43] + PartsText(tail, rest);
    var args := PartsArgs(tail, more);
    OnePart(parts[0], after, args);
    assert PartsArgs(parts, more)[1..] == CutArgs(parts[0].cut, args);
    if |parts| == 1 {
      assert Joined(tail) == [] && PartBytes(parts[0]) + [] == PartBytes(parts[0]);
    } else {
      PartsJoined(tail, rest, more, done + PartBytes(parts[0]));
      assert after[1..] == PartsText(tail, rest);
      Regroup(done, PartBytes(parts[0]), Joined(tail));
    }
  }

  lemma OnePart(p: Part, after: seq<byte>, args: seq<Arg>)
    requires PartOk(p) && Head(after) != 35 && Head(after) != 37
    ensures ReadPart(CutText(p.cut) + after, p.text, CutArgs(p.cut, args)) == Done(PartBytes(p), after, args)
  {
    var ts, left := CutText(p.cut) + after, CutArgs(p.cut, args);
    if p.cut.Whole? {
      assert ts == after;
    } else {
      assert ts[1..] == after && left[1..] == args;
    }
  }

  /** A null or ill-formed string is refused, and with a '?' packed as null. */
  lemma NullTextPacked(s: Option<seq<byte>>, rest: seq<byte>, more: seq<Arg>)
    requires !Modifier(Head(rest)) && (s.Some? ==> 0 !in s.value && !CheckText(s.value))
    ensures PackValue([115] + rest, [AString(s)] + more) == Fail
    ensures PackValue([115, 63] + rest, [AString(s)] + more) == Done(Null, rest, more)
  {
    hide PackFormat.ReadString, PackPairs, PackItems, CheckText;
    PlainRead(s, rest, more);
    assert ([115] + rest)[1..] == rest && ([115, 63] + rest)[1..] == [63] + rest && ([115, 63] + rest)[2..] == rest;
  }

  /** A null value is refused, and with a '?' packed as null. */
  lemma NullJsonPacked(shared: bool, rest: seq<byte>, more: seq<Arg>)
    requires !Modifier(Head(rest))
    ensures PackValue([Reference(shared)] + rest, [AJson(None)] + more) == Fail
    ensures PackValue([Reference(shared), 63] + rest, [AJson(None)] + more) == Done(Null, rest, more)
  {
    hide PackFormat.ReadString, PackPairs, PackItems;
    var r := Reference(shared);
    assert ([r] + rest)[1..] == rest && ([r, 63] + rest)[1..] == [63] + rest && ([r, 63] + rest)[2..] == rest;
    assert ([AJson(None)] + more)[1..] == more;
  }

  lemma PackObjectStep(ts: seq<byte>, args: seq<Arg>)
    ensures PackValue([123] + ts, args) == PackPairs(ts, args, [])
  {
    hide PackPairs, PackItems;
    assert ([123] + ts)[1..] == ts;
  }

  lemma PackArrayStep(ts: seq<byte>, args: seq<Arg>)
    ensures PackValue([91] + ts, args) == PackItems(ts, args, [])
  {
    hide PackPairs, PackItems;
    assert ([91] + ts)[1..] == ts;
  }

  /** One key and its value. */
  lemma PackPairStep(ts: seq<byte>, k: OrderedMap.Key, args: seq<Arg>, done: seq<Entry<Json>>)
    requires IsUtf8(k) && 0 !in k && !Modifier(Head(ts)) && PackValue(ts, args).Done?
    ensures var r := PackValue(ts, args);
      PackPairs([115] + ts, [AString(Some(k))] + args, done) == PackPairs(r.rest, r.args, Set(done, k, r.value))
  {
    hide PackValue, Set;
    CStringWhole(k);
    assert ([115] + ts)[1..] == ts && ([AString(Some(k))] + args)[1..] == args;
  }

  lemma PackClose(rest: seq<byte>, args: seq<Arg>, done: seq<Entry<Json>>, items: seq<Json>)
    ensures PackPairs([125] + rest, args, done) == Done(Object(done), rest, args)
    ensures PackItems([93] + rest, args, items) == Done(Array(items), rest, args)
  {
    assert ([125] + rest)[1..] == rest && ([93] + rest)[1..] == rest;
  }

  lemma {:induction false} PackFields(fields: seq<Entry<Typed>>, rest: seq<byte>, more: seq<Arg>,
        done: seq<Entry<Json>>)
    requires Distinct(done + Members(fields))
    requires forall i :: 0 <= i < |fields| ==> IsUtf8(fields[i].key) && 0 !in fields[i].key && Typable(fields[i].value)
    ensures PackPairs(FieldsText(fields, [125] + rest), FieldsArgs(fields, more), done) ==
      Done(Object(done + Members(fields)), rest, more)
    decreases fields, 0
  {
    hide PackValue, PackPairs, Set, Has, Value, IsUtf8, Text, Args, Typable, Modifier, Starter;
    if fields == [] {
      assert done + [] == done;
      PackClose(rest, more, done, []);
    } else {
      var k, x, tail := fields[0].key, fields[0].value, fields[1..];
      var ts, args := FieldsText(tail, [125] + rest), FieldsArgs(tail, more);
      var e := Entry(k, Value(x));
      assert Members(fields) == [e] + Members(tail);
      assert FieldsText(fields, [125] + rest) == [115] + Text(x, ts) && FieldsArgs(fields, more) == [AString(Some(k))] + Args(x, args);
      hide FieldsText, FieldsArgs, Members, Distinct;
      Regroup(done, [e], Members(tail));
      TextStarts(x, ts);
      FieldsFollow(tail, rest);
      PackTyped(x, ts, args);
      PackPairStep(Text(x, ts), k, Args(x, args), done);
      AbsentHere(done, e, Members(tail));
      SetAbsent(done, k, Value(x));
      PackFields(tail, rest, more, done + [e]);
    }
  }

  lemma Regroup<T>(a: seq<T>, b: seq<T>, c: seq<T>)
    ensures a + (b + c) == a + b + c
  {
  }

  lemma AbsentHere(done: seq<Entry<Json>>, e: Entry<Json>, after: seq<Entry<Json>>)
    requires Distinct(done + [e] + after)
    ensures !Has(done, e.key)
  {
    var m := done + [e] + after;
    assert forall i :: 0 <= i < |done| ==> m[i] == done[i];
    assert m[|done|] == e;
  }

  lemma PackItemStep(ts: seq<byte>, args: seq<Arg>, done: seq<Json>)
    requires Head(ts) != 93 && PackValue(ts, args).Done?
    ensures var r := PackValue(ts, args); PackItems(ts, args, done) == PackItems(r.rest, r.args, done + [r.value])
  {
    hide PackValue;
  }

  lemma {:induction false} PackAll(items: seq<Typed>, rest: seq<byte>, more: seq<Arg>, done: seq<Json>)
    requires forall i :: 0 <= i < |items| ==> Typable(items[i])
    ensures PackItems(ItemsText(items, [93] + rest), ItemsArgs(items, more), done) ==
      Done(Array(done + Items(items)), rest, more)
    decreases items, 0
  {
    hide PackValue, PackItems, Value, Text, Args, Typable, Modifier, Starter;
    if items == [] {
      assert done + [] == done;
      PackClose(rest, more, [], done);
    } else {
      var x, tail := items[0], items[1..];
      var ts, args := ItemsText(tail, [93] + rest), ItemsArgs(tail, more);
      TextStarts(x, ts);
      ItemsFollow(tail, rest);
      PackTyped(x, ts, args);
      PackItemStep(Text(x, ts), Args(x, args), done);
      PackAll(tail, rest, more, done + [Value(x)]);
      assert done + Items(items) == done + [Value(x)] + Items(tail);
    }
  }

  /** A key of three bytes with a zero in the middle, in front of any value: it is set as the one byte before the zero. */
  lemma KeyCutAtZero(ts: seq<byte>, more: seq<Arg>, v: Json)
    requires ts != [] && ts[0] != 43 && PackValue(ts, more) == Done(v, [125], [])
    ensures PackResult([123] + ([115, 35] + ts), [AString(Some([97, 0, 98])), AInt(3)] + more) ==
      Ok(Object([Entry([97], v)]))
  {
    var args := [AString(Some([97, 0, 98])), AInt(3)] + more;
    LengthRead(ts, more);
    PackClose([], [], [Entry([97], v)], []);
    assert [125] + [] == [125];
    hide *;
    OneMember(ts, more, args, v);
    PackObjectStep([115, 35] + ts, args);
    WholeFormat([123] + ([115, 35] + ts), args, Object([Entry([97], v)]));
  }

  lemma WholeFormat(ts: seq<byte>, args: seq<Arg>, v: Json)
    requires PackValue(ts, args) == Done(v, [], [])
    ensures PackResult(ts, args) == Ok(v)
  {
    hide PackValue;
  }

  lemma LengthRead(ts: seq<byte>, more: seq<Arg>)
    requires ts != [] && ts[0] != 43
    ensures ReadString([35] + ts, [AString(Some([97, 0, 98])), AInt(3)] + more) == Done(Some([97, 0, 98]), ts, more)
  {
    var key := [97, 0, 98];
    var args := [AString(Some(key)), AInt(3)] + more;
    AsciiIsUtf8(key);
    assert ([35] + ts)[1..] == ts && args[1..][1..] == more && key[..3] == key && [] + key == key;
  }

  lemma OneMember(ts: seq<byte>, more: seq<Arg>, args: seq<Arg>, v: Json)
    requires args == [AString(Some([97, 0, 98])), AInt(3)] + more
    requires ReadString([35] + ts, args) == Done(Some([97, 0, 98]), ts, more)
    requires PackValue(ts, more) == Done(v, [125], [])
    requires PackPairs([125], [], [Entry([97], v)]) == Done(Object([Entry([97], v)]), [], [])
    ensures PackPairs([115, 35] + ts, args, []) == Done(Object([Entry([97], v)]), [], [])
  {
    hide PackValue, PackFormat.ReadString;
    assert CString([97, 0, 98]) == [97];
    assert ([115, 35] + ts)[1..] == [35] + ts;
  }
}
