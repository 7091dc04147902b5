/**
  * The formats of json_unpack as patterns: which values a pattern fits, and what its targets then
  * get, without reference to how the format is scanned.
  */
module UnpackPatterns {
  import opened Bytes
  import opened Utf8
  import opened OrderedMap
  import opened JsonValue
  import opened PackFormat
  import opened PackRoundTrip
  import JsonDump

  /** What stands in front of a closing bracket: nothing, '!' or '*'. */
  datatype Mark = Plain | Bang | Star

  datatype Pattern =
    | PString
    | PStringLength
    | PInt
    | PWide
    | PBool
    | PReal
    | PNumber
    | PJson(shared: bool)
    | PNull
    | PObject(fields: seq<Field>, objectMark: Mark)
    | PArray(items: seq<Pattern>, arrayMark: Mark)

  datatype Field = Field(key: OrderedMap.Key, optional: bool, value: Pattern)

  // ---- What a pattern means ----

  /** A marked bracket is strict or not as marked, an unmarked one as the flags say. */
  predicate Strict(mark: Mark, f: Flags) { mark.Bang? || (mark.Plain? && f.strict) }

  /** A missing value, below a missing optional key, fits any pattern. */
  predicate Fits(p: Pattern, root: Option<Json>, f: Flags)
    decreases p, 0
  {
    root.Some? ==>
      match p
      case PString => root.value.String?
      case PStringLength => root.value.String?
      case PInt => root.value.Integer?
      case PWide => root.value.Integer?
      case PBool => root.value.True? || root.value.False?
      case PReal => root.value.Real?
      case PNumber => root.value.Integer? || root.value.Real?
      case PJson(_) => true
      case PNull => root.value.Null?
      case PObject(fields, mark) =>
        && root.value.Object?
        && FieldsFit(fields, Some(root.value.members), f)
        && (Strict(mark, f) ==> forall i :: 0 <= i < |root.value.members| ==> NamesKey(fields, root.value.members[i].key))
      case PArray(items, mark) =>
        && root.value.Array?
        && |items| <= |root.value.items|
        && ItemsFit(items, Some(root.value.items), 0, f)
        && (Strict(mark, f) ==> |items| == |root.value.items|)
  }

  predicate NamesKey(fields: seq<Field>, k: OrderedMap.Key) { exists j :: 0 <= j < |fields| && fields[j].key == k }

  function Member(ms: Option<seq<Entry<Json>>>, k: OrderedMap.Key): Option<Json> {
    if ms.None? then None else Get(ms.value, k)
  }

  /** Every key is there or optional, and its value fits. */
  predicate FieldsFit(fields: seq<Field>, ms: Option<seq<Entry<Json>>>, f: Flags)
    decreases fields, 0
  {
    fields == [] ||
    (&& (ms.Some? ==> fields[0].optional || Get(ms.value, fields[0].key).Some?)
     && Fits(fields[0].value, Member(ms, fields[0].key), f)
     && FieldsFit(fields[1..], ms, f))
  }

  function Element(js: Option<seq<Json>>, i: nat): Option<Json> {
    if js.None? || i >= |js.value| then None else Some(js.value[i])
  }

  /** The patterns from the element i on. */
  predicate ItemsFit(items: seq<Pattern>, js: Option<seq<Json>>, i: nat, f: Flags)
    decreases items, 0
  {
    items == [] || (Fits(items[0], Element(js, i), f) && ItemsFit(items[1..], js, i + 1, f))
  }

  /** What a target gets: the value found, and nothing where there is none. */
  function Got(root: Option<Json>, p: Pattern): Out {
    if root.None? then Untouched
    else match (p, root.value)
      case (PString, String(s)) => OString(s)
      case (PStringLength, String(s)) => OString(s)
      case (PInt, Integer(i)) => OInt(ToInt(i))
      case (PWide, Integer(i)) => OInt(i)
      case (PBool, True) => OBool(true)
      case (PBool, False) => OBool(false)
      case (PReal, Real(t)) => ONumber(Real(t))
      case (PNumber, Real(t)) => ONumber(Real(t))
      case (PNumber, Integer(i)) => ONumber(Integer(i))
      case (PJson(_), j) => OJson(j)
      case _ => Untouched
  }

  /** The length target of a string. */
  function GotLength(root: Option<Json>): Out {
    if root.Some? && root.value.String? then OLength(|root.value.text|) else Untouched
  }

  /** What the targets get, in their order. */
  function Outs(p: Pattern, root: Option<Json>): seq<Out>
    decreases p, 0
  {
    match p
    case PStringLength => [Got(root, p), GotLength(root)]
    case PNull => []
    case PObject(fields, _) =>
      FieldsOuts(fields, if root.Some? && root.value.Object? then Some(root.value.members) else None)
    case PArray(items, _) =>
      ItemsOuts(items, if root.Some? && root.value.Array? then Some(root.value.items) else None, 0)
    case _ => [Got(root, p)]
  }

  function FieldsOuts(fields: seq<Field>, ms: Option<seq<Entry<Json>>>): seq<Out>
    decreases fields, 0
  {
    if fields == [] then [] else Outs(fields[0].value, Member(ms, fields[0].key)) + FieldsOuts(fields[1..], ms)
  }

  function ItemsOuts(items: seq<Pattern>, js: Option<seq<Json>>, i: nat): seq<Out>
    decreases items, 0
  {
    if items == [] then [] else Outs(items[0], Element(js, i)) + ItemsOuts(items[1..], js, i + 1)
  }

  /** 'i' narrows to the 32 bits of an int. */
  lemma NarrowedInt(v: int)
    ensures -0x8000_0000 <= ToInt(v) < 0x8000_0000 && (ToInt(v) - v) % 0x1_0000_0000 == 0
    ensures -0x8000_0000 <= v < 0x8000_0000 ==> ToInt(v) == v
  {
  }

  // ---- A pattern's format and arguments ----

  function MarkText(m: Mark, rest: seq<byte>): seq<byte> {
    match m
    case Plain => rest
    case Bang => [33] + rest
    case Star => [42] + rest
  }

  /** The format's tokens, in front of rest. */
  function Format(p: Pattern, rest: seq<byte>): seq<byte>
    decreases p, 0
  {
    match p
    case PString => [115] + rest
    case PStringLength => [115, 37] + rest
    case PInt => [105] + rest
    case PWide => [73] + rest
    case PBool => [98] + rest
    case PReal => [102] + rest
    case PNumber => [70] + rest
    case PJson(shared) => [Reference(shared)] + rest
    case PNull => [110] + rest
    case PObject(fields, mark) => [123] + FieldsFormat(fields, MarkText(mark, [125] + rest))
    case PArray(items, mark) => [91] + ItemsFormat(items, MarkText(mark, [93] + rest))
  }

  function FieldsFormat(fields: seq<Field>, rest: seq<byte>): seq<byte>
    decreases fields, 0
  {
    if fields == [] then rest
    else
      var value := Format(fields[0].value, FieldsFormat(fields[1..], rest));
      if fields[0].optional then [115, 63] + value else [115] + value
  }

  function ItemsFormat(items: seq<Pattern>, rest: seq<byte>): seq<byte>
    decreases items, 0
  {
    if items == [] then rest else Format(items[0], ItemsFormat(items[1..], rest))
  }

  function Targets(n: nat, f: Flags): seq<Slot> { if f.validateOnly then [] else seq(n, _ => Target(true)) }

  /** The arguments: the keys, and a target for every value that is stored. */
  function Slots(p: Pattern, f: Flags, more: seq<Slot>): seq<Slot>
    decreases p, 0
  {
    match p
    case PStringLength => Targets(2, f) + more
    case PNull => more
    case PObject(fields, _) => FieldsSlots(fields, f, more)
    case PArray(items, _) => ItemsSlots(items, f, more)
    case _ => Targets(1, f) + more
  }

  function FieldsSlots(fields: seq<Field>, f: Flags, more: seq<Slot>): seq<Slot>
    decreases fields, 0
  {
    if fields == [] then more
    else [Slot.Key(Some(fields[0].key))] + Slots(fields[0].value, f, FieldsSlots(fields[1..], f, more))
  }

  function ItemsSlots(items: seq<Pattern>, f: Flags, more: seq<Slot>): seq<Slot>
    decreases items, 0
  {
    if items == [] then more else Slots(items[0], f, ItemsSlots(items[1..], f, more))
  }

  /** Keys are C strings; where nothing is stored, no length is asked for, as its '%' would be taken for a value. */
  predicate Askable(p: Pattern, f: Flags)
    decreases p, 0
  {
    match p
    case PStringLength => !f.validateOnly
    case PObject(fields, _) => FieldsAskable(fields, f)
    case PArray(items, _) => ItemsAskable(items, f)
    case _ => true
  }

  predicate FieldsAskable(fields: seq<Field>, f: Flags)
    decreases fields, 0
  {
    fields == [] || (0 !in fields[0].key && Askable(fields[0].value, f) && FieldsAskable(fields[1..], f))
  }

  predicate ItemsAskable(items: seq<Pattern>, f: Flags)
    decreases items, 0
  {
    items == [] || (Askable(items[0], f) && ItemsAskable(items[1..], f))
  }

  // ---- Unpacking ----

  /** What unpacking a pattern comes to. */
  function Expected(p: Pattern, root: Option<Json>, rest: seq<byte>, more: seq<Slot>, f: Flags): Step<seq<Out>, Slot> {
    if Fits(p, root, f) then Done(Stored(Outs(p, root), f), rest, more) else Fail
  }

  /** Validation alone stores nothing. */
  function Stored(outs: seq<Out>, f: Flags): seq<Out> { if f.validateOnly then [] else outs }

  /** No object under the root names a key twice. */
  ghost predicate Proper(root: Option<Json>) { root.Some? ==> JsonDump.Proper(root.value) }

  /**
    * json_unpack of any pattern, strict or not: it succeeds exactly when the value fits, and then
    * every target gets its value, and those under a missing optional key nothing.
    */
  lemma {:induction false} UnpackPattern(p: Pattern, root: Option<Json>, rest: seq<byte>, more: seq<Slot>, f: Flags)
    requires Askable(p, f) && Proper(root) && !Modifier(Head(rest))
    ensures UnpackValue(Format(p, rest), root, Slots(p, f, more), f) == Expected(p, root, rest, more, f)
    decreases p, 1
  {
    hide UnpackValue, UnpackPairs, UnpackItems, Fits, Outs;
    match p
    case PObject(fields, mark) => UnpackObject(fields, mark, root, rest, more, f);
    case PArray(items, mark) => UnpackArray(items, mark, root, rest, more, f);
    case _ => UnpackScalar(p, root, rest, more, f);
  }

  lemma UnpackScalar(p: Pattern, root: Option<Json>, rest: seq<byte>, more: seq<Slot>, f: Flags)
    requires !p.PObject? && !p.PArray? && Askable(p, f) && !Modifier(Head(rest))
    ensures UnpackValue(Format(p, rest), root, Slots(p, f, more), f) == Expected(p, root, rest, more, f)
  {
    hide UnpackValue, Expected, Format, Slots;
    if p.PString? || p.PStringLength? {
      UnpackText(p, root, rest, more, f);
    } else if p.PInt? || p.PWide? || p.PReal? || p.PNumber? {
      UnpackNumber(p, root, rest, more, f);
    } else {
      UnpackOther(p, root, rest, more, f);
    }
  }

  lemma UnpackNumber(p: Pattern, root: Option<Json>, rest: seq<byte>, more: seq<Slot>, f: Flags)
    requires p.PInt? || p.PWide? || p.PReal? || p.PNumber?
    ensures UnpackValue(Format(p, rest), root, Slots(p, f, more), f) == Expected(p, root, rest, more, f)
  {
    hide UnpackPairs, UnpackItems, PackFormat.UnpackString, ToInt, Store, Slots;
    assert Format(p, rest)[1..] == rest;
    StoredOne(p, rest, more, f, Got(root, p));
  }

  lemma UnpackOther(p: Pattern, root: Option<Json>, rest: seq<byte>, more: seq<Slot>, f: Flags)
    requires p.PBool? || p.PJson? || p.PNull?
    ensures UnpackValue(Format(p, rest), root, Slots(p, f, more), f) == Expected(p, root, rest, more, f)
  {
    hide UnpackPairs, UnpackItems, PackFormat.UnpackString, Store;
    assert Format(p, rest)[1..] == rest;
    if !p.PNull? {
      StoredOne(p, rest, more, f, Got(root, p));
    }
  }

  /** One target takes one value, unless nothing is stored. */
  lemma StoredOne(p: Pattern, rest: seq<byte>, more: seq<Slot>, f: Flags, o: Out)
    requires !p.PObject? && !p.PArray? && !p.PStringLength? && !p.PNull?
    ensures Store(rest, Slots(p, f, more), f, o) == Done(Stored([o], f), rest, more)
  {
    var args := Slots(p, f, more);
    assert if f.validateOnly then args == more else args[1..] == more;
  }

  lemma UnpackText(p: Pattern, root: Option<Json>, rest: seq<byte>, more: seq<Slot>, f: Flags)
    requires (p.PString? || p.PStringLength?) && Askable(p, f) && !Modifier(Head(rest))
    ensures UnpackValue(Format(p, rest), root, Slots(p, f, more), f) == Expected(p, root, rest, more, f)
  {
    hide UnpackPairs, UnpackItems;
    var ts, args := Format(p, rest), Slots(p, f, more);
    if p.PStringLength? {
      assert ts[1..] == [37] + rest && ts[1..][1..] == rest && args[2..] == more;
    } else {
      assert ts[1..] == rest;
      assert if f.validateOnly then args == more else args[1..] == more;
    }
  }

  lemma FormatStarts(p: Pattern, rest: seq<byte>)
    ensures var t := Head(Format(p, rest)); !Modifier(t) && t !in [0, 33, 42, 93, 125]
  {
  }

  // ---- Objects ----

  function NameAll(named: seq<Entry<()>>, fields: seq<Field>): seq<Entry<()>>
    decreases fields
  {
    if fields == [] then named else NameAll(Set(named, fields[0].key, ()), fields[1..])
  }

  predicate AnyOptional(fields: seq<Field>) {
    fields != [] && (fields[0].optional || AnyOptional(fields[1..]))
  }

  lemma {:induction false} NamedKeys(named: seq<Entry<()>>, fields: seq<Field>, k: OrderedMap.Key)
    ensures Get(NameAll(named, fields), k).Some? <==> Get(named, k).Some? || NamesKey(fields, k)
    decreases fields
  {
    if fields != [] {
      hide Get, Set;
      NamedKeys(Set(named, fields[0].key, ()), fields[1..], k);
      GetSet(named, fields[0].key, (), k);
      if j :| 0 <= j < |fields| && fields[j].key == k && j > 0 {
        assert fields[1..][j - 1].key == k;
      }
      if j :| 0 <= j < |fields[1..]| && fields[1..][j].key == k {
        assert fields[j + 1].key == k;
      }
    }
  }

  lemma {:induction false} NamesFound(named: seq<Entry<()>>, fields: seq<Field>, ms: seq<Entry<Json>>, optional: bool,
        f: Flags)
    requires Found(ms, named, optional) && FieldsFit(fields, Some(ms), f)
    ensures Found(ms, NameAll(named, fields), optional || AnyOptional(fields))
    decreases fields
  {
    if fields != [] {
      hide Found, Fits;
      var opt := fields[0].optional;
      FoundMore(ms, named, optional, opt);
      FoundNext(ms, named, optional || opt, fields[0].key);
      NamesFound(Set(named, fields[0].key, ()), fields[1..], ms, optional || opt, f);
    }
  }

  lemma ObjectCloses(mark: Mark, ms: Option<seq<Entry<Json>>>, rest: seq<byte>, more: seq<Slot>, f: Flags,
        named: seq<Entry<()>>,
        optional: bool, outs: seq<Out>)
    ensures UnpackPairs(MarkText(mark, [125] + rest), ms, more, f, named, optional, outs)
         == if AllNamed(ms, named, optional, Strict(mark, f)) then Done(outs, rest, more) else Fail
  {
    hide AllNamed;
    var ts := MarkText(mark, [125] + rest);
    if mark.Plain? {
      assert ts[1..] == rest;
    } else {
      assert ts[1..] == [125] + rest && ts[2..] == rest;
    }
  }

  /** What unpack_object does with one field. */
  lemma FieldStep(x: Field, ts: seq<byte>, ms: Option<seq<Entry<Json>>>, args: seq<Slot>, f: Flags,
        named: seq<Entry<()>>,
        optional: bool, outs: seq<Out>)
    requires 0 !in x.key && !Modifier(Head(ts))
    ensures UnpackPairs((if x.optional then [115, 63] else [115]) + ts, ms, [Slot.Key(Some(x.key))] + args, f, named,
                        optional, outs)
         == if ms.Some? && Get(ms.value, x.key).None? && !x.optional then Fail
            else match UnpackValue(ts, Member(ms, x.key), args, f)
              case Fail => Fail
              case Mismatch => Mismatch
              case Done(os, rest', args') =>
                UnpackPairs(rest', ms, args', f, Set(named, x.key, ()), optional || x.optional, outs + os)
  {
    hide UnpackValue, Get, Set;
    CStringWhole(x.key);
    var all := (if x.optional then [115, 63] else [115]) + ts;
    assert ([Slot.Key(Some(x.key))] + args)[1..] == args;
    if x.optional {
      assert all[1..] == [63] + ts && all[2..] == ts;
    } else {
      assert all[1..] == ts;
    }
  }

  ghost predicate MembersProper(ms: Option<seq<Entry<Json>>>) { ms.Some? ==> JsonDump.Proper(Object(ms.value)) }

  lemma MemberProper(ms: Option<seq<Entry<Json>>>, k: OrderedMap.Key)
    requires MembersProper(ms)
    ensures Proper(Member(ms, k))
  {
    if ms.Some? && Get(ms.value, k).Some? {
      GetAbsent(ms.value, k);
      var i :| 0 <= i < |ms.value| && ms.value[i].key == k;
      GetAt(ms.value, i);
    }
  }

  lemma {:induction false} UnpackFields(fields: seq<Field>, mark: Mark, ms: Option<seq<Entry<Json>>>, rest: seq<byte>,
        more: seq<Slot>,
                                        f: Flags, named: seq<Entry<()>>, optional: bool, outs: seq<Out>)
    requires FieldsAskable(fields, f) && MembersProper(ms) && !Modifier(Head(rest))
    ensures UnpackPairs(FieldsFormat(fields, MarkText(mark, [125] + rest)), ms, FieldsSlots(fields, f, more), f, named,
                        optional, outs)
         == if FieldsFit(fields, ms, f)
               && AllNamed(ms, NameAll(named, fields), optional || AnyOptional(fields), Strict(mark, f))
            then Done(outs + Stored(FieldsOuts(fields, ms), f), rest, more) else Fail
    decreases fields, 0
  {
    hide UnpackValue, UnpackPairs, AllNamed, Get, Set, Fits, Outs, Format, Slots, MembersProper, Modifier;
    if fields == [] {
      assert outs + [] == outs;
      ObjectCloses(mark, ms, rest, more, f, named, optional, outs);
    } else {
      var x, tail := fields[0], fields[1..];
      var ts, args := FieldsFormat(tail, MarkText(mark, [125] + rest)), FieldsSlots(tail, f, more);
      var root := Member(ms, x.key);
      FieldsFollow(tail, mark, rest);
      MemberProper(ms, x.key);
      FormatStarts(x.value, ts);
      UnpackPattern(x.value, root, ts, args, f);
      FieldStep(x, Format(x.value, ts), ms, Slots(x.value, f, args), f, named, optional, outs);
      UnpackFields(tail, mark, ms, rest, more, f, Set(named, x.key, ()), optional || x.optional,
        outs + Stored(Outs(x.value, root), f));
      Regroup(outs, Stored(Outs(x.value, root), f), Stored(FieldsOuts(tail, ms), f));
    }
  }

  lemma FieldsFollow(fields: seq<Field>, mark: Mark, rest: seq<byte>)
    ensures !Modifier(Head(FieldsFormat(fields, MarkText(mark, [125] + rest))))
  {
  }

  lemma UnpackObject(fields: seq<Field>, mark: Mark, root: Option<Json>, rest: seq<byte>, more: seq<Slot>, f: Flags)
    requires FieldsAskable(fields, f) && Proper(root) && !Modifier(Head(rest))
    ensures var p := PObject(fields, mark);
      UnpackValue(Format(p, rest), root, Slots(p, f, more), f) == Expected(p, root, rest, more, f)
    decreases fields, 1
  {
    hide UnpackPairs, UnpackItems, FieldsFit, FieldsOuts, FieldsFormat, FieldsSlots, AllNamed, NameAll, NamesKey,
      Found, Strict;
    var p := PObject(fields, mark);
    var ts := FieldsFormat(fields, MarkText(mark, [125] + rest));
    assert ([123] + ts)[1..] == ts;
    if root.None? || root.value.Object? {
      var ms := if root.None? then None else Some(root.value.members);
      UnpackFields(fields, mark, ms, rest, more, f, [], false, []);
      assert [] + Stored(FieldsOuts(fields, ms), f) == Stored(FieldsOuts(fields, ms), f);
      if ms.None? {
        SkippedFit(fields, mark, f);
      } else if FieldsFit(fields, ms, f) {
        ClosesWhenNamed(fields, mark, ms.value, f);
      }
    }
  }

  /** Without a value everything fits. */
  lemma {:induction false} SkippedFit(fields: seq<Field>, mark: Mark, f: Flags)
    ensures FieldsFit(fields, None, f) && AllNamed(None, NameAll([], fields), AnyOptional(fields), Strict(mark, f))
  {
    if fields != [] {
      SkippedFit(fields[1..], mark, f);
    }
  }

  lemma NothingNamed(ms: seq<Entry<Json>>)
    ensures Found(ms, [], false)
  {
  }

  lemma ClosesWhenNamed(fields: seq<Field>, mark: Mark, ms: seq<Entry<Json>>, f: Flags)
    requires FieldsFit(fields, Some(ms), f) && Distinct(ms)
    ensures AllNamed(Some(ms), NameAll([], fields), AnyOptional(fields), Strict(mark, f))
       <==> (Strict(mark, f) ==> forall i :: 0 <= i < |ms| ==> NamesKey(fields, ms[i].key))
  {
    NothingNamed(ms);
    hide FieldsFit, NamesKey, Found;
    var named := NameAll([], fields);
    NamesFound([], fields, ms, false, f);
    CountIsEnough(ms, named, AnyOptional(fields));
    forall k
      ensures Get(named, k).Some? <==> NamesKey(fields, k)
    {
      NamedKeys([], fields, k);
    }
    hide Get, NameAll, AnyOptional;
  }

  // ---- Arrays ----

  lemma ArrayCloses(mark: Mark, js: Option<seq<Json>>, rest: seq<byte>, more: seq<Slot>, f: Flags, i: nat,
        outs: seq<Out>)
    ensures UnpackItems(MarkText(mark, [93] + rest), js, more, f, i, outs)
         == if js.Some? && Strict(mark, f) && i != |js.value| then Fail else Done(outs, rest, more)
  {
    var ts := MarkText(mark, [93] + rest);
    if mark.Plain? {
      assert ts[1..] == rest;
    } else {
      assert ts[1..] == [93] + rest && ts[2..] == rest;
    }
  }

  /** What unpack_array does with one element. */
  lemma ElementStep(ts: seq<byte>, js: Option<seq<Json>>, args: seq<Slot>, f: Flags, i: nat, outs: seq<Out>)
    requires Head(ts) !in [0, 33, 42, 93]
    ensures UnpackItems(ts, js, args, f, i, outs)
         == if js.Some? && i >= |js.value| then Fail
            else match UnpackValue(ts, Element(js, i), args, f)
              case Fail => Fail
              case Mismatch => Mismatch
              case Done(os, rest', args') => UnpackItems(rest', js, args', f, i + 1, outs + os)
  {
    hide UnpackValue;
  }

  ghost predicate ElementsProper(js: Option<seq<Json>>) { js.Some? ==> JsonDump.Proper(Array(js.value)) }

  lemma {:induction false} UnpackElements(items: seq<Pattern>, mark: Mark, js: Option<seq<Json>>, rest: seq<byte>,
        more: seq<Slot>, f: Flags,
                                          i: nat, outs: seq<Out>)
    requires ItemsAskable(items, f) && ElementsProper(js) && !Modifier(Head(rest))
    requires js.Some? ==> i <= |js.value|
    ensures UnpackItems(ItemsFormat(items, MarkText(mark, [93] + rest)), js, ItemsSlots(items, f, more), f, i, outs)
         == if ItemsFit(items, js, i, f)
               && (js.Some? ==> i + |items| <= |js.value| && (Strict(mark, f) ==> i + |items| == |js.value|))
            then Done(outs + Stored(ItemsOuts(items, js, i), f), rest, more) else Fail
    decreases items, 0
  {
    hide UnpackValue, UnpackItems, Fits, Outs, Format, Slots, Modifier, Strict, MarkText;
    if items == [] {
      assert outs + [] == outs;
      ArrayCloses(mark, js, rest, more, f, i, outs);
    } else {
      var x, tail := items[0], items[1..];
      var ts, args := ItemsFormat(tail, MarkText(mark, [93] + rest)), ItemsSlots(tail, f, more);
      ItemsFollow(tail, mark, rest);
      FormatStarts(x, ts);
      UnpackPattern(x, Element(js, i), ts, args, f);
      ElementStep(Format(x, ts), js, Slots(x, f, args), f, i, outs);
      if js.None? || i < |js.value| {
        UnpackElements(tail, mark, js, rest, more, f, i + 1, outs + Stored(Outs(x, Element(js, i)), f));
      }
      Regroup(outs, Stored(Outs(x, Element(js, i)), f), Stored(ItemsOuts(tail, js, i + 1), f));
    }
  }

  lemma ItemsFollow(items: seq<Pattern>, mark: Mark, rest: seq<byte>)
    ensures !Modifier(Head(ItemsFormat(items, MarkText(mark, [93] + rest))))
  {
    if items != [] {
      FormatStarts(items[0], ItemsFormat(items[1..], MarkText(mark, [93] + rest)));
    }
  }

  lemma UnpackArray(items: seq<Pattern>, mark: Mark, root: Option<Json>, rest: seq<byte>, more: seq<Slot>, f: Flags)
    requires ItemsAskable(items, f) && Proper(root) && !Modifier(Head(rest))
    ensures var p := PArray(items, mark);
      UnpackValue(Format(p, rest), root, Slots(p, f, more), f) == Expected(p, root, rest, more, f)
    decreases items, 1
  {
    hide UnpackPairs, UnpackItems, ItemsFit, ItemsOuts, ItemsFormat, ItemsSlots, Strict;
    var p := PArray(items, mark);
    var ts := ItemsFormat(items, MarkText(mark, [93] + rest));
    assert ([91] + ts)[1..] == ts;
    if root.None? || root.value.Array? {
      var js := if root.None? then None else Some(root.value.items);
      UnpackElements(items, mark, js, rest, more, f, 0, []);
      assert [] + Stored(ItemsOuts(items, js, 0), f) == Stored(ItemsOuts(items, js, 0), f);
      if js.None? {
        SkippedItemsFit(items, 0, f);
      }
    }
  }

  lemma {:induction false} SkippedItemsFit(items: seq<Pattern>, i: nat, f: Flags)
    ensures ItemsFit(items, None, i, f)
  {
    if items != [] {
      SkippedItemsFit(items[1..], i + 1, f);
    }
  }

  // ---- Whole formats ----

  /** What a format may hold between its tokens. */
  lemma IgnoredBytes(c: byte)
    ensures Ignored(c) <==> c in Chars(" \t\n,:")
  {
    assert Chars(" \t\n,:") == [32, 9, 10, 44, 58];
  }

  /** json_unpack with a pattern's format. */
  lemma UnpackWhole(p: Pattern, fmt: seq<byte>, root: Json, f: Flags)
    requires Tokens(fmt) == Format(p, []) && Askable(p, f) && JsonDump.Proper(root)
    ensures UnpackResult(Tokens(fmt), root, Slots(p, f, []), f)
         == if Fits(p, Some(root), f) then Ok(Stored(Outs(p, Some(root)), f)) else Failed
  {
    hide Tokens, UnpackValue, Fits, Outs, Slots, Askable;
    UnpackPattern(p, Some(root), [], [], f);
  }

  /** A missing value leaves every target under it untouched. */
  lemma {:induction false} SkippedUntouched(p: Pattern, i: nat)
    requires i < |Outs(p, None)|
    ensures Outs(p, None)[i] == Untouched
    decreases p, 1
  {
    match p
    case PObject(fields, _) => SkippedFields(fields, i);
    case PArray(items, _) => SkippedItems(items, 0, i);
    case _ =>
  }

  lemma {:induction false} SkippedFields(fields: seq<Field>, i: nat)
    requires i < |FieldsOuts(fields, None)|
    ensures FieldsOuts(fields, None)[i] == Untouched
    decreases fields, 0
  {
    var first := Outs(fields[0].value, None);
    if i < |first| {
      SkippedUntouched(fields[0].value, i);
    } else {
      SkippedFields(fields[1..], i - |first|);
    }
  }

  lemma {:induction false} SkippedItems(items: seq<Pattern>, from: nat, i: nat)
    requires i < |ItemsOuts(items, None, from)|
    ensures ItemsOuts(items, None, from)[i] == Untouched
    decreases items, 0
  {
    var first := Outs(items[0], None);
    if i < |first| {
      SkippedUntouched(items[0], i);
    } else {
      SkippedItems(items[1..], from + 1, i - |first|);
    }
  }

  /** Where nothing is stored, a string's length cannot be asked for: the format is refused. */
  lemma LengthNotValidated(s: seq<byte>, strict: bool)
    ensures UnpackResult([115, 37], String(s), [], Flags(strict, true)) == Failed
    ensures UnpackResult([115, 37], String(s), Targets(2, Flags(strict, false)), Flags(strict, false)) ==
      Ok([OString(s), OLength(|s|)])
  {
    var f := Flags(strict, false);
    assert Askable(PStringLength, f);
    UnpackScalar(PStringLength, Some(String(s)), [], [], f);
    assert Targets(2, f) + [] == Targets(2, f) && [115, 37] + [] == [115, 37];
  }

  // ---- Unpacking what was packed ----

  /** The pattern that reads a packed value back: what was packed as null is read as null. */
  function ReadBack(v: Typed): Pattern
    decreases v, 0
  {
    match v
    case TString(_) => PString
    case TMaybeString(s) => if s.Some? then PString else PNull
    case TParts(_) => PString
    case TInt(_) => PInt
    case TWide(_) => PWide
    case TBool(_) => PBool
    case TReal(_) => PReal
    case TNull => PNull
    case TJson(_, shared) => PJson(shared)
    case TMaybeJson(_, shared) => PJson(shared)
    case TObject(fields) => PObject(ReadFields(fields), Plain)
    case TArray(items) => PArray(ReadItems(items), Plain)
  }

  function ReadFields(fields: seq<Entry<Typed>>): (r: seq<Field>)
    ensures |r| == |fields| && forall i :: 0 <= i < |r| ==> r[i].key == fields[i].key
    decreases fields, 0
  {
    if fields == [] then [] else [Field(fields[0].key, false, ReadBack(fields[0].value))] + ReadFields(fields[1..])
  }

  function ReadItems(items: seq<Typed>): (r: seq<Pattern>)
    ensures |r| == |items|
    decreases items, 0
  {
    if items == [] then [] else [ReadBack(items[0])] + ReadItems(items[1..])
  }

  /** The packed arguments, as the targets should get them. */
  function Packed(v: Typed): seq<Out>
    decreases v, 0
  {
    match v
    case TString(s) => [OString(s)]
    case TMaybeString(s) => if s.Some? then [OString(s.value)] else []
    case TParts(parts) => if PartsOk(parts) then [OString(Joined(parts))] else []
    case TInt(i) => [OInt(i)]
    case TWide(i) => [OInt(i)]
    case TBool(b) => [OBool(b)]
    case TReal(t) => [ONumber(Real(t))]
    case TNull => []
    case TJson(j, _) => [OJson(j)]
    case TMaybeJson(j, _) => [OJson(if j.Some? then j.value else Null)]
    case TObject(fields) => PackedFields(fields)
    case TArray(items) => PackedItems(items)
  }

  function PackedFields(fields: seq<Entry<Typed>>): seq<Out>
    decreases fields, 0
  {
    if fields == [] then [] else Packed(fields[0].value) + PackedFields(fields[1..])
  }

  function PackedItems(items: seq<Typed>): seq<Out>
    decreases items, 0
  {
    if items == [] then [] else Packed(items[0]) + PackedItems(items[1..])
  }

  /** A packed value fits the pattern that reads it back, and the targets get the packed arguments. */
  lemma {:induction false} ReadBackFits(v: Typed, f: Flags)
    requires Typable(v)
    ensures Fits(ReadBack(v), Some(Value(v)), f) && Outs(ReadBack(v), Some(Value(v))) == Packed(v)
    ensures Askable(ReadBack(v), f)
    decreases v, 1
  {
    hide Fits, Outs;
    match v
    case TObject(fields) => ObjectBack(fields, f);
    case TArray(items) => ArrayBack(items, f);
    case _ => ScalarBack(v, f);
  }

  lemma ScalarBack(v: Typed, f: Flags)
    requires Typable(v) && !v.TObject? && !v.TArray?
    ensures Fits(ReadBack(v), Some(Value(v)), f) && Outs(ReadBack(v), Some(Value(v))) == Packed(v)
    ensures Askable(ReadBack(v), f)
  {
  }

  lemma {:induction false} ObjectBack(fields: seq<Entry<Typed>>, f: Flags)
    requires Typable(TObject(fields))
    ensures var v := TObject(fields);
      Fits(ReadBack(v), Some(Value(v)), f) && Outs(ReadBack(v), Some(Value(v))) == Packed(v) && Askable(ReadBack(v), f)
    decreases fields, 1
  {
    var ms := Members(fields);
    hide FieldsFit, FieldsOuts, FieldsAskable, ReadFields, PackedFields, Typable;
    FieldsBack(fields, ms, 0, f);
    assert fields[0..] == fields;
    forall i | 0 <= i < |ms|
      ensures NamesKey(ReadFields(fields), ms[i].key)
    {
      assert ReadFields(fields)[i].key == ms[i].key;
    }
  }

  lemma {:induction false} FieldsBack(fields: seq<Entry<Typed>>, ms: seq<Entry<Json>>, i: nat, f: Flags)
    requires Typable(TObject(fields)) && ms == Members(fields) && i <= |fields|
    ensures var r := ReadFields(fields[i..]);
      FieldsFit(r, Some(ms), f) && FieldsOuts(r, Some(ms)) == PackedFields(fields[i..]) && FieldsAskable(r, f)
    decreases fields, 0, |fields| - i
  {
    hide Fits, Outs, Askable, Value, ReadBack, Packed;
    if i < |fields| {
      assert fields[i..][1..] == fields[i + 1..];
      FieldsBack(fields, ms, i + 1, f);
      ReadBackFits(fields[i].value, f);
      assert ms[i] == Entry(fields[i].key, Value(fields[i].value));
      assert Distinct(ms);
      GetAt(ms, i);
      hide Typable;
    }
  }

  lemma {:induction false} ArrayBack(items: seq<Typed>, f: Flags)
    requires Typable(TArray(items))
    ensures var v := TArray(items);
      Fits(ReadBack(v), Some(Value(v)), f) && Outs(ReadBack(v), Some(Value(v))) == Packed(v) && Askable(ReadBack(v), f)
    decreases items, 1
  {
    hide ItemsFit, ItemsOuts, ItemsAskable, ReadItems, PackedItems, Typable;
    ItemsBack(items, Items(items), 0, f);
    assert items[0..] == items;
  }

  lemma {:induction false} ItemsBack(items: seq<Typed>, js: seq<Json>, i: nat, f: Flags)
    requires Typable(TArray(items)) && js == Items(items) && i <= |items|
    ensures var r := ReadItems(items[i..]);
      ItemsFit(r, Some(js), i, f) && ItemsOuts(r, Some(js), i) == PackedItems(items[i..]) && ItemsAskable(r, f)
    decreases items, 0, |items| - i
  {
    hide Fits, Outs, Askable, Value, ReadBack, Packed;
    if i < |items| {
      assert items[i..][1..] == items[i + 1..];
      ItemsBack(items, js, i + 1, f);
      ReadBackFits(items[i], f);
    }
  }

  /** Where no modifier and no '?' is used, one format serves to pack and to unpack. */
  predicate Unmodified(v: Typed)
    decreases v, 0
  {
    match v
    case TObject(fields) => forall i :: 0 <= i < |fields| ==> Unmodified(fields[i].value)
    case TArray(items) => forall i :: 0 <= i < |items| ==> Unmodified(items[i])
    case _ => !v.TMaybeString? && !v.TParts? && !v.TMaybeJson?
  }

  lemma {:induction false} SameFormat(v: Typed, rest: seq<byte>)
    requires Unmodified(v)
    ensures Format(ReadBack(v), rest) == Text(v, rest)
    decreases v, 1
  {
    match v
    case TObject(fields) => SameFields(fields, [125] + rest);
    case TArray(items) => SameItems(items, [93] + rest);
    case _ =>
  }

  lemma {:induction false} SameFields(fields: seq<Entry<Typed>>, rest: seq<byte>)
    requires forall i :: 0 <= i < |fields| ==> Unmodified(fields[i].value)
    ensures FieldsFormat(ReadFields(fields), rest) == FieldsText(fields, rest)
    decreases fields, 0
  {
    if fields != [] {
      SameFields(fields[1..], rest);
      SameFormat(fields[0].value, FieldsText(fields[1..], rest));
      assert ReadFields(fields)[1..] == ReadFields(fields[1..]);
    }
  }

  lemma {:induction false} SameItems(items: seq<Typed>, rest: seq<byte>)
    requires forall i :: 0 <= i < |items| ==> Unmodified(items[i])
    ensures ItemsFormat(ReadItems(items), rest) == ItemsText(items, rest)
    decreases items, 0
  {
    if items != [] {
      SameItems(items[1..], rest);
      SameFormat(items[0], ItemsText(items[1..], rest));
      assert ReadItems(items)[1..] == ReadItems(items[1..]);
    }
  }

  /** The JSON values given to json_pack name no key twice. */
  ghost predicate ProperInside(v: Typed) {
    match v
    case TJson(j, _) => JsonDump.Proper(j)
    case TMaybeJson(j, _) => j.Some? ==> JsonDump.Proper(j.value)
    case TObject(fields) => forall i :: 0 <= i < |fields| ==> ProperInside(fields[i].value)
    case TArray(items) => forall i :: 0 <= i < |items| ==> ProperInside(items[i])
    case _ => true
  }

  lemma {:induction false} PackedProper(v: Typed)
    requires Typable(v) && ProperInside(v)
    ensures JsonDump.Proper(Value(v))
  {
    match v
    case TObject(fields) =>
      forall i | 0 <= i < |fields| ensures JsonDump.Proper(Members(fields)[i].value) { PackedProper(fields[i].value); }
    case TArray(items) =>
      forall i | 0 <= i < |items| ensures JsonDump.Proper(Items(items)[i]) { PackedProper(items[i]); }
    case _ =>
  }

  /**
    * json_pack of a format and its arguments, then json_unpack of the result: the arguments come
    * back, strict or not, and a null comes back as null.
    */
  lemma UnpackPacked(v: Typed, packed: seq<byte>, fmt: seq<byte>, strict: bool)
    requires Typable(v) && ProperInside(v) && Tokens(packed) == Text(v, []) && Tokens(fmt) == Format(ReadBack(v), [])
    ensures PackResult(Tokens(packed), Args(v, [])) == Ok(Value(v))
    ensures UnpackResult(Tokens(fmt), Value(v), Slots(ReadBack(v), Flags(strict, false), []), Flags(strict, false)) ==
      Ok(Packed(v))
  {
    hide Tokens, PackValue, Typable, ProperInside, Fits, Outs, Askable, Slots, UnpackResult;
    var f := Flags(strict, false);
    PackTyped(v, [], []);
    PackedProper(v);
    ReadBackFits(v, f);
    UnpackWhole(ReadBack(v), fmt, Value(v), f);
  }
}
