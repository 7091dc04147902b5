/**
  * The settings of src/data.c as values: conversion from JSON and back, at every depth. A list of
  * items is a map sorted by name (module DataList proves that of the linked list).
  */
module Settings {
  import opened Bytes
  import opened Utf8
  import opened OrderedMap
  import opened SortedMap
  import opened JsonValue
  import opened JsonRoundTrip
  import opened JsonParse
  import ItemBlock
  import JsonDump

  type Kind = ItemBlock.Kind

  /** What a slot was set to; a null object or array reference takes up a slot like any other. */
  datatype Setting =
    | Text(text: seq<byte>)
    | Int(value: int)
    | Double(text: seq<byte>)
    | Bool(isTrue: bool)
    | Nested(data: Data)
    | List(objects: seq<Store>)
    | NoObject
    | NoArray

  /** The type a setter is called with for the value. */
  function KindOf(s: Setting): Kind {
    match s
    case Text(_) => Kind.Text
    case Int(_) => Kind.Number
    case Double(_) => Kind.Number
    case Bool(_) => Kind.Boolean
    case Nested(_) => Kind.Object
    case NoObject => Kind.Object
    case List(_) => Kind.Array
    case NoArray => Kind.Array
  }

  /** One type for all three slots: the one the last setter was called with. */
  datatype Item = Item(kind: Kind, user: Option<Setting>, default: Option<Setting>, autoselect: Option<Setting>)

  type Data = seq<Entry<Item>>

  /** An object of an array. */
  datatype Store = Store(data: Data)

  // ---- Setting ----

  /** set_item: gives the name a user value and its item the type. */
  function SetRaw(d: Data, name: Key, kind: Kind, s: Setting): Data {
    match Get(d, name)
    case None => Put(d, name, Item(kind, Some(s), None, None))
    case Some(item) => Put(d, name, item.(kind := kind, user := Some(s)))
  }

  function SetUser(d: Data, name: Key, s: Setting): Data {
    SetRaw(d, name, KindOf(s), s)
  }

  /** set_item_def: nothing happens to an item of another type. */
  function SetDefault(d: Data, name: Key, s: Setting): Data {
    match Get(d, name)
    case None => Put(d, name, Item(KindOf(s), None, Some(s), None))
    case Some(item) => if item.kind != KindOf(s) then d else Put(d, name, item.(default := Some(s)))
  }

  /** set_item_auto: the item's type changes with the value. */
  function SetAutoselect(d: Data, name: Key, s: Setting): Data {
    match Get(d, name)
    case None => Put(d, name, Item(KindOf(s), None, None, Some(s)))
    case Some(item) => Put(d, name, item.(kind := KindOf(s), autoselect := Some(s)))
  }

  // ---- Reading ----

  /** A slot as the item's type shows it; foreign bytes are those of a value of another kind. */
  datatype View<S> = Empty | Value(setting: S) | Foreign(kind: Kind, setting: S)

  function Read(kind: Kind, slot: Option<Setting>): View<Setting> {
    if slot.None? then Empty else if KindOf(slot.value) == kind then Value(slot.value) else Foreign(kind, slot.value)
  }

  /** data_item_get_string; nothing is said of foreign bytes read as a string. */
  function StringOf(kind: Kind, slot: Option<Setting>): Option<seq<byte>> {
    if kind != Kind.Text || slot.None? then Some([])
    else if slot.value.Text? then Some(slot.value.text)
    else None
  }

  /** Kinds whose value itself stands in the slot. */
  predicate Direct(kind: Kind) {
    kind != Kind.Object && kind != Kind.Array
  }

  /** Replacing a value releases its bytes as the pointer that the item's type says; a null one is passed over. */
  predicate Releasable(kind: Kind, slot: Option<Setting>) {
    slot.None? || Direct(kind) || slot.value.NoObject? || slot.value.NoArray? || KindOf(slot.value) == kind
  }

  /** The user value of a name, if it has one, can be replaced without following a stray pointer. */
  predicate UserReleasable(item: Option<Item>) {
    item.None? || Releasable(item.value.kind, item.value.user)
  }

  /** What the machine makes of the bytes of a value read as one of another such kind. */
  type Machine = (Kind, Setting) -> Setting

  ghost predicate Typed(m: Machine) {
    forall kind, s :: Direct(kind) ==> KindOf(m(kind, s)) == kind
  }

  // ---- From JSON ----

  /** wsc_data_add_json_item; a null sets nothing. */
  function AddItem(d: Data, name: Key, j: Json): Data
    decreases j, 2
  {
    match j
    case Null => d
    case Object(ms) => SetUser(d, name, Nested(AddMembers([], ms)))
    case Array(items) => SetUser(d, name, List(AddObjects(items)))
    case String(s) => SetUser(d, name, Text(s))
    case Integer(i) => SetUser(d, name, Int(i))
    case Real(t) => SetUser(d, name, Double(t))
    case True => SetUser(d, name, Bool(true))
    case False => SetUser(d, name, Bool(false))
  }

  /** wsc_data_add_json_object_data: the members in order. */
  function AddMembers(d: Data, ms: seq<Entry<Json>>): Data
    decreases ms, 1
  {
    if ms == [] then d
    else
      var last := |ms| - 1;
      AddItem(AddMembers(d, ms[..last]), ms[last].key, ms[last].value)
  }

  /** The elements wsc_data_add_json_array keeps. */
  function AddObjects(items: seq<Json>): seq<Store>
    decreases items, 0
  {
    if items == [] then []
    else if items[0].Object? then [Store(AddMembers([], items[0].members))] + AddObjects(items[1..])
    else AddObjects(items[1..])
  }

  // ---- To JSON ----

  /** What a writer does: nothing, one member, or following bytes that are no pointer of the item's type. */
  datatype Member = Unset | Wrote(json: Json) | Stray

  /** A value under its own type; json_object_set_new refuses a string that is not UTF-8. */
  function ToJson(s: Setting, m: Machine): Member
    decreases s, 0
  {
    match s
    case Text(t) => if CheckText(t) then Wrote(String(t)) else Unset
    case Int(i) => Wrote(Integer(i))
    case Double(t) => Wrote(Real(t))
    case Bool(b) => Wrote(if b then True else False)
    case Nested(d) => (match Export(d, m) case None => Stray case Some(ms) => Wrote(Object(ms)))
    case List(ds) => (match ExportAll(ds, m) case None => Stray case Some(js) => Wrote(Array(js)))
    case NoObject => Wrote(Object([]))
    case NoArray => Wrote(Array([]))
  }

  /** Foreign bytes under the item's type; only a null reference can be followed as well as the other. */
  function ForeignJson(kind: Kind, s: Setting, m: Machine): Member {
    if kind == Kind.Object then if s.NoArray? then Wrote(Object([])) else Stray
    else if kind == Kind.Array then if s.NoObject? then Wrote(Array([])) else Stray
    else
      match m(kind, s)
      case Text(t) => if CheckText(t) then Wrote(String(t)) else Unset
      case Int(i) => Wrote(Integer(i))
      case Double(t) => Wrote(Real(t))
      case Bool(b) => Wrote(if b then True else False)
      case _ => Stray
  }

  /** The user value, by the writer of the item's type. */
  function ItemJson(item: Item, m: Machine): Member
    decreases item, 0
  {
    if item.user.None? then Unset
    else if KindOf(item.user.value) == item.kind then ToJson(item.user.value, m)
    else ForeignJson(item.kind, item.user.value, m)
  }

  /** wsc_data_to_json: every item with a user value, in list order; None where a stray pointer is followed. */
  function Export(d: Data, m: Machine): Option<seq<Entry<Json>>>
    decreases d, 0
  {
    if d == [] then Some([])
    else
      var last := d[|d| - 1];
      SetMember(Export(d[..|d| - 1], m), last.key, ItemJson(last.value, m))
  }

  /** json_object_set_new: nothing happens without a value or with a key that is not UTF-8. */
  function SetMember(ms: Option<seq<Entry<Json>>>, k: Key, j: Member): Option<seq<Entry<Json>>> {
    if ms.None? || j.Stray? then None
    else if j.Unset? || !CheckText(k) then ms
    else Some(Set(ms.value, k, j.json))
  }

  function ExportAll(ds: seq<Store>, m: Machine): (r: Option<seq<Json>>)
    ensures r.Some? ==> |r.value| == |ds|
    decreases ds, 0
  {
    if ds == [] then Some([])
    else
      var first, rest := Export(ds[0].data, m), ExportAll(ds[1..], m);
      if first.None? || rest.None? then None else Some([Object(first.value)] + rest.value)
  }

  // ---- The normal form ----

  /** A value with null members and non-object array elements dropped and keys in order, at every depth. */
  function Normal(j: Json): Json
    decreases j, 2
  {
    match j
    case Object(ms) => Object(NormalMembers(ms))
    case Array(items) => Array(NormalItems(items))
    case _ => j
  }

  function NormalMembers(ms: seq<Entry<Json>>): seq<Entry<Json>>
    decreases ms, 1
  {
    Sort(Kept(ms))
  }

  function Kept(ms: seq<Entry<Json>>): seq<Entry<Json>>
    decreases ms, 0
  {
    if ms == [] then []
    else if ms[0].value.Null? then Kept(ms[1..])
    else [Entry(ms[0].key, Normal(ms[0].value))] + Kept(ms[1..])
  }

  function NormalItems(items: seq<Json>): seq<Json>
    decreases items, 0
  {
    if items == [] then []
    else if items[0].Object? then [Normal(items[0])] + NormalItems(items[1..])
    else NormalItems(items[1..])
  }

  // ---- The laws of one level ----

  ghost predicate Ordered(d: Data) {
    SortedKeys(d) && Distinct(d)
  }

  lemma SetRawLaw(d: Data, name: Key, kind: Kind, s: Setting, k: Key)
    requires Ordered(d)
    ensures Ordered(SetRaw(d, name, kind, s))
    ensures Get(SetRaw(d, name, kind, s), k) == if k == name then Some(WithUser(Get(d, name), kind, s)) else Get(d, k)
  {
    hide Put, Get;
    PutLaw(d, name, WithUser(Get(d, name), kind, s), k);
  }

  /** set_item on the item of a name. */
  function WithUser(item: Option<Item>, kind: Kind, s: Setting): Item {
    match item
    case None => Item(kind, Some(s), None, None)
    case Some(i) => i.(kind := kind, user := Some(s))
  }

  /** The setting a JSON value that is not null becomes. */
  function FromJson(j: Json): Setting
    requires !j.Null?
  {
    match j
    case Object(ms) => Nested(AddMembers([], ms))
    case Array(items) => List(AddObjects(items))
    case String(s) => Text(s)
    case Integer(i) => Int(i)
    case Real(t) => Double(t)
    case True => Bool(true)
    case False => Bool(false)
  }

  /** An item with a user value only. */
  function Alone(s: Setting): Item {
    Item(KindOf(s), Some(s), None, None)
  }

  function Imported(v: Option<Json>): Option<Item> {
    if v.None? || v.value.Null? then None else Some(Alone(FromJson(v.value)))
  }

  /** Import keeps the names in order, and every name with a value that is not null. */
  lemma {:induction false} ImportLaw(ms: seq<Entry<Json>>)
    requires Distinct(ms)
    ensures Ordered(AddMembers([], ms))
    ensures forall k :: Get(AddMembers([], ms), k) == Imported(Get(ms, k))
  {
    if ms != [] {
      var front, e := ms[..|ms| - 1], ms[|ms| - 1];
      assert ms == front + [e];
      ImportLaw(front);
      var d := AddMembers([], front);
      hide AddMembers, Get, SetRaw, FromJson, Distinct, SortedKeys;
      forall k
        ensures Get(AddItem(d, e.key, e.value), k) == Imported(Get(ms, k))
      {
        AddLast(d, front, e, k);
      }
      AddLast(d, front, e, e.key);
      AddMembersStep(front, e);
    }
  }

  lemma AddMembersStep(front: seq<Entry<Json>>, e: Entry<Json>)
    ensures AddMembers([], front + [e]) == AddItem(AddMembers([], front), e.key, e.value)
  {
    assert (front + [e])[..|front|] == front;
  }

  lemma AddLast(d: Data, front: seq<Entry<Json>>, e: Entry<Json>, k: Key)
    requires Distinct(front + [e]) && Ordered(d) && forall k :: Get(d, k) == Imported(Get(front, k))
    ensures Ordered(AddItem(d, e.key, e.value))
    ensures Get(AddItem(d, e.key, e.value), k) == Imported(Get(front + [e], k))
  {
    hide Get, SetRaw, Ordered;
    GetLast(front, e, k);
    GetLast(front, e, e.key);
    GetAbsent(front, e.key);
    if !e.value.Null? {
      assert AddItem(d, e.key, e.value) == SetUser(d, e.key, FromJson(e.value));
      SetRawLaw(d, e.key, KindOf(FromJson(e.value)), FromJson(e.value), k);
    }
  }

  function Exported(item: Option<Item>, k: Key, m: Machine): Option<Json> {
    if item.None? || !CheckText(k) then None
    else
      match ItemJson(item.value, m)
      case Wrote(j) => Some(j)
      case _ => None
  }

  /** Whether no item makes the export follow a stray pointer. */
  ghost predicate Followed(d: Data, m: Machine) {
    forall i :: 0 <= i < |d| ==> !ItemJson(d[i].value, m).Stray?
  }

  lemma FollowedNext(front: Data, e: Entry<Item>, m: Machine)
    ensures Followed(front + [e], m) <==> Followed(front, m) && !ItemJson(e.value, m).Stray?
  {
    hide ItemJson;
    var d := front + [e];
    assert d[|front|] == e && forall i :: 0 <= i < |front| ==> d[i] == front[i];
  }

  lemma ExportNext(front: Data, e: Entry<Item>, m: Machine)
    ensures Export(front + [e], m) == SetMember(Export(front, m), e.key, ItemJson(e.value, m))
  {
    assert (front + [e])[..|front|] == front;
  }

  lemma {:induction false} ExportDefined(d: Data, m: Machine)
    ensures Export(d, m).Some? <==> Followed(d, m)
  {
    if d != [] {
      hide Export, Followed, ItemJson;
      var front, e := d[..|d| - 1], d[|d| - 1];
      assert d == front + [e];
      ExportDefined(front, m);
      ExportNext(front, e, m);
      FollowedNext(front, e, m);
    }
  }

  /** Export, where it ends, lists the names in order, each with what its item's writer wrote. */
  lemma {:induction false} ExportLaw(d: Data, m: Machine)
    requires Ordered(d) && Followed(d, m)
    ensures Export(d, m).Some? && SortedKeys(Export(d, m).value) && Distinct(Export(d, m).value)
    ensures forall k :: Get(Export(d, m).value, k) == Exported(Get(d, k), k, m)
  {
    if d != [] {
      var front, e := d[..|d| - 1], d[|d| - 1];
      assert d == front + [e];
      FollowedNext(front, e, m);
      ExportLaw(front, m);
      hide Export, Followed, ItemJson, SortedKeys, Get, Exported;
      ExportNext(front, e, m);
      ExportSorted(front, e, m);
      forall k
        ensures Get(Export(d, m).value, k) == Exported(Get(d, k), k, m)
      {
        ExportGet(front, e, m, k);
      }
    }
  }

  /** The last name has no member before its own. */
  lemma LastIsNew(front: Data, e: Entry<Item>, r: seq<Entry<Json>>, m: Machine)
    requires Distinct(front + [e]) && Get(r, e.key) == Exported(Get(front, e.key), e.key, m)
    ensures !Has(r, e.key)
  {
    hide Get, Has, Distinct;
    GetLast(front, e, e.key);
    GetAbsent(front, e.key);
    GetAbsent(r, e.key);
  }

  lemma ExportSorted(front: Data, e: Entry<Item>, m: Machine)
    requires Ordered(front + [e]) && Export(front, m).Some? && !ItemJson(e.value, m).Stray?
    requires SortedKeys(Export(front, m).value) && Distinct(Export(front, m).value)
    requires forall k :: Get(Export(front, m).value, k) == Exported(Get(front, k), k, m)
    ensures var r := SetMember(Export(front, m), e.key, ItemJson(e.value, m)); r.Some? && SortedKeys(r.value) && Distinct(r.value)
  {
    hide Get, Has, Distinct, SortedKeys, Exported, Export, ItemJson;
    var r, x := Export(front, m).value, ItemJson(e.value, m);
    LastIsNew(front, e, r, m);
    if x.Wrote? {
      SetAbsent(r, e.key, x.json);
      BelowLast(front, e, r, m);
      AppendSorted(r, Entry(e.key, x.json));
    }
  }

  lemma ExportGet(front: Data, e: Entry<Item>, m: Machine, k: Key)
    requires Distinct(front + [e]) && Export(front, m).Some? && !ItemJson(e.value, m).Stray?
    requires Get(Export(front, m).value, k) == Exported(Get(front, k), k, m)
    requires Get(Export(front, m).value, e.key) == Exported(Get(front, e.key), e.key, m)
    ensures Get(SetMember(Export(front, m), e.key, ItemJson(e.value, m)).value, k) ==
      Exported(Get(front + [e], k), k, m)
  {
    hide Get, Has, Distinct, Export, ItemJson;
    var r, x := Export(front, m).value, ItemJson(e.value, m);
    LastIsNew(front, e, r, m);
    GetAbsent(r, e.key);
    GetLast(front, e, k);
    if x.Wrote? {
      GetSet(r, e.key, x.json, k);
    }
  }

  lemma BelowLast(front: Data, e: Entry<Item>, r: seq<Entry<Json>>, m: Machine)
    requires SortedKeys(front + [e]) && Distinct(r) && forall k :: Get(r, k) == Exported(Get(front, k), k, m)
    ensures forall i :: 0 <= i < |r| ==> KeyLeq(r[i].key, e.key)
  {
    hide ItemJson, KeyLeq;
    forall i | 0 <= i < |r|
      ensures KeyLeq(r[i].key, e.key)
    {
      GetAt(r, i);
      GetAbsent(front, r[i].key);
      var j :| 0 <= j < |front| && front[j].key == r[i].key;
      assert (front + [e])[j] == front[j] && (front + [e])[|front|] == e;
    }
  }

  lemma AppendSorted<V>(r: seq<Entry<V>>, e: Entry<V>)
    requires SortedKeys(r) && Distinct(r) && !Has(r, e.key) && forall i :: 0 <= i < |r| ==> KeyLeq(r[i].key, e.key)
    ensures SortedKeys(r + [e]) && Distinct(r + [e])
  {
  }

  // ---- The item's type decides ----

  /** A member is the user value's own exactly when the item's type is the user value's. */
  lemma MemberIsUserValue(item: Item, m: Machine)
    requires Typed(m) && item.user.Some? && !ToJson(item.user.value, m).Stray?
    ensures ItemJson(item, m) == ToJson(item.user.value, m) <==> item.kind == KindOf(item.user.value)
  {
    if Direct(item.kind) {
      assert KindOf(m(item.kind, item.user.value)) == item.kind;
    }
  }

  /** So in the exported object: for every name with a user value that can be written at all. */
  lemma ExportsUserValue(d: Data, m: Machine, k: Key)
    requires Typed(m) && Ordered(d) && Followed(d, m) && CheckText(k) && Get(d, k).Some?
    requires var item := Get(d, k).value; item.user.Some? && ToJson(item.user.value, m).Wrote?
    ensures Export(d, m).Some?
    ensures var item := Get(d, k).value;
      Get(Export(d, m).value, k) == Some(ToJson(item.user.value, m).json) <==> item.kind == KindOf(item.user.value)
  {
    hide Get, Followed, Export, ToJson, ItemJson;
    ExportLaw(d, m);
    ExportedIs(Get(d, k).value, k, m);
    MemberIsUserValue(Get(d, k).value, m);
  }

  lemma ExportedIs(item: Item, k: Key, m: Machine)
    requires CheckText(k)
    ensures Exported(Some(item), k, m) == match ItemJson(item, m) { case Wrote(j) => Some(j) case _ => None }
  {
  }

  /** An integer is exported as a string once the same name has an autoselect string. */
  lemma NumberExportedAsString(name: Key, m: Machine) returns (d: Data)
    requires Typed(m) && CheckText(name)
    ensures d == SetAutoselect(SetUser([], name, Int(5)), name, Text([120]))
    ensures Export(d, m).Some? && Get(Export(d, m).value, name) != Some(Integer(5))
    ensures Get(Export(d, m).value, name).Some? ==> Get(Export(d, m).value, name).value.String?
  {
    var item := Item(Kind.Text, Some(Int(5)), None, Some(Text([120])));
    d := [Entry(name, item)];
    assert SetUser([], name, Int(5)) == [Entry(name, Item(Kind.Number, Some(Int(5)), None, None))];
    assert KindOf(m(Kind.Text, Int(5))) == Kind.Text;
    assert Get(d, name) == Some(item);
    ExportsUserValue(d, m, name);
    ExportDefined(d, m);
    ExportLaw(d, m);
  }

  // ---- Import then export is the normal form ----

  /** What the normal form keeps of a member. */
  function KeptValue(v: Option<Json>): Option<Json> {
    if v.None? || v.value.Null? then None else Some(Normal(v.value))
  }

  /** The members that survive, and the normal form of their values. */
  lemma {:induction false} KeptLaw(ms: seq<Entry<Json>>, k: Key)
    requires Distinct(ms)
    ensures Distinct(Kept(ms))
    ensures Get(Kept(ms), k) == KeptValue(Get(ms, k))
  {
    if ms != [] {
      KeptLaw(ms[1..], k);
      KeptLaw(ms[1..], ms[0].key);
      GetAbsent(ms[1..], ms[0].key);
      GetAbsent(Kept(ms[1..]), ms[0].key);
      if !ms[0].value.Null? {
        var r := Kept(ms[1..]);
        assert Kept(ms)[1..] == r;
        assert forall i :: 0 <= i < |r| ==> r[i].key != ms[0].key;
      }
    }
  }

  lemma NormalLaw(ms: seq<Entry<Json>>)
    requires Distinct(ms)
    ensures SortedKeys(NormalMembers(ms)) && Distinct(NormalMembers(ms))
    ensures forall k :: Get(NormalMembers(ms), k) == KeptValue(Get(ms, k))
  {
    KeptLaw(ms, []);
    SortSorts(Kept(ms));
    SortDistinct(Kept(ms));
    forall k
      ensures Get(NormalMembers(ms), k) == KeptValue(Get(ms, k))
    {
      KeptLaw(ms, k);
    }
  }

  lemma GetMember(ms: seq<Entry<Json>>, k: Key)
    requires Get(ms, k).Some?
    ensures exists i :: 0 <= i < |ms| && ms[i].key == k && ms[i].value == Get(ms, k).value
  {
    if ms[0].key != k {
      GetMember(ms[1..], k);
    }
  }

  /** A loaded value comes back from the settings in its normal form. */
  lemma {:induction false} ValueNormal(j: Json, opt: Options, m: Machine)
    requires Loadable(j, opt) && !j.Null?
    ensures ToJson(FromJson(j), m) == Wrote(Normal(j))
    decreases j, 2
  {
    match j
    case Object(ms) => MembersNormal(ms, opt, m);
    case Array(items) => ItemsNormal(items, opt, m);
    case _ =>
  }

  /** Importing an object and exporting it gives the normal form, at every depth. */
  lemma {:induction false} MembersNormal(ms: seq<Entry<Json>>, opt: Options, m: Machine)
    requires Loadable(Object(ms), opt)
    ensures Export(AddMembers([], ms), m) == Some(NormalMembers(ms))
    decreases ms, 1
  {
    var d := AddMembers([], ms);
    ImportLaw(ms);
    forall k
      ensures Get(d, k).Some? ==>
        Exported(Get(d, k), k, m) == KeptValue(Get(ms, k)) && !ItemJson(Get(d, k).value, m).Stray?
      ensures Get(d, k).None? ==> KeptValue(Get(ms, k)).None?
    {
      if Get(d, k).Some? {
        GetMember(ms, k);
        var i :| 0 <= i < |ms| && ms[i].key == k && ms[i].value == Get(ms, k).value;
        ValueNormal(ms[i].value, opt, m);
        assert KeyLoadable(k);
      }
    }
    hide Exported, ItemJson, Get, Export, AddMembers, KeptValue, Loadable;
    AllFollowed(d, m);
    ExportLaw(d, m);
    NormalLaw(ms);
    ExportedNothing(m);
    SameMap(Export(d, m).value, NormalMembers(ms));
  }

  lemma ExportedNothing(m: Machine)
    ensures forall k :: Exported(None, k, m) == None
  {
  }

  lemma AllFollowed(d: Data, m: Machine)
    requires Distinct(d) && forall k :: Get(d, k).Some? ==> !ItemJson(Get(d, k).value, m).Stray?
    ensures Followed(d, m)
  {
    hide ItemJson;
    forall i | 0 <= i < |d|
      ensures !ItemJson(d[i].value, m).Stray?
    {
      GetAt(d, i);
    }
  }

  lemma {:induction false} ItemsNormal(items: seq<Json>, opt: Options, m: Machine)
    requires Loadable(Array(items), opt)
    ensures ExportAll(AddObjects(items), m) == Some(NormalItems(items))
    decreases items, 0
  {
    if items != [] {
      ItemsNormal(items[1..], opt, m);
      if items[0].Object? {
        MembersNormal(items[0].members, opt, m);
      }
    }
  }

  // ---- The normal form is idempotent ----

  lemma {:induction false} NormalIdempotent(j: Json)
    requires JsonDump.Proper(j)
    ensures Normal(Normal(j)) == Normal(j) && JsonDump.Proper(Normal(j)) && (Normal(j).Null? <==> j.Null?)
    decreases j, 2
  {
    match j
    case Object(ms) => MembersIdempotent(ms);
    case Array(items) => ItemsIdempotent(items);
    case _ =>
  }

  lemma {:induction false} MembersIdempotent(ms: seq<Entry<Json>>)
    requires JsonDump.Proper(Object(ms))
    ensures NormalMembers(NormalMembers(ms)) == NormalMembers(ms) && JsonDump.Proper(Object(NormalMembers(ms)))
    decreases ms, 1
  {
    var n := NormalMembers(ms);
    NormalLaw(ms);
    NormalLaw(n);
    forall k
      ensures Get(NormalMembers(n), k) == Get(n, k)
      ensures Get(n, k).Some? ==> JsonDump.Proper(Get(n, k).value)
    {
      var v := Get(ms, k);
      if v.Some? && !v.value.Null? {
        GetMember(ms, k);
        var i :| 0 <= i < |ms| && ms[i].key == k && ms[i].value == v.value;
        NormalIdempotent(ms[i].value);
      }
    }
    SameMap(NormalMembers(n), n);
    forall i | 0 <= i < |n|
      ensures JsonDump.Proper(n[i].value)
    {
      GetAt(n, i);
    }
  }

  lemma {:induction false} ItemsIdempotent(items: seq<Json>)
    requires JsonDump.Proper(Array(items))
    ensures NormalItems(NormalItems(items)) == NormalItems(items) && JsonDump.Proper(Array(NormalItems(items)))
    decreases items, 0
  {
    if items != [] {
      ItemsIdempotent(items[1..]);
      if items[0].Object? {
        MembersIdempotent(items[0].members);
        assert NormalItems(items)[1..] == NormalItems(items[1..]);
      }
    }
  }

  // ---- Export then import is the identity on imported settings ----

  ghost predicate StoredSetting(s: Setting, opt: Options)
    decreases s, 0
  {
    match s
    case Text(t) => IsUtf8(t) && (opt.allowNul || 0 !in t)
    case Int(i) => INT_MIN <= i <= INT_MAX && !opt.intAsReal
    case Double(t) => RealLexeme(t, opt)
    case Bool(_) => true
    case Nested(d) => Stored(d, opt)
    case List(ds) => forall i :: 0 <= i < |ds| ==> Stored(ds[i].data, opt)
    case NoObject => false
    case NoArray => false
  }

  /** Settings as an import leaves them: sorted, user values only, every string storable. */
  ghost predicate Stored(d: Data, opt: Options)
    decreases d, 1
  {
    Ordered(d) && forall i :: 0 <= i < |d| ==>
      && KeyLoadable(d[i].key) && d[i].value.user.Some? && d[i].value == Alone(d[i].value.user.value)
      && StoredSetting(d[i].value.user.value, opt)
  }

  lemma {:induction false} SettingReturns(s: Setting, opt: Options, m: Machine)
    requires StoredSetting(s, opt)
    ensures ToJson(s, m).Wrote? && !ToJson(s, m).json.Null? && FromJson(ToJson(s, m).json) == s
    ensures Loadable(ToJson(s, m).json, opt)
    decreases s, 0
  {
    match s
    case Nested(d) => DataReturns(d, opt, m);
    case List(ds) => ListReturns(ds, opt, m);
    case _ =>
  }

  /** One stored item is exported, and its member imports to the item. */
  lemma {:induction false} ItemReturns(d: Data, k: Key, opt: Options, m: Machine)
    requires Stored(d, opt) && Get(d, k).Some?
    ensures Exported(Get(d, k), k, m).Some? && Imported(Exported(Get(d, k), k, m)) == Get(d, k)
    ensures !ItemJson(Get(d, k).value, m).Stray? && KeyLoadable(k) && Loadable(Exported(Get(d, k), k, m).value, opt)
    decreases d, 0
  {
    GetItem(d, k);
    var i :| 0 <= i < |d| && d[i].key == k && d[i].value == Get(d, k).value;
    SettingReturns(d[i].value.user.value, opt, m);
  }

  /** What import stored, export and import reproduce; and the exported object is loadable. */
  lemma {:induction false} DataReturns(d: Data, opt: Options, m: Machine)
    requires Stored(d, opt)
    ensures Export(d, m).Some? && AddMembers([], Export(d, m).value) == d && Loadable(Object(Export(d, m).value), opt)
    decreases d, 1
  {
    assert Ordered(d);
    forall k | Get(d, k).Some?
      ensures Exported(Get(d, k), k, m).Some? && Imported(Exported(Get(d, k), k, m)) == Get(d, k)
      ensures !ItemJson(Get(d, k).value, m).Stray? && KeyLoadable(k) && Loadable(Exported(Get(d, k), k, m).value, opt)
    {
      ItemReturns(d, k, opt, m);
    }
    hide Exported, ItemJson, Get, Export, AddMembers, Imported;
    AllFollowed(d, m);
    ExportLaw(d, m);
    var ms := Export(d, m).value;
    ExportedNothing(m);
    ImportedNothing();
    ImportLaw(ms);
    SameMap(AddMembers([], ms), d);
    forall i | 0 <= i < |ms|
      ensures KeyLoadable(ms[i].key) && Loadable(ms[i].value, opt)
    {
      GetAt(ms, i);
    }
  }

  lemma ImportedNothing()
    ensures Imported(None) == None
  {
  }

  lemma GetItem(d: Data, k: Key)
    requires Get(d, k).Some?
    ensures exists i :: 0 <= i < |d| && d[i].key == k && d[i].value == Get(d, k).value
  {
    if d[0].key != k {
      GetItem(d[1..], k);
    }
  }

  lemma {:induction false} ListReturns(ds: seq<Store>, opt: Options, m: Machine)
    requires forall i :: 0 <= i < |ds| ==> Stored(ds[i].data, opt)
    ensures ExportAll(ds, m).Some? && AddObjects(ExportAll(ds, m).value) == ds
    ensures Loadable(Array(ExportAll(ds, m).value), opt)
    decreases ds, 0
  {
    if ds != [] {
      DataReturns(ds[0].data, opt, m);
      ListReturns(ds[1..], opt, m);
      assert ExportAll(ds, m).value[1..] == ExportAll(ds[1..], m).value;
    }
  }

  lemma {:induction false} ValueStored(j: Json, opt: Options)
    requires Loadable(j, opt) && !j.Null?
    ensures StoredSetting(FromJson(j), opt)
    decreases j, 2
  {
    match j
    case Object(ms) => ImportStored(ms, opt);
    case Array(items) => ItemsStored(items, opt);
    case _ =>
  }

  lemma {:induction false} ImportStored(ms: seq<Entry<Json>>, opt: Options)
    requires Loadable(Object(ms), opt)
    ensures Stored(AddMembers([], ms), opt)
    decreases ms, 1
  {
    var d := AddMembers([], ms);
    ImportLaw(ms);
    forall i | 0 <= i < |d|
      ensures KeyLoadable(d[i].key) && d[i].value.user.Some? && d[i].value == Alone(d[i].value.user.value)
      ensures StoredSetting(d[i].value.user.value, opt)
    {
      GetAt(d, i);
      var k := d[i].key;
      assert Imported(Get(ms, k)) == Some(d[i].value);
      GetMember(ms, k);
      var m :| 0 <= m < |ms| && ms[m].key == k && ms[m].value == Get(ms, k).value;
      ValueStored(ms[m].value, opt);
    }
  }

  lemma {:induction false} ItemsStored(items: seq<Json>, opt: Options)
    requires Loadable(Array(items), opt)
    ensures forall i :: 0 <= i < |AddObjects(items)| ==> Stored(AddObjects(items)[i].data, opt)
    decreases items, 0
  {
    if items != [] {
      ItemsStored(items[1..], opt);
      if items[0].Object? {
        ImportStored(items[0].members, opt);
      }
    }
  }

  // ---- Heights ----

  lemma {:induction false} NormalHeight(j: Json)
    ensures Height(Normal(j)) <= Height(j)
    decreases j, 2
  {
    match j
    case Object(ms) =>
      KeptHeight(ms);
      SortHeight(Kept(ms));
    case Array(items) => ItemsHeightLaw(items);
    case _ =>
  }

  lemma {:induction false} KeptHeight(ms: seq<Entry<Json>>)
    ensures MembersHeight(Kept(ms)) <= MembersHeight(ms)
    decreases ms, 1
  {
    if ms != [] {
      KeptHeight(ms[1..]);
      NormalHeight(ms[0].value);
      assert !ms[0].value.Null? ==> Kept(ms)[1..] == Kept(ms[1..]);
    }
  }

  lemma {:induction false} ItemsHeightLaw(items: seq<Json>)
    ensures ItemsHeight(NormalItems(items)) <= ItemsHeight(items)
    decreases items, 1
  {
    if items != [] {
      ItemsHeightLaw(items[1..]);
      NormalHeight(items[0]);
      assert items[0].Object? ==> NormalItems(items)[1..] == NormalItems(items[1..]);
    }
  }

  // ---- Text in, text out ----

  /** JSON_REJECT_DUPLICATES */
  function LoadFlags(overflows: seq<byte> -> bool): Options {
    Options(true, false, false, false, false, overflows)
  }

  /** JSON_PRESERVE_ORDER | JSON_INDENT(4) */
  const DUMP_FLAGS := JsonDump.Flags(4, false, false, false, false, false)

  /** wsc_data_create_from_json; an array at top level has no members to add. */
  function CreateFromJson(text: seq<byte>, overflows: seq<byte> -> bool): Option<Data> {
    match Load(text, LoadFlags(overflows))
    case None => None
    case Some(root) => Some(if root.Object? then AddMembers([], root.members) else [])
  }

  /** wsc_data_get_json */
  function GetJson(d: Data, m: Machine): Option<seq<byte>> {
    match Export(d, m)
    case None => None
    case Some(ms) => JsonDump.Dumps(Object(ms), DUMP_FLAGS)
  }

  lemma ExportedHeight(text: seq<byte>, overflows: seq<byte> -> bool, m: Machine)
    requires CreateFromJson(text, overflows).Some?
    ensures var d := CreateFromJson(text, overflows).value; var opt := LoadFlags(overflows);
      Stored(d, opt) && Export(d, m).Some? && Height(Object(Export(d, m).value)) <= MAX_DEPTH
  {
    hide Load, Loadable, Height;
    var opt := LoadFlags(overflows);
    var root := Load(text, opt).value;
    LoadedIsLoadable(text, opt);
    if root.Object? {
      ImportStored(root.members, opt);
      MembersNormal(root.members, opt, m);
      NormalHeight(root);
    } else {
      EmptyStored(opt, m);
    }
  }

  lemma EmptyStored(opt: Options, m: Machine)
    ensures Stored([], opt) && Export([], m) == Some([]) && Height(Object([])) <= MAX_DEPTH
  {
  }

  /** Settings read from any text are written as text that reads back as the same settings. */
  lemma SettingsRoundTrip(text: seq<byte>, overflows: seq<byte> -> bool, m: Machine)
    requires CreateFromJson(text, overflows).Some?
    ensures var d := CreateFromJson(text, overflows).value;
      GetJson(d, m).Some? && CreateFromJson(GetJson(d, m).value, overflows) == Some(d)
  {
    hide Load, Loadable, Height, JsonDump.Dumps, JsonDump.Canon, Stored, Export;
    var d := CreateFromJson(text, overflows).value;
    var opt := LoadFlags(overflows);
    ExportedHeight(text, overflows, m);
    DataReturns(d, opt, m);
    var j := Object(Export(d, m).value);
    LoadableProper(j, opt);
    RoundTrip(j, DUMP_FLAGS, opt);
    UnsortedCanon(j, DUMP_FLAGS);
  }

  lemma {:induction false} LoadableProper(j: Json, opt: Options)
    requires Loadable(j, opt)
    ensures JsonDump.Proper(j)
  {
    match j
    case Object(ms) =>
      forall i | 0 <= i < |ms| ensures JsonDump.Proper(ms[i].value) { LoadableProper(ms[i].value, opt); }
    case Array(items) =>
      forall i | 0 <= i < |items| ensures JsonDump.Proper(items[i]) { LoadableProper(items[i], opt); }
    case _ =>
  }
}
