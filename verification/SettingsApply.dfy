/**
  * wsc_data_apply of src/data.c on the object graph: a deep override by user values that goes by each item's
  * one type. Nested objects and arrays become fresh copies; a reference under another type is shared.
  */
module SettingsApply {
  import opened Bytes
  import opened OrderedMap
  import opened SortedMap
  import opened Settings
  import opened SettingsOverride

  /** A stored value; objects and arrays are references, possibly null. */
  datatype Val =
    | VText(text: seq<byte>)
    | VInt(value: int)
    | VDouble(text: seq<byte>)
    | VBool(isTrue: bool)
    | VObject(obj: Object?)
    | VArray(arr: ObjectArray?)

  /** One item: three slots under one type. */
  datatype Slot = Slot(kind: Kind, user: Option<Val>, default: Option<Val>, autoselect: Option<Val>)

  function KindOfVal(v: Val): Kind {
    match v
    case VText(_) => Kind.Text
    case VInt(_) => Kind.Number
    case VDouble(_) => Kind.Number
    case VBool(_) => Kind.Boolean
    case VObject(_) => Kind.Object
    case VArray(_) => Kind.Array
  }

  // ---- The graph as a tree ----

  /** Every object the value leads to is in R, and none leads back to itself. */
  ghost predicate Within(v: Val, R: set<object>)
    reads R
    decreases R, 1
  {
    match v
    case VObject(o) => o == null || (o in R && o.Repr <= R && o.Valid())
    case VArray(a) => a == null || (a in R && a.Repr <= R && a.Valid())
    case _ => true
  }

  ghost predicate AllWithin(items: seq<Entry<Slot>>, R: set<object>)
    reads R
    decreases R, 2
  {
    forall i :: 0 <= i < |items| && items[i].value.user.Some? ==> Within(items[i].value.user.value, R)
  }

  ghost function Reading(v: Val, R: set<object>): (s: Setting)
    requires Within(v, R)
    reads R
    ensures KindOf(s) == KindOfVal(v)
    decreases R, 1
  {
    match v
    case VText(t) => Text(t)
    case VInt(i) => Int(i)
    case VDouble(t) => Double(t)
    case VBool(b) => Bool(b)
    case VObject(o) => if o == null then NoObject else Nested(o.UserData())
    case VArray(a) => if a == null then NoArray else List(a.Stores())
  }

  /** The user values of a list of items, by name, each under its item's type. */
  ghost function Collect(items: seq<Entry<Slot>>, R: set<object>): Data
    requires AllWithin(items, R)
    reads R
    decreases R, 3, |items|
  {
    if items == [] then []
    else
      var last := items[|items| - 1];
      var before := Collect(items[..|items| - 1], R);
      if last.value.user.None? then before
      else before + [Entry(last.key, Item(last.value.kind, Some(Reading(last.value.user.value, R)), None, None))]
  }

  /** What Collect keeps of an item. */
  ghost function SlotReading(s: Option<Slot>, R: set<object>): Option<Item>
    requires s.Some? && s.value.user.Some? ==> Within(s.value.user.value, R)
    reads R
  {
    if s.None? || s.value.user.None? then None
    else Some(Item(s.value.kind, Some(Reading(s.value.user.value, R)), None, None))
  }

  /**
    * The objects that a copy of the value under the type shares with the original: those behind a reference that
    * stands, here or further in, under the type of a direct value.
    */
  ghost function Loose(kind: Kind, v: Val, R: set<object>): (L: set<object>)
    requires Within(v, R)
    reads R
    ensures L <= R
    decreases R, 1
  {
    if Direct(kind) then ReprOf(v)
    else if kind == Kind.Object then if v.VObject? && v.obj != null then v.obj.Loose() else {}
    else if v.VArray? && v.arr != null then v.arr.Loose() else {}
  }

  ghost function LooseItems(items: seq<Entry<Slot>>, R: set<object>): (L: set<object>)
    requires AllWithin(items, R)
    reads R
    ensures L <= R
    decreases R, 3, |items|
  {
    if items == [] then {}
    else
      var last := items[|items| - 1];
      LooseItems(items[..|items| - 1], R) + LooseSlot(last.value, R)
  }

  ghost function LooseSlot(s: Slot, R: set<object>): (L: set<object>)
    requires s.user.Some? ==> Within(s.user.value, R)
    reads R
    ensures L <= R
    decreases R, 2
  {
    if s.user.None? then {} else Loose(s.kind, s.user.value, R)
  }

  /** Every object the value leads to. */
  ghost function ReprOf(v: Val): set<object>
    reads if v.VObject? && v.obj != null then {v.obj} else {}, if v.VArray? && v.arr != null then {v.arr} else {}
  {
    match v
    case VObject(o) => if o == null then {} else o.Repr
    case VArray(a) => if a == null then {} else a.Repr
    case _ => {}
  }

  /** wsc_data_t */
  class Object {
    var items: seq<Entry<Slot>>
    ghost var Repr: set<object>

    constructor ()
      ensures Valid() && items == [] && Repr == {this}
    {
      items := [];
      Repr := {this};
    }

    ghost predicate Valid()
      reads this, Repr
      decreases Repr, 0
    {
      this in Repr && SortedKeys(items) && Distinct(items) && AllWithin(items, Repr - {this})
    }

    ghost function UserData(): Data
      requires Valid()
      reads this, Repr
      decreases Repr, 0
    {
      Collect(items, Repr - {this})
    }

    ghost function Loose(): (L: set<object>)
      requires Valid()
      reads this, Repr
      ensures L <= Repr - {this}
      decreases Repr, 0
    {
      LooseItems(items, Repr - {this})
    }

    /** set_item by name, for a value apart from this object. */
    method SetUserValue(name: Key, kind: Kind, v: Val)
      requires Valid() && Within(v, ReprOf(v)) && this !in ReprOf(v)
      modifies this
      ensures Valid() && Repr == old(Repr) + ReprOf(v)
      ensures items == Put(old(items), name, WithUserVal(Get(old(items), name), kind, v))
      ensures UserData() == SetRaw(old(UserData()), name, kind, Reading(v, ReprOf(v)))
    {
      hide Within, Reading, Collect, SortedKeys, Distinct, Put, Get, SetRaw;
      ghost var S := Repr - {this} + ReprOf(v);
      WithinMore(v, ReprOf(v), S);
      PutReading(items, Repr - {this}, name, kind, v, S);
      items := Put(items, name, WithUserVal(Get(items, name), kind, v));
      Repr := Repr + ReprOf(v);
      assert Repr - {this} == S;
    }

    /** set_item_auto by name. */
    method SetAutoselectValue(name: Key, v: Val)
      requires Valid()
      modifies this`items
      ensures Valid() && items == Put(old(items), name, WithAutoVal(Get(old(items), name), v))
    {
      hide Within, SortedKeys, Distinct, Put, Get;
      AutoWithin(items, Repr - {this}, name, v);
      items := Put(items, name, WithAutoVal(Get(items, name), v));
    }
  }

  /** wsc_data_array_t */
  class ObjectArray {
    var objects: seq<Object>
    ghost var Repr: set<object>

    constructor ()
      ensures Valid() && objects == [] && Repr == {this}
    {
      objects := [];
      Repr := {this};
    }

    ghost predicate Valid()
      reads this, Repr
      decreases Repr, 0
    {
      this in Repr && forall i :: 0 <= i < |objects| ==>
        && objects[i] in Repr && objects[i].Repr <= Repr - {this} && objects[i].Valid()
    }

    /** wsc_data_array_push_back of an object apart from the array. */
    method PushBack(o: Object)
      requires Valid() && o.Valid() && this !in o.Repr
      modifies this
      ensures Valid() && Repr == old(Repr) + o.Repr && Stores() == old(Stores()) + [Store(o.UserData())]
    {
      hide Object.UserData;
      objects := objects + [o];
      Repr := Repr + o.Repr;
    }

    ghost function Stores(): (ds: seq<Store>)
      requires Valid()
      reads this, Repr
      ensures |ds| == |objects| && forall i :: 0 <= i < |ds| ==> ds[i] == Store(objects[i].UserData())
      decreases Repr, 0
    {
      seq(|objects|, i requires 0 <= i < |objects| && Valid() reads this, Repr => Store(objects[i].UserData()))
    }

    ghost function Loose(): (L: set<object>)
      requires Valid()
      reads this, Repr
      ensures L <= Repr - {this}
      decreases Repr, 0
    {
      LooseObjects(objects, Repr - {this})
    }
  }

  ghost predicate ObjectsWithin(os: seq<Object>, R: set<object>)
    reads R
    decreases R, 1
  {
    forall i :: 0 <= i < |os| ==> os[i] in R && os[i].Repr <= R && os[i].Valid()
  }

  ghost function LooseObjects(os: seq<Object>, R: set<object>): (L: set<object>)
    requires ObjectsWithin(os, R)
    reads R
    ensures L <= R
    decreases R, 2, |os|
  {
    if os == [] then {} else LooseObjects(os[..|os| - 1], R) + os[|os| - 1].Loose()
  }

  // ---- One level of the reading ----

  lemma {:induction false} SlotAt(items: seq<Entry<Slot>>, k: Key)
    requires Get(items, k).Some?
    ensures exists i :: 0 <= i < |items| && items[i].key == k && items[i].value == Get(items, k).value
  {
    if items[0].key != k {
      SlotAt(items[1..], k);
    }
  }

  lemma SlotWithin(items: seq<Entry<Slot>>, R: set<object>, k: Key)
    requires AllWithin(items, R) && Get(items, k).Some? && Get(items, k).value.user.Some?
    ensures Within(Get(items, k).value.user.value, R)
  {
    SlotAt(items, k);
  }

  ghost predicate ReadsAt(items: seq<Entry<Slot>>, R: set<object>, k: Key)
    requires AllWithin(items, R)
    reads R
  {
    && (Get(items, k).Some? && Get(items, k).value.user.Some? ==> Within(Get(items, k).value.user.value, R))
    && Get(Collect(items, R), k) == SlotReading(Get(items, k), R)
  }

  /** What an item adds to the reading. */
  ghost function Added(e: Entry<Slot>, R: set<object>): Data
    requires e.value.user.Some? ==> Within(e.value.user.value, R)
    reads R
  {
    var r := SlotReading(Some(e.value), R);
    if r.None? then [] else [Entry(e.key, r.value)]
  }

  lemma WithinNext(front: seq<Entry<Slot>>, e: Entry<Slot>, R: set<object>)
    requires AllWithin(front + [e], R)
    ensures AllWithin(front, R) && (e.value.user.Some? ==> Within(e.value.user.value, R))
  {
    hide Within;
    var items := front + [e];
    assert items[|front|] == e && forall i :: 0 <= i < |front| ==> items[i] == front[i];
  }

  lemma CollectNext(front: seq<Entry<Slot>>, e: Entry<Slot>, R: set<object>)
    requires AllWithin(front + [e], R) && AllWithin(front, R) && (e.value.user.Some? ==> Within(e.value.user.value, R))
    ensures Collect(front + [e], R) == Collect(front, R) + Added(e, R)
  {
    hide Within, Reading;
    assert (front + [e])[..|front|] == front;
  }

  /** The names of the reading are those with a user value, each with the value's own. */
  lemma {:induction false} CollectLaw(items: seq<Entry<Slot>>, R: set<object>)
    requires AllWithin(items, R) && SortedKeys(items) && Distinct(items)
    ensures Ordered(Collect(items, R)) && forall k :: ReadsAt(items, R, k)
  {
    if items != [] {
      var front, e := items[..|items| - 1], items[|items| - 1];
      assert items == front + [e];
      WithinNext(front, e, R);
      CollectLaw(front, R);
      hide *;
      CollectOrdered(front, e, R);
      forall k
        ensures ReadsAt(items, R, k)
      {
        CollectGet(front, e, R, k);
      }
    }
  }

  lemma CollectOrdered(front: seq<Entry<Slot>>, e: Entry<Slot>, R: set<object>)
    requires AllWithin(front, R) && AllWithin(front + [e], R) && SortedKeys(front + [e]) && Distinct(front + [e])
    requires Ordered(Collect(front, R)) && forall k :: ReadsAt(front, R, k)
    ensures Ordered(Collect(front + [e], R))
  {
    hide Within, Reading, Collect, Get, Has, AllWithin, SortedKeys, Distinct;
    var d := Collect(front, R);
    WithinNext(front, e, R);
    CollectNext(front, e, R);
    NewName(front, e, d, R);
    if e.value.user.Some? {
      BeforeLast(front, e, d, R);
      AppendSorted(d, Added(e, R)[0]);
    } else {
      assert d + [] == d;
    }
  }

  lemma NewName(front: seq<Entry<Slot>>, e: Entry<Slot>, d: Data, R: set<object>)
    requires AllWithin(front, R) && d == Collect(front, R) && Distinct(front + [e]) && ReadsAt(front, R, e.key)
    ensures !Has(d, e.key)
  {
    hide Within, Reading, Collect, Get, Has, AllWithin, Distinct;
    GetLast(front, e, e.key);
    GetAbsent(front, e.key);
    GetAbsent(d, e.key);
  }

  /** Names taken from sorted items stand before the next item's name. */
  lemma BeforeLast(front: seq<Entry<Slot>>, e: Entry<Slot>, d: Data, R: set<object>)
    requires AllWithin(front, R) && d == Collect(front, R) && SortedKeys(front + [e]) && Distinct(d)
    requires forall k :: ReadsAt(front, R, k)
    ensures forall i :: 0 <= i < |d| ==> KeyLeq(d[i].key, e.key)
  {
    hide KeyLeq, Within, Reading, Collect, AllWithin, Get;
    var items := front + [e];
    forall i | 0 <= i < |d|
      ensures KeyLeq(d[i].key, e.key)
    {
      GetAt(d, i);
      assert ReadsAt(front, R, d[i].key);
      SlotAt(front, d[i].key);
      var j :| 0 <= j < |front| && front[j].key == d[i].key;
      assert items[j] == front[j] && items[|front|] == e;
    }
  }

  lemma CollectGet(front: seq<Entry<Slot>>, e: Entry<Slot>, R: set<object>, k: Key)
    requires AllWithin(front, R) && AllWithin(front + [e], R)
    requires Distinct(front + [e]) && Ordered(Collect(front + [e], R))
    requires ReadsAt(front, R, k) && ReadsAt(front, R, e.key)
    ensures ReadsAt(front + [e], R, k)
  {
    hide Within, Reading, Collect, Get, Has, AllWithin, Distinct;
    var d := Collect(front, R);
    WithinNext(front, e, R);
    CollectNext(front, e, R);
    NewName(front, e, d, R);
    GetLast(front, e, k);
    GetLast(front, e, e.key);
    GetAbsent(d, e.key);
    if e.value.user.Some? {
      GetLast(d, Added(e, R)[0], k);
    } else {
      assert d + [] == d;
    }
  }

  // ---- Setting one value ----

  lemma WithinMore(v: Val, R: set<object>, S: set<object>)
    requires Within(v, R) && R <= S
    ensures Within(v, S) && Reading(v, S) == Reading(v, R)
  {
  }

  /** set_item on the slots of a name. */
  function WithUserVal(s: Option<Slot>, kind: Kind, v: Val): Slot {
    match s
    case None => Slot(kind, Some(v), None, None)
    case Some(slot) => slot.(kind := kind, user := Some(v))
  }

  /** set_item_auto on the slots of a name. */
  function WithAutoVal(s: Option<Slot>, v: Val): Slot {
    match s
    case None => Slot(KindOfVal(v), None, None, Some(v))
    case Some(slot) => slot.(kind := KindOfVal(v), autoselect := Some(v))
  }

  /** Putting a value under a name sets it in the tree. */
  lemma PutReading(items: seq<Entry<Slot>>, R: set<object>, name: Key, kind: Kind, v: Val, S: set<object>)
    requires AllWithin(items, R) && SortedKeys(items) && Distinct(items) && R <= S && Within(v, S)
    ensures var put := Put(items, name, WithUserVal(Get(items, name), kind, v));
      && SortedKeys(put) && Distinct(put) && AllWithin(put, S)
      && Collect(put, S) == SetRaw(Collect(items, R), name, kind, Reading(v, S))
  {
    hide Within, Reading, SortedKeys, Distinct, Put, Get, Collect, SetRaw, AllWithin, ReadsAt;
    var put := Put(items, name, WithUserVal(Get(items, name), kind, v));
    var d, s := Collect(items, R), Reading(v, S);
    CollectLaw(items, R);
    PutLaw(items, name, WithUserVal(Get(items, name), kind, v), name);
    PutWithin(items, R, name, WithUserVal(Get(items, name), kind, v), S);
    CollectLaw(put, S);
    SetRawLaw(d, name, kind, s, name);
    forall k
      ensures Get(Collect(put, S), k) == Get(SetRaw(d, name, kind, s), k)
    {
      SetRawLaw(d, name, kind, s, k);
      PutGet(items, R, name, kind, v, S, k);
    }
    SameMap(Collect(put, S), SetRaw(d, name, kind, s));
  }

  lemma PutWithin(items: seq<Entry<Slot>>, R: set<object>, name: Key, slot: Slot, S: set<object>)
    requires AllWithin(items, R) && SortedKeys(items) && Distinct(items) && R <= S
    requires slot.user.Some? ==> Within(slot.user.value, S)
    ensures AllWithin(Put(items, name, slot), S)
  {
    hide Within, SortedKeys, Distinct, Put, Get, AllWithin;
    var put := Put(items, name, slot);
    PutLaw(items, name, slot, name);
    forall i | 0 <= i < |put| && put[i].value.user.Some?
      ensures Within(put[i].value.user.value, S)
    {
      GetAt(put, i);
      PutLaw(items, name, slot, put[i].key);
      if put[i].key != name {
        SlotWithin(items, R, put[i].key);
        WithinMore(put[i].value.user.value, R, S);
      }
    }
    AllOf(put, S);
  }

  lemma AllOf(items: seq<Entry<Slot>>, S: set<object>)
    requires forall i :: 0 <= i < |items| && items[i].value.user.Some? ==> Within(items[i].value.user.value, S)
    ensures AllWithin(items, S)
  {
  }

  lemma PutGet(items: seq<Entry<Slot>>, R: set<object>, name: Key, kind: Kind, v: Val, S: set<object>, k: Key)
    requires AllWithin(items, R) && SortedKeys(items) && Distinct(items) && R <= S && Within(v, S)
    requires ReadsAt(items, R, k) && ReadsAt(items, R, name)
    requires var put := Put(items, name, WithUserVal(Get(items, name), kind, v)); AllWithin(put, S) && ReadsAt(put, S, k)
    ensures var put := Put(items, name, WithUserVal(Get(items, name), kind, v));
      Get(Collect(put, S), k) == if k == name then Some(WithUser(Get(Collect(items, R), name), kind, Reading(v, S)))
                                 else Get(Collect(items, R), k)
  {
    hide Within, Reading, SortedKeys, Distinct, Put, Get, Collect, AllWithin;
    PutLaw(items, name, WithUserVal(Get(items, name), kind, v), k);
    if k != name && Get(items, k).Some? && Get(items, k).value.user.Some? {
      WithinMore(Get(items, k).value.user.value, R, S);
    }
  }

  /** An autoselect value leads nowhere new. */
  lemma AutoWithin(items: seq<Entry<Slot>>, R: set<object>, name: Key, v: Val)
    requires AllWithin(items, R) && SortedKeys(items) && Distinct(items)
    ensures var put := Put(items, name, WithAutoVal(Get(items, name), v));
      SortedKeys(put) && Distinct(put) && AllWithin(put, R)
  {
    hide Within, SortedKeys, Distinct, Put, Get, AllWithin;
    PutLaw(items, name, WithAutoVal(Get(items, name), v), name);
    if Get(items, name).Some? && Get(items, name).value.user.Some? {
      SlotWithin(items, R, name);
    }
    PutWithin(items, R, name, WithAutoVal(Get(items, name), v), R);
  }

  // ---- What a copy shares ----

  lemma LooseNext(front: seq<Entry<Slot>>, e: Entry<Slot>, R: set<object>)
    requires AllWithin(front + [e], R) && AllWithin(front, R) && (e.value.user.Some? ==> Within(e.value.user.value, R))
    ensures LooseItems(front + [e], R) == LooseItems(front, R) + LooseSlot(e.value, R)
  {
    hide Within, Loose;
    assert (front + [e])[..|front|] == front;
  }

  /** Copies share nothing exactly when no reference stands under the type of a direct value. */
  lemma {:induction false} LooseIff(kind: Kind, v: Val, R: set<object>)
    requires Within(v, R)
    ensures Loose(kind, v, R) == {} <==> Owns(kind, Reading(v, R))
    decreases R, 1
  {
    hide LooseItems, LooseObjects, Collect;
    if kind == Kind.Object && v.VObject? && v.obj != null {
      LooseItemsIff(v.obj.items, v.obj.Repr - {v.obj});
    } else if kind == Kind.Array && v.VArray? && v.arr != null {
      LooseObjectsIff(v.arr.objects, v.arr.Repr - {v.arr});
    }
  }

  lemma {:induction false} LooseItemsIff(items: seq<Entry<Slot>>, R: set<object>)
    requires AllWithin(items, R)
    ensures LooseItems(items, R) == {} <==> OwnsIn(Collect(items, R))
    decreases R, 3, |items|
  {
    if items != [] {
      var front, e := items[..|items| - 1], items[|items| - 1];
      assert items == front + [e];
      WithinNext(front, e, R);
      LooseItemsIff(front, R);
      if e.value.user.Some? {
        LooseIff(e.value.kind, e.value.user.value, R);
      }
      hide Within, Loose, LooseItems, Collect, Reading, Owns, OwnsIn, AllWithin;
      LooseNext(front, e, R);
      CollectNext(front, e, R);
      OwnsNext(Collect(front, R), Added(e, R));
      NoneOwns();
    } else {
      NoneOwns();
    }
  }

  lemma NoneOwns()
    ensures OwnsIn([])
  {
  }

  lemma OwnsNext(d: Data, more: Data)
    requires |more| <= 1
    ensures OwnsIn(d + more) <==> OwnsIn(d) && OwnsIn(more)
    ensures more != [] && more[0].value.user.Some? ==>
      (OwnsIn(more) <==> Owns(more[0].value.kind, more[0].value.user.value))
  {
    hide Owns;
    var all := d + more;
    assert forall i :: 0 <= i < |d| ==> all[i] == d[i];
    assert more != [] ==> all[|d|] == more[0];
  }

  lemma {:induction false} LooseObjectsIff(os: seq<Object>, R: set<object>)
    requires ObjectsWithin(os, R)
    ensures LooseObjects(os, R) == {} <==> forall i :: 0 <= i < |os| ==> OwnsIn(os[i].UserData())
    decreases R, 2, |os|
  {
    if os != [] {
      var front, o := os[..|os| - 1], os[|os| - 1];
      LooseObjectsIff(front, R);
      LooseItemsIff(o.items, o.Repr - {o});
      hide OwnsIn, Object.Valid, LooseItems, Collect;
      assert forall i :: 0 <= i < |front| ==> front[i] == os[i];
    }
  }

  // ---- Copying ----

  /** Every object the value leads to is in M. */
  ghost predicate Under(v: Val, M: set<object>)
    reads M
  {
    match v
    case VObject(o) => o == null || (o in M && o.Repr <= M)
    case VArray(a) => a == null || (a in M && a.Repr <= M)
    case _ => true
  }

  /** A copy in M of a value in R: a direct one is stored as it is, and nothing but the loose objects is shared. */
  ghost predicate CopyIn(c: Val, kind: Kind, v: Val, R: set<object>, M: set<object>)
    reads R, M
  {
    Within(v, R) && Under(c, M) && ReprOf(c) * R == Loose(kind, v, R) && KindOfVal(c) == KindOfVal(v) && (Direct(kind) ==> c == v)
  }

  /** What copy_item stores; not ok where it follows a stray pointer. */
  method CopyValue(kind: Kind, v: Val, ghost R: set<object>) returns (ok: bool, c: Option<Val>)
    requires Within(v, R)
    ensures Within(v, R) && (ok <==> !Strays(kind, Reading(v, R)))
    ensures ok ==> (c.Some? <==> Copied(kind, Reading(v, R)).Some?)
    ensures ok && c.Some? ==>
      Within(c.value, ReprOf(c.value)) && Copied(kind, Reading(v, R)) == Some(Reading(c.value, ReprOf(c.value)))
    ensures ok && c.Some? ==> Loose(kind, v, R) <= ReprOf(c.value) && fresh(ReprOf(c.value) - Loose(kind, v, R))
    ensures ok && c.Some? ==> KindOfVal(c.value) == KindOfVal(v) && (Direct(kind) ==> c.value == v)
    decreases R, 2
  {
    hide Bare, BareAll, StraysIn, Object.Loose, ObjectArray.Loose, Object.UserData, ObjectArray.Stores;
    ok, c := true, None;
    if kind == Kind.Object {
      match v {
        case VObject(o) =>
          if o != null {
            var n;
            ok, n := CopyObject(o);
            c := Some(VObject(n));
          }
        case VArray(a) =>
          ok := a == null;
        case _ =>
          ok := false;
      }
    } else if kind == Kind.Array {
      match v {
        case VArray(a) =>
          if a != null {
            var n;
            ok, n := CopyArray(a);
            c := Some(VArray(n));
          }
        case VObject(o) =>
          ok := o == null;
        case _ =>
          ok := false;
      }
    } else {
      WithinOwn(v, R);
      c := Some(v);
    }
  }

  lemma WithinOwn(v: Val, R: set<object>)
    requires Within(v, R)
    ensures Within(v, ReprOf(v)) && Reading(v, ReprOf(v)) == Reading(v, R)
  {
  }

  /** copy_obj: a new object with the user values applied. */
  method CopyObject(obj: Object) returns (ok: bool, n: Object)
    requires obj.Valid()
    ensures obj.Valid() && (ok <==> !StraysIn(obj.UserData()))
    ensures ok ==> n.Valid() && n.UserData() == Bare(obj.UserData())
    ensures ok ==> obj.Loose() <= n.Repr && fresh(n.Repr - obj.Loose())
    decreases obj.Repr, 1
  {
    hide Bare, StraysIn, Collect, LooseItems, OwnsIn, ApplyData;
    n := new Object();
    EmptyData(n);
    ghost var M;
    ok, M := Apply(n, obj);
    SourceItems(obj);
    CollectLaw(obj.items, obj.Repr - {obj});
    ApplyToEmpty(obj.UserData());
  }

  lemma EmptyData(n: Object)
    requires n.Valid() && n.items == []
    ensures n.UserData() == []
  {
  }

  /** copy_array: a new array of copies. */
  method CopyArray(arr: ObjectArray) returns (ok: bool, n: ObjectArray)
    requires arr.Valid()
    ensures arr.Valid() && (ok <==> forall i :: 0 <= i < |arr.Stores()| ==> !StraysIn(arr.Stores()[i].data))
    ensures ok ==> n.Valid() && n.Stores() == BareAll(arr.Stores())
    ensures ok ==> arr.Loose() <= n.Repr && fresh(n.Repr - arr.Loose())
    decreases arr.Repr, 1
  {
    n := new ObjectArray();
    Elements(arr);
    hide Object.Valid, ObjectArray.Valid, ObjectArray.Stores, Object.UserData, StraysIn, Bare, BareAll, LooseObjects;
    NoElements(n);
    ghost var stores := arr.Stores();
    ok := CopyObjects(n, arr.objects, arr.Repr - {arr}, stores);
    assert arr.Stores() == stores;
  }

  lemma NoElements(n: ObjectArray)
    requires n.Valid() && n.objects == []
    ensures n.Stores() == []
  {
  }

  /** Objects apart from one container, and their contents. */
  ghost predicate Held(os: seq<Object>, R: set<object>, stores: seq<Store>)
    reads R
  {
    ObjectsWithin(os, R) && |os| == |stores| && forall i :: 0 <= i < |os| ==> Store(os[i].UserData()) == stores[i]
  }

  lemma Elements(arr: ObjectArray)
    requires arr.Valid()
    ensures arr in arr.Repr && Held(arr.objects, arr.Repr - {arr}, arr.Stores())
  {
  }

  lemma ObjectsNext(os: seq<Object>, R: set<object>, i: nat)
    requires ObjectsWithin(os, R) && i < |os|
    ensures os[i] in R && os[i].Repr <= R && os[i].Valid() && ObjectsWithin(os[..i], R) && ObjectsWithin(os[..i + 1], R)
    ensures LooseObjects(os[..i + 1], R) == LooseObjects(os[..i], R) + os[i].Loose()
  {
    hide Object.Valid, Object.Loose;
    assert os[..i + 1][..i] == os[..i];
  }

  lemma BareAllNext(ds: seq<Store>, i: nat)
    requires i < |ds|
    ensures BareAll(ds[..i + 1]) == BareAll(ds[..i]) + [Store(Bare(ds[i].data))]
  {
    hide BareAll, Bare;
  }

  /** Its loop. */
  method CopyObjects(n: ObjectArray, os: seq<Object>, ghost R: set<object>, ghost stores: seq<Store>) returns (ok: bool)
    requires n.Valid() && n !in R && n.Repr == {n} && n.Stores() == [] && Held(os, R, stores)
    modifies n
    ensures Held(os, R, stores) && (ok <==> forall i :: 0 <= i < |stores| ==> !StraysIn(stores[i].data))
    ensures ok ==> n.Valid() && n.Stores() == BareAll(stores)
    ensures ok ==> LooseObjects(os, R) <= n.Repr && fresh(n.Repr - {n} - LooseObjects(os, R))
    decreases R, 2
  {
    hide Object.Valid, ObjectArray.Valid, ObjectArray.Stores, Object.UserData, StraysIn, Bare, BareAll, LooseObjects,
      Object.Loose;
    CopiedNothing(os[..0], stores[..0], R);
    ok := true;
    for i := 0 to |os|
      invariant n.Valid() && n in n.Repr && Held(os, R, stores) && n.Stores() == BareAll(stores[..i])
      invariant ObjectsWithin(os[..i], R) && LooseObjects(os[..i], R) <= n.Repr
      invariant fresh(n.Repr - {n} - LooseObjects(os[..i], R)) && forall j :: 0 <= j < i ==> !StraysIn(stores[j].data)
    {
      ObjectsNext(os, R, i);
      BareAllNext(stores, i);
      assert Store(os[i].UserData()) == stores[i];
      var o;
      ok, o := CopyObject(os[i]);
      if !ok {
        return;
      }
      n.PushBack(o);
    }
    assert os[..|os|] == os && stores[..|os|] == stores;
  }

  lemma CopiedNothing(os: seq<Object>, ds: seq<Store>, R: set<object>)
    requires os == [] && ds == []
    ensures BareAll(ds) == [] && ObjectsWithin(os, R) && LooseObjects(os, R) == {}
  {
  }

  /** Whether copy_item has something to store; it passes over null references. */
  predicate Gives(s: Slot) {
    s.user.Some? && (Direct(s.kind) || (s.user.value != VObject(null) && s.user.value != VArray(null)))
  }

  /** The items after one more copy. */
  function WithCopy(items: seq<Entry<Slot>>, e: Entry<Slot>, c: Option<Val>): seq<Entry<Slot>> {
    if c.None? then items else Put(items, e.key, WithUserVal(Get(items, e.key), e.value.kind, c.value))
  }

  /** The user value of a slot can be released under the type it has. */
  predicate Frees(s: Option<Slot>) {
    s.None? || s.value.user.None? || Direct(s.value.kind) || s.value.user.value == VObject(null)
    || s.value.user.value == VArray(null) || KindOfVal(s.value.user.value) == s.value.kind
  }

  lemma FreesIff(o: Object, name: Key)
    requires o.Valid()
    ensures Frees(Get(o.items, name)) <==> UserReleasable(Get(o.UserData(), name))
  {
    CollectLaw(o.items, o.Repr - {o});
    assert ReadsAt(o.items, o.Repr - {o}, name);
    hide Within, Collect, Get;
    if Get(o.items, name).Some? && Get(o.items, name).value.user.Some? {
      ReadingNull(Get(o.items, name).value.user.value, o.Repr - {o});
    }
  }

  lemma ReadingNull(v: Val, R: set<object>)
    requires Within(v, R)
    ensures v == VObject(null) <==> Reading(v, R).NoObject?
    ensures v == VArray(null) <==> Reading(v, R).NoArray?
  {
  }

  /** copy_item */
  method CopyItem(target: Object, e: Entry<Slot>, ghost R: set<object>)
      returns (ok: bool, ghost c: Option<Val>, ghost C: set<object>)
    requires target.Valid() && target !in R && (e.value.user.Some? ==> Within(e.value.user.value, R))
    modifies target
    ensures e.value.user.Some? ==> Within(e.value.user.value, R)
    ensures ok <==> ApplyData(old(target.UserData()), Added(e, R)).Some?
    ensures ok ==> target.Valid() && ApplyData(old(target.UserData()), Added(e, R)) == Some(target.UserData())
    ensures ok ==> target.Repr == old(target.Repr) + C && LooseSlot(e.value, R) <= C && fresh(C - LooseSlot(e.value, R))
    ensures ok ==>
      (c.Some? <==> Gives(e.value)) && (c.Some? ==> CopyIn(c.value, e.value.kind, e.value.user.value, R, C))
    ensures ok ==> target.items == WithCopy(old(target.items), e, c)
    decreases R, 3
  {
    hide Object.Valid, Within, Object.UserData, SetRaw, Put, Get, Strays, Copied, Loose, Added, ApplyData, Frees,
      UserReleasable;
    ok, c, C := true, None, {};
    AddedTurn(target.UserData(), e, R);
    FreesIff(target, e.key);
    if e.value.user.Some? {
      var v;
      ok, v := CopyValue(e.value.kind, e.value.user.value, R);
      if ok {
        GivesIff(e.value, R);
      }
      if ok && v.Some? {
        if !Frees(Get(target.items, e.key)) {
          return false, None, {};
        }
        c, C := v, ReprOf(v.value);
        UnderOwn(v.value);
        target.SetUserValue(e.key, e.value.kind, v.value);
      } else if ok {
        NothingLoose(e.value, R);
      }
    }
  }

  lemma AddedTurn(t: Data, e: Entry<Slot>, R: set<object>)
    requires e.value.user.Some? ==> Within(e.value.user.value, R)
    ensures e.value.user.None? ==> ApplyData(t, Added(e, R)) == Some(t)
    ensures e.value.user.Some? ==>
      var s := Reading(e.value.user.value, R);
      && (Strays(e.value.kind, s) ==> ApplyData(t, Added(e, R)) == None)
      && (!Strays(e.value.kind, s) && Copied(e.value.kind, s).None? ==> ApplyData(t, Added(e, R)) == Some(t))
      && (!Strays(e.value.kind, s) && Copied(e.value.kind, s).Some? && !UserReleasable(Get(t, e.key)) ==>
            ApplyData(t, Added(e, R)) == None)
      && (!Strays(e.value.kind, s) && Copied(e.value.kind, s).Some? && UserReleasable(Get(t, e.key)) ==>
            ApplyData(t, Added(e, R)) == Some(SetRaw(t, e.key, e.value.kind, Copied(e.value.kind, s).value)))
  {
    hide Within, Reading, Strays, Copied, SetRaw, UserReleasable, Get;
    var a := Added(e, R);
    if e.value.user.Some? {
      assert a == [] + [a[0]];
      ApplyNext(t, [], a[0]);
    }
  }

  lemma GivesIff(s: Slot, R: set<object>)
    requires s.user.Some? && Within(s.user.value, R) && !Strays(s.kind, Reading(s.user.value, R))
    ensures Gives(s) <==> Copied(s.kind, Reading(s.user.value, R)).Some?
  {
  }

  lemma NothingLoose(s: Slot, R: set<object>)
    requires s.user.Some? && Within(s.user.value, R) && !Strays(s.kind, Reading(s.user.value, R)) && !Gives(s)
    ensures Loose(s.kind, s.user.value, R) == {}
  {
  }

  lemma UnderOwn(c: Val)
    requires Within(c, ReprOf(c))
    ensures Under(c, ReprOf(c))
  {
  }

  // ---- Apply ----

  predicate GivesAt(items: seq<Entry<Slot>>, k: Key) {
    Get(items, k).Some? && Gives(Get(items, k).value)
  }

  /** The type and the user value of a name replaced, by those given; its other slots as they were. */
  ghost predicate Replaced(now: Option<Slot>, was: Option<Slot>, given: Slot, R: set<object>, M: set<object>)
    reads R, M
  {
    && now.Some? && now.value.user.Some? && given.user.Some?
    && now.value == WithUserVal(was, given.kind, now.value.user.value)
    && CopyIn(now.value.user.value, given.kind, given.user.value, R, M)
  }

  ghost predicate AppliedAt(now: seq<Entry<Slot>>, was: seq<Entry<Slot>>, given: seq<Entry<Slot>>, R: set<object>,
        M: set<object>, k: Key)
    reads R, M
  {
    if GivesAt(given, k) then Replaced(Get(now, k), Get(was, k), Get(given, k).value, R, M)
      else Get(now, k) == Get(was, k)
  }

  /** Names with something to copy are replaced, all others are as they were. */
  ghost predicate Applied(now: seq<Entry<Slot>>, was: seq<Entry<Slot>>, given: seq<Entry<Slot>>, R: set<object>,
        M: set<object>)
    reads R, M
  {
    forall k :: AppliedAt(now, was, given, R, M, k)
  }

  lemma CopyInMore(c: Val, kind: Kind, v: Val, R: set<object>, M: set<object>, N: set<object>)
    requires CopyIn(c, kind, v, R, M) && M <= N
    ensures CopyIn(c, kind, v, R, N)
  {
  }

  lemma AppliedStep(now: seq<Entry<Slot>>, was: seq<Entry<Slot>>, front: seq<Entry<Slot>>, e: Entry<Slot>,
        c: Option<Val>,
        R: set<object>, M: set<object>, C: set<object>, k: Key)
    requires AppliedAt(now, was, front, R, M, k) && AppliedAt(now, was, front, R, M, e.key)
    requires SortedKeys(now) && Distinct(now) && Distinct(front + [e])
    requires (c.Some? <==> Gives(e.value)) && (c.Some? ==> CopyIn(c.value, e.value.kind, e.value.user.value, R, C))
    ensures AppliedAt(WithCopy(now, e, c), was, front + [e], R, M + C, k)
  {
    hide Get, Put, SortedKeys, Distinct, CopyIn, Has;
    GetLast(front, e, k);
    GetLast(front, e, e.key);
    GetAbsent(front, e.key);
    if c.Some? {
      PutLaw(now, e.key, WithUserVal(Get(now, e.key), e.value.kind, c.value), k);
      CopyInMore(c.value, e.value.kind, e.value.user.value, R, C, M + C);
    }
    if k != e.key && GivesAt(front, k) {
      CopyInMore(Get(now, k).value.user.value, Get(front, k).value.kind, Get(front, k).value.user.value, R, M, M + C);
    }
  }

  /** One turn of the loop. */
  method ApplyItem(target: Object, items: seq<Entry<Slot>>, i: nat, ghost was: seq<Entry<Slot>>, ghost M: set<object>,
        ghost R: set<object>)
      returns (ok: bool, ghost C: set<object>)
    requires target.Valid() && target !in R + M
    requires i < |items| && (items[i].value.user.Some? ==> Within(items[i].value.user.value, R))
    requires Distinct(items[..i + 1]) && Applied(target.items, was, items[..i], R, M)
    modifies target
    ensures (items[i].value.user.Some? ==> Within(items[i].value.user.value, R))
    ensures ok <==> ApplyData(old(target.UserData()), Added(items[i], R)).Some?
    ensures ok ==> target.Valid() && ApplyData(old(target.UserData()), Added(items[i], R)) == Some(target.UserData())
    ensures ok ==> target.Repr == old(target.Repr) + C
    ensures ok ==> LooseSlot(items[i].value, R) <= C && fresh(C - LooseSlot(items[i].value, R))
    ensures ok ==> Applied(target.items, was, items[..i + 1], R, M + C)
    decreases R, 4
  {
    hide Object.Valid, Within, Object.UserData, ApplyData, Added, Put, Get, AppliedAt, Loose, LooseSlot,
      CopyIn;
    assert items[..i + 1] == items[..i] + [items[i]];
    SortedItems(target);
    ghost var before, given := target.items, items[..i + 1];
    ghost var c;
    ok, c, C := CopyItem(target, items[i], R);
    if ok {
      ghost var N := M + C;
      forall k
        ensures AppliedAt(target.items, was, given, R, N, k)
      {
        AppliedStep(before, was, items[..i], items[i], c, R, M, C, k);
      }
    }
  }

  lemma SortedItems(o: Object)
    requires o.Valid()
    ensures SortedKeys(o.items) && Distinct(o.items)
  {
  }

  /** The part of a list of items that the loop has passed. */
  lemma ItemsNext(items: seq<Entry<Slot>>, R: set<object>, i: nat)
    requires AllWithin(items, R) && i < |items|
    ensures AllWithin(items[..i], R) && AllWithin(items[..i + 1], R)
    ensures items[i].value.user.Some? ==> Within(items[i].value.user.value, R)
    ensures Collect(items[..i + 1], R) == Collect(items[..i], R) + Added(items[i], R)
    ensures LooseItems(items[..i + 1], R) == LooseItems(items[..i], R) + LooseSlot(items[i].value, R)
  {
    hide Within, Collect, LooseItems, Added, LooseSlot;
    assert items[..i + 1] == items[..i] + [items[i]];
    assert AllWithin(items[..i + 1], R);
    WithinNext(items[..i], items[i], R);
    CollectNext(items[..i], items[i], R);
    LooseNext(items[..i], items[i], R);
  }

  lemma ApplyMore(t: Data, d: Data, more: Data)
    requires |more| <= 1
    ensures ApplyData(t, d + more) == match ApplyData(t, d) { case None => None case Some(x) => ApplyData(x, more) }
  {
    hide ApplyData, SettingsOverride.CopyItem;
    if more == [] {
      assert d + more == d;
      if ApplyData(t, d).Some? {
        ApplyNothing(ApplyData(t, d).value);
      }
    } else {
      var e := more[0];
      assert more == [e] && [] + [e] == more && d + more == d + [e];
      ApplyNext(t, d, e);
      if ApplyData(t, d).Some? {
        ApplyNothing(ApplyData(t, d).value);
        ApplyNext(ApplyData(t, d).value, [], e);
      }
    }
  }

  lemma ApplyNothing(t: Data)
    ensures ApplyData(t, []) == Some(t)
  {
  }

  /** One turn of the loop in terms of the readings. */
  lemma Turn(items: seq<Entry<Slot>>, R: set<object>, i: nat, t: Data)
    requires AllWithin(items, R) && i < |items|
    ensures AllWithin(items[..i], R) && AllWithin(items[..i + 1], R)
    ensures items[i].value.user.Some? ==> Within(items[i].value.user.value, R)
    ensures LooseItems(items[..i + 1], R) == LooseItems(items[..i], R) + LooseSlot(items[i].value, R)
    ensures ApplyData(t, Collect(items[..i + 1], R)) ==
      match ApplyData(t, Collect(items[..i], R)) { case None => None case Some(x) => ApplyData(x, Added(items[i], R)) }
  {
    hide *;
    ItemsNext(items, R, i);
    AtMostOne(items[i], R);
    ApplyMore(t, Collect(items[..i], R), Added(items[i], R));
  }

  /** What ends the loop ends the whole apply. */
  lemma {:induction false} StuckLater(items: seq<Entry<Slot>>, R: set<object>, i: nat, t: Data)
    requires AllWithin(items, R) && i <= |items|
    requires AllWithin(items[..i], R) && ApplyData(t, Collect(items[..i], R)).None?
    ensures ApplyData(t, Collect(items, R)).None?
    decreases |items| - i
  {
    hide Within, Collect, Added, AllWithin, ApplyData;
    if i == |items| {
      assert items[..i] == items;
    } else {
      Turn(items, R, i, t);
      StuckLater(items, R, i + 1, t);
    }
  }

  lemma AtMostOne(e: Entry<Slot>, R: set<object>)
    requires e.value.user.Some? ==> Within(e.value.user.value, R)
    ensures |Added(e, R)| <= 1
  {
  }

  /** What the loop has reached after i items: the readings, and the objects it took over. */
  ghost predicate Reached(items: seq<Entry<Slot>>, i: nat, R: set<object>, u0: Data, now: Data, M: set<object>)
    reads R
  {
    && i <= |items| && AllWithin(items, R) && AllWithin(items[..i], R)
    && ApplyData(u0, Collect(items[..i], R)) == Some(now) && LooseItems(items[..i], R) <= M
  }

  lemma ReachNext(items: seq<Entry<Slot>>, i: nat, R: set<object>, u0: Data, now: Data, M: set<object>, next: Data,
        C: set<object>)
    requires Reached(items, i, R, u0, now, M) && i < |items|
    requires (items[i].value.user.Some? ==> Within(items[i].value.user.value, R))
    requires ApplyData(now, Added(items[i], R)) == Some(next) && LooseSlot(items[i].value, R) <= C
    ensures Reached(items, i + 1, R, u0, next, M + C)
    ensures LooseItems(items[..i + 1], R) == LooseItems(items[..i], R) + LooseSlot(items[i].value, R)
  {
    hide ApplyData, Collect, LooseItems, Within, Added, LooseSlot, AllWithin;
    Turn(items, R, i, u0);
  }

  lemma DistinctPrefix(items: seq<Entry<Slot>>, n: nat)
    requires Distinct(items) && n <= |items|
    ensures Distinct(items[..n])
  {
  }

  /** One turn, in terms of the whole list. */
  method ApplyTurn(target: Object, items: seq<Entry<Slot>>, i: nat, ghost was: seq<Entry<Slot>>, ghost M: set<object>,
        ghost R: set<object>, ghost u0: Data)
      returns (ok: bool, ghost C: set<object>)
    requires target.Valid() && target !in R + M && Distinct(items) && i < |items|
    requires Reached(items, i, R, u0, target.UserData(), M) && Applied(target.items, was, items[..i], R, M)
    modifies target
    ensures AllWithin(items, R) && (!ok ==> ApplyData(u0, Collect(items, R)).None?)
    ensures ok ==>
      target.Valid() && Reached(items, i + 1, R, u0, target.UserData(), M + C) && AllWithin(items[..i + 1], R)
    ensures ok ==> Applied(target.items, was, items[..i + 1], R, M + C) && target.Repr == old(target.Repr) + C
    ensures ok ==>
      fresh(C - LooseItems(items[..i + 1], R)) && LooseItems(items[..i], R) <= LooseItems(items[..i + 1], R) <= R
    decreases R, 5
  {
    hide ApplyData, Collect, LooseItems, Within, Added, LooseSlot, Applied, Object.Valid, Object.UserData;
    DistinctPrefix(items, i + 1);
    ghost var now := target.UserData();
    ok, C := ApplyItem(target, items, i, was, M, R);
    if ok {
      ReachNext(items, i, R, u0, now, M, target.UserData(), C);
    } else {
      Turn(items, R, i, u0);
      StuckLater(items, R, i + 1, u0);
    }
  }

  /** The loop of wsc_data_apply. */
  method ApplyAll(target: Object, items: seq<Entry<Slot>>, ghost R: set<object>, ghost u: Data)
      returns (ok: bool, ghost M: set<object>)
    requires target.Valid() && target !in R && Distinct(items) && AllWithin(items, R) && u == Collect(items, R)
    modifies target
    ensures AllWithin(items, R) && (ok <==> ApplyData(old(target.UserData()), u).Some?)
    ensures ok ==> target.Valid() && ApplyData(old(target.UserData()), u) == Some(target.UserData())
    ensures ok ==> target.Repr == old(target.Repr) + M && LooseItems(items, R) <= M && fresh(M - LooseItems(items, R))
    ensures ok ==> Applied(target.items, old(target.items), items, R, M)
    decreases R, 6
  {
    ok, M := true, {};
    ghost var u0, was, repr := target.UserData(), target.items, target.Repr;
    ghost var L: set<object> := {};
    ReachedNothing(items, R, was, u0);
    hide *;
    for i := 0 to |items|
      invariant target.Valid() && target.Repr == repr + M
      invariant Reached(items, i, R, u0, target.UserData(), M) && Applied(target.items, was, items[..i], R, M)
      invariant AllWithin(items, R) && u == Collect(items, R)
      invariant AllWithin(items[..i], R) && L == LooseItems(items[..i], R) && L <= R && fresh(M - L)
    {
      ghost var C;
      ok, C := ApplyTurn(target, items, i, was, M, R, u0);
      if !ok {
        return;
      }
      Gained(M, C, L, LooseItems(items[..i + 1], R));
      M, L := M + C, LooseItems(items[..i + 1], R);
    }
    ReachedAll(items, R, u0, target.UserData(), M);
    assert items[..|items|] == items;
  }

  lemma Gained(M: set<object>, C: set<object>, before: set<object>, after: set<object>)
    requires before <= after
    ensures M + C - after <= (M - before) + (C - after)
  {
  }

  lemma ReachedAll(items: seq<Entry<Slot>>, R: set<object>, u0: Data, now: Data, M: set<object>)
    requires Reached(items, |items|, R, u0, now, M)
    ensures AllWithin(items, R) && ApplyData(u0, Collect(items, R)) == Some(now)
    ensures LooseItems(items, R) <= M
  {
    hide ApplyData, Collect, LooseItems, Within;
    assert items[..|items|] == items;
  }

  lemma ReachedNothing(items: seq<Entry<Slot>>, R: set<object>, was: seq<Entry<Slot>>, u: Data)
    requires AllWithin(items, R)
    ensures Reached(items, 0, R, u, u, {}) && Applied(was, was, items[..0], R, {})
    ensures AllWithin(items[..0], R) && LooseItems(items[..0], R) == {}
  {
    assert items[..0] == [];
    assert Collect([], R) == [] && LooseItems([], R) == {};
  }

  /**
    * wsc_data_apply: M is what the target gains, the loose objects of the source and new ones. Not ok where a stray
    * pointer is followed, to copy a value or to release the one replaced.
    */
  method Apply(target: Object, source: Object) returns (ok: bool, ghost M: set<object>)
    requires target.Valid() && source.Valid() && (target == source || target !in source.Repr)
    modifies target
    ensures target == source ==> ok && unchanged(target) && target.Valid()
    ensures target != source ==> source.Valid()
    ensures target != source ==> (ok <==> ApplyData(old(target.UserData()), source.UserData()).Some?)
    ensures target != source && ok ==>
      target.Valid() && ApplyData(old(target.UserData()), source.UserData()) == Some(target.UserData())
    ensures target != source && ok ==>
      target.Repr == old(target.Repr) + M && source.Loose() <= M && fresh(M - source.Loose())
    ensures target != source && ok ==> (fresh(M) <==> OwnsIn(source.UserData()))
    ensures target != source && ok ==> Applied(target.items, old(target.items), source.items, source.Repr - {source}, M)
    decreases source.Repr, 0
  {
    ok, M := true, {};
    if target == source {
      return;
    }
    SourceItems(source);
    hide Object.Valid, Object.UserData, Collect, Applied, LooseItems, OwnsIn, ApplyData, Object.Loose;
    ok, M := ApplyAll(target, source.items, source.Repr - {source}, source.UserData());
    SourceItems(source);
  }

  lemma SourceItems(o: Object)
    requires o.Valid()
    ensures o in o.Repr && Distinct(o.items) && SortedKeys(o.items) && AllWithin(o.items, o.Repr - {o})
    ensures o.UserData() == Collect(o.items, o.Repr - {o}) && o.Loose() == LooseItems(o.items, o.Repr - {o})
    ensures o.Loose() == {} <==> OwnsIn(o.UserData())
  {
    hide Within, OwnsIn, Collect, LooseItems;
    LooseItemsIff(o.items, o.Repr - {o});
  }

  // ---- When a copy is good ----

  function ReadVal(kind: Kind, slot: Option<Val>): View<Val> {
    if slot.None? then Empty else if KindOfVal(slot.value) == kind then Value(slot.value) else Foreign(kind, slot.value)
  }

  /**
    * A name's copy reads as a value, shares nothing with the source and leaves the target's other slots readable as they
    * were exactly when the source's type is its user value's kind, at every depth that is copied, and the target's type,
    * if it has other slots, already was that kind.
    */
  lemma CopyGoodIff(now: Option<Slot>, was: Option<Slot>, given: Slot, R: set<object>, M: set<object>)
    requires Replaced(now, was, given, R, M)
    ensures
      var n, v := now.value, given.user.value;
      && ReadVal(n.kind, n.user).Value?
      && ReprOf(n.user.value) !! R
      && (was.Some? ==> ReadVal(n.kind, n.default) == ReadVal(was.value.kind, was.value.default))
      && (was.Some? ==> ReadVal(n.kind, n.autoselect) == ReadVal(was.value.kind, was.value.autoselect))
      <==>
      && given.kind == KindOfVal(v)
      && Owns(given.kind, Reading(v, R))
      && (was.Some? && (was.value.default.Some? || was.value.autoselect.Some?) ==> was.value.kind == given.kind)
  {
    hide Within, Owns, Loose, Reading, Under;
    var c := now.value.user.value;
    LooseIff(given.kind, given.user.value, R);
    Disjoint(ReprOf(c), R);
  }

  lemma Disjoint(a: set<object>, b: set<object>)
    ensures a !! b <==> a * b == {}
  {
    if a !! b {
      assert a * b == {};
    } else {
      var x :| x in a && x in b;
      assert x in a * b;
    }
  }

  /** A single item of a direct type is copied whatever its value is. */
  lemma OneDirect(items: seq<Entry<Slot>>, e: Entry<Slot>, R: set<object>)
    requires items == [e] && e.value.user.Some? && Direct(e.value.kind) && AllWithin(items, R)
    ensures !StraysIn(Collect(items, R)) && GivesAt(items, e.key) && Get(items, e.key) == Some(e.value)
  {
    hide Within;
    assert items == [] + [e];
    WithinNext([], e, R);
    CollectNext([], e, R);
    var u := Collect(items, R);
    assert Collect([], R) == [] && u == Added(e, R);
    assert u[0].value.kind == e.value.kind;
  }

  /** An object under a name whose last setter was that of a number. */
  method Mistyped(name: Key, o: Object) returns (source: Object)
    requires o.Valid()
    ensures source.Valid() && source.items == [Entry(name, Slot(Kind.Number, Some(VObject(o)), None, Some(VInt(1))))]
    ensures fresh(source.Repr - o.Repr)
  {
    source := new Object();
    assert Get(source.items, name) == None && Put(source.items, name, Slot(Kind.Object, Some(VObject(o)), None, None)) ==
      [Entry(name, Slot(Kind.Object, Some(VObject(o)), None, None))];
    source.SetUserValue(name, Kind.Object, VObject(o));
    source.SetAutoselectValue(name, VInt(1));
  }

  lemma OneApplies(source: Object, name: Key, given: Slot)
    requires source.Valid() && source.items == [Entry(name, given)] && given.user.Some? && Direct(given.kind)
    ensures GivesAt(source.items, name) && Get(source.items, name) == Some(given)
    ensures ApplyData([], source.UserData()).Some?
  {
    SourceItems(source);
    hide Object.Valid, Object.UserData, Collect, ApplyData, StraysIn, GivesAt;
    OneDirect(source.items, Entry(name, given), source.Repr - {source});
    CollectLaw(source.items, source.Repr - {source});
    ApplyToEmpty(source.UserData());
  }

  /** An object set under a name is shared, not copied, once the name has an autoselect number. */
  method ObjectShared(name: Key) returns (source: Object, target: Object, o: Object)
    ensures source.Valid() && Get(source.items, name) == Some(Slot(Kind.Number, Some(VObject(o)), None, Some(VInt(1))))
    ensures target.Valid() && Get(target.items, name) == Some(Slot(Kind.Number, Some(VObject(o)), None, None))
  {
    o := new Object();
    source := Mistyped(name, o);
    target := new Object();
    ghost var given := source.items[0].value;
    OneApplies(source, name, given);
    EmptyData(target);
    ApplyShared(target, source, name, given);
  }

  method ApplyShared(target: Object, source: Object, name: Key, ghost given: Slot)
    requires target.Valid() && source.Valid() && target !in source.Repr && target != source && target.items == []
    requires GivesAt(source.items, name) && Get(source.items, name) == Some(given)
    requires given.user.Some? && Direct(given.kind)
    requires ApplyData(target.UserData(), source.UserData()).Some?
    modifies target
    ensures target.Valid() && source.Valid()
    ensures Get(target.items, name) == Some(Slot(given.kind, given.user, None, None))
  {
    hide *;
    ghost var was := target.items;
    var ok;
    ghost var M;
    ok, M := Apply(target, source);
    SharedAt(target.items, was, source.items, source.Repr - {source}, M, name, given);
  }

  lemma SharedAt(now: seq<Entry<Slot>>, was: seq<Entry<Slot>>, items: seq<Entry<Slot>>, R: set<object>,
        M: set<object>, name: Key, given: Slot)
    requires Applied(now, was, items, R, M) && was == [] && GivesAt(items, name) && Get(items, name) == Some(given)
    requires Direct(given.kind) && given.user.Some?
    ensures Get(now, name) == Some(Slot(given.kind, given.user, None, None))
  {
    hide Gives;
    assert AppliedAt(now, was, items, R, M, name);
  }
}
