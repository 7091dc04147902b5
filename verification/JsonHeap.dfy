/**
  * json_equal and json_deep_copy of deps/jansson/src/value.c on the object graph: containers are
  * references, and every other value is immutable.
  */
module JsonHeap {
  import opened Bytes
  import opened OrderedMap
  import opened JsonValue
  import JsonDump
  import JsonEqual

  datatype Ref = Scalar(json: Json) | ObjectRef(obj: JObject) | ArrayRef(arr: JArray)

  /** Every container the value leads to is in R, and none leads back to itself. */
  ghost predicate Within(v: Ref, R: set<object>)
    reads R
    decreases R, 1
  {
    match v
    case Scalar(j) => !j.Object? && !j.Array?
    case ObjectRef(o) => o in R && o.Repr <= R && o.Valid()
    case ArrayRef(a) => a in R && a.Repr <= R && a.Valid()
  }

  /** The value as a tree. */
  ghost function Reading(v: Ref, R: set<object>): Json
    requires Within(v, R)
    reads R
    decreases R, 1
  {
    match v
    case Scalar(j) => j
    case ObjectRef(o) => Object(o.Members())
    case ArrayRef(a) => Array(a.Items())
  }

  ghost predicate AllWithin(ms: seq<Entry<Ref>>, R: set<object>)
    reads R
    decreases R, 2
  {
    forall i :: 0 <= i < |ms| ==> Within(ms[i].value, R)
  }

  ghost function Readings(ms: seq<Entry<Ref>>, R: set<object>): (r: seq<Entry<Json>>)
    requires AllWithin(ms, R)
    reads R
    ensures |r| == |ms| && forall i :: 0 <= i < |ms| ==> r[i] == Entry(ms[i].key, Reading(ms[i].value, R))
    decreases R, 3, |ms|
  {
    if ms == [] then [] else [Entry(ms[0].key, Reading(ms[0].value, R))] + Readings(ms[1..], R)
  }

  ghost predicate ItemsWithin(vs: seq<Ref>, R: set<object>)
    reads R
    decreases R, 2
  {
    forall i :: 0 <= i < |vs| ==> Within(vs[i], R)
  }

  ghost function ItemReadings(vs: seq<Ref>, R: set<object>): (r: seq<Json>)
    requires ItemsWithin(vs, R)
    reads R
    ensures |r| == |vs| && forall i :: 0 <= i < |vs| ==> r[i] == Reading(vs[i], R)
    decreases R, 3, |vs|
  {
    if vs == [] then [] else [Reading(vs[0], R)] + ItemReadings(vs[1..], R)
  }

  /** A JSON object; its hash table is an insertion-ordered map. */
  class JObject {
    var members: seq<Entry<Ref>>
    ghost var Repr: set<object>

    constructor ()
      ensures Valid() && members == [] && Repr == {this}
    {
      members := [];
      Repr := {this};
    }

    ghost predicate Valid()
      reads this, Repr
      decreases Repr, 0
    {
      this in Repr && Distinct(members) && AllWithin(members, Repr - {this})
    }

    ghost function Members(): (ms: seq<Entry<Json>>)
      requires Valid()
      reads this, Repr
      decreases Repr, 0
    {
      Readings(members, Repr - {this})
    }

    /** json_object_set_new_nocheck of a value apart from this object, under a new key. */
    method SetNew(key: Key, v: Ref)
      requires Valid() && Within(v, ReprOf(v)) && this !in ReprOf(v) && !Has(members, key)
      modifies this
      ensures Valid() && Repr == old(Repr) + ReprOf(v) && members == old(members) + [Entry(key, v)]
      ensures Members() == old(Members()) + [Entry(key, Reading(v, ReprOf(v)))]
    {
      hide Within, Reading;
      ghost var S := Repr - {this} + ReprOf(v);
      WithinMore(v, ReprOf(v), S);
      forall i | 0 <= i < |members|
        ensures Within(members[i].value, S) && Reading(members[i].value, S) == Reading(members[i].value, Repr - {this})
      {
        WithinMore(members[i].value, Repr - {this}, S);
      }
      SetAbsent(members, key, v);
      members := OrderedMap.Set(members, key, v);
      Repr := Repr + ReprOf(v);
      assert Repr - {this} == S;
    }
  }

  /** A JSON array. */
  class JArray {
    var items: seq<Ref>
    ghost var Repr: set<object>

    constructor ()
      ensures Valid() && items == [] && Repr == {this}
    {
      items := [];
      Repr := {this};
    }

    ghost predicate Valid()
      reads this, Repr
      decreases Repr, 0
    {
      this in Repr && ItemsWithin(items, Repr - {this})
    }

    ghost function Items(): (vs: seq<Json>)
      requires Valid()
      reads this, Repr
      decreases Repr, 0
    {
      ItemReadings(items, Repr - {this})
    }

    /** json_array_append_new of a value apart from this array. */
    method AppendNew(v: Ref)
      requires Valid() && Within(v, ReprOf(v)) && this !in ReprOf(v)
      modifies this
      ensures Valid() && Repr == old(Repr) + ReprOf(v) && items == old(items) + [v]
      ensures Items() == old(Items()) + [Reading(v, ReprOf(v))]
    {
      hide Within, Reading;
      ghost var S := Repr - {this} + ReprOf(v);
      WithinMore(v, ReprOf(v), S);
      forall i | 0 <= i < |items|
        ensures Within(items[i], S) && Reading(items[i], S) == Reading(items[i], Repr - {this})
      {
        WithinMore(items[i], Repr - {this}, S);
      }
      items := items + [v];
      Repr := Repr + ReprOf(v);
      assert Repr - {this} == S;
    }
  }

  /** Every container the value leads to. */
  ghost function ReprOf(v: Ref): set<object>
    reads if v.ObjectRef? then {v.obj} else {}, if v.ArrayRef? then {v.arr} else {}
  {
    match v
    case Scalar(_) => {}
    case ObjectRef(o) => o.Repr
    case ArrayRef(a) => a.Repr
  }

  lemma WithinMore(v: Ref, R: set<object>, S: set<object>)
    requires Within(v, R) && R <= S
    ensures Within(v, S) && Reading(v, S) == Reading(v, R)
  {
  }

  lemma {:induction false} ReadingProper(v: Ref, R: set<object>)
    requires Within(v, R)
    ensures JsonDump.Proper(Reading(v, R))
    decreases R
  {
    match v {
      case Scalar(_) =>
      case ObjectRef(o) =>
        assert AllWithin(o.members, o.Repr - {o});
        forall i | 0 <= i < |o.members|
          ensures JsonDump.Proper(Reading(o.members[i].value, o.Repr - {o}))
        {
          ReadingProper(o.members[i].value, o.Repr - {o});
        }
      case ArrayRef(a) =>
        assert ItemsWithin(a.items, a.Repr - {a});
        forall i | 0 <= i < |a.items|
          ensures JsonDump.Proper(Reading(a.items[i], a.Repr - {a}))
        {
          ReadingProper(a.items[i], a.Repr - {a});
        }
    }
  }

  // ---- json_deep_copy ----

  /** json_deep_copy: an equal value whose containers are all fresh, members in the same order. */
  method DeepCopy(v: Ref, ghost R: set<object>) returns (c: Ref)
    requires Within(v, R)
    ensures Within(c, ReprOf(c)) && fresh(ReprOf(c))
    ensures Within(v, R) && Reading(c, ReprOf(c)) == Reading(v, R)
    decreases R, 1
  {
    match v {
      case Scalar(_) =>
        c := v;
      case ObjectRef(o) =>
        var n := ObjectDeepCopy(o);
        c := ObjectRef(n);
      case ArrayRef(a) =>
        var n := ArrayDeepCopy(a);
        c := ArrayRef(n);
    }
  }

  /** json_object_deep_copy */
  method ObjectDeepCopy(o: JObject) returns (n: JObject)
    requires o.Valid()
    ensures n.Valid() && fresh(n.Repr) && o.Valid() && n.Members() == o.Members()
    decreases o.Repr, 0
  {
    MembersAre(o);
    hide JObject.Valid, JObject.Members;
    n := new JObject();
    MembersAre(n);
    CopyMembers(n, o.members, o.Repr - {o}, o.Members());
  }

  /** Its loop. */
  method CopyMembers(n: JObject, ms: seq<Entry<Ref>>, ghost R: set<object>, ghost xs: seq<Entry<Json>>)
    requires n.Valid() && n !in R && n.members == [] && n.Members() == [] && n.Repr == {n}
    requires Distinct(ms) && Shown(ms, R, xs)
    modifies n
    ensures n.Valid() && fresh(n.Repr - {n}) && n.Members() == xs
    decreases R, 3
  {
    hide JObject.Valid, JObject.Members, Within, Reading, SameKeys, Has, Distinct, Shown;
    NoKeys(n.members, ms);
    ShownSize(ms, R, xs);
    for i := 0 to |ms|
      invariant n.Valid() && fresh(n.Repr - {n}) && Shown(ms, R, xs)
      invariant SameKeys(n.members, ms[..i])
      invariant n.Members() == xs[..i]
    {
      NextKey(n.members, ms, i);
      ShownAt(ms, R, xs, i);
      CopyMember(n, ms[i].key, ms[i].value, R, ms[..i]);
      assert ms[..i + 1] == ms[..i] + [ms[i]];
    }
  }

  /** The members of one object and their readings. */
  ghost predicate Shown(ms: seq<Entry<Ref>>, R: set<object>, xs: seq<Entry<Json>>)
    reads R
  {
    AllWithin(ms, R) && xs == Readings(ms, R)
  }

  lemma ShownSize(ms: seq<Entry<Ref>>, R: set<object>, xs: seq<Entry<Json>>)
    requires Shown(ms, R, xs)
    ensures |xs| == |ms|
  {
  }

  lemma ShownAt(ms: seq<Entry<Ref>>, R: set<object>, xs: seq<Entry<Json>>, i: nat)
    requires Shown(ms, R, xs) && i < |ms|
    ensures |xs| == |ms| && Within(ms[i].value, R) && xs[i] == Entry(ms[i].key, Reading(ms[i].value, R))
  {
  }

  lemma MembersAre(o: JObject)
    requires o.Valid()
    ensures o in o.Repr && Distinct(o.members) && AllWithin(o.members, o.Repr - {o})
    ensures o.Members() == Readings(o.members, o.Repr - {o})
  {
  }

  ghost predicate SameKeys(ms: seq<Entry<Ref>>, ns: seq<Entry<Ref>>) {
    |ms| == |ns| && forall j :: 0 <= j < |ms| ==> ms[j].key == ns[j].key
  }

  lemma NoKeys(done: seq<Entry<Ref>>, ms: seq<Entry<Ref>>)
    requires done == []
    ensures SameKeys(done, ms[..0])
  {
  }

  lemma NextKey(done: seq<Entry<Ref>>, ms: seq<Entry<Ref>>, i: nat)
    requires i < |ms| && Distinct(ms) && SameKeys(done, ms[..i])
    ensures !Has(done, ms[i].key)
  {
  }

  lemma KeysMore(done: seq<Entry<Ref>>, front: seq<Entry<Ref>>, key: Key, c: Ref, v: Ref)
    requires SameKeys(done, front)
    ensures SameKeys(done + [Entry(key, c)], front + [Entry(key, v)])
  {
  }

  /** One turn of its loop. */
  method CopyMember(n: JObject, key: Key, v: Ref, ghost R: set<object>, ghost front: seq<Entry<Ref>>)
    requires n.Valid() && n !in R && Within(v, R) && !Has(n.members, key) && SameKeys(n.members, front)
    modifies n
    ensures n.Valid() && fresh(n.Repr - old(n.Repr)) && Within(v, R)
    ensures SameKeys(n.members, front + [Entry(key, v)])
    ensures n.Members() == old(n.Members()) + [Entry(key, Reading(v, R))]
    decreases R, 2
  {
    hide JObject.Valid, JObject.Members, Within, Reading, Has, Distinct, AllWithin, SameKeys;
    var c := DeepCopy(v, R);
    MembersAre(n);
    KeysMore(n.members, front, key, c, v);
    n.SetNew(key, c);
  }

  /** json_array_deep_copy */
  method ArrayDeepCopy(a: JArray) returns (n: JArray)
    requires a.Valid()
    ensures n.Valid() && fresh(n.Repr) && a.Valid() && n.Items() == a.Items()
    decreases a.Repr, 0
  {
    ItemsAre(a);
    hide JArray.Valid, JArray.Items;
    n := new JArray();
    ItemsAre(n);
    CopyItems(n, a.items, a.Repr - {a}, a.Items());
  }

  /** Its loop. */
  method CopyItems(n: JArray, vs: seq<Ref>, ghost R: set<object>, ghost xs: seq<Json>)
    requires n.Valid() && n !in R && n.Items() == [] && n.Repr == {n}
    requires ItemsShown(vs, R, xs)
    modifies n
    ensures n.Valid() && fresh(n.Repr - {n}) && n.Items() == xs
    decreases R, 3
  {
    hide JArray.Valid, JArray.Items, Within, Reading, ItemsShown;
    ItemsShownSize(vs, R, xs);
    for i := 0 to |vs|
      invariant n.Valid() && fresh(n.Repr - {n}) && ItemsShown(vs, R, xs)
      invariant n.Items() == xs[..i]
    {
      ItemsShownAt(vs, R, xs, i);
      CopyItem(n, vs[i], R);
    }
  }

  /** The items of one array and their readings. */
  ghost predicate ItemsShown(vs: seq<Ref>, R: set<object>, xs: seq<Json>)
    reads R
  {
    ItemsWithin(vs, R) && xs == ItemReadings(vs, R)
  }

  lemma ItemsShownSize(vs: seq<Ref>, R: set<object>, xs: seq<Json>)
    requires ItemsShown(vs, R, xs)
    ensures |xs| == |vs|
  {
  }

  lemma ItemsShownAt(vs: seq<Ref>, R: set<object>, xs: seq<Json>, i: nat)
    requires ItemsShown(vs, R, xs) && i < |vs|
    ensures |xs| == |vs| && Within(vs[i], R) && xs[i] == Reading(vs[i], R)
  {
  }

  lemma ItemsAre(a: JArray)
    requires a.Valid()
    ensures a in a.Repr && ItemsWithin(a.items, a.Repr - {a}) && a.Items() == ItemReadings(a.items, a.Repr - {a})
  {
  }

  /** One turn of its loop. */
  method CopyItem(n: JArray, v: Ref, ghost R: set<object>)
    requires n.Valid() && n !in R && Within(v, R)
    modifies n
    ensures n.Valid() && fresh(n.Repr - old(n.Repr)) && Within(v, R)
    ensures n.Items() == old(n.Items()) + [Reading(v, R)]
    decreases R, 2
  {
    hide JArray.Valid, JArray.Items, Within, Reading;
    var c := DeepCopy(v, R);
    ItemsAre(n);
    n.AppendNew(c);
  }

  // ---- json_equal ----

  /** json_equal, with its shortcut for one and the same container. */
  method ValuesEqual(v: Ref, w: Ref, d: JsonEqual.Doubles, ghost R: set<object>, ghost S: set<object>)
      returns (eq: bool)
    requires Within(v, R) && Within(w, S)
    ensures eq == JsonEqual.Equal(Reading(v, R), Reading(w, S), d)
    decreases R, 1
  {
    ReadingProper(v, R);
    if v.ObjectRef? && w.ObjectRef? {
      if v.obj == w.obj {
        JsonEqual.EqualReflexive(Reading(v, R), d);
        return true;
      }
      eq := ObjectEqual(v.obj, w.obj, d);
    } else if v.ArrayRef? && w.ArrayRef? {
      if v.arr == w.arr {
        JsonEqual.EqualReflexive(Reading(v, R), d);
        return true;
      }
      eq := ArrayEqual(v.arr, w.arr, d);
    } else if v.Scalar? && w.Scalar? && v.json.Real? && w.json.Real? {
      eq := d(v.json.text) == d(w.json.text);
    } else {
      eq := v == w;
    }
  }

  /** Member j of one object has its equal in the other. */
  ghost predicate MemberSame(ms: seq<Entry<Json>>, ns: seq<Entry<Json>>, d: JsonEqual.Doubles, j: nat)
    requires j < |ms|
  {
    Get(ns, ms[j].key).Some? && JsonEqual.Equal(ms[j].value, Get(ns, ms[j].key).value, d)
  }

  lemma ObjectsEqual(ms: seq<Entry<Json>>, ns: seq<Entry<Json>>, d: JsonEqual.Doubles)
    ensures JsonEqual.Equal(Object(ms), Object(ns), d) <==> |ms| == |ns| && forall j :: 0 <= j < |ms| ==>
      MemberSame(ms, ns, d, j)
  {
    if |ms| == |ns| && forall j :: 0 <= j < |ms| ==> MemberSame(ms, ns, d, j) {
      assert forall j :: 0 <= j < |ms| ==> MemberSame(ms, ns, d, j) && ms[j] == ms[j];
    } else if JsonEqual.Equal(Object(ms), Object(ns), d) {
      forall j | 0 <= j < |ms|
        ensures MemberSame(ms, ns, d, j)
      {
        assert ms[j] == ms[j];
      }
    }
  }

  /** json_object_equal: by size, then every member of the first looked up in the second. */
  method ObjectEqual(o: JObject, p: JObject, d: JsonEqual.Doubles) returns (eq: bool)
    requires o.Valid() && p.Valid()
    ensures eq == JsonEqual.Equal(Object(o.Members()), Object(p.Members()), d)
    decreases o.Repr, 0
  {
    MembersAre(o);
    MembersAre(p);
    ObjectsEqual(o.Members(), p.Members(), d);
    hide JObject.Valid, JObject.Members, JsonEqual.Equal, MemberSame, AllWithin;
    if |o.members| != |p.members| {
      return false;
    }
    eq := MembersEqual(o.members, p.members, d, o.Repr - {o}, p.Repr - {p}, o.Members(), p.Members());
  }

  /** Its loop. */
  method MembersEqual(ms: seq<Entry<Ref>>, ns: seq<Entry<Ref>>, d: JsonEqual.Doubles, ghost R: set<object>,
        ghost S: set<object>,
                      ghost xs: seq<Entry<Json>>, ghost ys: seq<Entry<Json>>) returns (same: bool)
    requires AllWithin(ms, R) && AllWithin(ns, S) && xs == Readings(ms, R) && ys == Readings(ns, S)
    ensures same <==> forall j :: 0 <= j < |xs| ==> MemberSame(xs, ys, d, j)
    decreases R, 3
  {
    hide JsonEqual.Equal, MemberSame, AllWithin, Get, Reading, Within;
    for i := 0 to |ms|
      invariant forall j :: 0 <= j < i ==> MemberSame(xs, ys, d, j)
    {
      same := MemberEqual(ms, ns, d, i, R, S);
      if !same {
        return;
      }
    }
    return true;
  }

  /** One turn of its loop. */
  method MemberEqual(ms: seq<Entry<Ref>>, ns: seq<Entry<Ref>>, d: JsonEqual.Doubles, i: nat, ghost R: set<object>,
        ghost S: set<object>) returns (same: bool)
    requires AllWithin(ms, R) && AllWithin(ns, S) && i < |ms|
    ensures same == MemberSame(Readings(ms, R), Readings(ns, S), d, i)
    decreases R, 2
  {
    var value2 := Get(ns, ms[i].key);
    ReadingAt(ns, S, ms[i].key);
    if value2.None? {
      return false;
    }
    hide Get, Within, Reading, JsonEqual.Equal;
    same := ValuesEqual(ms[i].value, value2.value, d, R, S);
  }

  /** A lookup in the members is the lookup in the tree. */
  lemma {:induction false} ReadingAt(ms: seq<Entry<Ref>>, R: set<object>, k: Key)
    requires AllWithin(ms, R)
    ensures Get(Readings(ms, R), k).Some? <==> Get(ms, k).Some?
    ensures Get(ms, k).Some? ==>
      Within(Get(ms, k).value, R) && Get(Readings(ms, R), k) == Some(Reading(Get(ms, k).value, R))
  {
    hide Within, Reading;
    if ms != [] {
      ReadingAt(ms[1..], R, k);
      assert Readings(ms, R)[1..] == Readings(ms[1..], R);
    }
  }

  ghost predicate ItemSame(vs: seq<Json>, ws: seq<Json>, d: JsonEqual.Doubles, j: nat)
    requires j < |vs| == |ws|
  {
    JsonEqual.Equal(vs[j], ws[j], d)
  }

  lemma ArraysEqual(vs: seq<Json>, ws: seq<Json>, d: JsonEqual.Doubles)
    ensures JsonEqual.Equal(Array(vs), Array(ws), d) <==> |vs| == |ws| && forall j :: 0 <= j < |vs| ==>
      ItemSame(vs, ws, d, j)
  {
    if |vs| == |ws| && forall j :: 0 <= j < |vs| ==> ItemSame(vs, ws, d, j) {
      assert forall j :: 0 <= j < |vs| ==> ItemSame(vs, ws, d, j) && vs[j] == vs[j];
    }
  }

  /** json_array_equal */
  method ArrayEqual(a: JArray, b: JArray, d: JsonEqual.Doubles) returns (eq: bool)
    requires a.Valid() && b.Valid()
    ensures eq == JsonEqual.Equal(Array(a.Items()), Array(b.Items()), d)
    decreases a.Repr, 0
  {
    ItemsAre(a);
    ItemsAre(b);
    ArraysEqual(a.Items(), b.Items(), d);
    hide JArray.Valid, JArray.Items, JsonEqual.Equal, ItemSame, ItemsWithin;
    if |a.items| != |b.items| {
      return false;
    }
    eq := ItemsEqual(a.items, b.items, d, a.Repr - {a}, b.Repr - {b}, a.Items(), b.Items());
  }

  /** Its loop. */
  method ItemsEqual(vs: seq<Ref>, ws: seq<Ref>, d: JsonEqual.Doubles, ghost R: set<object>, ghost S: set<object>,
                    ghost xs: seq<Json>, ghost ys: seq<Json>) returns (same: bool)
    requires ItemsWithin(vs, R) && ItemsWithin(ws, S) && |vs| == |ws|
    requires xs == ItemReadings(vs, R) && ys == ItemReadings(ws, S)
    ensures same <==> forall j :: 0 <= j < |xs| ==> ItemSame(xs, ys, d, j)
    decreases R, 3
  {
    hide JsonEqual.Equal, ItemSame, ItemsWithin, Reading, Within;
    for i := 0 to |vs|
      invariant forall j :: 0 <= j < i ==> ItemSame(xs, ys, d, j)
    {
      same := ItemEqual(vs, ws, d, i, R, S);
      if !same {
        return;
      }
    }
    return true;
  }

  /** One turn of its loop. */
  method ItemEqual(vs: seq<Ref>, ws: seq<Ref>, d: JsonEqual.Doubles, i: nat, ghost R: set<object>,
        ghost S: set<object>) returns (same: bool)
    requires ItemsWithin(vs, R) && ItemsWithin(ws, S) && i < |vs| == |ws|
    ensures same == ItemSame(ItemReadings(vs, R), ItemReadings(ws, S), d, i)
    decreases R, 2
  {
    same := ValuesEqual(vs[i], ws[i], d, R, S);
  }
}
