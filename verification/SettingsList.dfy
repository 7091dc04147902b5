/** The setters and the conversion loops of src/data.c on the linked item list itself. */
module SettingsList {
  import opened Bytes
  import opened OrderedMap
  import opened SortedMap
  import opened JsonValue
  import opened DataList
  import opened Settings

  // The setters are not ok where the value they replace is released as a pointer it is not.

  /** set_item: found by name or inserted, the block possibly growing. */
  method SetUserItem(data: DataList<Item>, name: Key, s: Setting) returns (ok: bool)
    requires data.Valid() && forall n :: n in data.handles ==> n !in Elements(data.chain) || n.name != name
    modifies data, data.items
    ensures data.Valid() && data.handles == old(data.handles) && fresh(data.items - old(data.items))
    ensures ok <==> UserReleasable(Get(old(data.Contents()), name))
    ensures ok ==> data.Contents() == SetUser(old(data.Contents()), name, s)
  {
    hide Links, Elements, Pairs, SortedKeys, Distinct, Put, Get, Has, DataList.Counted, DataList.Valid;
    var found := data.GetItem(name);
    var grows: bool := *;
    ok := found == null || Releasable(found.value.kind, found.value.user);
    if found == null {
      data.SetItem(name, Item(KindOf(s), Some(s), None, None), grows);
    } else if ok {
      data.SetItem(name, found.value.(kind := KindOf(s), user := Some(s)), grows);
    }
  }

  /** set_item_def: an item of another type is left alone. */
  method SetDefaultItem(data: DataList<Item>, name: Key, s: Setting) returns (ok: bool)
    requires data.Valid() && forall n :: n in data.handles ==> n !in Elements(data.chain) || n.name != name
    modifies data, data.items
    ensures data.Valid() && data.handles == old(data.handles) && fresh(data.items - old(data.items))
    ensures var was := Get(old(data.Contents()), name);
      ok <==> was.None? || was.value.kind != KindOf(s) || Releasable(was.value.kind, was.value.default)
    ensures ok ==> data.Contents() == SetDefault(old(data.Contents()), name, s)
  {
    hide Links, Elements, Pairs, SortedKeys, Distinct, Put, Get, Has, DataList.Counted, DataList.Valid;
    var found := data.GetItem(name);
    var grows: bool := *;
    ok := found == null || found.value.kind != KindOf(s) || Releasable(found.value.kind, found.value.default);
    if found == null {
      data.SetItem(name, Item(KindOf(s), None, Some(s), None), grows);
    } else if ok && found.value.kind == KindOf(s) {
      data.SetItem(name, found.value.(default := Some(s)), grows);
    }
  }

  /** set_item_auto */
  method SetAutoselectItem(data: DataList<Item>, name: Key, s: Setting) returns (ok: bool)
    requires data.Valid() && forall n :: n in data.handles ==> n !in Elements(data.chain) || n.name != name
    modifies data, data.items
    ensures data.Valid() && data.handles == old(data.handles) && fresh(data.items - old(data.items))
    ensures var was := Get(old(data.Contents()), name); ok <==> was.None? || Releasable(was.value.kind, was.value.autoselect)
    ensures ok ==> data.Contents() == SetAutoselect(old(data.Contents()), name, s)
  {
    hide Links, Elements, Pairs, SortedKeys, Distinct, Put, Get, Has, DataList.Counted, DataList.Valid;
    var found := data.GetItem(name);
    var grows: bool := *;
    ok := found == null || Releasable(found.value.kind, found.value.autoselect);
    if found == null {
      data.SetItem(name, Item(KindOf(s), None, None, Some(s)), grows);
    } else if ok {
      data.SetItem(name, found.value.(kind := KindOf(s), autoselect := Some(s)), grows);
    }
  }

  /** Every user value can be replaced, as where each name's last setter was that of its user value. */
  ghost predicate AllReleasable(d: Data) {
    forall k :: UserReleasable(Get(d, k))
  }

  lemma SetReleasable(d: Data, name: Key, s: Setting)
    requires Ordered(d) && AllReleasable(d)
    ensures Ordered(SetUser(d, name, s)) && AllReleasable(SetUser(d, name, s))
  {
    hide Get, SetRaw, Ordered;
    SetRawLaw(d, name, KindOf(s), s, name);
    forall k
      ensures UserReleasable(Get(SetUser(d, name, s), k))
    {
      SetRawLaw(d, name, KindOf(s), s, k);
    }
  }

  /** wsc_data_add_json_object_data; the source calls it on new data only. */
  method AddJsonObjectData(data: DataList<Item>, ms: seq<Entry<Json>>)
    requires data.Valid() && data.handles == multiset{} && AllReleasable(data.Contents())
    modifies data, data.items
    ensures data.Valid() && data.handles == multiset{} && fresh(data.items - old(data.items))
    ensures data.Contents() == AddMembers(old(data.Contents()), ms)
  {
    InOrder(data);
    hide Links, Elements, SortedKeys, Distinct, SetRaw, SetUser, Pairs, AllReleasable, UserReleasable, Ordered, Get;
    for i := 0 to |ms|
      invariant data.Valid() && data.handles == multiset{} && fresh(data.items - old(data.items))
      invariant data.Contents() == AddMembers(old(data.Contents()), ms[..i])
      invariant Ordered(data.Contents()) && AllReleasable(data.Contents())
    {
      assert ms[..i + 1][..i] == ms[..i];
      if !ms[i].value.Null? {
        SetReleasable(data.Contents(), ms[i].key, FromJson(ms[i].value));
        ReleasableAt(data.Contents(), ms[i].key);
        var _ := SetUserItem(data, ms[i].key, FromJson(ms[i].value));
      }
    }
    assert ms[..|ms|] == ms;
  }

  lemma ReleasableAt(d: Data, k: Key)
    requires AllReleasable(d)
    ensures UserReleasable(Get(d, k))
  {
  }

  lemma InOrder(data: DataList<Item>)
    requires data.Valid()
    ensures Ordered(data.Contents())
  {
    hide Links, Elements, SortedKeys, Distinct, Pairs;
  }

  /**
    * wsc_data_to_json: every reference the iteration takes is given back. None where the bytes of an item are followed
    * as a pointer they are not.
    */
  method WscDataToJson(data: DataList<Item>, m: Machine) returns (ms: Option<seq<Entry<Json>>>)
    requires data.Valid()
    modifies data, data.items
    ensures data.Valid() && data.handles == old(data.handles) && data.Contents() == old(data.Contents())
    ensures ms == Export(data.Contents(), m)
  {
    ghost var base := data.handles;
    var item := data.First();
    ms := ExportFrom(data, item, base, m);
  }

  /** Its loop, from the handle on the first item. */
  method ExportFrom(data: DataList<Item>, first: ListItem?<Item>, ghost base: multiset<ListItem<Item>>, m: Machine)
      returns (ms: Option<seq<Entry<Json>>>)
    requires data.Valid() && first == After(data.chain, -1) && data.handles == base + One(first)
    modifies data, data.items
    ensures data.Valid() && data.handles == base && data.Contents() == old(data.Contents())
    ensures ms == Export(data.Contents(), m)
  {
    hide Links, Elements, SortedKeys, Distinct, Pairs, After, Export, SetMember, ItemJson, DataList.Counted;
    ExportEmpty(m);
    ms := Some([]);
    var item := first;
    ghost var i := 0;
    ghost var s, d := data.chain, data.Contents();
    while item != null
      invariant data.Valid() && data.chain == s && Pairs(s) == d && data.items == old(data.items)
      invariant item == After(s, i - 1) && data.handles == base + One(item)
      invariant i <= |d| && ms == Export(d[..i], m)
      decreases |d| - i
    {
      AfterAt(s, i - 1);
      ms := SetMember(ms, item.name, ItemJson(item.value, m));
      ExportPrefix(d, i, m);
      item := data.Advance(item, i, base);
      i := i + 1;
    }
    AfterAt(s, i - 1);
    assert d[..i] == d;
  }

  lemma ExportEmpty(m: Machine)
    ensures Export([], m) == Some([])
  {
  }

  lemma ExportPrefix(d: Data, i: nat, m: Machine)
    requires i < |d|
    ensures Export(d[..i + 1], m) == SetMember(Export(d[..i], m), d[i].key, ItemJson(d[i].value, m))
  {
    assert d[..i + 1] == d[..i] + [d[i]];
    ExportNext(d[..i], d[i], m);
  }
}
