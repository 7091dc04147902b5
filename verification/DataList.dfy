/**
  * The item list of src/data.c: singly linked, sorted by name, with reference-counted items that
  * iteration handles may keep alive. It behaves as a sorted map.
  */
module DataList {
  import opened Bytes
  import opened OrderedMap
  import opened SortedMap
  import opened Segments

  class ListItem<V> {
    const name: Key
    var value: V
    var refs: int
    var next: ListItem?<V>

    constructor (name: Key, value: V)
      ensures this.name == name && this.value == value && refs == 1 && next == null
    {
      this.name := name;
      this.value := value;
      refs := 1;
      next := null;
    }

    /** The bytes of another item, as brealloc carries them over. */
    constructor Copy(item: ListItem<V>)
      ensures name == item.name && value == item.value && refs == item.refs && next == item.next
    {
      name := item.name;
      value := item.value;
      refs := item.refs;
      next := item.next;
    }
  }

  /** The items of the list and their values, in list order. */
  ghost function Pairs<V>(s: seq<ListItem<V>>): (m: seq<Entry<V>>)
    reads s`value
    ensures |m| == |s| && forall i :: 0 <= i < |m| ==> m[i] == Entry(s[i].name, s[i].value)
  {
    if s == [] then [] else [Entry(s[0].name, s[0].value)] + Pairs(s[1..])
  }

  ghost predicate Apart<V>(s: seq<ListItem<V>>) {
    forall i, j :: 0 <= i < j < |s| ==> s[i] != s[j]
  }

  /** What follows position i of the list; nothing past its end. */
  ghost function After<V>(s: seq<ListItem<V>>, i: int): ListItem?<V> {
    if 0 <= i + 1 < |s| then s[i + 1] else null
  }

  lemma AfterAt<V>(s: seq<ListItem<V>>, i: int)
    ensures After(s, i) != null <==> 0 <= i + 1 < |s|
    ensures 0 <= i + 1 < |s| ==> After(s, i) == s[i + 1]
  {
  }

  /** first and the next links list exactly s. */
  ghost predicate Links<V>(first: ListItem?<V>, s: seq<ListItem<V>>)
    reads s`next
  {
    && first == After(s, -1) && Apart(s)
    && (s != [] ==> s[|s| - 1].next == null)
    && forall i, j :: 0 <= i && j == i + 1 < |s| ==> s[i].next == s[j]
  }

  ghost function Elements<V>(s: seq<ListItem<V>>): set<ListItem<V>> {
    set n | n in s
  }

  lemma ApartAt<V>(s: seq<ListItem<V>>, p: nat)
    requires Apart(s) && p < |s|
    ensures forall i :: 0 <= i < |s| && i != p ==> s[i] != s[p]
    ensures Apart(RemoveAt(s, p)) && Elements(RemoveAt(s, p)) == Elements(s) - {s[p]}
  {
    assert forall k :: 0 <= k < |s| && k != p ==> s[k] == RemoveAt(s, p)[if k < p then k else k - 1];
  }

  lemma ApartInsert<V>(s: seq<ListItem<V>>, p: nat, item: ListItem<V>)
    requires Apart(s) && p <= |s| && item !in Elements(s)
    ensures Apart(InsertAt(s, p, item))
  {
  }

  lemma ElementsInsert<V>(s: seq<ListItem<V>>, p: nat, item: ListItem<V>)
    requires p <= |s|
    ensures Elements(InsertAt(s, p, item)) == Elements(s) + {item}
  {
    assert s == s[..p] + s[p..];
  }

  /** Cutting an item out of a sorted list deletes its name. */
  lemma CutPairs<V>(s: seq<ListItem<V>>, i: nat)
    requires i < |s| && SortedKeys(Pairs(s)) && Distinct(Pairs(s))
    ensures Pairs(RemoveAt(s, i)) == Del(Pairs(s), s[i].name)
    ensures SortedKeys(Pairs(RemoveAt(s, i))) && Distinct(Pairs(RemoveAt(s, i)))
  {
    hide Del, SortedKeys, Distinct, Has, Pairs, RemoveAt;
    var m := Pairs(s);
    PairsRemove(s, i);
    DelAt(m, i);
    CutSorted(m, i);
    CutDistinct(m, i);
  }

  lemma PairsRemove<V>(s: seq<ListItem<V>>, i: nat)
    requires i < |s|
    ensures Pairs(RemoveAt(s, i)) == Pairs(s)[..i] + Pairs(s)[i + 1..]
  {
    hide Pairs;
    var r, m := RemoveAt(s, i), Pairs(s);
    var c := m[..i] + m[i + 1..];
    forall k | 0 <= k < |r|
      ensures Pairs(r)[k] == c[k]
    {
      var j := if k < i then k else k + 1;
      assert r[k] == s[j] && c[k] == m[j];
    }
  }

  lemma Spliced<V>(m: seq<Entry<V>>, p: nat, e: Entry<V>)
    requires p <= |m|
    ensures InsertAt(m, p, e) == m[..p] + [e] + m[p..]
  {
  }

  lemma InElements<V>(s: seq<ListItem<V>>)
    ensures forall k :: 0 <= k < |s| ==> s[k] in Elements(s)
  {
  }

  lemma PairsInsert<V>(s: seq<ListItem<V>>, p: nat, item: ListItem<V>)
    requires p <= |s|
    ensures Pairs(InsertAt(s, p, item)) == InsertAt(Pairs(s), p, Entry(item.name, item.value))
  {
    hide Pairs;
    var r, m := InsertAt(s, p, item), InsertAt(Pairs(s), p, Entry(item.name, item.value));
    forall k | 0 <= k < |r|
      ensures Pairs(r)[k] == m[k]
    {
      PairInserted(s, p, item, k);
    }
  }

  lemma Inserted<T>(s: seq<T>, p: nat, x: T, k: nat)
    requires p <= |s| && k <= |s|
    ensures |InsertAt(s, p, x)| == |s| + 1
    ensures InsertAt(s, p, x)[k] == if k < p then s[k] else if k == p then x else s[k - 1]
  {
  }

  lemma PairInserted<V>(s: seq<ListItem<V>>, p: nat, item: ListItem<V>, k: nat)
    requires p <= |s| && k <= |s|
    ensures Pairs(InsertAt(s, p, item))[k] == InsertAt(Pairs(s), p, Entry(item.name, item.value))[k]
  {
    hide Pairs, InsertAt;
    Inserted(s, p, item, k);
    Inserted(Pairs(s), p, Entry(item.name, item.value), k);
  }

  /** Linking an item where its name belongs inserts it into the map. */
  lemma InsertPairs<V>(s: seq<ListItem<V>>, p: nat, item: ListItem<V>)
    requires p <= |s| && SortedKeys(Pairs(s)) && Distinct(Pairs(s)) && !Has(Pairs(s), item.name)
    requires forall j :: 0 <= j < p ==> !KeyLeq(item.name, s[j].name)
    requires p < |s| ==> KeyLeq(item.name, s[p].name)
    ensures Pairs(InsertAt(s, p, item)) == Insert(Entry(item.name, item.value), Pairs(s))
    ensures SortedKeys(Pairs(InsertAt(s, p, item))) && Distinct(Pairs(InsertAt(s, p, item)))
  {
    hide SortedKeys, Distinct, Has, Pairs, Insert, InsertAt, KeyLeq;
    var m, e := Pairs(s), Entry(item.name, item.value);
    PairsInsert(s, p, item);
    Spliced(m, p, e);
    InsertBetween(e, m, p);
    InsertSorts(e, m);
    InsertDistinct(e, m);
  }

  /** The two handles at the end of the search tell where the name belongs. */
  lemma PlaceFound<V>(s: seq<ListItem<V>>, name: Key, i: nat)
    requires SortedKeys(Pairs(s)) && !Has(Pairs(s), name) && (i < |s| || i == 0)
    requires i > 0 ==> KeyLeq(s[i].name, name)
    requires i + 1 < |s| ==> !KeyLeq(s[i + 1].name, name)
    ensures i < |s| && !KeyLeq(name, s[i].name) ==> forall j :: 0 <= j <= i ==> !KeyLeq(name, s[j].name)
    ensures i < |s| && KeyLeq(name, s[i].name) ==> i == 0
    ensures i + 1 < |s| ==> KeyLeq(name, s[i + 1].name)
  {
    hide KeyLeq;
    var m := Pairs(s);
    if i + 1 < |s| {
      KeyTotal(name, s[i + 1].name);
    }
    if i < |s| {
      KeyTotal(name, s[i].name);
      assert s[i].name != name by { assert m[i].key == s[i].name; }
      if !KeyLeq(name, s[i].name) {
        forall j | 0 <= j <= i
          ensures !KeyLeq(name, s[j].name)
        {
          if j < i && KeyLeq(name, s[j].name) {
            assert KeyLeq(m[j].key, m[i].key);
            KeyTransitive(name, s[j].name, s[i].name);
          }
        }
      }
    }
  }

  /** Putting a copy in an item's place. */
  lemma Replaced<V>(s: seq<ListItem<V>>, p: nat, copy: ListItem<V>)
    requires p < |s| && Apart(s) && copy !in Elements(s) && copy.name == s[p].name && copy.value == s[p].value
    ensures Apart(s[p := copy]) && Elements(s[p := copy]) == Elements(s) - {s[p]} + {copy}
    ensures Pairs(s[p := copy]) == Pairs(s)
  {
    hide Pairs;
    var r := s[p := copy];
    assert Pairs(r) == Pairs(s);
    assert forall k :: 0 <= k < |s| ==> r[k] == if k == p then copy else s[k];
    assert copy == r[p];
  }

  function One<V>(n: ListItem?<V>): multiset<ListItem<V>> {
    if n == null then multiset{} else multiset{n}
  }

  class DataList<V> {
    var first: ListItem?<V>
    ghost var chain: seq<ListItem<V>>         // the linked items
    ghost var items: set<ListItem<V>>         // every item not yet freed
    ghost var handles: multiset<ListItem<V>>  // the references held by callers

    /** An item's count is one for the list, if linked, plus one per live handle. */
    ghost predicate Counted()
      reads `chain, `items, `handles, items`refs, items`next
    {
      && (forall n :: n in items ==> n.refs == handles[n] + (if n in Elements(chain) then 1 else 0) && n.refs > 0)
      && (forall n :: n in items && n !in Elements(chain) ==> n.next == null)
      && forall n :: n in handles ==> n in items
    }

    ghost predicate Valid()
      reads this, items
    {
      && Elements(chain) <= items && Links(first, chain) && Counted()
      && SortedKeys(Pairs(chain)) && Distinct(Pairs(chain))
    }

    ghost function Contents(): seq<Entry<V>>
      requires Elements(chain) <= items
      reads `chain, `items, items`value
    {
      Pairs(chain)
    }

    constructor ()
      ensures Valid() && items == {} && handles == multiset{} && Contents() == []
    {
      first := null;
      chain, items, handles := [], {}, multiset{};
    }

    // ---- Finding ----

    /** get_item */
    method GetItem(name: Key) returns (item: ListItem?<V>)
      requires Valid()
      ensures item == null <==> !Has(Contents(), name)
      ensures item != null ==> item in Elements(chain) && item.name == name
      ensures Get(Contents(), name) == if item == null then None else Some(item.value)
    {
      hide Counted, SortedKeys;
      item := first;
      ghost var i := 0;
      while item != null
        invariant i <= |chain| && item == if i < |chain| then chain[i] else null
        invariant forall j :: 0 <= j < i ==> chain[j].name != name
        decreases |chain| - i
      {
        if item.name == name {
          assert Contents()[i] == Entry(name, item.value);
          GetAt(Contents(), i);
          return;
        }
        item := item.next;
        i := i + 1;
      }
      GetAbsent(Contents(), name);
    }

    /** get_item_prev_next: whether current is linked, and the item whose link leads to it (none: the list head's). */
    method FindLink(current: ListItem<V>) returns (found: bool, prev: ListItem?<V>, ghost i: nat)
      requires Links(first, chain)
      ensures found <==> current in Elements(chain)
      ensures found ==> i < |chain| && chain[i] == current && prev == if i == 0 then null else chain[i - 1]
    {
      i := 0;
      prev := null;
      var item := first;
      while item != null
        invariant i <= |chain| && item == if i < |chain| then chain[i] else null
        invariant prev == if i == 0 then null else chain[i - 1]
        invariant forall j :: 0 <= j < i ==> chain[j] != current
        decreases |chain| - i
      {
        if item == current {
          return true, prev, i;
        }
        prev := item;
        item := item.next;
        i := i + 1;
      }
      return false, null, i;
    }

    // ---- Handles ----

    /** os_atomic_inc_long on an item's count: one more handle. */
    method AddRef(item: ListItem<V>)
      requires Valid() && item in items
      modifies `handles, item`refs
      ensures Valid() && handles == old(handles) + multiset{item}
    {
      hide Links, Elements, SortedKeys, Distinct, Pairs;
      item.refs := item.refs + 1;
      handles := handles + multiset{item};
    }

    /** wsc_data_first: takes a handle. */
    method First() returns (item: ListItem?<V>)
      requires Valid()
      modifies `handles, items`refs
      ensures Valid() && item == first == After(chain, -1) && handles == old(handles) + One(item)
    {
      hide SortedKeys, Distinct, Pairs, Has, RemoveAt;
      item := first;
      if item != null {
        AddRef(item);
      }
    }

    /** wsc_data_item_byname: takes a handle. */
    method ByName(name: Key) returns (item: ListItem?<V>)
      requires Valid()
      modifies `handles, items`refs
      ensures Valid() && handles == old(handles) + One(item)
      ensures item == null <==> !Has(Contents(), name)
      ensures item != null ==> item in Elements(chain) && item.name == name
    {
      hide Links, Elements, SortedKeys, Distinct, Pairs, Has, RemoveAt;
      item := GetItem(name);
      if item != null {
        AddRef(item);
      }
    }

    /** wsc_data_item_detach */
    method Detach(item: ListItem<V>)
      requires Elements(chain) <= items && Links(first, chain)
      modifies `first, `chain, items`next
      ensures Links(first, chain) && Elements(chain) == old(Elements(chain)) - {item}
      ensures item in old(Elements(chain)) ==> item.next == null
      ensures forall i :: 0 <= i < |old(chain)| && old(chain)[i] == item ==> chain == RemoveAt(old(chain), i)
      ensures item !in old(Elements(chain)) ==> chain == old(chain)
      ensures forall n :: n in items - old(Elements(chain)) ==> n.next == old(n.next)
    {
      var found, prev, p := FindLink(item);
      if found {
        hide Elements, Apart;
        ApartAt(chain, p);
        if p > 0 {
          ApartAt(chain, p - 1);
        }
        if prev == null {
          first := item.next;
        } else {
          prev.next := item.next;
        }
        item.next := null;
        chain := RemoveAt(chain, p);
      }
    }

    /** wsc_data_item_destroy, which only unlinked items reach. */
    method Destroy(item: ListItem<V>)
      requires Elements(chain) <= items && Links(first, chain) && item !in Elements(chain)
      modifies `first, `chain, `items, items`next
      ensures chain == old(chain) && items == old(items) - {item} && Links(first, chain)
      ensures forall n :: n in items - Elements(chain) ==> n.next == old(n.next)
    {
      hide Links, RemoveAt, Elements;
      Detach(item);
      items := items - {item};
    }

    /** Counted, but for one reference to item that is about to be dropped: a handle's or the list's. */
    ghost predicate Owed(item: ListItem<V>, handle: bool)
      reads `chain, `items, `handles, items`refs, items`next
    {
      && item in items && item.refs > 0 && (handle ==> item in handles)
      && item.refs - 1 == handles[item] - (if handle then 1 else 0) + (if item in Elements(chain) then 1 else 0)
      && (forall n :: n in items && n != item ==> n.refs == handles[n] + (if n in Elements(chain) then 1 else 0) && n.refs > 0)
      && (forall n :: n in items && n !in Elements(chain) ==> n.next == null)
      && forall n :: n in handles ==> n in items
    }

    /** The body of wsc_data_item_release: the item goes with its last reference. */
    method Drop(item: ListItem<V>, ghost handle: bool)
      requires Elements(chain) <= items && Links(first, chain) && Owed(item, handle)
      modifies `first, `chain, `items, `handles, items`refs, items`next
      ensures Elements(chain) <= items && Links(first, chain) && Counted() && chain == old(chain)
      ensures handles == if handle then old(handles) - multiset{item} else old(handles)
      ensures items == if item in Elements(chain) || item in handles then old(items) else old(items) - {item}
    {
      hide Links, Elements;
      item.refs := item.refs - 1;
      if handle {
        handles := handles - multiset{item};
      }
      if item.refs == 0 {
        Destroy(item);
      }
    }

    /** wsc_data_item_release: gives up one handle. */
    method Release(item: ListItem<V>)
      requires Valid() && item in handles
      modifies `first, `chain, `items, `handles, items`refs, items`next
      ensures Valid() && chain == old(chain) && handles == old(handles) - multiset{item}
      ensures items == if item in Elements(chain) || item in handles then old(items) else old(items) - {item}
    {
      hide Links, Elements, SortedKeys, Distinct, Pairs;
      Drop(item, true);
    }

    lemma Following(item: ListItem<V>)
      requires Valid() && item in items
      ensures item !in Elements(chain) ==> item.next == null
      ensures item.next != null ==> item.next in Elements(chain)
      ensures forall i :: 0 <= i < |chain| && chain[i] == item ==> item.next == After(chain, i)
    {
      if i :| 0 <= i < |chain| && chain[i] == item {
        assert i + 1 < |chain| ==> item.next == chain[i + 1];
      }
    }

    /** wsc_data_item_next: trades the handle for one on the next item. */
    method Next(item: ListItem<V>) returns (next: ListItem?<V>)
      requires Valid() && item in handles
      modifies `first, `chain, `items, `handles, items`refs, items`next
      ensures Valid() && chain == old(chain) && handles == old(handles) - One(item) + One(next)
      ensures item !in Elements(chain) ==> next == null && items <= old(items)
      ensures item in Elements(chain) ==> items == old(items)
      ensures forall i :: 0 <= i < |chain| && chain[i] == item ==> next == After(chain, i)
    {
      hide Links, Elements, SortedKeys, Distinct, Pairs;
      Following(item);
      next := item.next;
      Release(item);
      if next != null {
        AddRef(next);
      }
    }

    // ---- Removing ----

    /** Detach, seen as an operation on the map. */
    method Unlink(item: ListItem<V>)
      requires Elements(chain) <= items && Links(first, chain) && SortedKeys(Pairs(chain)) && Distinct(Pairs(chain))
      modifies `first, `chain, items`next
      ensures Links(first, chain) && Elements(chain) == old(Elements(chain)) - {item}
      ensures SortedKeys(Pairs(chain)) && Distinct(Pairs(chain))
      ensures Pairs(chain) == if item in old(Elements(chain)) then Del(old(Pairs(chain)), item.name)
        else old(Pairs(chain))
      ensures item in old(Elements(chain)) ==> item.next == null
      ensures item !in old(Elements(chain)) ==> chain == old(chain)
      ensures forall n :: n in items - old(Elements(chain)) ==> n.next == old(n.next)
    {
      hide Links, SortedKeys, Distinct, Pairs, RemoveAt, Del;
      ghost var cut := chain;
      if i :| 0 <= i < |chain| && chain[i] == item {
        CutPairs(chain, i);
        cut := RemoveAt(chain, i);
      }
      hide Elements;
      ghost var m := Pairs(cut);
      Detach(item);
      assert chain == cut && Pairs(cut) == m;
    }

    /**
      * wsc_data_item_remove: unlinks the item and gives up a reference. For a linked item that is
      * the list's, so the caller's handle stays; for one already unlinked it is a handle.
      */
    method Remove(item: ListItem<V>)
      requires Valid() && item in items
      modifies `first, `chain, `items, `handles, items`refs, items`next
      ensures Valid()
      ensures item in old(Elements(chain)) ==> handles == old(handles) && Contents() == Del(old(Contents()), item.name)
      ensures item !in old(Elements(chain)) ==> handles == old(handles) - multiset{item} && chain == old(chain)
      ensures items == if item in handles then old(items) else old(items) - {item}
    {
      hide Links, Elements, SortedKeys, Distinct, Pairs, Del, After, Apart;
      ghost var linked := item in Elements(chain);
      Unlink(item);
      Drop(item, !linked);
    }

    /** wsc_data_erase */
    method Erase(name: Key)
      requires Valid()
      modifies `first, `chain, `items, `handles, items`refs, items`next
      ensures Valid() && Contents() == Del(old(Contents()), name) && handles == old(handles) && items <= old(items)
    {
      hide Links, Elements, SortedKeys, Distinct, Pairs, Counted;
      var item := GetItem(name);
      if item != null {
        Remove(item);
      } else {
        DelAbsent(Contents(), name);
      }
    }

    // ---- Setting ----

    /** Links a new item at position p, after prev. */
    method LinkAt(item: ListItem<V>, prev: ListItem?<V>, next: ListItem?<V>, ghost p: nat)
      requires Links(first, chain) && item !in Elements(chain) && p <= |chain|
      requires prev == After(chain, p - 2) && next == After(chain, p - 1) && (prev == null <==> p == 0)
      modifies `first, `chain, item`next, (if prev == null then {} else {prev})`next
      ensures chain == InsertAt(old(chain), p, item) && Links(first, chain)
    {
      hide Elements, Apart;
      ghost var s := chain;
      ApartInsert(s, p, item);
      if p > 0 {
        ApartAt(s, p - 1);
      }
      InElements(s);
      if prev != null {
        prev.next := item;
      } else {
        first := item;
      }
      item.next := next;
      chain := InsertAt(chain, p, item);
    }

    /** A handle on the item at a position moves on to the next position. */
    method Advance(item: ListItem<V>, ghost i: nat, ghost base: multiset<ListItem<V>>) returns (next: ListItem?<V>)
      requires Valid() && i < |chain| && item == chain[i] && handles == base + multiset{item}
      modifies `first, `chain, `items, `handles, items`refs, items`next
      ensures Valid() && chain == old(chain) && items == old(items) && handles == base + One(next)
      ensures next == After(chain, i)
    {
      hide Valid;
      next := Next(item);
    }

    /** Both handles of the search move on. */
    method Step(p: ListItem<V>, n: ListItem<V>, ghost i: nat, ghost base: multiset<ListItem<V>>)
        returns (prev: ListItem?<V>, next: ListItem?<V>)
      requires Valid() && handles == base + One(p) + One(n) && p == After(chain, i - 1) && n == After(chain, i)
      modifies `first, `chain, `items, `handles, items`refs, items`next
      ensures Valid() && chain == old(chain) && items == old(items) && handles == base + One(prev) + One(next)
      ensures prev == n && next == After(chain, i + 1)
    {
      hide Valid, After;
      AfterAt(chain, i - 1);
      AfterAt(chain, i);
      prev := Advance(p, i, base + One(n));
      next := Advance(n, i + 1, base + One(prev));
    }

    /** The two handles the search starts with: on the first item and on the second. */
    method FirstTwo() returns (prev: ListItem?<V>, next: ListItem?<V>)
      requires Valid()
      modifies `first, `chain, `items, `handles, items`refs, items`next
      ensures Valid() && chain == old(chain) && items == old(items) && handles == old(handles) + One(prev) + One(next)
      ensures prev == After(chain, -1) && next == After(chain, 0)
    {
      hide Valid, After;
      ghost var base := handles;
      AfterAt(chain, -1);
      AfterAt(chain, 0);
      prev := First();
      next := First();
      if next != null {
        next := Advance(next, 0, base + One(prev));
      }
    }

    /** The search loop of set_item_data; both handles are live at its end. */
    method FindPlace(name: Key, prev0: ListItem?<V>, next0: ListItem?<V>, ghost base: multiset<ListItem<V>>)
        returns (prev: ListItem?<V>, next: ListItem?<V>, ghost i: nat)
      requires Valid() && handles == base + One(prev0) + One(next0)
      requires prev0 == After(chain, -1) && next0 == After(chain, 0)
      modifies `first, `chain, `items, `handles, items`refs, items`next
      ensures Valid() && chain == old(chain) && items == old(items) && handles == base + One(prev) + One(next)
      ensures prev == After(chain, i - 1) && next == After(chain, i) && (i < |chain| || i == 0)
      ensures i > 0 ==> KeyLeq(chain[i].name, name)
      ensures next != null ==> !KeyLeq(next.name, name)
    {
      hide Valid, Elements, KeyLeq, After, One;
      i := 0;
      prev, next := prev0, next0;
      while prev != null && next != null
        invariant Valid() && chain == old(chain) && items == old(items) && handles == base + One(prev) + One(next)
        invariant prev == After(chain, i - 1) && next == After(chain, i) && (i < |chain| || i == 0)
        invariant i > 0 ==> KeyLeq(chain[i].name, name)
        decreases |chain| - i
      {
        if !KeyLeq(next.name, name) {
          break;
        }
        AfterAt(chain, i);
        prev, next := Step(prev, next, i, base);
        i := i + 1;
      }
      AfterAt(chain, i - 1);
      AfterAt(chain, i);
    }

    /** The linking step of set_item_data, with the handles where the search left them. */
    method LinkNew(item: ListItem<V>, prev: ListItem?<V>, next: ListItem?<V>, ghost i: nat)
      requires Valid() && item !in items && item.refs == 1 && !Has(Contents(), item.name)
      requires prev == After(chain, i - 1) && next == After(chain, i) && (i < |chain| || i == 0)
      requires i > 0 ==> KeyLeq(chain[i].name, item.name)
      requires next != null ==> !KeyLeq(next.name, item.name)
      modifies `first, `chain, `items, items`next, item`next
      ensures Valid() && items == old(items) + {item} && Elements(chain) == old(Elements(chain)) + {item}
      ensures Contents() == Insert(Entry(item.name, item.value), old(Contents()))
    {
      hide Links, Elements, Distinct, SortedKeys, Pairs, Has, KeyLeq, InsertAt;
      PlaceFound(chain, item.name, i);
      ghost var s := chain;
      InElements(s);
      ghost var p := if prev != null && !KeyLeq(item.name, prev.name) then i + 1 else 0;
      InsertPairs(s, p, item);
      ghost var m := Pairs(InsertAt(s, p, item));
      ElementsInsert(s, p, item);
      if prev != null && !KeyLeq(item.name, prev.name) {
        LinkAt(item, prev, next, i + 1);
      } else {
        LinkAt(item, null, prev, 0);
      }
      assert Pairs(InsertAt(s, p, item)) == m;
      Admit(Elements(s), item);
    }

    /** A linked item becomes one of the items; e were the linked ones before. */
    ghost method Admit(e: set<ListItem<V>>, item: ListItem<V>)
      requires Links(first, chain) && SortedKeys(Pairs(chain)) && Distinct(Pairs(chain)) && e <= items
      requires item !in items && item.refs == 1 && Elements(chain) == e + {item}
      requires forall n :: n in items ==> n.refs == handles[n] + (if n in e then 1 else 0) && n.refs > 0
      requires forall n :: n in items && n !in e ==> n.next == null
      requires forall n :: n in handles ==> n in items
      modifies `items
      ensures Valid() && items == old(items) + {item}
    {
      hide Links, SortedKeys, Distinct, Pairs, Elements;
      items := items + {item};
    }

    /** The search of set_item_data: a handle on each side of where the name belongs. */
    method Search(name: Key) returns (prev: ListItem?<V>, next: ListItem?<V>, ghost i: nat)
      requires Valid()
      modifies `first, `chain, `items, `handles, items`refs, items`next
      ensures Valid() && chain == old(chain) && items == old(items) && handles == old(handles) + One(prev) + One(next)
      ensures prev == After(chain, i - 1) && next == After(chain, i) && (i < |chain| || i == 0)
      ensures i > 0 ==> KeyLeq(chain[i].name, name)
      ensures next != null ==> !KeyLeq(next.name, name)
    {
      hide Valid, After, KeyLeq, One;
      ghost var base := handles;
      prev, next := FirstTwo();
      prev, next, i := FindPlace(name, prev, next, base);
    }

    /** Gives up both handles. */
    method ReleaseBoth(prev: ListItem?<V>, next: ListItem?<V>, ghost base: multiset<ListItem<V>>)
      requires Valid() && handles == base + One(prev) + One(next)
      requires (prev == null || prev in Elements(chain)) && (next == null || next in Elements(chain))
      modifies `first, `chain, `items, `handles, items`refs, items`next
      ensures Valid() && chain == old(chain) && handles == base && items == old(items)
    {
      hide Valid, Elements;
      if prev != null {
        Release(prev);
      }
      if next != null {
        Release(next);
      }
    }

    /** set_item_data for a name that is not in the list: every count is as it was. */
    method InsertItem(name: Key, value: V)
      requires Valid() && !Has(Contents(), name)
      modifies this, items`refs, items`next
      ensures Valid() && handles == old(handles) && old(items) <= items && fresh(items - old(items))
      ensures Contents() == Insert(Entry(name, value), old(Contents()))
    {
      hide Links, Counted, SortedKeys, Distinct, Pairs, Has, KeyLeq, Insert, One, Elements, After;
      var prev, next;
      ghost var i: int;
      prev, next, i := Search(name);
      InElements(chain);
      AfterAt(chain, i - 1);
      AfterAt(chain, i);
      var item := new ListItem(name, value);
      LinkNew(item, prev, next, i);
      ReleaseBoth(prev, next, old(handles));
    }

    /** wsc_data_item_reattach: the link to the old item leads to the copy. */
    method Reattach(item: ListItem<V>, copy: ListItem<V>)
      requires Elements(chain) <= items && Links(first, chain) && copy !in items
      requires copy.name == item.name && copy.value == item.value && copy.next == item.next
      modifies `first, `chain, items`next
      ensures Links(first, chain) && Pairs(chain) == old(Pairs(chain))
      ensures forall i :: 0 <= i < |old(chain)| && old(chain)[i] == item ==> chain == old(chain)[i := copy]
      ensures item !in old(Elements(chain)) ==> chain == old(chain)
      ensures Elements(chain) == if item in old(Elements(chain)) then old(Elements(chain)) - {item} + {copy}
        else old(Elements(chain))
      ensures forall n :: n in items - old(Elements(chain)) ==> n.next == old(n.next)
    {
      hide Pairs, Elements, Apart;
      InElements(chain);
      var found, prev, i := FindLink(item);
      if found {
        Replaced(chain, i, copy);
        ApartAt(chain, i);
        if i > 0 {
          ApartAt(chain, i - 1);
        }
        if prev != null {
          prev.next := copy;
        } else {
          first := copy;
        }
        chain := chain[i := copy];
      }
    }

    /**
      * wsc_data_item_ensure_capacity when the block has to grow: a copy takes the item's place in
      * the list and the caller's handle moves to it. Any other handle would dangle.
      */
    method Reallocate(item: ListItem<V>) returns (copy: ListItem<V>)
      requires Valid() && item in items && handles[item] <= 1
      modifies `first, `chain, `items, `handles, items`next
      ensures Valid() && fresh(copy) && copy.name == item.name && copy.value == item.value
      ensures Contents() == old(Contents()) && items == old(items) - {item} + {copy}
      ensures handles == old(handles)[item := 0][copy := old(handles)[item]]
      ensures forall i :: 0 <= i < |old(chain)| && old(chain)[i] == item ==> chain == old(chain)[i := copy]
      ensures item !in old(Elements(chain)) ==> chain == old(chain)
      ensures item in old(Elements(chain)) <==> copy in Elements(chain)
    {
      hide Links, SortedKeys, Distinct, Pairs, Elements, Apart, After;
      ghost var e := Elements(chain);
      copy := new ListItem.Copy(item);
      Reattach(item, copy);
      Adopt(e, item, copy);
    }

    /** A copy takes over the handles and the place of an item; e were the linked items. */
    ghost method Adopt(e: set<ListItem<V>>, item: ListItem<V>, copy: ListItem<V>)
      requires Links(first, chain) && SortedKeys(Pairs(chain)) && Distinct(Pairs(chain)) && e <= items
      requires item in items && copy !in items && copy.refs == item.refs && (item !in e ==> copy.next == null)
      requires forall n :: n in items ==> n.refs == handles[n] + (if n in e then 1 else 0) && n.refs > 0
      requires forall n :: n in items && n !in e ==> n.next == null
      requires forall n :: n in handles ==> n in items
      requires Elements(chain) == if item in e then e - {item} + {copy} else e
      modifies `items, `handles
      ensures Valid() && items == old(items) - {item} + {copy}
      ensures handles == old(handles)[item := 0][copy := old(handles)[item]]
    {
      hide Links, SortedKeys, Distinct, Pairs, Elements;
      handles, items := handles[item := 0][copy := handles[item]], items - {item} + {copy};
    }

    /** Overwriting the value in place. */
    method Assign(item: ListItem<V>, value: V)
      requires Valid() && item in items
      modifies item`value
      ensures Valid() && item.value == value
      ensures Contents() == if item in Elements(chain) then Set(old(Contents()), item.name, value) else old(Contents())
    {
      hide Links, Counted, SortedKeys, Distinct, Pairs, Set;
      ghost var m := Contents();
      item.value := value;
      if i :| 0 <= i < |chain| && chain[i] == item {
        SetSorted(m, i, value);
        Apartness();
        ApartAt(chain, i);
        assert Contents() == m[i := Entry(item.name, value)];
      } else {
        assert Contents() == m;
      }
    }

    lemma Apartness()
      requires Links(first, chain)
      ensures Apart(chain)
    {
    }

    /** wsc_data_item_set_*: sets the value through a handle, which may move. */
    method SetValue(item: ListItem<V>, value: V, grows: bool) returns (moved: ListItem<V>)
      requires Valid() && item in items && (grows ==> handles[item] <= 1)
      modifies `first, `chain, `items, `handles, items`next, item`value
      ensures Valid() && moved.name == item.name && moved.value == value
      ensures items == old(items) - {item} + {moved} && if grows then fresh(moved) else moved == item
      ensures Contents() == if item in old(Elements(chain)) then Set(old(Contents()), item.name, value)
        else old(Contents())
      ensures handles == old(handles)[item := 0][moved := old(handles)[item]]
    {
      hide Links, Counted, SortedKeys, Distinct, Pairs, Elements, Set;
      moved := item;
      if grows {
        moved := Reallocate(item);
      }
      Assign(moved, value);
    }

    /** set_item by name: the list is the sorted map with the name set. */
    method SetItem(name: Key, value: V, grows: bool)
      requires Valid() && (grows ==> forall n :: n in handles ==> n !in Elements(chain) || n.name != name)
      modifies this, items`refs, items`next, items`value
      ensures Valid() && Contents() == Put(old(Contents()), name, value)
      ensures handles == old(handles) && fresh(items - old(items))
    {
      hide Links, Counted, SortedKeys, Distinct, Pairs, Elements, Set, Has, Insert;
      var item := GetItem(name);
      if item == null {
        InsertItem(name, value);
      } else {
        var _ := SetValue(item, value, grows);
      }
    }
  }
}
