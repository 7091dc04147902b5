/** Whole runs on the item list of src/data.c: it stands for the replayed sorted map, and nothing is leaked. */
module DataListRuns {
  import opened Bytes
  import opened OrderedMap
  import opened SortedMap
  import opened DataList

  /** One use of the list, with every handle it takes given back. */
  datatype Op<V> =
    | SetOp(name: Key, value: V, grows: bool)
    | EraseOp(name: Key)
    | RemoveOp(name: Key)     // through a handle, which keeps the item until it is given up
    | WalkOp(steps: nat)      // from the first item, so many items on, or to the end

  function Apply<V>(m: seq<Entry<V>>, op: Op<V>): seq<Entry<V>> {
    match op
    case SetOp(k, v, _) => Put(m, k, v)
    case EraseOp(k) => Del(m, k)
    case RemoveOp(k) => Del(m, k)
    case WalkOp(_) => m
  }

  function Replay<V>(ops: seq<Op<V>>): seq<Entry<V>> {
    if ops == [] then [] else Apply(Replay(ops[..|ops| - 1]), ops[|ops| - 1])
  }

  /** The value last set for k and not erased or removed since. */
  function LastSet<V>(ops: seq<Op<V>>, k: Key): Option<V> {
    if ops == [] then None
    else
      match ops[|ops| - 1]
      case SetOp(k', v, _) => if k' == k then Some(v) else LastSet(ops[..|ops| - 1], k)
      case EraseOp(k') => if k' == k then None else LastSet(ops[..|ops| - 1], k)
      case RemoveOp(k') => if k' == k then None else LastSet(ops[..|ops| - 1], k)
      case WalkOp(_) => LastSet(ops[..|ops| - 1], k)
  }

  lemma DelSorted<V>(m: seq<Entry<V>>, k: Key, other: Key)
    requires SortedKeys(m) && Distinct(m)
    ensures SortedKeys(Del(m, k)) && Distinct(Del(m, k))
    ensures Get(Del(m, k), other) == if other == k then None else Get(m, other)
  {
    hide KeyLeq, Get, Del;
    DelLaw(m, k);
    GetAbsent(Del(m, k), k);
    if Has(m, k) {
      var i :| 0 <= i < |m| && m[i].key == k;
      DelAt(m, i);
      CutSorted(m, i);
    } else {
      DelAbsent(m, k);
    }
  }

  /** After any run the names are in order, and each finds exactly the value last set. */
  lemma {:induction false} LookupFindsLastSet<V>(ops: seq<Op<V>>, k: Key)
    ensures SortedKeys(Replay(ops)) && Distinct(Replay(ops)) && Get(Replay(ops), k) == LastSet(ops, k)
  {
    if ops != [] {
      var front, op := ops[..|ops| - 1], ops[|ops| - 1];
      LookupFindsLastSet(front, k);
      hide Put, Get, Del, SortedKeys, Distinct;
      match op {
        case SetOp(name, v, _) => PutLaw(Replay(front), name, v, k);
        case EraseOp(name) => DelSorted(Replay(front), name, k);
        case RemoveOp(name) => DelSorted(Replay(front), name, k);
        case WalkOp(_) =>
      }
    }
  }

  /** With no handle out, every item that was not freed is in the list. */
  lemma NothingLeaked<V>(data: DataList<V>)
    requires data.Valid() && data.handles == multiset{}
    ensures data.items == Elements(data.chain)
  {
    hide Links, SortedKeys, Distinct, Pairs;
  }

  /** wsc_data_item_byname, wsc_data_item_remove and wsc_data_item_release. */
  method RemoveNamed<V>(data: DataList<V>, name: Key)
    requires data.Valid() && data.handles == multiset{}
    modifies data, data.items
    ensures data.Valid() && data.handles == multiset{} && data.items <= old(data.items)
    ensures data.Contents() == Del(old(data.Contents()), name)
  {
    hide Links, Elements, SortedKeys, Distinct, Pairs, DataList.Counted, Del, Has, Get;
    ghost var m := data.Contents();
    var item := data.ByName(name);
    if item == null {
      DelAbsent(m, name);
      return;
    }
    data.Remove(item);
    data.Release(item);
  }

  /** An iteration that ends after some steps; wsc_data_item_next gives the last handle back. */
  method Walk<V>(data: DataList<V>, steps: nat)
    requires data.Valid() && data.handles == multiset{}
    modifies data, data.items
    ensures data.Valid() && data.handles == multiset{} && data.items <= old(data.items)
    ensures data.Contents() == old(data.Contents())
  {
    hide Links, Elements, SortedKeys, Distinct, Pairs, DataList.Counted;
    ghost var s, d := data.chain, data.Contents();
    var item := data.First();
    var i := 0;
    while item != null && i < steps
      invariant data.Valid() && data.handles == One(item) && data.chain == s
      invariant Pairs(s) == d && data.items <= old(data.items)
    {
      item := data.Next(item);
      i := i + 1;
    }
    if item != null {
      data.Release(item);
    }
  }

  /** After any run the list stands for the replayed map, and its items are all there is. */
  method Run<V>(ops: seq<Op<V>>) returns (data: DataList<V>)
    ensures data.Valid() && data.Contents() == Replay(ops)
    ensures data.handles == multiset{} && data.items == Elements(data.chain)
  {
    data := new DataList();
    hide Links, Elements, SortedKeys, Distinct, Pairs, DataList.Counted, Put, Del;
    for i := 0 to |ops|
      invariant data.Valid() && data.handles == multiset{} && fresh(data.items) && data.Contents() == Replay(ops[..i])
    {
      assert ops[..i + 1][..i] == ops[..i];
      match ops[i] {
        case SetOp(k, v, grows) => data.SetItem(k, v, grows);
        case EraseOp(k) => data.Erase(k);
        case RemoveOp(k) => RemoveNamed(data, k);
        case WalkOp(n) => Walk(data, n);
      }
    }
    assert ops[..|ops|] == ops;
    NothingLeaked(data);
  }
}
