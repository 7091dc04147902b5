/**
  * The hash table of deps/jansson/src/hashtable.c: all pairs in one circular list cut into bucket
  * segments, and a second circular list in insertion order. It behaves as an OrderedMap.
  */
module HashTable {
  import opened Bytes
  import opened OrderedMap
  import opened Segments
  import opened Bits
  import opened MapRuns

  /** A pair with its two embedded list nodes; the table's two list heads share one such node. */
  class Node<V> {
    const key: Key
    const hash: nat
    var value: V
    var prev: Node<V>
    var next: Node<V>
    var oprev: Node<V>
    var onext: Node<V>

    constructor (key: Key, hash: nat, value: V)
      ensures this.key == key && this.hash == hash && this.value == value
      ensures prev == next == oprev == onext == this
    {
      this.key := key;
      this.hash := hash;
      this.value := value;
      prev := this;
      next := this;
      oprev := this;
      onext := this;
    }
  }

  datatype Bucket<V> = Bucket(first: Node<V>, last: Node<V>)

  const INITIAL_ORDER: nat := 3

  // ---- The two circular lists, with the head at both ends of the sequence ----

  ghost predicate Loop<V>(r: seq<Node<V>>) {
    && |r| >= 2 && r[0] == r[|r| - 1]
    && forall i, j :: 0 <= i < j < |r| && r[i] == r[j] ==> i == 0 && j == |r| - 1
  }

  ghost predicate Ring<V>(r: seq<Node<V>>)
    reads r`prev, r`next
  {
    Loop(r) && forall i, j :: 0 <= i && j == i + 1 < |r| ==> r[i].next == r[j] && r[j].prev == r[i]
  }

  ghost predicate OrderedRing<V>(r: seq<Node<V>>)
    reads r`oprev, r`onext
  {
    Loop(r) && forall i, j :: 0 <= i && j == i + 1 < |r| ==> r[i].onext == r[j] && r[j].oprev == r[i]
  }

  lemma RingLoops<V>(r: seq<Node<V>>)
    requires Ring(r)
    ensures Loop(r)
  {
  }

  lemma HeadOutside<V>(s: seq<Node<V>>, head: Node<V>)
    requires Loop([head] + s + [head])
    ensures head !in s && forall i, j :: 0 <= i < j < |s| ==> s[i] != s[j]
  {
    var r := [head] + s + [head];
    assert forall i :: 0 <= i < |s| ==> r[i + 1] == s[i];
  }

  lemma InsertShape<V>(s: seq<Node<V>>, head: Node<V>, p: nat, node: Node<V>)
    requires p <= |s|
    ensures InsertAt([head] + s + [head], p + 1, node) == [head] + InsertAt(s, p, node) + [head]
    ensures forall n :: n in InsertAt(s, p, node) <==> n in s || n == node
  {
    assert s == s[..p] + s[p..];
  }

  lemma RemoveShape<V>(s: seq<Node<V>>, head: Node<V>, p: nat)
    requires p < |s|
    ensures RemoveAt([head] + s + [head], p + 1) == [head] + RemoveAt(s, p) + [head]
  {
  }

  lemma Neighbours<V>(s: seq<Node<V>>, head: Node<V>, p: nat)
    requires Ring([head] + s + [head]) && p <= |s|
    ensures (if p < |s| then s[p] else head).prev == if p > 0 then s[p - 1] else head
    ensures (if p > 0 then s[p - 1] else head).next == if p < |s| then s[p] else head
  {
    var r := [head] + s + [head];
    assert r[p].next == r[p + 1] && r[p + 1].prev == r[p];
  }

  lemma LoopInsert<V>(r: seq<Node<V>>, p: nat, node: Node<V>)
    requires Loop(r) && 0 < p < |r| && node !in r
    ensures Loop(InsertAt(r, p, node))
  {
  }

  /** A node and its predecessor stand nowhere else, except for the head at both ends. */
  lemma OnePlace<V>(r: seq<Node<V>>, p: nat)
    requires Loop(r) && 0 < p < |r|
    ensures forall i :: 0 <= i < |r| - 1 && i != p - 1 ==> r[i] != r[p - 1]
    ensures forall i :: 0 < i < |r| && i != p ==> r[i] != r[p]
  {
  }

  /** list_insert on the main list: node goes in front of the p-th node. */
  method ListInsert<V>(list: Node<V>, node: Node<V>, ghost r: seq<Node<V>>, ghost p: nat)
    requires Ring(r) && 0 < p < |r| && list == r[p] && node !in r
    modifies node`prev, node`next, list`prev, list.prev`next
    ensures Ring(InsertAt(r, p, node))
  {
    ghost var n := InsertAt(r, p, node);
    LoopInsert(r, p, node);
    OnePlace(r, p);
    assert r[p - 1].next == r[p] && r[p].prev == r[p - 1];
    node.next := list;
    node.prev := list.prev;
    list.prev.next := node;
    list.prev := node;
    forall i, j | 0 <= i && j == i + 1 < |n|
      ensures n[i].next == n[j] && n[j].prev == n[i]
    {
      if j < p {
        assert old(r[i].next == r[j] && r[j].prev == r[i]);
      } else if i > p {
        assert old(r[i - 1].next == r[j - 1] && r[j - 1].prev == r[i - 1]);
      }
    }
  }

  /** list_insert on the ordered list. */
  method OrderedInsert<V>(list: Node<V>, node: Node<V>, ghost r: seq<Node<V>>, ghost p: nat)
    requires OrderedRing(r) && 0 < p < |r| && list == r[p] && node !in r
    modifies node`oprev, node`onext, list`oprev, list.oprev`onext
    ensures OrderedRing(InsertAt(r, p, node))
  {
    ghost var n := InsertAt(r, p, node);
    LoopInsert(r, p, node);
    OnePlace(r, p);
    assert r[p - 1].onext == r[p] && r[p].oprev == r[p - 1];
    node.onext := list;
    node.oprev := list.oprev;
    list.oprev.onext := node;
    list.oprev := node;
    forall i, j | 0 <= i && j == i + 1 < |n|
      ensures n[i].onext == n[j] && n[j].oprev == n[i]
    {
      if j < p {
        assert old(r[i].onext == r[j] && r[j].oprev == r[i]);
      } else if i > p {
        assert old(r[i - 1].onext == r[j - 1] && r[j - 1].oprev == r[i - 1]);
      }
    }
  }

  /** list_remove on the main list. */
  method ListRemove<V>(list: Node<V>, ghost r: seq<Node<V>>, ghost p: nat)
    requires Ring(r) && 0 < p < |r| - 1 && list == r[p]
    modifies list.prev`next, list.next`prev
    ensures Ring(RemoveAt(r, p))
  {
    assert r[p - 1] == list.prev && r[p + 1] == list.next;
    list.prev.next := list.next;
    list.next.prev := list.prev;
  }

  /** list_remove on the ordered list. */
  method OrderedRemove<V>(list: Node<V>, ghost r: seq<Node<V>>, ghost p: nat)
    requires OrderedRing(r) && 0 < p < |r| - 1 && list == r[p]
    modifies list.oprev`onext, list.onext`oprev
    ensures OrderedRing(RemoveAt(r, p))
  {
    assert r[p - 1] == list.oprev && r[p + 1] == list.onext;
    list.oprev.onext := list.onext;
    list.onext.oprev := list.oprev;
  }

  // ---- Buckets as segments of the main list ----

  /** The bucket index of every list position. */
  ghost function Indices<V>(s: seq<Node<V>>, n: nat): (ix: seq<nat>)
    requires n > 0
    ensures |ix| == |s| && forall k :: 0 <= k < |s| ==> ix[k] == s[k].hash % n
  {
    seq(|s|, k requires 0 <= k < |s| => s[k].hash % n)
  }

  /** What bucket holds when it owns s[l..h]. */
  function Cell<V>(s: seq<Node<V>>, head: Node<V>, l: nat, h: nat): Bucket<V>
    requires l <= h <= |s|
  {
    if l < h then Bucket(s[l], s[h - 1]) else Bucket(head, head)
  }

  ghost predicate Bucketed<V>(cells: seq<Bucket<V>>, s: seq<Node<V>>, head: Node<V>, lo: seq<nat>, hi: seq<nat>) {
    && |lo| == |hi| == |cells| > 0
    && Segmented(Indices(s, |cells|), lo, hi)
    && forall b :: 0 <= b < |cells| ==> cells[b] == Cell(s, head, lo[b], hi[b])
  }

  predicate IsEmpty<V>(bucket: Bucket<V>, head: Node<V>) {
    bucket.first == head && bucket.first == bucket.last
  }

  /** bucket_is_empty tells exactly the empty segments. */
  lemma EmptyIff<V>(cells: seq<Bucket<V>>, s: seq<Node<V>>, head: Node<V>, lo: seq<nat>, hi: seq<nat>, b: nat)
    requires Bucketed(cells, s, head, lo, hi) && head !in s && b < |cells|
    ensures IsEmpty(cells[b], head) <==> lo[b] == hi[b]
  {
  }

  lemma InsertIndices<V>(s: seq<Node<V>>, n: nat, p: nat, node: Node<V>)
    requires n > 0 && p <= |s|
    ensures Indices(InsertAt(s, p, node), n) == InsertAt<nat>(Indices(s, n), p, node.hash % n)
  {
  }

  lemma RemoveIndices<V>(s: seq<Node<V>>, n: nat, p: nat)
    requires n > 0 && p < |s|
    ensures Indices(RemoveAt(s, p), n) == RemoveAt<nat>(Indices(s, n), p)
  {
  }

  /** insert_to_bucket's bucket write is right for the list with the node linked in. */
  lemma InsertBucketed<V>(cells: seq<Bucket<V>>, s: seq<Node<V>>, head: Node<V>, lo: seq<nat>, hi: seq<nat>,
                          node: Node<V>, ix: seq<nat>, b: nat, p: nat)
    requires Bucketed(cells, s, head, lo, hi) && head !in s && ix == Indices(s, |cells|)
    requires b == node.hash % |cells| && p == Spot(ix, lo, hi, b)
    ensures Bucketed(cells[b := Bucket(node, if IsEmpty(cells[b], head) then node else cells[b].last)],
                     InsertAt(s, p, node), head, LowAfter(ix, lo, hi, b), HighAfter(ix, lo, hi, b))
  {
    hide InsertAt, Indices, IsEmpty, Segmented, LowAfter, HighAfter, Cell, Spot;
    InsertSegmented(ix, lo, hi, b);
    InsertIndices(s, |cells|, p, node);
    NewCell(s, head, ix, lo, hi, node, b);
    forall c | 0 <= c < |cells|
      ensures lo[c] <= hi[c] <= |s|
      ensures LowAfter(ix, lo, hi, b)[c] <= HighAfter(ix, lo, hi, b)[c] <= |s| + 1
      ensures c != b ==>
        cells[c] == Cell(InsertAt(s, p, node), head, LowAfter(ix, lo, hi, b)[c], HighAfter(ix, lo, hi, b)[c])
    {
      if c != b {
        OneCell(s, head, ix, lo, hi, node, b, c);
      }
    }
    var cells' := cells[b := Bucket(node, if IsEmpty(cells[b], head) then node else cells[b].last)];
    assert cells'[b] == Cell(InsertAt(s, p, node), head, LowAfter(ix, lo, hi, b)[b], HighAfter(ix, lo, hi, b)[b]);
    assert |cells'| == |cells| && |LowAfter(ix, lo, hi, b)| == |HighAfter(ix, lo, hi, b)| == |cells|;
    assert Segmented(Indices(InsertAt(s, p, node), |cells'|), LowAfter(ix, lo, hi, b), HighAfter(ix, lo, hi, b));
  }

  lemma NewCell<V>(s: seq<Node<V>>, head: Node<V>, ix: seq<nat>, lo: seq<nat>, hi: seq<nat>, node: Node<V>, b: nat)
    requires Segmented(ix, lo, hi) && |ix| == |s| && b < |lo| && head !in s
    ensures LowAfter(ix, lo, hi, b)[b] <= HighAfter(ix, lo, hi, b)[b] <= |s| + 1
    ensures lo[b] <= hi[b] <= |s|
    ensures var cell := Cell(s, head, lo[b], hi[b]);
      Cell(InsertAt(s, Spot(ix, lo, hi, b), node), head, LowAfter(ix, lo, hi, b)[b], HighAfter(ix, lo, hi, b)[b])
        == Bucket(node, if IsEmpty(cell, head) then node else cell.last)
  {
  }

  lemma OneCell<V>(s: seq<Node<V>>, head: Node<V>, ix: seq<nat>, lo: seq<nat>, hi: seq<nat>, node: Node<V>, b: nat,
        c: nat)
    requires Segmented(ix, lo, hi) && |ix| == |s| && b < |lo| && c < |lo| && c != b
    ensures lo[c] <= hi[c] <= |s|
    ensures LowAfter(ix, lo, hi, b)[c] <= HighAfter(ix, lo, hi, b)[c] <= |s| + 1
    ensures Cell(InsertAt(s, Spot(ix, lo, hi, b), node), head, LowAfter(ix, lo, hi, b)[c], HighAfter(ix, lo, hi, b)[c])
         == Cell(s, head, lo[c], hi[c])
  {
    OneSegment(ix, lo, hi, b, c);
    if lo[c] < hi[c] {
      assert ix[lo[c]] == c && ix[hi[c] - 1] == c && (lo[b] < hi[b] ==> ix[lo[b]] == b);
    }
  }

  /** The bucket after do_del has taken node out of it. */
  function Without<V>(bucket: Bucket<V>, node: Node<V>, prev: Node<V>, next: Node<V>, head: Node<V>): Bucket<V> {
    if node == bucket.first && node == bucket.last then Bucket(head, head)
    else if node == bucket.first then Bucket(next, bucket.last)
    else if node == bucket.last then Bucket(bucket.first, prev)
    else bucket
  }

  lemma RemoveBucketed<V>(cells: seq<Bucket<V>>, s: seq<Node<V>>, head: Node<V>, lo: seq<nat>, hi: seq<nat>,
                          p: nat, b: nat, prev: Node<V>, next: Node<V>)
    requires Bucketed(cells, s, head, lo, hi) && Loop([head] + s + [head])
    requires p < |s| && b == s[p].hash % |cells|
    requires prev == (if p > 0 then s[p - 1] else head) && next == if p + 1 < |s| then s[p + 1] else head
    ensures Bucketed(cells[b := Without(cells[b], s[p], prev, next, head)], RemoveAt(s, p), head,
                     LowWithout(lo, hi, p), HighWithout(lo, hi, p))
  {
    hide RemoveAt, Indices, Segmented, LowWithout, HighWithout, Cell, Without, Loop;
    var ix := Indices(s, |cells|);
    RemoveSegmented(ix, lo, hi, p);
    RemoveIndices(s, |cells|, p);
    CutCell(s, head, ix, lo, hi, p, b, prev, next);
    forall c | 0 <= c < |cells|
      ensures lo[c] <= hi[c] <= |s|
      ensures LowWithout(lo, hi, p)[c] <= HighWithout(lo, hi, p)[c] <= |s| - 1
      ensures c != b ==> cells[c] == Cell(RemoveAt(s, p), head, LowWithout(lo, hi, p)[c], HighWithout(lo, hi, p)[c])
    {
      if c != b {
        KeptCell(s, head, ix, lo, hi, p, c);
      }
    }
    var cells' := cells[b := Without(cells[b], s[p], prev, next, head)];
    assert |cells'| == |cells|;
    assert cells'[b] == Cell(RemoveAt(s, p), head, LowWithout(lo, hi, p)[b], HighWithout(lo, hi, p)[b]);
  }

  lemma KeptCell<V>(s: seq<Node<V>>, head: Node<V>, ix: seq<nat>, lo: seq<nat>, hi: seq<nat>, p: nat, c: nat)
    requires Segmented(ix, lo, hi) && |ix| == |s| && p < |s| && c < |lo| && c != ix[p]
    ensures lo[c] <= hi[c] <= |s|
    ensures LowWithout(lo, hi, p)[c] <= HighWithout(lo, hi, p)[c] <= |s| - 1
    ensures Cell(RemoveAt(s, p), head, LowWithout(lo, hi, p)[c], HighWithout(lo, hi, p)[c]) ==
      Cell(s, head, lo[c], hi[c])
  {
  }

  lemma CutCell<V>(s: seq<Node<V>>, head: Node<V>, ix: seq<nat>, lo: seq<nat>, hi: seq<nat>, p: nat, b: nat,
                   prev: Node<V>, next: Node<V>)
    requires Segmented(ix, lo, hi) && |ix| == |s| && p < |s| && b < |lo| && b == ix[p] && Loop([head] + s + [head])
    requires prev == (if p > 0 then s[p - 1] else head) && next == if p + 1 < |s| then s[p + 1] else head
    ensures lo[b] <= hi[b] <= |s|
    ensures LowWithout(lo, hi, p)[b] <= HighWithout(lo, hi, p)[b] <= |s| - 1
    ensures Cell(RemoveAt(s, p), head, LowWithout(lo, hi, p)[b], HighWithout(lo, hi, p)[b])
         == Without(Cell(s, head, lo[b], hi[b]), s[p], prev, next, head)
  {
    assert lo[b] <= p < hi[b];
    var r := [head] + s + [head];
    assert r[p + 1] == s[p] && r[lo[b] + 1] == s[lo[b]] && r[hi[b]] == s[hi[b] - 1];
  }

  lemma EmptyBucketed<V>(cells: seq<Bucket<V>>, head: Node<V>, lo: seq<nat>, hi: seq<nat>)
    requires |lo| == |hi| == |cells| > 0
    requires forall b :: 0 <= b < |cells| ==> cells[b] == Bucket(head, head) && lo[b] == hi[b] == 0
    ensures Bucketed(cells, [], head, lo, hi)
  {
  }

  ghost function Pairs<V>(s: seq<Node<V>>): (m: seq<Entry<V>>)
    reads s`value
    ensures |m| == |s| && forall i :: 0 <= i < |m| ==> m[i] == Entry(s[i].key, s[i].value)
  {
    if s == [] then [] else [Entry(s[0].key, s[0].value)] + Pairs(s[1..])
  }

  /** The pairs of a list. */
  ghost function Elements<V>(s: seq<Node<V>>): set<Node<V>> {
    set n | n in s
  }

  lemma ElementsInsert<V>(s: seq<Node<V>>, p: nat, node: Node<V>)
    requires p <= |s|
    ensures Elements(InsertAt(s, p, node)) == Elements(s) + {node}
  {
    assert s == s[..p] + s[p..];
  }

  lemma ElementsRemove<V>(s: seq<Node<V>>, head: Node<V>, p: nat)
    requires p < |s| && Loop([head] + s + [head])
    ensures Elements(RemoveAt(s, p)) == Elements(s) - {s[p]}
  {
    HeadOutside(s, head);
    assert forall k :: 0 <= k < |s| && k != p ==> s[k] == RemoveAt(s, p)[if k < p then k else k - 1];
  }

  // ---- The table ----

  class Table<V(0)> {
    const hashOf: Key -> nat   // hashlittle with the seed
    const head: Node<V>
    var size: nat
    var order: nat
    var buckets: array<Bucket<V>>
    ghost var nodes: set<Node<V>>    // all pairs
    ghost var chain: seq<Node<V>>    // the main list
    ghost var ordered: seq<Node<V>>  // the ordered list
    ghost var lo: seq<nat>           // bucket b owns chain[lo[b]..hi[b]]
    ghost var hi: seq<nat>

    ghost function Main(): seq<Node<V>>
      reads `chain
    {
      [head] + chain + [head]
    }

    ghost function Insertion(): seq<Node<V>>
      reads `ordered
    {
      [head] + ordered + [head]
    }

    /** The main list is a circle of known pairs, cut into the buckets' segments. */
    ghost predicate Linked()
      reads `buckets, `chain, `nodes, `lo, `hi, buckets, head`prev, head`next, nodes`prev, nodes`next
    {
      Elements(chain) <= nodes && head !in nodes && Ring(Main()) && Bucketed(buckets[..], chain, head, lo, hi)
    }

    ghost predicate Keyed(s: seq<Node<V>>) {
      && (forall i :: 0 <= i < |s| ==> s[i].hash == hashOf(s[i].key))
      && forall i, j :: 0 <= i < j < |s| ==> s[i].key != s[j].key
    }

    ghost predicate Valid()
      reads this, buckets, head, nodes
    {
      && Linked() && Elements(chain) == nodes == Elements(ordered)
      && OrderedRing(Insertion()) && Keyed(ordered)
      && buckets.Length == Pow2(order) && size == |ordered| == |chain| <= buckets.Length
    }

    /** The map the table stands for: keys in the order they were first set. */
    ghost function Contents(): seq<Entry<V>>
      reads `ordered, ordered`value
    {
      Pairs(ordered)
    }

    /** hashtable_init */
    constructor (hashOf: Key -> nat)
      ensures Valid() && fresh(buckets) && fresh(head) && nodes == {} && Contents() == [] && this.hashOf == hashOf
    {
      this.hashOf := hashOf;
      size := 0;
      order := INITIAL_ORDER;
      var unused: V := *;
      var node := new Node<V>([], 0, unused);
      head := node;
      var count := Pow2(INITIAL_ORDER);
      buckets := new Bucket<V>[count](_ => Bucket(node, node));
      chain, ordered, nodes := [], [], {};
      lo, hi := seq(count, _ => 0), seq(count, _ => 0);
      new;
      EmptyBucketed(buckets[..], head, lo, hi);
    }

    // ---- Buckets ----

    method InsertToBucket(index: nat, node: Node<V>)
      requires Linked() && index < buckets.Length && index == node.hash % buckets.Length
      requires node in nodes && node !in Elements(chain)
      modifies `chain, `lo, `hi, buckets, head`prev, head`next, nodes`prev, nodes`next
      ensures Linked() && |chain| == old(|chain|) + 1 && Elements(chain) == old(Elements(chain)) + {node}
      ensures forall n :: n in nodes - Elements(chain) ==> n.next == old(n.next)
    {
      hide Ring, Bucketed, Segmented, Indices, Spot, LowAfter, HighAfter, IsEmpty, InsertAt, Elements;
      SegmentFits(index);
      ghost var ix := Indices(chain, buckets.Length);
      ghost var p := Spot(ix, lo, hi, index);
      var bucket := buckets[index];
      InsertFacts(index, node, p);
      InsertBucketed(buckets[..], chain, head, lo, hi, node, ix, index, p);
      if IsEmpty(bucket, head) {
        ListInsert(head, node, Main(), p + 1);
        buckets[index] := Bucket(node, node);
      } else {
        ListInsert(bucket.first, node, Main(), p + 1);
        buckets[index] := Bucket(node, bucket.last);
      }
      InsertShape(chain, head, p, node);
      ElementsInsert(chain, p, node);
      assert buckets[..] == old(buckets[..])[index := Bucket(node, if IsEmpty(bucket, head) then node else bucket.last)];
      lo, hi, chain := LowAfter(ix, lo, hi, index), HighAfter(ix, lo, hi, index), InsertAt(chain, p, node);
    }

    lemma SegmentFits(index: nat)
      requires Linked() && index < buckets.Length
      ensures |lo| == |hi| == buckets.Length && lo[index] <= hi[index] <= |chain| == |Indices(chain, buckets.Length)|
      ensures Segmented(Indices(chain, buckets.Length), lo, hi)
    {
    }

    lemma InsertFacts(index: nat, node: Node<V>, p: nat)
      requires buckets.Length > 0 && Linked() && index < buckets.Length && node in nodes - Elements(chain)
      requires p == Spot(Indices(chain, buckets.Length), lo, hi, index)
      ensures node !in Main() && head !in chain && p <= |chain|
      ensures Main()[p + 1] == (if IsEmpty(buckets[index], head) then head else buckets[index].first)
      ensures Main()[p + 1].prev == Main()[p]
      ensures p > 0 ==> Main()[p] in nodes && Main()[p] in Elements(chain)
      ensures p < |chain| ==> Main()[p + 1] in nodes
      ensures Main()[0] == head && Main()[|chain| + 1] == head && |Main()| == |chain| + 2
    {
      HeadOutside(chain, head);
      EmptyIff(buckets[..], chain, head, lo, hi, index);
      Neighbours(chain, head, p);
      assert Segmented(Indices(chain, buckets.Length), lo, hi);
      assert lo[index] <= hi[index] <= |chain|;
    }

    /** A key's pair can only be in its hash's bucket. */
    lemma BucketHolds(index: nat, key: Key)
      requires Valid() && index == hashOf(key) % buckets.Length
      ensures |lo| == |hi| == buckets.Length && lo[index] <= hi[index] <= |chain|
      ensures IsEmpty(buckets[index], head) <==> lo[index] == hi[index]
      ensures lo[index] < hi[index] ==> buckets[index].first == chain[lo[index]]
      ensures forall n :: n in nodes && n.key == key ==>
        n.hash == hashOf(key) && exists i :: lo[index] <= i < hi[index] && chain[i] == n
    {
      HeadOutside(chain, head);
      EmptyIff(buckets[..], chain, head, lo, hi, index);
      forall n | n in nodes && n.key == key
        ensures n.hash == hashOf(key) && exists i :: lo[index] <= i < hi[index] && chain[i] == n
      {
        var j :| 0 <= j < |ordered| && ordered[j] == n;
        var i :| 0 <= i < |chain| && chain[i] == n;
        assert lo[index] <= i < hi[index] by {
          assert Indices(chain, buckets.Length)[i] == index;
        }
      }
    }

    lemma BucketStep(index: nat, i: nat)
      requires Linked() && index < buckets.Length
      requires lo[index] <= i < hi[index]
      ensures hi[index] <= |chain| && buckets[index].last == chain[hi[index] - 1] && chain[i] in nodes
      ensures chain[i] == buckets[index].last ==> i == hi[index] - 1
      ensures i + 1 < hi[index] ==> chain[i].next == chain[i + 1]
    {
      HeadOutside(chain, head);
      Neighbours(chain, head, i + 1);
    }

    /** hashtable_find_pair: the pair with the key, if there is one. */
    method FindPair(index: nat, key: Key, hash: nat) returns (pair: Node?<V>)
      requires Valid() && hash == hashOf(key) && index == hash % buckets.Length
      ensures pair == null ==> forall n :: n in nodes ==> n.key != key
      ensures pair != null ==> pair in nodes && pair.key == key && pair.hash == hash
    {
      hide Ring, OrderedRing, Bucketed, Keyed, Elements, IsEmpty, Pow2;
      var bucket := buckets[index];
      BucketHolds(index, key);
      if IsEmpty(bucket, head) {
        return null;
      }
      var list := bucket.first;
      ghost var i := lo[index];
      while true
        invariant lo[index] <= i < hi[index] && list == chain[i]
        invariant forall j :: lo[index] <= j < i ==> chain[j].key != key
        decreases hi[index] - i
      {
        BucketStep(index, i);
        if list.hash == hash && list.key == key {
          return list;
        }
        if list == bucket.last {
          break;
        }
        list := list.next;
        i := i + 1;
      }
      return null;
    }

    // ---- Rehashing ----

    ghost function After(s: seq<Node<V>>, i: int): Node<V> {
      if 0 <= i + 1 < |s| then s[i + 1] else head
    }

    /** s is what following the next links finds, starting at first and ending at the head. */
    ghost predicate Walk(first: Node<V>, s: seq<Node<V>>)
      reads s`next
    {
      && first == After(s, -1) && head !in s
      && (forall i, j :: 0 <= i < j < |s| ==> s[i] != s[j])
      && forall i :: 0 <= i < |s| ==> s[i].next == After(s, i)
    }

    lemma MainWalk()
      requires Linked()
      ensures Elements(chain) <= nodes && head !in nodes && head !in chain && Walk(head.next, chain)
    {
      hide Ring, Bucketed;
      RingLoops(Main());
      HeadOutside(chain, head);
      Neighbours(chain, head, 0);
      forall i | 0 <= i < |chain|
        ensures chain[i].next == After(chain, i)
      {
        Neighbours(chain, head, i + 1);
      }
    }

    lemma EmptyLinked()
      requires head !in nodes && head.next == head.prev == head && chain == [] && |lo| == |hi| == buckets.Length > 0
      requires forall b :: 0 <= b < buckets.Length ==> buckets[b] == Bucket(head, head) && lo[b] == hi[b] == 0
      ensures Linked() && Elements(chain) == {}
    {
      EmptyBucketed(buckets[..], head, lo, hi);
    }

    /** hashtable_do_rehash: new buckets, and every pair linked anew. */
    method DoRehash()
      requires Valid()
      modifies `order, `buckets, `chain, `lo, `hi, head`prev, head`next, nodes`prev, nodes`next
      ensures Valid() && order == old(order) + 1 && fresh(buckets)
    {
      hide Keyed, Ring, OrderedRing, Linked, Pow2, Elements, Walk, Bucketed;
      MainWalk();
      Doubled(order);
      var newSize := Pow2(order + 1);
      var list := head.next;
      ghost var was := chain;
      order := order + 1;
      EmptyBuckets(newSize);
      Relink(list, newSize, was);
    }

    /** New buckets and list_init on the main list. */
    method EmptyBuckets(newSize: nat)
      requires newSize > 0 && head !in nodes
      modifies `buckets, `chain, `lo, `hi, head`prev, head`next
      ensures Linked() && chain == [] && buckets.Length == newSize && fresh(buckets)
    {
      hide Ring, Linked, Bucketed, Elements;
      var end := head;
      buckets := new Bucket<V>[newSize](_ => Bucket(end, end));
      head.next := head;
      head.prev := head;
      chain, lo, hi := [], seq(newSize, _ => 0), seq(newSize, _ => 0);
      EmptyLinked();
    }

    /** The rehash loop: relinks the old list's nodes while walking it. */
    method Relink(first: Node<V>, newSize: nat, ghost was: seq<Node<V>>)
      requires Linked() && head !in nodes && chain == [] && newSize == buckets.Length > 0
      requires Walk(first, was) && Elements(was) <= nodes
      modifies `chain, `lo, `hi, buckets, head`prev, head`next, nodes`prev, nodes`next
      ensures Linked() && |chain| == |was| && Elements(chain) == Elements(was)
    {
      hide Linked;
      var list := first;
      ghost var k := 0;
      while list != head
        invariant 0 <= k <= |was| && list == After(was, k - 1)
        invariant Linked() && |chain| == k && Elements(chain) == Elements(was[..k])
        invariant forall i :: k <= i < |was| ==> was[i].next == After(was, i)
        decreases |was| - k
      {
        var next := list.next;
        assert was[..k + 1] == was[..k] + [list];
        InsertToBucket(list.hash % newSize, list);
        list := next;
        k := k + 1;
      }
      assert was[..k] == was;
    }

    // ---- Set ----

    /** hash & hashmask(order) */
    method IndexOf(hash: nat) returns (index: nat)
      requires Valid()
      ensures index == hash % buckets.Length
    {
      MaskIsRemainder(hash, order);
      index := And(hash, Pow2(order) - 1);
    }

    lemma LastInserted(pair: Node<V>)
      requires OrderedRing(Insertion()) && pair !in ordered && pair != head
      ensures pair !in Insertion() && Insertion()[|ordered| + 1] == head
      ensures head.oprev == if ordered == [] then head else ordered[|ordered| - 1]
      ensures InsertAt(Insertion(), |ordered| + 1, pair) == [head] + (ordered + [pair]) + [head]
      ensures Elements(ordered + [pair]) == Elements(ordered) + {pair}
      ensures ordered != [] ==> ordered[|ordered| - 1] in Elements(ordered)
    {
      assert Insertion()[|ordered|] == if ordered == [] then head else ordered[|ordered| - 1];
    }

    /** Links pair at the end of the ordered list. */
    method LinkOrdered(pair: Node<V>)
      requires OrderedRing(Insertion()) && Elements(ordered) <= nodes && pair !in Elements(ordered) && pair != head
      modifies `ordered, head`oprev, head`onext, pair`oprev, pair`onext, nodes`oprev, nodes`onext
      ensures OrderedRing(Insertion()) && ordered == old(ordered) + [pair]
      ensures Elements(ordered) == old(Elements(ordered)) + {pair}
    {
      hide OrderedRing, InsertAt;
      LastInserted(pair);
      OrderedInsert(head, pair, Insertion(), |ordered| + 1);
      ordered := ordered + [pair];
    }

    lemma NewKey(pair: Node<V>)
      requires Keyed(ordered) && pair.hash == hashOf(pair.key) && forall n :: n in Elements(ordered) ==>
        n.key != pair.key
      ensures Keyed(ordered + [pair])
    {
      forall i | 0 <= i < |ordered|
        ensures ordered[i].key != pair.key
      {
        assert ordered[i] in Elements(ordered);
      }
    }

    lemma LinkedParts()
      ensures Linked() <==>
        Elements(chain) <= nodes && head !in nodes && Ring(Main()) && Bucketed(buckets[..], chain, head, lo, hi)
    {
    }

    /** The new pair in its bucket. */
    method AdoptPair(index: nat, pair: Node<V>)
      requires Linked() && index < buckets.Length && index == pair.hash % buckets.Length
      requires pair != head && pair !in nodes
      modifies `chain, `nodes, `lo, `hi, buckets, head`prev, head`next, nodes`prev, nodes`next, pair`prev, pair`next
      ensures Linked() && |chain| == old(|chain|) + 1 && Elements(chain) == old(Elements(chain)) + {pair}
      ensures nodes == old(nodes) + {pair}
    {
      hide Ring, Bucketed, Elements, Linked;
      LinkedParts();
      nodes := nodes + {pair};
      LinkedParts();
      InsertToBucket(index, pair);
    }

    /** hashtable_set's new pair: first of its bucket, last in insertion order. */
    method AddPair(index: nat, pair: Node<V>)
      requires Valid() && size < buckets.Length && pair.hash == hashOf(pair.key) && index == pair.hash % buckets.Length
      requires pair != head && forall n :: n in nodes ==> n.key != pair.key
      modifies `size, `chain, `ordered, `nodes, `lo, `hi, buckets, head`prev, head`next, head`oprev, head`onext
      modifies nodes`prev, nodes`next, nodes`oprev, nodes`onext, pair`prev, pair`next, pair`oprev, pair`onext
      ensures Valid() && nodes == old(nodes) + {pair}
      ensures Contents() == old(Contents()) + [Entry(pair.key, pair.value)]
    {
      hide OrderedRing, Keyed, Elements, Linked, Pow2, Pairs;
      AdoptPair(index, pair);
      NewKey(pair);
      PairsAppend(ordered, pair);
      LinkOrdered(pair);
      size := size + 1;
    }

    lemma PairsAppend(s: seq<Node<V>>, pair: Node<V>)
      ensures Pairs(s + [pair]) == Pairs(s) + [Entry(pair.key, pair.value)]
    {
    }

    /** No key stands twice in the map, and Has tells the keys of the pairs. */
    lemma ContentsDistinct(key: Key)
      requires Keyed(ordered)
      ensures Distinct(Contents())
      ensures Has(Contents(), key) <==> exists n :: n in Elements(ordered) && n.key == key
    {
      if Has(Contents(), key) {
        var i :| 0 <= i < |Contents()| && Contents()[i].key == key;
        assert ordered[i] in Elements(ordered);
      }
      if n :| n in Elements(ordered) && n.key == key {
        var i :| 0 <= i < |ordered| && ordered[i] == n;
        assert Contents()[i].key == key;
      }
    }

    /** The rehash, if the load ratio exceeds 1. */
    method MakeRoom()
      requires Valid()
      modifies `order, `buckets, `chain, `lo, `hi, head`prev, head`next, nodes`prev, nodes`next
      ensures Valid() && size < buckets.Length && (buckets == old(buckets) || fresh(buckets))
    {
      hide Linked, OrderedRing, Keyed, Elements;
      if size >= Pow2(order) {
        Doubled(order);
        DoRehash();
      }
    }

    /** Where a pair stands in insertion order. */
    ghost function Position(n: Node<V>): (i: nat)
      requires n in Elements(ordered)
      reads `ordered
      ensures i < |ordered| && ordered[i] == n
    {
      var i :| 0 <= i < |ordered| && ordered[i] == n;
      i
    }

    /** hashtable_set on a key that is there. */
    method Overwrite(pair: Node<V>, value: V)
      requires Valid() && pair in nodes
      modifies pair`value
      ensures Valid() && Contents() == OrderedMap.Set(old(Contents()), pair.key, value)
    {
      hide Linked, OrderedRing, Keyed, Elements, Pairs, OrderedMap.Set, Distinct, Has, Pow2;
      ContentsDistinct(pair.key);
      ghost var i := Position(pair);
      pair.value := value;
      SetAt(old(Contents()), i, value);
    }

    /** hashtable_set */
    method Set(key: Key, value: V)
      requires Valid()
      modifies this, buckets, head, nodes
      ensures Valid() && (buckets == old(buckets) || fresh(buckets)) && fresh(nodes - old(nodes))
      ensures Contents() == OrderedMap.Set(old(Contents()), key, value)
    {
      hide Linked, OrderedRing, Keyed, Elements, Pairs, OrderedMap.Set, Distinct, Has, Pow2;
      ContentsDistinct(key);
      MakeRoom();
      var hash := hashOf(key);
      var index := IndexOf(hash);
      var pair := FindPair(index, key, hash);
      if pair != null {
        Overwrite(pair, value);
      } else {
        pair := new Node(key, hash, value);
        AddPair(index, pair);
        SetAbsent(old(Contents()), key, value);
      }
    }

    // ---- Delete ----

    lemma TakeFacts(index: nat, pair: Node<V>, p: nat)
      requires Linked() && index < buckets.Length && index == pair.hash % buckets.Length
      requires p < |chain| && chain[p] == pair
      ensures |lo| == |hi| == buckets.Length && Loop(Main()) && Main()[p + 1] == pair && |Main()| == |chain| + 2
      ensures pair.prev == (if p > 0 then chain[p - 1] else head) && pair.next == if p + 1 < |chain| then chain[p + 1]
        else head
      ensures (pair.prev == head || pair.prev in nodes) && (pair.next == head || pair.next in nodes)
    {
      RingLoops(Main());
      Neighbours(chain, head, p);
      Neighbours(chain, head, p + 1);
    }

    /** hashtable_do_del's bucket update and the unlinking from the main list. */
    method TakeFromBucket(index: nat, pair: Node<V>)
      requires Linked() && index < buckets.Length && index == pair.hash % buckets.Length && pair in Elements(chain)
      modifies `chain, `lo, `hi, buckets, head`prev, head`next, nodes`prev, nodes`next
      ensures Linked() && |chain| == old(|chain|) - 1 && Elements(chain) == old(Elements(chain)) - {pair}
    {
      hide Ring, Bucketed, Loop, RemoveAt, LowWithout, HighWithout;
      ghost var p :| 0 <= p < |chain| && chain[p] == pair;
      hide Elements;
      TakeFacts(index, pair, p);
      RemoveBucketed(buckets[..], chain, head, lo, hi, p, index, pair.prev, pair.next);
      RemoveShape(chain, head, p);
      ElementsRemove(chain, head, p);
      var bucket := buckets[index];
      if pair == bucket.first && pair == bucket.last {
        buckets[index] := Bucket(head, head);
      } else if pair == bucket.first {
        buckets[index] := Bucket(pair.next, bucket.last);
      } else if pair == bucket.last {
        buckets[index] := Bucket(bucket.first, pair.prev);
      }
      assert buckets[..] == old(buckets[..])[index := Without(bucket, pair, pair.prev, pair.next, head)];
      ListRemove(pair, Main(), p + 1);
      lo, hi, chain := LowWithout(lo, hi, p), HighWithout(lo, hi, p), RemoveAt(chain, p);
    }

    /** Unlinks the i-th pair of the ordered list. */
    method UnlinkOrdered(pair: Node<V>, ghost i: nat)
      requires OrderedRing(Insertion()) && Elements(ordered) <= nodes && i < |ordered| && ordered[i] == pair
      modifies `ordered, head`oprev, head`onext, nodes`oprev, nodes`onext
      ensures OrderedRing(Insertion()) && ordered == RemoveAt(old(ordered), i)
      ensures Elements(ordered) == old(Elements(ordered)) - {pair}
    {
      hide OrderedRing, RemoveAt;
      UnlinkFacts(i);
      RemoveShape(ordered, head, i);
      ElementsRemove(ordered, head, i);
      OrderedRemove(pair, Insertion(), i + 1);
      ordered := RemoveAt(ordered, i);
    }

    lemma UnlinkFacts(i: nat)
      requires OrderedRing(Insertion()) && Elements(ordered) <= nodes && i < |ordered|
      ensures Loop(Insertion()) && Insertion()[i + 1] == ordered[i]
      ensures ordered[i].oprev == head || ordered[i].oprev in nodes
      ensures ordered[i].onext == head || ordered[i].onext in nodes
    {
      var r := Insertion();
      assert r[i + 1].oprev == r[i] && r[i + 1].onext == r[i + 2];
    }

    lemma CutKeys(i: nat)
      requires Keyed(ordered) && i < |ordered|
      ensures Keyed(RemoveAt(ordered, i))
      ensures Pairs(RemoveAt(ordered, i)) == OrderedMap.Del(Contents(), ordered[i].key)
    {
      hide OrderedMap.Del;
      DelAt(Contents(), i);
      var m := Pairs(RemoveAt(ordered, i));
      assert m == Contents()[..i] + Contents()[i + 1..] by {
        hide Pairs, Keyed;
      }
    }

    /** Takes a pair out of its bucket and of both lists. */
    method RemovePair(index: nat, pair: Node<V>)
      requires Valid() && pair in nodes && index == pair.hash % buckets.Length
      modifies `size, `chain, `ordered, `nodes, `lo, `hi, buckets
      modifies head`prev, head`next, head`oprev, head`onext, nodes`prev, nodes`next, nodes`oprev, nodes`onext
      ensures Valid() && nodes == old(nodes) - {pair}
      ensures Contents() == OrderedMap.Del(old(Contents()), pair.key)
    {
      hide Linked, OrderedRing, Keyed, Elements, Pairs, OrderedMap.Del, Pow2, RemoveAt;
      ghost var i := Position(pair);
      CutKeys(i);
      ghost var cut := RemoveAt(ordered, i);
      ghost var map' := Pairs(cut);
      TakeFromBucket(index, pair);
      UnlinkOrdered(pair, i);
      assert Pairs(cut) == map';
      LinkedParts();
      nodes := nodes - {pair};
      LinkedParts();
      size := size - 1;
      assert Contents() == map';
    }

    /** hashtable_do_del */
    method DoDel(key: Key, hash: nat) returns (found: bool)
      requires Valid() && hash == hashOf(key)
      modifies `size, `chain, `ordered, `nodes, `lo, `hi, buckets
      modifies head`prev, head`next, head`oprev, head`onext, nodes`prev, nodes`next, nodes`oprev, nodes`onext
      ensures Valid() && nodes <= old(nodes) && found == Has(old(Contents()), key)
      ensures Contents() == OrderedMap.Del(old(Contents()), key)
    {
      hide Linked, OrderedRing, Keyed, Elements, Pairs, OrderedMap.Del, Has, Pow2;
      ContentsDistinct(key);
      var index := IndexOf(hash);
      var pair := FindPair(index, key, hash);
      if pair == null {
        DelAbsent(Contents(), key);
        return false;
      }
      RemovePair(index, pair);
      return true;
    }

    /** hashtable_del */
    method Del(key: Key) returns (found: bool)
      requires Valid()
      modifies `size, `chain, `ordered, `nodes, `lo, `hi, buckets
      modifies head`prev, head`next, head`oprev, head`onext, nodes`prev, nodes`next, nodes`oprev, nodes`onext
      ensures Valid() && nodes <= old(nodes) && found == Has(old(Contents()), key)
      ensures Contents() == OrderedMap.Del(old(Contents()), key)
    {
      found := DoDel(key, hashOf(key));
    }

    // ---- Get, clear and iteration ----

    /** hashtable_get */
    method Get(key: Key) returns (value: Option<V>)
      requires Valid()
      ensures value == OrderedMap.Get(Contents(), key)
    {
      hide Linked, OrderedRing, Keyed, Elements, Pairs, OrderedMap.Get, Has, Pow2;
      ContentsDistinct(key);
      var hash := hashOf(key);
      var index := IndexOf(hash);
      var pair := FindPair(index, key, hash);
      if pair == null {
        GetAbsent(Contents(), key);
        return None;
      }
      GetAt(Contents(), Position(pair));
      return Some(pair.value);
    }

    /** hashtable_clear: the order stays. */
    method Clear()
      requires Valid()
      modifies `size, `chain, `ordered, `nodes, `lo, `hi, buckets, head`prev, head`next, head`oprev, head`onext
      ensures Valid() && nodes == {} && Contents() == []
    {
      hide Linked;
      for i := 0 to buckets.Length
        invariant forall b :: 0 <= b < i ==> buckets[b] == Bucket(head, head)
      {
        buckets[i] := Bucket(head, head);
      }
      head.prev, head.next := head, head;
      head.oprev, head.onext := head, head;
      chain, ordered, nodes := [], [], {};
      lo, hi := seq(buckets.Length, _ => 0), seq(buckets.Length, _ => 0);
      size := 0;
      EmptyLinked();
    }

    /** hashtable_iter_next: the pair after iter in insertion order; the head stands before the first. */
    method IterNext(iter: Node<V>, ghost i: nat) returns (next: Node?<V>)
      requires Valid() && i <= |ordered| && iter == Insertion()[i]
      ensures next == if i < |ordered| then ordered[i] else null
    {
      hide Linked, Keyed, Elements;
      assert Insertion()[i].onext == Insertion()[i + 1];
      assert i < |ordered| ==> Insertion()[i + 1] == ordered[i];
      if iter.onext == head {
        return null;
      }
      return iter.onext;
    }

    /** hashtable_iter */
    method Iter() returns (first: Node?<V>)
      requires Valid()
      ensures first == if ordered == [] then null else ordered[0]
    {
      first := IterNext(head, 0);
    }

    /** hashtable_iter_at */
    method IterAt(key: Key) returns (iter: Node?<V>)
      requires Valid()
      ensures (iter != null) == Has(Contents(), key)
      ensures iter != null ==> iter in nodes && iter.key == key
    {
      ContentsDistinct(key);
      var hash := hashOf(key);
      var index := IndexOf(hash);
      iter := FindPair(index, key, hash);
    }

    /** hashtable_iter_set */
    method IterSet(iter: Node<V>, value: V)
      requires Valid() && iter in nodes
      modifies iter`value
      ensures Valid()
      ensures Contents() == OrderedMap.Set(old(Contents()), iter.key, value)
    {
      hide Linked, OrderedRing, Keyed, Elements, Pairs, OrderedMap.Set, Distinct, Has, Pow2;
      ContentsDistinct(iter.key);
      ghost var i := Position(iter);
      iter.value := value;
      SetAt(old(Contents()), i, value);
    }

    /** Walking the table with the iterator lists the map in order. */
    method Listing() returns (m: seq<Entry<V>>)
      requires Valid()
      ensures m == Contents()
    {
      hide Valid, Pairs;
      m := [];
      var iter := Iter();
      while iter != null
        invariant |m| <= |ordered| && m == Contents()[..|m|]
        invariant iter == if |m| < |ordered| then ordered[|m|] else null
        decreases |ordered| - |m|
      {
        m := m + [Entry(iter.key, iter.value)];
        iter := IterNext(iter, |m|);
      }
    }

    /** Any run of updates leaves the table standing for the replayed map. */
    method Run(ops: seq<Op<V>>)
      requires Valid() && Contents() == []
      modifies this, buckets, head, nodes
      ensures Valid() && Contents() == Replay(ops)
    {
      hide Valid, Contents, OrderedMap.Set, OrderedMap.Del;
      for i := 0 to |ops|
        invariant Valid() && Contents() == Replay(ops[..i])
        invariant (buckets == old(buckets) || fresh(buckets)) && fresh(nodes - old(nodes))
      {
        assert ops[..i + 1][..i] == ops[..i];
        match ops[i] {
          case SetOp(k, v) => Set(k, v);
          case DelOp(k) => var _ := Del(k);
          case ClearOp => Clear();
        }
      }
      assert ops[..|ops|] == ops;
    }
  }
}
