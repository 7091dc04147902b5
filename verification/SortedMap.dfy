/** Key order and maps sorted by key. */
module SortedMap {
  import opened Bytes
  import opened OrderedMap

  /** strcmp(a, b) <= 0 on strings of unsigned bytes. */
  predicate KeyLeq(a: Key, b: Key) {
    a == [] || (b != [] && (a[0] < b[0] || (a[0] == b[0] && KeyLeq(a[1..], b[1..]))))
  }

  /** The keys agree up to a place where the first has the smaller byte. */
  ghost predicate SmallerAt(a: Key, b: Key, i: nat) {
    i < |a| && i < |b| && a[..i] == b[..i] && a[i] < b[i]
  }

  ghost predicate Prefix(a: Key, b: Key) { |a| <= |b| && a == b[..|a|] }

  lemma NextByte(x: byte, a: Key, b: Key, i: nat)
    ensures SmallerAt([x] + a, [x] + b, i + 1) <==> SmallerAt(a, b, i)
    ensures !SmallerAt([x] + a, [x] + b, 0)
    ensures Prefix([x] + a, [x] + b) <==> Prefix(a, b)
  {
    if i <= |a| && i <= |b| {
      assert ([x] + a)[..i + 1] == [x] + a[..i] && ([x] + b)[..i + 1] == [x] + b[..i];
      SameBehind(x, a[..i], b[..i]);
    }
    if |a| <= |b| {
      assert ([x] + b)[..1 + |a|] == [x] + b[..|a|];
      SameBehind(x, a, b[..|a|]);
    }
  }

  lemma SameBehind(x: byte, a: Key, b: Key)
    ensures [x] + a == [x] + b <==> a == b
  {
    assert ([x] + a)[1..] == a && ([x] + b)[1..] == b;
  }

  /** The order of strcmp: a prefix comes first, and otherwise the first difference decides. */
  lemma {:induction false} KeyLeqIff(a: Key, b: Key)
    ensures KeyLeq(a, b) <==> Prefix(a, b) || exists i: nat :: SmallerAt(a, b, i)
  {
    if a != [] && b != [] && a[0] == b[0] {
      var x, y := a[1..], b[1..];
      KeyLeqIff(x, y);
      assert a == [a[0]] + x && b == [a[0]] + y;
      hide SmallerAt, Prefix;
      NextByte(a[0], x, y, 0);
      if i: nat :| SmallerAt(x, y, i) {
        NextByte(a[0], x, y, i);
      }
      if i: nat :| SmallerAt(a, b, i) && i > 0 {
        NextByte(a[0], x, y, i - 1);
      }
    } else if a != [] && b != [] {
      FirstDiffers(a, b);
      assert a[0] < b[0] <==> SmallerAt(a, b, 0);
    }
  }

  lemma FirstDiffers(a: Key, b: Key)
    requires a != [] && b != [] && a[0] != b[0]
    ensures !Prefix(a, b) && forall i: nat :: SmallerAt(a, b, i) <==> i == 0 && a[0] < b[0]
  {
    forall i: nat
      ensures SmallerAt(a, b, i) ==> i == 0
    {
      if 0 < i <= |a| && i <= |b| {
        assert a[..i][0] == a[0] && b[..i][0] == b[0];
      }
    }
    if |a| <= |b| {
      assert b[..|a|][0] == b[0];
    }
  }

  function Insert<V>(e: Entry<V>, m: seq<Entry<V>>): (r: seq<Entry<V>>)
    ensures |r| == |m| + 1
  {
    if m == [] || KeyLeq(e.key, m[0].key) then [e] + m else [m[0]] + Insert(e, m[1..])
  }

  /** The members in the order of their keys. */
  function Sort<V>(m: seq<Entry<V>>): (r: seq<Entry<V>>)
    ensures |r| == |m|
  {
    if m == [] then [] else Insert(m[0], Sort(m[1..]))
  }

  ghost predicate SortedKeys<V>(m: seq<Entry<V>>) {
    forall i, j :: 0 <= i < j < |m| ==> KeyLeq(m[i].key, m[j].key)
  }

  lemma {:induction false} KeyTotal(a: Key, b: Key)
    ensures KeyLeq(a, b) || KeyLeq(b, a)
    ensures KeyLeq(a, b) && KeyLeq(b, a) ==> a == b
  {
    if a != [] && b != [] && a[0] == b[0] {
      KeyTotal(a[1..], b[1..]);
      assert a == [a[0]] + a[1..] && b == [b[0]] + b[1..];
    }
  }

  lemma {:induction false} KeyTransitive(a: Key, b: Key, c: Key)
    requires KeyLeq(a, b) && KeyLeq(b, c)
    ensures KeyLeq(a, c)
  {
    if a != [] && a[0] == b[0] && b[0] == c[0] {
      KeyTransitive(a[1..], b[1..], c[1..]);
    }
  }

  lemma {:induction false} InsertSorts<V>(e: Entry<V>, m: seq<Entry<V>>)
    requires SortedKeys(m)
    ensures SortedKeys(Insert(e, m)) && multiset(Insert(e, m)) == multiset(m) + multiset{e}
  {
    hide KeyLeq;
    if m != [] {
      if KeyLeq(e.key, m[0].key) {
        SortedFront(e, m);
      } else {
        KeyTotal(e.key, m[0].key);
        InsertSorts(e, m[1..]);
        assert Insert(e, m) == [m[0]] + Insert(e, m[1..]) && m == [m[0]] + m[1..];
        hide Insert, SortedKeys;
        FirstInFront(m, e, Insert(e, m[1..]));
      }
    }
  }

  /** The first of a sorted list stays in front of a list of the others and a greater entry. */
  lemma FirstInFront<V>(m: seq<Entry<V>>, e: Entry<V>, rest: seq<Entry<V>>)
    requires SortedKeys(m) && m != [] && KeyLeq(m[0].key, e.key)
    requires SortedKeys(rest) && multiset(rest) == multiset(m[1..]) + multiset{e}
    ensures SortedKeys([m[0]] + rest)
  {
    hide KeyLeq;
    forall j | 0 <= j < |rest|
      ensures KeyLeq(m[0].key, rest[j].key)
    {
      assert rest[j] in multiset(m[1..]) + multiset{e};
      if rest[j] != e {
        assert rest[j] in m[1..];
      }
    }
  }

  lemma SortedFront<V>(e: Entry<V>, m: seq<Entry<V>>)
    requires SortedKeys(m) && m != [] && KeyLeq(e.key, m[0].key)
    ensures SortedKeys([e] + m)
  {
    hide KeyLeq;
    forall j | 0 <= j < |m|
      ensures KeyLeq(e.key, m[j].key)
    {
      if j > 0 {
        KeyTransitive(e.key, m[0].key, m[j].key);
      }
    }
  }

  /** Sorting orders the keys and keeps the members. */
  lemma {:induction false} SortSorts<V>(m: seq<Entry<V>>)
    ensures SortedKeys(Sort(m)) && multiset(Sort(m)) == multiset(m)
  {
    if m != [] {
      SortSorts(m[1..]);
      InsertSorts(m[0], Sort(m[1..]));
      assert m == [m[0]] + m[1..];
    }
  }

  /** On distinct keys there is one sorted order, whatever algorithm finds it. */
  lemma {:induction false} SortedUnique<V>(a: seq<Entry<V>>, b: seq<Entry<V>>)
    requires SortedKeys(a) && SortedKeys(b) && multiset(a) == multiset(b) && Distinct(a)
    ensures a == b
  {
    hide KeyLeq;
    if a == [] {
      assert |multiset(b)| == 0;
    } else {
      SameFirst(a, b);
      TailMultiset(a);
      TailMultiset(b);
      SortedUnique(a[1..], b[1..]);
      assert a == [a[0]] + a[1..] && b == [b[0]] + b[1..];
    }
  }

  lemma TailMultiset<V>(a: seq<Entry<V>>)
    requires a != []
    ensures multiset(a[1..]) == multiset(a) - multiset{a[0]}
  {
    assert a == [a[0]] + a[1..];
  }

  lemma SameFirst<V>(a: seq<Entry<V>>, b: seq<Entry<V>>)
    requires SortedKeys(a) && SortedKeys(b) && multiset(a) == multiset(b) && Distinct(a) && a != []
    ensures b != [] && a[0] == b[0]
  {
    hide KeyLeq;
    assert |multiset(b)| == |multiset(a)|;
    assert a[0] in multiset(b) && b[0] in multiset(a);
    var i :| 0 <= i < |b| && b[i] == a[0];
    var j :| 0 <= j < |a| && a[j] == b[0];
    KeyTotal(a[0].key, b[0].key);
    assert a[0].key == a[j].key;
  }

  lemma {:induction false} InsertGet<V>(e: Entry<V>, m: seq<Entry<V>>, k: Key)
    requires !Has(m, e.key)
    ensures Get(Insert(e, m), k) == if k == e.key then Some(e.value) else Get(m, k)
  {
    if m != [] && !KeyLeq(e.key, m[0].key) {
      assert m[0].key != e.key;
      assert forall i :: 0 <= i < |m[1..]| ==> m[1..][i] == m[i + 1];
      InsertGet(e, m[1..], k);
      assert Insert(e, m)[1..] == Insert(e, m[1..]);
    } else {
      assert ([e] + m)[1..] == m;
      GetAbsent(m, e.key);
    }
  }

  lemma {:induction false} InsertDistinct<V>(e: Entry<V>, m: seq<Entry<V>>)
    requires Distinct(m) && !Has(m, e.key)
    ensures Distinct(Insert(e, m))
    ensures forall k :: Has(Insert(e, m), k) <==> k == e.key || Has(m, k)
  {
    forall k
      ensures Has(Insert(e, m), k) <==> k == e.key || Has(m, k)
    {
      InsertGet(e, m, k);
      GetAbsent(Insert(e, m), k);
      GetAbsent(m, k);
    }
    if m != [] && !KeyLeq(e.key, m[0].key) {
      assert m[0].key != e.key;
      assert forall i :: 0 <= i < |m[1..]| ==> m[1..][i] == m[i + 1];
      InsertDistinct(e, m[1..]);
      var r := Insert(e, m[1..]);
      assert !Has(r, m[0].key);
      assert forall i :: 0 <= i < |r| ==> r[i].key != m[0].key;
    }
  }

  lemma {:induction false} SortDistinct<V>(m: seq<Entry<V>>)
    requires Distinct(m)
    ensures Distinct(Sort(m))
    ensures forall k :: Get(Sort(m), k) == Get(m, k)
  {
    if m != [] {
      var t := Sort(m[1..]);
      SortDistinct(m[1..]);
      GetAbsent(m[1..], m[0].key);
      GetAbsent(t, m[0].key);
      assert !Has(m[1..], m[0].key);
      InsertDistinct(m[0], t);
      forall k
        ensures Get(Sort(m), k) == Get(m, k)
      {
        InsertGet(m[0], t, k);
      }
    }
  }

  // ---- Maps kept sorted ----

  /** Overwrites in place, or inserts where the key belongs. */
  function Put<V>(m: seq<Entry<V>>, k: Key, v: V): seq<Entry<V>> {
    if Has(m, k) then Set(m, k, v) else Insert(Entry(k, v), m)
  }

  /** Insert puts the entry between the smaller and the greater keys. */
  lemma {:induction false} InsertBetween<V>(e: Entry<V>, m: seq<Entry<V>>, p: nat)
    requires p <= |m|
    requires forall i :: 0 <= i < p ==> !KeyLeq(e.key, m[i].key)
    requires p < |m| ==> KeyLeq(e.key, m[p].key)
    ensures Insert(e, m) == m[..p] + [e] + m[p..]
  {
    hide KeyLeq;
    if p > 0 {
      assert forall i :: 0 <= i < p - 1 ==> m[1..][i] == m[i + 1];
      InsertBetween(e, m[1..], p - 1);
      assert m[..p] == [m[0]] + m[1..][..p - 1] && m[1..][p - 1..] == m[p..];
    } else if m != [] {
      assert m[..0] == [] && m[0..] == m;
    }
  }

  lemma SetSorted<V>(m: seq<Entry<V>>, i: nat, v: V)
    requires SortedKeys(m) && Distinct(m) && i < |m|
    ensures var r := m[i := Entry(m[i].key, v)]; r == Set(m, m[i].key, v) && SortedKeys(r) && Distinct(r)
  {
    SetAt(m, i, v);
  }

  lemma CutSorted<V>(m: seq<Entry<V>>, i: nat)
    requires SortedKeys(m) && i < |m|
    ensures SortedKeys(m[..i] + m[i + 1..])
  {
    var c := m[..i] + m[i + 1..];
    assert forall j :: 0 <= j < |c| ==> c[j] == if j < i then m[j] else m[j + 1];
  }

  /** A sorted map stays one, and reads back what was put. */
  lemma PutLaw<V>(m: seq<Entry<V>>, k: Key, v: V, other: Key)
    requires SortedKeys(m) && Distinct(m)
    ensures SortedKeys(Put(m, k, v)) && Distinct(Put(m, k, v))
    ensures Get(Put(m, k, v), other) == if other == k then Some(v) else Get(m, other)
  {
    if Has(m, k) {
      var i :| 0 <= i < |m| && m[i].key == k;
      SetAt(m, i, v);
      SetKeepsDistinct(m, k, v);
      GetSet(m, k, v, other);
    } else {
      InsertSorts(Entry(k, v), m);
      InsertDistinct(Entry(k, v), m);
      InsertGet(Entry(k, v), m, other);
    }
  }

  lemma HeadFound<V>(m: seq<Entry<V>>)
    ensures m == [] <==> forall k :: Get(m, k).None?
  {
    if m != [] {
      assert Get(m, m[0].key).Some?;
    }
  }

  /** Sorted maps with the same lookups are the same. */
  lemma {:induction false} SameMap<V>(a: seq<Entry<V>>, b: seq<Entry<V>>)
    requires SortedKeys(a) && Distinct(a) && SortedKeys(b) && Distinct(b)
    requires forall k :: Get(a, k) == Get(b, k)
    ensures a == b
  {
    if a == [] || b == [] {
      HeadFound(a);
      HeadFound(b);
    } else {
      hide Get;
      SameHead(a, b);
      var x, y := a[1..], b[1..];
      forall k
        ensures Get(x, k) == Get(y, k)
      {
        TailGet(a, k);
        TailGet(b, k);
      }
      SameMap(x, y);
    }
  }

  lemma TailGet<V>(a: seq<Entry<V>>, k: Key)
    requires Distinct(a) && a != []
    ensures Get(a[1..], k) == if k == a[0].key then None else Get(a, k)
  {
    GetAbsent(a[1..], a[0].key);
  }

  lemma SameHead<V>(a: seq<Entry<V>>, b: seq<Entry<V>>)
    requires SortedKeys(a) && Distinct(a) && SortedKeys(b) && Distinct(b) && a != [] && b != []
    requires forall k :: Get(a, k) == Get(b, k)
    ensures a[0] == b[0]
  {
    hide KeyLeq, Get;
    GetAt(a, 0);
    GetAt(b, 0);
    GetAbsent(b, a[0].key);
    GetAbsent(a, b[0].key);
    var i :| 0 <= i < |b| && b[i].key == a[0].key;
    var j :| 0 <= j < |a| && a[j].key == b[0].key;
    KeyTotal(a[0].key, a[0].key);
    KeyTotal(a[0].key, b[0].key);
  }

  /** Reading a map that ends in one more entry. */
  lemma {:induction false} GetLast<V>(m: seq<Entry<V>>, e: Entry<V>, k: Key)
    requires Distinct(m + [e])
    ensures !Has(m, e.key) && Distinct(m)
    ensures Get(m + [e], k) == if k == e.key then Some(e.value) else Get(m, k)
  {
    assert forall i :: 0 <= i < |m| ==> (m + [e])[i] == m[i];
    assert (m + [e])[|m|] == e;
    SetAbsent(m, e.key, e.value);
    GetSet(m, e.key, e.value, k);
  }
}
