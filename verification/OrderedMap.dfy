/** Insertion-ordered maps keyed by byte strings: the abstract value of a jansson object. */
module OrderedMap {
  import opened Bytes

  type Key = seq<byte>

  datatype Entry<+V> = Entry(key: Key, value: V)

  function Keys<V>(m: seq<Entry<V>>): (ks: seq<Key>)
    ensures |ks| == |m| && forall i :: 0 <= i < |m| ==> ks[i] == m[i].key
  {
    seq(|m|, i requires 0 <= i < |m| => m[i].key)
  }

  ghost predicate Distinct<V>(m: seq<Entry<V>>) {
    forall i, j :: 0 <= i < j < |m| ==> m[i].key != m[j].key
  }

  predicate Has<V>(m: seq<Entry<V>>, k: Key) {
    exists i :: 0 <= i < |m| && m[i].key == k
  }

  function Get<V>(m: seq<Entry<V>>, k: Key): Option<V> {
    if m == [] then None
    else if m[0].key == k then Some(m[0].value)
    else Get(m[1..], k)
  }

  /** Overwrites in place, or appends. */
  function Set<V>(m: seq<Entry<V>>, k: Key, v: V): seq<Entry<V>> {
    if m == [] then [Entry(k, v)]
    else if m[0].key == k then [Entry(k, v)] + m[1..]
    else [m[0]] + Set(m[1..], k, v)
  }

  function Del<V>(m: seq<Entry<V>>, k: Key): seq<Entry<V>> {
    if m == [] then []
    else if m[0].key == k then m[1..]
    else [m[0]] + Del(m[1..], k)
  }

  // ---- What the operations do, by position ----

  lemma {:induction false} GetAt<V>(m: seq<Entry<V>>, i: nat)
    requires Distinct(m) && i < |m|
    ensures Get(m, m[i].key) == Some(m[i].value)
  {
    if i > 0 {
      assert m[1..][i - 1] == m[i];
      GetAt(m[1..], i - 1);
    }
  }

  lemma {:induction false} GetAbsent<V>(m: seq<Entry<V>>, k: Key)
    ensures Get(m, k).None? <==> !Has(m, k)
  {
    if m != [] && m[0].key != k {
      GetAbsent(m[1..], k);
      if Has(m, k) {
        var i :| 0 <= i < |m| && m[i].key == k;
        assert m[1..][i - 1].key == k;
      }
      if Has(m[1..], k) {
        var i :| 0 <= i < |m[1..]| && m[1..][i].key == k;
        assert m[i + 1].key == k;
      }
    }
  }

  lemma {:induction false} SetAbsent<V>(m: seq<Entry<V>>, k: Key, v: V)
    requires !Has(m, k)
    ensures Set(m, k, v) == m + [Entry(k, v)]
  {
    if m != [] {
      assert m[0].key != k;
      assert forall i :: 0 <= i < |m[1..]| ==> m[1..][i] == m[i + 1];
      SetAbsent(m[1..], k, v);
    }
  }

  lemma {:induction false} SetAt<V>(m: seq<Entry<V>>, i: nat, v: V)
    requires Distinct(m) && i < |m|
    ensures Set(m, m[i].key, v) == m[i := Entry(m[i].key, v)]
  {
    if i == 0 {
      assert m[0 := Entry(m[0].key, v)] == [Entry(m[0].key, v)] + m[1..];
    } else {
      assert m[1..][i - 1] == m[i];
      SetAt(m[1..], i - 1, v);
      assert m[i := Entry(m[i].key, v)] == [m[0]] + m[1..][i - 1 := Entry(m[i].key, v)];
    }
  }

  lemma {:induction false} DelAbsent<V>(m: seq<Entry<V>>, k: Key)
    requires !Has(m, k)
    ensures Del(m, k) == m
  {
    if m != [] {
      assert m[0].key != k;
      assert forall i :: 0 <= i < |m[1..]| ==> m[1..][i] == m[i + 1];
      DelAbsent(m[1..], k);
    }
  }

  lemma {:induction false} DelAt<V>(m: seq<Entry<V>>, i: nat)
    requires Distinct(m) && i < |m|
    ensures Del(m, m[i].key) == m[..i] + m[i + 1..]
  {
    if i > 0 {
      assert m[1..][i - 1] == m[i];
      DelAt(m[1..], i - 1);
      assert [m[0]] + m[1..][..i - 1] == m[..i];
      assert m[1..][i..] == m[i + 1..];
    }
  }

  // ---- The map laws ----

  lemma SetKeepsDistinct<V>(m: seq<Entry<V>>, k: Key, v: V)
    requires Distinct(m)
    ensures Distinct(Set(m, k, v))
    ensures Keys(Set(m, k, v)) == if Has(m, k) then Keys(m) else Keys(m) + [k]
  {
    if Has(m, k) {
      var i :| 0 <= i < |m| && m[i].key == k;
      SetAt(m, i, v);
    } else {
      SetAbsent(m, k, v);
    }
  }

  /** A lookup finds the last value set, and no other key's value moves. */
  lemma {:induction false} GetSet<V>(m: seq<Entry<V>>, k: Key, v: V, other: Key)
    ensures Get(Set(m, k, v), other) == if other == k then Some(v) else Get(m, other)
  {
    if m != [] && m[0].key != k {
      GetSet(m[1..], k, v, other);
      assert Set(m, k, v)[1..] == Set(m[1..], k, v);
    } else if m != [] {
      assert Set(m, k, v)[1..] == m[1..];
    }
  }

  lemma CutDistinct<V>(m: seq<Entry<V>>, i: nat)
    requires Distinct(m) && i < |m|
    ensures Distinct(m[..i] + m[i + 1..]) && !Has(m[..i] + m[i + 1..], m[i].key)
  {
    var c := m[..i] + m[i + 1..];
    assert forall j :: 0 <= j < |c| ==> c[j] == if j < i then m[j] else m[j + 1];
  }

  /** Deletion removes that key alone; DelAt says the others keep their order. */
  lemma DelLaw<V>(m: seq<Entry<V>>, k: Key)
    requires Distinct(m)
    ensures Distinct(Del(m, k)) && !Has(Del(m, k), k)
    ensures forall other :: other != k ==> Get(Del(m, k), other) == Get(m, other)
  {
    hide Del, Get;
    if Has(m, k) {
      var i :| 0 <= i < |m| && m[i].key == k;
      DelAt(m, i);
      CutDistinct(m, i);
    } else {
      DelAbsent(m, k);
    }
    forall other | other != k
      ensures Get(Del(m, k), other) == Get(m, other)
    {
      GetDelOther(m, k, other);
    }
  }

  lemma {:induction false} GetDelOther<V>(m: seq<Entry<V>>, k: Key, other: Key)
    requires other != k
    ensures Get(Del(m, k), other) == Get(m, other)
  {
    if m != [] && m[0].key != k {
      GetDelOther(m[1..], k, other);
      assert Del(m, k)[1..] == Del(m[1..], k);
    }
  }
}
