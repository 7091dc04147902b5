/** Structural equality of deps/jansson/src/value.c, and what it means. */
module JsonEqual {
  import opened Bytes
  import opened OrderedMap
  import opened SortedMap
  import opened JsonValue
  import opened JsonDump
  import opened JsonParse
  import opened JsonRoundTrip

  /** For the text of a real, a text that stands for its double: one for all texts read as equal doubles. */
  type Doubles = seq<byte> -> seq<byte>

  function SameText(text: seq<byte>): seq<byte> { text }

  /** json_equal: objects are compared by size and one way only, reals as doubles. */
  predicate Equal(a: Json, b: Json, d: Doubles)
    decreases a
  {
    match (a, b)
    case (Object(ms), Object(ns)) =>
      |ms| == |ns| && forall i :: 0 <= i < |ms| ==> Get(ns, ms[i].key).Some? && Equal(ms[i].value, Get(ns, ms[i].key).value, d)
    case (Array(xs), Array(ys)) => |xs| == |ys| && forall i :: 0 <= i < |xs| ==> Equal(xs[i], ys[i], d)
    case (Real(s), Real(t)) => d(s) == d(t)
    case _ => a == b
  }

  /** Dumping with JSON_SORT_KEYS writes this value's members in key order, at every depth. */
  const SORTED := Flags(0, false, false, true, false, true)

  function Sorted(j: Json): Json {
    Canon(j, SORTED)
  }

  /** The value a member has once it is written with the flags. */
  function CanonOption(v: Option<Json>, f: Flags): Option<Json> {
    match v
    case None => None
    case Some(j) => Some(Canon(j, f))
  }

  lemma {:induction false} CanonGet(ms: seq<Entry<Json>>, f: Flags, k: Key)
    ensures Get(CanonMembers(ms, f), k) == CanonOption(Get(ms, k), f)
  {
    if ms != [] {
      CanonGet(ms[1..], f, k);
      assert CanonMembers(ms, f)[1..] == CanonMembers(ms[1..], f);
    }
  }

  lemma CanonLaw(ms: seq<Entry<Json>>, f: Flags)
    requires Distinct(ms)
    ensures Distinct(CanonObject(ms, f)) && (f.sortKeys ==> SortedKeys(CanonObject(ms, f)))
    ensures forall k :: Get(CanonObject(ms, f), k) == CanonOption(Get(ms, k), f)
  {
    var c := CanonMembers(ms, f);
    SortSorts(c);
    SortDistinct(c);
    forall k
      ensures Get(CanonObject(ms, f), k) == CanonOption(Get(ms, k), f)
    {
      CanonGet(ms, f, k);
    }
  }

  // ---- One direction and the size are enough ----

  function KeySet<V>(m: seq<Entry<V>>): set<Key> {
    set i | 0 <= i < |m| :: m[i].key
  }

  lemma {:induction false} KeySetSize<V>(m: seq<Entry<V>>)
    requires Distinct(m)
    ensures |KeySet(m)| == |m|
  {
    if m != [] {
      var front, e := m[..|m| - 1], m[|m| - 1];
      KeySetSize(front);
      LastKey(m);
      assert e.key !in KeySet(front);
    }
  }

  lemma LastKey<V>(m: seq<Entry<V>>)
    requires m != []
    ensures KeySet(m) == KeySet(m[..|m| - 1]) + {m[|m| - 1].key}
  {
    var front, e := m[..|m| - 1], m[|m| - 1];
    forall k | k in KeySet(m)
      ensures k in KeySet(front) + {e.key}
    {
      var i :| 0 <= i < |m| && m[i].key == k;
      assert i < |front| ==> front[i] == m[i];
    }
    forall k | k in KeySet(front)
      ensures k in KeySet(m)
    {
      var i :| 0 <= i < |front| && front[i].key == k;
      assert m[i] == front[i];
    }
  }

  lemma SubsetOfSameSize<T>(a: set<T>, b: set<T>)
    requires a <= b && |a| == |b|
    ensures a == b
  {
    assert b == a + (b - a);
    assert |b| == |a| + |b - a|;
  }

  /** Same size and every key of one in the other: the same keys. */
  lemma SameKeys<V, W>(m: seq<Entry<V>>, n: seq<Entry<W>>, k: Key)
    requires Distinct(m) && Distinct(n) && |m| == |n| && forall i :: 0 <= i < |m| ==> Get(n, m[i].key).Some?
    ensures Get(m, k).Some? <==> Get(n, k).Some?
  {
    KeySetSize(m);
    KeySetSize(n);
    forall x | x in KeySet(m)
      ensures x in KeySet(n)
    {
      var i :| 0 <= i < |m| && m[i].key == x;
      GetAbsent(n, x);
    }
    SubsetOfSameSize(KeySet(m), KeySet(n));
    GetAbsent(m, k);
    GetAbsent(n, k);
    assert k in KeySet(m) <==> Has(m, k);
    assert k in KeySet(n) <==> Has(n, k);
  }

  lemma MemberOf(ms: seq<Entry<Json>>, k: Key)
    requires Get(ms, k).Some?
    ensures exists i :: 0 <= i < |ms| && ms[i].key == k && ms[i].value == Get(ms, k).value
  {
    if ms[0].key != k {
      MemberOf(ms[1..], k);
    }
  }

  /** With reals compared as texts, equal values are the same up to the order of members, at every depth. */
  lemma {:induction false} TextsEqual(a: Json, b: Json)
    requires Proper(a) && Proper(b)
    ensures Equal(a, b, SameText) <==> Sorted(a) == Sorted(b)
    decreases a
  {
    match (a, b)
    case (Object(ms), Object(ns)) =>
      CanonLaw(ms, SORTED);
      CanonLaw(ns, SORTED);
      forall i | 0 <= i < |ms| && Get(ns, ms[i].key).Some?
        ensures Equal(ms[i].value, Get(ns, ms[i].key).value, SameText) <==>
          Sorted(ms[i].value) == Sorted(Get(ns, ms[i].key).value)
      {
        MemberOf(ns, ms[i].key);
        TextsEqual(ms[i].value, Get(ns, ms[i].key).value);
      }
      ObjectsEqual(ms, ns);
    case (Array(xs), Array(ys)) =>
      if |xs| == |ys| {
        forall i | 0 <= i < |xs|
          ensures Equal(xs[i], ys[i], SameText) <==> CanonItems(xs, SORTED)[i] == CanonItems(ys, SORTED)[i]
        {
          TextsEqual(xs[i], ys[i]);
        }
        assert Equal(a, b, SameText) ==> CanonItems(xs, SORTED) == CanonItems(ys, SORTED);
      }
    case _ =>
  }

  /** Equality of the values of one key agrees with equality of their sorted forms. */
  ghost predicate Agree(ms: seq<Entry<Json>>, ns: seq<Entry<Json>>) {
    forall i :: 0 <= i < |ms| && Get(ns, ms[i].key).Some? ==>
      (Equal(ms[i].value, Get(ns, ms[i].key).value, SameText) <==> Sorted(ms[i].value) == Sorted(Get(ns, ms[i].key).value))
  }

  lemma ObjectsEqual(ms: seq<Entry<Json>>, ns: seq<Entry<Json>>)
    requires Distinct(ms) && Distinct(ns) && Agree(ms, ns)
    ensures Equal(Object(ms), Object(ns), SameText) <==> CanonObject(ms, SORTED) == CanonObject(ns, SORTED)
  {
    if Equal(Object(ms), Object(ns), SameText) {
      EqualSorts(ms, ns);
    }
    if CanonObject(ms, SORTED) == CanonObject(ns, SORTED) {
      SortedEqual(ms, ns);
    }
  }

  lemma EqualSorts(ms: seq<Entry<Json>>, ns: seq<Entry<Json>>)
    requires Distinct(ms) && Distinct(ns) && Agree(ms, ns) && Equal(Object(ms), Object(ns), SameText)
    ensures CanonObject(ms, SORTED) == CanonObject(ns, SORTED)
  {
    hide Canon, CanonObject, Get, Distinct, SortedKeys;
    var m, n := CanonObject(ms, SORTED), CanonObject(ns, SORTED);
    CanonLaw(ms, SORTED);
    CanonLaw(ns, SORTED);
    forall k
      ensures Get(m, k) == Get(n, k)
    {
      SameKeys(ms, ns, k);
      if Get(ms, k).Some? {
        MemberOf(ms, k);
        var i :| 0 <= i < |ms| && ms[i].key == k && ms[i].value == Get(ms, k).value;
        assert Sorted(ms[i].value) == Sorted(Get(ns, k).value);
      }
    }
    SameMap(m, n);
  }

  lemma SortedEqual(ms: seq<Entry<Json>>, ns: seq<Entry<Json>>)
    requires Distinct(ms) && Distinct(ns) && Agree(ms, ns) && CanonObject(ms, SORTED) == CanonObject(ns, SORTED)
    ensures Equal(Object(ms), Object(ns), SameText)
  {
    hide Canon, Get, Distinct, SortedKeys;
    CanonLaw(ms, SORTED);
    CanonLaw(ns, SORTED);
    assert |ms| == |ns|;
    hide CanonObject;
    forall i | 0 <= i < |ms|
      ensures Get(ns, ms[i].key).Some? && Equal(ms[i].value, Get(ns, ms[i].key).value, SameText)
    {
      GetAt(ms, i);
      assert CanonOption(Get(ms, ms[i].key), SORTED) == CanonOption(Get(ns, ms[i].key), SORTED);
      assert Sorted(ms[i].value) == Sorted(Get(ns, ms[i].key).value);
    }
  }

  // ---- Reals by value ----

  /** A value with the text of every real replaced by the one that stands for its double. */
  function Rounded(j: Json, d: Doubles): Json
    decreases j, 1
  {
    match j
    case Real(t) => Real(d(t))
    case Array(items) => Array(RoundedItems(items, d))
    case Object(ms) => Object(RoundedMembers(ms, d))
    case _ => j
  }

  function RoundedItems(items: seq<Json>, d: Doubles): (r: seq<Json>)
    ensures |r| == |items| && forall i :: 0 <= i < |items| ==> r[i] == Rounded(items[i], d)
    decreases items, 0
  {
    if items == [] then [] else [Rounded(items[0], d)] + RoundedItems(items[1..], d)
  }

  function RoundedMembers(ms: seq<Entry<Json>>, d: Doubles): (r: seq<Entry<Json>>)
    ensures |r| == |ms| && forall i :: 0 <= i < |ms| ==> r[i] == Entry(ms[i].key, Rounded(ms[i].value, d))
    decreases ms, 0
  {
    if ms == [] then [] else [Entry(ms[0].key, Rounded(ms[0].value, d))] + RoundedMembers(ms[1..], d)
  }

  lemma {:induction false} RoundedGet(ms: seq<Entry<Json>>, d: Doubles, k: Key)
    ensures Get(RoundedMembers(ms, d), k) == match Get(ms, k) { case None => None case Some(j) => Some(Rounded(j, d)) }
  {
    if ms != [] {
      RoundedGet(ms[1..], d, k);
      assert RoundedMembers(ms, d)[1..] == RoundedMembers(ms[1..], d);
    }
  }

  lemma {:induction false} RoundedProper(j: Json, d: Doubles)
    requires Proper(j)
    ensures Proper(Rounded(j, d))
  {
    match j
    case Object(ms) =>
      forall i | 0 <= i < |ms|
        ensures Proper(RoundedMembers(ms, d)[i].value)
      {
        RoundedProper(ms[i].value, d);
      }
    case Array(items) =>
      forall i | 0 <= i < |items|
        ensures Proper(RoundedItems(items, d)[i])
      {
        RoundedProper(items[i], d);
      }
    case _ =>
  }

  /** Comparing reals as doubles is comparing the rounded values as texts. */
  lemma {:induction false} RoundedEqual(a: Json, b: Json, d: Doubles)
    ensures Equal(a, b, d) <==> Equal(Rounded(a, d), Rounded(b, d), SameText)
    decreases a
  {
    match (a, b)
    case (Object(ms), Object(ns)) => RoundedObjects(ms, ns, d);
    case (Array(xs), Array(ys)) =>
      if |xs| == |ys| {
        var rs, ts := RoundedItems(xs, d), RoundedItems(ys, d);
        forall i | 0 <= i < |xs|
          ensures Equal(xs[i], ys[i], d) <==> Equal(rs[i], ts[i], SameText)
        {
          RoundedEqual(xs[i], ys[i], d);
        }
      }
    case _ =>
  }

  lemma {:induction false} RoundedObjects(ms: seq<Entry<Json>>, ns: seq<Entry<Json>>, d: Doubles)
    ensures Equal(Object(ms), Object(ns), d) <==>
      Equal(Object(RoundedMembers(ms, d)), Object(RoundedMembers(ns, d)), SameText)
    decreases Object(ms), 0
  {
    hide Get, Rounded, RoundedMembers;
    var rs, ts := RoundedMembers(ms, d), RoundedMembers(ns, d);
    forall i | 0 <= i < |ms|
      ensures rs[i].key == ms[i].key && (Get(ts, rs[i].key).Some? <==> Get(ns, ms[i].key).Some?)
      ensures Get(ns, ms[i].key).Some? ==>
        (Equal(ms[i].value, Get(ns, ms[i].key).value, d) <==> Equal(rs[i].value, Get(ts, rs[i].key).value, SameText))
    {
      RoundedGet(ns, d, ms[i].key);
      if Get(ns, ms[i].key).Some? {
        RoundedEqual(ms[i].value, Get(ns, ms[i].key).value, d);
      }
    }
  }

  /**
    * Values are equal exactly when they are the same up to the order of members and the way doubles are written, at
    * every depth.
    */
  lemma EqualIffSorted(a: Json, b: Json, d: Doubles)
    requires Proper(a) && Proper(b)
    ensures Equal(a, b, d) <==> Sorted(Rounded(a, d)) == Sorted(Rounded(b, d))
  {
    RoundedEqual(a, b, d);
    RoundedProper(a, d);
    RoundedProper(b, d);
    TextsEqual(Rounded(a, d), Rounded(b, d));
  }

  // ---- An equivalence relation ----

  lemma EqualReflexive(a: Json, d: Doubles)
    requires Proper(a)
    ensures Equal(a, a, d)
  {
    EqualIffSorted(a, a, d);
  }

  lemma EqualSymmetric(a: Json, b: Json, d: Doubles)
    requires Proper(a) && Proper(b) && Equal(a, b, d)
    ensures Equal(b, a, d)
  {
    EqualIffSorted(a, b, d);
    EqualIffSorted(b, a, d);
  }

  lemma EqualTransitive(a: Json, b: Json, c: Json, d: Doubles)
    requires Proper(a) && Proper(b) && Proper(c) && Equal(a, b, d) && Equal(b, c, d)
    ensures Equal(a, c, d)
  {
    EqualIffSorted(a, b, d);
    EqualIffSorted(b, c, d);
    EqualIffSorted(a, c, d);
  }

  // ---- Written values ----

  /** Whatever the flags, what is written is equal to the value. */
  lemma {:induction false} CanonEqual(j: Json, f: Flags, d: Doubles)
    requires Proper(j)
    ensures Equal(Canon(j, f), j, d)
  {
    match j
    case Object(ms) =>
      var m := CanonObject(ms, f);
      CanonLaw(ms, f);
      forall i | 0 <= i < |m|
        ensures Get(ms, m[i].key).Some? && Equal(m[i].value, Get(ms, m[i].key).value, d)
      {
        GetAt(m, i);
        MemberOf(ms, m[i].key);
        var n :| 0 <= n < |ms| && ms[n].key == m[i].key && ms[n].value == Get(ms, m[i].key).value;
        CanonEqual(ms[n].value, f, d);
      }
    case Array(xs) =>
      forall i | 0 <= i < |xs|
        ensures Equal(CanonItems(xs, f)[i], xs[i], d)
      {
        CanonEqual(xs[i], f, d);
      }
    case _ =>
  }

  /** A loadable value's dump, under any flags, loads as an equal value. */
  lemma DumpLoadsEqual(j: Json, f: Flags, opt: Options, d: Doubles)
    requires Proper(j) && !opt.disableEofCheck && Loadable(j, opt) && Height(j) <= MAX_DEPTH
    requires Container(j) || (f.encodeAny && opt.decodeAny)
    ensures Dumps(j, f).Some? && Load(Dumps(j, f).value, opt).Some? && Equal(Load(Dumps(j, f).value, opt).value, j, d)
  {
    hide Dumps, Load, Loadable, Height, Equal, Canon;
    RoundTrip(j, f, opt);
    CanonEqual(j, f, d);
  }
}
