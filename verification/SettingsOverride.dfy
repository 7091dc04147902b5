/**
  * wsc_data_apply of src/data.c on values: an override by user values that goes by each item's one type.
  */
module SettingsOverride {
  import opened Bytes
  import opened Utf8
  import opened OrderedMap
  import opened SortedMap
  import opened JsonValue
  import opened Settings

  // ---- What is copied ----

  /** What copy_item stores: a new object or array of user values, or the bytes as they are. */
  function Copied(kind: Kind, s: Setting): Option<Setting>
    decreases s, 1
  {
    if kind == Kind.Object then if s.Nested? then Some(Nested(Bare(s.data))) else None
    else if kind == Kind.Array then if s.List? then Some(List(BareAll(s.objects))) else None
    else Some(s)
  }

  function CopiedUser(item: Item): Option<Setting>
    decreases item, 0
  {
    if item.user.None? then None else Copied(item.kind, item.user.value)
  }

  /** Nothing but what is copied of the user values, under the types they have. */
  function Bare(d: Data): Data
    decreases d, 0
  {
    if d == [] then []
    else
      var last := d[|d| - 1];
      var c := CopiedUser(last.value);
      Bare(d[..|d| - 1]) + if c.None? then [] else [Entry(last.key, Item(last.value.kind, c, None, None))]
  }

  function BareAll(ds: seq<Store>): (r: seq<Store>)
    ensures |r| == |ds| && forall i :: 0 <= i < |ds| ==> r[i] == Store(Bare(ds[i].data))
    decreases ds, 0
  {
    if ds == [] then [] else [Store(Bare(ds[0].data))] + BareAll(ds[1..])
  }

  /** Bytes that are no reference, under the type of one: copy_item follows them all the same. */
  predicate Strays(kind: Kind, s: Setting)
    decreases s, 1
  {
    if Direct(kind) || s.NoObject? || s.NoArray? then false
    else if kind == Kind.Object then !s.Nested? || StraysIn(s.data)
    else !s.List? || exists i :: 0 <= i < |s.objects| && StraysIn(s.objects[i].data)
  }

  predicate StraysIn(d: Data)
    decreases d, 0
  {
    exists i :: 0 <= i < |d| && d[i].value.user.Some? && Strays(d[i].value.kind, d[i].value.user.value)
  }

  /** No reference stands under the type of a direct value, where its pointer would be copied as it is. */
  predicate Owns(kind: Kind, s: Setting)
    decreases s, 1
  {
    if Direct(kind) then !s.Nested? && !s.List?
    else if kind == Kind.Object then s.Nested? ==> OwnsIn(s.data)
    else s.List? ==> forall i :: 0 <= i < |s.objects| ==> OwnsIn(s.objects[i].data)
  }

  predicate OwnsIn(d: Data)
    decreases d, 0
  {
    forall i :: 0 <= i < |d| && d[i].value.user.Some? ==> Owns(d[i].value.kind, d[i].value.user.value)
  }

  // ---- The override ----

  /** copy_item; None where it follows a stray pointer, to copy a value or to release the one replaced. */
  function CopyItem(t: Data, e: Entry<Item>): Option<Data> {
    if e.value.user.Some? && Strays(e.value.kind, e.value.user.value) then None
    else if CopiedUser(e.value).None? then Some(t)
    else if !UserReleasable(Get(t, e.key)) then None
    else Some(SetRaw(t, e.key, e.value.kind, CopiedUser(e.value).value))
  }

  /** wsc_data_apply: every item of s, in order, over t. */
  function ApplyData(t: Data, s: Data): Option<Data> {
    if s == [] then Some(t)
    else
      match ApplyData(t, s[..|s| - 1])
      case None => None
      case Some(d) => CopyItem(d, s[|s| - 1])
  }

  /** An item under the type of another and with its user value, if that has one to copy. */
  function Overridden(t: Option<Item>, s: Option<Item>): Option<Item> {
    if s.None? || CopiedUser(s.value).None? then t else Some(WithUser(t, s.value.kind, CopiedUser(s.value).value))
  }

  /** A name with something to copy whose user value in t is released as a pointer it is not. */
  predicate Blocked(t: Data, s: Data) {
    exists i :: 0 <= i < |s| && CopiedUser(s[i].value).Some? && !UserReleasable(Get(t, s[i].key))
  }

  lemma BlockedNext(t: Data, front: Data, e: Entry<Item>)
    ensures Blocked(t, front + [e]) <==>
      Blocked(t, front) || (CopiedUser(e.value).Some? && !UserReleasable(Get(t, e.key)))
  {
    hide CopiedUser, UserReleasable, Get;
    var d := front + [e];
    assert d[|front|] == e && forall i :: 0 <= i < |front| ==> d[i] == front[i];
  }

  lemma ApplyNext(t: Data, front: Data, e: Entry<Item>)
    ensures ApplyData(t, front + [e]) == match ApplyData(t, front) { case None => None case Some(d) => CopyItem(d, e) }
  {
    assert (front + [e])[..|front|] == front;
  }

  lemma StraysNext(front: Data, e: Entry<Item>)
    ensures StraysIn(front + [e]) <==>
      StraysIn(front) || (e.value.user.Some? && Strays(e.value.kind, e.value.user.value))
  {
    hide Strays;
    var d := front + [e];
    assert d[|front|] == e && forall i :: 0 <= i < |front| ==> d[i] == front[i];
  }

  /** The result is the override, its types included; every other name is unchanged. */
  lemma {:induction false} ApplyLaw(t: Data, s: Data)
    requires Ordered(t) && Distinct(s)
    ensures ApplyData(t, s).Some? <==> !StraysIn(s) && !Blocked(t, s)
    ensures ApplyData(t, s).Some? ==> Ordered(ApplyData(t, s).value)
    ensures ApplyData(t, s).Some? ==> forall k :: Get(ApplyData(t, s).value, k) == Overridden(Get(t, k), Get(s, k))
  {
    if s != [] {
      var front, e := s[..|s| - 1], s[|s| - 1];
      assert s == front + [e];
      ApplyLaw(t, front);
      hide ApplyData, StraysIn, Strays, Blocked, UserReleasable, Get, Ordered, CopiedUser, SetRaw;
      ApplyNext(t, front, e);
      StraysNext(front, e);
      BlockedNext(t, front, e);
      NotYetGiven(front, e);
      if ApplyData(t, s).Some? {
        var d := ApplyData(t, front).value;
        OverrideStep(t, front, e, d, e.key);
        forall k
          ensures Get(ApplyData(t, s).value, k) == Overridden(Get(t, k), Get(s, k))
        {
          OverrideStep(t, front, e, d, k);
        }
      }
    }
  }

  lemma NotYetGiven(front: Data, e: Entry<Item>)
    requires Distinct(front + [e])
    ensures Get(front, e.key).None?
  {
    GetLast(front, e, e.key);
    GetAbsent(front, e.key);
  }

  lemma OverrideStep(t: Data, front: Data, e: Entry<Item>, d: Data, k: Key)
    requires Distinct(front + [e]) && Ordered(d) && CopyItem(d, e).Some?
    requires forall k :: Get(d, k) == Overridden(Get(t, k), Get(front, k))
    ensures Ordered(CopyItem(d, e).value)
    ensures Get(CopyItem(d, e).value, k) == Overridden(Get(t, k), Get(front + [e], k))
  {
    hide Get, Ordered, CopiedUser, SetRaw, Strays, Distinct, UserReleasable;
    GetLast(front, e, k);
    GetLast(front, e, e.key);
    GetAbsent(front, e.key);
    if CopiedUser(e.value).Some? {
      SetRawLaw(d, e.key, e.value.kind, CopiedUser(e.value).value, k);
    }
  }

  /** Applying the same settings again changes nothing. */
  lemma ApplyIdempotent(t: Data, s: Data)
    requires Ordered(t) && Distinct(s) && !StraysIn(s) && !Blocked(t, s)
    ensures ApplyData(t, s).Some? && ApplyData(ApplyData(t, s).value, s) == ApplyData(t, s)
  {
    ApplyLaw(t, s);
    var once := ApplyData(t, s).value;
    forall i | 0 <= i < |s| && CopiedUser(s[i].value).Some?
      ensures UserReleasable(Get(once, s[i].key))
    {
      GetAt(s, i);
      CopyReleasable(s[i].value);
    }
    ApplyLaw(once, s);
    SameMap(ApplyData(once, s).value, once);
  }

  /** A copy can be replaced. */
  lemma CopyReleasable(item: Item)
    requires CopiedUser(item).Some?
    ensures Releasable(item.kind, CopiedUser(item))
  {
  }

  // ---- Copies ----

  lemma BareNext(front: Data, e: Entry<Item>)
    ensures var c := CopiedUser(e.value);
      Bare(front + [e]) == Bare(front) + if c.None? then [] else [Entry(e.key, Item(e.value.kind, c, None, None))]
  {
    assert (front + [e])[..|front|] == front;
  }

  lemma {:induction false} BareLaw(d: Data)
    requires Ordered(d)
    ensures Ordered(Bare(d)) && forall k :: Get(Bare(d), k) == Overridden(None, Get(d, k))
  {
    if d != [] {
      var front, e := d[..|d| - 1], d[|d| - 1];
      assert d == front + [e];
      BareLaw(front);
      hide Bare, Get, SortedKeys, Distinct, CopiedUser, Overridden;
      BareNext(front, e);
      BareOrdered(front, e);
      forall k
        ensures Get(Bare(d), k) == Overridden(None, Get(d, k))
      {
        BareGet(front, e, k);
      }
    }
  }

  lemma BareOrdered(front: Data, e: Entry<Item>)
    requires Ordered(front + [e]) && Ordered(Bare(front))
    requires forall k :: Get(Bare(front), k) == Overridden(None, Get(front, k))
    ensures Ordered(Bare(front + [e]))
  {
    hide Bare, Get, SortedKeys, Distinct, CopiedUser, Has;
    var b := Bare(front);
    BareNext(front, e);
    GetLast(front, e, e.key);
    GetAbsent(front, e.key);
    GetAbsent(b, e.key);
    if CopiedUser(e.value).Some? {
      BareBefore(front, e);
      AppendSorted(b, Entry(e.key, Item(e.value.kind, CopiedUser(e.value), None, None)));
    } else {
      assert b + [] == b;
    }
  }

  lemma BareBefore(front: Data, e: Entry<Item>)
    requires SortedKeys(front + [e]) && Distinct(Bare(front))
    requires forall k :: Get(Bare(front), k) == Overridden(None, Get(front, k))
    ensures forall i :: 0 <= i < |Bare(front)| ==> KeyLeq(Bare(front)[i].key, e.key)
  {
    hide KeyLeq, CopiedUser, Bare;
    forall i | 0 <= i < |Bare(front)|
      ensures KeyLeq(Bare(front)[i].key, e.key)
    {
      GetAt(Bare(front), i);
      GetItem(front, Bare(front)[i].key);
      var j :| 0 <= j < |front| && front[j].key == Bare(front)[i].key;
      assert (front + [e])[j] == front[j] && (front + [e])[|front|] == e;
    }
  }

  lemma BareGet(front: Data, e: Entry<Item>, k: Key)
    requires Distinct(front + [e]) && Ordered(Bare(front + [e]))
    requires forall k :: Get(Bare(front), k) == Overridden(None, Get(front, k))
    ensures Get(Bare(front + [e]), k) == Overridden(None, Get(front + [e], k))
  {
    hide Bare, Get, SortedKeys, Distinct, CopiedUser, Has;
    var b := Bare(front);
    BareNext(front, e);
    GetLast(front, e, k);
    if CopiedUser(e.value).Some? {
      GetLast(b, Entry(e.key, Item(e.value.kind, CopiedUser(e.value), None, None)), k);
    } else {
      assert b + [] == b;
      GetLast(front, e, e.key);
      GetAbsent(front, e.key);
    }
  }

  /** Applied over nothing, the user values are all there is. */
  lemma ApplyToEmpty(s: Data)
    requires Ordered(s)
    ensures ApplyData([], s) == if StraysIn(s) then None else Some(Bare(s))
  {
    ApplyLaw([], s);
    BareLaw(s);
    if !StraysIn(s) {
      SameMap(ApplyData([], s).value, Bare(s));
    }
  }

  /** A copy is copied to its like. */
  lemma {:induction false} CopiedTwice(kind: Kind, s: Setting)
    ensures Copied(kind, s).Some? ==> Copied(kind, Copied(kind, s).value) == Copied(kind, s)
    decreases s, 1
  {
    if kind == Kind.Object && s.Nested? {
      BareTwice(s.data);
    } else if kind == Kind.Array && s.List? {
      forall i | 0 <= i < |s.objects|
        ensures Bare(Bare(s.objects[i].data)) == Bare(s.objects[i].data)
      {
        BareTwice(s.objects[i].data);
      }
      assert BareAll(BareAll(s.objects)) == BareAll(s.objects);
    }
  }

  lemma {:induction false} BareTwice(d: Data)
    ensures Bare(Bare(d)) == Bare(d)
    decreases d, 0
  {
    if d != [] {
      var front, e := d[..|d| - 1], d[|d| - 1];
      assert d == front + [e];
      BareTwice(front);
      BareNext(front, e);
      if e.value.user.Some? {
        CopiedTwice(e.value.kind, e.value.user.value);
      }
      var c := CopiedUser(e.value);
      if c.Some? {
        BareNext(Bare(front), Entry(e.key, Item(e.value.kind, c, None, None)));
      } else {
        assert Bare(front) + [] == Bare(front);
      }
    }
  }

  // ---- When a copy is good ----

  /** The other two slots of an item read as they did. */
  predicate OthersRead(was: Option<Item>, now: Item) {
    was.Some? ==>
      && Read(now.kind, now.default) == Read(was.value.kind, was.value.default)
      && Read(now.kind, now.autoselect) == Read(was.value.kind, was.value.autoselect)
  }

  /** The type leaves the other slots of an item readable as they were. */
  predicate Agrees(was: Option<Item>, kind: Kind) {
    was.Some? && (was.value.default.Some? || was.value.autoselect.Some?) ==> was.value.kind == kind
  }

  /**
    * For a name with a value to copy: the target reads it as a value, and its other slots as before, exactly when the
    * source's type is the user value's kind and the target's type, if it has other slots, already was that kind.
    */
  lemma CopyReadsIff(t: Option<Item>, s: Item)
    requires CopiedUser(s).Some?
    ensures var now := Overridden(t, Some(s)).value;
      (Read(now.kind, now.user).Value? <==> s.kind == KindOf(s.user.value)) && (OthersRead(t, now) <==> Agrees(t, s.kind))
  {
    assert KindOf(CopiedUser(s).value) == KindOf(s.user.value);
  }

  /** A default string is lost to a number applied under its name. */
  lemma DefaultMisread(name: Key) returns (t: Data, s: Data)
    ensures t == SetDefault([], name, Text([120])) && s == SetUser([], name, Int(5))
    ensures Get(t, name).Some? && StringOf(Get(t, name).value.kind, Get(t, name).value.default) == Some([120])
    ensures ApplyData(t, s).Some? && Get(ApplyData(t, s).value, name).Some?
    ensures var now := Get(ApplyData(t, s).value, name).value;
      StringOf(now.kind, now.default) == Some([]) && Read(now.kind, now.default) == Foreign(Kind.Number, Text([120]))
  {
    var was, given := Item(Kind.Text, None, Some(Text([120])), None), Item(Kind.Number, Some(Int(5)), None, None);
    t := [Entry(name, was)];
    s := [Entry(name, given)];
    assert Get(t, name) == Some(was) && Get(s, name) == Some(given);
    assert !StraysIn(s) && !Blocked(t, s);
    ApplyLaw(t, s);
  }

  /** A number whose name then gets an autoselect object is released as an object when another number is applied. */
  lemma NumberReleasedAsObject(name: Key) returns (t: Data, s: Data)
    ensures t == SetAutoselect(SetUser([], name, Int(5)), name, Nested([])) && s == SetUser([], name, Int(6))
    ensures !StraysIn(s) && ApplyData(t, s).None?
  {
    var was := Item(Kind.Object, Some(Int(5)), None, Some(Nested([])));
    var given := Item(Kind.Number, Some(Int(6)), None, None);
    assert SetUser([], name, Int(5)) == [Entry(name, Item(Kind.Number, Some(Int(5)), None, None))];
    t := [Entry(name, was)];
    s := [Entry(name, given)];
    assert Get(t, name) == Some(was);
    var front: Data := [];
    assert s == front + [Entry(name, given)] && !StraysIn(s);
    assert CopiedUser(given) == Some(Int(6)) && !UserReleasable(Some(was));
    BlockedNext(t, front, Entry(name, given));
    ApplyLaw(t, s);
  }

  // ---- Copies in JSON ----

  /** No null reference at any depth that a copy reaches; copy_item passes over them. */
  predicate NoNulls(d: Data)
    decreases d, 0
  {
    forall i :: 0 <= i < |d| && d[i].value.user.Some? ==> NotNull(d[i].value.kind, d[i].value.user.value)
  }

  predicate NotNull(kind: Kind, s: Setting)
    decreases s, 1
  {
    if Direct(kind) then true
    else if s.NoObject? || s.NoArray? then false
    else if kind == Kind.Object then s.Nested? ==> NoNulls(s.data)
    else s.List? ==> forall i :: 0 <= i < |s.objects| ==> NoNulls(s.objects[i].data)
  }

  /** What copying follows, exporting follows. */
  lemma {:induction false} FollowedIff(d: Data, m: Machine)
    requires Typed(m)
    ensures Followed(d, m) <==> !StraysIn(d)
    decreases d, 0
  {
    forall i | 0 <= i < |d|
      ensures ItemJson(d[i].value, m).Stray? <==>
        d[i].value.user.Some? && Strays(d[i].value.kind, d[i].value.user.value)
    {
      if d[i].value.user.Some? {
        WriterStrays(d[i].value.kind, d[i].value.user.value, m);
      }
    }
  }

  lemma {:induction false} WriterStrays(kind: Kind, s: Setting, m: Machine)
    requires Typed(m)
    ensures ItemJson(Item(kind, Some(s), None, None), m).Stray? <==> Strays(kind, s)
    ensures forall item: Item :: item.kind == kind && item.user == Some(s) ==>
      ItemJson(item, m) == ItemJson(Item(kind, Some(s), None, None), m)
    decreases s, 1
  {
    if Direct(kind) {
      assert KindOf(m(kind, s)) == kind;
    } else if kind == Kind.Object && s.Nested? {
      FollowedIff(s.data, m);
      ExportDefined(s.data, m);
    } else if kind == Kind.Array && s.List? {
      AllExported(s.objects, m);
    }
  }

  lemma {:induction false} AllExported(ds: seq<Store>, m: Machine)
    requires Typed(m)
    ensures ExportAll(ds, m).None? <==> exists i :: 0 <= i < |ds| && StraysIn(ds[i].data)
    decreases ds, 0
  {
    if ds != [] {
      FollowedIff(ds[0].data, m);
      ExportDefined(ds[0].data, m);
      AllExported(ds[1..], m);
      assert forall i :: 0 < i < |ds| ==> ds[i] == ds[1..][i - 1];
      assert forall i :: 0 <= i < |ds[1..]| ==> ds[1..][i] == ds[i + 1];
    }
  }

  /** A copy is written as the same JSON, where it is written at all and no null reference is passed over. */
  lemma {:induction false} CopyExports(d: Data, m: Machine)
    requires !StraysIn(d) && NoNulls(d)
    ensures Export(Bare(d), m) == Export(d, m)
    decreases d, 0
  {
    if d != [] {
      var front, e := d[..|d| - 1], d[|d| - 1];
      assert d == front + [e];
      StraysNext(front, e);
      assert NoNulls(front) by { assert forall i :: 0 <= i < |front| ==> front[i] == d[i]; }
      CopyExports(front, m);
      assert d[|front|] == e;
      var c := CopiedUser(e.value);
      if e.value.user.Some? {
        CopyWrites(e.value.kind, e.value.user.value, m);
      }
      hide Export, Bare, ItemJson, CopiedUser;
      BareNext(front, e);
      ExportNext(front, e, m);
      if c.Some? {
        ExportNext(Bare(front), Entry(e.key, Item(e.value.kind, c, None, None)), m);
        SameWriter(e.value, m);
        SameWriter(Item(e.value.kind, c, None, None), m);
      } else {
        assert Bare(front) + [] == Bare(front);
        NothingWritten(e.value, m);
      }
    }
  }

  lemma SameWriter(item: Item, m: Machine)
    ensures ItemJson(item, m) == ItemJson(Item(item.kind, item.user, None, None), m)
  {
  }

  lemma NothingWritten(item: Item, m: Machine)
    requires item.user.None?
    ensures ItemJson(item, m).Unset?
  {
  }

  lemma {:induction false} CopyWrites(kind: Kind, s: Setting, m: Machine)
    requires !Strays(kind, s) && NotNull(kind, s)
    ensures Copied(kind, s).Some?
    ensures ItemJson(Item(kind, Copied(kind, s), None, None), m) == ItemJson(Item(kind, Some(s), None, None), m)
    decreases s, 1
  {
    if kind == Kind.Object {
      CopyExports(s.data, m);
    } else if kind == Kind.Array {
      CopiesExport(s.objects, m);
    }
  }

  lemma {:induction false} CopiesExport(ds: seq<Store>, m: Machine)
    requires forall i :: 0 <= i < |ds| ==> !StraysIn(ds[i].data) && NoNulls(ds[i].data)
    ensures ExportAll(BareAll(ds), m) == ExportAll(ds, m)
    decreases ds, 0
  {
    if ds != [] {
      CopyExports(ds[0].data, m);
      assert forall i :: 0 <= i < |ds[1..]| ==> ds[1..][i] == ds[i + 1];
      CopiesExport(ds[1..], m);
      assert BareAll(ds)[1..] == BareAll(ds[1..]);
    }
  }

  /** A null object is written and not copied. */
  lemma NullNotCopied(m: Machine) returns (d: Data)
    ensures !StraysIn(d) && Export(d, m) == Some([Entry([110], Object([]))]) && Export(Bare(d), m) == Some([])
  {
    d := [Entry([110], Item(Kind.Object, Some(NoObject), None, None))];
    AsciiIsUtf8([110]);
    assert d[..0] == [] && Bare(d) == [];
    assert ItemJson(d[0].value, m) == Wrote(Object([]));
  }
}
