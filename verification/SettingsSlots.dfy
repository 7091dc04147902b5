/** What the three setters of src/data.c leave in the slots of an item, call by call and over whole runs. */
module SettingsSlots {
  import opened Bytes
  import opened OrderedMap
  import opened SortedMap
  import opened Settings

  datatype Slot = User | Default | Autoselect

  /** A call of wsc_data_set_*, wsc_data_set_default_* or wsc_data_set_autoselect_*. */
  datatype Call = Call(slot: Slot, name: Key, value: Setting)

  function Perform(d: Data, c: Call): Data {
    match c.slot
    case User => SetUser(d, c.name, c.value)
    case Default => SetDefault(d, c.name, c.value)
    case Autoselect => SetAutoselect(d, c.name, c.value)
  }

  /** What a slot of a name holds. */
  function Holds(d: Data, name: Key, slot: Slot): Option<Setting> {
    match Get(d, name)
    case None => None
    case Some(item) =>
      match slot
      case User => item.user
      case Default => item.default
      case Autoselect => item.autoselect
  }

  /** The type of a name's item. */
  function TypeOf(d: Data, name: Key): Option<Kind> {
    match Get(d, name)
    case None => None
    case Some(item) => Some(item.kind)
  }

  /** A default value of one type does nothing to an item of another; every other call counts. */
  predicate Heeded(current: Option<Kind>, c: Call) {
    c.slot.Default? && current.Some? ==> current.value == KindOf(c.value)
  }

  /**
    * A call that counts puts its value into its own slot and gives the item the value's type; one
    * that does not changes nothing. No call changes another slot or another name.
    */
  lemma SetterLaw(d: Data, c: Call)
    requires Ordered(d)
    ensures Ordered(Perform(d, c))
    ensures Heeded(TypeOf(d, c.name), c) <==> TypeOf(Perform(d, c), c.name) == Some(KindOf(c.value))
    ensures Heeded(TypeOf(d, c.name), c) ==> Holds(Perform(d, c), c.name, c.slot) == Some(c.value)
    ensures !Heeded(TypeOf(d, c.name), c) ==> Perform(d, c) == d
    ensures forall other :: other != c.slot ==> Holds(Perform(d, c), c.name, other) == Holds(d, c.name, other)
    ensures forall k :: k != c.name ==> Get(Perform(d, c), k) == Get(d, k)
  {
    hide Put, Get, SortedKeys, Distinct;
    forall v, k
      ensures Ordered(Put(d, c.name, v)) && Get(Put(d, c.name, v), k) == if k == c.name then Some(v) else Get(d, k)
    {
      PutLaw(d, c.name, v, k);
    }
  }

  // ---- Runs ----

  /** New data after a run of calls. */
  function Performed(calls: seq<Call>): Data {
    if calls == [] then [] else Perform(Performed(calls[..|calls| - 1]), calls[|calls| - 1])
  }

  /** The type a run leaves a name: that of the last call that counted. */
  function LastType(calls: seq<Call>, name: Key): Option<Kind> {
    if calls == [] then None
    else
      var front, c := calls[..|calls| - 1], calls[|calls| - 1];
      if c.name == name && Heeded(LastType(front, name), c) then Some(KindOf(c.value)) else LastType(front, name)
  }

  /** The value that was last set in a slot of a name, by a call that counted. */
  function LastSet(calls: seq<Call>, name: Key, slot: Slot): Option<Setting> {
    if calls == [] then None
    else
      var front, c := calls[..|calls| - 1], calls[|calls| - 1];
      if c.name == name && c.slot == slot && Heeded(LastType(front, name), c) then Some(c.value)
      else LastSet(front, name, slot)
  }

  /** After any run the names are in order, and every slot of every name holds what was last set in it. */
  lemma {:induction false} SlotsHoldLastSet(calls: seq<Call>)
    ensures Ordered(Performed(calls))
    ensures forall name :: TypeOf(Performed(calls), name) == LastType(calls, name)
    ensures forall name, slot :: Holds(Performed(calls), name, slot) == LastSet(calls, name, slot)
  {
    if calls != [] {
      var front, c := calls[..|calls| - 1], calls[|calls| - 1];
      var d := Performed(front);
      SlotsHoldLastSet(front);
      SetterLaw(d, c);
      assert Performed(calls) == Perform(d, c);
      hide Perform, Performed, Ordered, Get;
      forall name
        ensures TypeOf(Performed(calls), name) == LastType(calls, name)
        ensures forall slot :: Holds(Performed(calls), name, slot) == LastSet(calls, name, slot)
      {
      }
    }
  }

  lemma NotUser(front: seq<Call>, c: Call, name: Key)
    requires c.name != name || !c.slot.User?
    ensures LastSet(front + [c], name, User) == LastSet(front, name, User)
  {
    assert (front + [c])[..|front|] == front;
  }

  lemma {:induction false} LastUserStays(calls: seq<Call>, more: seq<Call>, name: Key)
    requires forall i :: 0 <= i < |more| ==> more[i].name != name || !more[i].slot.User?
    ensures LastSet(calls + more, name, User) == LastSet(calls, name, User)
  {
    hide LastSet;
    if more == [] {
      assert calls + more == calls;
    } else {
      var last := |more| - 1;
      LastUserStays(calls, more[..last], name);
      NotUser(calls + more[..last], more[last], name);
      assert calls + more == calls + more[..last] + [more[last]];
    }
  }

  /** The user value of a run is the last one set, whatever defaults and autoselect values came between. */
  lemma UserValueStays(calls: seq<Call>, more: seq<Call>, name: Key)
    requires forall i :: 0 <= i < |more| ==> more[i].name != name || !more[i].slot.User?
    ensures Holds(Performed(calls + more), name, User) == Holds(Performed(calls), name, User)
  {
    hide Performed, LastSet, Holds, LastType, Ordered, TypeOf;
    LastUserStays(calls, more, name);
    SlotsHoldLastSet(calls);
    SlotsHoldLastSet(calls + more);
  }

  /** A default value after a user value of the same type leaves the user value to read and to export. */
  lemma DefaultBehindUser(d: Data, name: Key, user: Setting, default: Setting, m: Machine)
    requires Ordered(d) && KindOf(user) == KindOf(default)
    ensures var r := SetDefault(SetUser(d, name, user), name, default);
      && Holds(r, name, User) == Some(user) && Holds(r, name, Default) == Some(default)
      && Get(r, name).Some? && ItemJson(Get(r, name).value, m) == ToJson(user, m)
  {
    hide Put, Get, SortedKeys, Distinct, ToJson;
    var u, e := Call(User, name, user), Call(Default, name, default);
    SetterLaw(d, u);
    SetterLaw(SetUser(d, name, user), e);
    assert Perform(Perform(d, u), e) == SetDefault(SetUser(d, name, user), name, default);
  }

  /** Where all calls for a name agree in type, every value they replace can be released. */
  lemma {:induction false} OneTypeReleasable(calls: seq<Call>, name: Key, kind: Kind)
    requires forall i :: 0 <= i < |calls| && calls[i].name == name ==> KindOf(calls[i].value) == kind
    ensures LastType(calls, name).Some? ==> LastType(calls, name).value == kind
    ensures forall slot :: LastSet(calls, name, slot).Some? ==> KindOf(LastSet(calls, name, slot).value) == kind
    ensures forall slot :: Releasable(kind, LastSet(calls, name, slot))
  {
    if calls != [] {
      OneTypeReleasable(calls[..|calls| - 1], name, kind);
    }
  }
}
