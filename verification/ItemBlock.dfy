/**
  * One settings item of src/data.c: a single allocation that holds the struct, the name, and up to
  * three values (user, default, autoselect) one after the other at computed offsets.
  */
module ItemBlock {
  import opened Bytes
  import opened Bits
  import opened Memory

  /** enum wsc_data_type, but for the null that stands for no item. */
  datatype Kind = Text | Number | Boolean | Object | Array

  /** The three values; a value of size 0 is an absent one. */
  datatype Slots = Slots(user: seq<byte>, default: seq<byte>, autoselect: seq<byte>)

  const ALIGNMENT: nat := 32

  /** (size + alignment - 1) & ~(alignment - 1) */
  function Align(size: nat): nat {
    var up := size + (ALIGNMENT - 1);
    assert up >= And(up, ALIGNMENT - 1) by { MaskIsRemainder(up, 5); }
    up - And(up, ALIGNMENT - 1)
  }

  predicate Aligned(n: nat) {
    n % ALIGNMENT == 0
  }

  lemma AlignedSum(a: nat, b: nat)
    requires Aligned(a) && Aligned(b)
    ensures Aligned(a + b)
  {
  }

  lemma AlignRoundsUp(size: nat)
    ensures Aligned(Align(size)) && size <= Align(size) < size + ALIGNMENT
    ensures Aligned(size) ==> Align(size) == size
  {
    var up := size + (ALIGNMENT - 1);
    AlignmentIsPow2();
    MaskIsRemainder(up, 5);
    hide And, Pow2;
    RoundUp(size);
  }

  lemma AlignmentIsPow2()
    ensures Pow2(5) == ALIGNMENT
  {
  }

  lemma RoundUp(size: nat)
    ensures var up := size + (ALIGNMENT - 1);
      (up - up % ALIGNMENT) % ALIGNMENT == 0 && (size % ALIGNMENT == 0 ==> up - up % ALIGNMENT == size)
  {
    var up := size + (ALIGNMENT - 1);
    var q := up / ALIGNMENT;
    assert up - up % ALIGNMENT == ALIGNMENT * q;
    assert size % ALIGNMENT == 0 ==> q == size / ALIGNMENT;
  }

  /** get_name_align_size: the name's share of the block, so that the values start aligned. */
  function NameLength(header: nat, name: seq<byte>): (len: nat)
    ensures len >= |name| + 1 && Aligned(header + len)
  {
    AlignRoundsUp(header + |name| + 1);
    Align(header + |name| + 1) - header
  }

  /** How long a slot may be for its size: nothing for an absent value, aligned where required. */
  predicate SlotLength(len: nat, size: nat, aligned: bool) {
    if size == 0 then len == 0 else len == Align(size) || (len == size && !aligned)
  }

  /** The length fields of an item; start is where the values begin. */
  datatype Shape = Shape(start: nat, dataLen: nat, dataSize: nat, defaultLen: nat, defaultSize: nat, autoselectSize: nat) {
    function DefaultPtr(): nat {
      start + dataLen
    }

    function AutoselectPtr(): nat {
      DefaultPtr() + defaultLen
    }

    function Total(): nat {
      AutoselectPtr() + autoselectSize
    }

    predicate Valid() {
      && Aligned(start)
      && SlotLength(dataLen, dataSize, defaultSize > 0 || autoselectSize > 0)
      && SlotLength(defaultLen, defaultSize, autoselectSize > 0)
    }

    /** A slot of that size is at that place. */
    predicate HasAt(at: nat, size: nat) {
      || (at == start && size == dataSize) || (at == DefaultPtr() && size == defaultSize)
      || (at == AutoselectPtr() && size == autoselectSize)
    }

    /** Slots are in order, apart, and aligned. */
    lemma Layout()
      requires Valid()
      ensures start + dataSize <= DefaultPtr() && DefaultPtr() + defaultSize <= AutoselectPtr()
      ensures defaultSize > 0 ==> Aligned(DefaultPtr())
      ensures autoselectSize > 0 ==> Aligned(AutoselectPtr())
    {
      hide Align, Aligned;
      AlignRoundsUp(dataSize);
      AlignRoundsUp(defaultSize);
      if (defaultSize > 0 || autoselectSize > 0) && dataSize > 0 {
        AlignedSum(start, dataLen);
      }
      if autoselectSize > 0 && defaultSize > 0 {
        AlignedSum(DefaultPtr(), defaultLen);
      }
    }

    /** The values a block of this shape holds. */
    function Read(s: seq<byte>): (v: Slots)
      requires Valid() && Total() <= |s|
      ensures |v.user| == dataSize && |v.default| == defaultSize && |v.autoselect| == autoselectSize
    {
      Layout();
      Slots(Sub(s, start, dataSize), Sub(s, DefaultPtr(), defaultSize), Sub(s, AutoselectPtr(), autoselectSize))
    }
  }

  /** Growing the block keeps everything. */
  lemma GrownReads(sh: Shape, s: seq<byte>, longer: seq<byte>)
    requires sh.Valid() && sh.Total() <= |s| && s <= longer
    ensures sh.Read(longer) == sh.Read(s) && Sub(longer, 0, sh.start) == Sub(s, 0, sh.start)
  {
    sh.Layout();
  }

  /** Moving default and autoselect together to make the user slot dataLen long. */
  lemma MovedReads(sh: Shape, s: seq<byte>, dataLen: nat, dataSize: nat)
    requires sh.Valid() && sh.Total() <= |s|
    requires var to := sh.(dataLen := dataLen, dataSize := dataSize); to.Valid() && to.Total() <= |s|
    ensures var to := sh.(dataLen := dataLen, dataSize := dataSize);
      var moved := Patched(s, to.DefaultPtr(), Sub(s, sh.DefaultPtr(), sh.defaultLen + sh.autoselectSize));
      && to.Read(moved).default == sh.Read(s).default && to.Read(moved).autoselect == sh.Read(s).autoselect
      && Sub(moved, 0, sh.start) == Sub(s, 0, sh.start)
  {
    hide Sub, Patched, SlotLength, Aligned;
    var to := sh.(dataLen := dataLen, dataSize := dataSize);
    var len := sh.defaultLen + sh.autoselectSize;
    sh.Layout();
    to.Layout();
    SubMoved(s, to.DefaultPtr(), sh.DefaultPtr(), len, 0, sh.defaultSize);
    SubMoved(s, to.DefaultPtr(), sh.DefaultPtr(), len, sh.defaultLen, sh.autoselectSize);
    SubPatched(s, to.DefaultPtr(), Sub(s, sh.DefaultPtr(), len), 0, sh.start);
  }

  /** Copying a value into its slot. */
  lemma CopiedReads(sh: Shape, s: seq<byte>, v: seq<byte>, at: nat)
    requires sh.Valid() && sh.Total() <= |s|
    requires sh.HasAt(at, |v|)
    ensures at + |v| <= |s|
    ensures Sub(Patched(s, at, v), 0, sh.start) == Sub(s, 0, sh.start)
    ensures at == sh.start && |v| == sh.dataSize ==> sh.Read(Patched(s, at, v)) == sh.Read(s).(user := v)
    ensures at == sh.DefaultPtr() && |v| == sh.defaultSize ==> sh.Read(Patched(s, at, v)) == sh.Read(s).(default := v)
    ensures at == sh.AutoselectPtr() && |v| == sh.autoselectSize ==>
      sh.Read(Patched(s, at, v)) == sh.Read(s).(autoselect := v)
  {
    hide Sub, Patched, SlotLength, Aligned;
    sh.Layout();
    SubPatched(s, at, v, 0, sh.start);
    SubPatched(s, at, v, sh.start, sh.dataSize);
    SubPatched(s, at, v, sh.DefaultPtr(), sh.defaultSize);
    SubPatched(s, at, v, sh.AutoselectPtr(), sh.autoselectSize);
  }

  /** A new item has one slot. */
  lemma SingleSlot(sh: Shape, data: seq<byte>, defaultData: bool, autoselectData: bool)
    requires Aligned(sh.start)
    requires sh == if defaultData then Shape(sh.start, 0, 0, |data|, |data|, 0)
                   else if autoselectData then Shape(sh.start, 0, 0, 0, 0, |data|)
                     else Shape(sh.start, |data|, |data|, 0, 0, 0)
    ensures sh.Valid() && sh.HasAt(sh.start, |data|)
  {
    hide Align, Aligned;
  }

  /** A slot's length after its value got size bytes. */
  function NewLength(size: nat, aligned: bool): nat {
    if aligned then Align(size) else size
  }

  /** A slot's length once a slot behind it needs alignment. */
  function Realigned(size: nat): nat {
    if size > 0 then Align(size) else 0
  }

  function WithUser(sh: Shape, size: nat): Shape {
    sh.(dataSize := size, dataLen := NewLength(size, sh.defaultSize > 0 || sh.autoselectSize > 0))
  }

  function WithDefault(sh: Shape, size: nat): Shape {
    sh.(defaultSize := size, defaultLen := NewLength(size, sh.autoselectSize > 0), dataLen := Realigned(sh.dataSize))
  }

  function WithAutoselect(sh: Shape, size: nat): Shape {
    sh.(autoselectSize := size, dataLen := Realigned(sh.dataSize), defaultLen := Realigned(sh.defaultSize))
  }

  lemma ShapesValid(sh: Shape, size: nat)
    requires sh.Valid()
    ensures WithUser(sh, size).Valid() && WithDefault(sh, size).Valid() && WithAutoselect(sh, size).Valid()
    ensures sh.(dataSize := 0, dataLen := 0).Valid() && sh.(defaultSize := 0, defaultLen := 0).Valid()
    ensures sh.(autoselectSize := 0).Valid()
  {
    AlignRoundsUp(0);
    assert Align(0) == 0;
    hide Align, Aligned;
  }

  /** Only the autoselect slot moves: the user slot stays, and so does a present default. */
  lemma ShiftedReads(sh: Shape, to: Shape, s: seq<byte>)
    requires sh.Valid() && to.Valid() && sh.Total() <= |s| && to.Total() <= |s|
    requires to.start == sh.start && to.dataSize == sh.dataSize && to.autoselectSize == sh.autoselectSize
    requires to.defaultSize > 0 ==> to.dataLen == Realigned(to.dataSize)
    ensures var moved := Patched(s, to.AutoselectPtr(), Sub(s, sh.AutoselectPtr(), sh.autoselectSize));
      && to.Read(moved).user == sh.Read(s).user && to.Read(moved).autoselect == sh.Read(s).autoselect
      && Sub(moved, 0, sh.start) == Sub(s, 0, sh.start)
      && (sh.autoselectSize == 0 ==> moved == s)
  {
    hide Sub, Patched, Aligned;
    sh.Layout();
    to.Layout();
    if sh.autoselectSize == 0 {
      PatchedNothing(s, to.AutoselectPtr(), Sub(s, sh.AutoselectPtr(), 0));
    }
    SubMoved(s, to.AutoselectPtr(), sh.AutoselectPtr(), sh.autoselectSize, 0, sh.autoselectSize);
    SubPatched(s, to.AutoselectPtr(), Sub(s, sh.AutoselectPtr(), sh.autoselectSize), 0, sh.start);
    SubPatched(s, to.AutoselectPtr(), Sub(s, sh.AutoselectPtr(), sh.autoselectSize), sh.start, sh.dataSize);
  }

  /** Making room for an autoselect value moves neither the user nor a default value. */
  lemma RealignedReads(sh: Shape, s: seq<byte>, size: nat)
    requires sh.Valid() && WithAutoselect(sh, size).Valid()
    requires sh.Total() <= |s| && WithAutoselect(sh, size).Total() <= |s|
    ensures WithAutoselect(sh, size).Read(s).user == sh.Read(s).user
    ensures WithAutoselect(sh, size).Read(s).default == sh.Read(s).default
  {
    hide Aligned, Align;
  }

  lemma NoDefault(sh: Shape)
    requires sh.Valid()
    ensures sh.defaultSize == 0 && sh.autoselectSize == 0 ==> sh.defaultLen == 0
  {
  }

  // The bytes each setter leaves, from those before it: before, in a block grown to hold the new lengths.

  lemma UserStored(was: Shape, before: seq<byte>, grown: seq<byte>, data: seq<byte>)
    requires was.Valid() && was.Total() <= |before| && before <= grown && WithUser(was, |data|).Total() <= |grown|
    ensures was.start + |data| <= |grown| && (was.defaultSize == 0 && was.autoselectSize == 0 ==> was.defaultLen == 0)
    ensures var to := WithUser(was, |data|);
      var moved := Patched(grown, to.DefaultPtr(), Sub(grown, was.DefaultPtr(), was.defaultLen + was.autoselectSize));
      var s := Patched(moved, to.start, data);
      to.Valid() && to.Read(s) == was.Read(before).(user := data) && Sub(s, 0, was.start) == Sub(before, 0, was.start)
  {
    hide Sub, Patched, Align, Aligned, Shape.Read, Shape.Valid;
    var to := WithUser(was, |data|);
    ShapesValid(was, |data|);
    NoDefault(was);
    GrownReads(was, before, grown);
    MovedReads(was, grown, to.dataLen, to.dataSize);
    CopiedReads(to,
      Patched(grown, to.DefaultPtr(),
        Sub(grown, was.DefaultPtr(), was.defaultLen + was.autoselectSize)), data, to.start);
  }

  lemma DefaultStored(was: Shape, before: seq<byte>, grown: seq<byte>, data: seq<byte>)
    requires was.Valid() && was.Total() <= |before| && before <= grown && WithDefault(was, |data|).Total() <= |grown|
    ensures WithDefault(was, |data|).DefaultPtr() + |data| <= |grown|
    ensures var to := WithDefault(was, |data|);
      var moved := Patched(grown, to.AutoselectPtr(), Sub(grown, was.AutoselectPtr(), was.autoselectSize));
      var s := Patched(moved, to.DefaultPtr(), data);
      to.Valid() && to.Read(s) == was.Read(before).(default := data) && Sub(s, 0, was.start) == Sub(before, 0, was.start)
  {
    hide Sub, Patched, Align, Aligned, Shape.Read, Shape.Valid;
    var to := WithDefault(was, |data|);
    ShapesValid(was, |data|);
    GrownReads(was, before, grown);
    ShiftedReads(was, to, grown);
    CopiedReads(to, Patched(grown, to.AutoselectPtr(), Sub(grown, was.AutoselectPtr(), was.autoselectSize)), data,
      to.DefaultPtr());
  }

  lemma AutoselectStored(was: Shape, before: seq<byte>, grown: seq<byte>, data: seq<byte>)
    requires was.Valid() && was.Total() <= |before| && before <= grown && WithAutoselect(was, |data|).Total() <= |grown|
    ensures var to := WithAutoselect(was, |data|);
      var s := Patched(grown, to.AutoselectPtr(), data);
      to.Valid() && to.Read(s) == was.Read(before).(autoselect := data) && Sub(s, 0, was.start) == Sub(before, 0, was.start)
  {
    hide Sub, Patched, Align, Aligned, Shape.Read, Shape.Valid;
    var to := WithAutoselect(was, |data|);
    ShapesValid(was, |data|);
    GrownReads(was, before, grown);
    RealignedReads(was, grown, |data|);
    CopiedReads(to, grown, data, to.AutoselectPtr());
  }

  /** memcpy of a value, if it has bytes. */
  method CopyIn(block: array<byte>, at: nat, data: seq<byte>)
    requires at + |data| <= block.Length
    modifies block
    ensures block[..] == Patched(old(block[..]), at, data)
  {
    hide Patched;
    if |data| > 0 {
      MemCopy(block, at, data);
    } else {
      PatchedNothing(block[..], at, data);
    }
  }

  /** memmove of a value, if it has bytes. */
  method MoveTo(block: array<byte>, to: nat, from: nat, len: nat)
    requires to + len <= block.Length && from + len <= block.Length
    modifies block
    ensures block[..] == Patched(old(block[..]), to, Sub(old(block[..]), from, len))
  {
    hide Patched, Sub;
    if len > 0 {
      MemMove(block, to, from, len);
    } else {
      PatchedNothing(block[..], to, Sub(block[..], from, len));
    }
  }

  class Item {
    const header: nat         // sizeof(struct wsc_data_item)
    ghost const name: seq<byte>
    var kind: Kind
    var nameLen: nat
    var dataLen: nat
    var dataSize: nat
    var defaultLen: nat
    var defaultSize: nat
    var autoselectSize: nat
    var block: array<byte>    // the allocation; capacity is its length

    function DataPtr(): nat
      reads this
    {
      header + nameLen
    }

    function DefaultPtr(): nat
      reads this
    {
      DataPtr() + dataLen
    }

    function AutoselectPtr(): nat
      reads this
    {
      DefaultPtr() + defaultLen
    }

    function TotalSize(): nat
      reads this
    {
      header + nameLen + dataLen + defaultLen + autoselectSize
    }

    ghost function Lengths(): Shape
      reads this
    {
      Shape(DataPtr(), dataLen, dataSize, defaultLen, defaultSize, autoselectSize)
    }

    /** Every reachable item: laid out as Shape.Valid says, inside its block, its name in front. */
    ghost predicate Valid()
      reads this, block
    {
      && nameLen == NameLength(header, name)
      && Lengths().Valid() && TotalSize() <= block.Length
      && Named(Sub(block[..], 0, DataPtr()))
    }

    /** The struct's bytes are followed by the name and its zero byte. */
    ghost predicate Named(front: seq<byte>) {
      header + |name| + 1 <= |front| && front[header..header + |name| + 1] == name + [0]
    }

    ghost function Values(): (v: Slots)
      requires Valid()
      reads this, block
      ensures |v.user| == dataSize && |v.default| == defaultSize && |v.autoselect| == autoselectSize
    {
      Lengths().Read(block[..])
    }

    lemma NameInFront(s: seq<byte>, len: nat)
      requires header + |name| + 1 <= len <= |s| && Sub(s, header, |name| + 1) == name + [0]
      ensures Named(Sub(s, 0, len))
    {
      assert Sub(s, 0, len)[header..header + |name| + 1] == s[header..header + |name| + 1];
    }

    /** wsc_data_item_create */
    constructor (header: nat, name: seq<byte>, data: seq<byte>, kind: Kind, defaultData: bool, autoselectData: bool)
      ensures Valid() && fresh(block) && this.header == header && this.name == name && this.kind == kind
      ensures Values() == if defaultData then Slots([], data, [])
                          else if autoselectData then Slots([], [], data) else Slots(data, [], [])
    {
      this.header := header;
      this.name := name;
      var nameSize := NameLength(header, name);
      var bytes := new byte[header + nameSize + |data|](_ => 0);
      block := bytes;
      this.kind := kind;
      nameLen := nameSize;
      dataLen, dataSize, defaultLen, defaultSize, autoselectSize := 0, 0, 0, 0, 0;
      if defaultData {
        defaultLen, defaultSize := |data|, |data|;
      } else if autoselectData {
        autoselectSize := |data|;
      } else {
        dataLen, dataSize := |data|, |data|;
      }
      new;
      SingleSlot(Lengths(), data, defaultData, autoselectData);
      hide Align, Aligned, NameLength;
      Fill(name, data);
    }

    /** The bytes of a new item: its name and its one value. */
    method Fill(text: seq<byte>, data: seq<byte>)
      requires text == name
      requires nameLen == NameLength(header, name) && Lengths().Valid() && TotalSize() <= block.Length
      requires Lengths().HasAt(DataPtr(), |data|)
      modifies block
      ensures Valid()
      ensures DataPtr() == Lengths().start && |data| == dataSize ==> Values().user == data
      ensures DataPtr() == Lengths().DefaultPtr() && |data| == defaultSize ==> Values().default == data
      ensures DataPtr() == Lengths().AutoselectPtr() && |data| == autoselectSize ==> Values().autoselect == data
    {
      hide Align, Aligned, NameLength, Patched, Shape.Read;
      MemCopy(block, header, text + [0]);
      ghost var s := block[..];
      NameInFront(s, DataPtr());
      hide Sub;
      CopiedReads(Lengths(), s, data, DataPtr());
      MemCopy(block, DataPtr(), data);
    }

    /** wsc_data_item_ensure_capacity: the old bytes are a prefix of the new block. */
    method EnsureCapacity()
      modifies `block
      ensures TotalSize() <= block.Length && old(block[..]) <= block[..]
      ensures block == old(block) || fresh(block)
    {
      var size := TotalSize();
      if block.Length >= size {
        return;
      }
      var was := block;
      block := new byte[size](k requires 0 <= k reads was => if k < was.Length then was[k] else 0);
    }

    /** wsc_data_item_setdata */
    method SetData(data: seq<byte>, kind: Kind)
      requires Valid()
      modifies this, block
      ensures Valid() && (block == old(block) || fresh(block)) && this.kind == kind
      ensures Values() == old(Values()).(user := data)
    {
      hide Sub, Patched, Align, Aligned, NameLength, Named, Shape.Read, Shape.Valid;
      ghost var was, before := Lengths(), block[..];
      var oldDefault := DefaultPtr();
      dataSize := |data|;
      this.kind := kind;
      dataLen := if defaultSize > 0 || autoselectSize > 0 then Align(|data|) else |data|;
      assert Lengths() == WithUser(was, |data|);
      EnsureCapacity();
      UserStored(was, before, block[..], data);
      MoveTo(block, DefaultPtr(), oldDefault,
        if defaultSize > 0 || autoselectSize > 0 then defaultLen + autoselectSize else 0);
      CopyIn(block, DataPtr(), data);
    }

    /** wsc_data_item_set_default_data */
    method SetDefaultData(data: seq<byte>, kind: Kind)
      requires Valid()
      modifies this, block
      ensures Valid() && (block == old(block) || fresh(block)) && this.kind == kind
      ensures Values() == old(Values()).(default := data)
    {
      hide Sub, Patched, Align, Aligned, NameLength, Named, Shape.Read, Shape.Valid;
      ghost var was, before := Lengths(), block[..];
      var oldAutoselect := AutoselectPtr();
      this.kind := kind;
      defaultSize := |data|;
      defaultLen := if autoselectSize > 0 then Align(|data|) else |data|;
      dataLen := if dataSize > 0 then Align(dataSize) else 0;
      assert Lengths() == WithDefault(was, |data|);
      EnsureCapacity();
      DefaultStored(was, before, block[..], data);
      MoveTo(block, AutoselectPtr(), oldAutoselect, autoselectSize);
      CopyIn(block, DefaultPtr(), data);
    }

    /** wsc_data_item_set_autoselect_data */
    method SetAutoselectData(data: seq<byte>, kind: Kind)
      requires Valid()
      modifies this, block
      ensures Valid() && (block == old(block) || fresh(block)) && this.kind == kind
      ensures Values() == old(Values()).(autoselect := data)
    {
      hide Sub, Patched, Align, Aligned, NameLength, Named, Shape.Read, Shape.Valid;
      ghost var was, before := Lengths(), block[..];
      autoselectSize := |data|;
      this.kind := kind;
      dataLen := if dataSize > 0 then Align(dataSize) else 0;
      defaultLen := if defaultSize > 0 then Align(defaultSize) else 0;
      assert Lengths() == WithAutoselect(was, |data|);
      EnsureCapacity();
      AutoselectStored(was, before, block[..], data);
      CopyIn(block, AutoselectPtr(), data);
    }

    /** wsc_data_item_unset_user_value */
    method UnsetUserValue()
      requires Valid()
      modifies `dataSize, `dataLen, block
      ensures Valid() && Values() == old(Values()).(user := [])
    {
      hide Sub, Patched, Align, Aligned, NameLength, Named, Shape.Read, Shape.Valid;
      if dataSize == 0 {
        return;
      }
      ghost var was := Lengths();
      ShapesValid(was, 0);
      var oldDefault := DefaultPtr();
      dataSize := 0;
      dataLen := 0;
      MovedReads(was, block[..], 0, 0);
      if defaultSize > 0 || autoselectSize > 0 {
        MemMove(block, DefaultPtr(), oldDefault, defaultLen + autoselectSize);
      }
    }

    /** clear_item */
    method Clear()
      requires Valid()
      modifies `dataSize, `dataLen, block
      ensures Valid() && Values() == old(Values()).(user := [])
    {
      hide Sub, Patched, Align, Aligned, NameLength, Named, Shape.Read;
      Lengths().Layout();
      if dataLen > 0 {
        ghost var was := Lengths();
        ShapesValid(was, 0);
        hide Shape.Valid;
        var size := defaultLen + autoselectSize;
        MovedReads(was, block[..], 0, 0);
        if size > 0 {
          MemMove(block, DataPtr(), DataPtr() + dataLen, size);
        }
        dataSize := 0;
        dataLen := 0;
      }
      assert Values().user == [];
    }

    /** wsc_data_item_unset_default_value */
    method UnsetDefaultValue()
      requires Valid()
      modifies `defaultSize, `defaultLen, block
      ensures Valid() && Values() == old(Values()).(default := [])
    {
      hide Sub, Patched, Align, Aligned, NameLength, Named, Shape.Read, Shape.Valid;
      if defaultSize == 0 {
        return;
      }
      ghost var was := Lengths();
      ShapesValid(was, 0);
      var oldAutoselect := AutoselectPtr();
      defaultSize := 0;
      defaultLen := 0;
      ShiftedReads(was, Lengths(), block[..]);
      if autoselectSize > 0 {
        MemMove(block, AutoselectPtr(), oldAutoselect, autoselectSize);
      }
      assert Values().default == [];
    }

    /** wsc_data_item_unset_autoselect_value */
    method UnsetAutoselectValue()
      requires Valid()
      modifies `autoselectSize
      ensures Valid() && Values() == old(Values()).(autoselect := [])
    {
      hide Sub, Align, Aligned, NameLength, Named, Shape.Valid;
      ShapesValid(Lengths(), 0);
      autoselectSize := 0;
    }

    /**
      * get_item_data, as an offset into the block: the first present of user, default and
      * autoselect starts there.
      */
    method GetItemData() returns (at: Option<nat>)
      requires Valid()
      ensures at.None? <==> Values() == Slots([], [], [])
      ensures at.Some? ==> at.value + |First(Values())| <= block.Length
      ensures at.Some? ==> block[at.value..at.value + |First(Values())|] == First(Values())
    {
      if dataSize == 0 && defaultSize == 0 && autoselectSize == 0 {
        assert Values().user == Values().default == Values().autoselect == [];
        return None;
      }
      Lengths().Layout();
      assert Values().user == [] ==> dataLen == 0;
      assert Values().user == Values().default == [] ==> defaultLen == 0;
      return Some(DataPtr());
    }

    /** get_item_default_data */
    method GetItemDefaultData() returns (at: Option<nat>)
      requires Valid()
      ensures at.None? <==> Values().default == []
      ensures at.Some? ==>
        at.value + defaultSize <= block.Length && block[at.value..at.value + defaultSize] == Values().default
    {
      Lengths().Layout();
      assert Values().default == [] <==> defaultSize == 0;
      return if defaultSize > 0 then Some(DefaultPtr()) else None;
    }

    /** get_item_autoselect_data */
    method GetItemAutoselectData() returns (at: Option<nat>)
      requires Valid()
      ensures at.None? <==> Values().autoselect == []
      ensures at.Some? ==>
        at.value + autoselectSize <= block.Length && block[at.value..at.value + autoselectSize] == Values().autoselect
    {
      return if autoselectSize > 0 then Some(AutoselectPtr()) else None;
    }
  }

  /** The value a plain getter reads. */
  function First(v: Slots): seq<byte> {
    if v.user != [] then v.user else if v.default != [] then v.default else v.autoselect
  }
}
