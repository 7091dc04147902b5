/**
  * The scanner of deps/jansson/src/pack_unpack.c and its interpreters json_pack and json_unpack. That the
  * preconditions of NextToken and PrevToken are met everywhere says, for every format, that the
  * scanner never reads past the format's end and never pushes back twice without a read between.
  */
module PackScanner {
  import opened Bytes
  import opened Utf8
  import opened OrderedMap
  import opened JsonValue
  import opened PackFormat

  class Scanner {
    const fmt: seq<byte>
    var at: nat              // s->fmt as an index; the zero byte at the end stands at |fmt|
    var token: byte
    var prev: byte
    var next: Option<byte>   // the token pushed back

    ghost predicate Valid()
      reads this
    {
      && 0 !in fmt && at <= |fmt| + 1
      && (at == |fmt| + 1 ==> next == Some(0) || (next.None? && token == 0))
      && (next == Some(0) ==> at == |fmt| + 1)
    }

    /** The next read stays within the format. */
    ghost predicate Live()
      reads this
    {
      next.Some? || at <= |fmt|
    }

    /** The tokens still to be read. */
    ghost function Rest(): seq<byte>
      reads this
    {
      (if next.Some? && next.value != 0 then [next.value] else []) + Tokens(if at <= |fmt| then fmt[at..] else [])
    }

    /** The current token and the rest. */
    ghost function Current(): seq<byte>
      reads this
    {
      if token == 0 then [] else [token] + Rest()
    }

    /** scanner_init */
    constructor (fmt: seq<byte>)
      requires 0 !in fmt
      ensures Valid() && Live() && this.fmt == fmt && Rest() == Tokens(fmt) && next.None?
    {
      this.fmt := fmt;
      at, token, prev, next := 0, 0, 0, None;
      new;
      assert fmt[0..] == fmt;
    }

    /** Past the blanks, commas and colons. */
    method SkipIgnored() returns (t: nat)
      requires at <= |fmt|
      ensures at <= t <= |fmt| && Tokens(fmt[at..]) == Tokens(fmt[t..]) && (t < |fmt| ==> !Ignored(fmt[t]))
    {
      t := at;
      while t < |fmt| && Ignored(fmt[t])
        invariant at <= t <= |fmt| && Tokens(fmt[at..]) == Tokens(fmt[t..])
      {
        assert fmt[t..][1..] == fmt[t + 1..];
        t := t + 1;
      }
    }

    /** next_token */
    method NextToken()
      requires Valid() && Live()
      modifies this
      ensures Valid() && next.None? && prev == old(token)
      ensures token == Head(old(Rest())) && Rest() == Next(old(Rest())) && (token == 0 ==> at == |fmt| + 1)
      ensures Current() == old(Rest()) && (token == 0 <==> old(Rest()) == [])
    {
      NoZero(if at <= |fmt| then fmt[at..] else []);
      prev := token;
      if next.Some? {
        token := next.value;
        next := None;
        return;
      }
      var t := SkipIgnored();
      if t < |fmt| {
        assert fmt[t..][1..] == fmt[t + 1..];
        token := fmt[t];
      } else {
        token := 0;
      }
      at := t + 1;
    }

    /** prev_token */
    method PrevToken()
      requires Valid() && next.None? && (token == 0 ==> at == |fmt| + 1)
      modifies this
      ensures Valid() && token == old(prev) && next == Some(old(token))
      ensures Rest() == old(Current())
    {
      next := Some(token);
      token := prev;
    }

    /** A look at the next token: a read and a push-back. */
    method Peek() returns (t: byte)
      requires Valid() && token != 0
      modifies this
      ensures Valid() && token == old(token) && t == Head(Rest()) && Rest() == old(Rest()) && next.Some?
    {
      NextToken();
      t := token;
      PrevToken();
    }
  }

  lemma {:induction false} NoZero(fmt: seq<byte>)
    requires 0 !in fmt
    ensures 0 !in Tokens(fmt)
  {
    if fmt != [] {
      NoZero(fmt[1..]);
    }
  }

  /** What an interpreter did, against the format language's own account of it. */
  ghost predicate Follows<T, A>(spec: Step<T, A>, r: Outcome<T>, left: seq<A>, s: Scanner)
    reads s
  {
    match spec
    case Fail => r.Failed?
    case Mismatch => r.Stuck?
    case Done(v, rest, args) => r == Ok(v) && left == args && s.Valid() && s.token != 0 && s.Rest() == rest
  }

  // ---- json_pack ----

  /** read_string */
  method ReadString(s: Scanner, args: seq<Arg>) returns (r: Outcome<Option<seq<byte>>>, left: seq<Arg>)
    requires s.Valid() && s.token != 0
    modifies s
    ensures Follows(PackFormat.ReadString(old(s.Rest()), args), r, left, s)
  {
    hide Tokens;
    var t := s.Peek();
    if t != 35 && t != 37 && t != 43 {
      if args == [] || !args[0].AString? {
        return Stuck, args;
      }
      left := args[1..];
      match args[0].text
      case None => return Ok(None), left;
      case Some(str) =>
        var text := CString(str);
        var ok := CheckString(text);
        return Ok(if ok then Some(text) else None), left;
    }
    r, left := ReadParts(s, args);
  }

  /** read_string's loop over parts. */
  method ReadParts(s: Scanner, args: seq<Arg>) returns (r: Outcome<Option<seq<byte>>>, left: seq<Arg>)
    requires s.Valid() && s.token != 0
    modifies s
    ensures Follows(PackFormat.ReadParts(old(s.Rest()), args, []), r, left, s)
  {
    hide Tokens;
    var buffer: seq<byte> := [];
    left := args;
    while true
      invariant s.Valid() && s.token != 0
      invariant PackFormat.ReadParts(old(s.Rest()), args, []) == PackFormat.ReadParts(s.Rest(), left, buffer)
      decreases |s.Rest()|
    {
      if left == [] || !left[0].AString? {
        return Stuck, left;
      }
      if left[0].text.None? {
        return Ok(None), left[1..];
      }
      var str := left[0].text.value;
      left := left[1..];
      s.NextToken();
      if s.token == 35 {
        if left == [] || !left[0].AInt? || !(0 <= left[0].value <= |str|) {
          return Stuck, left;
        }
        buffer := buffer + str[..left[0].value];
        left := left[1..];
      } else if s.token == 37 {
        if left == [] || !left[0].ASize? || left[0].size > |str| {
          return Stuck, left;
        }
        buffer := buffer + str[..left[0].size];
        left := left[1..];
      } else {
        s.PrevToken();
        buffer := buffer + CString(str);
      }
      s.NextToken();
      if s.token != 43 {
        s.PrevToken();
        var ok := CheckString(buffer);
        return Ok(if ok then Some(buffer) else None), left;
      }
    }
  }

  /** pack */
  method Pack(s: Scanner, args: seq<Arg>) returns (r: Outcome<Json>, left: seq<Arg>)
    requires s.Valid() && s.next.None? && (s.token == 0 ==> s.at == |s.fmt| + 1)
    modifies s
    ensures Follows(PackValue(old(s.Current()), args), r, left, s)
    decreases |s.Current()|, 1
  {
    hide Tokens, PackPairs, PackItems, PackFormat.ReadString;
    left := args;
    assert s.token != 0 ==> s.Current()[1..] == s.Rest();
    match s.token {
      case 123 =>
        r, left := PackObject(s, args);
      case 91 =>
        r, left := PackArray(s, args);
      case 115 =>
        r, left := PackString(s, args);
      case 110 =>
        r := Ok(Null);
      case 98 =>
        if args == [] || !args[0].AInt? {
          return Stuck, args;
        }
        r, left := Ok(if args[0].value != 0 then True else False), args[1..];
      case 105 =>
        if args == [] || !args[0].AInt? {
          return Stuck, args;
        }
        r, left := Ok(Integer(args[0].value)), args[1..];
      case 73 =>
        if args == [] || !args[0].AWide? {
          return Stuck, args;
        }
        r, left := Ok(Integer(args[0].value)), args[1..];
      case 102 =>
        if args == [] || !args[0].AReal? {
          return Stuck, args;
        }
        r, left := Ok(Real(args[0].lexeme)), args[1..];
      case 79 =>
        r, left := PackJson(s, args);
      case 111 =>
        r, left := PackJson(s, args);
      case _ =>
        r := Failed;
    }
  }

  /** The cases 'O' and 'o': a value, or null where the format allows it. */
  method PackJson(s: Scanner, args: seq<Arg>) returns (r: Outcome<Json>, left: seq<Arg>)
    requires s.Valid() && s.next.None? && (s.token == 79 || s.token == 111)
    modifies s
    ensures Follows(PackValue(old(s.Current()), args), r, left, s)
  {
    hide Tokens, PackPairs, PackItems, PackFormat.ReadString;
    assert s.Current()[1..] == s.Rest();
    left := args;
    s.NextToken();
    var nullable := s.token == 63;
    if !nullable {
      s.PrevToken();
    }
    if args == [] || !args[0].AJson? {
      return Stuck, args;
    }
    left := args[1..];
    if args[0].json.None? {
      r := if nullable then Ok(Null) else Failed;
    } else {
      r := Ok(args[0].json.value);
    }
  }

  /** pack_string */
  method PackString(s: Scanner, args: seq<Arg>) returns (r: Outcome<Json>, left: seq<Arg>)
    requires s.Valid() && s.next.None? && s.token == 115
    modifies s
    ensures Follows(PackValue(old(s.Current()), args), r, left, s)
  {
    hide Tokens, PackPairs, PackItems, PackFormat.ReadString;
    assert s.Current()[1..] == s.Rest();
    assert s.Rest() != [] ==> s.Current()[2..] == Next(s.Rest());
    s.NextToken();
    var nullable := s.token == 63;
    if !nullable {
      s.PrevToken();
    }
    var str;
    str, left := ReadString(s, args);
    match str
    case Failed => r := Failed;
    case Stuck => r := Stuck;
    case Ok(None) => r := if nullable then Ok(Null) else Failed;
    case Ok(Some(v)) => r := Ok(String(v));
  }

  /** pack_object */
  method PackObject(s: Scanner, args: seq<Arg>) returns (r: Outcome<Json>, left: seq<Arg>)
    requires s.Valid() && s.next.None? && s.token == 123
    modifies s
    ensures Follows(PackPairs(old(s.Rest()), args, []), r, left, s)
    decreases |s.Current()|, 0
  {
    hide Tokens, PackValue, PackFormat.ReadString, Set;
    ghost var spec := PackPairs(s.Rest(), args, []);
    ghost var bound := |s.Current()|;
    var members: seq<Entry<Json>> := [];
    left := args;
    s.NextToken();
    while s.token != 125
      invariant s.Valid() && s.next.None? && (s.token == 0 ==> s.at == |s.fmt| + 1)
      invariant |s.Current()| < bound && spec == PackPairs(s.Current(), left, members)
      decreases |s.Current()|
    {
      if s.token != 115 {
        return Failed, left;
      }
      assert s.Current()[1..] == s.Rest();
      ReadShrinks(s.Rest(), left);
      var key;
      key, left := ReadString(s, left);
      if key.Failed? || key == Ok(None) {
        return Failed, left;
      }
      if key.Stuck? {
        return Stuck, left;
      }
      s.NextToken();
      var value;
      value, left := Pack(s, left);
      if value.Failed? {
        return Failed, left;
      }
      if value.Stuck? {
        return Stuck, left;
      }
      members := Set(members, CString(key.value.value), value.value);
      s.NextToken();
    }
    assert s.Current()[1..] == s.Rest();
    r := Ok(Object(members));
  }

  /** pack_array */
  method PackArray(s: Scanner, args: seq<Arg>) returns (r: Outcome<Json>, left: seq<Arg>)
    requires s.Valid() && s.next.None? && s.token == 91
    modifies s
    ensures Follows(PackItems(old(s.Rest()), args, []), r, left, s)
    decreases |s.Current()|, 0
  {
    hide Tokens, PackValue;
    ghost var spec := PackItems(s.Rest(), args, []);
    ghost var bound := |s.Current()|;
    var items: seq<Json> := [];
    left := args;
    s.NextToken();
    while s.token != 93
      invariant s.Valid() && s.next.None? && (s.token == 0 ==> s.at == |s.fmt| + 1)
      invariant |s.Current()| < bound && spec == PackItems(s.Current(), left, items)
      decreases |s.Current()|
    {
      if s.token == 0 {
        NothingPacked(left);
        return Failed, left;
      }
      var value;
      value, left := Pack(s, left);
      if value.Failed? {
        return Failed, left;
      }
      if value.Stuck? {
        return Stuck, left;
      }
      items := items + [value.value];
      s.NextToken();
    }
    assert s.Current()[1..] == s.Rest();
    r := Ok(Array(items));
  }

  lemma NothingPacked(args: seq<Arg>)
    ensures PackValue([], args).Fail?
  {
  }

  /** json_vpack_ex */
  method JsonPack(fmt: seq<byte>, args: seq<Arg>) returns (r: Outcome<Json>)
    requires 0 !in fmt
    ensures r == PackResult(Tokens(fmt), args)
  {
    hide Tokens, PackValue;
    NothingPacked(args);
    if fmt == [] {
      NoTokens();
      return Failed;
    }
    var s := new Scanner(fmt);
    s.NextToken();
    var left;
    r, left := Pack(s, args);
    if r.Ok? {
      s.NextToken();
      if s.token != 0 {
        r := Failed;
      }
    }
  }

  lemma NoTokens()
    ensures Tokens([]) == []
  {
  }

  // ---- json_unpack ----

  /** One target of a scalar. */
  method StoreInto(s: Scanner, args: seq<Slot>, f: Flags, o: Out) returns (r: Outcome<seq<Out>>, left: seq<Slot>)
    requires s.Valid() && s.token != 0
    ensures Follows(Store(s.Rest(), args, f, o), r, left, s)
  {
    left := args;
    if f.validateOnly {
      return Ok([]), left;
    }
    if args == [] || !args[0].Target? || !args[0].present {
      return Stuck, left;
    }
    return Ok([o]), args[1..];
  }

  /** unpack; without a root the format is only skipped. */
  method Unpack(s: Scanner, root: Option<Json>, args: seq<Slot>, f: Flags)
      returns (r: Outcome<seq<Out>>, left: seq<Slot>)
    requires s.Valid() && s.next.None? && (s.token == 0 ==> s.at == |s.fmt| + 1)
    modifies s
    ensures Follows(UnpackValue(old(s.Current()), root, args, f), r, left, s)
    decreases |s.Current()|, 1
  {
    hide Tokens, UnpackPairs, UnpackItems, UnpackString, Store;
    left := args;
    assert s.token != 0 ==> s.Current()[1..] == s.Rest();
    match s.token {
      case 123 =>
        if root.Some? && !root.value.Object? {
          return Failed, left;
        }
        r, left := UnpackObject(s, if root.None? then None else Some(root.value.members), args, f);
      case 91 =>
        if root.Some? && !root.value.Array? {
          return Failed, left;
        }
        r, left := UnpackArray(s, if root.None? then None else Some(root.value.items), args, f);
      case 115 =>
        if root.Some? && !root.value.String? {
          return Failed, left;
        }
        r, left := UnpackText(s, if root.None? then None else Some(root.value.text), args, f);
      case 105 =>
        if root.Some? && !root.value.Integer? {
          return Failed, left;
        }
        r, left := StoreInto(s, args, f, if root.None? then Untouched else OInt(ToInt(root.value.value)));
      case 73 =>
        if root.Some? && !root.value.Integer? {
          return Failed, left;
        }
        r, left := StoreInto(s, args, f, if root.None? then Untouched else OInt(root.value.value));
      case 98 =>
        if root.Some? && !root.value.True? && !root.value.False? {
          return Failed, left;
        }
        r, left := StoreInto(s, args, f, if root.None? then Untouched else OBool(root.value.True?));
      case 102 =>
        if root.Some? && !root.value.Real? {
          return Failed, left;
        }
        r, left := StoreInto(s, args, f, if root.None? then Untouched else ONumber(root.value));
      case 70 =>
        if root.Some? && !root.value.Real? && !root.value.Integer? {
          return Failed, left;
        }
        r, left := StoreInto(s, args, f, if root.None? then Untouched else ONumber(root.value));
      case 79 =>
        r, left := StoreInto(s, args, f, if root.None? then Untouched else OJson(root.value));
      case 111 =>
        r, left := StoreInto(s, args, f, if root.None? then Untouched else OJson(root.value));
      case 110 =>
        if root.Some? && !root.value.Null? {
          return Failed, left;
        }
        r := Ok([]);
      case _ =>
        r := Failed;
    }
  }

  /** The case 's'. */
  method UnpackText(s: Scanner, text: Option<seq<byte>>, args: seq<Slot>, f: Flags)
      returns (r: Outcome<seq<Out>>, left: seq<Slot>)
    requires s.Valid() && s.next.None? && s.token == 115
    modifies s
    ensures Follows(UnpackString(old(s.Rest()), text, args, f), r, left, s)
  {
    hide Tokens;
    left := args;
    if f.validateOnly {
      return Ok([]), left;
    }
    if args == [] || !args[0].Target? {
      return Stuck, left;
    }
    if !args[0].present {
      return Failed, left;
    }
    left := args[1..];
    s.NextToken();
    if s.token == 37 {
      if left == [] || !left[0].Target? {
        return Stuck, left;
      }
      if !left[0].present {
        return Failed, left;
      }
      left := left[1..];
      r := Ok(if text.None? then [Untouched, Untouched] else [OString(text.value), OLength(|text.value|)]);
    } else {
      s.PrevToken();
      r := Ok([if text.None? then Untouched else OString(text.value)]);
    }
  }

  /** '!' or '*', behind which only the closing token may stand. */
  method TakeFlag(s: Scanner) returns (strict: int)
    requires s.Valid() && s.next.None? && (s.token == 33 || s.token == 42)
    modifies s
    ensures s.Valid() && s.next.None? && (s.token == 0 ==> s.at == |s.fmt| + 1)
    ensures strict == if old(s.token) == 33 then 1 else -1
    ensures old(s.Current())[1..] == s.Current()
    ensures s.token != 0 ==> |s.Current()| > 0 && old(s.Current())[2..] == s.Rest()
  {
    hide Tokens;
    strict := if s.token == 33 then 1 else -1;
    assert s.Current()[1..] == s.Rest();
    assert s.Rest() != [] ==> s.Current()[2..] == Next(s.Rest());
    s.NextToken();
  }

  /** One key with its '?' and its value. */
  method UnpackMember(s: Scanner, root: Option<seq<Entry<Json>>>, key: Key, args: seq<Slot>, f: Flags)
    returns (opt: bool, r: Outcome<seq<Out>>, left: seq<Slot>)
    requires s.Valid() && s.next.None? && s.token == 115
    modifies s
    ensures opt <==> Head(old(s.Current())[1..]) == 63
    ensures var cur, value := old(s.Current()), if root.None? then None else Get(root.value, key);
      if root.Some? && value.None? && !opt then r.Failed?
      else Follows(UnpackValue(if opt then cur[2..] else cur[1..], value, args, f), r, left, s)
    decreases |s.Current()|, 0
  {
    hide Tokens, UnpackValue, Get;
    left := args;
    assert s.Current()[1..] == s.Rest();
    assert s.Rest() != [] ==> s.Current()[2..] == Next(s.Rest());
    s.NextToken();
    opt := false;
    if s.token == 63 {
      opt := true;
      s.NextToken();
    }
    var value := if root.None? then None else Get(root.value, key);
    if root.Some? && value.None? && !opt {
      r := Failed;
    } else {
      r, left := Unpack(s, value, left, f);
    }
  }

  /** unpack_object: the keys named are kept in a set, to see at the end whether any was not. */
  method UnpackObject(s: Scanner, root: Option<seq<Entry<Json>>>, args: seq<Slot>, f: Flags)
      returns (r: Outcome<seq<Out>>, left: seq<Slot>)
    requires s.Valid() && s.next.None? && s.token == 123
    modifies s
    ensures Follows(UnpackPairs(old(s.Rest()), root, args, f, [], false, []), r, left, s)
    decreases |s.Current()|, 0
  {
    hide Tokens, UnpackValue, Set, Get, AllNamed;
    ghost var spec := UnpackPairs(s.Rest(), root, args, f, [], false, []);
    ghost var bound := |s.Current()|;
    var strict := 0;
    var gotopt := false;
    var keySet: seq<Entry<()>> := [];
    var outs: seq<Out> := [];
    left := args;
    s.NextToken();
    while s.token != 125
      invariant s.Valid() && s.next.None? && (s.token == 0 ==> s.at == |s.fmt| + 1)
      invariant |s.Current()| < bound
      invariant (strict == 0 ==> spec == UnpackPairs(s.Current(), root, left, f, keySet, gotopt, outs))
      invariant strict == 0 || strict == 1 || strict == -1
      invariant strict != 0 ==>
        spec == if Head(s.Current()) != 125 || !AllNamed(root, keySet, gotopt, strict == 1) then Fail
          else Done(outs, s.Rest(), left)
      decreases |s.Current()|
    {
      if strict != 0 {
        return Failed, left;
      }
      if s.token == 33 || s.token == 42 {
        strict := TakeFlag(s);
        continue;
      }
      if s.token != 115 {
        return Failed, left;
      }
      if left == [] || !left[0].Key? {
        return Stuck, left;
      }
      if left[0].key.None? {
        return Failed, left;
      }
      var key := CString(left[0].key.value);
      var opt, os;
      opt, os, left := UnpackMember(s, root, key, left[1..], f);
      gotopt := gotopt || opt;
      if os.Failed? {
        return Failed, left;
      }
      if os.Stuck? {
        return Stuck, left;
      }
      outs := outs + os.value;
      keySet := Set(keySet, key, ());
      s.NextToken();
    }
    assert s.Current()[1..] == s.Rest();
    if strict == 0 && f.strict {
      strict := 1;
    }
    var all := CheckNamed(root, keySet, gotopt, strict == 1);
    r := if all then Ok(outs) else Failed;
  }

  /** The strict check of unpack_object. */
  method CheckNamed(root: Option<seq<Entry<Json>>>, keySet: seq<Entry<()>>, gotopt: bool, strict: bool)
      returns (all: bool)
    ensures all == AllNamed(root, keySet, gotopt, strict)
  {
    if root.Some? && strict {
      var unpacked := 0;
      if gotopt {
        for i := 0 to |root.value|
          invariant unpacked >= 0
          invariant (unpacked == 0 <==> forall j :: 0 <= j < i ==> Get(keySet, root.value[j].key).Some?)
        {
          if Get(keySet, root.value[i].key).None? {
            unpacked := unpacked + 1;
          }
        }
      } else {
        unpacked := |root.value| - |keySet|;
      }
      return unpacked == 0;
    }
    return true;
  }

  /** unpack_array */
  method UnpackArray(s: Scanner, root: Option<seq<Json>>, args: seq<Slot>, f: Flags)
      returns (r: Outcome<seq<Out>>, left: seq<Slot>)
    requires s.Valid() && s.next.None? && s.token == 91
    modifies s
    ensures Follows(UnpackItems(old(s.Rest()), root, args, f, 0, []), r, left, s)
    decreases |s.Current()|, 0
  {
    hide Tokens, UnpackValue;
    ghost var spec := UnpackItems(s.Rest(), root, args, f, 0, []);
    ghost var bound := |s.Current()|;
    var strict := 0;
    var i := 0;
    var outs: seq<Out> := [];
    left := args;
    s.NextToken();
    while s.token != 93
      invariant s.Valid() && s.next.None? && (s.token == 0 ==> s.at == |s.fmt| + 1) && i >= 0
      invariant |s.Current()| < bound && (strict == 0 ==> spec == UnpackItems(s.Current(), root, left, f, i, outs))
      invariant strict == 0 || strict == 1 || strict == -1
      invariant strict != 0 ==>
        spec == if Head(s.Current()) != 93 || (strict == 1 && root.Some? && i != |root.value|) then Fail
          else Done(outs, s.Rest(), left)
      decreases |s.Current()|
    {
      if strict != 0 {
        return Failed, left;
      }
      if s.token == 0 {
        NothingUnpacked(root, left, f, i, outs);
        return Failed, left;
      }
      if s.token == 33 || s.token == 42 {
        strict := TakeFlag(s);
        continue;
      }
      if s.token !in [123, 91, 115, 105, 73, 98, 102, 70, 79, 111, 110] {
        UnknownUnpacked(s.Current(), root, left, f, i, outs);
        return Failed, left;
      }
      if root.Some? && i >= |root.value| {
        return Failed, left;
      }
      var os;
      os, left := Unpack(s, if root.None? then None else Some(root.value[i]), left, f);
      if os.Failed? {
        return Failed, left;
      }
      if os.Stuck? {
        return Stuck, left;
      }
      outs := outs + os.value;
      s.NextToken();
      i := i + 1;
    }
    assert s.Current()[1..] == s.Rest();
    if strict == 0 && f.strict {
      strict := 1;
    }
    if root.Some? && strict == 1 && i != |root.value| {
      return Failed, left;
    }
    r := Ok(outs);
  }

  lemma NothingUnpacked(root: Option<seq<Json>>, args: seq<Slot>, f: Flags, i: nat, outs: seq<Out>)
    ensures UnpackItems([], root, args, f, i, outs).Fail?
    ensures forall j :: UnpackValue([], j, args, f).Fail?
  {
  }

  lemma UnknownUnpacked(ts: seq<byte>, root: Option<seq<Json>>, args: seq<Slot>, f: Flags, i: nat, outs: seq<Out>)
    requires ts != [] && Head(ts) !in [123, 91, 115, 105, 73, 98, 102, 70, 79, 111, 110, 93, 33, 42]
    ensures UnpackItems(ts, root, args, f, i, outs).Fail?
  {
  }

  /** json_vunpack_ex */
  method JsonUnpack(root: Option<Json>, fmt: seq<byte>, args: seq<Slot>, f: Flags) returns (r: Outcome<seq<Out>>)
    requires 0 !in fmt
    ensures r == if root.None? then Failed else UnpackResult(Tokens(fmt), root.value, args, f)
  {
    hide Tokens, UnpackValue;
    if root.None? {
      return Failed;
    }
    if fmt == [] {
      NoTokens();
      NothingUnpacked(None, args, f, 0, []);
      return Failed;
    }
    var s := new Scanner(fmt);
    s.NextToken();
    var left;
    r, left := Unpack(s, root, args, f);
    if r.Ok? {
      s.NextToken();
      if s.token != 0 {
        r := Failed;
      }
    }
  }
}
