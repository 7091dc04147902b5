/** The printing loops of dump.c, proved to write the texts of JsonDump. */
module JsonDumper {
  import opened Bytes
  import opened Utf8
  import opened OrderedMap
  import opened JsonValue
  import opened JsonDump
  import opened SortedMap

  /** The destination of the dump callback. */
  class Dumper {
    const flags: Flags
    var out: seq<byte>

    constructor (flags: Flags)
      ensures this.flags == flags && out == []
    {
      this.flags := flags;
      out := [];
    }

    method Emit(bytes: seq<byte>)
      modifies this
      ensures out == old(out) + bytes
    {
      out := out + bytes;
    }

    /** dump_indent: a line break and blanks, at most 32 at a time; or a single space. */
    method Indent(depth: nat, space: bool)
      modifies this
      ensures out == old(out) + IndentText(flags, depth, space)
    {
      if flags.indent > 0 {
        var n := depth * flags.indent;
        Emit([10]);
        ghost var k := 0;
        while n > 0
          invariant 0 <= n && k + n == depth * flags.indent
          invariant out == old(out) + ([10] + Spaces(k))
        {
          var cur := if n < 32 then n else 32;
          assert Spaces(k + cur) == Spaces(k) + Spaces(cur);
          Emit(Spaces(cur));
          n := n - cur;
          k := k + cur;
        }
      } else if space && !flags.compact {
        Emit([32]);
      }
    }

    /** dump_string */
    method DumpString(str: seq<byte>) returns (rc: int)
      modifies this
      ensures out == old(out) + StringOut(str, flags).text
      ensures rc == if StringOut(str, flags).ok then 0 else -1
    {
      hide NeedsEscape, EscapeText, StringBody, First;
      Emit([34]);
      ghost var base, body := out, [];
      ghost var whole := StringBody(str, [], flags);
      var start, pos, end, codepoint := 0, 0, 0, 0;
      AfterNothing(whole);
      assert str[0..] == str;
      while true
        invariant start == pos == end <= |str| && out == base + body
        invariant whole == After(body, StringBody(str[pos..], [], flags))
        decreases |str| - pos
      {
        var ok;
        ok, pos, end, codepoint := PlainRun(str, pos);
        if !ok {
          assert body + [] == body;
          Joined(old(out), [34], body);
          return -1;
        }
        var run := str[start..pos];
        if pos != start {
          Emit(run);
        }
        Joined(base, body, run);
        assert pos == start ==> run == [];
        if end == pos {
          body := body + run;
          break;
        }
        var text := Escape(codepoint);
        Emit(text);
        Joined(base, body + run, text);
        Joined(body, run, text);
        AfterTwice(body, run + text, StringBody(str[end..], [], flags));
        body := body + (run + text);
        start, pos := end, end;
      }
      Emit([34]);
      Joined(old(out), [34], body);
      Joined(old(out), [34] + body, [34]);
      return 0;
    }

    /** Moves over plain characters, up to one that must be escaped or the end. */
    method PlainRun(str: seq<byte>, start: nat) returns (ok: bool, pos: nat, end: nat, codepoint: int)
      requires start <= |str|
      ensures !ok ==> StringBody(str[start..], [], flags) == Written([], false)
      ensures ok ==> start <= pos <= end <= |str|
      ensures ok && pos == end ==> StringBody(str[start..], [], flags) == Written(str[start..pos], true)
      ensures ok && pos < end ==>
        && Scalar(codepoint)
        && StringBody(str[start..], [], flags) == After(str[start..pos] + EscapeText(codepoint), StringBody(str[end..], [], flags))
    {
      hide NeedsEscape, EscapeText, StringBody, First;
      ghost var whole := StringBody(str[start..], [], flags);
      pos, end, codepoint := start, start, 0;
      assert str[start..start] == [];
      while end < |str|
        invariant start <= pos == end <= |str|
        invariant whole == StringBody(str[pos..], str[start..pos], flags)
      {
        BodyCases(str[pos..], str[start..pos], flags);
        var next, cp := Iterate(str[pos..]);
        if next.None? {
          return false, pos, end, codepoint;
        }
        end := pos + next.value;
        codepoint := cp;
        assert str[pos..][next.value..] == str[end..];
        var must := MustEscape(codepoint);
        if must {
          return true, pos, end, codepoint;
        }
        assert str[start..end] == str[start..pos] + str[pos..][..next.value];
        pos := end;
      }
      BodyCases(str[pos..], str[start..pos], flags);
      return true, pos, end, codepoint;
    }

    method MustEscape(codepoint: int) returns (b: bool)
      ensures b == NeedsEscape(codepoint, flags)
    {
      if codepoint == 92 || codepoint == 34 || codepoint < 0x20 {
        return true;
      }
      if flags.escapeSlash && codepoint == 47 {
        return true;
      }
      return flags.ensureAscii && codepoint > 0x7F;
    }

    method Escape(codepoint: int) returns (text: seq<byte>)
      requires Scalar(codepoint)
      ensures text == EscapeText(codepoint)
    {
      match codepoint
      case 92 => text := [92, 92];
      case 34 => text := [92, 34];
      case 8 => text := [92, 98];
      case 12 => text := [92, 102];
      case 10 => text := [92, 110];
      case 13 => text := [92, 114];
      case 9 => text := [92, 116];
      case 47 => text := [92, 47];
      case _ =>
        if codepoint < 0x10000 {
          text := [92, 117] + Hex4Text(codepoint);
        } else {
          var c := codepoint - 0x10000;
          var first := 0xD800 + c / 1024;
          var last := 0xDC00 + c % 1024;
          text := [92, 117] + Hex4Text(first) + ([92, 117] + Hex4Text(last));
        }
    }

    // ---- do_dump ----

    /** do_dump; the status of writing a key is not looked at. */
    method Dump(j: Json, depth: nat) returns (rc: int)
      requires Proper(j)
      modifies this
      ensures rc == if DumpText(j, flags, depth).Some? then 0 else -1
      ensures rc == 0 ==> out == old(out) + DumpText(j, flags, depth).value
      decreases j, 2
    {
      hide PlainItems, PlainMembers, StringOut, CanonItems, CanonMembers, Sort, IntegerText;
      rc := 0;
      match j
      case Null => Emit([110, 117, 108, 108]);
      case True => Emit([116, 114, 117, 101]);
      case False => Emit([102, 97, 108, 115, 101]);
      case Integer(i) => Emit(IntegerText(i));
      case Real(t) => Emit(t);
      case String(s) => rc := DumpString(s);
      case Array(items) => rc := DumpArray(items, depth);
      case Object(members) => rc := DumpObject(members, depth);
    }

    method DumpArray(items: seq<Json>, depth: nat) returns (rc: int)
      requires forall i :: 0 <= i < |items| ==> Proper(items[i])
      modifies this
      ensures rc == if DumpText(Array(items), flags, depth).Some? then 0 else -1
      ensures rc == 0 ==> out == old(out) + DumpText(Array(items), flags, depth).value
      decreases items, 1
    {
      hide PlainItems, IndentText;
      Emit([91]);
      if |items| == 0 {
        Emit([93]);
        return 0;
      }
      Indent(depth + 1, false);
      rc := DumpItems(items, depth);
    }

    method DumpObject(members: seq<Entry<Json>>, depth: nat) returns (rc: int)
      requires Distinct(members) && forall i :: 0 <= i < |members| ==> Proper(members[i].value)
      modifies this
      ensures rc == if DumpText(Object(members), flags, depth).Some? then 0 else -1
      ensures rc == 0 ==> out == old(out) + DumpText(Object(members), flags, depth).value
      decreases members, 1
    {
      hide PlainMembers, IndentText, Sort, CanonMembers, Distinct;
      Emit([123]);
      if |members| == 0 {
        SortEmpty(members, flags);
        Emit([125]);
        return 0;
      }
      Indent(depth + 1, false);
      rc := DumpMembers(members, depth);
    }

    method DumpItems(items: seq<Json>, depth: nat) returns (rc: int)
      requires items != [] && forall i :: 0 <= i < |items| ==> Proper(items[i])
      modifies this
      ensures var t := PlainItems(CanonItems(items, flags), flags, depth);
        rc == (if t.Some? then 0 else -1) && (rc == 0 ==> out == old(out) + t.value)
      decreases items, 0
    {
      hide Plain, PlainItems, CanonItems, Canon, Proper, Behind;
      var n := |items|;
      ghost var base, body := out, [];
      ghost var all := CanonItems(items, flags);
      PrefixedNothing(PlainItems(all, flags, depth));
      assert all[0..] == all;
      for i := 0 to n
        invariant out == base + body
        invariant PlainItems(all, flags, depth) == Prefixed(body, PlainItems(all[i..], flags, depth))
      {
        ItemsStep(all, i, flags, depth);
        rc := Dump(items[i], depth + 1);
        if rc != 0 {
          return -1;
        }
        Break(i == n - 1, 93, depth);
        ghost var item := DumpText(items[i], flags, depth + 1).value;
        ghost var behind := Behind(i == n - 1, 93, flags, depth);
        Joined(base, body, item);
        Joined(base, body + item, behind);
        Joined(body, item, behind);
        PrefixedTwice(body, item + behind, PlainItems(all[i + 1..], flags, depth));
        body := body + (item + behind);
      }
      EndOfItems(all, flags, depth);
      PrefixedDone(body);
      rc := 0;
    }

    method DumpMembers(members: seq<Entry<Json>>, depth: nat) returns (rc: int)
      requires members != [] && Distinct(members) && forall i :: 0 <= i < |members| ==> Proper(members[i].value)
      modifies this
      ensures var t := PlainMembers(CanonObject(members, flags), flags, depth);
        rc == (if t.Some? then 0 else -1) && (rc == 0 ==> out == old(out) + t.value)
      decreases members, 0
    {
      hide Plain, PlainMembers, Canon, CanonObject, Proper, Sort, Behind, Separator, StringOut, Distinct, Get;
      var n := |members|;
      ghost var base, body := out, [];
      ghost var all := CanonObject(members, flags);
      PrefixedNothing(PlainMembers(all, flags, depth));
      assert all[0..] == all;
      var keys := if flags.sortKeys then Keys(Sort(members)) else Keys(members);
      for i := 0 to n
        invariant out == base + body
        invariant PlainMembers(all, flags, depth) == Prefixed(body, PlainMembers(all[i..], flags, depth))
      {
        ghost var k := OrderedAt(members, flags, i);
        MembersStep(all, i, flags, depth);
        var key := keys[i];
        var value := Get(members, key).value;
        assert value == members[k].value;
        rc := DumpMember(key, value, depth);
        if rc != 0 {
          return -1;
        }
        Break(i == n - 1, 125, depth);
        ghost var member := StringOut(key, flags).text + Separator(flags) + DumpText(value, flags, depth + 1).value;
        ghost var behind := Behind(i == n - 1, 125, flags, depth);
        Joined(base, body, member);
        Joined(base, body + member, behind);
        Joined(body, member, behind);
        PrefixedTwice(body, member + behind, PlainMembers(all[i + 1..], flags, depth));
        body := body + (member + behind);
      }
      EndOfMembers(all, flags, depth);
      PrefixedDone(body);
      rc := 0;
    }

    method DumpMember(key: Key, value: Json, depth: nat) returns (rc: int)
      requires Proper(value)
      modifies this
      ensures rc == if DumpText(value, flags, depth + 1).Some? then 0 else -1
      ensures rc == 0 ==>
        out == old(out) + (StringOut(key, flags).text + Separator(flags) + DumpText(value, flags, depth + 1).value)
      decreases value, 3
    {
      hide DumpText, StringOut;
      var _ := DumpString(key);
      Emit(Separator(flags));
      rc := Dump(value, depth + 1);
    }

    /** What stands behind an item or member. */
    method Break(last: bool, close: byte, depth: nat)
      modifies this
      ensures out == old(out) + Behind(last, close, flags, depth)
    {
      hide IndentText;
      if !last {
        Emit([44]);
        Indent(depth + 1, true);
      } else {
        Indent(depth, false);
        Emit([close]);
      }
    }
  }

  /** json_dumps */
  method JsonDumps(j: Json, flags: Flags) returns (r: Option<seq<byte>>)
    requires Proper(j)
    ensures r == Dumps(j, flags)
  {
    var d := new Dumper(flags);
    if !flags.encodeAny {
      if !j.Array? && !j.Object? {
        return None;
      }
    }
    var rc := d.Dump(j, 0);
    assert rc == 0 ==> d.out == DumpText(j, flags, 0).value;
    return if rc == 0 then Some(d.out) else None;
  }

  // ---- Facts the loops use ----

  lemma Joined(a: seq<byte>, b: seq<byte>, c: seq<byte>)
    ensures (a + b) + c == a + (b + c)
  {
  }

  lemma AfterNothing(w: Written)
    ensures After([], w) == w
  {
    assert [] + w.text == w.text;
  }

  lemma AfterTwice(a: seq<byte>, b: seq<byte>, w: Written)
    ensures After(a, After(b, w)) == After(a + b, w)
  {
    assert a + (b + w.text) == a + b + w.text;
  }

  lemma BodyCases(s: seq<byte>, run: seq<byte>, f: Flags)
    ensures s == [] ==> StringBody(s, run, f) == Written(run, true)
    ensures s != [] && First(s).None? ==> StringBody(s, run, f) == Written([], false)
    ensures s != [] && First(s).Some? ==>
      var (cp, n) := First(s).value;
      && Scalar(cp)
      && StringBody(s, run, f) ==
         if NeedsEscape(cp, f) then After(run + EscapeText(cp), StringBody(s[n..], [], f))
         else StringBody(s[n..], run + s[..n], f)
  {
    hide First, NeedsEscape, EscapeText;
    if s != [] && First(s).Some? {
      EncodeOfFirst(s);
    }
  }

  lemma SortEmpty(members: seq<Entry<Json>>, f: Flags)
    requires members == []
    ensures Canon(Object(members), f) == Object([])
  {
  }

  lemma PrefixedNothing(r: Option<seq<byte>>)
    ensures Prefixed([], r) == r
  {
    if r.Some? {
      assert [] + r.value == r.value;
    }
  }

  lemma PrefixedTwice(a: seq<byte>, b: seq<byte>, r: Option<seq<byte>>)
    ensures Prefixed(a, Prefixed(b, r)) == Prefixed(a + b, r)
  {
    if r.Some? {
      assert a + (b + r.value) == a + b + r.value;
    }
  }

  lemma PrefixedDone(a: seq<byte>)
    ensures Prefixed(a, Some([])) == Some(a)
  {
    assert a + [] == a;
  }

  lemma ItemsStep(items: seq<Json>, i: nat, f: Flags, depth: nat)
    requires i < |items|
    ensures PlainItems(items[i..], f, depth) ==
      match Plain(items[i], f, depth + 1)
      case None => None
      case Some(t) => Prefixed(t + Behind(i == |items| - 1, 93, f, depth), PlainItems(items[i + 1..], f, depth))
  {
    hide Plain, Behind;
    assert items[i..][1..] == items[i + 1..];
  }

  lemma EndOfItems(items: seq<Json>, f: Flags, depth: nat)
    ensures PlainItems(items[|items|..], f, depth) == Some([])
  {
  }

  lemma MembersStep(members: seq<Entry<Json>>, i: nat, f: Flags, depth: nat)
    requires i < |members|
    ensures PlainMembers(members[i..], f, depth) ==
      match Plain(members[i].value, f, depth + 1)
      case None => None
      case Some(t) =>
        Prefixed(StringOut(members[i].key, f).text + Separator(f) + t + Behind(i == |members| - 1, 125, f, depth),
                 PlainMembers(members[i + 1..], f, depth))
  {
    hide Plain, Behind, StringOut, Separator;
    assert members[i..][1..] == members[i + 1..];
  }

  lemma EndOfMembers(members: seq<Entry<Json>>, f: Flags, depth: nat)
    ensures PlainMembers(members[|members|..], f, depth) == Some([])
  {
  }

  /** The member written in place i: its index k, its key as sorted, its value as looked up. */
  lemma OrderedAt(members: seq<Entry<Json>>, f: Flags, i: nat) returns (k: nat)
    requires Distinct(members) && i < |members|
    ensures k < |members| && |CanonObject(members, f)| == |members|
    ensures (if f.sortKeys then Keys(Sort(members)) else Keys(members))[i] == members[k].key
    ensures CanonObject(members, f)[i] == Entry(members[k].key, Canon(members[k].value, f))
    ensures Get(members, members[k].key) == Some(members[k].value)
  {
    if f.sortKeys {
      SortDistinct(members);
      SortSorts(members);
      CanonSort(members, f);
      var e := Sort(members)[i];
      assert e in multiset(members);
      k :| 0 <= k < |members| && members[k] == e;
    } else {
      k := i;
    }
    GetAt(members, k);
  }

  /** Sorting looks at keys only, so it commutes with rewriting the values. */
  lemma {:induction false} CanonSort(members: seq<Entry<Json>>, f: Flags)
    ensures Sort(CanonMembers(members, f)) == CanonMembers(Sort(members), f)
  {
    if members != [] {
      CanonSort(members[1..], f);
      CanonInsert(members[0], Sort(members[1..]), f);
      assert CanonMembers(members, f)[1..] == CanonMembers(members[1..], f);
    }
  }

  lemma {:induction false} CanonInsert(e: Entry<Json>, m: seq<Entry<Json>>, f: Flags)
    ensures Insert(Entry(e.key, Canon(e.value, f)), CanonMembers(m, f)) == CanonMembers(Insert(e, m), f)
  {
    var c := CanonMembers(m, f);
    if m != [] && !KeyLeq(e.key, m[0].key) {
      CanonInsert(e, m[1..], f);
      assert c[1..] == CanonMembers(m[1..], f);
    } else {
      assert CanonMembers([e] + m, f) == [Entry(e.key, Canon(e.value, f))] + c;
    }
  }
}
