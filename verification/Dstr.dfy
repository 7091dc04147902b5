/** Replacing in a growing string: dstr_replace of src/external/dstr.c. */
module Dstr {
  import opened Bytes
  import opened Memory

  // ---- What is computed ----

  predicate At(s: seq<byte>, j: nat, f: seq<byte>) {
    j + |f| <= |s| && s[j..j + |f|] == f
  }

  /** Where f occurs first. */
  function Find(s: seq<byte>, f: seq<byte>): (k: Option<nat>)
    ensures k.Some? ==> At(s, k.value, f)
  {
    if |s| < |f| then None
    else if s[..|f|] == f then Some(0)
    else if s == [] then None
    else
      match Find(s[1..], f)
      case None => None
      case Some(k) => assert s[1..][k..k + |f|] == s[k + 1..k + 1 + |f|]; Some(k + 1)
  }

  lemma {:induction false} FindIsFirst(s: seq<byte>, f: seq<byte>, k: nat)
    requires k <= |s| && forall j: nat :: j < k ==> !At(s, j, f)
    ensures At(s, k, f) ==> Find(s, f) == Some(k)
    ensures k + |f| > |s| ==> Find(s, f) == None
  {
    if |s| >= |f| {
      assert At(s, 0, f) <==> s[..|f|] == f;
      if k > 0 && s != [] {
        forall j: nat | j < k - 1
          ensures !At(s[1..], j, f)
        {
          Later(s, j, f);
        }
        Later(s, k - 1, f);
        FindIsFirst(s[1..], f, k - 1);
      }
    }
  }

  lemma Later(s: seq<byte>, j: nat, f: seq<byte>)
    requires s != []
    ensures At(s[1..], j, f) <==> At(s, j + 1, f)
  {
    if j + 1 + |f| <= |s| {
      assert s[1..][j..j + |f|] == s[j + 1..j + 1 + |f|];
    }
  }

  lemma {:induction false} NoneBefore(s: seq<byte>, f: seq<byte>, j: nat)
    requires Find(s, f).Some? ==> j < Find(s, f).value
    ensures !At(s, j, f)
  {
    if |s| >= |f| && s[..|f|] != f && s != [] {
      if j > 0 {
        NoneBefore(s[1..], f, j - 1);
        Later(s, j - 1, f);
      }
    }
  }

  /** The text between the occurrences, taken from left to right without overlap. */
  function Pieces(s: seq<byte>, f: seq<byte>): (ps: seq<seq<byte>>)
    requires f != []
    ensures ps != []
    decreases |s|
  {
    match Find(s, f)
    case None => [s]
    case Some(k) => [s[..k]] + Pieces(s[k + |f|..], f)
  }

  function Join(ps: seq<seq<byte>>, sep: seq<byte>): seq<byte>
    requires ps != []
  {
    if |ps| == 1 then ps[0] else ps[0] + sep + Join(ps[1..], sep)
  }

  /** s with r in the place of every f. */
  function Replaced(s: seq<byte>, f: seq<byte>, r: seq<byte>): seq<byte>
    requires f != []
  {
    Join(Pieces(s, f), r)
  }

  /** Pieces cut at every place where f is met. */
  predicate Cut(ps: seq<seq<byte>>, f: seq<byte>)
    requires ps != []
  {
    if |ps| == 1 then Find(ps[0], f) == None else Find(ps[0] + f, f) == Some(|ps[0]|) && Cut(ps[1..], f)
  }

  /** The pieces are the one way to cut the text. */
  lemma {:induction false} PiecesAreTheCut(s: seq<byte>, f: seq<byte>, ps: seq<seq<byte>>)
    requires f != [] && ps != []
    ensures ps == Pieces(s, f) <==> Cut(ps, f) && Join(ps, f) == s
  {
    PiecesCut(s, f);
    if Cut(ps, f) && Join(ps, f) == s {
      CutIsPieces(f, ps);
    }
  }

  lemma {:induction false} PiecesCut(s: seq<byte>, f: seq<byte>)
    requires f != []
    ensures Cut(Pieces(s, f), f) && Join(Pieces(s, f), f) == s
    decreases |s|
  {
    hide Find, Pieces, Cut, Join;
    PiecesStep(s, f);
    if Find(s, f).Some? {
      var k := Find(s, f).value;
      var rest := s[k + |f|..];
      PiecesCut(rest, f);
      assert s == s[..k] + f + rest;
      FoundInPrefix(s[..k], f, rest);
      CutStep(s[..k], Pieces(rest, f), f);
      JoinStep(s[..k], Pieces(rest, f), f);
    } else {
      OnePiece(s, f);
    }
  }

  lemma CutStep(p: seq<byte>, ps: seq<seq<byte>>, f: seq<byte>)
    requires ps != []
    ensures Cut([p] + ps, f) <==> Find(p + f, f) == Some(|p|) && Cut(ps, f)
  {
    hide Find;
    assert ([p] + ps)[1..] == ps;
  }

  lemma OnePiece(s: seq<byte>, f: seq<byte>)
    requires f != []
    ensures Cut([s], f) <==> Find(s, f) == None
    ensures Join([s], f) == s
  {
  }

  /** The first occurrence does not depend on what follows it. */
  lemma FoundInPrefix(p: seq<byte>, f: seq<byte>, rest: seq<byte>)
    ensures Find(p + f + rest, f) == Some(|p|) <==> Find(p + f, f) == Some(|p|)
  {
    var s, t := p + f + rest, p + f;
    forall j: nat | j <= |p|
      ensures At(s, j, f) <==> At(t, j, f)
    {
      assert s[j..j + |f|] == t[j..j + |f|];
    }
    assert At(s, |p|, f) && At(t, |p|, f);
    hide Find;
    if Find(s, f) == Some(|p|) {
      forall j: nat | j < |p|
        ensures !At(t, j, f)
      {
        NoneBefore(s, f, j);
      }
      FindIsFirst(t, f, |p|);
    }
    if Find(t, f) == Some(|p|) {
      forall j: nat | j < |p|
        ensures !At(s, j, f)
      {
        NoneBefore(t, f, j);
      }
      FindIsFirst(s, f, |p|);
    }
  }

  lemma {:induction false} CutIsPieces(f: seq<byte>, ps: seq<seq<byte>>)
    requires f != [] && ps != [] && Cut(ps, f)
    ensures Pieces(Join(ps, f), f) == ps
  {
    hide Find;
    if |ps| > 1 {
      var rest := Join(ps[1..], f);
      FoundInPrefix(ps[0], f, rest);
      var s := ps[0] + f + rest;
      assert s[..|ps[0]|] == ps[0] && s[|ps[0]| + |f|..] == rest;
      CutIsPieces(f, ps[1..]);
    }
  }

  lemma PiecesStep(s: seq<byte>, f: seq<byte>)
    requires f != []
    ensures Find(s, f).None? ==> Pieces(s, f) == [s]
    ensures Find(s, f).Some? ==> var k := Find(s, f).value; Pieces(s, f) == [s[..k]] + Pieces(s[k + |f|..], f)
  {
    hide Find;
  }

  lemma ReplacedStep(s: seq<byte>, f: seq<byte>, r: seq<byte>)
    requires f != []
    ensures Find(s, f).None? ==> Replaced(s, f, r) == s
    ensures Find(s, f).Some? ==>
      var k := Find(s, f).value; Replaced(s, f, r) == s[..k] + r + Replaced(s[k + |f|..], f, r)
  {
    hide Find, Pieces, Join;
    PiecesStep(s, f);
    JoinOne(s, r);
    if Find(s, f).Some? {
      var k := Find(s, f).value;
      JoinStep(s[..k], Pieces(s[k + |f|..], f), r);
    }
  }

  lemma JoinOne(p: seq<byte>, sep: seq<byte>)
    ensures Join([p], sep) == p
  {
  }

  lemma JoinStep(p: seq<byte>, ps: seq<seq<byte>>, sep: seq<byte>)
    requires ps != []
    ensures Join([p] + ps, sep) == p + sep + Join(ps, sep)
  {
    assert ([p] + ps)[1..] == ps;
  }

  /** How often f is met. */
  function Times(s: seq<byte>, f: seq<byte>): nat
    requires f != []
  {
    |Pieces(s, f)| - 1
  }

  lemma {:induction false} ReplacedLength(s: seq<byte>, f: seq<byte>, r: seq<byte>)
    requires f != []
    ensures |Replaced(s, f, r)| == |s| + (|r| - |f|) * Times(s, f)
    decreases |s|
  {
    hide Find, Replaced;
    ReplacedStep(s, f, r);
    if Find(s, f).Some? {
      ReplacedLength(s[Find(s, f).value + |f|..], f, r);
    }
  }

  predicate Text(s: seq<byte>) {
    0 !in s
  }

  lemma {:induction false} ReplacedText(s: seq<byte>, f: seq<byte>, r: seq<byte>)
    requires f != [] && Text(s) && Text(r)
    ensures Text(Replaced(s, f, r))
    decreases |s|
  {
    hide Find, Replaced;
    ReplacedStep(s, f, r);
    if Find(s, f).Some? {
      ReplacedText(s[Find(s, f).value + |f|..], f, r);
    }
  }

  // ---- The string in memory ----

  /** The length field is the true length and the text ends with its only zero. */
  class Dstr {
    var buffer: array?<byte>
    var len: nat

    ghost predicate Valid()
      reads this, buffer
    {
      if buffer == null then len == 0 else len < buffer.Length && Holds(buffer, buffer[..len])
    }

    ghost function Contents(): seq<byte>
      reads this, buffer
      requires Valid()
    {
      if buffer == null then [] else buffer[..len]
    }

    constructor ()
      ensures Valid() && Contents() == []
    {
      buffer := null;
      len := 0;
    }

    /** dstr_ensure_capacity: at least size bytes, and at least doubled when it grows. */
    method EnsureCapacity(size: nat)
      requires buffer != null
      modifies this`buffer
      ensures buffer != null && buffer.Length >= size && (buffer == old(buffer) || fresh(buffer))
      ensures buffer.Length >= old(buffer.Length) && buffer[..old(buffer.Length)] == old(buffer[..])
    {
      if size > buffer.Length {
        var capacity := if size > 2 * buffer.Length then size else 2 * buffer.Length;
        var grown := new byte[capacity];
        MemCopy(grown, 0, buffer[..]);
        buffer := grown;
      }
    }

    /** Every occurrence of find, from left to right and without overlap, gives way to replace; a null one is empty. */
    method Replace(find: seq<byte>, replace: Option<seq<byte>>)
      requires Valid() && find != [] && Text(find) && (replace.Some? ==> Text(replace.value))
      modifies this, buffer
      ensures Valid() && Contents() == Replaced(old(Contents()), find, if replace.Some? then replace.value else [])
    {
      if buffer == null || len == 0 || buffer[0] == 0 {
        EmptyStays(find, if replace.Some? then replace.value else []);
        return;
      }
      var r := if replace.Some? then replace.value else [];
      hide Replaced, Holds;
      if |r| < |find| {
        Shrink(find, r);
      } else if |r| > |find| {
        Grow(find, r);
      } else {
        Keep(find, r);
      }
    }

    /** The case that keeps the length. */
    method Keep(find: seq<byte>, r: seq<byte>)
      requires Valid() && buffer != null && find != [] && Text(find) && Text(r) && |r| == |find|
      modifies buffer
      ensures Valid() && buffer != null && Contents() == Replaced(old(Contents()), find, r)
    {
      hide Replaced, Holds;
      ghost var was := buffer[..len];
      HasRoom(buffer, was);
      ReplacedLength(was, find, r);
      Overwrite(buffer, find, r, was);
      Spelled(buffer, Replaced(was, find, r));
    }

    /** The case that shortens the text. */
    method Shrink(find: seq<byte>, r: seq<byte>)
      requires Valid() && buffer != null && find != [] && Text(find) && Text(r) && |r| < |find|
      modifies this`len, buffer
      ensures Valid() && buffer != null && Contents() == Replaced(old(Contents()), find, r)
    {
      hide Replaced, Holds;
      ghost var was := buffer[..len];
      HasRoom(buffer, was);
      ReplacedLength(was, find, r);
      ReplacedShrinks(was, find, r);
      var count := Substitute(buffer, find, r, was);
      len := len + (|r| - |find|) * count;
      Spelled(buffer, Replaced(was, find, r));
    }

    /** The case that lengthens it: the occurrences are counted first, then there is room for the result. */
    method Grow(find: seq<byte>, r: seq<byte>)
      requires Valid() && buffer != null && find != [] && Text(find) && Text(r) && |r| > |find|
      modifies this, buffer
      ensures Valid() && buffer != null && Contents() == Replaced(old(Contents()), find, r)
    {
      hide Replaced, Holds;
      ghost var was := buffer[..len];
      ReplacedLength(was, find, r);
      var count := CountOf(buffer, find, was);
      if count == 0 {
        NoTimes(was, find, r);
        return;
      }
      len := len + (|r| - |find|) * count;
      ghost var before := buffer[..];
      Spelled(buffer, was);
      EnsureCapacity(len + 1);
      StillThere(buffer, before, was);
      var _ := Substitute(buffer, find, r, was);
      Spelled(buffer, Replaced(was, find, r));
    }
  }

  lemma StillThere(a: array<byte>, before: seq<byte>, s: seq<byte>)
    requires Text(s) && |s| < |before| && before[..|s|] == s && before[|s|] == 0
    requires |before| <= a.Length && a[..|before|] == before
    ensures Holds(a, s)
  {
    assert a[..|s|] == a[..|before|][..|s|];
    assert a[|s|] == a[..|before|][|s|];
  }

  lemma HasRoom(a: array<byte>, s: seq<byte>)
    requires Holds(a, s)
    ensures |s| < a.Length
  {
  }

  lemma Spelled(a: array<byte>, s: seq<byte>)
    requires Holds(a, s)
    ensures |s| < a.Length && a[..|s|] == s && a[..][..|s|] == s && a[..][|s|] == 0 && Text(s)
  {
  }

  lemma EmptyStays(f: seq<byte>, r: seq<byte>)
    requires f != []
    ensures Replaced([], f, r) == []
  {
  }

  lemma ProductSign(x: nat, y: nat)
    ensures x * y >= 0 && (0 - x) * y == -(x * y)
  {
  }

  lemma ReplacedShrinks(s: seq<byte>, f: seq<byte>, r: seq<byte>)
    requires f != [] && |r| < |f|
    ensures |Replaced(s, f, r)| <= |s|
  {
    hide Replaced, Times;
    ReplacedLength(s, f, r);
    ProductSign(|f| - |r|, Times(s, f));
  }

  lemma NoTimes(s: seq<byte>, f: seq<byte>, r: seq<byte>)
    requires f != [] && Times(s, f) == 0
    ensures Replaced(s, f, r) == s
  {
  }

  /** A text stands at the start of the array, followed by a zero. */
  ghost predicate Holds(a: array<byte>, s: seq<byte>)
    reads a
  {
    Text(s) && |s| < a.Length && a[..|s|] == s && a[|s|] == 0
  }

  method StrLen(a: array<byte>, from: nat, ghost s: seq<byte>) returns (n: nat)
    requires Holds(a, s) && from <= |s|
    ensures from + n == |s|
  {
    n := 0;
    while a[from + n] != 0
      invariant from + n <= |s|
      decreases |s| - n
    {
      n := n + 1;
    }
  }

  /** strstr: where f occurs first in the text from position from. */
  method StrStr(a: array<byte>, from: nat, f: seq<byte>, ghost s: seq<byte>) returns (at: Option<nat>)
    requires Holds(a, s) && from <= |s| && Text(f) && f != []
    ensures at == match Find(s[from..], f) { case None => None case Some(k) => Some(from + k) }
  {
    hide Find, At;
    var i := from;
    while a[i] != 0
      invariant from <= i <= |s|
      invariant forall j: nat :: j < i - from ==> !At(s[from..], j, f)
      decreases |s| - i
    {
      var m := Matches(a, i, f, s);
      AtFrom(s, from, i, f);
      if m {
        FindIsFirst(s[from..], f, i - from);
        return Some(i);
      }
      i := i + 1;
    }
    FindIsFirst(s[from..], f, |s| - from);
    return None;
  }

  lemma AtFrom(s: seq<byte>, from: nat, i: nat, f: seq<byte>)
    requires from <= i <= |s|
    ensures At(s[from..], i - from, f) <==> At(s, i, f)
  {
    if i + |f| <= |s| {
      assert s[from..][i - from..i - from + |f|] == s[i..i + |f|];
    }
  }

  method Matches(a: array<byte>, i: nat, f: seq<byte>, ghost s: seq<byte>) returns (m: bool)
    requires Holds(a, s) && i <= |s| && Text(f)
    ensures m <==> At(s, i, f)
  {
    var j := 0;
    while j < |f|
      invariant j <= |f| && i + j <= |s| && s[i..i + j] == f[..j]
    {
      assert i + j < |s| ==> a[i + j] == s[i + j];
      if a[i + j] != f[j] {
        if i + |f| <= |s| {
          assert s[i..i + |f|][j] != f[j];
        }
        return false;
      }
      assert s[i..i + j + 1] == s[i..i + j] + [s[i + j]];
      j := j + 1;
    }
    return true;
  }

  /** The number of occurrences. */
  method CountOf(a: array<byte>, f: seq<byte>, ghost s: seq<byte>) returns (count: nat)
    requires Holds(a, s) && f != [] && Text(f)
    ensures count == Times(s, f)
  {
    hide Find;
    var temp: nat := 0;
    count := 0;
    assert s[0..] == s;
    while true
      invariant temp <= |s| && Times(s, f) == count + Times(s[temp..], f)
      decreases |s| - temp
    {
      var at := StrStr(a, temp, f, s);
      if at.None? {
        return;
      }
      assert s[temp..][at.value - temp + |f|..] == s[at.value + |f|..];
      temp := at.value + |f|;
      count := count + 1;
    }
  }

  ghost predicate Begins(block: seq<byte>, t: seq<byte>) {
    |t| < |block| && block[..|t|] == t && block[|t|] == 0
  }

  lemma MovedAndCopied(was: seq<byte>, s: seq<byte>, at: nat, n: nat, r: seq<byte>)
    requires at + n <= |s| < |was| && was[..|s|] == s && was[|s|] == 0 && |s| - n + |r| < |was|
    ensures Begins(Patched(Patched(was, at + |r|, Sub(was, at + n, |s| - at - n + 1)), at, r), s[..at] + r + s[at + n..])
  {
    var t := s[..at] + r + s[at + n..];
    var now := Patched(Patched(was, at + |r|, Sub(was, at + n, |s| - at - n + 1)), at, r);
    forall k | 0 <= k <= |t|
      ensures now[k] == if k < |t| then t[k] else 0
    {
      MovedAt(was, s, at, n, r, k);
    }
    assert now[..|t|] == t;
  }

  lemma MovedAt(was: seq<byte>, s: seq<byte>, at: nat, n: nat, r: seq<byte>, k: nat)
    requires at + n <= |s| < |was| && was[..|s|] == s && was[|s|] == 0 && |s| - n + |r| < |was| && k <= |s| - n + |r|
    ensures Patched(Patched(was, at + |r|, Sub(was, at + n, |s| - at - n + 1)), at, r)[k] ==
      if k < |s| - n + |r| then (s[..at] + r + s[at + n..])[k] else 0
  {
    var tail := Sub(was, at + n, |s| - at - n + 1);
    assert forall j :: 0 <= j < |s| ==> s[j] == was[j];
    if k >= at + |r| {
      assert tail[k - at - |r|] == was[k - |r| + n];
    }
  }

  lemma TextJoined(a: seq<byte>, b: seq<byte>, c: seq<byte>)
    requires Text(a) && Text(b) && Text(c)
    ensures Text(a + b + c)
  {
  }

  /** Puts r where n bytes stand, moving what follows together with its zero. */
  method Splice(a: array<byte>, at: nat, n: nat, r: seq<byte>, ghost s: seq<byte>)
    requires Holds(a, s) && at + n <= |s| && Text(r) && |s| - n + |r| < a.Length
    modifies a
    ensures Holds(a, s[..at] + r + s[at + n..])
  {
    var rest := StrLen(a, at + n, s);
    TextJoined(s[..at], r, s[at + n..]);
    if rest != 0 {
      assert a[..][..|s|] == s;
      MovedAndCopied(a[..], s, at, n, r);
      MoveTail(a, at, n, r, rest + 1, s[..at] + r + s[at + n..]);
    } else {
      MemCopy(a, at, r + [0]);
      assert a[..at + |r|] == s[..at] + r + s[at + n..];
    }
  }

  /** memmove of the tail, then memcpy into the gap. */
  method MoveTail(a: array<byte>, at: nat, n: nat, r: seq<byte>, size: nat, ghost t: seq<byte>)
    requires at + |r| + size <= a.Length && at + n + size <= a.Length && Text(t)
    requires Begins(Patched(Patched(a[..], at + |r|, Sub(a[..], at + n, size)), at, r), t)
    modifies a
    ensures Holds(a, t)
  {
    hide *;
    MoveAndCopy(a, at + |r|, at + n, size, at, r);
    Placed(a, t);
  }

  method MoveAndCopy(a: array<byte>, to: nat, from: nat, size: nat, at: nat, r: seq<byte>)
    requires to + size <= a.Length && from + size <= a.Length && at + |r| <= a.Length
    modifies a
    ensures a[..] == Patched(Patched(old(a[..]), to, Sub(old(a[..]), from, size)), at, r)
  {
    hide *;
    MemMove(a, to, from, size);
    if |r| != 0 {
      MemCopy(a, at, r);
    } else {
      PatchedNothing(a[..], at, r);
    }
  }

  lemma Placed(a: array<byte>, t: seq<byte>)
    requires Text(t) && Begins(a[..], t)
    ensures Holds(a, t)
  {
    assert a[..][..|t|] == a[..|t|];
  }

  lemma Spans(t: seq<byte>, temp: nat, at: nat, n: nat)
    requires temp <= at && at + n <= |t|
    ensures t[temp..][at - temp + n..] == t[at + n..]
  {
  }

  lemma Behind(a: seq<byte>, r: seq<byte>, rest: seq<byte>)
    ensures (a + r + rest)[..|a| + |r|] == a + r && (a + r + rest)[|a| + |r|..] == rest
  {
  }

  lemma Joined(t: seq<byte>, temp: nat, at: nat)
    requires temp <= at <= |t|
    ensures t[..temp] + t[temp..][..at - temp] == t[..at]
  {
  }

  lemma Glued(a: seq<byte>, b: seq<byte>, r: seq<byte>, x: seq<byte>)
    ensures a + (b + r + x) == a + b + r + x
  {
  }

  /** One step of the loops: the text before temp is finished, and then that before the occurrence and r. */
  lemma Stepped(whole: seq<byte>, t: seq<byte>, temp: nat, at: nat, r: seq<byte>, x: seq<byte>, y: seq<byte>)
    requires temp <= at <= |t| && whole == t[..temp] + y && y == t[temp..][..at - temp] + r + x
    ensures whole == t[..at] + r + x
  {
    Joined(t, temp, at);
    Glued(t[..temp], t[temp..][..at - temp], r, x);
  }

  lemma ReplacedGrows(s: seq<byte>, f: seq<byte>, r: seq<byte>)
    requires f != [] && |r| >= |f|
    ensures |Replaced(s, f, r)| >= |s|
  {
    hide Replaced, Times;
    ReplacedLength(s, f, r);
    ProductSign(|r| - |f|, Times(s, f));
  }

  /** The loop of the two cases that change the length. */
  method Substitute(a: array<byte>, f: seq<byte>, r: seq<byte>, ghost s: seq<byte>) returns (count: nat)
    requires Holds(a, s) && f != [] && Text(f) && Text(r)
    requires |Replaced(s, f, r)| < a.Length
    modifies a
    ensures count == Times(s, f) && Holds(a, Replaced(s, f, r))
  {
    hide Find, Replaced, Holds;
    ghost var t := s;
    var temp: nat := 0;
    count := 0;
    assert s[0..] == s && [] + Replaced(s, f, r) == Replaced(s, f, r);
    while true
      invariant temp <= |t| && Holds(a, t)
      invariant Replaced(s, f, r) == t[..temp] + Replaced(t[temp..], f, r)
      invariant Times(s, f) == count + Times(t[temp..], f)
      decreases |t| - temp
    {
      var at := StrStr(a, temp, f, t);
      ReplacedStep(t[temp..], f, r);
      if at.None? {
        assert t[..temp] + t[temp..] == t;
        return;
      }
      Spans(t, temp, at.value, |f|);
      Stepped(Replaced(s, f, r), t, temp, at.value, r, Replaced(t[at.value + |f|..], f, r), Replaced(t[temp..], f, r));
      Behind(t[..at.value], r, t[at.value + |f|..]);
      if |r| >= |f| {
        ReplacedGrows(t[at.value + |f|..], f, r);
      }
      HasRoom(a, t);
      Splice(a, at.value, |f|, r, t);
      t := t[..at.value] + r + t[at.value + |f|..];
      temp := at.value + |r|;
      count := count + 1;
    }
  }

  /** The loop of the case that keeps the length. */
  method Overwrite(a: array<byte>, f: seq<byte>, r: seq<byte>, ghost s: seq<byte>)
    requires Holds(a, s) && f != [] && Text(f) && Text(r) && |r| == |f|
    modifies a
    ensures Holds(a, Replaced(s, f, r))
  {
    hide Find, Replaced, Holds;
    ghost var t := s;
    var temp: nat := 0;
    assert s[0..] == s && [] + Replaced(s, f, r) == Replaced(s, f, r);
    while true
      invariant temp <= |t| && Holds(a, t)
      invariant Replaced(s, f, r) == t[..temp] + Replaced(t[temp..], f, r)
      decreases |t| - temp
    {
      var at := StrStr(a, temp, f, t);
      ReplacedStep(t[temp..], f, r);
      if at.None? {
        assert t[..temp] + t[temp..] == t;
        return;
      }
      Spans(t, temp, at.value, |f|);
      Stepped(Replaced(s, f, r), t, temp, at.value, r, Replaced(t[at.value + |f|..], f, r), Replaced(t[temp..], f, r));
      Behind(t[..at.value], r, t[at.value + |f|..]);
      CopyOver(a, at.value, r, t);
      t := t[..at.value] + r + t[at.value + |f|..];
      temp := at.value + |r|;
    }
  }

  /** memcpy over as many bytes of the text. */
  method CopyOver(a: array<byte>, at: nat, r: seq<byte>, ghost s: seq<byte>)
    requires Holds(a, s) && at + |r| <= |s| && Text(r)
    modifies a
    ensures Holds(a, s[..at] + r + s[at + |r|..])
  {
    MemCopy(a, at, r);
    TextJoined(s[..at], r, s[at + |r|..]);
    assert a[..|s|] == s[..at] + r + s[at + |r|..];
  }

  // ---- Splitting into a string list ----

  /** The pieces that get an entry: all of them, or only those with a character. */
  function Kept(ps: seq<seq<byte>>, all: bool): seq<seq<byte>> {
    if ps == [] then [] else (if all || ps[0] != [] then [ps[0]] else []) + Kept(ps[1..], all)
  }

  /** The entries of the list for s, split at c. */
  function Entries(s: seq<byte>, c: byte, all: bool): seq<seq<byte>> {
    Kept(Pieces(s, [c]), all)
  }

  /** Strings one after the other, each with its zero. */
  function Packed(ks: seq<seq<byte>>): seq<byte> {
    if ks == [] then [] else ks[0] + [0] + Packed(ks[1..])
  }

  lemma {:induction false} PackedMore(ks: seq<seq<byte>>, ls: seq<seq<byte>>)
    ensures Packed(ks + ls) == Packed(ks) + Packed(ls)
  {
    if ks == [] {
      assert [] + ls == ls;
    } else {
      assert (ks + ls)[0] == ks[0] && (ks + ls)[1..] == ks[1..] + ls;
      PackedMore(ks[1..], ls);
    }
  }

  lemma KeptStep(p: seq<byte>, ps: seq<seq<byte>>, all: bool)
    ensures Kept([p] + ps, all) == (if p != [] || all then [p] else []) + Kept(ps, all)
  {
    assert ([p] + ps)[1..] == ps;
  }

  lemma EntriesStep(s: seq<byte>, c: byte, all: bool)
    ensures Find(s, [c]).None? ==> Entries(s, c, all) == if s != [] || all then [s] else []
    ensures Find(s, [c]).Some? ==>
      var k := Find(s, [c]).value;
      Entries(s, c, all) == if k != 0 || all then [s[..k]] + Entries(s[k + 1..], c, all) else Entries(s[k + 1..], c, all)
  {
    hide Find, Kept;
    if Find(s, [c]).Some? {
      var k := Find(s, [c]).value;
      var rest := Pieces(s[k + 1..], [c]);
      assert Pieces(s, [c]) == [s[..k]] + rest;
      hide *;
      KeptStep(s[..k], rest, all);
      assert [] + Kept(rest, all) == Kept(rest, all);
    } else {
      assert Pieces(s, [c]) == [s] + [];
      hide Pieces;
      LastKept(s, all);
    }
  }

  lemma LastKept(s: seq<byte>, all: bool)
    ensures Kept([s] + [], all) == if s != [] || all then [s] else []
  {
    KeptStep(s, [], all);
  }

  /** strchr on the string from position from; for a zero it would find the terminator. */
  method StrChr(s: seq<byte>, from: nat, c: byte) returns (at: Option<nat>)
    requires from <= |s| && c != 0 && Text(s)
    ensures at == match Find(s[from..], [c]) { case None => None case Some(k) => Some(from + k) }
  {
    hide Find;
    var i := from;
    while i < |s| && s[i] != c
      invariant from <= i <= |s|
      invariant forall j: nat :: j < i - from ==> !At(s[from..], j, [c])
    {
      i := i + 1;
    }
    if i < |s| {
      assert s[from..][i - from..i - from + 1] == [c];
    }
    FindIsFirst(s[from..], [c], i - from);
    at := if i < |s| then Some(i) else None;
  }

  /** The first pass: how many entries there are and how many bytes they take. */
  method Measure(s: seq<byte>, c: byte, all: bool) returns (count: nat, size: nat)
    requires c != 0 && Text(s)
    ensures count == |Entries(s, c, all)| && size == |Packed(Entries(s, c, all))|
  {
    hide Find, Entries;
    var cur: nat := 0;
    count, size := 0, 0;
    assert s[0..] == s;
    var next := StrChr(s, cur, c);
    while next.Some?
      invariant cur <= |s| && next == match Find(s[cur..], [c]) { case None => None case Some(k) => Some(cur + k) }
      invariant |Entries(s, c, all)| == count + |Entries(s[cur..], c, all)|
      invariant |Packed(Entries(s, c, all))| == size + |Packed(Entries(s[cur..], c, all))|
      decreases |s| - cur
    {
      EntriesStep(s[cur..], c, all);
      var n := next.value - cur;
      assert s[cur..][n + 1..] == s[next.value + 1..];
      if n != 0 || all {
        var p := s[cur..][..n];
        PackedMore([p], Entries(s[next.value + 1..], c, all));
        assert Packed([p]) == p + [0];
        count, size := count + 1, size + n + 1;
      }
      cur := next.value + 1;
      next := StrChr(s, cur, c);
    }
    EntriesStep(s[cur..], c, all);
    if cur < |s| || all {
      assert Packed([s[cur..]]) == s[cur..] + [0];
      count, size := count + 1, size + (|s| - cur) + 1;
    }
  }

  /** The second pass has written the entries done. */
  ghost predicate Listed(table: array<Option<nat>>, pool: array<byte>, done: seq<seq<byte>>)
    reads table, pool
  {
    && |done| <= table.Length && |Packed(done)| <= pool.Length
    && pool[..|Packed(done)|] == Packed(done)
    && forall i :: 0 <= i < |done| ==> table[i] == Some(|Packed(done[..i])|)
  }

  /** One more entry. */
  method AddEntry(table: array<Option<nat>>, pool: array<byte>, i: nat, offset: nat, entry: seq<byte>,
        ghost done: seq<seq<byte>>)
    requires Listed(table, pool, done) && i == |done| < table.Length
    requires offset == |Packed(done)| && offset + |entry| < pool.Length
    modifies table, pool
    ensures Listed(table, pool, done + [entry]) && |Packed(done + [entry])| == offset + |entry| + 1
  {
    PackedMore(done, [entry]);
    assert Packed([entry]) == entry + [0];
    table[i] := Some(offset);
    MemCopy(pool, offset, entry);
    pool[offset + |entry|] := 0;
    assert pool[..offset] == Packed(done);
    assert pool[..offset + |entry| + 1] == Packed(done + [entry]);
    forall k | 0 <= k <= |done|
      ensures table[k] == Some(|Packed((done + [entry])[..k])|)
    {
      assert (done + [entry])[..k] == done[..k];
      assert done[..|done|] == done;
    }
  }

  /** What the loop of the second pass knows when the character is at index next. */
  lemma SplitTurn(s: seq<byte>, cur: nat, next: nat, c: byte, all: bool, done: seq<seq<byte>>, entries: seq<seq<byte>>)
    requires cur <= next && cur <= |s|
    requires Find(s[cur..], [c]) == Some(next - cur) && entries == done + Entries(s[cur..], c, all)
    ensures next < |s|
    ensures next == cur && !all ==> entries == done + Entries(s[next + 1..], c, all)
    ensures next != cur || all ==>
      && entries == done + [s[cur..next]] + Entries(s[next + 1..], c, all)
      && |Packed(entries)| == |Packed(done)| + (next - cur) + 1 + |Packed(Entries(s[next + 1..], c, all))|
  {
    assert next - cur + 1 <= |s[cur..]|;
    hide *;
    EntriesStep(s[cur..], c, all);
    Spans(s, cur, next, 1);
    SpanBefore(s, cur, next);
    if next != cur || all {
      Room(done, s[cur..next], Entries(s[next + 1..], c, all));
      Regrouped(done, s[cur..next], Entries(s[next + 1..], c, all));
    }
  }

  lemma SpanBefore(s: seq<byte>, cur: nat, next: nat)
    requires cur <= next <= |s|
    ensures s[cur..][..next - cur] == s[cur..next]
  {
  }

  lemma Regrouped<T>(done: seq<T>, x: T, rest: seq<T>)
    ensures done + ([x] + rest) == done + [x] + rest
  {
  }

  /** And when the character is met no more. */
  lemma SplitEnd(s: seq<byte>, cur: nat, c: byte, all: bool, done: seq<seq<byte>>, entries: seq<seq<byte>>)
    requires cur <= |s| && Find(s[cur..], [c]) == None && entries == done + Entries(s[cur..], c, all)
    ensures cur == |s| && !all ==> entries == done
    ensures cur < |s| || all ==> entries == done + [s[cur..]] && |Packed(entries)| == |Packed(done)| + (|s| - cur) + 1
  {
    hide Find, Entries, Packed;
    EntriesStep(s[cur..], c, all);
    if cur < |s| || all {
      Room(done, s[cur..], []);
      NothingPacked();
      assert [s[cur..]] + [] == [s[cur..]];
    } else {
      assert done + [] == done;
    }
  }

  lemma NothingPacked()
    ensures Packed([]) == []
  {
  }

  /**
    * The list: one table entry for each kept piece and a null one behind, and a pool that the pieces fill to the
    * last byte.
    */
  method StrListSplit(s: seq<byte>, c: byte, all: bool) returns (table: array<Option<nat>>, pool: array<byte>)
    requires c != 0 && Text(s)
    ensures fresh(table) && fresh(pool)
    ensures table.Length == |Entries(s, c, all)| + 1 && table[table.Length - 1] == None
    ensures Listed(table, pool, Entries(s, c, all)) && pool.Length == |Packed(Entries(s, c, all))|
  {
    hide Find, Entries, Packed, Listed;
    var count, size := Measure(s, c, all);
    table := new Option<nat>[count + 1](_ => None);
    pool := new byte[size];
    ghost var done: seq<seq<byte>> := [];
    ghost var entries := Entries(s, c, all);
    var i: nat, offset: nat, cur: nat := 0, 0, 0;
    assert s[0..] == s && [] + entries == entries;
    NothingListed(table, pool);
    var next := StrChr(s, cur, c);
    while next.Some?
      invariant cur <= |s| && next == match Find(s[cur..], [c]) { case None => None case Some(k) => Some(cur + k) }
      invariant entries == done + Entries(s[cur..], c, all) && i == |done| && offset == |Packed(done)|
      invariant Listed(table, pool, done)
      decreases |s| - cur
    {
      SplitTurn(s, cur, next.value, c, all, done, entries);
      var n := next.value - cur;
      if n != 0 || all {
        AddEntry(table, pool, i, offset, s[cur..next.value], done);
        done := done + [s[cur..next.value]];
        i, offset := i + 1, offset + n + 1;
      }
      cur := next.value + 1;
      next := StrChr(s, cur, c);
    }
    SplitEnd(s, cur, c, all, done, entries);
    if cur < |s| || all {
      AddEntry(table, pool, i, offset, s[cur..], done);
      done := done + [s[cur..]];
      i := i + 1;
    }
    EndTable(table, pool, i, done);
  }

  method EndTable(table: array<Option<nat>>, pool: array<byte>, i: nat, ghost done: seq<seq<byte>>)
    requires Listed(table, pool, done) && |done| <= i < table.Length
    modifies table
    ensures Listed(table, pool, done) && table[i] == None
  {
    table[i] := None;
  }

  lemma NothingListed(table: array<Option<nat>>, pool: array<byte>)
    ensures Listed(table, pool, []) && |Packed([])| == 0
  {
  }

  lemma Room(done: seq<seq<byte>>, entry: seq<byte>, rest: seq<seq<byte>>)
    ensures |Packed(done + ([entry] + rest))| == |Packed(done)| + |entry| + 1 + |Packed(rest)|
  {
    PackedMore(done, [entry] + rest);
    PackedMore([entry], rest);
    assert Packed([entry]) == entry + [0];
  }

  /** Every table entry points at its piece and its zero. */
  lemma PackedAt(ks: seq<seq<byte>>, i: nat)
    requires i < |ks|
    ensures var at := |Packed(ks[..i])|;
      at + |ks[i]| < |Packed(ks)| && Packed(ks)[at..at + |ks[i]|] == ks[i] && Packed(ks)[at + |ks[i]|] == 0
  {
    var head, tail := ks[..i], ks[i + 1..];
    assert ks == head + ([ks[i]] + tail);
    PackedMore(head, [ks[i]] + tail);
    PackedMore([ks[i]], tail);
    assert Packed([ks[i]]) == ks[i] + [0];
  }
}
