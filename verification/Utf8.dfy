/** The UTF-8 codec of deps/jansson/src/utf.c against section 4 of RFC 3629. */
module Utf8 {
  import opened Bytes

  // ---- Reference definition ----

  predicate Scalar(cp: int) {
    0 <= cp <= 0x10FFFF && !(0xD800 <= cp <= 0xDFFF)
  }

  /** The encoding table of RFC 3629. */
  function Encode(cp: int): (s: seq<byte>)
    requires 0 <= cp <= 0x10FFFF
  {
    if cp < 0x80 then [cp]
    else if cp < 0x800 then [0xC0 + cp / 64, 0x80 + cp % 64]
    else if cp < 0x10000 then [0xE0 + cp / 4096, 0x80 + cp / 64 % 64, 0x80 + cp % 64]
    else [0xF0 + cp / 262144, 0x80 + cp / 4096 % 64, 0x80 + cp / 64 % 64, 0x80 + cp % 64]
  }

  predicate Scalars(cps: seq<int>) {
    forall i :: 0 <= i < |cps| ==> Scalar(cps[i])
  }

  function EncodeAll(cps: seq<int>): (s: seq<byte>)
    requires Scalars(cps)
  {
    if cps == [] then [] else Encode(cps[0]) + EncodeAll(cps[1..])
  }

  /** A byte string is UTF-8 when it encodes some sequence of scalar values. */
  ghost predicate IsUtf8(s: seq<byte>) {
    exists cps :: Scalars(cps) && EncodeAll(cps) == s
  }

  // ---- The code's own classification ----

  function CheckFirst(u: byte): (count: nat)
    ensures count <= 4
  {
    if u < 0x80 then 1
    else if u <= 0xBF then 0
    else if u == 0xC0 || u == 0xC1 then 0
    else if u <= 0xDF then 2
    else if u <= 0xEF then 3
    else if u <= 0xF4 then 4
    else 0
  }

  predicate Continuation(u: byte) { 0x80 <= u <= 0xBF }

  /** The low six bits of a continuation byte. */
  function Six(u: int): int { u % 64 }

  /** The payload bits of a lead byte of a sequence of the given size. */
  function Lead(u: int, size: nat): int {
    if size == 2 then u % 32 else if size == 3 then u % 16 else u % 8
  }

  /** The payload of a multi-byte sequence: the lead byte's low bits, then six bits a byte. */
  function Payload(s: seq<byte>, size: nat): (v: int)
    requires 2 <= size <= 4 && size <= |s|
    ensures 0 <= v
  {
    var v2 := Lead(s[0], size) * 64 + Six(s[1]);
    if size == 2 then v2
    else if size == 3 then v2 * 64 + Six(s[2])
    else (v2 * 64 + Six(s[2])) * 64 + Six(s[3])
  }

  /** What utf8_check_full accepts, as a condition on the sequence. */
  predicate Full(s: seq<byte>, size: nat)
    requires size <= |s|
  {
    2 <= size <= 4
    && (forall i :: 1 <= i < size ==> Continuation(s[i]))
    && Scalar(Payload(s, size))
    && Payload(s, size) >= (if size == 2 then 0x80 else if size == 3 then 0x800 else 0x10000)
  }

  /** Decodes the first character of a non-empty string: its code point and its length. */
  function First(s: seq<byte>): (r: Option<(int, nat)>)
    requires s != []
    ensures r.Some? ==> 1 <= r.value.1 <= |s| && r.value.1 <= 4
  {
    var count := CheckFirst(s[0]);
    if count == 0 then None
    else if count == 1 then Some((s[0], 1))
    else if count > |s| || !Full(s, count) then None
    else Some((Payload(s, count), count))
  }

  /** The longest prefix made of whole characters. */
  function ValidPrefix(s: seq<byte>): (p: seq<byte>)
    ensures |p| <= |s| && p == s[..|p|]
  {
    if s == [] then []
    else match First(s)
      case None => []
      case Some(r) => s[..r.1] + ValidPrefix(s[r.1..])
  }

  /** All the code points, or None when some character is malformed. */
  function Decode(s: seq<byte>): (r: Option<seq<int>>)
  {
    if s == [] then Some([])
    else match First(s)
      case None => None
      case Some(c) =>
        match Decode(s[c.1..])
        case None => None
        case Some(cps) => Some([c.0] + cps)
  }

  // ---- Encoding and decoding are inverse ----

  /** Cutting a number into six-bit groups loses nothing. */
  lemma SixBitGroups(cp: nat)
    ensures cp == cp / 64 * 64 + Six(cp)
    ensures cp == (cp / 4096 * 64 + Six(cp / 64)) * 64 + Six(cp)
    ensures cp == ((cp / 262144 * 64 + Six(cp / 4096)) * 64 + Six(cp / 64)) * 64 + Six(cp)
  {
    assert cp / 4096 == cp / 64 / 64;
    assert cp / 262144 == cp / 4096 / 64;
  }

  lemma OneGroup(a: nat, b: nat)
    requires b < 64
    ensures Six(a * 64 + b) == b && (a * 64 + b) / 64 == a
  {
  }

  lemma SixBack(x: int)
    requires 0 <= x < 64
    ensures Six(0x80 + x) == x
  {
  }

  lemma LeadBack(x: nat)
    ensures x < 32 ==> Lead(0xC0 + x, 2) == x
    ensures x < 16 ==> Lead(0xE0 + x, 3) == x
    ensures x < 8 ==> Lead(0xF0 + x, 4) == x
  {
  }

  lemma EncodeShape(cp: int)
    requires Scalar(cp) && cp >= 0x80
    ensures var e := Encode(cp);
      CheckFirst(e[0]) == |e| && Full(e, |e|) && Payload(e, |e|) == cp
  {
    hide Six, Lead, Encode;
    var e := Encode(cp);
    SixBitGroups(cp);
    SixRange(cp);
    SixRange(cp / 64);
    SixRange(cp / 4096);
    SixBack(Six(cp));
    SixBack(Six(cp / 64));
    SixBack(Six(cp / 4096));
    LeadBack(cp / 64);
    LeadBack(cp / 4096);
    LeadBack(cp / 262144);
    EncodeBySix(cp);
    assert Payload(e, |e|) == cp;
    assert Full(e, |e|);
  }

  /** utf8_check_first announces the length of the character a byte begins, and 0 for a byte that begins none. */
  lemma FirstByteAnnounces(u: byte)
    ensures CheckFirst(u) > 0 <==> exists cp :: Scalar(cp) && Encode(cp)[0] == u
    ensures forall cp :: Scalar(cp) && Encode(cp)[0] == u ==> |Encode(cp)| == CheckFirst(u)
  {
    forall cp | Scalar(cp) && Encode(cp)[0] == u
      ensures |Encode(cp)| == CheckFirst(u) > 0
    {
      if cp >= 0x80 {
        EncodeShape(cp);
      }
    }
    if CheckFirst(u) > 0 {
      var cp := if u < 0x80 then u as int
        else if u < 0xE0 then (u as int - 0xC0) * 64
        else if u < 0xF0 then (u as int - 0xE0) * 4096 + (if u == 0xE0 then 0x800 else 0)
        else (u as int - 0xF0) * 262144 + (if u == 0xF0 then 0x10000 else 0);
      assert Scalar(cp) && Encode(cp)[0] == u;
    }
  }

  lemma EncodeBySix(cp: int)
    requires 0x80 <= cp <= 0x10FFFF
    ensures cp < 0x800 ==> Encode(cp) == [0xC0 + cp / 64, 0x80 + Six(cp)]
    ensures 0x800 <= cp < 0x10000 ==> Encode(cp) == [0xE0 + cp / 4096, 0x80 + Six(cp / 64), 0x80 + Six(cp)]
    ensures 0x10000 <= cp ==>
      Encode(cp) == [0xF0 + cp / 262144, 0x80 + Six(cp / 4096), 0x80 + Six(cp / 64), 0x80 + Six(cp)]
  {
  }

  lemma FirstOfEncode(cp: int, rest: seq<byte>)
    requires Scalar(cp)
    ensures Encode(cp) + rest != []
    ensures First(Encode(cp) + rest) == Some((cp, |Encode(cp)|))
    ensures (Encode(cp) + rest)[|Encode(cp)|..] == rest
  {
    var e := Encode(cp);
    var s := e + rest;
    if cp >= 0x80 {
      EncodeShape(cp);
      hide Encode;
      FullPrefix(e, s, |e|);
    }
  }

  /** Only the bytes of the sequence itself matter to utf8_check_full. */
  lemma FullPrefix(a: seq<byte>, b: seq<byte>, n: nat)
    requires 2 <= n <= 4 && n <= |a| && n <= |b| && a[..n] == b[..n]
    ensures Full(a, n) <==> Full(b, n)
    ensures Payload(a, n) == Payload(b, n)
  {
    assert forall i :: 0 <= i < n ==> a[i] == a[..n][i] == b[..n][i] == b[i];
  }

  lemma LeadRange(u: byte)
    ensures CheckFirst(u) == 2 ==> u == 0xC0 + Lead(u, 2) && 0 <= Lead(u, 2) < 32
    ensures CheckFirst(u) == 3 ==> u == 0xE0 + Lead(u, 3) && 0 <= Lead(u, 3) < 16
    ensures CheckFirst(u) == 4 ==> u == 0xF0 + Lead(u, 4) && 0 <= Lead(u, 4) < 8
  {
  }

  lemma SixRange(u: int)
    ensures 0 <= Six(u) < 64
    ensures 0x80 <= u <= 0xBF ==> u == 0x80 + Six(u)
  {
  }

  lemma ShapeEncodes(s: seq<byte>, n: nat)
    requires 2 <= n <= |s| && CheckFirst(s[0]) == n && Full(s, n)
    ensures Encode(Payload(s, n)) == s[..n]
  {
    hide Lead, Encode, Six, CheckFirst;
    var cp := Payload(s, n);
    EncodeBySix(cp);
    LeadRange(s[0]);
    SixRange(s[1]);
    assert Continuation(s[1]);
    var lead := Lead(s[0], n);
    var v2 := lead * 64 + Six(s[1]);
    OneGroup(lead, Six(s[1]));
    assert cp / 4096 == cp / 64 / 64 && cp / 262144 == cp / 64 / 64 / 64;
    if n == 2 {
      assert s[..2] == [s[0], s[1]];
    } else {
      SixRange(s[2]);
      assert Continuation(s[2]);
      var v3 := v2 * 64 + Six(s[2]);
      OneGroup(v2, Six(s[2]));
      if n == 3 {
        assert s[..3] == [s[0], s[1], s[2]];
      } else {
        SixRange(s[3]);
        assert Continuation(s[3]);
        OneGroup(v3, Six(s[3]));
        assert s[..4] == [s[0], s[1], s[2], s[3]];
      }
    }
  }

  lemma EncodeOfFirst(s: seq<byte>)
    requires s != [] && First(s).Some?
    ensures Scalar(First(s).value.0) && Encode(First(s).value.0) == s[..First(s).value.1]
  {
    var n := First(s).value.1;
    if n > 1 {
      hide Encode;
      ShapeEncodes(s, n);
    }
  }

  lemma {:induction false} DecodeOfEncode(cps: seq<int>)
    requires Scalars(cps)
    ensures Decode(EncodeAll(cps)) == Some(cps)
  {
    if cps != [] {
      hide First, Encode;
      FirstOfEncode(cps[0], EncodeAll(cps[1..]));
      DecodeOfEncode(cps[1..]);
      assert EncodeAll(cps) != [];
      assert Decode(EncodeAll(cps)) == Some([cps[0]] + cps[1..]);
      assert cps == [cps[0]] + cps[1..];
    }
  }

  lemma {:induction false} EncodeOfDecode(s: seq<byte>)
    requires Decode(s).Some?
    ensures Scalars(Decode(s).value) && EncodeAll(Decode(s).value) == s
  {
    hide First, Encode;
    if s != [] {
      EncodeOfFirst(s);
      var n := First(s).value.1;
      EncodeOfDecode(s[n..]);
      assert s == s[..n] + s[n..];
    }
  }

  /** The decoder accepts exactly UTF-8. */
  lemma DecodeIff(s: seq<byte>)
    ensures Decode(s).Some? <==> IsUtf8(s)
  {
    if Decode(s).Some? {
      EncodeOfDecode(s);
    }
    if IsUtf8(s) {
      var cps :| Scalars(cps) && EncodeAll(cps) == s;
      DecodeOfEncode(cps);
    }
  }

  /** A byte string encodes at most one sequence of scalar values. */
  lemma EncodingUnique(a: seq<int>, b: seq<int>)
    requires Scalars(a) && Scalars(b) && EncodeAll(a) == EncodeAll(b)
    ensures a == b
  {
    DecodeOfEncode(a);
    DecodeOfEncode(b);
  }

  lemma {:induction false} ValidPrefixIff(s: seq<byte>)
    ensures ValidPrefix(s) == s <==> IsUtf8(s)
  {
    hide First, Encode;
    DecodeIff(s);
    if s != [] && First(s).Some? {
      var n := First(s).value.1;
      ValidPrefixIff(s[n..]);
      DecodeIff(s[n..]);
      assert s == s[..n] + s[n..];
    }
  }

  /** utf8_check_string as a test. */
  predicate CheckText(s: seq<byte>): (ok: bool)
    ensures ok <==> IsUtf8(s)
  {
    ValidPrefixIff(s);
    ValidPrefix(s) == s
  }

  lemma {:induction false} ValidPrefixIsUtf8(s: seq<byte>)
    ensures IsUtf8(ValidPrefix(s))
  {
    hide First, Encode;
    if s == [] || First(s).None? {
      assert EncodeAll([]) == [];
    } else {
      var (cp, n) := First(s).value;
      EncodeOfFirst(s);
      ValidPrefixIsUtf8(s[n..]);
      var cps :| Scalars(cps) && EncodeAll(cps) == ValidPrefix(s[n..]);
      assert ([cp] + cps)[1..] == cps;
      assert EncodeAll([cp] + cps) == ValidPrefix(s);
    }
  }

  // ---- Concatenation and splitting at ASCII bytes ----

  lemma {:induction false} EncodeAllConcat(a: seq<int>, b: seq<int>)
    requires Scalars(a) && Scalars(b)
    ensures EncodeAll(a + b) == EncodeAll(a) + EncodeAll(b)
  {
    if a == [] {
      assert a + b == b;
    } else {
      EncodeAllConcat(a[1..], b);
      assert (a + b)[1..] == a[1..] + b;
    }
  }

  lemma Utf8Concat(a: seq<byte>, b: seq<byte>)
    requires IsUtf8(a) && IsUtf8(b)
    ensures IsUtf8(a + b)
  {
    var x :| Scalars(x) && EncodeAll(x) == a;
    var y :| Scalars(y) && EncodeAll(y) == b;
    EncodeAllConcat(x, y);
    assert Scalars(x + y);
  }

  predicate Ascii(s: seq<byte>) {
    forall i :: 0 <= i < |s| ==> s[i] < 0x80
  }

  lemma {:induction false} AsciiIsUtf8(s: seq<byte>)
    requires Ascii(s)
    ensures IsUtf8(s)
  {
    if s == [] {
      assert EncodeAll([]) == s;
    } else {
      AsciiIsUtf8(s[1..]);
      assert IsUtf8([s[0]]) by {
        assert EncodeAll([s[0]]) == [s[0]];
      }
      Utf8Concat([s[0]], s[1..]);
      assert s == [s[0]] + s[1..];
    }
  }

  lemma EncodeIsUtf8(cp: int)
    requires Scalar(cp)
    ensures IsUtf8(Encode(cp))
  {
    assert EncodeAll([cp]) == Encode(cp);
  }

  lemma FirstAscii(s: seq<byte>)
    requires s != [] && s[0] < 0x80
    ensures First(s) == Some((s[0], 1))
  {
  }

  /** Bytes of a character of two or more bytes are never ASCII. */
  lemma MultibyteHigh(s: seq<byte>)
    requires s != [] && First(s).Some? && First(s).value.1 > 1
    ensures var n := First(s).value.1; 2 <= n <= |s| && forall i :: 0 <= i < n ==> s[i] >= 0x80
  {
  }

  /** An ASCII byte is a character boundary: what stands before it and after it is UTF-8. */
  lemma {:induction false} SplitAtAscii(a: seq<byte>, x: byte, b: seq<byte>)
    requires x < 0x80 && IsUtf8(a + [x] + b)
    ensures IsUtf8(a) && IsUtf8(b)
  {
    hide First, Encode;
    var s := a + [x] + b;
    DecodeIff(s);
    var (cp, n) := First(s).value;
    DecodeIff(s[n..]);
    if a == [] {
      FirstAscii(s);
      assert s[1..] == b;
      assert EncodeAll([]) == a;
    } else {
      assert s[0] == a[0];
      if n > 1 {
        MultibyteHigh(s);
      }
      assert s[|a|] == x && n <= |a|;
      assert s[n..] == a[n..] + [x] + b;
      SplitAtAscii(a[n..], x, b);
      EncodeOfFirst(s);
      EncodeIsUtf8(cp);
      assert s[..n] == a[..n];
      Utf8Concat(a[..n], a[n..]);
      assert a == a[..n] + a[n..];
    }
  }

  /** The two values the stream layer uses as sentinels, 0xFF and 0xFE, occur in no UTF-8 text. */
  lemma {:induction false} NoSentinelBytes(s: seq<byte>, i: nat)
    requires IsUtf8(s) && i < |s|
    ensures s[i] < 0xF8
    ensures Signed(s[i]) != -1 && Signed(s[i]) != -2
  {
    DecodeIff(s);
    var n := First(s).value.1;
    if i >= n {
      DecodeIff(s[n..]);
      NoSentinelBytes(s[n..], i - n);
      assert s[n..][i - n] == s[i];
    }
  }

  /** The examples of section 7 of RFC 3629. */
  lemma KnownEncodings()
    ensures EncodeAll([0x41, 0x2262, 0x391, 0x2E]) == [0x41, 0xE2, 0x89, 0xA2, 0xCE, 0x91, 0x2E]
    ensures EncodeAll([0xD55C, 0xAD6D, 0xC5B4]) == [0xED, 0x95, 0x9C, 0xEA, 0xB5, 0xAD, 0xEC, 0x96, 0xB4]
    ensures Encode(0x233B4) == [0xF0, 0xA3, 0x8E, 0xB4]
  {
    var a, k := [0x41, 0x2262, 0x391, 0x2E], [0xD55C, 0xAD6D, 0xC5B4];
    assert a[1..][1..][1..] == [0x2E] && a[1..][1..][1..][1..] == [];
    assert k[1..][1..] == [0xC5B4] && k[1..][1..][1..] == [];
  }

  // ---- The functions of utf.c ----

  /** The masks of utf8_encode drop nothing. */
  lemma MaskedEncode(cp: nat)
    requires cp <= 0x10FFFF
    ensures cp < 0x80 ==> Encode(cp) == [cp]
    ensures 0x80 <= cp < 0x800 ==> Encode(cp) == [0xC0 + cp / 64 % 32, 0x80 + cp % 64]
    ensures 0x800 <= cp < 0x10000 ==> Encode(cp) == [0xE0 + cp / 4096 % 16, 0x80 + cp / 64 % 64, 0x80 + cp % 64]
    ensures 0x10000 <= cp ==>
      Encode(cp) == [0xF0 + cp / 262144 % 8, 0x80 + cp / 4096 % 64, 0x80 + cp / 64 % 64, 0x80 + cp % 64]
  {
  }

  /** utf8_encode: writes the encoding and reports its size, or -1 outside the code space. */
  method Utf8Encode(codepoint: int, buffer: array<byte>, at: nat) returns (rc: int, size: nat)
    requires 0 <= codepoint <= 0x10FFFF ==> at + |Encode(codepoint)| <= buffer.Length
    modifies buffer
    ensures rc == 0 <==> 0 <= codepoint <= 0x10FFFF
    ensures rc == 0 ==>
      size == |Encode(codepoint)| && buffer[..] == old(buffer[..at]) + Encode(codepoint) + old(buffer[at + size..])
    ensures rc != 0 ==> rc == -1 && buffer[..] == old(buffer[..])
  {
    rc, size := 0, 0;
    ghost var was: seq<byte> := buffer[..];
    ghost var e: seq<byte> := if 0 <= codepoint <= 0x10FFFF then Encode(codepoint) else [];
    if e != [] {
      MaskedEncode(codepoint);
      Placed(was, at, e);
    }
    hide Encode;
    if codepoint < 0 {
      rc := -1;
    } else if codepoint < 0x80 {
      buffer[at] := codepoint;
      size := 1;
      assert buffer[..] == was[at := e[0]];
    } else if codepoint < 0x800 {
      buffer[at] := 0xC0 + codepoint / 64 % 32;
      buffer[at + 1] := 0x80 + codepoint % 64;
      size := 2;
      assert buffer[..] == was[at := e[0]][at + 1 := e[1]];
    } else if codepoint < 0x10000 {
      buffer[at] := 0xE0 + codepoint / 4096 % 16;
      buffer[at + 1] := 0x80 + codepoint / 64 % 64;
      buffer[at + 2] := 0x80 + codepoint % 64;
      size := 3;
      assert buffer[..] == was[at := e[0]][at + 1 := e[1]][at + 2 := e[2]];
    } else if codepoint <= 0x10FFFF {
      buffer[at] := 0xF0 + codepoint / 262144 % 8;
      buffer[at + 1] := 0x80 + codepoint / 4096 % 64;
      buffer[at + 2] := 0x80 + codepoint / 64 % 64;
      buffer[at + 3] := 0x80 + codepoint % 64;
      size := 4;
      assert buffer[..] == was[at := e[0]][at + 1 := e[1]][at + 2 := e[2]][at + 3 := e[3]];
    } else {
      rc := -1;
    }
  }

  /** Writing up to four bytes one by one. */
  lemma Placed(was: seq<byte>, at: nat, e: seq<byte>)
    requires 1 <= |e| <= 4 && at + |e| <= |was|
    ensures var r := was[..at] + e + was[at + |e|..];
      && (|e| == 1 ==> was[at := e[0]] == r) && (|e| == 2 ==> was[at := e[0]][at + 1 := e[1]] == r)
      && (|e| == 3 ==> was[at := e[0]][at + 1 := e[1]][at + 2 := e[2]] == r)
      && (|e| == 4 ==> was[at := e[0]][at + 1 := e[1]][at + 2 := e[2]][at + 3 := e[3]] == r)
  {
  }

  /** utf8_check_full: accepts one whole multi-byte sequence and yields its code point. */
  method CheckFull(buffer: seq<byte>, size: nat) returns (ok: bool, codepoint: int)
    requires 1 <= size <= |buffer|
    ensures ok <==> Full(buffer, size)
    ensures ok ==> codepoint == Payload(buffer, size)
  {
    var u := buffer[0];
    var value := 0;
    codepoint := 0;
    if size == 2 {
      value := Lead(u, 2);
    } else if size == 3 {
      value := Lead(u, 3);
    } else if size == 4 {
      value := Lead(u, 4);
    } else {
      return false, 0;
    }
    ghost var lead := value;
    var i := 1;
    while i < size
      invariant 1 <= i <= size
      invariant forall j :: 1 <= j < i ==> Continuation(buffer[j])
      invariant i == 1 ==> value == lead
      invariant i == 2 ==> value == lead * 64 + Six(buffer[1])
      invariant i == 3 ==> value == (lead * 64 + Six(buffer[1])) * 64 + Six(buffer[2])
      invariant i == 4 ==> value == ((lead * 64 + Six(buffer[1])) * 64 + Six(buffer[2])) * 64 + Six(buffer[3])
    {
      u := buffer[i];
      if u < 0x80 || u > 0xBF {
        return false, 0;
      }
      value := value * 64 + Six(u);
      i := i + 1;
    }
    assert value == Payload(buffer, size);
    if value > 0x10FFFF {
      return false, 0;
    } else if 0xD800 <= value <= 0xDFFF {
      return false, 0;
    } else if (size == 2 && value < 0x80) || (size == 3 && value < 0x800) || (size == 4 && value < 0x10000) {
      return false, 0;
    }
    return true, value;
  }

  /** utf8_iterate: the next position, or None where the character is malformed. */
  method Iterate(buffer: seq<byte>) returns (next: Option<nat>, codepoint: int)
    ensures buffer == [] ==> next == Some(0)
    ensures buffer != [] ==>
      match First(buffer)
      case None => next == None
      case Some(r) => next == Some(r.1) && codepoint == r.0
  {
    codepoint := 0;
    if |buffer| == 0 {
      return Some(0), 0;
    }
    var count := CheckFirst(buffer[0]);
    if count <= 0 {
      return None, 0;
    }
    var value;
    if count == 1 {
      value := buffer[0];
    } else {
      if count > |buffer| {
        return None, 0;
      }
      var ok;
      ok, value := CheckFull(buffer, count);
      if !ok {
        return None, 0;
      }
    }
    return Some(count), value;
  }

  /** utf8_check_string accepts exactly UTF-8. */
  method CheckString(s: seq<byte>) returns (ok: bool)
    ensures ok <==> IsUtf8(s)
  {
    DecodeIff(s);
    var i := 0;
    while i < |s|
      invariant 0 <= i <= |s|
      invariant Decode(s).Some? <==> Decode(s[i..]).Some?
    {
      var count := CheckFirst(s[i]);
      if count == 0 {
        return false;
      } else if count > 1 {
        if count > |s| - i {
          return false;
        }
        var full, _ := CheckFull(s[i..], count);
        if !full {
          return false;
        }
        i := i + (count - 1);
        assert s[i - (count - 1)..][count..] == s[i + 1..];
      } else {
        assert s[i..][1..] == s[i + 1..];
      }
      i := i + 1;
    }
    return true;
  }

  /** Repeated utf8_iterate recovers the code points of a UTF-8 string. */
  method CodePoints(s: seq<byte>) returns (r: Option<seq<int>>)
    ensures r.Some? <==> IsUtf8(s)
    ensures r.Some? ==> Scalars(r.value) && EncodeAll(r.value) == s
  {
    hide First, Encode;
    DecodeIff(s);
    var cps := [];
    var i := 0;
    while i < |s|
      invariant 0 <= i <= |s|
      invariant Decode(s).Some? <==> Decode(s[i..]).Some?
      invariant Decode(s).Some? ==> Decode(s).value == cps + Decode(s[i..]).value
    {
      var next, cp := Iterate(s[i..]);
      if next.None? {
        return None;
      }
      assert s[i..][next.value..] == s[i + next.value..];
      cps := cps + [cp];
      i := i + next.value;
    }
    assert s[i..] == [] && cps + [] == cps;
    EncodeOfDecode(s);
    return Some(cps);
  }
}
