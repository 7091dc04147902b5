/** The UCS-4 and UTF-8 converters of src/external/utf8.c (the branch without foreign calls), flags 0. */
module Utf8Wide {
  import opened Bytes
  import opened Bits
  import opened Memory
  import Utf8

  const WIDE_LIMIT: int := 0x8000_0000   // wchar_t has 31 bits and a sign

  // ---- What is computed ----

  predicate WideForbidden(w: int) {
    0xD800 <= w <= 0xDFFF
  }

  predicate ByteForbidden(b: byte) {
    b == 0xC0 || b == 0xC1 || b == 0xF5 || b == 0xFF
  }

  /** How many bytes the encoder spends. */
  function Size(w: int): (n: nat)
    ensures 1 <= n <= 6
  {
    if w <= 0x7F then 1 else if w <= 0x7FF then 2 else if w <= 0xFFFF then 3
    else if w <= 0x1FFFFF then 4 else if w <= 0x3FFFFFF then 5 else 6
  }

  /** The 6-bit group number i from the low end, as a continuation byte. */
  function Group(w: nat, i: nat): byte {
    0x80 + (if i == 0 then w else if i == 1 then w / 0x40 else if i == 2 then w / 0x1000
            else if i == 3 then w / 0x4_0000 else w / 0x100_0000) % 0x40
  }

  function EncodeOne(w: nat): (s: seq<byte>)
    requires w < WIDE_LIMIT
    ensures |s| == Size(w)
  {
    if w <= 0x7F then [w]
    else if w <= 0x7FF then [0xC0 + w / 0x40, Group(w, 0)]
    else if w <= 0xFFFF then [0xE0 + w / 0x1000, Group(w, 1), Group(w, 0)]
    else if w <= 0x1FFFFF then [0xF0 + w / 0x4_0000, Group(w, 2), Group(w, 1), Group(w, 0)]
    else if w <= 0x3FFFFFF then [0xF8 + w / 0x100_0000, Group(w, 3), Group(w, 2), Group(w, 1), Group(w, 0)]
    else [0xFC + w / 0x4000_0000, Group(w, 4), Group(w, 3), Group(w, 2), Group(w, 1), Group(w, 0)]
  }

  /** The wide string up to its zero, if it has one. */
  function Encode(ws: seq<int>): Option<seq<byte>>
    requires forall i :: 0 <= i < |ws| ==> ws[i] < WIDE_LIMIT
  {
    if ws == [] || ws[0] == 0 then Some([])
    else if WideForbidden(ws[0]) || ws[0] < 0 then None
    else
      match Encode(ws[1..])
      case None => None
      case Some(s) => Some(EncodeOne(ws[0]) + s)
  }

  /** The sequence length a lead byte announces; 0 for none. */
  function Announced(b: byte): (n: nat)
    ensures n <= 6
  {
    if b < 0x80 then 1 else if b < 0xC0 then 0 else if b < 0xE0 then 2 else if b < 0xF0 then 3
    else if b < 0xF8 then 4 else if b < 0xFC then 5 else if b < 0xFE then 6 else 0
  }

  /** The payload of a lead byte. */
  function High(b: byte, n: nat): nat {
    if n == 1 then b as int else if n == 2 then b as int % 0x20 else if n == 3 then b as int % 0x10
    else if n == 4 then b as int % 8 else if n == 5 then b as int % 4 else b as int % 2
  }

  /** The value of lead payload v followed by continuation bytes. */
  function Assemble(v: nat, s: seq<byte>): nat
    decreases |s|
  {
    if s == [] then v else Assemble(0x40 * v + s[0] as int % 0x40, s[1..])
  }

  /** The first character and its length, if the bytes have the shape of one. */
  function DecodeOne(s: seq<byte>): Option<(nat, nat)>
    requires s != []
  {
    var n := Announced(s[0]);
    if ByteForbidden(s[0]) || n == 0 || |s| < n || (exists i :: 1 <= i < n && !(0x80 <= s[i] < 0xC0)) then None
    else Some((Assemble(High(s[0], n), s[1..n]), n))
  }

  /** The byte string up to its zero, if it has one. */
  function Decode(s: seq<byte>): Option<seq<int>> {
    if s == [] || s[0] == 0 then Some([])
    else
      match DecodeOne(s)
      case None => None
      case Some((w, n)) =>
        if WideForbidden(w) || !(1 <= n <= |s|) then None
        else
          match Decode(s[n..])
          case None => None
          case Some(ws) => Some([w] + ws)
  }

  /** What the size-only call counts: it does not look for surrogates. */
  function Count(s: seq<byte>): Option<nat> {
    if s == [] || s[0] == 0 then Some(0)
    else
      match DecodeOne(s)
      case None => None
      case Some((_, n)) =>
        if !(1 <= n <= |s|) then None
        else
          match Count(s[n..])
          case None => None
          case Some(c) => Some(c + 1)
  }

  /** The characters the bytes spell, surrogates included. */
  function Points(s: seq<byte>): Option<seq<int>> {
    if s == [] || s[0] == 0 then Some([])
    else
      match DecodeOne(s)
      case None => None
      case Some((w, n)) =>
        if !(1 <= n <= |s|) then None
        else
          match Points(s[n..])
          case None => None
          case Some(ws) => Some([w] + ws)
  }

  predicate NoSurrogate(ws: seq<int>) {
    forall i :: 0 <= i < |ws| ==> !WideForbidden(ws[i])
  }

  /** The writing call differs from the size-only call on surrogates only. */
  lemma {:induction false} DecodeIffCounted(s: seq<byte>)
    ensures Count(s) == match Points(s) { case None => None case Some(ws) => Some(|ws|) }
    ensures Decode(s) == if Points(s).Some? && NoSurrogate(Points(s).value) then Points(s) else None
  {
    hide DecodeOne, WideForbidden;
    if s != [] && s[0] != 0 && DecodeOne(s).Some? {
      var (w, n) := DecodeOne(s).value;
      if 1 <= n <= |s| {
        DecodeIffCounted(s[n..]);
        if Points(s[n..]).Some? {
          var ws := Points(s[n..]).value;
          assert ([w] + ws)[0] == w && forall i :: 0 <= i < |ws| ==> ([w] + ws)[i + 1] == ws[i];
        }
      }
    }
  }

  /** A text that the size-only call counts and the writing call refuses: an encoded surrogate. */
  lemma SurrogateCounted() returns (s: seq<byte>)
    ensures Count(s) == Some(1) && Decode(s) == None
  {
    s := [0xED, 0xA0, 0x80];
    assert s[1..3] == [0xA0, 0x80] && [0xA0, 0x80][1..] == [0x80];
    assert Assemble(0x360, [0x80]) == 0xD800;
    assert DecodeOne(s) == Some((0xD800, 3));
    assert s[3..] == [];
  }

  // ---- Decoding undoes encoding ----

  /** The lead byte 0xF5, which the decoder refuses, is the encoder's for these. */
  predicate Refused(w: int) {
    0x14_0000 <= w < 0x18_0000
  }

  lemma DecodeEncoded(w: nat, rest: seq<byte>)
    requires 0 < w < WIDE_LIMIT
    ensures (EncodeOne(w) + rest)[0] != 0
    ensures DecodeOne(EncodeOne(w) + rest) == if Refused(w) then None else Some((w, Size(w)))
  {
    var e := EncodeOne(w);
    var s, n := e + rest, Size(w);
    assert s[..n] == e && s[1..n] == e[1..];
    Leads(w);
    assert forall i :: 1 <= i < n ==> s[i] == e[i] && 0x80 <= e[i] < 0xC0;
    if !Refused(w) {
      Reassembled(w);
    }
  }

  lemma Leads(w: nat)
    requires 0 < w < WIDE_LIMIT
    ensures Announced(EncodeOne(w)[0]) == Size(w) && (ByteForbidden(EncodeOne(w)[0]) <==> Refused(w))
    ensures EncodeOne(w)[0] != 0
  {
  }

  /** The leading bits of w, with i groups cut off. */
  function Above(w: nat, i: nat): nat {
    if i == 0 then w else if i == 1 then w / 0x40 else if i == 2 then w / 0x1000
    else if i == 3 then w / 0x4_0000 else if i == 4 then w / 0x100_0000 else w / 0x4000_0000
  }

  lemma GroupBelow(w: nat, i: nat)
    requires i < 5
    ensures Above(w, i) == 0x40 * Above(w, i + 1) + Group(w, i) as int % 0x40
  {
  }

  /** The groups from number i down to 0. */
  function Groups(w: nat, i: nat): (s: seq<byte>)
    requires i <= 5
    ensures |s| == i
  {
    if i == 0 then [] else [Group(w, i - 1)] + Groups(w, i - 1)
  }

  lemma {:induction false} AssembleGroups(w: nat, i: nat)
    requires i <= 5
    ensures Assemble(Above(w, i), Groups(w, i)) == w
  {
    hide Above, Group;
    if i > 0 {
      GroupBelow(w, i - 1);
      assert Groups(w, i)[1..] == Groups(w, i - 1);
      AssembleGroups(w, i - 1);
    } else {
      NothingCut(w);
    }
  }

  lemma NothingCut(w: nat)
    ensures Above(w, 0) == w
  {
  }

  lemma Reassembled(w: nat)
    requires 0 < w < WIDE_LIMIT
    ensures Assemble(High(EncodeOne(w)[0], Size(w)), EncodeOne(w)[1..]) == w
  {
    AssembleGroups(w, Size(w) - 1);
    LeadShape(w);
    GroupsShape(w);
  }

  lemma LeadShape(w: nat)
    requires 0 < w < WIDE_LIMIT
    ensures High(EncodeOne(w)[0], Size(w)) == Above(w, Size(w) - 1)
  {
    hide Group, Groups;
  }

  lemma GroupsShape(w: nat)
    requires 0 < w < WIDE_LIMIT
    ensures EncodeOne(w)[1..] == Groups(w, Size(w) - 1)
  {
    GroupsUnrolled(w);
    hide Group, Groups;
    NoGroups(w);
  }

  lemma NoGroups(w: nat)
    ensures Groups(w, 0) == []
  {
  }

  lemma GroupsUnrolled(w: nat)
    ensures Groups(w, 1) == [Group(w, 0)] && Groups(w, 2) == [Group(w, 1), Group(w, 0)]
    ensures Groups(w, 3) == [Group(w, 2), Group(w, 1), Group(w, 0)]
    ensures Groups(w, 4) == [Group(w, 3), Group(w, 2), Group(w, 1), Group(w, 0)]
    ensures Groups(w, 5) == [Group(w, 4), Group(w, 3), Group(w, 2), Group(w, 1), Group(w, 0)]
  {
    hide Group;
    assert Groups(w, 1) == [Group(w, 0)];
    assert Groups(w, 2) == [Group(w, 1)] + Groups(w, 1);
    assert Groups(w, 3) == [Group(w, 2)] + Groups(w, 2);
    assert Groups(w, 4) == [Group(w, 3)] + Groups(w, 3);
    assert Groups(w, 5) == [Group(w, 4)] + Groups(w, 4);
  }

  /** The wide string up to its zero. */
  function Wide(ws: seq<int>): seq<int> {
    if ws == [] || ws[0] == 0 then [] else [ws[0]] + Wide(ws[1..])
  }

  /**
    * Decoding undoes encoding, on any wide string the encoder takes, exactly when the string has no
    * character whose lead byte is 0xF5; Unicode has none of those.
    */
  lemma {:induction false} DecodeEncode(ws: seq<int>)
    requires forall i :: 0 <= i < |ws| ==> ws[i] < WIDE_LIMIT
    requires Encode(ws).Some?
    ensures Decode(Encode(ws).value) == Some(Wide(ws)) <==> forall i :: 0 <= i < |Wide(ws)| ==> !Refused(Wide(ws)[i])
  {
    hide DecodeOne, EncodeOne, Refused, Size;
    if ws != [] && ws[0] != 0 {
      var w, rest := ws[0], Encode(ws[1..]).value;
      var s, tail := EncodeOne(w) + rest, Wide(ws[1..]);
      DecodeEncode(ws[1..]);
      DecodeEncoded(w, rest);
      assert s[Size(w)..] == rest;
      assert Wide(ws) == [w] + tail;
      var r := Decode(rest);
      assert r.Some? ==> ([w] + r.value)[1..] == r.value;
      assert ([w] + tail)[1..] == tail;
      FirstAndRest(w, tail);
    }
  }

  /** A character that encodes and does not decode. */
  lemma RefusedOnTheWayBack() returns (ws: seq<int>)
    ensures |ws| == 1 && ws[0] == 0x14_0000
    ensures Encode(ws).Some? && Decode(Encode(ws).value) == None
  {
    ws := [0x14_0000];
    assert ws[1..] == [] && Encode([]) == Some([]);
    DecodeEncoded(0x14_0000, []);
  }

  lemma FirstAndRest(w: int, tail: seq<int>)
    ensures (forall i :: 0 <= i < |[w] + tail| ==> !Refused(([w] + tail)[i])) <==>
      !Refused(w) && forall i :: 0 <= i < |tail| ==> !Refused(tail[i])
  {
    hide Refused;
    var ws := [w] + tail;
    assert ws[0] == w && forall i :: 0 <= i < |tail| ==> tail[i] == ws[i + 1];
  }

  lemma {:induction false} ScalarsDecode(cps: seq<int>)
    requires Utf8.Scalars(cps) && 0 !in cps
    ensures Encode(cps) == Some(Utf8.EncodeAll(cps)) && Decode(Utf8.EncodeAll(cps)) == Some(cps)
  {
    WideScalars(cps);
    DecodeEncode(cps);
  }

  /** On Unicode scalar values the encoder writes UTF-8. */
  lemma {:induction false} WideScalars(cps: seq<int>)
    requires Utf8.Scalars(cps) && 0 !in cps
    ensures Encode(cps) == Some(Utf8.EncodeAll(cps)) && Wide(cps) == cps && forall i :: 0 <= i < |cps| ==>
      !Refused(cps[i])
  {
    hide EncodeOne, Utf8.Encode;
    if cps != [] {
      WideScalars(cps[1..]);
      SameEncoding(cps[0]);
    }
  }

  lemma SameEncoding(cp: int)
    requires Utf8.Scalar(cp)
    ensures EncodeOne(cp) == Utf8.Encode(cp)
  {
  }

  // ---- The encoder's bytes ----

  /** Byte i of the wide character in memory, on a little-endian machine. */
  function Octet(w: nat, i: nat): (b: nat)
    ensures b < 0x100
  {
    (if i == 0 then w else if i == 1 then w / 0x100 else if i == 2 then w / 0x1_0000 else w / 0x100_0000) % 0x100
  }

  lemma Octets(w: nat)
    requires w < 0x1_0000_0000
    ensures w == Octet(w, 0) + 0x100 * Octet(w, 1) + 0x1_0000 * Octet(w, 2) + 0x100_0000 * Octet(w, 3)
  {
  }

  /** The 6-bit groups as bit fields of the bytes. */
  lemma GroupFields(w: nat, a: nat, b: nat, c: nat, d: nat)
    requires w == a + 0x100 * b + 0x1_0000 * c + 0x100_0000 * d && a < 0x100 && b < 0x100 && c < 0x100
    ensures Group(w, 0) as int == 0x80 + a % 64 && Group(w, 1) as int == 0x80 + a / 64 + 4 * (b % 16)
    ensures Group(w, 2) as int == 0x80 + b / 16 + 16 * (c % 4)
    ensures Group(w, 3) as int == 0x80 + c / 4 && Group(w, 4) as int == 0x80 + d % 64
  {
    Field0(a, b + 0x100 * c + 0x1_0000 * d);
    Field1(a, b, c + 0x100 * d);
    Field2(a, b, c, d);
    Field3(a, b, c, d);
    Field4(a, b, c, d);
  }

  lemma Field0(a: nat, rest: nat)
    ensures (a + 0x100 * rest) % 64 == a % 64
  {
  }

  lemma Field1(a: nat, b: nat, rest: nat)
    requires a < 0x100
    ensures (a + 0x100 * b + 0x1_0000 * rest) / 64 % 64 == a / 64 + 4 * (b % 16)
  {
    assert (a + 0x100 * b + 0x1_0000 * rest) / 64 == a / 64 + 4 * (b + 0x100 * rest);
    Remainder16(a / 64, b, rest);
  }

  lemma Remainder16(x: nat, b: nat, rest: nat)
    requires x < 4
    ensures (x + 4 * (b + 0x100 * rest)) % 64 == x + 4 * (b % 16)
  {
    DivModUnique(x + 4 * (b + 0x100 * rest), 64, b / 16 + 16 * rest, x + 4 * (b % 16));
  }

  lemma Field2(a: nat, b: nat, c: nat, d: nat)
    requires a < 0x100 && b < 0x100
    ensures (a + 0x100 * b + 0x1_0000 * c + 0x100_0000 * d) / 0x1000 % 64 == b / 16 + 16 * (c % 4)
  {
    assert (a + 0x100 * b + 0x1_0000 * c + 0x100_0000 * d) / 0x1000 == b / 16 + 16 * (c + 0x100 * d);
  }

  lemma Field3(a: nat, b: nat, c: nat, d: nat)
    requires a < 0x100 && b < 0x100 && c < 0x100
    ensures (a + 0x100 * b + 0x1_0000 * c + 0x100_0000 * d) / 0x4_0000 % 64 == c / 4
  {
    assert (a + 0x100 * b + 0x1_0000 * c + 0x100_0000 * d) / 0x4_0000 == c / 4 + 64 * d;
  }

  lemma Field4(a: nat, b: nat, c: nat, d: nat)
    requires a < 0x100 && b < 0x100 && c < 0x100
    ensures (a + 0x100 * b + 0x1_0000 * c + 0x100_0000 * d) / 0x100_0000 == d
  {
  }

  lemma Powers()
    ensures Pow2(1) == 2 && Pow2(2) == 4 && Pow2(3) == 8 && Pow2(4) == 16
    ensures Pow2(5) == 32 && Pow2(6) == 64 && Pow2(7) == 128
  {
    assert Pow2(4) == 16;
    assert Pow2(7) == 8 * Pow2(4);
  }

  /** Masking keeps a bit field. */
  lemma Fields(x: nat)
    ensures And(x, 0x3f) == x % 64 && And(x, 0x1f) == x % 32 && And(x, 0x0f) == x % 16
    ensures And(x, 0x07) == x % 8 && And(x, 0x03) == x % 4
  {
    hide And, Pow2;
    Powers();
    MaskIsRemainder(x, 6);
    MaskIsRemainder(x, 5);
    MaskIsRemainder(x, 4);
    MaskIsRemainder(x, 3);
    MaskIsRemainder(x, 2);
  }

  lemma AndEven(x: nat, m: nat)
    ensures And(x, 2 * m) == 2 * And(x / 2, m)
  {
    if x == 0 || m == 0 {
      AndZero(x / 2);
    } else {
      AndOnce(x, 2 * m);
      HalfOfDouble(m);
    }
  }

  lemma AndOnce(a: nat, b: nat)
    requires a != 0 && b != 0 && b % 2 == 0
    ensures And(a, b) == 2 * And(a / 2, b / 2)
  {
  }

  lemma HalfOfDouble(m: nat)
    ensures 2 * m / 2 == m && 2 * m % 2 == 0
  {
  }

  // Masking with the high bits of a byte clears the low ones.

  lemma Mask7(x: nat)
    requires x < 0x100
    ensures And(x, 0xfe) == 2 * (x / 2)
  {
    hide And, Pow2;
    Powers();
    AndEven(x, 0x7f);
    MaskIsRemainder(x / 2, 7);
  }

  lemma Mask6(x: nat)
    requires x < 0x100
    ensures And(x, 0xfc) == 4 * (x / 4)
  {
    hide And, Pow2;
    Powers();
    AndEven(x, 0x7e);
    AndEven(x / 2, 0x3f);
    MaskIsRemainder(x / 4, 6);
  }

  lemma Mask5(x: nat)
    requires x < 0x100
    ensures And(x, 0xf8) == 8 * (x / 8)
  {
    hide And, Pow2;
    Powers();
    AndEven(x, 0x7c);
    AndEven(x / 2, 0x3e);
    AndEven(x / 4, 0x1f);
    MaskIsRemainder(x / 8, 5);
  }

  lemma Mask4(x: nat)
    requires x < 0x100
    ensures And(x, 0xf0) == 16 * (x / 16)
  {
    hide And, Pow2;
    Powers();
    AndEven(x, 0x78);
    AndEven(x / 2, 0x3c);
    AndEven(x / 4, 0x1e);
    AndEven(x / 8, 0xf);
    MaskIsRemainder(x / 16, 4);
  }

  lemma Mask3(x: nat)
    requires x < 0x100
    ensures And(x, 0xe0) == 32 * (x / 32)
  {
    hide And, Pow2;
    Powers();
    AndEven(x, 0x70);
    AndEven(x / 2, 0x38);
    AndEven(x / 4, 0x1c);
    AndEven(x / 8, 0xe);
    AndEven(x / 16, 0x7);
    MaskIsRemainder(x / 32, 3);
  }

  lemma Mask2(x: nat)
    requires x < 0x100
    ensures And(x, 0xc0) == 64 * (x / 64)
  {
    hide And, Pow2;
    Powers();
    AndEven(x, 0x60);
    AndEven(x / 2, 0x30);
    AndEven(x / 4, 0x18);
    AndEven(x / 8, 0xc);
    AndEven(x / 16, 0x6);
    AndEven(x / 32, 0x3);
    MaskIsRemainder(x / 64, 2);
  }

  lemma Mask1(x: nat)
    requires x < 0x100
    ensures And(x, 0x80) == 128 * (x / 128)
  {
    hide And, Pow2;
    Powers();
    AndEven(x, 0x40);
    AndEven(x / 2, 0x20);
    AndEven(x / 4, 0x10);
    AndEven(x / 8, 0x8);
    AndEven(x / 16, 0x4);
    AndEven(x / 32, 0x2);
    AndEven(x / 64, 0x1);
    MaskIsRemainder(x / 128, 1);
  }

  /** The masks that recognise a byte. */
  lemma Masks(x: nat)
    requires x < 0x100
    ensures And(x, 0x80) == 128 * (x / 128) && And(x, 0xc0) == 64 * (x / 64) && And(x, 0xe0) == 32 * (x / 32)
    ensures And(x, 0xf0) == 16 * (x / 16) && And(x, 0xf8) == 8 * (x / 8)
    ensures And(x, 0xfc) == 4 * (x / 4) && And(x, 0xfe) == 2 * (x / 2)
  {
    hide And;
    Mask1(x);
    Mask2(x);
    Mask3(x);
    Mask4(x);
    Mask5(x);
    Mask6(x);
    Mask7(x);
  }

  lemma Bit6(x: nat)
    requires x < 0x80
    ensures And(x, 0x40) / 64 == x / 64
  {
    hide And, Pow2;
    Powers();
    AndEven(x, 0x20);
    AndEven(x / 2, 0x10);
    AndEven(x / 4, 8);
    AndEven(x / 8, 4);
    AndEven(x / 16, 2);
    AndEven(x / 32, 1);
    MaskIsRemainder(x / 64, 1);
  }

  /** A marker over one field. */
  lemma Marked(x: nat)
    ensures x < 64 ==> Or(0x80, x) == 0x80 + x
    ensures x < 16 ==> Or(0xe0, x) == 0xe0 + x
    ensures x < 8 ==> Or(0xf0, x) == 0xf0 + x
    ensures x < 4 ==> Or(0xf8, x) == 0xf8 + x
    ensures x < 2 ==> Or(0xfc, x) == 0xfc + x
  {
    hide Or, Pow2;
    Powers();
    if x < 64 {
      OrAdds(2, x, 6, 64);
    }
    if x < 16 {
      OrAdds(14, x, 4, 16);
    }
    if x < 8 {
      OrAdds(30, x, 3, 8);
    }
    if x < 4 {
      OrAdds(62, x, 2, 4);
    }
    if x < 2 {
      OrAdds(126, x, 1, 2);
    }
  }

  /** A marker over two fields, the higher one shifted. */
  lemma MarkedPair(x: nat, y: nat)
    ensures x < 4 && y < 16 ==> Or(Or(0x80, x), y * 4) == 0x80 + 4 * y + x
    ensures x < 4 && y < 8 ==> Or(Or(0xc0, x), y * 4) == 0xc0 + 4 * y + x
    ensures x < 16 && y < 4 ==> Or(Or(0x80, x), y * 16) == 0x80 + 16 * y + x
  {
    hide Or, Pow2;
    Powers();
    if x < 4 && y < 16 {
      OrAdds(32, x, 2, 4);
      OrAbove4(32, y, x);
      OrAdds(2, y, 4, 16);
    }
    if x < 4 && y < 8 {
      OrAdds(48, x, 2, 4);
      OrAbove4(48, y, x);
      OrAdds(6, y, 3, 8);
    }
    if x < 16 && y < 4 {
      OrAdds(8, x, 4, 16);
      OrAbove16(8, y, x);
      OrAdds(2, y, 2, 4);
    }
  }

  /** The continuation bytes as the encoder assembles them, shifts written as multiplication and division. */
  lemma Continuations(w: nat)
    requires w < WIDE_LIMIT
    ensures Or(0x80, And(Octet(w, 0), 0x3f)) == Group(w, 0) as int
    ensures Or(Or(0x80, Octet(w, 0) / 64), And(Octet(w, 1), 0x0f) * 4) == Group(w, 1) as int
    ensures Or(Or(0x80, And(Octet(w, 1), 0xf0) / 16), And(Octet(w, 2), 0x03) * 16) == Group(w, 2) as int
    ensures Or(Or(0x80, Octet(w, 1) / 16), And(Octet(w, 2), 0x03) * 16) == Group(w, 2) as int
    ensures Or(0x80, Octet(w, 2) / 4) == Group(w, 3) as int
    ensures Or(0x80, And(Octet(w, 3), 0x3f)) == Group(w, 4) as int
  {
    hide Or, And, Group, Octet;
    var a, b, c, d := Octet(w, 0), Octet(w, 1), Octet(w, 2), Octet(w, 3);
    Octets(w);
    GroupFields(w, a, b, c, d);
    Fields(a);
    Fields(b);
    Masks(b);
    Fields(c);
    Fields(d);
    Marked(a % 64);
    MarkedPair(a / 64, b % 16);
    MarkedPair(b / 16, c % 4);
    Marked(c / 4);
    Marked(d % 64);
  }

  /** The lead bytes. */
  lemma LeadFields(w: nat, a: nat, b: nat, c: nat, d: nat)
    requires w == a + 0x100 * b + 0x1_0000 * c + 0x100_0000 * d && a < 0x100 && b < 0x100 && c < 0x100
    ensures w < WIDE_LIMIT ==> d < 0x80 && w / 0x4000_0000 == d / 64
    ensures w <= 0x3FF_FFFF ==> d < 4 && w / 0x100_0000 == d
    ensures w <= 0x1F_FFFF ==> c < 32 && d == 0 && w / 0x4_0000 == c / 4
    ensures w <= 0xFFFF ==> c == 0 && d == 0 && w / 0x1000 == b / 16
    ensures w <= 0x7FF ==> b < 8 && c == 0 && d == 0 && w / 0x40 == a / 64 + 4 * b
  {
  }

  lemma LeadBytes(w: nat)
    requires w < WIDE_LIMIT
    ensures w <= 0x7FF ==> Or(Or(0xc0, Octet(w, 0) / 64), And(Octet(w, 1), 0x07) * 4) == 0xC0 + w / 0x40
    ensures w <= 0xFFFF ==> Or(0xe0, And(Octet(w, 1), 0xf0) / 16) == 0xE0 + w / 0x1000
    ensures w <= 0x1FFFFF ==> Or(0xf0, And(Octet(w, 2), 0x1f) / 4) == 0xF0 + w / 0x4_0000
    ensures w <= 0x3FFFFFF ==> Or(0xf8, And(Octet(w, 3), 0x03)) == 0xF8 + w / 0x100_0000
    ensures Or(0xfc, And(Octet(w, 3), 0x40) / 64) == 0xFC + w / 0x4000_0000
  {
    hide Octet;
    var a, b, c, d := Octet(w, 0), Octet(w, 1), Octet(w, 2), Octet(w, 3);
    Octets(w);
    LeadFields(w, a, b, c, d);
    hide *;
    if w <= 0x7FF {
      Lead2(a, b);
    }
    if w <= 0xFFFF {
      Lead3(b);
    }
    if w <= 0x1FFFFF {
      Lead4(c);
    }
    if w <= 0x3FFFFFF {
      Lead5(d);
    }
    Lead6(d);
  }

  lemma Lead2(a: nat, b: nat)
    requires a < 0x100 && b < 8
    ensures Or(Or(0xc0, a / 64), And(b, 0x07) * 4) == 0xC0 + a / 64 + 4 * b
  {
    hide Or, And;
    Fields(b);
    MarkedPair(a / 64, b);
  }

  lemma Lead3(b: nat)
    requires b < 0x100
    ensures Or(0xe0, And(b, 0xf0) / 16) == 0xE0 + b / 16
  {
    hide Or, And;
    Mask4(b);
    Marked(b / 16);
  }

  lemma Lead6(d: nat)
    requires d < 0x80
    ensures Or(0xfc, And(d, 0x40) / 64) == 0xFC + d / 64
  {
    hide Or, And;
    Bit6(d);
    Marked(d / 64);
  }

  lemma Lead4(c: nat)
    requires c < 32
    ensures Or(0xf0, And(c, 0x1f) / 4) == 0xF0 + c / 4
  {
    hide Or, And;
    Fields(c);
    Marked(c / 4);
  }

  lemma Lead5(d: nat)
    requires d < 4
    ensures Or(0xf8, And(d, 0x03)) == 0xF8 + d
  {
    hide Or, And;
    Fields(d);
    Marked(d);
  }

  // ---- The encoding loop ----

  /** Text written so far, followed by the encoding of what is left. */
  function Joined<T>(done: seq<T>, rest: Option<seq<T>>): Option<seq<T>> {
    match rest
    case None => None
    case Some(t) => Some(done + t)
  }

  lemma JoinedLater<T>(done: seq<T>, part: seq<T>, rest: Option<seq<T>>)
    ensures Joined(done, Joined(part, rest)) == Joined(done + part, rest)
  {
    if rest.Some? {
      assert done + (part + rest.value) == done + part + rest.value;
    }
  }

  lemma JoinedAll<T>(rest: Option<seq<T>>)
    ensures Joined([], rest) == rest
  {
    if rest.Some? {
      assert [] + rest.value == rest.value;
    }
  }

  /** What the encoding loop knows: the text of the first i characters is done. */
  ghost predicate Encoded(ws: seq<int>, i: nat, done: seq<byte>)
    requires forall j :: 0 <= j < |ws| ==> ws[j] < WIDE_LIMIT
    requires i <= |ws|
  {
    Encode(ws) == Joined(done, Encode(ws[i..]))
  }

  lemma EncodeStart(ws: seq<int>)
    requires forall j :: 0 <= j < |ws| ==> ws[j] < WIDE_LIMIT
    ensures Encoded(ws, 0, [])
  {
    assert ws[0..] == ws;
    JoinedAll(Encode(ws));
  }

  lemma EncodeStep(ws: seq<int>, i: nat, done: seq<byte>)
    requires forall j :: 0 <= j < |ws| ==> ws[j] < WIDE_LIMIT
    requires i < |ws| && ws[i] != 0 && Encoded(ws, i, done)
    ensures WideForbidden(ws[i]) || ws[i] < 0 ==> Encode(ws).None?
    ensures !WideForbidden(ws[i]) && ws[i] >= 0 ==> Encoded(ws, i + 1, done + EncodeOne(ws[i]))
  {
    hide EncodeOne;
    var w := ws[i];
    assert ws[i..][0] == w && ws[i..][1..] == ws[i + 1..];
    if !WideForbidden(w) && w >= 0 {
      JoinedLater(done, EncodeOne(w), Encode(ws[i + 1..]));
    }
  }

  lemma EncodeEnd(ws: seq<int>, i: nat, done: seq<byte>)
    requires forall j :: 0 <= j < |ws| ==> ws[j] < WIDE_LIMIT
    requires i <= |ws| && (i < |ws| ==> ws[i] == 0) && Encoded(ws, i, done)
    ensures Encode(ws) == Some(done)
  {
    assert done + [] == done;
  }

  /** The text is at least as long as what is done. */
  lemma EncodeGrows(ws: seq<int>, i: nat, done: seq<byte>)
    requires forall j :: 0 <= j < |ws| ==> ws[j] < WIDE_LIMIT
    requires i <= |ws| && Encoded(ws, i, done)
    ensures Encode(ws).Some? ==> |Encode(ws).value| >= |done|
  {
  }

  /** Up to six bytes, one after the other. */
  lemma AllWritten(now: seq<byte>, was: seq<byte>, p: nat, e: seq<byte>)
    requires 2 <= |e| <= 6 && p + |e| <= |now| == |was|
    requires now[p] == e[0] && now[p + 1] == e[1] && (|e| > 2 ==> now[p + 2] == e[2])
    requires (|e| > 3 ==> now[p + 3] == e[3]) && (|e| > 4 ==> now[p + 4] == e[4]) && (|e| > 5 ==> now[p + 5] == e[5])
    requires forall i :: 0 <= i < |now| && !(p <= i < p + |e|) ==> now[i] == was[i]
    ensures now == Patched(was, p, e)
  {
    forall i | 0 <= i < |e|
      ensures now[p + i] == e[i]
    {
      if i < 3 {
        if i == 0 {
        } else if i == 1 {
        }
      } else if i == 3 {
      } else if i == 4 {
      }
    }
  }

  /** One character of two bytes. */
  method WriteTwo(out: array<byte>, p: nat, w: nat)
    requires 0 < w < WIDE_LIMIT && Size(w) == 2 && p + 2 <= out.Length
    modifies out
    ensures out[..] == Patched(old(out[..]), p, EncodeOne(w))
  {
    Continuations(w);
    LeadBytes(w);
    ghost var e := EncodeOne(w);
    assert e[0] == 0xC0 + w / 0x40 && e[1] == Group(w, 0);
    hide *;
    out[p + 1] := Or(0x80, And(Octet(w, 0), 0x3f));
    out[p] := Or(Or(0xc0, Octet(w, 0) / 64), And(Octet(w, 1), 0x07) * 4);
    AllWritten(out[..], old(out[..]), p, e);
  }

  /** The last two bytes, which the longer characters have in common. */
  method WriteLast(out: array<byte>, at: nat, w: nat)
    requires w < WIDE_LIMIT && at + 2 <= out.Length
    modifies out
    ensures out[at] == Group(w, 1) && out[at + 1] == Group(w, 0)
    ensures forall i :: 0 <= i < out.Length && i != at && i != at + 1 ==> out[i] == old(out[i])
  {
    Continuations(w);
    hide *;
    out[at + 1] := Or(0x80, And(Octet(w, 0), 0x3f));
    out[at] := Or(Or(0x80, Octet(w, 0) / 64), And(Octet(w, 1), 0x0f) * 4);
  }

  /** One character of three bytes. */
  method WriteThree(out: array<byte>, p: nat, w: nat)
    requires 0 < w < WIDE_LIMIT && Size(w) == 3 && p + 3 <= out.Length
    modifies out
    ensures out[..] == Patched(old(out[..]), p, EncodeOne(w))
  {
    LeadBytes(w);
    ghost var e := EncodeOne(w);
    assert e[0] == 0xE0 + w / 0x1000 && e[1] == Group(w, 1) && e[2] == Group(w, 0);
    hide *;
    WriteLast(out, p + 1, w);
    out[p] := Or(0xe0, And(Octet(w, 1), 0xf0) / 16);
    AllWritten(out[..], old(out[..]), p, e);
  }

  /** One character of four bytes. */
  method WriteFour(out: array<byte>, p: nat, w: nat)
    requires 0 < w < WIDE_LIMIT && Size(w) == 4 && p + 4 <= out.Length
    modifies out
    ensures out[..] == Patched(old(out[..]), p, EncodeOne(w))
  {
    Continuations(w);
    LeadBytes(w);
    ghost var e := EncodeOne(w);
    assert e[0] == 0xF0 + w / 0x4_0000 && e[1] == Group(w, 2) && e[2] == Group(w, 1) && e[3] == Group(w, 0);
    hide *;
    WriteLast(out, p + 2, w);
    out[p + 1] := Or(Or(0x80, And(Octet(w, 1), 0xf0) / 16), And(Octet(w, 2), 0x03) * 16);
    out[p] := Or(0xf0, And(Octet(w, 2), 0x1f) / 4);
    AllWritten(out[..], old(out[..]), p, e);
  }

  /** One character of five bytes. */
  method WriteFive(out: array<byte>, p: nat, w: nat)
    requires 0 < w < WIDE_LIMIT && Size(w) == 5 && p + 5 <= out.Length
    modifies out
    ensures out[..] == Patched(old(out[..]), p, EncodeOne(w))
  {
    Continuations(w);
    LeadBytes(w);
    ghost var e := EncodeOne(w);
    assert e[0] == 0xF8 + w / 0x100_0000 && e[1] == Group(w, 3) && e[2] == Group(w, 2) && e[3] == Group(w, 1) && e[4] == Group(w, 0);
    hide *;
    WriteLast(out, p + 3, w);
    out[p + 2] := Or(Or(0x80, And(Octet(w, 1), 0xf0) / 16), And(Octet(w, 2), 0x03) * 16);
    out[p + 1] := Or(0x80, Octet(w, 2) / 4);
    out[p] := Or(0xf8, And(Octet(w, 3), 0x03));
    AllWritten(out[..], old(out[..]), p, e);
  }

  /** One character of six bytes. */
  method WriteSix(out: array<byte>, p: nat, w: nat)
    requires 0 < w < WIDE_LIMIT && Size(w) == 6 && p + 6 <= out.Length
    modifies out
    ensures out[..] == Patched(old(out[..]), p, EncodeOne(w))
  {
    Continuations(w);
    LeadBytes(w);
    ghost var e := EncodeOne(w);
    assert e[0] == 0xFC + w / 0x4000_0000 && e[1] == Group(w, 4) && e[2] == Group(w, 3) && e[3] == Group(w, 2) && e[4] == Group(w, 1) && e[5] == Group(w, 0);
    hide *;
    WriteLast(out, p + 4, w);
    out[p + 3] := Or(Or(0x80, Octet(w, 1) / 16), And(Octet(w, 2), 0x03) * 16);
    out[p + 2] := Or(0x80, Octet(w, 2) / 4);
    out[p + 1] := Or(0x80, And(Octet(w, 3), 0x3f));
    out[p] := Or(0xfc, And(Octet(w, 3), 0x40) / 64);
    AllWritten(out[..], old(out[..]), p, e);
  }

  /** One character at a position that has room for it. */
  method WriteOne(out: array<byte>, p: nat, w: nat)
    requires 0 < w < WIDE_LIMIT && p + Size(w) <= out.Length
    modifies out
    ensures out[..] == Patched(old(out[..]), p, EncodeOne(w))
  {
    var n := Size(w);
    hide EncodeOne;
    if n == 1 {
      LowOctet(w);
      out[p] := Octet(w, 0);
    } else if n == 2 {
      WriteTwo(out, p, w);
    } else if n == 3 {
      WriteThree(out, p, w);
    } else if n == 4 {
      WriteFour(out, p, w);
    } else if n == 5 {
      WriteFive(out, p, w);
    } else {
      WriteSix(out, p, w);
    }
  }

  lemma LowOctet(w: nat)
    requires w <= 0x7F
    ensures Octet(w, 0) == w && EncodeOne(w) == [w]
  {
  }

  /** The output, where there is one, begins with done and is otherwise as it was. */
  ghost predicate Filled<T>(out: array?<T>, done: seq<T>, was: seq<T>)
    reads out
  {
    out != null ==> |done| <= out.Length == |was| && out[..] == done + was[|done|..]
  }

  lemma FilledIs<T>(out: array?<T>, done: seq<T>, was: seq<T>)
    requires Filled(out, done, was)
    ensures out != null ==> |done| <= out.Length && out[..] == done + was[|done|..]
  {
  }

  /** One character after the text done, if there is an output and room in it. */
  method Append(out: array?<byte>, p: nat, w: nat, ghost done: seq<byte>, ghost was: seq<byte>) returns (ok: bool)
    requires 0 < w < WIDE_LIMIT && |done| == p && Filled(out, done, was)
    modifies out
    ensures ok <==> (out != null ==> p + |EncodeOne(w)| <= out.Length)
    ensures ok ==> Filled(out, done + EncodeOne(w), was)
  {
    if out == null {
      return true;
    }
    if out.Length - p <= Size(w) - 1 {
      return false;
    }
    WriteOne(out, p, w);
    return true;
  }

  /**
    * From wide characters to UTF-8. With no output the call only sizes. The result is 0 on a surrogate, on a
    * negative character and when the text does not fit; otherwise it is the size of the text, which is all that
    * has been written.
    */
  method WcharToUtf8(ws: seq<int>, out: array?<byte>) returns (total: nat)
    requires forall i :: 0 <= i < |ws| ==> ws[i] < WIDE_LIMIT
    modifies out
    ensures Encode(ws).None? ==> total == 0
    ensures out == null && Encode(ws).Some? ==> total == |Encode(ws).value|
    ensures out != null && Encode(ws).Some? ==>
      total == if |Encode(ws).value| <= out.Length then |Encode(ws).value| else 0
    ensures out != null && Encode(ws).Some? && |Encode(ws).value| <= out.Length ==>
      out[..] == Encode(ws).value + old(out[..])[|Encode(ws).value|..]
  {
    EncodeStart(ws);
    if out != null && out.Length == 0 {
      return 0;
    }
    ghost var done: seq<byte> := [];
    ghost var was: seq<byte> := if out == null then [] else out[..];
    hide EncodeOne, Encode, Encoded, Filled;
    FilledStart(out);
    var i := 0;
    total := 0;
    while i < |ws| && ws[i] != 0
      invariant 0 <= i <= |ws| && |done| == total && Encoded(ws, i, done) && Filled(out, done, was)
    {
      var w := ws[i];
      EncodeStep(ws, i, done);
      if WideForbidden(w) || w < 0 {
        return 0;
      }
      i := i + 1;
      EncodeGrows(ws, i, done + EncodeOne(w));
      var ok := Append(out, total, w, done, was);
      if !ok {
        return 0;
      }
      done := done + EncodeOne(w);
      total := total + Size(w);
    }
    EncodeEnd(ws, i, done);
    FilledIs(out, done, was);
  }

  lemma FilledStart<T>(out: array?<T>)
    ensures Filled(out, [], if out == null then [] else out[..])
  {
    if out != null {
      assert [] + out[..][0..] == out[..];
    }
  }

  // ---- The decoding loop ----

  lemma OrCommutes(a: nat, b: nat)
    ensures Or(a, b) == Or(b, a)
    decreases a + b
  {
    if a != 0 && b != 0 {
      OrCommutes(a / 2, b / 2);
    }
  }

  /** The value of continuation bytes alone. */
  function Low(s: seq<byte>): nat {
    if s == [] then 0 else s[0] as int % 0x40 * Pow2(6 * (|s| - 1)) + Low(s[1..])
  }

  lemma {:induction false} AssembleLow(v: nat, s: seq<byte>)
    ensures Low(s) < Pow2(6 * |s|)
    ensures Assemble(v, s) == v * Pow2(6 * |s|) + Low(s)
    decreases |s|
  {
    if s != [] {
      var k := 6 * (|s| - 1);
      var d := s[0] as int % 0x40;
      AssembleLow(0x40 * v + d, s[1..]);
      SixBits(k);
      hide Pow2;
      Spread(v, d, Pow2(k), Low(s[1..]));
    }
  }

  lemma Spread(v: nat, d: nat, p: nat, low: nat)
    requires d < 0x40 && low < p
    ensures (0x40 * v + d) * p + low == v * (0x40 * p) + (d * p + low)
    ensures d * p + low < 0x40 * p
  {
    assert d * p <= 0x3f * p;
  }

  lemma SixBits(k: nat)
    ensures Pow2(k + 6) == 0x40 * Pow2(k)
  {
    hide Pow2;
    Doubled(k);
    Doubled(k + 1);
    Doubled(k + 2);
    Doubled(k + 3);
    Doubled(k + 4);
    Doubled(k + 5);
  }

  /** The bits of x above those of low. */
  lemma PutAbove(low: nat, x: nat, k: nat)
    requires low < Pow2(k)
    ensures Or(low, x * Pow2(k)) == x * Pow2(k) + low
  {
    hide Or, Pow2;
    OrCommutes(low, x * Pow2(k));
    OrIsSum(x, low, k);
  }

  lemma NothingLow()
    ensures Low([]) == 0
  {
  }

  /** One more group in front. */
  lemma ReadStep(s: seq<byte>, lo: nat, hi: nat, w: nat)
    requires lo < hi <= |s| && w == Low(s[lo + 1..hi])
    ensures Or(w, And(s[lo], 0x3f) * Pow2(6 * (hi - lo - 1))) == Low(s[lo..hi])
  {
    var tail := s[lo + 1..hi];
    assert s[lo..hi][1..] == tail;
    hide Or, And, Pow2, Assemble;
    Fields(s[lo]);
    AssembleLow(0, tail);
    PutAbove(w, And(s[lo], 0x3f), 6 * (hi - lo - 1));
  }

  /** The value of the n-byte character at position p, assembled from its last byte. */
  method ReadOne(s: seq<byte>, p: nat, n: nat, high: nat) returns (w: nat)
    requires 1 <= n && p + n <= |s|
    ensures w == Assemble(high, s[p + 1..p + n])
  {
    hide Or, And, Pow2, Low, Assemble;
    NothingLow();
    assert s[p + n..p + n] == [];
    w := 0;
    var bits, i := 0, 1;
    while i < n
      invariant 1 <= i <= n && bits == 6 * (i - 1)
      invariant w == Low(s[p + n - i + 1..p + n])
    {
      var x := And(s[p + n - i], 0x3f);
      ReadStep(s, p + n - i, p + n, w);
      w := Or(w, x * Pow2(bits));
      bits := bits + 6;
      i := i + 1;
    }
    AssembleLow(high, s[p + 1..p + n]);
    PutAbove(w, high, bits);
    w := Or(w, high * Pow2(bits));
  }

  /** What the lead byte says: the length (0 for none) and the payload. */
  method ReadLead(b: byte) returns (n: nat, high: nat)
    ensures n == Announced(b)
    ensures n != 0 ==> high == High(b, n)
  {
    hide And;
    Masks(b);
    Fields(b);
    LowBit(b);
    if And(b, 0x80) == 0 {
      return 1, b;
    } else if And(b, 0xe0) == 0xc0 {
      return 2, And(b, 0x1f);
    } else if And(b, 0xf0) == 0xe0 {
      return 3, And(b, 0x0f);
    } else if And(b, 0xf8) == 0xf0 {
      return 4, And(b, 0x07);
    } else if And(b, 0xfc) == 0xf8 {
      return 5, And(b, 0x03);
    } else if And(b, 0xfe) == 0xfc {
      return 6, And(b, 0x01);
    }
    return 0, 0;
  }

  lemma LowBit(x: nat)
    ensures And(x, 1) == x % 2
  {
    hide And, Pow2;
    Powers();
    MaskIsRemainder(x, 1);
  }

  /** Whether the bytes after the first are continuation bytes. */
  method Continued(s: seq<byte>, p: nat, n: nat) returns (ok: bool)
    requires 1 <= n && p + n <= |s|
    ensures ok <==> forall i :: 1 <= i < n ==> 0x80 <= s[p..][i] < 0xC0
  {
    hide And;
    var i := 1;
    while i < n
      invariant 1 <= i <= n
      invariant forall j :: 1 <= j < i ==> 0x80 <= s[p..][j] < 0xC0
    {
      Masks(s[p + i]);
      assert s[p..][i] == s[p + i];
      if And(s[p + i], 0xc0) != 0x80 {
        return false;
      }
      i := i + 1;
    }
    return true;
  }

  /** The character at position p: its length, or 0 where the bytes do not have the shape of one. */
  method ScanOne(s: seq<byte>, p: nat) returns (n: nat, high: nat)
    requires p < |s|
    ensures n == 0 <==> DecodeOne(s[p..]).None?
    ensures n != 0 ==> p + n <= |s| && DecodeOne(s[p..]).value == (Assemble(high, s[p + 1..p + n]), n)
  {
    if ByteForbidden(s[p]) {
      return 0, 0;
    }
    n, high := ReadLead(s[p]);
    if n == 0 || |s| - p <= n - 1 {
      return 0, 0;
    }
    var ok := Continued(s, p, n);
    if !ok {
      return 0, 0;
    }
    assert s[p..][1..n] == s[p + 1..p + n];
  }

  /** What the scan loop knows after total characters, with and without an output. */
  ghost predicate Scanned(s: seq<byte>, p: nat, done: seq<int>, total: nat, writing: bool)
    requires p <= |s|
  {
    if writing then |done| == total && Decode(s) == Joined(done, Decode(s[p..]))
    else Count(s) == match Count(s[p..]) { case None => None case Some(c) => Some(total + c) }
  }

  lemma ScanStart(s: seq<byte>, writing: bool)
    ensures Scanned(s, 0, [], 0, writing)
  {
    assert s[0..] == s;
    JoinedAll(Decode(s));
  }

  lemma ScanStep(s: seq<byte>, p: nat, done: seq<int>, total: nat, writing: bool, w: nat, n: nat)
    requires p < |s| && s[p] != 0 && p + n <= |s| && 1 <= n && DecodeOne(s[p..]) == Some((w, n))
    requires Scanned(s, p, done, total, writing)
    ensures writing && WideForbidden(w) ==> Decode(s).None?
    ensures !(writing && WideForbidden(w)) ==> Scanned(s, p + n, done + [w], total + 1, writing)
  {
    hide DecodeOne, Decode, Count, WideForbidden;
    assert s[p..][n..] == s[p + n..];
    NextDecoded(s[p..], w, n);
    JoinedLater(done, [w], Decode(s[p + n..]));
  }

  lemma NextDecoded(s: seq<byte>, w: nat, n: nat)
    requires s != [] && s[0] != 0 && 1 <= n <= |s| && DecodeOne(s) == Some((w, n))
    ensures Decode(s) == if WideForbidden(w) then None else Joined([w], Decode(s[n..]))
    ensures Count(s) == match Count(s[n..]) { case None => None case Some(c) => Some(c + 1) }
  {
    hide DecodeOne;
  }

  lemma ScanFails(s: seq<byte>, p: nat, done: seq<int>, total: nat, writing: bool)
    requires p < |s| && s[p] != 0 && DecodeOne(s[p..]).None?
    requires Scanned(s, p, done, total, writing)
    ensures if writing then Decode(s).None? else Count(s).None?
  {
    hide DecodeOne;
  }

  lemma ScanEnd(s: seq<byte>, p: nat, done: seq<int>, total: nat, writing: bool)
    requires p <= |s| && (p < |s| ==> s[p] == 0)
    requires Scanned(s, p, done, total, writing)
    ensures if writing then Decode(s) == Some(done) else Count(s) == Some(total)
  {
    AtEnd(s[p..]);
    JoinedNothing(done);
  }

  lemma JoinedNothing(done: seq<int>)
    ensures Joined(done, Some([])) == Some(done)
  {
    assert done + [] == done;
  }

  lemma AtEnd(s: seq<byte>)
    requires s == [] || s[0] == 0
    ensures Decode(s) == Some([]) && Count(s) == Some(0)
  {
  }

  /** Once the output is full, one more character is too many. */
  lemma NoRoom(s: seq<byte>, p: nat, done: seq<int>, total: nat)
    requires p <= |s| && Scanned(s, p, done, total, true)
    ensures Decode(s).Some? ==> |Decode(s).value| >= |done|
  {
  }

  /** A character fits a 31-bit wide character. */
  lemma DecodedFits(s: seq<byte>)
    requires s != []
    ensures DecodeOne(s).Some? ==> DecodeOne(s).value.0 < WIDE_LIMIT
  {
    hide Assemble;
    var n := Announced(s[0]);
    if DecodeOne(s).Some? {
      AssembleLow(High(s[0], n), s[1..n]);
      hide Pow2;
      Powers();
      SixBits(6);
      SixBits(12);
      SixBits(18);
      SixBits(24);
    }
  }

  /** One wide character after those done, if there is an output, room in it and no surrogate to write. */
  method AppendWide(out: array?<int>, at: nat, s: seq<byte>, p: nat, n: nat, high: nat, ghost done: seq<int>,
        ghost was: seq<int>)
    returns (ok: bool)
    requires 1 <= n && p + n <= |s| && Filled(out, done, was) && (out != null ==> |done| == at)
    modifies out
    ensures ok <==> (out != null ==> at + 1 <= out.Length && !WideForbidden(Assemble(high, s[p + 1..p + n])))
    ensures ok ==> Filled(out, done + [Assemble(high, s[p + 1..p + n])], was)
  {
    hide Assemble;
    if out == null {
      return true;
    }
    if at >= out.Length {
      return false;
    }
    out[at] := ReadOne(s, p, n, high);
    return !WideForbidden(out[at]);
  }

  /** The text is not in the expected form, or its conversion does not fit the output. */
  ghost predicate Refuses(s: seq<byte>, out: array?<int>) {
    if out == null then Count(s).None? else Decode(s).Some? ==> |Decode(s).value| > out.Length
  }

  /** One turn of the loop; a length of 0 stands for the return of 0. */
  method Turn(s: seq<byte>, out: array?<int>, p: nat, total: nat, ghost done: seq<int>, ghost was: seq<int>)
    returns (n: nat, ghost more: seq<int>)
    requires p < |s| && s[p] != 0 && Scanned(s, p, done, total, out != null)
    requires Filled(out, done, was) && (out != null ==> |done| == total)
    modifies out
    ensures n == 0 ==> Refuses(s, out)
    ensures n != 0 ==> p + n <= |s| && Scanned(s, p + n, more, total + 1, out != null)
    ensures n != 0 ==> Filled(out, more, was) && |more| == |done| + 1
  {
    more := done;
    var high;
    n, high := ScanOne(s, p);
    if n == 0 {
      ScanFails(s, p, done, total, out != null);
      return;
    }
    ghost var w := Assemble(high, s[p + 1..p + n]);
    hide DecodeOne, Decode, Count, Scanned, Assemble, Filled;
    ScanStep(s, p, done, total, out != null, w, n);
    more := done + [w];
    if out != null && !WideForbidden(w) {
      NoRoom(s, p + n, more, total + 1);
    }
    var ok := AppendWide(out, total, s, p, n, high, done, was);
    n := if ok then n else 0;
  }

  /**
    * From UTF-8 to wide characters. With no output the call only counts. The result is 0 where the text is refused
    * and where it does not fit; otherwise it is the number of characters, which is all that has been written.
    */
  method Utf8ToWchar(s: seq<byte>, out: array?<int>) returns (total: nat)
    modifies out
    ensures out == null ==> total == if Count(s).Some? then Count(s).value else 0
    ensures out != null && Decode(s).None? ==> total == 0
    ensures out != null && Decode(s).Some? ==> total == if |Decode(s).value| <= out.Length then |Decode(s).value| else 0
    ensures out != null && Decode(s).Some? && |Decode(s).value| <= out.Length ==>
      out[..] == Decode(s).value + old(out[..])[|Decode(s).value|..]
  {
    ghost var done: seq<int> := [];
    ghost var was: seq<int> := if out == null then [] else out[..];
    hide DecodeOne, Decode, Count, Scanned, Filled;
    var p := 0;
    total := 0;
    ScanStart(s, out != null);
    FilledStart(out);
    if out != null && out.Length == 0 {
      return 0;
    }
    while p < |s| && s[p] != 0
      invariant 0 <= p <= |s| && Scanned(s, p, done, total, out != null)
      invariant Filled(out, done, was) && (out != null ==> |done| == total)
    {
      var n;
      n, done := Turn(s, out, p, total, done, was);
      if n == 0 {
        return 0;
      }
      total := total + 1;
      p := p + n;
    }
    ScanEnd(s, p, done, total, out != null);
    FilledIs(out, done, was);
  }
}
