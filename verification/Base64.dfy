/** Base64 of src/external/base64.c: encoding with and without line breaks, and decoding. */
module Base64 {
  import opened Bytes
  import opened Bits

  const NEWLINE_INTERVAL: nat := 76

  // ---- The encoding of section 4 of RFC 4648 ----

  function Charset(v: nat): byte
    requires v < 64
  {
    if v < 26 then 65 + v else if v < 52 then 97 + v - 26 else if v < 62 then 48 + v - 52 else if v == 62 then 43
      else 47
  }

  const CAPITALS: string := "ABCDEFGHIJKLMNOPQRSTUVWXYZ"
  const SMALL: string := "abcdefghijklmnopqrstuvwxyz"
  const OTHERS: string := "0123456789+/"
  const ALPHABET: string := CAPITALS + SMALL + OTHERS

  lemma Letter(v: nat)
    requires v < 26
    ensures CAPITALS[v] as int == 65 + v && SMALL[v] as int == 97 + v
  {
  }

  lemma OtherCharacter(v: nat)
    requires v < 12
    ensures OTHERS[v] as int == if v < 10 then 48 + v else if v == 10 then 43 else 47
  {
  }

  /** The alphabet of table 1, to write and to read. */
  lemma Alphabet(v: nat)
    requires v < 64
    ensures Charset(v) == ALPHABET[v] as int && RevChar(ALPHABET[v] as int) == v
  {
    if v < 26 {
      Letter(v);
      assert ALPHABET[v] == CAPITALS[v];
    } else if v < 52 {
      Letter(v - 26);
      assert ALPHABET[v] == SMALL[v - 26];
    } else {
      OtherCharacter(v - 52);
      assert ALPHABET[v] == OTHERS[v - 52];
    }
  }

  /** Any other character counts as its own code. */
  lemma OtherCharacters(ch: byte)
    requires forall v :: 0 <= v < 64 ==> ALPHABET[v] as int != ch
    ensures RevChar(ch) == ch
  {
    var v := if 65 <= ch <= 90 then ch as int - 65 else if 97 <= ch <= 122 then ch as int - 71
      else if 48 <= ch <= 57 then ch as int + 4 else if ch == 43 then 62 else 63;
    if Charset(v) == ch {
      Alphabet(v);
      assert false;
    }
  }

  lemma OneQuad(s: seq<byte>, q: seq<byte>)
    requires |s| >= 3 && q == Quad(s[0], s[1], s[2])
    ensures Encode(s) == q + Encode(s[3..])
  {
  }

  // The test vectors of section 10.

  lemma ShortVectors()
    ensures Encode(Chars("f")) == Chars("Zg==")
    ensures Encode(Chars("fo")) == Chars("Zm8=")
    ensures Encode(Chars("b")) == Chars("Yg==")
    ensures Encode(Chars("ba")) == Chars("YmE=")
  {
  }

  lemma Foo()
    ensures Quad(102, 111, 111) == Chars("Zm9v") && Quad(98, 97, 114) == Chars("YmFy")
    ensures Encode([]) == []
  {
  }

  lemma TestVectors()
    ensures Encode(Chars("foo")) == Chars("Zm9v")
    ensures Encode(Chars("foob")) == Chars("Zm9vYg==")
    ensures Encode(Chars("fooba")) == Chars("Zm9vYmE=")
    ensures Encode(Chars("foobar")) == Chars("Zm9vYmFy")
  {
    hide Encode, Quad, Tail;
    Foo();
    ShortVectors();
    OneQuad(Chars("foo"), Chars("Zm9v"));
    OneQuad(Chars("foob"), Chars("Zm9v"));
    OneQuad(Chars("fooba"), Chars("Zm9v"));
    OneQuad(Chars("foobar"), Chars("Zm9v"));
    OneQuad(Chars("bar"), Chars("YmFy"));
    assert Chars("foo")[3..] == [] && Chars("bar")[3..] == [];
    assert Chars("foob")[3..] == Chars("b");
    assert Chars("fooba")[3..] == Chars("ba");
    assert Chars("foobar")[3..] == Chars("bar");
    assert Chars("Zm9v") + [] == Chars("Zm9v") && Chars("YmFy") + [] == Chars("YmFy");
  }

  /** Three bytes as four characters of six bits each. */
  function Quad(a: byte, b: byte, c: byte): (q: seq<byte>)
    ensures |q| == 4
  {
    [Charset(a as int / 4), Charset(a as int % 4 * 16 + b as int / 16), Charset(b as int % 16 * 4 + c as int / 64), Charset(c as int % 64)]
  }

  /** The last one or two bytes, padded with '='. */
  function Tail(s: seq<byte>): (q: seq<byte>)
    requires |s| < 3
    ensures |q| == if s == [] then 0 else 4
  {
    if |s| == 0 then []
    else if |s| == 1 then [Charset(s[0] as int / 4), Charset(s[0] as int % 4 * 16), 61, 61]
    else [Charset(s[0] as int / 4), Charset(s[0] as int % 4 * 16 + s[1] as int / 16), Charset(s[1] as int % 16 * 4), 61]
  }

  /** The size of the padded encoding. */
  function Groups(n: nat): nat {
    (n + 2) / 3 * 4
  }

  function Encode(s: seq<byte>): (r: seq<byte>)
    ensures |r| == Groups(|s|)
  {
    if |s| < 3 then Tail(s) else Quad(s[0], s[1], s[2]) + Encode(s[3..])
  }

  /** A line break after every full line of 76 characters. */
  function Broken(s: seq<byte>): seq<byte> {
    if |s| < NEWLINE_INTERVAL then s else s[..NEWLINE_INTERVAL] + [10] + Broken(s[NEWLINE_INTERVAL..])
  }

  /** The length of the whole groups. */
  function Whole(n: nat): (w: nat)
    ensures w <= n < w + 3 && w % 3 == 0
  {
    n / 3 * 3
  }

  /** What the encoder writes: lines are broken while it writes whole groups, not behind the padded one. */
  function Written(s: seq<byte>, newlines: bool): seq<byte> {
    var whole := Whole(|s|);
    (if newlines then Broken(Encode(s[..whole])) else Encode(s[..whole])) + Tail(s[whole..])
  }

  /** The size-only call. */
  function EncodedSize(len: nat, newlines: bool): nat {
    len / 3 * 4 + (if len % 3 != 0 then 4 else 0) + (if newlines then len / 57 else 0)
  }

  lemma EmptyEncoding()
    ensures Encode([]) == []
  {
  }

  lemma {:induction false} EncodeSplits(a: seq<byte>, b: seq<byte>)
    requires |a| % 3 == 0
    ensures Encode(a + b) == Encode(a) + Encode(b)
  {
    hide Encode, Tail, Quad;
    if a == [] {
      EmptyEncoding();
      assert a + b == b && [] + Encode(b) == Encode(b);
    } else {
      EncodeSplits(a[3..], b);
      assert (a + b)[3..] == a[3..] + b;
      EncodeGroup(a);
      EncodeGroup(a + b);
    }
  }

  lemma EncodeGroup(s: seq<byte>)
    requires |s| >= 3
    ensures Encode(s) == Quad(s[0], s[1], s[2]) + Encode(s[3..])
  {
  }

  lemma EncodeRest(s: seq<byte>)
    requires |s| < 3
    ensures Encode(s) == Tail(s)
  {
  }

  /** Without line breaks, exactly the standard's encoding is written. */
  lemma PlainIsEncode(s: seq<byte>)
    ensures Written(s, false) == Encode(s)
  {
    hide Encode, Tail, Broken;
    var whole := Whole(|s|);
    EncodeSplits(s[..whole], s[whole..]);
    EncodeRest(s[whole..]);
    assert s == s[..whole] + s[whole..];
  }

  lemma {:induction false} BrokenSize(s: seq<byte>)
    ensures |Broken(s)| == |s| + |s| / NEWLINE_INTERVAL
  {
    if |s| >= NEWLINE_INTERVAL {
      BrokenSize(s[NEWLINE_INTERVAL..]);
    }
  }

  /** The size-only call tells the size of what the writing call writes, for both settings. */
  lemma WrittenSize(s: seq<byte>, newlines: bool)
    ensures |Written(s, newlines)| == EncodedSize(|s|, newlines)
  {
    var whole := Whole(|s|);
    BrokenSize(Encode(s[..whole]));
    WholeSize(|s|);
  }

  /** Four more characters complete a line. */
  predicate FillsLine(n: nat) {
    (n + 4) % NEWLINE_INTERVAL == 0
  }

  /** Appending one group. */
  lemma {:induction false} BrokenAppend(s: seq<byte>, q: seq<byte>)
    requires |s| % 4 == 0 && |q| == 4
    ensures Broken(s + q) == Broken(s) + q + if FillsLine(|s|) then [10] else []
  {
    hide Broken, FillsLine;
    NextLine(|s|);
    if |s| < NEWLINE_INTERVAL {
      ShortLine(s);
      if |s| == NEWLINE_INTERVAL - 4 {
        BrokenLine(s + q, []);
        assert s + q + [] == s + q;
        ShortLine([]);
      } else {
        ShortLine(s + q);
      }
    } else {
      var line, rest := s[..NEWLINE_INTERVAL], s[NEWLINE_INTERVAL..];
      BrokenAppend(rest, q);
      BrokenLine(line, rest);
      BrokenLine(line, rest + q);
      assert s == line + rest && s + q == line + (rest + q);
    }
  }

  lemma ShortLine(s: seq<byte>)
    requires |s| < NEWLINE_INTERVAL
    ensures Broken(s) == s
  {
  }

  lemma BrokenLine(line: seq<byte>, rest: seq<byte>)
    requires |line| == NEWLINE_INTERVAL
    ensures Broken(line + rest) == line + [10] + Broken(rest)
  {
    assert (line + rest)[..NEWLINE_INTERVAL] == line && (line + rest)[NEWLINE_INTERVAL..] == rest;
  }

  lemma NextLine(n: nat)
    ensures n >= NEWLINE_INTERVAL ==> (FillsLine(n) <==> FillsLine(n - NEWLINE_INTERVAL))
    ensures n < NEWLINE_INTERVAL && n % 4 == 0 ==> (FillsLine(n) <==> n == NEWLINE_INTERVAL - 4)
  {
    if n >= NEWLINE_INTERVAL {
      var m := n + 4;
      DivModUnique(m - NEWLINE_INTERVAL, NEWLINE_INTERVAL, m / NEWLINE_INTERVAL - 1, m % NEWLINE_INTERVAL);
    } else if n + 4 < NEWLINE_INTERVAL {
      DivModUnique(n + 4, NEWLINE_INTERVAL, 0, n + 4);
    } else if n % 4 == 0 {
      assert n == NEWLINE_INTERVAL - 4;
    }
  }

  /**
    * The output with line breaks is the plain output broken after every full line, unless a padded
    * group completes the last line: then that line has no break.
    */
  lemma LinesBroken(s: seq<byte>)
    ensures Written(s, true) == Broken(Encode(s)) <==> !PaddedFullLine(|s|)
    ensures PaddedFullLine(|s|) ==> Written(s, true) + [10] == Broken(Encode(s))
  {
    hide Encode, Broken, Tail, PaddedFullLine, Whole, Written, Groups, FillsLine;
    var whole := Whole(|s|);
    var e, tail := Encode(s[..whole]), Tail(s[whole..]);
    PlainIsEncode(s);
    Halves(s, whole);
    LineEnds(|s|, |e|);
    LinesOf(e, tail, PaddedFullLine(|s|));
  }

  /** An input whose last full line gets no break. */
  lemma LineBreakMissing() returns (s: seq<byte>)
    ensures |s| == 55 && Written(s, true) != Broken(Encode(s))
  {
    s := seq(55, _ => 0);
    LinesBroken(s);
  }

  lemma LinesOf(e: seq<byte>, tail: seq<byte>, ends: bool)
    requires |e| % 4 == 0 && (tail == [] || |tail| == 4)
    requires ends <==> tail != [] && FillsLine(|e|)
    ensures Broken(e) + tail == Broken(e + tail) <==> !ends
    ensures ends ==> Broken(e) + tail + [10] == Broken(e + tail)
  {
    hide Broken;
    if tail != [] {
      LastGroup(e, tail);
    } else {
      assert e + tail == e && Broken(e) + tail == Broken(e);
    }
  }

  lemma Halves(s: seq<byte>, whole: nat)
    requires whole == Whole(|s|)
    ensures Written(s, true) == Broken(Encode(s[..whole])) + Tail(s[whole..])
    ensures Written(s, false) == Encode(s[..whole]) + Tail(s[whole..])
    ensures if whole == |s| then Tail(s[whole..]) == [] else |Tail(s[whole..])| == 4
  {
  }

  /** The padded group is the nineteenth of its line. */
  predicate PaddedFullLine(n: nat) {
    n % 57 == 55 || n % 57 == 56
  }

  lemma LastGroup(e: seq<byte>, tail: seq<byte>)
    requires |e| % 4 == 0 && |tail| == 4
    ensures Broken(e) + tail == Broken(e + tail) <==> !FillsLine(|e|)
    ensures FillsLine(|e|) ==> Broken(e) + tail + [10] == Broken(e + tail)
  {
    hide Broken;
    BrokenAppend(e, tail);
    var w := Broken(e) + tail;
    assert |w + [10]| != |w|;
    assert w + [] == w;
  }

  lemma WholeSize(n: nat)
    ensures Groups(Whole(n)) == n / 3 * 4
  {
  }

  lemma LineEnds(n: nat, m: nat)
    requires m == Groups(Whole(n))
    ensures m % 4 == 0 && (n > Whole(n) ==> (FillsLine(m) <==> PaddedFullLine(n)))
    ensures n == Whole(n) ==> !PaddedFullLine(n)
  {
    var q, r := n / 57, n % 57;
    WholeSize(n);
    assert n == 3 * (19 * q) + r;
    assert n / 3 == 19 * q + r / 3 && n % 3 == r % 3;
    assert m + 4 == NEWLINE_INTERVAL * q + (r / 3 * 4 + 4);
    DivModUnique(m + 4, NEWLINE_INTERVAL, if r / 3 == 18 then q + 1 else q, if r / 3 == 18 then 0 else r / 3 * 4 + 4);
  }

  // ---- Decoding, of text without line breaks ----

  /** revchar; any other character stands for itself. */
  function RevChar(ch: byte): (v: nat)
    ensures v < 0x100
  {
    if 65 <= ch <= 90 then ch as int - 65
    else if 97 <= ch <= 122 then ch as int - 97 + 26
    else if 48 <= ch <= 57 then ch as int - 48 + 52
    else if ch == 43 then 62
    else if ch == 47 then 63
    else ch as int
  }

  /** The three bytes of a group, each cut to eight bits. */
  function First(c0: byte, c1: byte): byte {
    Or(ShiftLeft(RevChar(c0), 2), ShiftRight(And(RevChar(c1), 0x30), 4)) % 0x100
  }

  function Second(c1: byte, c2: byte): byte {
    Or(ShiftLeft(RevChar(c1), 4), ShiftRight(RevChar(c2), 2)) % 0x100
  }

  function Third(c2: byte, c3: byte): byte {
    Or(ShiftLeft(RevChar(c2), 6), RevChar(c3)) % 0x100
  }

  function DecodeBody(s: seq<byte>): seq<byte> {
    if |s| >= 4 then [First(s[0], s[1]), Second(s[1], s[2]), Third(s[2], s[3])] + DecodeBody(s[4..])
    else if |s| == 3 then [First(s[0], s[1]), Second(s[1], s[2])]
    else if |s| == 2 then [First(s[0], s[1])]
    else []
  }

  /** Where the padding is looked for inside the text: it is neither empty nor a single '='. */
  predicate Strippable(s: seq<byte>) {
    s != [] && s != [61]
  }

  function Stripped(s: seq<byte>): seq<byte>
    requires Strippable(s)
  {
    var s := if s[|s| - 1] == 61 then s[..|s| - 1] else s;
    if s[|s| - 1] == 61 then s[..|s| - 1] else s
  }

  function Decode(s: seq<byte>): seq<byte>
    requires Strippable(s)
  {
    DecodeBody(Stripped(s))
  }

  // ---- The bit operations ----

  lemma Powers()
    ensures Pow2(2) == 4 && Pow2(4) == 16 && Pow2(6) == 64 && Pow2(8) == 0x100
  {
    assert Pow2(4) == 16;
  }

  /** The encoder's index expressions. */
  lemma EncodeBits(a: byte, b: byte)
    ensures ShiftRight(a as int, 2) == a as int / 4 && And(a as int, 0x3f) == a as int % 64
    ensures Or(ShiftLeft(And(a as int, 0x03), 4), ShiftRight(b as int, 4)) == a as int % 4 * 16 + b as int / 16
    ensures Or(ShiftLeft(And(a as int, 0x0f), 2), ShiftRight(b as int, 6)) == a as int % 16 * 4 + b as int / 64
    ensures ShiftLeft(And(a as int, 0x03), 4) == a as int % 4 * 16
    ensures ShiftLeft(And(a as int, 0x0f), 2) == a as int % 16 * 4
  {
    hide And, Or, Pow2;
    Powers();
    MaskIsRemainder(a as int, 2);
    MaskIsRemainder(a as int, 4);
    MaskIsRemainder(a as int, 6);
    OrAdds(a as int % 4, b as int / 16, 4, 16);
    OrAdds(a as int % 16, b as int / 64, 2, 4);
  }

  lemma MaskHigh(x: nat)
    ensures ShiftRight(And(x, 0x30), 4) == x / 16 % 4
  {
    hide Pow2;
    Powers();
    assert And(x, 0x30) == 2 * And(x / 2, 0x18);
    assert And(x / 2, 0x18) == 2 * And(x / 4, 0xc);
    assert And(x / 4, 0xc) == 2 * And(x / 8, 6);
    assert And(x / 8, 6) == 2 * And(x / 16, 3);
    hide And;
    MaskIsRemainder(x / 16, 2);
  }

  lemma RevCharset(v: nat)
    requires v < 64
    ensures RevChar(Charset(v)) == v && Charset(v) != 61 && Charset(v) != 10
  {
  }

  /** A group decodes to the bytes it encodes. */
  lemma GroupReturns(x: nat, y: nat, z: nat, w: nat)
    requires x < 64 && y < 64 && z < 64 && w < 64
    ensures First(Charset(x), Charset(y)) == x * 4 + y / 16
    ensures Second(Charset(y), Charset(z)) == y % 16 * 16 + z / 4
    ensures Third(Charset(z), Charset(w)) == z % 4 * 64 + w
  {
    hide And, Or, Pow2, Charset, RevChar;
    Powers();
    RevCharset(x);
    RevCharset(y);
    RevCharset(z);
    RevCharset(w);
    MaskHigh(y);
    OrAdds(x, y / 16, 2, 4);
    OrAdds(y, z / 4, 4, 16);
    OrAdds(z, w, 6, 64);
  }

  // ---- Decoding undoes encoding ----

  lemma {:induction false} DecodeSplits(a: seq<byte>, b: seq<byte>)
    requires |a| % 4 == 0
    ensures DecodeBody(a + b) == DecodeBody(a) + DecodeBody(b)
  {
    hide DecodeBody, First, Second, Third;
    if a == [] {
      NothingDecoded();
      assert a + b == b && [] + DecodeBody(b) == DecodeBody(b);
    } else {
      DecodeSplits(a[4..], b);
      assert (a + b)[4..] == a[4..] + b;
      DecodeGroup(a);
      DecodeGroup(a + b);
    }
  }

  lemma DecodeGroup(s: seq<byte>)
    requires |s| >= 4
    ensures DecodeBody(s) == [First(s[0], s[1]), Second(s[1], s[2]), Third(s[2], s[3])] + DecodeBody(s[4..])
  {
  }

  lemma SixBits(a: byte, b: byte, c: byte)
    ensures var x, y, z, w := a as int / 4, a as int % 4 * 16 + b as int / 16, b as int % 16 * 4 + c as int / 64, c as int % 64;
      x * 4 + y / 16 == a as int && y % 16 * 16 + z / 4 == b as int && z % 4 * 64 + w == c as int
  {
  }

  lemma QuadReturns(a: byte, b: byte, c: byte)
    ensures DecodeBody(Quad(a, b, c)) == [a, b, c]
  {
    hide First, Second, Third, Charset;
    SixBits(a, b, c);
    GroupReturns(a as int / 4, a as int % 4 * 16 + b as int / 16, b as int % 16 * 4 + c as int / 64, c as int % 64);
    assert Quad(a, b, c)[4..] == [];
  }

  lemma {:induction false} WholeReturns(s: seq<byte>)
    requires |s| % 3 == 0
    ensures DecodeBody(Encode(s)) == s
  {
    hide DecodeBody, Quad;
    if s != [] {
      WholeReturns(s[3..]);
      QuadReturns(s[0], s[1], s[2]);
      DecodeSplits(Quad(s[0], s[1], s[2]), Encode(s[3..]));
      assert s == [s[0], s[1], s[2]] + s[3..];
    } else {
      NothingDecoded();
    }
  }

  lemma NothingDecoded()
    ensures DecodeBody([]) == []
  {
  }

  /** What is left of the encoding once the padding is cut off. */
  function Bare(s: seq<byte>): (r: seq<byte>)
    requires |s| < 3
  {
    if |s| == 0 then [] else Tail(s)[..|s| + 1]
  }

  lemma {:induction false} NoPadding(s: seq<byte>)
    requires |s| % 3 == 0 && s != []
    ensures Encode(s)[|Encode(s)| - 1] != 61
  {
    if |s| == 3 {
      assert Encode(s) == Quad(s[0], s[1], s[2]);
      RevCharset(s[2] as int % 64);
    } else {
      NoPadding(s[3..]);
    }
  }

  lemma StrippedEncode(whole: seq<byte>, tail: seq<byte>)
    requires |whole| % 3 == 0 && |tail| < 3 && whole + tail != []
    ensures |Encode(whole) + Tail(tail)| > 1
    ensures Stripped(Encode(whole) + Tail(tail)) == Encode(whole) + Bare(tail)
  {
    hide Encode, Charset, Quad, Tail, Stripped;
    var e, t := Encode(whole), Tail(tail);
    if tail == [] {
      NoPadding(whole);
      StrippedAfter(e, 0);
      assert e + t == e + Bare(tail) == e;
      assert |whole| >= 3;
    } else {
      TailPadding(tail);
      hide *;
      StrippedTail(e, t, |tail|);
      BareIs(tail);
    }
  }

  lemma BareIs(tail: seq<byte>)
    requires 0 < |tail| < 3
    ensures |Tail(tail)| == 4 && Bare(tail) == Tail(tail)[..|tail| + 1]
  {
  }

  lemma StrippedTail(e: seq<byte>, t: seq<byte>, n: nat)
    requires 1 <= n <= 2 && |t| == 4 && t[n] != 61 && forall i :: n + 1 <= i < 4 ==> t[i] == 61
    ensures |e + t| > 1 && Strippable(e + t) && Stripped(e + t) == e + t[..n + 1]
  {
    hide Stripped;
    var s := e + t;
    assert forall i :: 0 <= i < 4 ==> s[|e| + i] == t[i];
    StrippedAfter(s, 3 - n);
    assert s[..|s| - (3 - n)] == e + t[..n + 1];
  }

  /** How much padding there is, seen from the end. */
  lemma StrippedAfter(s: seq<byte>, n: nat)
    requires n <= 2 && |s| > 3 && s[|s| - 1 - n] != 61 && forall i :: |s| - n <= i < |s| ==> s[i] == 61
    ensures Stripped(s) == s[..|s| - n]
  {
    if n == 2 {
      assert s[..|s| - 1][|s| - 2] == 61;
    }
  }

  lemma TailPadding(s: seq<byte>)
    requires 0 < |s| < 3
    ensures Tail(s)[|s|] != 61 && forall i :: |s| + 1 <= i < 4 ==> Tail(s)[i] == 61
  {
    hide Charset;
    if |s| == 1 {
      RevCharset(s[0] as int % 4 * 16);
    } else {
      RevCharset(s[1] as int % 16 * 4);
    }
  }

  lemma BareReturns(s: seq<byte>)
    requires |s| < 3
    ensures DecodeBody(Bare(s)) == s
  {
    hide Charset, First, Second, Third;
    if |s| == 1 {
      var a := s[0] as int;
      GroupReturns(a / 4, a % 4 * 16, 0, 0);
    } else if |s| == 2 {
      var a, b := s[0] as int, s[1] as int;
      GroupReturns(a / 4, a % 4 * 16 + b / 16, b % 16 * 4, 0);
    }
  }

  /** The plain encoding is text the decoder takes. */
  lemma {:induction false} NoLineBreaks(s: seq<byte>)
    ensures 10 !in Encode(s)
  {
    if |s| >= 3 {
      NoLineBreaks(s[3..]);
    }
  }

  /** Decoding undoes encoding on every non-empty input. */
  lemma DecodeEncode(s: seq<byte>)
    requires s != []
    ensures Strippable(Encode(s)) && Decode(Encode(s)) == s
  {
    hide Encode, Tail, DecodeBody, Stripped, Bare;
    var w := Whole(|s|);
    PlainIsEncode(s);
    assert s[..w] + s[w..] == s && Encode(s) == Encode(s[..w]) + Tail(s[w..]);
    hide *;
    HalvesReturn(s[..w], s[w..]);
  }

  lemma HalvesReturn(whole: seq<byte>, tail: seq<byte>)
    requires |whole| % 3 == 0 && |tail| < 3 && whole + tail != []
    ensures Strippable(Encode(whole) + Tail(tail)) && Decode(Encode(whole) + Tail(tail)) == whole + tail
  {
    hide Encode, Tail, DecodeBody, Stripped, Bare;
    StrippedEncode(whole, tail);
    EncodeLength(whole);
    DecodeSplits(Encode(whole), Bare(tail));
    WholeReturns(whole);
    BareReturns(tail);
  }

  lemma EncodeLength(s: seq<byte>)
    requires |s| % 3 == 0
    ensures |Encode(s)| % 4 == 0
  {
    hide Encode;
    WholeGroups(|s|);
  }

  // ---- The code ----

  lemma WrittenNext(s: seq<byte>, i: nat, newlines: bool)
    requires i % 3 == 0 && i + 3 <= |s|
    ensures var e, q := Encode(s[..i]), Quad(s[i], s[i + 1], s[i + 2]);
      && Encode(s[..i + 3]) == e + q
      && Broken(e + q) == Broken(e) + q + if FillsLine(|e|) then [10] else []
  {
    hide Broken, Quad, Encode, FillsLine;
    var e, q := Encode(s[..i]), Quad(s[i], s[i + 1], s[i + 2]);
    EncodeSplits(s[..i], s[i..i + 3]);
    assert s[..i + 3] == s[..i] + s[i..i + 3];
    OneGroup(s[i..i + 3]);
    WholeGroups(i);
    BrokenAppend(e, q);
  }

  lemma OneGroup(s: seq<byte>)
    requires |s| == 3
    ensures Encode(s) == Quad(s[0], s[1], s[2])
  {
    hide Quad;
    assert Encode(s) == Quad(s[0], s[1], s[2]) + [];
  }

  lemma WholeGroups(n: nat)
    requires n % 3 == 0
    ensures Groups(n) % 4 == 0
  {
  }

  /** The four characters of a group. */
  method WriteGroup(out: array<byte>, at: nat, a: byte, b: byte, c: byte)
    requires at + 4 <= out.Length
    modifies out
    ensures out[at..at + 4] == Quad(a, b, c)
    ensures forall k :: 0 <= k < out.Length && !(at <= k < at + 4) ==> out[k] == old(out[k])
  {
    hide And, Or, ShiftLeft, ShiftRight, Charset;
    EncodeBits(a, b);
    EncodeBits(b, c);
    EncodeBits(c, 0);
    out[at] := Charset(ShiftRight(a as int, 2));
    out[at + 1] := Charset(Or(ShiftLeft(And(a as int, 0x03), 4), ShiftRight(b as int, 4)));
    out[at + 2] := Charset(Or(ShiftLeft(And(b as int, 0x0f), 2), ShiftRight(c as int, 6)));
    out[at + 3] := Charset(And(c as int, 0x3f));
  }

  /** The characters of the last one or two bytes. */
  method WriteTail(out: array<byte>, at: nat, s: seq<byte>)
    requires 0 < |s| < 3 && at + 4 <= out.Length
    modifies out
    ensures out[at..at + 4] == Tail(s)
    ensures forall k :: 0 <= k < out.Length && !(at <= k < at + 4) ==> out[k] == old(out[k])
  {
    hide And, Or, ShiftLeft, ShiftRight, Charset;
    if |s| == 1 {
      EncodeBits(s[0], 0);
      out[at] := Charset(ShiftRight(s[0] as int, 2));
      out[at + 1] := Charset(ShiftLeft(And(s[0] as int, 0x03), 4));
      out[at + 2] := 61;
      out[at + 3] := 61;
    } else {
      EncodeBits(s[0], s[1]);
      EncodeBits(s[1], 0);
      out[at] := Charset(ShiftRight(s[0] as int, 2));
      out[at + 1] := Charset(Or(ShiftLeft(And(s[0] as int, 0x03), 4), ShiftRight(s[1] as int, 4)));
      out[at + 2] := Charset(ShiftLeft(And(s[1] as int, 0x0f), 2));
      out[at + 3] := 61;
    }
  }

  /** What the loop has written when it reaches input byte i. */
  function Lines(s: seq<byte>, i: nat, newlines: bool): seq<byte>
    requires i <= |s|
  {
    if newlines then Broken(Encode(s[..i])) else Encode(s[..i])
  }

  lemma LinesFit(s: seq<byte>, i: nat, newlines: bool)
    requires i % 3 == 0 && i + 3 <= |s|
    ensures var q := Quad(s[i], s[i + 1], s[i + 2]);
      Lines(s, i + 3, newlines) == Lines(s, i, newlines) + q + if newlines && FillsLine(|Encode(s[..i])|) then [10] else []
    ensures |Lines(s, i + 3, newlines)| + (if |s| % 3 != 0 then 4 else 0) <= EncodedSize(|s|, newlines)
  {
    hide Encode, Broken, Quad, FillsLine, EncodedSize;
    WrittenNext(s, i, newlines);
    LinesBound(s, i + 3, newlines);
    var q := Quad(s[i], s[i + 1], s[i + 2]);
    assert Encode(s[..i]) + q == Encode(s[..i]) + q + [];
  }

  lemma LinesBound(s: seq<byte>, i: nat, newlines: bool)
    requires i % 3 == 0 && i <= |s|
    ensures |Lines(s, i, newlines)| + (if |s| % 3 != 0 then 4 else 0) <= EncodedSize(|s|, newlines)
  {
    BrokenSize(Encode(s[..i]));
    hide Encode, Broken;
    LinesSize(|s|, i);
  }

  lemma LinesSize(n: nat, i: nat)
    requires i % 3 == 0 && i <= n
    ensures Groups(i) <= n / 3 * 4 && Groups(i) / NEWLINE_INTERVAL <= n / 57
  {
    assert Groups(i) == i / 3 * 4;
    assert Groups(i) / NEWLINE_INTERVAL == i / 3 / 19;
  }

  /** base64_encode, size-only where there is no output. */
  method Base64Encode(input: seq<byte>, out: array?<byte>, newlines: bool) returns (size: nat)
    requires out != null ==> out.Length >= EncodedSize(|input|, newlines)
    modifies if out == null then {} else {out}
    ensures size == EncodedSize(|input|, newlines)
    ensures out != null ==> out[..size] == Written(input, newlines)
    ensures out != null ==> forall k :: size <= k < out.Length ==> out[k] == old(out[k])
  {
    hide Written, Encode, Broken, Tail, Quad, Lines, Groups, Whole;
    var blks := |input| / 3;
    var leftOver := |input| % 3;
    WrittenSize(input, newlines);
    if out == null {
      size := blks * 4;
      if leftOver > 0 {
        size := size + 4;
      }
      if newlines {
        size := size + |input| / 57;
      }
    } else {
      var whole;
      size, whole := WriteGroups(input, out, newlines);
      ghost var lines := out[..size];
      hide *;
      WrittenIs(input, newlines);
      if leftOver > 0 {
        WriteTail(out, size, input[whole..]);
        size := size + 4;
        assert out[..size] == lines + out[size - 4..size];
      }
    }
  }

  lemma WrittenIs(s: seq<byte>, newlines: bool)
    ensures Whole(|s|) <= |s| < Whole(|s|) + 3 && |s| - Whole(|s|) == |s| % 3
    ensures Written(s, newlines) == Lines(s, Whole(|s|), newlines) + Tail(s[Whole(|s|)..])
    ensures |s| % 3 == 0 ==> Written(s, newlines) == Lines(s, Whole(|s|), newlines)
  {
    hide Encode, Broken;
    var l := Lines(s, Whole(|s|), newlines);
    assert l + [] == l;
  }

  /** The encoder's loop over whole groups. */
  method WriteGroups(input: seq<byte>, out: array<byte>, newlines: bool) returns (size: nat, idx: nat)
    requires out.Length >= EncodedSize(|input|, newlines)
    modifies out
    ensures idx == Whole(|input|) && size == |Lines(input, idx, newlines)|
    ensures size + (if |input| % 3 != 0 then 4 else 0) <= out.Length
    ensures out[..size] == Lines(input, idx, newlines)
    ensures forall k :: size <= k < out.Length ==> out[k] == old(out[k])
  {
    hide Lines, Quad, EncodedSize, FillsLine, Encode;
    var ceiling := Whole(|input|);
    var newlineCount := 0;
    size, idx := 0, 0;
    LinesNone(input, newlines);
    while idx < ceiling
      invariant idx % 3 == 0 && idx <= ceiling && size <= out.Length
      invariant size - newlineCount == |Encode(input[..idx])|
      invariant out[..size] == Lines(input, idx, newlines)
      invariant size + (if |input| % 3 != 0 then 4 else 0) <= out.Length
      invariant forall k :: size <= k < out.Length ==> out[k] == old(out[k])
    {
      LinesFit(input, idx, newlines);
      EncodedNext(input, idx);
      var broke := FillsLine(size - newlineCount) && newlines;
      WriteBroken(out, size, input[idx], input[idx + 1], input[idx + 2], broke);
      if broke {
        size := size + 1;
        newlineCount := newlineCount + 1;
      }
      idx := idx + 3;
      size := size + 4;
    }
  }

  /** One group behind what is written, and a line break behind it where the line is full. */
  method WriteBroken(out: array<byte>, at: nat, a: byte, b: byte, c: byte, broke: bool)
    requires at + 4 + (if broke then 1 else 0) <= out.Length
    modifies out
    ensures out[..at + 4 + (if broke then 1 else 0)] == old(out[..at]) + Quad(a, b, c) + if broke then [10] else []
    ensures forall k :: at + 4 + (if broke then 1 else 0) <= k < out.Length ==> out[k] == old(out[k])
  {
    hide Quad;
    ghost var before := out[..at];
    WriteGroup(out, at, a, b, c);
    assert out[..at] == before;
    assert out[..at + 4] == out[..at] + out[at..at + 4];
    if broke {
      out[at + 4] := 10;
    }
  }

  lemma EncodedNext(s: seq<byte>, i: nat)
    requires i % 3 == 0 && i + 3 <= |s|
    ensures |Encode(s[..i + 3])| == |Encode(s[..i])| + 4
  {
    hide Encode, Broken, Quad;
    WrittenNext(s, i, false);
  }

  lemma LinesNone(s: seq<byte>, newlines: bool)
    ensures Lines(s, 0, newlines) == [] && Encode(s[..0]) == []
    ensures (if |s| % 3 != 0 then 4 else 0) <= EncodedSize(|s|, newlines)
  {
  }

  /** The bytes the size-only call of the decoder counts. */
  function DecodedSize(len: nat): nat {
    len / 4 * 3 + (if len % 4 == 2 then 1 else if len % 4 == 3 then 2 else 0)
  }

  lemma {:induction false} DecodedLength(s: seq<byte>)
    ensures |DecodeBody(s)| == DecodedSize(|s|)
  {
    if |s| >= 4 {
      DecodedLength(s[4..]);
    }
  }

  // ---- The decoder on any text ----

  /** Where the group at position i begins: behind a line break, if one stands there. */
  function GroupStart(s: seq<byte>, i: nat): nat
    requires i < |s|
  {
    if s[i] == 10 then i + 1 else i
  }

  /** The two or three characters behind the whole groups of len characters; None where they are looked for behind the text. */
  function DecodeLast(s: seq<byte>, i: nat, len: nat): (r: Option<seq<byte>>)
    ensures r.Some? ==> |r.value| == if len % 4 == 2 then 1 else if len % 4 == 3 then 2 else 0
  {
    if len % 4 < 2 then Some([])
    else if i + len % 4 > |s| then None
    else if len % 4 == 2 then Some([First(s[i], s[i + 1])])
    else Some([First(s[i], s[i + 1]), Second(s[i + 1], s[i + 2])])
  }

  /** What the loop of the decoder writes from position i on; line breaks are skipped but counted in len. */
  function DecodeFrom(s: seq<byte>, i: nat, len: nat): Option<seq<byte>>
    requires len <= |s|
    decreases |s| - i
  {
    if i >= len / 4 * 4 then DecodeLast(s, i, len)
    else
      var j := GroupStart(s, i);
      if j + 4 > |s| then None
      else
        match DecodeFrom(s, j + 4, len)
        case None => None
        case Some(r) => Some([First(s[j], s[j + 1]), Second(s[j + 1], s[j + 2]), Third(s[j + 2], s[j + 3])] + r)
  }

  /** What the writing call writes; None where it reads behind the text. */
  function DecodeText(s: seq<byte>): Option<seq<byte>>
    requires Strippable(s)
  {
    DecodeFrom(s, 0, |Stripped(s)|)
  }

  /** What the size-only call counts: a line break in the 77th place stands for one in every line. */
  function CountedSize(s: seq<byte>): nat
    requires Strippable(s)
  {
    var len := |Stripped(s)|;
    DecodedSize(if len >= NEWLINE_INTERVAL + 1 && s[NEWLINE_INTERVAL] == 10 then len - len / (NEWLINE_INTERVAL + 1) else len)
  }

  /** Text without line breaks decodes as its groups do. */
  lemma {:induction false} PlainFrom(s: seq<byte>, i: nat, len: nat)
    requires len <= |s| && 10 !in s && i % 4 == 0 && i <= len
    ensures DecodeFrom(s, i, len) == Some(DecodeBody(s[i..len]))
    decreases |s| - i
  {
    hide First, Second, Third;
    var r := s[i..len];
    if i < len / 4 * 4 {
      assert s[i] in s;
      PlainFrom(s, i + 4, len);
      assert r[4..] == s[i + 4..len];
      assert r[0] == s[i] && r[1] == s[i + 1] && r[2] == s[i + 2] && r[3] == s[i + 3];
    } else {
      RestDecoded(r);
    }
  }

  /** On text without line breaks both calls agree with the standard's decoding. */
  lemma PlainDecoded(s: seq<byte>)
    requires Strippable(s) && 10 !in s
    ensures DecodeText(s) == Some(Decode(s)) && CountedSize(s) == |Decode(s)|
  {
    hide DecodeFrom, DecodeBody;
    var len := |Stripped(s)|;
    PlainFrom(s, 0, len);
    assert s[0..len] == Stripped(s);
    DecodedLength(Stripped(s));
    assert len >= NEWLINE_INTERVAL + 1 ==> s[NEWLINE_INTERVAL] in s;
  }

  lemma RestDecoded(s: seq<byte>)
    requires |s| < 4
    ensures DecodeBody(s) == if |s| < 2 then [] else if |s| == 2 then [First(s[0], s[1])]
      else [First(s[0], s[1]), Second(s[1], s[2])]
  {
    hide First, Second, Third;
  }

  /** base64_decode: its length argument without the padding. */
  method StripPadding(input: seq<byte>) returns (len: nat)
    requires Strippable(input)
    ensures len == |Stripped(input)| <= |input|
  {
    len := |input|;
    if input[len - 1] == 61 {
      len := len - 1;
    }
    if input[len - 1] == 61 {
      len := len - 1;
    }
  }

  /** base64_decode, size-only where there is no output; not ok where it reads behind the text. */
  method Base64Decode(input: seq<byte>, out: array?<byte>) returns (ok: bool, size: nat)
    requires Strippable(input)
    requires out != null ==> out.Length >= DecodedSize(|Stripped(input)|)
    modifies if out == null then {} else {out}
    ensures out == null ==> ok && size == CountedSize(input)
    ensures out != null ==> (ok <==> DecodeText(input).Some?)
    ensures out != null && ok ==>
      size == |DecodeText(input).value| <= out.Length && out[..size] == DecodeText(input).value
    ensures out != null && ok ==> forall k :: size <= k < out.Length ==> out[k] == old(out[k])
  {
    hide First, Second, Third, DecodeFrom, Stripped;
    var len := StripPadding(input);
    ok := true;
    if out == null {
      if len >= 77 && input[NEWLINE_INTERVAL] == 10 {
        len := len - len / (NEWLINE_INTERVAL + 1);
      }
      size := len / 4 * 3;
      if len % 4 == 2 {
        size := size + 1;
      } else if len % 4 == 3 {
        size := size + 2;
      }
    } else {
      ok, size := DecodeGroups(input, len, out);
    }
  }

  /** What the loop knows at position i, with idx bytes written. */
  ghost predicate Decoding(s: seq<byte>, len: nat, i: nat, done: seq<byte>)
    requires len <= |s|
  {
    DecodeFrom(s, 0, len) == match DecodeFrom(s, i, len) { case None => None case Some(r) => Some(done + r) }
  }

  lemma DecodingStarts(s: seq<byte>, len: nat)
    requires len <= |s|
    ensures Decoding(s, len, 0, [])
  {
    hide DecodeFrom;
    var r := DecodeFrom(s, 0, len);
    assert r.Some? ==> [] + r.value == r.value;
  }

  lemma DecodingStep(s: seq<byte>, len: nat, i: nat, done: seq<byte>)
    requires len <= |s| && i < len / 4 * 4 && Decoding(s, len, i, done)
    ensures var j := GroupStart(s, i);
      && (j + 4 > |s| ==> DecodeFrom(s, 0, len).None?)
      && (j + 4 <= |s| ==>
            Decoding(s, len, j + 4, done + [First(s[j], s[j + 1]), Second(s[j + 1], s[j + 2]), Third(s[j + 2], s[j + 3])]))
  {
    var j := GroupStart(s, i);
    if j + 4 <= |s| && DecodeFrom(s, j + 4, len).Some? {
      Regrouped(done, [First(s[j], s[j + 1]), Second(s[j + 1], s[j + 2]), Third(s[j + 2], s[j + 3])],
        DecodeFrom(s, j + 4, len).value);
    }
    hide First, Second, Third;
  }

  lemma Regrouped(a: seq<byte>, b: seq<byte>, c: seq<byte>)
    ensures a + (b + c) == a + b + c
  {
  }

  /** The decoder's loop, and the characters behind it. */
  method DecodeGroups(s: seq<byte>, len: nat, out: array<byte>) returns (ok: bool, idx: nat)
    requires len <= |s| && out.Length >= DecodedSize(len)
    modifies out
    ensures ok <==> DecodeFrom(s, 0, len).Some?
    ensures ok ==> idx == |DecodeFrom(s, 0, len).value| <= out.Length && out[..idx] == DecodeFrom(s, 0, len).value
    ensures ok ==> forall k :: idx <= k < out.Length ==> out[k] == old(out[k])
  {
    hide First, Second, Third, DecodeFrom, Decoding;
    var ceiling := len / 4 * 4;
    var idx2 := 0;
    idx := 0;
    DecodingStarts(s, len);
    while idx2 < ceiling
      invariant 4 * idx <= 3 * idx2 && idx % 3 == 0 && idx <= ceiling / 4 * 3
      invariant Decoding(s, len, idx2, out[..idx])
      invariant forall k :: idx <= k < out.Length ==> out[k] == old(out[k])
    {
      DecodingStep(s, len, idx2, out[..idx]);
      if s[idx2] == 10 {
        idx2 := idx2 + 1;
      }
      if idx2 + 4 > |s| {
        return false, idx;
      }
      DecodeGroupAt(s, idx2, out, idx);
      idx, idx2 := idx + 3, idx2 + 4;
    }
    DecodingEnds(s, len, idx2, out[..idx]);
    ok, idx := DecodeTail(s, idx2, len, out, idx);
  }

  /** One group's three bytes. */
  method DecodeGroupAt(s: seq<byte>, j: nat, out: array<byte>, idx: nat)
    requires j + 4 <= |s| && idx + 3 <= out.Length
    modifies out
    ensures out[..idx + 3] ==
      old(out[..idx]) + [First(s[j], s[j + 1]), Second(s[j + 1], s[j + 2]), Third(s[j + 2], s[j + 3])]
    ensures forall k :: idx + 3 <= k < out.Length ==> out[k] == old(out[k])
  {
    hide First, Second, Third;
    out[idx] := First(s[j], s[j + 1]);
    out[idx + 1] := Second(s[j + 1], s[j + 2]);
    out[idx + 2] := Third(s[j + 2], s[j + 3]);
  }

  lemma DecodingEnds(s: seq<byte>, len: nat, i: nat, done: seq<byte>)
    requires len <= |s| && i >= len / 4 * 4 && Decoding(s, len, i, done)
    ensures DecodeFrom(s, 0, len) == match DecodeLast(s, i, len) { case None => None case Some(r) => Some(done + r) }
  {
    hide DecodeLast;
  }

  /** The two or three characters behind the whole groups. */
  method DecodeTail(s: seq<byte>, i: nat, len: nat, out: array<byte>, idx: nat) returns (ok: bool, size: nat)
    requires idx + DecodedSize(len % 4) <= out.Length
    modifies out
    ensures ok <==> DecodeLast(s, i, len).Some?
    ensures ok ==> size == idx + |DecodeLast(s, i, len).value| <= out.Length
    ensures ok ==> out[..size] == old(out[..idx]) + DecodeLast(s, i, len).value
    ensures ok ==> forall k :: size <= k < out.Length ==> out[k] == old(out[k])
  {
    hide First, Second;
    ok, size := len % 4 < 2 || i + len % 4 <= |s|, idx;
    if !ok {
      return;
    }
    if len % 4 == 2 {
      out[idx] := First(s[i], s[i + 1]);
      size := size + 1;
    } else if len % 4 == 3 {
      out[idx] := First(s[i], s[i + 1]);
      out[idx + 1] := Second(s[i + 1], s[i + 2]);
      size := size + 2;
    }
  }
}
