/**
  * The escapes of JSON strings against their own tables, written out: section 7 of RFC 8259 for
  * reading, and dump.c's choice of what to escape for writing.
  */
module JsonEscapes {
  import opened Bytes
  import opened Utf8
  import opened JsonValue
  import opened JsonGrammar
  import opened JsonLex
  import JsonParse
  import JsonComplete
  import opened JsonDump
  import JsonRoundTrip

  const LOWER: string := "0123456789abcdef"
  const UPPER: string := "0123456789ABCDEF"

  // ---- Reading ----

  /** A hexadecimal digit in either case. */
  function HexLetter(v: nat, upper: bool): byte
    requires v < 16
  {
    (if upper then UPPER else LOWER)[v] as int
  }

  /** The four digits of a 16-bit number, each in its own case. */
  function FourLetters(v: nat, upper: seq<bool>): seq<byte>
    requires v < 0x10000 && |upper| == 4
  {
    [HexLetter(v / 4096, upper[0]), HexLetter(v / 256 % 16, upper[1]), HexLetter(v / 16 % 16, upper[2]),
     HexLetter(v % 16, upper[3])]
  }

  /** Both alphabets count from zero, and no other byte is a digit. */
  lemma HexDigits(b: byte, v: nat)
    requires v < 16
    ensures HexDigit(b) && HexValue(b) == v <==> b == LOWER[v] as int || b == UPPER[v] as int
  {
    assert LOWER[v] as int == if v < 10 then 48 + v else 87 + v;
    assert UPPER[v] as int == if v < 10 then 48 + v else 55 + v;
  }

  lemma FourLettersValue(v: nat, upper: seq<bool>)
    requires v < 0x10000 && |upper| == 4
    ensures Hex4(FourLetters(v, upper)) && Hex4Value(FourLetters(v, upper)) == v
  {
    HexDigits(HexLetter(v / 4096, upper[0]), v / 4096);
    HexDigits(HexLetter(v / 256 % 16, upper[1]), v / 256 % 16);
    HexDigits(HexLetter(v / 16 % 16, upper[2]), v / 16 % 16);
    HexDigits(HexLetter(v % 16, upper[3]), v % 16);
    hide HexLetter, HexValue, HexDigit;
    JsonRoundTrip.Nibbles(v);
  }

  /** A code point as one escape, or as the two halves of a surrogate pair, in any mixture of cases. */
  function UnicodeEscape(cp: int, upper: seq<bool>): seq<byte>
    requires Scalar(cp) && |upper| == 8
  {
    if cp < 0x10000 then
      Chars("\\u") + FourLetters(cp, upper[..4])
    else
      Chars("\\u") + FourLetters(0xD800 + (cp - 0x10000) / 0x400, upper[..4])
      + Chars("\\u") + FourLetters(0xDC00 + (cp - 0x10000) % 0x400, upper[4..])
  }

  lemma UnicodeSyntax(cp: int, upper: seq<bool>) returns (c: SChar)
    requires Scalar(cp) && |upper| == 8
    ensures SCharOk(c) && SCharText(c) == UnicodeEscape(cp, upper) && SCharValue(c) == Encode(cp)
  {
    hide FourLetters, Hex4Value, Hex4, Encode, PairValue;
    assert Chars("\\u") == [92, 117];
    if cp < 0x10000 {
      FourLettersValue(cp, upper[..4]);
      c := Unit(FourLetters(cp, upper[..4]));
    } else {
      var high, low := 0xD800 + (cp - 0x10000) / 0x400, 0xDC00 + (cp - 0x10000) % 0x400;
      JsonRoundTrip.PairBack(cp);
      FourLettersValue(high, upper[..4]);
      FourLettersValue(low, upper[4..]);
      c := SChar.Pair(FourLetters(high, upper[..4]), FourLetters(low, upper[4..]));
    }
  }

  /** A character loads as a member of an array: the whole text, from bracket to bracket. */
  lemma CharacterLoads(c: SChar, opt: Options)
    requires SCharOk(c) && Ascii(SCharText(c)) && (opt.allowNul || 0 !in SCharValue(c))
    ensures JsonParse.Load(Chars("[\"") + SCharText(c) + Chars("\"]"), opt) == Some(Array([String(SCharValue(c))]))
  {
    hide SCharText, SCharValue, SCharOk, JsonParse.Load;
    var cs := [c];
    OneCharacter(c);
    hide CharsText, CharsValue, CharsOk;
    var es := Elem([], Str(cs), [], NoElem);
    var doc := Document([], Arr([], es), []);
    var text := Chars("[\"") + SCharText(c) + Chars("\"]");
    ArrayOfOne(cs);
    assert DocumentText(doc) == text;
    assert Chars("[\"") == [91, 34] && Chars("\"]") == [34, 93];
    assert Ascii(text);
    AsciiIsUtf8(text);
    assert ElemsOk(NoElem, opt) && ElemsValue(NoElem, opt) == [] && ElemsDepth(NoElem) == 0;
    assert Ok(Str(cs), opt) && Value(Str(cs), opt) == String(SCharValue(c)) && Depth(Str(cs)) == 1;
    assert ElemsOk(es, opt) && ElemsValue(es, opt) == [String(SCharValue(c))] && ElemsDepth(es) == 1;
    JsonComplete.DocumentComplete(doc, opt);
  }

  lemma OneCharacter(c: SChar)
    requires SCharOk(c)
    ensures CharsOk([c]) && CharsText([c]) == SCharText(c) && CharsValue([c]) == SCharValue(c)
  {
    hide SCharText, SCharValue, SCharOk;
    assert [c][1..] == [];
    assert CharsText([]) == [] && CharsValue([]) == [];
    assert SCharText(c) + [] == SCharText(c) && SCharValue(c) + [] == SCharValue(c);
  }

  lemma ArrayOfOne(cs: seq<SChar>)
    ensures var es := Elem([], Str(cs), [], NoElem);
      DocumentText(Document([], Arr([], es), [])) == Chars("[\"") + CharsText(cs) + Chars("\"]")
  {
    hide CharsText;
    var es := Elem([], Str(cs), [], NoElem);
    assert Chars("[\"") == [91, 34] && Chars("\"]") == [34, 93];
    assert Text(es.item) == [34] + CharsText(cs) + [34];
    assert ElemsText(es) == [34] + CharsText(cs) + [34];
  }

  lemma EscapeAscii(c: SChar)
    requires SCharOk(c) && !c.Raw?
    ensures Ascii(SCharText(c))
  {
  }

  lemma NoNulByte(cp: int)
    requires Scalar(cp)
    ensures 0 in Encode(cp) <==> cp == 0
  {
    if cp == 0 {
      assert Encode(cp)[0] == 0;
    }
  }

  /** Every Unicode escape loads as the UTF-8 encoding of its scalar value, whatever the case of its digits. */
  lemma UnicodeEscapeLoads(cp: int, upper: seq<bool>, opt: Options)
    requires Scalar(cp) && |upper| == 8 && (cp != 0 || opt.allowNul)
    ensures JsonParse.Load(Chars("[\"") + UnicodeEscape(cp, upper) + Chars("\"]"), opt)
         == Some(Array([String(Encode(cp))]))
  {
    var c := UnicodeSyntax(cp, upper);
    EscapeAscii(c);
    NoNulByte(cp);
    hide SCharText, SCharValue, SCharOk, UnicodeEscape;
    CharacterLoads(c, opt);
  }

  const SHORT: string := "\"\\/bfnrt"

  /** What the eight short escapes stand for: quote, backslash, slash, BS, FF, LF, CR, HT. */
  const SHORT_MEANS: seq<byte> := [0x22, 0x5C, 0x2F, 0x08, 0x0C, 0x0A, 0x0D, 0x09]

  lemma ShortEscapes(e: byte)
    ensures ShortEscape(e) <==> exists i :: 0 <= i < 8 && e == SHORT[i] as int
    ensures forall i :: 0 <= i < 8 && e == SHORT[i] as int ==> ShortValue(e) == SHORT_MEANS[i]
  {
    assert |SHORT| == 8;
    assert SHORT[0] as int == 34 && SHORT[1] as int == 92 && SHORT[2] as int == 47 && SHORT[3] as int == 98;
    assert SHORT[4] as int == 102 && SHORT[5] as int == 110 && SHORT[6] as int == 114 && SHORT[7] as int == 116;
  }

  /** Every short escape loads as the byte it stands for. */
  lemma ShortEscapeLoads(i: nat, opt: Options)
    requires i < 8
    ensures JsonParse.Load(Chars("[\"") + [92, SHORT[i] as int] + Chars("\"]"), opt)
         == Some(Array([String([SHORT_MEANS[i]])]))
  {
    ShortEscapes(SHORT[i] as int);
    var c := Short(SHORT[i] as int);
    CharacterLoads(c, opt);
  }

  // ---- Writing ----

  /** One character as dump.c writes it. */
  function Shown(cp: int, f: Flags): seq<byte>
    requires Scalar(cp)
  {
    if cp == '"' as int then Chars("\\\"")
    else if cp == '\\' as int then Chars("\\\\")
    else if cp == 0x08 then Chars("\\b")
    else if cp == 0x0C then Chars("\\f")
    else if cp == 0x0A then Chars("\\n")
    else if cp == 0x0D then Chars("\\r")
    else if cp == 0x09 then Chars("\\t")
    else if cp < 0x20 then Chars("\\u00") + [UPPER[cp / 16] as int, UPPER[cp % 16] as int]
    else if cp == '/' as int && f.escapeSlash then Chars("\\/")
    else if cp > 0x7F && f.ensureAscii then UnicodeEscape(cp, seq(8, _ => true))
    else Encode(cp)
  }

  function ShownAll(cps: seq<int>, f: Flags): seq<byte>
    requires Scalars(cps)
  {
    if cps == [] then [] else Shown(cps[0], f) + ShownAll(cps[1..], f)
  }

  lemma UpperLetter(v: nat)
    requires v < 16
    ensures HexChar(v) == UPPER[v] as int
  {
  }

  lemma UpperLetters(v: nat, upper: seq<bool>)
    requires v < 0x10000 && |upper| == 4 && forall i :: 0 <= i < 4 ==> upper[i]
    ensures Hex4Text(v) == FourLetters(v, upper)
  {
    UpperLetter(v / 4096);
    UpperLetter(v / 256 % 16);
    UpperLetter(v / 16 % 16);
    UpperLetter(v % 16);
    hide HexChar;
  }

  lemma EscapeShown(cp: int, f: Flags)
    requires Scalar(cp)
    ensures Shown(cp, f) == if NeedsEscape(cp, f) then EscapeText(cp) else Encode(cp)
  {
    if NeedsEscape(cp, f) && ShortLetter(cp).None? {
      LongEscape(cp, f);
    }
  }

  lemma LongEscape(cp: int, f: Flags)
    requires Scalar(cp) && NeedsEscape(cp, f) && ShortLetter(cp).None?
    ensures Shown(cp, f) == EscapeText(cp)
  {
    if cp < 0x20 {
      hide Hex4Text;
      ControlLetters(cp);
    } else {
      LongUnicode(cp, seq(8, _ => true));
      hide UnicodeEscape, EscapeText;
    }
  }

  /** %04X writes capitals, once or twice. */
  lemma LongUnicode(cp: int, upper: seq<bool>)
    requires Scalar(cp) && ShortLetter(cp).None? && |upper| == 8 && forall i :: 0 <= i < 8 ==> upper[i]
    ensures EscapeText(cp) == UnicodeEscape(cp, upper)
  {
    hide Hex4Text, FourLetters, ShortLetter;
    assert Chars("\\u") == [92, 117];
    if cp < 0x10000 {
      UpperLetters(cp, upper[..4]);
    } else {
      var high, low := 0xD800 + (cp - 0x10000) / 1024, 0xDC00 + (cp - 0x10000) % 1024;
      UpperLetters(high, upper[..4]);
      UpperLetters(low, upper[4..]);
      JsonRoundTrip.Regrouped([92, 117] + Hex4Text(high), [92, 117], Hex4Text(low));
    }
  }

  lemma ControlLetters(cp: nat)
    requires cp < 0x20
    ensures [92, 117] + Hex4Text(cp) == Chars("\\u00") + [UPPER[cp / 16] as int, UPPER[cp % 16] as int]
  {
    UpperLetter(0);
    UpperLetter(cp / 16);
    UpperLetter(cp % 16);
    hide HexChar;
    assert UPPER[0] as int == 48;
    assert Chars("\\u00") == [92, 117, 48, 48];
    assert cp / 4096 == 0 && cp / 256 % 16 == 0 && cp / 16 % 16 == cp / 16;
  }

  lemma {:induction false} BodyShown(cps: seq<int>, run: seq<byte>, f: Flags)
    requires Scalars(cps)
    ensures StringBody(EncodeAll(cps), run, f) == Written(run + ShownAll(cps, f), true)
  {
    hide First, Encode, Shown, EscapeText, NeedsEscape;
    if cps == [] {
      assert run + [] == run;
    } else {
      var s := EncodeAll(cps);
      var cp, rest := cps[0], cps[1..];
      FirstOfEncode(cp, EncodeAll(rest));
      EscapeShown(cp, f);
      assert s[..|Encode(cp)|] == Encode(cp) && s[|Encode(cp)|..] == EncodeAll(rest);
      if NeedsEscape(cp, f) {
        BodyShown(rest, [], f);
        assert [] + ShownAll(rest, f) == ShownAll(rest, f);
      } else {
        BodyShown(rest, run + Encode(cp), f);
      }
      JsonRoundTrip.Regrouped(run, Shown(cp, f), ShownAll(rest, f));
    }
  }

  /** A string is written character by character, each by the table, between quotes. */
  lemma StringShown(cps: seq<int>, f: Flags)
    requires Scalars(cps)
    ensures StringOut(EncodeAll(cps), f) == Written([34] + ShownAll(cps, f) + [34], true)
  {
    hide StringBody;
    BodyShown(cps, [], f);
    assert [] + ShownAll(cps, f) == ShownAll(cps, f);
  }

  /** A byte that stands for itself under the flags. */
  predicate Itself(b: byte, f: Flags) {
    b >= 0x20 && b != '"' as int && b != '\\' as int && (f.escapeSlash ==> b != '/' as int)
    && (f.ensureAscii ==> b < 0x80)
  }

  predicate AllItself(s: seq<byte>, f: Flags) { forall i :: 0 <= i < |s| ==> Itself(s[i], f) }

  lemma ShownLength(cp: int, f: Flags)
    requires Scalar(cp)
    ensures AllItself(Encode(cp), f) ==> Shown(cp, f) == Encode(cp)
    ensures !AllItself(Encode(cp), f) ==> |Shown(cp, f)| > |Encode(cp)|
  {
    if cp < 0x80 {
      assert Encode(cp)[0] == cp;
    } else {
      assert Encode(cp)[0] >= 0x80;
      HighBytes(cp);
    }
  }

  lemma {:induction false} ShownSame(cps: seq<int>, f: Flags)
    requires Scalars(cps)
    ensures |ShownAll(cps, f)| >= |EncodeAll(cps)|
    ensures ShownAll(cps, f) == EncodeAll(cps) <==> AllItself(EncodeAll(cps), f)
  {
    if cps != [] {
      hide Encode, Shown, Itself;
      var e, more := Encode(cps[0]), EncodeAll(cps[1..]);
      ShownLength(cps[0], f);
      ShownSame(cps[1..], f);
      assert AllItself(e + more, f) <==> AllItself(e, f) && AllItself(more, f) by {
        assert forall i :: 0 <= i < |e| ==> (e + more)[i] == e[i];
        assert forall i :: 0 <= i < |more| ==> (e + more)[|e| + i] == more[i];
      }
      if Shown(cps[0], f) == e && Shown(cps[0], f) + ShownAll(cps[1..], f) == e + more {
        assert ShownAll(cps[1..], f) == (e + more)[|e|..] == more;
      }
    }
  }

  /** A string is written as it is, between quotes, exactly when each of its bytes stands for itself. */
  lemma WrittenAsItIs(s: seq<byte>, f: Flags)
    requires IsUtf8(s)
    ensures StringOut(s, f).text == [34] + s + [34] <==> AllItself(s, f)
  {
    hide EncodeAll, ShownAll, AllItself, StringOut;
    var cps :| Scalars(cps) && EncodeAll(cps) == s;
    StringShown(cps, f);
    ShownSame(cps, f);
    Between(ShownAll(cps, f), s);
  }

  lemma Between(a: seq<byte>, b: seq<byte>)
    ensures [34] + a + [34] == [34] + b + [34] <==> a == b
  {
    var x, y := [34] + a + [34], [34] + b + [34];
    if x == y {
      assert |a| == |b|;
      assert a == x[1..1 + |a|] && b == y[1..1 + |b|];
    }
  }

  lemma {:induction false} ShownConcat(a: seq<int>, b: seq<int>, f: Flags)
    requires Scalars(a) && Scalars(b)
    ensures ShownAll(a + b, f) == ShownAll(a, f) + ShownAll(b, f)
  {
    hide Shown;
    if a == [] {
      assert a + b == b;
    } else {
      ShownConcat(a[1..], b, f);
      assert (a + b)[1..] == a[1..] + b;
      JsonRoundTrip.Regrouped(Shown(a[0], f), ShownAll(a[1..], f), ShownAll(b, f));
    }
  }

  /** Without ensureAscii, every character above 0x7F stands in the output as its own bytes. */
  lemma HighCharactersKept(a: seq<int>, cp: int, b: seq<int>, f: Flags)
    requires Scalars(a) && Scalars(b) && Scalar(cp) && cp > 0x7F && !f.ensureAscii
    ensures Scalars(a + [cp] + b)
    ensures StringOut(EncodeAll(a + [cp] + b), f).text == [34] + (ShownAll(a, f) + Encode(cp) + ShownAll(b, f)) + [34]
  {
    hide Encode, EncodeAll, StringOut;
    StringShown(a + [cp] + b, f);
    ShownConcat(a + [cp], b, f);
    ShownConcat(a, [cp], f);
    assert [cp][1..] == [];
    assert ShownAll([cp], f) == Shown(cp, f);
  }

  /**
    * What the flags promise of every byte written: under ensureAscii it is ASCII, and under
    * escapeSlash a slash has a backslash in front.
    */
  predicate Clean(s: seq<byte>, f: Flags) {
    && (f.ensureAscii ==> forall i :: 0 <= i < |s| ==> s[i] < 0x80)
    && (f.escapeSlash ==> forall i :: 0 <= i < |s| && s[i] == '/' as int ==> i > 0 && s[i - 1] == '\\' as int)
  }

  lemma CleanConcat(a: seq<byte>, b: seq<byte>, f: Flags)
    requires Clean(a, f) && Clean(b, f)
    ensures Clean(a + b, f)
  {
  }

  lemma ShownClean(cp: int, f: Flags)
    requires Scalar(cp)
    ensures Clean(Shown(cp, f), f)
  {
    if cp < 0x80 {
      ShortClean(cp, f);
    } else {
      var upper := seq(8, _ => true);
      assert Shown(cp, f) == if f.ensureAscii then UnicodeEscape(cp, upper) else Encode(cp);
      hide Shown, UnicodeEscape;
      UnicodeClean(cp, upper, f);
      HighBytes(cp);
    }
  }

  lemma HighBytes(cp: int)
    requires Scalar(cp) && cp >= 0x80
    ensures forall i :: 0 <= i < |Encode(cp)| ==> Encode(cp)[i] >= 0x80
  {
  }

  lemma ShortClean(cp: nat, f: Flags)
    requires cp < 0x80
    ensures Clean(Shown(cp, f), f)
  {
    hide Hex4Text;
    EscapeShown(cp, f);
    hide Shown;
    if cp < 0x20 {
      ControlClean(cp, f);
    }
  }

  lemma ControlClean(cp: nat, f: Flags)
    requires cp < 0x20
    ensures Clean([92, 117] + Hex4Text(cp), f)
  {
    hide Hex4Text, Clean;
    ControlLetters(cp);
    LetterRange(cp / 16, true);
    LetterRange(cp % 16, true);
    assert Chars("\\u00") == [92, 117, 48, 48];
    AboveSlash([92, 117] + Hex4Text(cp), f);
  }

  lemma UnicodeClean(cp: int, upper: seq<bool>, f: Flags)
    requires Scalar(cp) && |upper| == 8
    ensures Clean(UnicodeEscape(cp, upper), f)
  {
    hide FourLetters, Clean;
    assert Chars("\\u") == [92, 117];
    AboveSlash([92, 117], f);
    if cp < 0x10000 {
      LettersClean(cp, upper[..4], f);
      CleanConcat([92, 117], FourLetters(cp, upper[..4]), f);
    } else {
      var high := FourLetters(0xD800 + (cp - 0x10000) / 0x400, upper[..4]);
      var low := FourLetters(0xDC00 + (cp - 0x10000) % 0x400, upper[4..]);
      LettersClean(0xD800 + (cp - 0x10000) / 0x400, upper[..4], f);
      LettersClean(0xDC00 + (cp - 0x10000) % 0x400, upper[4..], f);
      CleanConcat([92, 117], high, f);
      CleanConcat([92, 117] + high, [92, 117], f);
      CleanConcat([92, 117] + high + [92, 117], low, f);
    }
  }

  lemma LettersClean(v: nat, upper: seq<bool>, f: Flags)
    requires v < 0x10000 && |upper| == 4
    ensures Clean(FourLetters(v, upper), f)
  {
    hide Clean;
    forall b | b in FourLetters(v, upper)
      ensures 48 <= b < 0x80
    {
      LetterRange(v / 4096, upper[0]);
      LetterRange(v / 256 % 16, upper[1]);
      LetterRange(v / 16 % 16, upper[2]);
      LetterRange(v % 16, upper[3]);
    }
    AboveSlash(FourLetters(v, upper), f);
  }

  lemma AboveSlash(s: seq<byte>, f: Flags)
    requires forall b :: b in s ==> 48 <= b < 0x80
    ensures Clean(s, f)
  {
    forall i | 0 <= i < |s|
      ensures 48 <= s[i] < 0x80
    {
      assert s[i] in s;
    }
  }

  lemma LetterRange(v: nat, upper: bool)
    requires v < 16
    ensures 48 <= HexLetter(v, upper) < 0x80
  {
    HexDigits(HexLetter(v, upper), v);
  }

  lemma {:induction false} ShownAllClean(cps: seq<int>, f: Flags)
    requires Scalars(cps)
    ensures Clean(ShownAll(cps, f), f)
  {
    if cps != [] {
      hide Shown, Clean;
      ShownClean(cps[0], f);
      ShownAllClean(cps[1..], f);
      CleanConcat(Shown(cps[0], f), ShownAll(cps[1..], f), f);
    }
  }

  // ---- Numbers and words ----

  const DIGITS: string := "0123456789"

  lemma DigitLetter(v: nat)
    requires v < 10
    ensures DIGITS[v] as int == 48 + v
  {
  }

  /** Decimal text is positional, with the digits in their own order, to write and to read. */
  lemma DecimalPlaces(n: nat, v: nat)
    requires v < 10
    ensures Decimal(v) == [DIGITS[v] as int]
    ensures n > 0 ==> Decimal(10 * n + v) == Decimal(n) + [DIGITS[v] as int]
    ensures AllDigits([DIGITS[v] as int]) && Horner([DIGITS[v] as int]) == v
  {
    DigitLetter(v);
    assert (10 * n + v) / 10 == n && (10 * n + v) % 10 == v;
    JsonRoundTrip.HornerSnoc([], v);
    assert [] + [48 + v] == [48 + v];
    hide Horner;
  }

  lemma NegativeText(n: nat)
    requires n > 0
    ensures IntegerText(n) == Decimal(n) && IntegerText(0 - n) == Chars("-") + Decimal(n)
  {
    hide Decimal;
    assert Chars("-") == [45];
  }

  /** The words of section 3 of RFC 8259. */
  lemma Words(f: Flags, depth: nat)
    ensures Plain(Null, f, depth) == Some(Chars("null")) && NULL_TEXT == Chars("null")
    ensures Plain(True, f, depth) == Some(Chars("true")) && TRUE_TEXT == Chars("true")
    ensures Plain(False, f, depth) == Some(Chars("false")) && FALSE_TEXT == Chars("false")
  {
    assert Chars("null") == [110, 117, 108, 108];
    assert Chars("true") == [116, 114, 117, 101];
    assert Chars("false") == [102, 97, 108, 115, 101];
  }
}
