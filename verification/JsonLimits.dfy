/** The loader's limits in numbers: how deep a text may nest, and which integers fit. */
module JsonLimits {
  import opened Bytes
  import opened OrderedMap
  import opened JsonValue
  import opened JsonGrammar
  import opened JsonParse
  import opened JsonDump
  import opened JsonLex
  import JsonComplete
  import Utf8
  import opened JsonRoundTrip

  const COMPACT := Flags(0, true, false, false, false, false)

  /** n arrays, each in the next, the innermost empty. */
  function Nested(n: nat): Json
    requires n > 0
  {
    if n == 1 then Array([]) else Array([Nested(n - 1)])
  }

  function Brackets(n: nat): seq<byte> {
    seq(n, _ => '[' as int) + seq(n, _ => ']' as int)
  }

  lemma {:induction false} NestedText(n: nat, depth: nat)
    requires n > 0
    ensures Plain(Nested(n), COMPACT, depth) == Some(Brackets(n))
  {
    if n == 1 {
      assert Brackets(1) == [91, 93];
    } else {
      NestedText(n - 1, depth + 1);
      OneItem(Nested(n - 1), depth, Brackets(n - 1));
      assert Brackets(n) == [91] + (Brackets(n - 1) + [93]);
    }
  }

  lemma OneItem(j: Json, depth: nat, text: seq<byte>)
    requires Plain(j, COMPACT, depth + 1) == Some(text)
    ensures Plain(Array([j]), COMPACT, depth) == Some([91] + (text + [93]))
  {
    var items := [j];
    assert items[1..] == [];
    assert PlainItems([], COMPACT, depth) == Some([]);
    assert text + ([] + [93]) + [] == text + [93];
    assert [91] + [] == [91];
  }

  lemma {:induction false} NestedLoadable(n: nat, opt: Options)
    requires n > 0
    ensures Loadable(Nested(n), opt) && JsonDump.Proper(Nested(n)) && Height(Nested(n)) == n
  {
    if n == 1 {
      assert ItemsHeight([]) == 0;
    } else {
      NestedLoadable(n - 1, opt);
      var items := [Nested(n - 1)];
      assert items[1..] == [];
      assert ItemsHeight([]) == 0 && ItemsHeight(items) == n - 1;
    }
  }

  /** Arrays nest up to 2048 deep. */
  lemma NestingLimit(n: nat, opt: Options)
    requires n > 0 && !opt.disableEofCheck
    ensures Load(Brackets(n), opt) == Some(Nested(n)) <==> n <= 2048
  {
    hide Load, Loadable, Plain, Height;
    NestedText(n, 0);
    NestedLoadable(n, opt);
    UnsortedCanon(Nested(n), COMPACT);
    RoundTrip(Nested(n), COMPACT, opt);
  }

  /** Integers are those of 64 bits. */
  lemma IntegerLimit(i: int, opt: Options)
    requires !opt.intAsReal && !opt.disableEofCheck
    ensures Load(Chars("[") + IntegerText(i) + Chars("]"), opt) == Some(Array([Integer(i)]))
       <==> -9223372036854775808 <= i <= 9223372036854775807
  {
    hide Load, Loadable, Plain, Height, IntegerText;
    var j := Array([Integer(i)]);
    OneInteger(i, opt);
    UnsortedCanon(j, COMPACT);
    RoundTrip(j, COMPACT, opt);
    assert Chars("[") == [91] && Chars("]") == [93];
    Regrouped([91], IntegerText(i), [93]);
  }

  lemma OneInteger(i: int, opt: Options)
    ensures var j := Array([Integer(i)]);
      && Plain(j, COMPACT, 0) == Some([91] + (IntegerText(i) + [93])) && JsonDump.Proper(j) && Height(j) == 2
      && (Loadable(j, opt) <==> INT_MIN <= i <= INT_MAX && !opt.intAsReal)
  {
    hide IntegerText;
    OneItem(Integer(i), 0, IntegerText(i));
    var items := [Integer(i)];
    assert items[1..] == [];
    assert ItemsHeight([]) == 0 && ItemsHeight(items) == 1;
    assert items[0] == Integer(i);
  }

  /** The blanks of section 2 of RFC 8259. */
  lemma BlankBytes(b: byte)
    ensures Space(b) <==> b in Chars(" \t\n\r")
  {
    assert Chars(" \t\n\r") == [32, 9, 10, 13];
  }

  /** An object that begins with a member and the same key again. */
  function KeyTwice(k: seq<SChar>, x: Syntax, tail: seq<byte>): seq<byte> {
    [123] + (StrText(k) + ([58] + (Text(x) + ([44] + (StrText(k) + tail)))))
  }

  /** JSON_REJECT_DUPLICATES refuses a repeated key, whatever follows it. */
  lemma RepeatedKeyRefused(k: seq<SChar>, x: Syntax, tail: seq<byte>, opt: Options)
    requires opt.rejectDuplicates && CharsOk(k) && Ok(x, opt) && Depth(x) < MAX_DEPTH
    requires Utf8.IsUtf8(KeyTwice(k, x, tail))
    ensures Load(KeyTwice(k, x, tail), opt) == None
  {
    hide StrText, Text, Value, Ok, Depth, CharsValue, Next, ParseValue, ParsePairs, ParseObject;
    var cx := Input(true, opt);
    var inner := StrText(k) + ([58] + (Text(x) + ([44] + (StrText(k) + tail))));
    Utf8.ValidPrefixIff([123] + inner);
    JsonComplete.PunctComplete(123, inner, cx);
    JsonComplete.OpenBracket(inner, 0, cx);
    MembersRefused(k, x, tail, cx);
  }

  lemma MembersRefused(k: seq<SChar>, x: Syntax, tail: seq<byte>, cx: Input)
    requires cx.opt.rejectDuplicates && CharsOk(k) && Ok(x, cx.opt) && Depth(x) < MAX_DEPTH
    ensures ParseObject(StrText(k) + ([58] + (Text(x) + ([44] + (StrText(k) + tail)))), 1, cx) == None
  {
    hide StrText, Text, Value, Ok, Depth, CharsValue, Next, ParseValue, ParsePairs;
    var v := CharsValue(k);
    var s4 := StrText(k) + tail;
    var s3 := [44] + s4;
    var s2 := Text(x) + s3;
    var s1 := [58] + s2;
    JsonComplete.StringComplete(k, s1, cx);
    JsonComplete.StringComplete(k, tail, cx);
    JsonComplete.PunctComplete(58, s2, cx);
    JsonComplete.PunctComplete(44, s4, cx);
    JsonComplete.ValueComplete(x, s3, 1, cx);
    if 0 in v {
      KeyRefused(StringToken(v), s1, 1, [], cx);
    } else {
      JsonComplete.PairsStep(StringToken(v), s1, 1, [], s2, Value(x, cx.opt), s3, cx);
      GetSet([], v, Value(x, cx.opt), v);
      KeyRefused(StringToken(v), tail, 1, Set([], v, Value(x, cx.opt)), cx);
    }
  }

  lemma KeyRefused(t: Token, s: seq<byte>, d: nat, acc: seq<Entry<Json>>, cx: Input)
    requires !KeyAllowed(t, acc, cx.opt)
    ensures ParsePairs(t, s, d, acc, cx) == None
  {
  }
}
