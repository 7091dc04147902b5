/** Decoding base64 text with line breaks, as base64_encode writes it: what base64_decode makes of it, and when it is right. */
module Base64Lines {
  import opened Bytes
  import opened Bits
  import opened Base64

  /** The line breaks in front of a group's characters; a group is four of them, a line nineteen groups. */
  function Breaks(g: nat): nat {
    g / 19
  }

  /** Where a group's characters stand in text with line breaks. */
  function Place(g: nat): nat {
    4 * g + Breaks(g)
  }

  /** Where the decoder stands after g groups: not yet behind a line break that follows them. */
  function Reached(g: nat): nat {
    if g == 0 then 0 else 4 * g + Breaks(g - 1)
  }

  // ---- The characters of the text ----

  /** The line breaks stand behind every 76 characters. */
  lemma {:induction false} BrokenAt(e: seq<byte>, i: nat)
    requires i < |e|
    ensures i + i / NEWLINE_INTERVAL < |Broken(e)| && Broken(e)[i + i / NEWLINE_INTERVAL] == e[i]
  {
    BrokenSize(e);
    if i >= NEWLINE_INTERVAL {
      BrokenAt(e[NEWLINE_INTERVAL..], i - NEWLINE_INTERVAL);
      LineBefore(i);
    }
  }

  lemma LineBefore(i: nat)
    requires i >= NEWLINE_INTERVAL
    ensures i / NEWLINE_INTERVAL == (i - NEWLINE_INTERVAL) / NEWLINE_INTERVAL + 1
  {
    var q, r := i / NEWLINE_INTERVAL, i % NEWLINE_INTERVAL;
    DivModUnique(i - NEWLINE_INTERVAL, NEWLINE_INTERVAL, q - 1, r);
  }

  lemma {:induction false} BreakAt(e: seq<byte>, line: nat)
    requires 1 <= line && NEWLINE_INTERVAL * line <= |e|
    ensures (NEWLINE_INTERVAL + 1) * line <= |Broken(e)| && Broken(e)[(NEWLINE_INTERVAL + 1) * line - 1] == 10
  {
    if line > 1 {
      BreakAt(e[NEWLINE_INTERVAL..], line - 1);
    }
  }

  lemma {:induction false} EncodeAt(s: seq<byte>, g: nat)
    requires 3 * g + 3 <= |s|
    ensures 4 * g + 4 <= |Encode(s)| && Encode(s)[4 * g..4 * g + 4] == Quad(s[3 * g], s[3 * g + 1], s[3 * g + 2])
  {
    hide Quad;
    if g > 0 {
      EncodeAt(s[3..], g - 1);
      assert Encode(s)[4..] == Encode(s[3..]);
      assert Encode(s)[4 * g..4 * g + 4] == Encode(s)[4..][4 * (g - 1)..4 * (g - 1) + 4];
    }
  }

  lemma BreaksOf(n: nat)
    ensures n / 57 == Breaks(n / 3)
  {
    DivModUnique(n / 3, 19, n / 57, n / 3 % 19);
  }

  /** The length of the text: whole groups, their line breaks and the padded group. */
  lemma TextSize(s: seq<byte>)
    ensures |Written(s, true)| == Place(|s| / 3) + (if |s| % 3 == 0 then 0 else 4)
  {
    hide Written;
    WrittenSize(s, true);
    BreaksOf(|s|);
  }

  lemma SameLine(g: nat, i: nat)
    requires i < 4
    ensures (4 * g + i) / NEWLINE_INTERVAL == Breaks(g)
  {
    var q, r := g / 19, g % 19;
    assert 4 * g + i == NEWLINE_INTERVAL * q + (4 * r + i);
    DivModUnique(4 * g + i, NEWLINE_INTERVAL, q, 4 * r + i);
  }

  lemma GroupByte(e: seq<byte>, g: nat, i: nat)
    requires i < 4 && 4 * g + i < |e|
    ensures Place(g) + i < |Broken(e)| && Broken(e)[Place(g) + i] == e[4 * g + i]
  {
    SameLine(g, i);
    BrokenAt(e, 4 * g + i);
  }

  lemma GroupIn(e: seq<byte>, g: nat)
    requires 4 * g + 4 <= |e|
    ensures Place(g) + 4 <= |Broken(e)| && Broken(e)[Place(g)..Place(g) + 4] == e[4 * g..4 * g + 4]
  {
    hide Broken, Place;
    GroupByte(e, g, 0);
    GroupByte(e, g, 1);
    GroupByte(e, g, 2);
    GroupByte(e, g, 3);
  }

  /** A whole group's characters in the text. */
  lemma GroupAt(s: seq<byte>, g: nat)
    requires 3 * g + 3 <= |s|
    ensures var t := Written(s, true);
      Place(g) + 4 <= |t| && t[Place(g)..Place(g) + 4] == Quad(s[3 * g], s[3 * g + 1], s[3 * g + 2])
  {
    hide Encode, Broken, Quad, Tail, Place;
    var whole := s[..Whole(|s|)];
    EncodeAt(whole, g);
    GroupIn(Encode(whole), g);
    Front(Broken(Encode(whole)), Tail(s[Whole(|s|)..]), Place(g), Place(g) + 4);
    assert whole[3 * g] == s[3 * g] && whole[3 * g + 1] == s[3 * g + 1] && whole[3 * g + 2] == s[3 * g + 2];
  }

  lemma Front(a: seq<byte>, b: seq<byte>, i: nat, j: nat)
    requires i <= j <= |a|
    ensures (a + b)[i..j] == a[i..j]
  {
  }

  /** A line break in front of a group that begins a line, or behind the last one. */
  lemma BreakBefore(s: seq<byte>, g: nat)
    requires 0 < g <= |s| / 3 && g % 19 == 0
    ensures 0 < Place(g) <= |Written(s, true)| && Written(s, true)[Place(g) - 1] == 10
  {
    hide Encode, Broken, Tail;
    var whole := Whole(|s|);
    WholeSize(|s|);
    BreakAt(Encode(s[..whole]), g / 19);
  }

  /** The padded group at the end of the text. */
  lemma PaddedAt(s: seq<byte>)
    requires |s| % 3 != 0
    ensures var t, w := Written(s, true), |s| / 3; |t| == Place(w) + 4 && t[Place(w)..] == Tail(s[3 * w..])
  {
    TextSize(s);
    hide Encode, Broken, Tail;
    var whole := Whole(|s|);
  }

  /** A group's first character is no line break, and its last no padding. */
  lemma QuadPlain(a: byte, b: byte, c: byte)
    ensures Quad(a, b, c)[0] != 10 && Quad(a, b, c)[3] != 61
  {
    RevCharset(a as int / 4);
    RevCharset(c as int % 64);
  }

  /** The padding of a text of n bytes. */
  function Padding(n: nat): nat {
    if n % 3 == 0 then 0 else 3 - n % 3
  }

  /** What the decoder strips is the padding. */
  lemma TextStripped(s: seq<byte>)
    requires s != []
    ensures var t := Written(s, true); Strippable(t) && |Stripped(t)| == |t| - Padding(|s|)
  {
    hide Written, Tail, Quad;
    var t, w := Written(s, true), |s| / 3;
    TextSize(s);
    if |s| % 3 != 0 {
      PaddedAt(s);
      TailPadding(s[3 * w..]);
      assert forall i :: 0 <= i < 4 ==> t[Place(w) + i] == Tail(s[3 * w..])[i];
    } else if w % 19 == 0 {
      BreakBefore(s, w);
    } else {
      GroupAt(s, w - 1);
      QuadPlain(s[3 * w - 3], s[3 * w - 2], s[3 * w - 1]);
      assert t[Place(w - 1)..Place(w - 1) + 4][3] == t[Place(w - 1) + 3];
    }
  }

  // ---- The decoder's way through the text ----

  /** Before the last whole group is decoded, the decoder's bound is not reached. */
  lemma InLoop(n: nat, g: nat, len: nat)
    requires g < n / 3 && len == Place(n / 3) + (if n % 3 == 0 then 0 else 4) - Padding(n)
    ensures Reached(g) < len / 4 * 4
  {
    assert Breaks(g) <= Breaks(n / 3);
    assert Reached(g) <= 4 * g + Breaks(g);
    assert len / 4 * 4 >= len - 3;
  }

  /** The decoder finds each whole group where it stands. */
  lemma StartsAtPlace(s: seq<byte>, g: nat)
    requires g < |s| / 3
    ensures var t := Written(s, true);
      Reached(g) < |t| && GroupStart(t, Reached(g)) == Place(g) && Place(g) + 4 <= |t| && Place(g) + 4 == Reached(g + 1)
  {
    hide Written, Quad;
    var t := Written(s, true);
    GroupAt(s, g);
    QuadPlain(s[3 * g], s[3 * g + 1], s[3 * g + 2]);
    assert t[Place(g)..Place(g) + 4][0] == t[Place(g)];
    if g > 0 && g % 19 == 0 {
      BreakBefore(s, g);
    }
  }

  /** A group's characters stand for its bytes. */
  lemma GroupBytes(s: seq<byte>, g: nat)
    requires g < |s| / 3
    ensures var t, j := Written(s, true), Place(g);
      j + 4 <= |t| && [First(t[j], t[j + 1]), Second(t[j + 1], t[j + 2]), Third(t[j + 2], t[j + 3])] == s[3 * g..3 * g + 3]
  {
    hide Written, Quad, First, Second, Third;
    var t, j := Written(s, true), Place(g);
    var q := Quad(s[3 * g], s[3 * g + 1], s[3 * g + 2]);
    GroupAt(s, g);
    QuadReturns(s[3 * g], s[3 * g + 1], s[3 * g + 2]);
    DecodeGroup(q);
    NothingDecoded();
    var bytes := [First(q[0], q[1]), Second(q[1], q[2]), Third(q[2], q[3])];
    assert q[4..] == [] && bytes + [] == bytes && t[j..j + 4] == q;
    assert t[j] == q[0] && t[j + 1] == q[1] && t[j + 2] == q[2] && t[j + 3] == q[3];
    assert s[3 * g..3 * g + 3] == [s[3 * g], s[3 * g + 1], s[3 * g + 2]];
  }

  /** After g whole groups the decoder has written their bytes. */
  lemma {:induction false} WholeGroupsDecoded(s: seq<byte>, g: nat, len: nat)
    requires s != [] && g <= |s| / 3 && len == |Written(s, true)| - Padding(|s|)
    ensures len <= |Written(s, true)| && Decoding(Written(s, true), len, Reached(g), s[..3 * g])
  {
    hide Written, Decoding, First, Second, Third;
    TextSize(s);
    var t := Written(s, true);
    if g == 0 {
      assert s[..0] == [];
      DecodingStarts(t, len);
    } else {
      WholeGroupsDecoded(s, g - 1, len);
      InLoop(|s|, g - 1, len);
      DecodingStep(t, len, Reached(g - 1), s[..3 * (g - 1)]);
      StartsAtPlace(s, g - 1);
      GroupBytes(s, g - 1);
      assert s[..3 * g] == s[..3 * (g - 1)] + s[3 * (g - 1)..3 * g];
    }
  }

  // ---- When the decoder is right ----

  /**
    * Whether text with line breaks decodes to the n bytes it was made from. With k line breaks and w whole groups: no
    * padding and k of remainder 1 by 4, or k a multiple of 4 and no line break in front of the end or the padded group.
    */
  predicate LinesReturn(n: nat) {
    var k, w := n / 57, n / 3;
    if n % 3 == 0 then k % 4 == 1 || (k % 4 == 0 && w % 19 != 0) else k % 4 == 0 && (w == 0 || w % 19 != 0)
  }

  /** More bytes than the text was made from are not those bytes. */
  lemma TooMany(t: seq<byte>, len: nat, i: nat, done: seq<byte>, s: seq<byte>)
    requires len <= |t| && Decoding(t, len, i, done) && |done| > |s|
    ensures DecodeFrom(t, 0, len) != Some(s)
  {
    hide DecodeFrom;
  }

  /** Text without padding: the decoder stops behind the last group, or looks for another one where none is. */
  lemma UnpaddedReturns(s: seq<byte>, len: nat)
    requires s != [] && |s| % 3 == 0 && len == |Written(s, true)|
    ensures DecodeFrom(Written(s, true), 0, len) == Some(s) <==> LinesReturn(|s|)
  {
    hide Written, Decoding, First, Second, Third, DecodeFrom, DecodeLast;
    var t, w := Written(s, true), |s| / 3;
    var k := Breaks(w);
    TextSize(s);
    BreaksOf(|s|);
    WholeGroupsDecoded(s, w, len);
    assert s[..3 * w] == s && s + [] == s;
    assert len % 4 == k % 4;
    if Reached(w) < len / 4 * 4 {
      assert w % 19 == 0 && k % 4 == 0;
      BreakBefore(s, w);
      DecodingStep(t, len, Reached(w), s);
    } else {
      DecodingEnds(t, len, Reached(w), s);
      LastOfNone(t, Reached(w), len);
    }
  }

  lemma LastOfNone(t: seq<byte>, i: nat, len: nat)
    ensures len % 4 < 2 ==> DecodeLast(t, i, len) == Some([])
    ensures len % 4 >= 2 && i + len % 4 > |t| ==> DecodeLast(t, i, len) == None
  {
  }

  /** The padded group, decoded from the first of its characters. */
  lemma PaddedBytes(s: seq<byte>, i: nat, len: nat)
    requires |s| % 3 != 0 && i == Place(|s| / 3) && len % 4 == 4 - Padding(|s|)
    ensures DecodeLast(Written(s, true), i, len) == Some(s[3 * (|s| / 3)..])
  {
    hide Written, First, Second, Third, Tail;
    var t, rest := Written(s, true), s[3 * (|s| / 3)..];
    PaddedAt(s);
    BareReturns(rest);
    RestDecoded(Bare(rest));
    assert forall j :: 0 <= j < 4 ==> t[i + j] == t[i..][j];
    assert forall j :: 0 <= j <= |rest| ==> Bare(rest)[j] == Tail(rest)[j];
  }

  /** Where the loop stops in padded text, in numbers. */
  lemma PaddedStops(n: nat, len: nat)
    requires n % 3 != 0 && len == Place(n / 3) + 4 - Padding(n)
    ensures var w := n / 3; var k := Breaks(w);
      && n / 57 == k && (len + Padding(n)) % 4 == k % 4
      && (Reached(w) < len / 4 * 4 ==> !LinesReturn(n))
      && (Reached(w) >= len / 4 * 4 ==> (LinesReturn(n) <==> k % 4 == 0))
      && (Reached(w) >= len / 4 * 4 && k % 4 == 0 ==> Reached(w) == Place(w) && len % 4 == 4 - Padding(n))
      && (k % 4 != 0 ==> len % 4 != 4 - Padding(n))
  {
    hide Place, Breaks, Reached;
    BreaksOf(n);
    ReachedPlace(n / 3);
    PaddedRemainder(Place(n / 3), Padding(n), len);
  }

  /** The decoder stands at a group's place, unless a line break is in between. */
  lemma ReachedPlace(g: nat)
    ensures Place(g) % 4 == Breaks(g) % 4
    ensures Reached(g) == if g == 0 || g % 19 != 0 then Place(g) else Place(g) - 1
  {
    assert Breaks(0) == 0;
    hide Breaks;
    if g > 0 {
      BreaksNext(g);
    }
  }

  lemma BreaksNext(g: nat)
    requires g > 0
    ensures Breaks(g - 1) == if g % 19 != 0 then Breaks(g) else Breaks(g) - 1
  {
  }

  lemma PaddedRemainder(x: nat, p: nat, len: nat)
    requires 1 <= p <= 2 && len == x + 4 - p
    ensures (len + p) % 4 == x % 4 && (x % 4 == 0 <==> len % 4 == 4 - p) && (x % 4 == 0 ==> len / 4 * 4 == x)
  {
  }

  /** Padded text: any other number of characters behind the whole groups gives another number of bytes. */
  lemma PaddedReturns(s: seq<byte>, len: nat)
    requires |s| % 3 != 0 && len == |Written(s, true)| - Padding(|s|)
    ensures len <= |Written(s, true)| && (DecodeFrom(Written(s, true), 0, len) == Some(s) <==> LinesReturn(|s|))
  {
    hide Written, Decoding, First, Second, Third, DecodeFrom, DecodeLast, LinesReturn, Place, Reached;
    var t, w := Written(s, true), |s| / 3;
    var i, whole := Reached(w), s[..3 * w];
    TextSize(s);
    PaddedStops(|s|, len);
    WholeGroupsDecoded(s, w, len);
    if i < len / 4 * 4 {
      DecodingStep(t, len, i, whole);
      var j := GroupStart(t, i);
      if j + 4 <= |t| {
        TooMany(t, len, j + 4, whole + [First(t[j], t[j + 1]), Second(t[j + 1], t[j + 2]), Third(t[j + 2], t[j + 3])],
          s);
      }
    } else {
      DecodingEnds(t, len, i, whole);
      if Breaks(w) % 4 == 0 {
        PaddedBytes(s, i, len);
        assert s == whole + s[3 * w..];
      } else {
        OtherLength(t, i, len, whole, s);
      }
    }
  }

  lemma OtherLength(t: seq<byte>, i: nat, len: nat, whole: seq<byte>, s: seq<byte>)
    requires |s| % 3 != 0 && |whole| == 3 * (|s| / 3) && len % 4 != 4 - Padding(|s|)
    ensures DecodeLast(t, i, len).Some? ==> whole + DecodeLast(t, i, len).value != s
  {
  }

  /** Decoding undoes encoding with line breaks on exactly the inputs of these lengths. */
  lemma DecodeLines(s: seq<byte>)
    requires s != []
    ensures var t := Written(s, true); Strippable(t) && (DecodeText(t) == Some(s) <==> LinesReturn(|s|))
  {
    hide Written, DecodeFrom, Stripped;
    TextStripped(s);
    if |s| % 3 == 0 {
      UnpaddedReturns(s, |Written(s, true)|);
    } else {
      PaddedReturns(s, |Written(s, true)| - Padding(|s|));
    }
  }

  /** 58 bytes take a line and a padded group; the line break is taken for a character of that group. */
  lemma LinesDoNotReturn() returns (s: seq<byte>)
    ensures |s| == 58 && Strippable(Written(s, true)) && DecodeText(Written(s, true)) != Some(s)
  {
    s := seq(58, _ => 0);
    DecodeLines(s);
  }

  /** The size-only call is right for every input. */
  lemma CountedLines(s: seq<byte>)
    requires s != []
    ensures var t := Written(s, true); Strippable(t) && CountedSize(t) == |s|
  {
    hide Written, Stripped;
    var t, w := Written(s, true), |s| / 3;
    TextStripped(s);
    TextSize(s);
    LinesCounted(|s|, |Stripped(t)|);
    if w >= 19 {
      BreakBefore(s, 19);
      StrippedPrefix(t);
    }
  }

  lemma StrippedPrefix(t: seq<byte>)
    requires Strippable(t)
    ensures |Stripped(t)| <= |t|
  {
  }

  lemma LinesCounted(n: nat, len: nat)
    requires n > 0 && len == Place(n / 3) + (if n % 3 == 0 then 0 else 4) - Padding(n)
    ensures n / 3 >= 19 <==> len >= NEWLINE_INTERVAL + 1
    ensures len >= NEWLINE_INTERVAL + 1 ==> DecodedSize(len - len / (NEWLINE_INTERVAL + 1)) == n
    ensures len < NEWLINE_INTERVAL + 1 ==> DecodedSize(len) == n
  {
    var w, k, r := n / 3, n / 3 / 19, n / 3 % 19;
    var left := 4 * r + (if n % 3 == 0 then 0 else 4) - Padding(n);
    assert len == (NEWLINE_INTERVAL + 1) * k + left && 0 <= left < NEWLINE_INTERVAL + 1;
    DivModUnique(len, NEWLINE_INTERVAL + 1, k, left);
  }
}
