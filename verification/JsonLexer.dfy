/** The lexer of load.c, proved to compute the tokens of JsonLex. */
module JsonLexer {
  import opened Bytes
  import opened Utf8
  import opened JsonValue
  import opened JsonGrammar
  import opened JsonLex
  import opened JsonStream

  // Character classes on the ints that stream_get returns.

  predicate CDigit(c: int) { 48 <= c <= 57 }

  predicate CAlpha(c: int) { 65 <= c <= 90 || 97 <= c <= 122 }

  predicate CHex(c: int) { CDigit(c) || 65 <= c <= 70 || 97 <= c <= 102 }

  lemma ClassesAgree(b: byte)
    ensures CDigit(Signed(b)) <==> Digit(b)
    ensures CAlpha(Signed(b)) <==> Alpha(b)
    ensures CHex(Signed(b)) <==> HexDigit(b)
    ensures b < 128 <==> Signed(b) == b
    ensures b >= 128 <==> Signed(b) < 0
  {
  }

  class Lexer {
    const stream: Stream
    const opt: Options
    var saved: seq<byte>  // strbuffer_t saved_text
    var token: Token      // the token tag together with its value
    var depth: nat

    ghost predicate Valid()
      reads this, stream, stream.buffer
    {
      stream.Valid() && stream.position <= |Input()|
    }

    ghost function Input(): seq<byte> { stream.Input() }

    /** What is still to be read. */
    ghost function Rest(): seq<byte>
      reads this, stream, stream.buffer
      requires Valid()
    {
      Input()[stream.position..]
    }

    ghost function Eofs(): bool { Input() == stream.data }

    constructor (text: seq<byte>, opt: Options)
      requires 0 !in text
      ensures Valid() && Rest() == ValidPrefix(text) && Eofs() == (ValidPrefix(text) == text)
      ensures this.opt == opt && depth == 0 && fresh(stream) && fresh(stream.buffer)
      ensures stream.data == text
    {
      stream := new Stream(text);
      this.opt := opt;
      saved := [];
      token := Invalid;
      depth := 0;
    }

    // ---- One character at a time ----

    /**
      * c is the character at index q of the input, just read and saved, or the mark that the
      * input ends there; the token being read began at index p.
      */
    ghost predicate At(c: int, p: nat, q: nat)
      reads this, stream, stream.buffer
    {
      && Valid() && p <= q <= |Input()|
      && (q < |Input()| ==>
        c == Signed(Input()[q]) && c != EOF && c != ERROR && stream.position == q + 1 && stream.canUnget
        && saved == Input()[p..q + 1])
      && (q == |Input()| ==> (c == EOF || c == ERROR) && stream.position == q && saved == Input()[p..])
    }

    /** Everything from index p up to the cursor has been saved. */
    ghost predicate SavedFrom(p: nat)
      reads this, stream, stream.buffer
    {
      Valid() && p <= stream.position && saved == Input()[p..stream.position]
    }

    method Get() returns (c: int)
      requires Valid()
      modifies stream, stream.buffer
      ensures Valid()
      ensures old(stream.position) < |Input()| ==>
        c == Signed(Input()[old(stream.position)]) && c != EOF && c != ERROR
        && stream.position == old(stream.position) + 1 && stream.canUnget
      ensures old(stream.position) == |Input()| ==>
        c == (if Eofs() then EOF else ERROR) && stream.position == old(stream.position)
    {
      if stream.position < |Input()| {
        ValidPrefixIsUtf8(stream.data);
        NoSentinelBytes(Input(), stream.position);
      }
      c := stream.Get();
    }

    method GetSave(ghost p: nat) returns (c: int)
      requires SavedFrom(p)
      modifies `saved, stream, stream.buffer
      ensures At(c, p, old(stream.position))
    {
      hide ValidPrefix;
      c := Get();
      if c != EOF && c != ERROR {
        Save(c);
      }
    }

    method Save(c: int)
      requires -128 <= c < 256
      modifies `saved
      ensures saved == old(saved) + [if c < 0 then c + 256 else c]
    {
      saved := saved + [if c < 0 then c + 256 else c];
    }

    method UngetUnsave(c: int, ghost p: nat, ghost q: nat)
      requires At(c, p, q)
      modifies `saved, stream
      ensures SavedFrom(p) && stream.position == q
    {
      hide ValidPrefix;
      if c != EOF && c != ERROR {
        stream.Unget(c);
        saved := saved[..|saved| - 1];
      }
    }

    /** Reads on while the class holds: do c = get while class(c). */
    method GetRun(ghost p: nat, alpha: bool) returns (c: int)
      requires SavedFrom(p)
      modifies `saved, stream, stream.buffer
      ensures old(stream.position) <= |Input()|
      ensures At(c, p, old(stream.position) + Run(Input()[old(stream.position)..], if alpha then IsAlpha else IsDigit))
    {
      hide ValidPrefix, Digit, Alpha, Stream.Valid, Run;
      ghost var q := stream.position;
      ghost var cls := if alpha then IsAlpha else IsDigit;
      ghost var n := 0;
      c := GetSave(p);
      while if alpha then CAlpha(c) else CDigit(c)
        invariant n <= |Input()| - q && At(c, p, q + n)
        invariant forall i :: q <= i < q + n ==> cls(Input()[i])
        decreases |Input()| - n
      {
        ClassesAgree(Input()[q + n]);
        c := GetSave(p);
        n := n + 1;
      }
      if q + n < |Input()| {
        ClassesAgree(Input()[q + n]);
      }
      RunIs(Input()[q..], cls, n);
    }

    // ---- Strings ----

    /**
      * First pass of lex_scan_string, after the opening quote: reads to the closing quote, checking
      * escapes and control characters.
      */
    method ScanBody(ghost p: nat) returns (ok: bool)
      requires SavedFrom(p)
      modifies `saved, stream, stream.buffer
      ensures Valid() && old(stream.position) <= |Input()|
      ensures ok <==> BodyEnd(Input()[old(stream.position)..]).Some?
      ensures ok ==>
        SavedFrom(p) && stream.position == old(stream.position) + BodyEnd(Input()[old(stream.position)..]).value
    {
      hide ValidPrefix, BodyEnd, Stream.Valid, PieceLen;
      ghost var input := Input();
      ghost var b := stream.position;
      ghost var q := b;
      var c := GetSave(p);
      while c != 34
        invariant b <= q && At(c, p, q)
        invariant BodyEnd(input[b..]) == Plus(q - b, BodyEnd(input[q..]))
        decreases |input| - q
      {
        if c == ERROR || c == EOF {
          BodyAtEnd();
          assert input[q..] == [];
          return false;
        }
        ghost var size;
        ok, c, size := ScanPiece(c, p, q);
        if !ok {
          BodyBroken(input, q);
          return;
        }
        BodyMoves(input, b, q, size);
        q := q + size;
      }
      BodyCloses(input, q);
      return true;
    }

    /** One round of it: the raw character or the escape at index q; stops on the character behind it. */
    method ScanPiece(c0: int, ghost p: nat, ghost q: nat) returns (ok: bool, c: int, ghost size: nat)
      requires At(c0, p, q) && q < |Input()| && c0 != 34
      modifies `saved, stream, stream.buffer
      ensures Valid() && (ok <==> PieceLen(Input()[q..]).Some?)
      ensures ok ==> PieceLen(Input()[q..]) == Some(size) && q + size <= |Input()| && At(c, p, q + size)
    {
      hide ValidPrefix, Stream.Valid, PieceLen;
      c, size := c0, 1;
      ClassesAgree(Input()[q]);
      PlainPiece(Input()[q..]);
      if 0 <= c <= 0x1F {
        UngetUnsave(c, p, q);
        return false, c, 0;
      }
      if c == 92 {
        c, ok, size := ScanEscape(p, q);
      } else {
        c := GetSave(p);
        ok := true;
      }
    }

    /** The four digits of the escape at index q, whose u has just been read. */
    method ScanHex(ghost p: nat, ghost q: nat) returns (c: int, good: bool)
      requires SavedFrom(p) && p <= q && stream.position == q + 2
      modifies `saved, stream, stream.buffer
      ensures Valid() && q + 2 <= |Input()| && (good <==> q + 6 <= |Input()| && Hex4(Input()[q + 2..q + 6]))
      ensures good ==> At(c, p, q + 6)
    {
      hide ValidPrefix, Stream.Valid, HexDigit;
      ghost var input := Input();
      c := GetSave(p);
      var i := 0;
      while i < 4
        invariant 0 <= i <= 4 && q + 2 + i <= |input| && At(c, p, q + 2 + i)
        invariant forall j :: q + 2 <= j < q + 2 + i ==> HexDigit(input[j])
      {
        if q + 2 + i < |input| {
          ClassesAgree(input[q + 2 + i]);
        }
        if !CHex(c) {
          assert q + 6 <= |input| ==> input[q + 2..q + 6][i] == input[q + 2 + i];
          return c, false;
        }
        c := GetSave(p);
        i := i + 1;
      }
      good := true;
    }

    /** The escape whose backslash has just been read; stops on the character behind it. */
    method ScanEscape(ghost p: nat, ghost q: nat) returns (c: int, good: bool, ghost size: nat)
      requires At(92, p, q) && q < |Input()|
      modifies `saved, stream, stream.buffer
      ensures good <==> PieceLen(Input()[q..]).Some?
      ensures good ==> PieceLen(Input()[q..]) == Some(size) && q + size <= |Input()| && At(c, p, q + size)
      ensures Valid()
    {
      hide ValidPrefix, Stream.Valid;
      ghost var s := Input()[q..];
      assert s[0] == 92;
      size := 0;
      c := GetSave(p);
      if q + 1 < |Input()| {
        ClassesAgree(s[1]);
      }
      if c == 117 {
        if |s| >= 6 {
          Part(Input(), q, 2, 6);
        }
        c, good := ScanHex(p, q);
        return c, good, if good then 6 else 0;
      } else if c == 34 || c == 92 || c == 47 || c == 98 || c == 102 || c == 110 || c == 114 || c == 116 {
        c := GetSave(p);
        return c, true, 2;
      }
      return c, false, 0;
    }

    /** lex_scan_string: the opening quote at index p has just been saved. */
    method ScanString(ghost p: nat)
      requires SavedFrom(p) && stream.position == p + 1 && Input()[p] == 34
      modifies `saved, `token, stream, stream.buffer
      ensures Valid() && token == StringLex(Input()[p + 1..]).token
      ensures token.StringToken? ==> Rest() == StringLex(Input()[p + 1..]).rest
    {
      hide ValidPrefix, BodyEnd, Scanned, Unescape, Stream.Valid;
      ghost var s := Input()[p + 1..];
      token := Invalid;
      var ok := ScanBody(p);
      if !ok {
        return;
      }
      ghost var n := BodyEnd(s).value;
      BodyIsScanned(s);
      BodySaved(Input(), p, n);
      var r := UnescapeBody(saved);
      if r.Some? {
        token := StringToken(r.value);
      }
    }

    // ---- Numbers ----

    /** The digits before any fraction; c is the character at index q. */
    method ScanWhole(c0: int, ghost p: nat, ghost q: nat) returns (ok: bool, c: int)
      requires At(c0, p, q)
      modifies `saved, stream, stream.buffer
      ensures Valid() && (ok <==> WholeEnd(Input()[q..]).Some?)
      ensures ok ==> At(c, p, q + WholeEnd(Input()[q..]).value)
    {
      hide ValidPrefix, Stream.Valid, IsInt;
      ghost var s := Input()[q..];
      if s != [] {
        ClassesAgree(s[0]);
      }
      c := c0;
      if c == 48 {
        c := GetSave(p);
        if |s| > 1 {
          ClassesAgree(s[1]);
        }
        if CDigit(c) {
          UngetUnsave(c, p, q + 1);
          return false, c;
        }
      } else if CDigit(c) {
        c := GetRun(p, false);
        assert Input()[q + 1..] == s[1..];
      } else {
        UngetUnsave(c, p, q);
        return false, c;
      }
      return true, c;
    }

    /** A fraction, if the character c at index q begins one. */
    method ScanFrac(c0: int, ghost p: nat, ghost q: nat) returns (ok: bool, c: int)
      requires At(c0, p, q)
      modifies `saved, stream, stream.buffer
      ensures Valid() && (ok <==> FracEnd(Input()[q..]).Some?)
      ensures ok ==> At(c, p, q + FracEnd(Input()[q..]).value)
    {
      hide ValidPrefix, Stream.Valid, IsFrac;
      ghost var s := Input()[q..];
      if s != [] {
        ClassesAgree(s[0]);
      }
      c := c0;
      ok := true;
      if c == 46 {
        ok := FirstDecimal(p, q);
        if ok {
          c := GetRun(p, false);
          assert Input()[q + 2..] == s[1..][1..];
        }
      }
    }

    /** The digit behind the point, which goes back unless it is one. */
    method FirstDecimal(ghost p: nat, ghost q: nat) returns (ok: bool)
      requires At(46, p, q) && q < |Input()|
      modifies `saved, stream, stream.buffer
      ensures Valid() && (ok <==> q + 1 < |Input()| && Digit(Input()[q + 1]))
      ensures ok ==> SavedFrom(p) && stream.position == q + 2
    {
      hide ValidPrefix, Stream.Valid;
      var c := Get();
      if q + 1 < |Input()| {
        ClassesAgree(Input()[q + 1]);
      }
      if !CDigit(c) {
        stream.Unget(c);
        return false;
      }
      Save(c);
      return true;
    }

    /** An exponent, if the character c at index q begins one. */
    method ScanExp(c0: int, ghost p: nat, ghost q: nat) returns (ok: bool, c: int)
      requires At(c0, p, q)
      modifies `saved, stream, stream.buffer
      ensures Valid() && (ok <==> ExpEnd(Input()[q..]).Some?)
      ensures ok ==> At(c, p, q + ExpEnd(Input()[q..]).value)
    {
      hide ValidPrefix, Stream.Valid, ExpEnd;
      ghost var s := Input()[q..];
      if s != [] {
        ClassesAgree(s[0]);
      }
      ExpCases(s);
      c := c0;
      if c == 69 || c == 101 {
        ghost var k;
        c, k := ScanSign(p, q);
        ok, c := ScanExpDigits(c, p, q, k);
        return ok, c;
      }
      return true, c;
    }

    method ScanSign(ghost p: nat, ghost q: nat) returns (c: int, ghost k: nat)
      requires SavedFrom(p) && stream.position == q + 1
      modifies `saved, stream, stream.buffer
      ensures q < |Input()| && k == SignedLen(Input()[q..]) && q + k <= |Input()| && At(c, p, q + k)
    {
      hide ValidPrefix, Stream.Valid;
      ghost var s := Input()[q..];
      c := GetSave(p);
      if |s| > 1 {
        ClassesAgree(s[1]);
      }
      k := 1;
      if c == 43 || c == 45 {
        c := GetSave(p);
        k := 2;
      }
    }

    method ScanExpDigits(c0: int, ghost p: nat, ghost q: nat, ghost k: nat) returns (ok: bool, c: int)
      requires q < |Input()| && At(c0, p, q + k) && ExpMark(Input()[q]) && k == SignedLen(Input()[q..])
      modifies `saved, stream, stream.buffer
      ensures Valid() && (ok <==> ExpEnd(Input()[q..]).Some?)
      ensures ok ==> At(c, p, q + ExpEnd(Input()[q..]).value)
    {
      hide ValidPrefix, Stream.Valid, ExpEnd, Run, Digit, ExpMark, SignedLen;
      ExpAt(Input(), q, k);
      c := c0;
      if q + k < |Input()| {
        ClassesAgree(Input()[q + k]);
      }
      if !CDigit(c) {
        UngetUnsave(c, p, q + k);
        return false, c;
      }
      c := GetRun(p, false);
      return true, c;
    }

    /** The sign, if there is one. */
    method ScanMinus(c0: int, ghost p: nat) returns (c: int)
      requires At(c0, p, p) && p < |Input()| && (CDigit(c0) || c0 == 45)
      modifies `saved, stream, stream.buffer
      ensures MinusLen(Input()[p..]) <= |Input()| - p && At(c, p, p + MinusLen(Input()[p..]))
    {
      hide ValidPrefix, Stream.Valid;
      ghost var s := Input()[p..];
      ClassesAgree(s[0]);
      c := c0;
      if c == 45 {
        c := GetSave(p);
      }
    }

    /** lex_scan_number: c, the first character of the number, stands at index p. */
    method ScanNumber(c0: int, ghost p: nat)
      requires At(c0, p, p) && p < |Input()| && (CDigit(c0) || c0 == 45)
      modifies `saved, `token, stream, stream.buffer
      ensures Valid() && token == NumberLex(Input()[p..], opt).token
      ensures Weight(token) == 1 ==> Rest() == NumberLex(Input()[p..], opt).rest
    {
      hide ValidPrefix, Stream.Valid, WholeEnd, FracEnd, ExpEnd, NumberLex, IntStop;
      ghost var s := Input()[p..];
      NoNumber(s, opt);
      token := Invalid;
      var c := ScanMinus(c0, p);
      ghost var m := MinusLen(s);
      assert s[m..] == Input()[p + m..];
      var ok;
      ok, c := ScanWhole(c, p, p + m);
      if !ok {
        return;
      }
      ghost var a := m + WholeEnd(s[m..]).value;
      assert s[a..] == Input()[p + a..];
      FinishNumber(c, p, a);
    }

    /** What follows the whole digits; c stands behind them. */
    method FinishNumber(c: int, ghost p: nat, ghost a: nat)
      requires p < |Input()| && a <= |Input()[p..]| && At(c, p, p + a) && token == Invalid
      requires var s := Input()[p..]; var m := MinusLen(s); WholeEnd(s[m..]).Some? && a == m + WholeEnd(s[m..]).value
      modifies `saved, `token, stream, stream.buffer
      ensures Valid() && token == NumberLex(Input()[p..], opt).token
      ensures Weight(token) == 1 ==> Rest() == NumberLex(Input()[p..], opt).rest
    {
      hide ValidPrefix, Stream.Valid, WholeEnd, FracEnd, ExpEnd, NumberLex, IntStop;
      assert Input()[p..][a..] == Input()[p + a..];
      StopAgrees(Input(), p + a, c);
      if !opt.intAsReal && c != 46 && c != 69 && c != 101 {
        UngetUnsave(c, p, p + a);
        FinishInteger(p, a);
      } else {
        FinishReal(c, p, a);
      }
    }

    method FinishInteger(ghost p: nat, ghost a: nat)
      requires SavedFrom(p) && stream.position == p + a && p < |Input()| && a <= |Input()[p..]|
      requires var s := Input()[p..]; var m := MinusLen(s);
        WholeEnd(s[m..]).Some? && a == m + WholeEnd(s[m..]).value && IntStop(s[a..]) && !opt.intAsReal
      modifies `token
      ensures Valid() && token == NumberLex(Input()[p..], opt).token
      ensures Weight(token) == 1 ==> Rest() == NumberLex(Input()[p..], opt).rest
    {
      hide ValidPrefix, Stream.Valid, WholeEnd, NumberLex, IntStop, IntegerOf, MinusLen, AllDigits;
      IntegerAt(Input(), p, a, opt);
      token := IntegerOf(saved, []).token;
    }

    method FinishReal(c0: int, ghost p: nat, ghost a: nat)
      requires p < |Input()| && a <= |Input()[p..]| && At(c0, p, p + a) && token == Invalid
      requires var s := Input()[p..]; var m := MinusLen(s);
        WholeEnd(s[m..]).Some? && a == m + WholeEnd(s[m..]).value && (opt.intAsReal || !IntStop(s[a..]))
      modifies `saved, `token, stream, stream.buffer
      ensures Valid() && token == NumberLex(Input()[p..], opt).token
      ensures Weight(token) == 1 ==> Rest() == NumberLex(Input()[p..], opt).rest
    {
      hide ValidPrefix, Stream.Valid, WholeEnd, FracEnd, ExpEnd, NumberLex, IntStop, At, Input, Valid;
      ghost var s := Input()[p..];
      NoNumber(s, opt);
      assert s[a..] == Input()[p + a..];
      var ok, c := ScanFrac(c0, p, p + a);
      if !ok {
        return;
      }
      ghost var f := FracEnd(s[a..]).value;
      assert s[a + f..] == Input()[p + a + f..];
      ok, c := ScanExp(c, p, p + a + f);
      if !ok {
        return;
      }
      EndReal(c, p, a, f, ExpEnd(s[a + f..]).value);
    }

    method EndReal(c: int, ghost p: nat, ghost a: nat, ghost f: nat, ghost e: nat)
      requires p < |Input()| && a + f + e <= |Input()[p..]| && At(c, p, p + a + f + e)
      requires var s := Input()[p..]; var m := MinusLen(s);
        && WholeEnd(s[m..]).Some? && a == m + WholeEnd(s[m..]).value && (opt.intAsReal || !IntStop(s[a..]))
        && FracEnd(s[a..]) == Some(f) && ExpEnd(s[a + f..]) == Some(e)
      modifies `saved, `token, stream
      ensures Valid() && token == NumberLex(Input()[p..], opt).token
      ensures Weight(token) == 1 ==> Rest() == NumberLex(Input()[p..], opt).rest
    {
      hide ValidPrefix, Stream.Valid, WholeEnd, FracEnd, ExpEnd, NumberLex, IntStop, RealOf, At, MinusLen;
      RealAt(Input(), p, a, f, e, opt);
      UngetUnsave(c, p, p + a + f + e);
      token := RealOf(saved, [], opt).token;
    }

    // ---- lex_scan ----

    /** Scans one token. */
    method Scan()
      requires Valid()
      modifies `saved, `token, stream, stream.buffer
      ensures Valid() && token == Lex(old(Rest()), Eofs(), opt).token
      ensures Weight(token) == 1 ==> Rest() == Lex(old(Rest()), Eofs(), opt).rest
      ensures token.Eof? ==> stream.position == |Input()|
    {
      hide ValidPrefix, Stream.Valid, TokenLex;
      saved := [];
      var c := GetPastBlanks();
      if c == EOF {
        token := Token.Eof;
      } else if c == ERROR {
        token := Invalid;
      } else {
        ghost var p: nat := stream.position - 1;
        Save(c);
        ScanToken(c, p);
      }
    }

    /** The first character that is no blank. */
    method GetPastBlanks() returns (c: int)
      requires Valid()
      modifies stream, stream.buffer
      ensures Valid()
      ensures SkipBlank(old(Rest())) == [] ==> c == (if Eofs() then EOF else ERROR) && stream.position == |Input()|
      ensures SkipBlank(old(Rest())) != [] ==>
        && 0 < stream.position && Input()[stream.position - 1..] == SkipBlank(old(Rest()))
        && c == Signed(Input()[stream.position - 1]) && c != EOF && c != ERROR && stream.canUnget
    {
      hide ValidPrefix, Stream.Valid;
      ghost var s := Rest();
      c := Get();
      ghost var k := 0;
      while c == 32 || c == 9 || c == 10 || c == 13
        invariant k <= |s| && Valid()
        invariant k < |s| ==>
          && c == Signed(s[k]) && c != EOF && c != ERROR && stream.canUnget
          && 0 < stream.position && Input()[stream.position - 1..] == s[k..]
        invariant k == |s| ==> c == (if Eofs() then EOF else ERROR) && stream.position == |Input()|
        invariant SkipBlank(s) == SkipBlank(s[k..])
        decreases |s| - k
      {
        assert s[k..][1..] == s[k + 1..];
        ClassesAgree(s[k]);
        c := Get();
        k := k + 1;
      }
      if k < |s| {
        ClassesAgree(s[k]);
      }
    }

    /** The token whose first character c, at index p, has just been saved. */
    method ScanToken(c: int, ghost p: nat)
      requires At(c, p, p) && p < |Input()|
      modifies `saved, `token, stream, stream.buffer
      ensures Valid() && token == TokenLex(Input()[p..], opt).token && !token.Eof?
      ensures Weight(token) == 1 ==> Rest() == TokenLex(Input()[p..], opt).rest
    {
      hide ValidPrefix, Stream.Valid, StringLex, NumberLex, WordLex;
      ghost var r := Input()[p..];
      ClassesAgree(r[0]);
      assert r[1..] == Input()[p + 1..];
      StringLexKind(r[1..]);
      if c == 123 || c == 125 || c == 91 || c == 93 || c == 58 || c == 44 {
        token := Punct(c);
      } else if c == 34 {
        ScanString(p);
      } else if CDigit(c) || c == 45 {
        ScanNumber(c, p);
      } else if CAlpha(c) {
        ScanWord(p);
      } else {
        SaveCached();
        token := Invalid;
      }
    }

    /** A word: all the letters behind the first, which stands at index p. */
    method ScanWord(ghost p: nat)
      requires SavedFrom(p) && stream.position == p + 1 && Alpha(Input()[p])
      modifies `saved, `token, stream, stream.buffer
      ensures Valid() && token == WordLex(Input()[p..]).token
      ensures Weight(token) == 1 ==> Rest() == WordLex(Input()[p..]).rest
    {
      hide ValidPrefix, Stream.Valid, WordToken, Run, Alpha;
      ghost var s := Input()[p..];
      var c := GetRun(p, true);
      ghost var n := Run(s, IsAlpha);
      RunFirst(Input(), p);
      UngetUnsave(c, p, p + n);
      assert saved == s[..n] && Input()[p + n..] == s[n..];
      token := WordToken(saved);
    }

    /** lex_save_cached: the rest of the current character, for the error text. */
    method SaveCached()
      requires Valid() && stream.canUnget
      modifies `saved, stream
      ensures Valid() && old(stream.position) <= stream.position
      ensures saved == old(saved) + Input()[old(stream.position)..stream.position]
    {
      var more := stream.Drain();
      saved := saved + more;
    }
  }

  // ---- Facts the loops use ----

  lemma {:induction false} RunIs(s: seq<byte>, p: byte -> bool, n: nat)
    requires n <= |s| && (forall i :: 0 <= i < n ==> p(s[i])) && (n < |s| ==> !p(s[n]))
    ensures Run(s, p) == n
  {
    if n > 0 {
      RunIs(s[1..], p, n - 1);
    }
  }

  lemma Suffix(input: seq<byte>, q: nat, k: nat)
    requires q + k <= |input|
    ensures input[q..][k..] == input[q + k..]
  {
  }

  lemma Part(input: seq<byte>, q: nat, i: nat, j: nat)
    requires i <= j && q + j <= |input|
    ensures input[q..][i..j] == input[q + i..q + j]
  {
  }

  lemma RunFirst(input: seq<byte>, p: nat)
    requires p < |input| && Alpha(input[p])
    ensures Run(input[p..], IsAlpha) == 1 + Run(input[p + 1..], IsAlpha)
  {
    assert input[p..][1..] == input[p + 1..];
  }

  lemma BodySaved(input: seq<byte>, p: nat, n: nat)
    requires p + 1 + n <= |input| && n >= 1 && input[p + n] == 34
    ensures var text := input[p..p + 1 + n];
      |text| >= 2 && text[|text| - 1] == 34 && text[1..|text| - 1] == input[p + 1..][..n - 1]
    ensures input[p + 1 + n..] == input[p + 1..][n..]
  {
    Slice(input, p, p + 1 + n, 1, n);
    Slice(input, p + 1, |input|, 0, n - 1);
  }

  /** The length of an exponent mark and its sign. */
  function SignedLen(s: seq<byte>): nat { if |s| > 1 && Sign(s[1]) then 2 else 1 }

  lemma ExpCases(s: seq<byte>)
    ensures s == [] || !ExpMark(s[0]) ==> ExpEnd(s) == Some(0)
    ensures s != [] && ExpMark(s[0]) ==>
      var k := SignedLen(s);
      ExpEnd(s) == if |s| > k && Digit(s[k]) then Some(k + 1 + Run(s[k + 1..], IsDigit)) else None
  {
    if s != [] && |s| > SignedLen(s) {
      assert s[SignedLen(s)..][1..] == s[SignedLen(s) + 1..];
    }
  }

  lemma ExpAt(input: seq<byte>, q: nat, k: nat)
    requires q < |input| && ExpMark(input[q]) && k == SignedLen(input[q..])
    ensures ExpEnd(input[q..]) ==
      if q + k < |input| && Digit(input[q + k]) then Some(k + 1 + Run(input[q + k + 1..], IsDigit)) else None
  {
    hide ExpEnd, Run, Digit, ExpMark, SignedLen;
    var s := input[q..];
    ExpCases(s);
    if q + k < |input| {
      assert s[k] == input[q + k];
      Suffix(input, q, k + 1);
    }
  }

  lemma StopAgrees(input: seq<byte>, q: nat, c: int)
    requires q <= |input| && (q < |input| ==> c == Signed(input[q])) && (q == |input| ==> c < 0)
    ensures IntStop(input[q..]) <==> c != 46 && c != 69 && c != 101
  {
    if q < |input| {
      assert input[q..][0] == input[q];
      ClassesAgree(input[q]);
    }
  }

  lemma IntegerTail(text: seq<byte>, rest: seq<byte>)
    requires text != [] && AllDigits(if text[0] == 45 then text[1..] else text)
    ensures IntegerOf(text, rest).token == IntegerOf(text, []).token
    ensures Weight(IntegerOf(text, rest).token) == 1 ==> IntegerOf(text, rest).rest == rest
  {
    hide IntValue;
  }

  lemma RealTail(text: seq<byte>, rest: seq<byte>, opt: Options)
    ensures RealOf(text, rest, opt).token == RealOf(text, [], opt).token
    ensures Weight(RealOf(text, rest, opt).token) == 1 ==> RealOf(text, rest, opt).rest == rest
  {
  }

  /** The token of an integer that ends a bytes behind index p. */
  lemma IntegerAt(input: seq<byte>, p: nat, a: nat, opt: Options)
    requires p + a <= |input| && p < |input| && !opt.intAsReal
    requires var s := input[p..];
      WholeEnd(s[MinusLen(s)..]).Some? && a == MinusLen(s) + WholeEnd(s[MinusLen(s)..]).value && IntStop(s[a..])
    ensures var text := input[p..p + a];
      && text != [] && AllDigits(if text[0] == 45 then text[1..] else text)
      && NumberLex(input[p..], opt).token == IntegerOf(text, []).token
    ensures Weight(NumberLex(input[p..], opt).token) == 1 ==> NumberLex(input[p..], opt).rest == input[p + a..]
  {
    hide WholeEnd, NumberLex, IntStop, IntegerOf, AllDigits, MinusLen;
    var s := input[p..];
    IntegerCase(s, WholeEnd(s[MinusLen(s)..]).value, opt);
    Part(input, p, 0, a);
    Suffix(input, p, a);
    assert s[0..a] == s[..a];
    IntegerTail(s[..a], s[a..]);
  }

  /** The token of a real whose three parts end a, f and e bytes behind each other. */
  lemma RealAt(input: seq<byte>, p: nat, a: nat, f: nat, e: nat, opt: Options)
    requires p + a + f + e <= |input| && p < |input|
    requires var s := input[p..];
      && WholeEnd(s[MinusLen(s)..]).Some? && a == MinusLen(s) + WholeEnd(s[MinusLen(s)..]).value
      && (opt.intAsReal || !IntStop(s[a..])) && FracEnd(s[a..]) == Some(f) && ExpEnd(s[a + f..]) == Some(e)
    ensures NumberLex(input[p..], opt).token == RealOf(input[p..p + a + f + e], [], opt).token
    ensures Weight(NumberLex(input[p..], opt).token) == 1 ==> NumberLex(input[p..], opt).rest == input[p + a + f + e..]
  {
    hide WholeEnd, FracEnd, ExpEnd, NumberLex, IntStop, RealOf, MinusLen;
    var s := input[p..];
    var z := a + f + e;
    RealCase(s, WholeEnd(s[MinusLen(s)..]).value, f, e, opt);
    Part(input, p, 0, z);
    Suffix(input, p, z);
    assert s[0..z] == s[..z];
    RealTail(s[..z], s[z..], opt);
  }

  function Plus(k: int, r: Option<nat>): Option<int> {
    match r
    case None => None
    case Some(n) => Some(k + n)
  }

  lemma BodyAtEnd()
    ensures BodyEnd([]) == None
  {
  }

  lemma BodyBroken(s: seq<byte>, q: nat)
    requires q < |s| && s[q] != 34 && PieceLen(s[q..]).None?
    ensures BodyEnd(s[q..]).None?
  {
  }

  lemma PlainPiece(s: seq<byte>)
    requires s != []
    ensures s[0] < 0x20 ==> PieceLen(s).None?
    ensures 0x20 <= s[0] && s[0] != 92 ==> PieceLen(s) == Some(1)
  {
  }

  lemma BodyCloses(s: seq<byte>, q: nat)
    requires q < |s| && s[q] == 34
    ensures BodyEnd(s[q..]) == Some(1)
  {
  }

  lemma BodyMoves(s: seq<byte>, b: nat, q: nat, k: nat)
    requires b <= q < |s| && s[q] != 34 && PieceLen(s[q..]) == Some(k)
    requires BodyEnd(s[b..]) == Plus(q - b, BodyEnd(s[q..]))
    ensures BodyEnd(s[b..]) == Plus(q + k - b, BodyEnd(s[q + k..]))
  {
    hide PieceLen;
    assert s[q..][k..] == s[q + k..];
  }

  // ---- The second pass of lex_scan_string ----

  /** decode_unicode_escape: four hex digits behind the u at index at, or -1. */
  method DecodeEscape(text: seq<byte>, at: nat) returns (value: int)
    requires at + 5 <= |text|
    ensures value == if Hex4(text[at + 1..at + 5]) then Hex4Value(text[at + 1..at + 5]) else -1
  {
    ghost var h := text[at + 1..at + 5];
    value := 0;
    var i := 1;
    while i <= 4
      invariant 1 <= i <= 5
      invariant forall j :: 0 <= j < i - 1 ==> HexDigit(h[j])
      invariant i == 1 ==> value == 0
      invariant i == 2 ==> value == HexValue(h[0])
      invariant i == 3 ==> value == HexValue(h[0]) * 16 + HexValue(h[1])
      invariant i == 4 ==> value == (HexValue(h[0]) * 16 + HexValue(h[1])) * 16 + HexValue(h[2])
      invariant i == 5 ==> value == ((HexValue(h[0]) * 16 + HexValue(h[1])) * 16 + HexValue(h[2])) * 16 + HexValue(h[3])
    {
      var c := text[at + i];
      assert h[i - 1] == c;
      if !HexDigit(c) {
        return -1;
      }
      value := value * 16 + HexValue(c);
      i := i + 1;
    }
  }

  lemma EncodeLength(cp: int)
    requires 0 <= cp <= 0x10FFFF
    ensures 1 <= |Encode(cp)| <= 4 && (cp < 0x10000 ==> |Encode(cp)| <= 3)
  {
  }

  // How the reference function takes each kind of piece.

  lemma PieceRaw(s: seq<byte>)
    requires s != [] && Scanned(s) && s[0] != 92
    ensures Scanned(s[1..]) && Unescape(s) == Prepend([s[0]], Unescape(s[1..]))
  {
  }

  lemma PieceLong(s: seq<byte>)
    requires s != [] && Scanned(s) && s[0] == 92
    ensures |s| >= 2
  {
  }

  lemma Slice(s: seq<byte>, lo: nat, hi: nat, i: nat, j: nat)
    requires lo + i <= lo + j <= hi <= |s|
    ensures s[lo..hi][i..j] == s[lo + i..lo + j]
  {
    var a, b := s[lo..hi][i..j], s[lo + i..lo + j];
    assert |a| == |b| && forall k :: 0 <= k < |a| ==> a[k] == b[k];
  }

  lemma PieceShort(s: seq<byte>)
    requires s != [] && Scanned(s) && s[0] == 92 && s[1] != 117
    ensures |s| >= 2 && ShortEscape(s[1])
    ensures Scanned(s[2..]) && Unescape(s) == Prepend([ShortValue(s[1])], Unescape(s[2..]))
  {
  }

  lemma PieceUnit(s: seq<byte>)
    requires s != [] && Scanned(s) && s[0] == 92 && s[1] == 117
    ensures |s| >= 6 && Hex4(s[2..6]) && Scanned(s[6..])
    ensures Low(Hex4Value(s[2..6])) ==> Unescape(s) == None
    ensures !Low(Hex4Value(s[2..6])) && !High(Hex4Value(s[2..6])) ==>
      Unescape(s) == Prepend(Encode(Hex4Value(s[2..6])), Unescape(s[6..]))
  {
  }

  lemma PiecePair(s: seq<byte>)
    requires |s| >= 6 && Scanned(s) && s[0] == 92 && s[1] == 117 && Hex4(s[2..6]) && High(Hex4Value(s[2..6]))
    ensures |s| < 8 || s[6] != 92 || s[7] != 117 ==> Unescape(s) == None
    ensures |s| >= 8 && s[6] == 92 && s[7] == 117 ==>
      && |s| >= 12 && Hex4(s[8..12]) && Scanned(s[12..])
      && Unescape(s) == if Low(Hex4Value(s[8..12])) then
           Prepend(Encode(PairValue(Hex4Value(s[2..6]), Hex4Value(s[8..12]))), Unescape(s[12..])) else None
  {
    var u := s[6..];
    if |s| >= 8 && s[6] == 92 && s[7] == 117 {
      PieceUnit(u);
      assert u[2..6] == s[8..12];
      assert u[6..] == s[12..];
    }
  }

  /** The \u escape at index p. */
  lemma UnitAt(text: seq<byte>, p: nat)
    requires p < |text| - 1 && Scanned(text[p..|text| - 1]) && text[p] == 92
    requires text[p + 1] == 117 && text[|text| - 1] == 34
    ensures p + 6 < |text| && Hex4(text[p + 2..p + 6]) && Scanned(text[p + 6..|text| - 1])
    ensures Low(Hex4Value(text[p + 2..p + 6])) ==> Unescape(text[p..|text| - 1]) == None
    ensures !Low(Hex4Value(text[p + 2..p + 6])) && !High(Hex4Value(text[p + 2..p + 6])) ==>
      Unescape(text[p..|text| - 1]) == Prepend(Encode(Hex4Value(text[p + 2..p + 6])), Unescape(text[p + 6..|text| - 1]))
  {
    hide Encode, Scanned, Unescape, Hex4, Hex4Value, Low, High;
    var s := text[p..|text| - 1];
    assert s[0] == 92;
    PieceLong(s);
    assert s[1] == 117;
    PieceUnit(s);
    Slice(text, p, |text| - 1, 2, 6);
    Slice(text, p, |text| - 1, 6, |s|);
  }

  /** What stands behind a high surrogate at index p. */
  lemma PairAt(text: seq<byte>, p: nat)
    requires p + 6 < |text| && Scanned(text[p..|text| - 1]) && text[p] == 92
    requires text[p + 1] == 117 && text[|text| - 1] == 34
    requires Hex4(text[p + 2..p + 6]) && High(Hex4Value(text[p + 2..p + 6]))
    ensures text[p + 6] != 92 || text[p + 7] != 117 ==> Unescape(text[p..|text| - 1]) == None
    ensures text[p + 6] == 92 && text[p + 7] == 117 ==>
      && p + 12 < |text| && Hex4(text[p + 8..p + 12]) && Scanned(text[p + 12..|text| - 1])
      && Unescape(text[p..|text| - 1]) == if Low(Hex4Value(text[p + 8..p + 12])) then
           Prepend(Encode(PairValue(Hex4Value(text[p + 2..p + 6]), Hex4Value(text[p + 8..p + 12]))), Unescape(text[p + 12..|text| - 1]))
         else None
  {
    hide Encode, Scanned, Unescape, Hex4, Hex4Value, Low, High, PairValue;
    var s := text[p..|text| - 1];
    assert |s| >= 6 && s[0] == 92 && s[1] == 117;
    Slice(text, p, |text| - 1, 2, 6);
    PiecePair(s);
    if text[p + 6] == 92 && text[p + 7] == 117 {
      assert s[6] == 92 && |s| >= 8 && s[7] == 117;
      Slice(text, p, |text| - 1, 8, 12);
      Slice(text, p, |text| - 1, 12, |s|);
    } else {
      assert |s| < 8 || s[6] != 92 || s[7] != 117;
    }
  }

  /** The code point of the surrogate pair at index p0, of which the first is the high one; -1 without a low one. */
  method UnescapePair(text: seq<byte>, p0: nat, first: int) returns (value: int, p: nat)
    requires p0 + 6 < |text| && Scanned(text[p0..|text| - 1]) && text[p0] == 92
    requires text[p0 + 1] == 117 && text[|text| - 1] == 34
    requires Hex4(text[p0 + 2..p0 + 6]) && first == Hex4Value(text[p0 + 2..p0 + 6]) && High(first)
    ensures value < 0 ==> Unescape(text[p0..|text| - 1]) == None
    ensures value >= 0 ==> p0 + 12 == p < |text| && value <= 0x10FFFF && Scanned(text[p..|text| - 1])
    ensures value >= 0 ==> Unescape(text[p0..|text| - 1]) == Prepend(Encode(value), Unescape(text[p..|text| - 1]))
  {
    hide Encode, Scanned, Unescape, Hex4, Hex4Value;
    PairAt(text, p0);
    p := p0 + 6;
    if text[p] != 92 || text[p + 1] != 117 {
      return -1, p;
    }
    var second := DecodeEscape(text, p + 1);
    p := p + 6;
    if !Low(second) {
      return -1, p;
    }
    value := PairValue(first, second);
  }

  /** The code point of the \u escape at index p0, joined with its low surrogate; -1 when ill-formed. */
  method UnescapeUnit(text: seq<byte>, p0: nat) returns (value: int, p: nat)
    requires 1 <= p0 < |text| - 1 && Scanned(text[p0..|text| - 1]) && text[p0] == 92 && text[p0 + 1] == 117
    requires text[|text| - 1] == 34
    ensures value < 0 ==> Unescape(text[p0..|text| - 1]) == None
    ensures value >= 0 ==>
      && p0 < p <= |text| - 1 && value <= 0x10FFFF && p0 + |Encode(value)| <= p && Scanned(text[p..|text| - 1])
      && Unescape(text[p0..|text| - 1]) == Prepend(Encode(value), Unescape(text[p..|text| - 1]))
  {
    hide Encode, Scanned, Unescape, Hex4, Hex4Value;
    UnitAt(text, p0);
    value := DecodeEscape(text, p0 + 1);
    p := p0 + 6;
    if High(value) {
      value, p := UnescapePair(text, p0, value);
    } else if Low(value) {
      return -1, p;
    }
    if value >= 0 {
      EncodeLength(value);
    }
  }

  /** One round of the second pass: one raw byte or escape into the output. */
  method UnescapePiece(text: seq<byte>, p0: nat, t: array<byte>, n0: nat) returns (ok: bool, p: nat, n: nat)
    requires 1 <= p0 < |text| - 1 && text[|text| - 1] == 34 && n0 <= p0 && t.Length == |text| + 1
    requires Scanned(text[p0..|text| - 1])
    modifies t
    ensures !ok ==> Unescape(text[p0..|text| - 1]) == None
    ensures ok ==> p0 < p <= |text| - 1 && n0 <= n <= p && Scanned(text[p..|text| - 1]) && t[..n0] == old(t[..n0])
    ensures ok ==> Unescape(text[p0..|text| - 1]) == Prepend(t[n0..n], Unescape(text[p..|text| - 1]))
  {
    hide Encode, Scanned, Unescape, PieceLen;
    ghost var s := text[p0..|text| - 1];
    p, n := p0, n0;
    if text[p] == 92 {
      PieceLong(s);
      assert s[1] == text[p + 1];
      if text[p + 1] == 117 {
        PieceUnit(s);
        var value;
        value, p := UnescapeUnit(text, p);
        if value < 0 {
          return false, p, n;
        }
        EncodeLength(value);
        var rc, length := Utf8Encode(value, t, n);
        n := n + length;
        assert t[n0..n] == Encode(value);
      } else {
        PieceShort(s);
        assert s[1] == text[p + 1] && s[2..] == text[p + 2..|text| - 1];
        t[n] := ShortValue(text[p + 1]);
        n := n + 1;
        p := p + 2;
        assert t[n0..n] == [ShortValue(s[1])];
      }
    } else {
      PieceRaw(s);
      assert s[1..] == text[p + 1..|text| - 1];
      t[n] := text[p];
      n := n + 1;
      p := p + 1;
      assert t[n0..n] == [s[0]];
    }
    ok := true;
  }

  /** Decodes the body of a saved string token; the output never outgrows the source. */
  method UnescapeBody(text: seq<byte>) returns (r: Option<seq<byte>>)
    requires |text| >= 2 && text[|text| - 1] == 34 && Scanned(text[1..|text| - 1])
    ensures r == Unescape(text[1..|text| - 1])
  {
    hide Scanned, Unescape;
    ghost var body := text[1..|text| - 1];
    var t := new byte[|text| + 1];
    var p, n := 1, 0;
    PrependNothing(Unescape(body));
    while text[p] != 34
      invariant 1 <= p < |text| && n <= p && t.Length == |text| + 1
      invariant Scanned(text[p..|text| - 1])
      invariant Unescape(body) == Prepend(t[..n], Unescape(text[p..|text| - 1]))
      decreases |text| - p
    {
      ghost var done, p0, n0 := t[..n], p, n;
      var ok;
      ok, p, n := UnescapePiece(text, p, t, n);
      if !ok {
        return None;
      }
      assert t[..n] == done + t[n0..n];
      PrependTwice(done, t[n0..n], Unescape(text[p..|text| - 1]));
    }
    QuoteEnds(text[p..|text| - 1], text[p]);
    UnescapeEmpty();
    assert t[..n] + [] == t[..n];
    t[n] := 0;
    return Some(t[..n]);
  }

  lemma PrependNothing(r: Option<seq<byte>>)
    ensures Prepend([], r) == r
  {
    if r.Some? {
      assert [] + r.value == r.value;
    }
  }

  lemma PrependTwice(a: seq<byte>, b: seq<byte>, r: Option<seq<byte>>)
    ensures Prepend(a, Prepend(b, r)) == Prepend(a + b, r)
  {
    if r.Some? {
      assert a + (b + r.value) == a + b + r.value;
    }
  }

  lemma UnescapeEmpty()
    ensures Scanned([]) && Unescape([]) == Some([])
  {
  }

  /** Where a piece would begin, a quote can only be the closing one. */
  lemma QuoteEnds(s: seq<byte>, c: byte)
    requires Scanned(s) && c == 34 && (s != [] ==> s[0] == c)
    ensures s == []
  {
  }
}
