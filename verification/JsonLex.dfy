/** What the lexer of load.c computes, as functions on the unread input. */
module JsonLex {
  import opened Bytes
  import opened Utf8
  import opened JsonValue
  import opened JsonGrammar

  datatype Token =
    | Eof
    | Invalid
    | Punct(c: byte)
    | StringToken(text: seq<byte>)
    | IntegerToken(value: int)
    | RealToken(text: seq<byte>)
    | TrueToken
    | FalseToken
    | NullToken

  /** A token and the input behind it; what follows an invalid token is of no interest. */
  datatype Lexed = Lexed(token: Token, rest: seq<byte>)

  const BAD := Lexed(Invalid, [])

  function Weight(t: Token): nat { if t.Eof? || t.Invalid? then 0 else 1 }

  function SkipBlank(s: seq<byte>): (r: seq<byte>)
    ensures |r| <= |s|
    ensures r != [] ==> !Space(r[0])
  {
    if s != [] && Space(s[0]) then SkipBlank(s[1..]) else s
  }

  /** The number of leading bytes that satisfy a class. */
  function Run(s: seq<byte>, p: byte -> bool): (n: nat)
    ensures n <= |s| && (forall i :: 0 <= i < n ==> p(s[i])) && (n < |s| ==> !p(s[n]))
  {
    if s != [] && p(s[0]) then 1 + Run(s[1..], p) else 0
  }

  const IsDigit: byte -> bool := (b: byte) => Digit(b)
  const IsAlpha: byte -> bool := (b: byte) => Alpha(b)

  // ---- Strings ----

  /** The length of the first raw byte or escape of a string body. */
  function PieceLen(s: seq<byte>): (n: Option<nat>)
    requires s != []
    ensures n.Some? ==> 1 <= n.value <= |s|
  {
    if s[0] < 0x20 then None
    else if s[0] != 92 then Some(1)
    else if |s| >= 2 && ShortEscape(s[1]) then Some(2)
    else if |s| >= 6 && s[1] == 117 && Hex4(s[2..6]) then Some(6)
    else None
  }

  /** First pass: the length of the body with its closing quote. */
  function BodyEnd(s: seq<byte>): (n: Option<nat>)
    ensures n.Some? ==> 1 <= n.value <= |s| && s[n.value - 1] == 34
  {
    if s == [] then None
    else if s[0] == 34 then Some(1)
    else match PieceLen(s)
      case None => None
      case Some(k) =>
        match BodyEnd(s[k..])
        case None => None
        case Some(n) => Some(k + n)
  }

  /** A body the first pass has let through. */
  predicate Scanned(body: seq<byte>) {
    body == []
    || (body[0] != 34 && PieceLen(body).Some? && Scanned(body[PieceLen(body).value..]))
  }

  /** Second pass: the string the body denotes. */
  function Unescape(body: seq<byte>): Option<seq<byte>>
    requires Scanned(body)
  {
    if body == [] then Some([])
    else if body[0] != 92 then Prepend([body[0]], Unescape(body[1..]))
    else if body[1] != 117 then Prepend([ShortValue(body[1])], Unescape(body[2..]))
    else
      var v := Hex4Value(body[2..6]);
      var rest := body[6..];
      if High(v) then
        if |rest| >= 2 && rest[0] == 92 && rest[1] == 117 && Low(Hex4Value(rest[2..6])) then
          Prepend(Encode(PairValue(v, Hex4Value(rest[2..6]))), Unescape(rest[6..]))
        else None
      else if Low(v) then None
      else Prepend(Encode(v), Unescape(rest))
  }

  function Prepend(a: seq<byte>, r: Option<seq<byte>>): Option<seq<byte>> {
    match r
    case None => None
    case Some(s) => Some(a + s)
  }

  lemma {:induction false} BodyIsScanned(s: seq<byte>)
    requires BodyEnd(s).Some?
    ensures Scanned(s[..BodyEnd(s).value - 1])
  {
    if s[0] != 34 {
      var k := PieceLen(s).value;
      var n := BodyEnd(s).value;
      BodyIsScanned(s[k..]);
      var body := s[..n - 1];
      assert body[k..] == s[k..][..n - k - 1];
      assert k <= |body|;
      if k == 6 {
        assert body[2..6] == s[2..6];
      }
    }
  }

  function StringLex(s: seq<byte>): (r: Lexed)
    ensures |r.rest| <= |s|
  {
    match BodyEnd(s)
    case None => BAD
    case Some(n) =>
      BodyIsScanned(s);
      match Unescape(s[..n - 1])
      case None => BAD
      case Some(v) => Lexed(StringToken(v), s[n..])
  }

  lemma StringLexKind(s: seq<byte>)
    ensures StringLex(s).token.StringToken? || StringLex(s).token.Invalid?
  {
    hide BodyEnd, Unescape;
  }

  // ---- Numbers ----

  function WholeEnd(s: seq<byte>): (n: Option<nat>)
    ensures n.Some? ==> 1 <= n.value <= |s| && IsInt(s[..n.value])
  {
    if s == [] then None
    else if s[0] == 48 then (if |s| > 1 && Digit(s[1]) then None else assert s[..1] == [48]; Some(1))
    else if Digit(s[0]) then Some(Run(s, IsDigit))
    else None
  }

  function FracEnd(s: seq<byte>): (n: Option<nat>)
    ensures n.Some? ==> n.value <= |s| && IsFrac(s[..n.value])
  {
    if s == [] || s[0] != 46 then Some(0)
    else if |s| > 1 && Digit(s[1]) then
      var n := 1 + Run(s[1..], IsDigit);
      assert s[..n][1..] == s[1..][..n - 1];
      Some(n)
    else None
  }

  function ExpEnd(s: seq<byte>): (n: Option<nat>)
    ensures n.Some? ==> n.value <= |s| && IsExp(s[..n.value])
  {
    if s == [] || !ExpMark(s[0]) then Some(0)
    else
      var k := if |s| > 1 && Sign(s[1]) then 2 else 1;
      if |s| > k && Digit(s[k]) then
        var n := k + Run(s[k..], IsDigit);
        assert s[..n][k..] == s[k..][..n - k];
        Some(n)
      else None
  }

  predicate IntStop(s: seq<byte>) { s == [] || (s[0] != 46 && !ExpMark(s[0])) }

  function IntegerOf(text: seq<byte>, rest: seq<byte>): Lexed
    requires text != [] && AllDigits(if text[0] == 45 then text[1..] else text)
  {
    if INT_MIN <= IntValue(text) <= INT_MAX then Lexed(IntegerToken(IntValue(text)), rest) else BAD
  }

  function RealOf(text: seq<byte>, rest: seq<byte>, opt: Options): Lexed {
    if opt.overflows(text) then BAD else Lexed(RealToken(text), rest)
  }

  /** s starts with a digit or a minus sign. */
  function NumberLex(s: seq<byte>, opt: Options): (r: Lexed)
    requires s != []
    ensures |r.rest| + Weight(r.token) <= |s|
  {
    var m := if s[0] == 45 then 1 else 0;
    match WholeEnd(s[m..])
    case None => BAD
    case Some(w) =>
      var a := m + w;
      if !opt.intAsReal && IntStop(s[a..]) then
        assert AllDigits(if s[..a][0] == 45 then s[..a][1..] else s[..a]) by {
          assert s[..a][m..] == s[m..][..w];
        }
        IntegerOf(s[..a], s[a..])
      else match FracEnd(s[a..])
        case None => BAD
        case Some(f) =>
          match ExpEnd(s[a + f..])
          case None => BAD
          case Some(e) => RealOf(s[..a + f + e], s[a + f + e..], opt)
  }

  function MinusLen(all: seq<byte>): nat { if all != [] && all[0] == 45 then 1 else 0 }

  // The lexer's two outcomes on a number, by where its parts end.

  lemma IntegerCase(all: seq<byte>, w: nat, opt: Options)
    requires all != [] && WholeEnd(all[MinusLen(all)..]) == Some(w)
    requires !opt.intAsReal && IntStop(all[MinusLen(all) + w..])
    ensures var text := all[..MinusLen(all) + w];
      && text != [] && AllDigits(if text[0] == 45 then text[1..] else text)
      && NumberLex(all, opt) == IntegerOf(text, all[MinusLen(all) + w..])
  {
    hide FracEnd, ExpEnd, IntegerOf, RealOf;
    var n := MinusLen(all);
    assert all[..n + w][n..] == all[n..][..w];
  }

  lemma RealCase(all: seq<byte>, w: nat, f: nat, e: nat, opt: Options)
    requires all != [] && WholeEnd(all[MinusLen(all)..]) == Some(w)
    requires opt.intAsReal || !IntStop(all[MinusLen(all) + w..])
    requires var a := MinusLen(all) + w; FracEnd(all[a..]) == Some(f) && ExpEnd(all[a + f..]) == Some(e)
    ensures var z := MinusLen(all) + w + f + e; z <= |all| && NumberLex(all, opt) == RealOf(all[..z], all[z..], opt)
  {
    hide IntegerOf, RealOf, WholeEnd, FracEnd, ExpEnd;
  }

  lemma NoNumber(all: seq<byte>, opt: Options)
    requires all != []
    ensures WholeEnd(all[MinusLen(all)..]).None? ==> NumberLex(all, opt) == BAD
    ensures WholeEnd(all[MinusLen(all)..]).Some? ==>
      var a := MinusLen(all) + WholeEnd(all[MinusLen(all)..]).value;
      (opt.intAsReal || !IntStop(all[a..])) && (FracEnd(all[a..]).None? || ExpEnd(all[a + FracEnd(all[a..]).value..]).None?)
      ==> NumberLex(all, opt) == BAD
  {
    hide IntegerOf, RealOf, WholeEnd, FracEnd, ExpEnd;
  }

  // ---- Words and punctuation ----

  function WordToken(w: seq<byte>): Token {
    if w == TRUE_TEXT then TrueToken
    else if w == FALSE_TEXT then FalseToken
    else if w == NULL_TEXT then NullToken
    else Invalid
  }

  function WordLex(s: seq<byte>): (r: Lexed)
    requires s != [] && Alpha(s[0])
    ensures |r.rest| + Weight(r.token) <= |s|
  {
    var n := Run(s, IsAlpha);
    Lexed(WordToken(s[..n]), s[n..])
  }

  predicate Punctuation(b: byte) {
    b == 123 || b == 125 || b == 91 || b == 93 || b == 58 || b == 44
  }

  /** One token of a non-blank input. */
  function TokenLex(r: seq<byte>, opt: Options): (l: Lexed)
    requires r != []
    ensures |l.rest| + Weight(l.token) <= |r| && !l.token.Eof?
  {
    if Punctuation(r[0]) then Lexed(Punct(r[0]), r[1..])
    else if r[0] == 34 then StringLex(r[1..])
    else if Digit(r[0]) || r[0] == 45 then NumberLex(r, opt)
    else if Alpha(r[0]) then WordLex(r)
    else BAD
  }

  /** eof tells whether the input ends, or breaks off at a malformed character. */
  function Lex(s: seq<byte>, eof: bool, opt: Options): (l: Lexed)
    ensures |l.rest| + Weight(l.token) <= |s|
  {
    var r := SkipBlank(s);
    if r == [] then Lexed(if eof then Eof else Invalid, []) else TokenLex(r, opt)
  }
}
