/** What the recursive-descent parser of load.c computes, as functions on the unread input. */
module JsonParse {
  import opened Bytes
  import opened Utf8
  import opened OrderedMap
  import opened JsonValue
  import opened JsonLex

  datatype Parsed = Parsed(value: Json, rest: seq<byte>)

  /** What the parser is run with: the flags, and how its input ends. */
  datatype Input = Input(eof: bool, opt: Options)

  function Next(s: seq<byte>, cx: Input): (l: Lexed)
    ensures |l.rest| + Weight(l.token) <= |s|
  {
    Lex(s, cx.eof, cx.opt)
  }

  /** A value whose first token is t; d counts the values already open. */
  function ParseValue(t: Token, s: seq<byte>, d: nat, cx: Input): (r: Option<Parsed>)
    ensures r.Some? ==> |r.value.rest| <= |s|
    ensures r.Some? ==> !t.Eof? && !t.Invalid?
    decreases |s| + Weight(t), 0
  {
    if d + 1 > MAX_DEPTH then None
    else match t
      case StringToken(v) => if !cx.opt.allowNul && 0 in v then None else Some(Parsed(String(v), s))
      case IntegerToken(v) => Some(Parsed(Integer(v), s))
      case RealToken(v) => Some(Parsed(Real(v), s))
      case TrueToken => Some(Parsed(Json.True, s))
      case FalseToken => Some(Parsed(Json.False, s))
      case NullToken => Some(Parsed(Json.Null, s))
      case Punct(c) =>
        if c == 123 then ParseObject(s, d + 1, cx)
        else if c == 91 then ParseArray(s, d + 1, cx)
        else None
      case Invalid => None
      case Eof => None
  }

  function ParseArray(s: seq<byte>, d: nat, cx: Input): (r: Option<Parsed>)
    ensures r.Some? ==> |r.value.rest| <= |s|
    decreases |s|, 2
  {
    var l := Next(s, cx);
    if l.token == Punct(93) then Some(Parsed(Array([]), l.rest))
    else ParseElems(l.token, l.rest, d, [], cx)
  }

  function ParseElems(t: Token, s: seq<byte>, d: nat, acc: seq<Json>, cx: Input): (r: Option<Parsed>)
    ensures r.Some? ==> |r.value.rest| <= |s|
    decreases |s| + Weight(t), 1
  {
    match ParseValue(t, s, d, cx)
    case None => None
    case Some(v) =>
      var l := Next(v.rest, cx);
      if l.token == Punct(44) then
        var m := Next(l.rest, cx);
        ParseElems(m.token, m.rest, d, acc + [v.value], cx)
      else if l.token == Punct(93) then Some(Parsed(Array(acc + [v.value]), l.rest))
      else None
  }

  function ParseObject(s: seq<byte>, d: nat, cx: Input): (r: Option<Parsed>)
    ensures r.Some? ==> |r.value.rest| <= |s|
    decreases |s|, 2
  {
    var l := Next(s, cx);
    if l.token == Punct(125) then Some(Parsed(Object([]), l.rest))
    else ParsePairs(l.token, l.rest, d, [], cx)
  }

  predicate KeyAllowed(t: Token, acc: seq<Entry<Json>>, opt: Options) {
    t.StringToken? && 0 !in t.text && (opt.rejectDuplicates ==> Get(acc, t.text).None?)
  }

  function ParsePairs(t: Token, s: seq<byte>, d: nat, acc: seq<Entry<Json>>, cx: Input): (r: Option<Parsed>)
    ensures r.Some? ==> |r.value.rest| <= |s|
    decreases |s| + Weight(t), 1
  {
    if !KeyAllowed(t, acc, cx.opt) then None
    else
      var colon := Next(s, cx);
      if colon.token != Punct(58) then None
      else
        var first := Next(colon.rest, cx);
        match ParseValue(first.token, first.rest, d, cx)
        case None => None
        case Some(v) =>
          var acc' := Set(acc, t.text, v.value);
          var l := Next(v.rest, cx);
          if l.token == Punct(44) then
            var m := Next(l.rest, cx);
            ParsePairs(m.token, m.rest, d, acc', cx)
          else if l.token == Punct(125) then Some(Parsed(Object(acc'), l.rest))
          else None
  }

  /** One value, and nothing but blanks behind it unless that check is off. */
  function ParseDocument(s: seq<byte>, cx: Input): Option<Json> {
    var l := Next(s, cx);
    if !cx.opt.decodeAny && l.token != Punct(91) && l.token != Punct(123) then None
    else match ParseValue(l.token, l.rest, 0, cx)
      case None => None
      case Some(p) =>
        if !cx.opt.disableEofCheck && !Next(p.rest, cx).token.Eof? then None
        else Some(p.value)
  }

  /** json_loads: the bytes up to the first malformed character are all the lexer ever sees. */
  function Load(text: seq<byte>, opt: Options): Option<Json> {
    var input := ValidPrefix(text);
    ParseDocument(input, Input(input == text, opt))
  }
}
