/** The recursive-descent parser of load.c, proved to compute the values of JsonParse. */
module JsonParser {
  import opened Bytes
  import opened OrderedMap
  import opened JsonValue
  import opened JsonLex
  import opened JsonParse
  import opened JsonLexer
  import JsonStream
  import Utf8

  ghost function Cx(lex: Lexer): Input { Input(lex.Eofs(), lex.opt) }

  /** What is left to parse, counting the current token unless nothing can follow it. */
  ghost function Left(lex: Lexer): nat
    requires lex.Valid()
    reads lex, lex.stream, lex.stream.buffer
  {
    if Weight(lex.token) == 0 then 0 else |lex.Rest()| + 1
  }

  /** A method's result and the state it leaves, against the reference parser. */
  ghost predicate Agrees(r: Option<Json>, lex: Lexer, depth: nat, p: Option<Parsed>)
    reads lex, lex.stream, lex.stream.buffer
  {
    && lex.Valid()
    && match p
       case None => r == None
       case Some(v) => r == Some(v.value) && lex.Rest() == v.rest && lex.depth == depth
  }

  /** parse_value */
  method Value(lex: Lexer) returns (r: Option<Json>)
    requires lex.Valid()
    modifies lex`saved, lex`token, lex`depth, lex.stream, lex.stream.buffer
    ensures Agrees(r, lex, old(lex.depth), ParseValue(old(lex.token), old(lex.Rest()), old(lex.depth), Cx(lex)))
    decreases Left(lex), 0
  {
    hide JsonStream.Stream.Valid, Utf8.ValidPrefix, ParseValue, ParseArray, ParseObject, Scalar;
    ValueStep(lex.token, lex.Rest(), lex.depth, Cx(lex));
    lex.depth := lex.depth + 1;
    if lex.depth > MAX_DEPTH {
      return None;
    }
    if !lex.token.Punct? {
      r := Scalar(lex.token, lex.opt);
    } else if lex.token == Punct(123) {
      r := ObjectValue(lex);
    } else if lex.token == Punct(91) {
      r := ArrayValue(lex);
    } else {
      r := None;
    }
    if r.None? {
      return;
    }
    lex.depth := lex.depth - 1;
  }

  /** The value of a token that is one by itself. */
  function Scalar(t: Token, opt: Options): Option<Json>
    requires !t.Punct?
  {
    match t
    case StringToken(v) => if !opt.allowNul && 0 in v then None else Some(String(v))
    case IntegerToken(v) => Some(Integer(v))
    case RealToken(v) => Some(Real(v))
    case TrueToken => Some(Json.True)
    case FalseToken => Some(Json.False)
    case NullToken => Some(Json.Null)
    case Invalid => None
    case Eof => None
  }

  lemma ValueStep(t: Token, s: seq<byte>, d: nat, cx: Input)
    ensures ParseValue(t, s, d, cx) ==
      if d + 1 > MAX_DEPTH then None
      else if t == Punct(123) then ParseObject(s, d + 1, cx)
      else if t == Punct(91) then ParseArray(s, d + 1, cx)
      else if t.Punct? || Scalar(t, cx.opt).None? then None
      else Some(Parsed(Scalar(t, cx.opt).value, s))
  {
    hide ParseArray, ParseObject;
  }

  /** parse_array */
  method ArrayValue(lex: Lexer) returns (r: Option<Json>)
    requires lex.Valid()
    modifies lex`saved, lex`token, lex`depth, lex.stream, lex.stream.buffer
    ensures Agrees(r, lex, old(lex.depth), ParseArray(old(lex.Rest()), old(lex.depth), Cx(lex)))
    decreases |lex.Rest()|, 1
  {
    hide JsonStream.Stream.Valid, Utf8.ValidPrefix, ParseElems, ParseValue, Lex;
    ghost var s, d, cx := lex.Rest(), lex.depth, Cx(lex);
    lex.Scan();
    if lex.token == Punct(93) {
      return Some(Array([]));
    }
    var items := [];
    ghost var tail := Next(s, cx).rest;
    while !lex.token.Eof?
      invariant lex.Valid() && lex.depth == d && Cx(lex) == cx
      invariant Weight(lex.token) == 1 ==> tail == lex.Rest()
      invariant Left(lex) <= |s|
      invariant ParseArray(s, d, cx) == ParseElems(lex.token, tail, d, items, cx)
      decreases Left(lex)
    {
      ghost var t, s1 := lex.token, tail;
      ElemsStep(t, s1, d, items, cx);
      BadToken(t, s1, lex.Rest(), d, cx);
      var elem := Value(lex);
      if elem.None? {
        return None;
      }
      lex.Scan();
      if lex.token != Punct(44) {
        if lex.token != Punct(93) {
          return None;
        }
        return Some(Array(items + [elem.value]));
      }
      ghost var s2 := lex.Rest();
      lex.Scan();
      tail := Next(s2, cx).rest;
      items := items + [elem.value];
    }
    ElemsEof(tail, d, items, cx);
    return None;
  }

  lemma ElemsStep(t: Token, s: seq<byte>, d: nat, acc: seq<Json>, cx: Input)
    ensures ParseElems(t, s, d, acc, cx) ==
      match ParseValue(t, s, d, cx)
      case None => None
      case Some(v) =>
        var l := Next(v.rest, cx);
        if l.token == Punct(44) then ParseElems(Next(l.rest, cx).token, Next(l.rest, cx).rest, d, acc + [v.value], cx)
        else if l.token == Punct(93) then Some(Parsed(Array(acc + [v.value]), l.rest))
        else None
    ensures ParseValue(t, s, d, cx).Some? ==> |ParseValue(t, s, d, cx).value.rest| <= |s|
  {
    hide ParseValue, Next;
  }

  /** On a token that is no token, what stands behind it does not matter. */
  lemma BadToken(t: Token, a: seq<byte>, b: seq<byte>, d: nat, cx: Input)
    requires Weight(t) == 1 ==> a == b
    ensures ParseValue(t, a, d, cx) == ParseValue(t, b, d, cx)
    ensures Weight(t) == 0 ==> ParseValue(t, a, d, cx).None?
  {
    hide ParseArray, ParseObject;
  }

  lemma ElemsEof(s: seq<byte>, d: nat, acc: seq<Json>, cx: Input)
    ensures ParseElems(Token.Eof, s, d, acc, cx) == None
  {
  }

  /** parse_object */
  method ObjectValue(lex: Lexer) returns (r: Option<Json>)
    requires lex.Valid()
    modifies lex`saved, lex`token, lex`depth, lex.stream, lex.stream.buffer
    ensures Agrees(r, lex, old(lex.depth), ParseObject(old(lex.Rest()), old(lex.depth), Cx(lex)))
    decreases |lex.Rest()|, 1
  {
    hide JsonStream.Stream.Valid, Utf8.ValidPrefix, ParsePairs, ParseValue, Lex;
    ghost var s, d, cx := lex.Rest(), lex.depth, Cx(lex);
    lex.Scan();
    if lex.token == Punct(125) {
      return Some(Object([]));
    }
    var members := [];
    ghost var tail := Next(s, cx).rest;
    while true
      invariant lex.Valid() && lex.depth == d && Cx(lex) == cx
      invariant Weight(lex.token) == 1 ==> tail == lex.Rest()
      invariant Left(lex) <= |s|
      invariant ParseObject(s, d, cx) == ParsePairs(lex.token, tail, d, members, cx)
      decreases Left(lex)
    {
      PairsStep(lex.token, tail, d, members, cx);
      if !lex.token.StringToken? {
        return None;
      }
      var key := lex.token.text;
      if 0 in key {
        return None;
      }
      if lex.opt.rejectDuplicates && Get(members, key).Some? {
        return None;
      }
      var v := Member(lex, |s|);
      if v.None? {
        return None;
      }
      members := Set(members, key, v.value);
      lex.Scan();
      if lex.token != Punct(44) {
        break;
      }
      ghost var s2 := lex.Rest();
      lex.Scan();
      tail := Next(s2, cx).rest;
    }
    if lex.token != Punct(125) {
      return None;
    }
    return Some(Object(members));
  }

  /** The colon and the value of a member whose key has just been read. */
  method Member(lex: Lexer, ghost bound: nat) returns (r: Option<Json>)
    requires lex.Valid() && |lex.Rest()| < bound
    modifies lex`saved, lex`token, lex`depth, lex.stream, lex.stream.buffer
    ensures Agrees(r, lex, old(lex.depth), ParseMember(old(lex.Rest()), old(lex.depth), Cx(lex)))
    decreases bound, 0
  {
    hide JsonStream.Stream.Valid, Utf8.ValidPrefix, ParseValue, Lex;
    ghost var s, d, cx := lex.Rest(), lex.depth, Cx(lex);
    lex.Scan();
    if lex.token != Punct(58) {
      return None;
    }
    ghost var s1 := lex.Rest();
    lex.Scan();
    BadToken(lex.token, Next(s1, cx).rest, lex.Rest(), d, cx);
    r := Value(lex);
  }

  ghost function ParseMember(s: seq<byte>, d: nat, cx: Input): Option<Parsed> {
    var colon := Next(s, cx);
    if colon.token != Punct(58) then None
    else
      var first := Next(colon.rest, cx);
      ParseValue(first.token, first.rest, d, cx)
  }

  lemma PairsStep(t: Token, s: seq<byte>, d: nat, acc: seq<Entry<Json>>, cx: Input)
    ensures ParsePairs(t, s, d, acc, cx) ==
      if !KeyAllowed(t, acc, cx.opt) then None
      else match ParseMember(s, d, cx)
        case None => None
        case Some(v) =>
          var l := Next(v.rest, cx);
          var acc' := Set(acc, t.text, v.value);
          if l.token == Punct(44) then ParsePairs(Next(l.rest, cx).token, Next(l.rest, cx).rest, d, acc', cx)
          else if l.token == Punct(125) then Some(Parsed(Object(acc'), l.rest))
          else None
    ensures ParseMember(s, d, cx).Some? ==> |ParseMember(s, d, cx).value.rest| <= |s|
  {
    hide ParseValue, Next, KeyAllowed, Set;
  }

  /** parse_json */
  method Document(lex: Lexer) returns (r: Option<Json>)
    requires lex.Valid()
    modifies lex`saved, lex`token, lex`depth, lex.stream, lex.stream.buffer
    ensures r == ParseDocument(old(lex.Rest()), Cx(lex))
    ensures r.Some? && !lex.opt.disableEofCheck ==> lex.stream.position == |lex.Input()|
  {
    hide JsonStream.Stream.Valid, Utf8.ValidPrefix, ParseValue, Lex;
    ghost var cx := Cx(lex);
    ghost var s := lex.Rest();
    lex.depth := 0;
    lex.Scan();
    if !lex.opt.decodeAny {
      if lex.token != Punct(91) && lex.token != Punct(123) {
        return None;
      }
    }
    BadToken(lex.token, Next(s, cx).rest, lex.Rest(), 0, cx);
    r := Value(lex);
    if r.None? {
      return;
    }
    if !lex.opt.disableEofCheck {
      lex.Scan();
      if !lex.token.Eof? {
        return None;
      }
    }
  }

  /** json_loads, with the position it reports on success. */
  method Loads(text: seq<byte>, opt: Options) returns (r: Option<Json>, position: nat)
    requires 0 !in text
    ensures r == Load(text, opt)
    ensures r.Some? && !opt.disableEofCheck ==> position == |text|
  {
    hide JsonStream.Stream.Valid, Utf8.ValidPrefix, ParseDocument;
    var lex := new Lexer(text, opt);
    r := Document(lex);
    position := lex.stream.position;
    if r.Some? && !opt.disableEofCheck {
      DocumentEof(Utf8.ValidPrefix(text), Cx(lex));
    }
  }

  lemma DocumentEof(s: seq<byte>, cx: Input)
    requires ParseDocument(s, cx).Some? && !cx.opt.disableEofCheck
    ensures cx.eof
  {
    hide ParseValue, TokenLex;
  }
}
