/**
 The token stream of a text and the `parser` class without a callback
 (include/json.h:8667-8927): one token of lookahead, exceptions as `Throw`.
 */
module Parsing {
  import opened Bytes
  import opened Values
  import opened Lexemes
  import opened StringCodec
  import opened NumberGrammar
  import opened Numbers
  import opened Grammar
  import opened Lexing

  predicate IsLast(kind: Kind) { kind == EndOfInput || kind == ParseError }

  /** The token at the start of `s`, with its value. */
  ghost function TokOf(s: bytes): Tok {
    if Token(s).0 == ValueString then Str(StringIn(s))
    else if Token(s).0 == ValueNumber then Num(NumberOf(s[..Token(s).1]))
    else SimpleTok(Token(s).0)
  }

  /** A token without a value. */
  ghost function SimpleTok(kind: Kind): Tok {
    match kind
    case LiteralTrue => True
    case LiteralFalse => False
    case LiteralNull => NullTok
    case BeginArray => LBracket
    case EndArray => RBracket
    case BeginObject => LBrace
    case EndObject => RBrace
    case NameSeparator => Colon
    case ValueSeparator => Comma
    case EndOfInput => End
    case _ => Bad
  }

  /** The value of the string token at the start of `s`. */
  ghost function StringIn(s: bytes): Result<bytes>
    requires Token(s).0 == ValueString
  {
    StringPlaced(s);
    ValueFrom(s, 1, Token(s).1)
  }

  lemma StringPlaced(s: bytes)
    requires Token(s).0 == ValueString
    ensures InToken(s, 1, Token(s).1)
  {
  }

  /** All tokens of a text, up to the end of the input or the first error. */
  ghost function Tokens(s: bytes): seq<Tok>
    decreases |s|, 1
  {
    TokensFrom(s[SkipBlanks(s)..])
  }

  /** The same for a text without blanks in front. */
  ghost function TokensFrom(t: bytes): seq<Tok>
    decreases |t|, 0
  {
    [TokOf(t)] + if IsLast(Token(t).0) then [] else Tokens(t[Token(t).1..])
  }

  /** The kind of a token, as `scan` returns it. */
  ghost function KindOf(t: Tok): Kind {
    match t
    case True => LiteralTrue
    case False => LiteralFalse
    case NullTok => LiteralNull
    case Str(_) => ValueString
    case Num(_) => ValueNumber
    case LBracket => BeginArray
    case RBracket => EndArray
    case LBrace => BeginObject
    case RBrace => EndObject
    case Colon => NameSeparator
    case Comma => ValueSeparator
    case Bad => ParseError
    case End => EndOfInput
  }

  /** `tokens` are those from position `start` on, where the token `b[start..end]` stands. */
  ghost predicate Ahead(b: bytes, start: nat, end: nat, kind: Kind, tokens: seq<Tok>) {
    && start <= |b| && start < end && (!IsLast(kind) ==> end <= |b|)
    && Token(b[start..]) == (kind, end - start)
    && tokens == TokensFrom(b[start..])
  }

  lemma KindOfTok(s: bytes)
    ensures KindOf(TokOf(s)) == Token(s).0
  {
    var kind := Token(s).0;
    if kind != ValueString && kind != ValueNumber {
      SimpleKind(kind);
    }
  }

  lemma SimpleKind(kind: Kind)
    requires kind != ValueString && kind != ValueNumber
    ensures KindOf(SimpleTok(kind)) == kind
  {
  }

  lemma SliceTwice(b: bytes, i: nat, n: nat)
    requires i + n <= |b|
    ensures b[i..][n..] == b[i + n..]
  {
  }

  /** `Ahead`, unfolded only where `Look` is mentioned: the descent itself works on tokens, not on the text. */
  ghost predicate Linked(b: bytes, start: nat, end: nat, kind: Kind, tokens: seq<Tok>) {
    forall once: bool {:trigger Look(once)} :: Look(once) ==> Ahead(b, start, end, kind, tokens)
  }

  /** Behind a token come the tokens of the text behind it. */
  lemma TokensAfter(b: bytes, start: nat, end: nat, kind: Kind, tokens: seq<Tok>)
    requires Ahead(b, start, end, kind, tokens) && !IsLast(kind)
    ensures tokens[1..] == Tokens(b[end..])
  {
    hide Token, TokOf, SkipBlanks, Tokens;
    SliceTwice(b, start, end - start);
  }

  /** `l` is the first of `tokens`. */
  ghost predicate Finds(b: bytes, l: Lexeme, tokens: seq<Tok>) {
    tokens != [] && KindOf(tokens[0]) == l.kind && Linked(b, l.start, l.end, l.kind, tokens)
  }

  /** The token at position `p` is the first one from there on. */
  lemma Scanned(b: bytes, p: nat, tokens: seq<Tok>)
    requires p <= |b| && tokens == TokensFrom(b[p..])
    ensures Finds(b, TokenAt(b, p), tokens)
  {
    FirstKind(b[p..]);
  }

  /** The next scan finds the first of the tokens behind the cursor. */
  lemma FirstToken(b: bytes, i: nat)
    requires i <= |b|
    ensures Finds(b, LexAt(b, i), Tokens(b[i..]))
  {
    hide *;
    var p := i + SkipBlanks(b[i..]);
    TokensBehind(b, i);
    Scanned(b, p, Tokens(b[i..]));
    LexIsToken(b, i);
  }

  /** Unless this was the last token, the next scan finds the one behind it. */
  lemma NextToken(b: bytes, start: nat, i: nat, kind: Kind, tokens: seq<Tok>)
    requires Linked(b, start, i, kind, tokens) && !IsLast(kind)
    ensures i <= |b| && tokens != []
    ensures Finds(b, LexAt(b, i), tokens[1..])
  {
    assert Look(true);
    TokensAfter(b, start, i, kind, tokens);
    FirstToken(b, i);
  }

  lemma TokensBehind(b: bytes, i: nat)
    requires i <= |b|
    ensures var p := i + SkipBlanks(b[i..]); p <= |b| && Tokens(b[i..]) == TokensFrom(b[p..])
  {
    SliceTwice(b, i, SkipBlanks(b[i..]));
  }

  lemma FirstKind(t: bytes)
    ensures TokensFrom(t) != [] && KindOf(TokensFrom(t)[0]) == Token(t).0
  {
    KindOfTok(t);
  }

  lemma StringAhead(b: bytes, start: nat, end: nat, tokens: seq<Tok>)
    requires Ahead(b, start, end, ValueString, tokens)
    ensures InToken(b, start + 1, end) && tokens[0] == Str(ValueFrom(b, start + 1, end))
  {
    var s := b[start..];
    StringPlaced(s);
    assert s[1..] == b[start + 1..];
  }

  lemma NumberAhead(b: bytes, start: nat, end: nat, tokens: seq<Tok>)
    requires Ahead(b, start, end, ValueNumber, tokens)
    ensures tokens[0] == Num(NumberOf(b[start..end]))
    ensures b[start] == 0x2D ==> start + 1 < end
  {
    var s := b[start..];
    assert s[..end - start] == b[start..end];
    if s[0] == 0x2D {
      NumberFirst(s);
    }
  }

  class Parser {
    const m_lexer: Lexer
    var last_token: Kind
    /** The lookahead and the tokens behind it. */
    ghost var tokens: seq<Tok>

    ghost predicate Valid()
      reads this, m_lexer
    {
      && tokens != [] && KindOf(tokens[0]) == last_token
      && Linked(m_lexer.m_buffer, m_lexer.m_start, m_lexer.m_cursor, last_token, tokens)
    }

    constructor (s: bytes)
      ensures Valid() && tokens == Tokens(s) && fresh(m_lexer)
    {
      m_lexer := new Lexer(s);
      new;
      last_token := m_lexer.Scan();
      tokens := Tokens(s);
      assert s[0..] == s;
      FirstToken(s, 0);
    }

    /** Reads the next token; never called once the input has ended or the scanner has failed. */
    method GetToken()
      requires Valid() && !IsLast(last_token)
      modifies this, m_lexer
      ensures Valid() && tokens == old(tokens)[1..]
    {
      NextToken(m_lexer.m_buffer, m_lexer.m_start, m_lexer.m_cursor, last_token, tokens);
      last_token := m_lexer.Scan();
      tokens := tokens[1..];
    }

    /** `get_string` on the lookahead. */
    method CurrentString() returns (r: Result<bytes>)
      requires Valid() && last_token == ValueString
      ensures tokens[0] == Str(r)
    {
      assert Look(true);
      StringAhead(m_lexer.m_buffer, m_lexer.m_start, m_lexer.m_cursor, tokens);
      r := m_lexer.GetString();
    }

    /** `get_number` on the lookahead. */
    method CurrentNumber() returns (r: Json)
      requires Valid() && last_token == ValueNumber
      ensures tokens[0] == Num(r)
    {
      assert Look(true);
      NumberAhead(m_lexer.m_buffer, m_lexer.m_start, m_lexer.m_cursor, tokens);
      r := m_lexer.GetNumber();
    }

    /** The result and the state left behind are those of the recursive descent over the tokens. */
    ghost predicate Agrees(r: Result<Json>, expected: Parsed)
      reads this, m_lexer
    {
      match r
      case Ok(v) => Valid() && expected == Ok((v, tokens))
      case Throw(e) => expected == Throw(e)
    }

    method ParseInternal() returns (r: Result<Json>)
      requires Valid()
      modifies this, m_lexer
      ensures Agrees(r, ParseValue(old(tokens)))
      decreases |tokens|, 1
    {
      match last_token {
        case BeginObject => r := ParseObject();
        case BeginArray => r := ParseArray();
        case LiteralNull =>
          GetToken();
          r := Ok(Null);
        case ValueString =>
          var s := CurrentString();
          if s.Throw? { return Throw(s.error); }
          GetToken();
          r := Ok(String(s.value));
        case LiteralTrue =>
          GetToken();
          r := Ok(Boolean(true));
        case LiteralFalse =>
          GetToken();
          r := Ok(Boolean(false));
        case ValueNumber =>
          var v := CurrentNumber();
          GetToken();
          r := Ok(v);
        case _ => r := Throw(ParseErr);
      }
    }

    /** The `begin_array` case of `parse_internal`. */
    method ParseArray() returns (r: Result<Json>)
      requires Valid() && last_token == BeginArray
      modifies this, m_lexer
      ensures Agrees(r, ParseValue(old(tokens)))
      decreases |tokens|, 0
    {
      GetToken();
      if last_token == EndArray {
        GetToken();
        return Ok(Array([]));
      }
      if last_token == ValueSeparator { return Throw(ParseErr); }
      var elems: seq<Json> := [];
      var more := true;
      ghost var expected := ParseElems(tokens, []);
      while more
        invariant Valid() && |tokens| < |old(tokens)|
        invariant elems == [] ==> more && last_token != ValueSeparator && ParseElems(tokens, []) == expected
        invariant elems != [] ==> BehindElem(tokens, elems) == expected && (more <==> last_token == ValueSeparator)
        decreases |tokens|, more
      {
        if last_token == ValueSeparator {
          GetToken();
        }
        var value := ParseInternal();
        if value.Throw? { return Throw(value.error); }
        elems := elems + [value.value];
        more := last_token == ValueSeparator;
      }
      if last_token != EndArray { return Throw(ParseErr); }
      GetToken();
      r := Ok(Array(elems));
    }

    /** The name of a member, up to the colon. */
    method ParseMemberName() returns (r: Result<bytes>)
      requires Valid()
      modifies this, m_lexer
      ensures r == ParseName(old(tokens))
      ensures r.Ok? ==> Valid() && tokens == old(tokens)[2..]
    {
      if last_token != ValueString { return Throw(ParseErr); }
      r := CurrentString();
      if r.Throw? { return; }
      GetToken();
      if last_token != NameSeparator { return Throw(ParseErr); }
      GetToken();
    }

    /** The `begin_object` case of `parse_internal`. */
    method ParseObject() returns (r: Result<Json>)
      requires Valid() && last_token == BeginObject
      modifies this, m_lexer
      ensures Agrees(r, ParseValue(old(tokens)))
      decreases |tokens|, 0
    {
      GetToken();
      if last_token == EndObject {
        GetToken();
        return Ok(Object([]));
      }
      if last_token == ValueSeparator { return Throw(ParseErr); }
      var members: seq<Member> := [];
      var first, more := true, true;
      ghost var expected := ParseMembers(tokens, []);
      while more
        invariant Valid() && |tokens| < |old(tokens)|
        invariant first ==> more && members == [] && last_token != ValueSeparator && ParseMembers(tokens, []) == expected
        invariant !first ==> BehindMember(tokens, members) == expected && (more <==> last_token == ValueSeparator)
        decreases |tokens|, more
      {
        if last_token == ValueSeparator {
          GetToken();
        }
        var key := ParseMemberName();
        if key.Throw? { return Throw(key.error); }
        var value := ParseInternal();
        if value.Throw? { return Throw(value.error); }
        members := Put(members, key.value, value.value);
        first := false;
        more := last_token == ValueSeparator;
      }
      if last_token != EndObject { return Throw(ParseErr); }
      GetToken();
      r := Ok(Object(members));
    }

    /** `parser::parse`: the value of the whole token sequence, or the exception. */
    method Parse() returns (r: Result<Json>)
      requires Valid()
      modifies this, m_lexer
      ensures r == Grammar.Parse(old(tokens))
    {
      r := ParseInternal();
      if r.Ok? && last_token != EndOfInput {
        r := Throw(ParseErr);
      }
    }
  }

  /** White space and byte order marks in front carry no token. */
  lemma WhiteSpaceSkipped(w: bytes, s: bytes)
    requires Skippable(w)
    ensures Tokens(w + s) == Tokens(s)
  {
    hide Skippable, TokensFrom, SkipBlanks;
    SkippableSkipped(w, s);
    BehindFront(w, s, SkipBlanks(s));
  }

  lemma BehindFront(w: bytes, s: bytes, n: nat)
    requires n <= |s|
    ensures (w + s)[|w| + n..] == s[n..]
  {
  }

  /** The end of the input is the last token, and only the last. */
  lemma {:induction false} EndIsLast(s: bytes)
    ensures Tokens(s) != [] && forall i :: 0 <= i < |Tokens(s)| - 1 ==> Tokens(s)[i] != End
    decreases |s|
  {
    var t := s[SkipBlanks(s)..];
    if !IsLast(Token(t).0) {
      var rest := t[Token(t).1..];
      EndIsLast(rest);
      EndBehind(t, Tokens(rest));
    }
  }

  lemma EndBehind(t: bytes, more: seq<Tok>)
    requires !IsLast(Token(t).0)
    requires more != [] && forall i :: 0 <= i < |more| - 1 ==> more[i] != End
    ensures var ts := [TokOf(t)] + more; forall i :: 0 <= i < |ts| - 1 ==> ts[i] != End
  {
    KindOfTok(t);
  }

  /** A text is parsed exactly when its tokens up to the end of the input derive from the grammar, as the value derived. */
  lemma TextAccepted(text: bytes, v: Json)
    ensures Grammar.Parse(Tokens(text)) == Ok(v) <==> exists t :: Tokens(text) == Yield(t) + [End] && Denote(t) == v
  {
    var ts := Tokens(text);
    if Grammar.Parse(ts) == Ok(v) {
      var t := TreeOfParse(ts);
      var rest := ParseValue(ts).value.1;
      EndIsLast(text);
      assert ts[|Yield(t)|] == rest[0] == End;
      assert rest == [End];
    }
    forall t | ts == Yield(t) + [End] && Denote(t) == v ensures Grammar.Parse(ts) == Ok(v) {
      ParsesTree(t, [End]);
    }
  }

  /** `basic_json::parse` on a string. */
  method ParseText(text: bytes) returns (r: Result<Json>)
    ensures r == Grammar.Parse(Tokens(text))
  {
    var parser := new Parser(text);
    r := parser.Parse();
  }
}
