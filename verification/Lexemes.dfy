/**
 The tokens of RFC 7159 as this scanner defines them, stated on the text that is left:
 blanks, literals, strings (section 7) and numbers (section 6).
 The text is a C string, so the byte behind its end reads as 0.
 */
module Lexemes {
  import opened Bytes

  datatype Kind =
    | LiteralTrue | LiteralFalse | LiteralNull
    | ValueString | ValueNumber
    | BeginArray | BeginObject | EndArray | EndObject
    | NameSeparator | ValueSeparator
    | ParseError | EndOfInput

  /** A token and the half-open range of positions it occupies. */
  datatype Lexeme = Lexeme(kind: Kind, start: nat, end: nat)

  const TRUE: bytes := [0x74, 0x72, 0x75, 0x65]
  const FALSE: bytes := [0x66, 0x61, 0x6C, 0x73, 0x65]
  const NULL: bytes := [0x6E, 0x75, 0x6C, 0x6C]
  const BOM: bytes := [0xEF, 0xBB, 0xBF]
  const QUOTE: byte := 0x22
  const BACKSLASH: byte := 0x5C

  /** Tab, line feed, carriage return and space. */
  predicate IsBlank(c: byte) { c == 0x09 || c == 0x0A || c == 0x0D || c == 0x20 }

  predicate IsDigit(c: byte) { 0x30 <= c <= 0x39 }

  predicate IsHex(c: byte) { IsDigit(c) || 0x41 <= c <= 0x46 || 0x61 <= c <= 0x66 }

  /** A byte that stands for itself inside a string; this scanner refuses only 0x00 to 0x0F. */
  predicate IsPlain(c: byte) { c >= 0x10 && c != QUOTE && c != BACKSLASH }

  /** The characters of the two-byte escapes: " / \ b f n r t. */
  predicate IsSimpleEscape(c: byte) {
    c == 0x22 || c == 0x2F || c == 0x5C || c == 0x62 || c == 0x66 || c == 0x6E || c == 0x72 || c == 0x74
  }

  /** How many bytes of blanks (and byte order marks) `s` starts with. */
  function SkipBlanks(s: bytes): (n: nat)
    ensures n <= |s|
  {
    if s != [] && IsBlank(s[0]) then 1 + SkipBlanks(s[1..])
    else if BOM <= s then 3 + SkipBlanks(s[3..])
    else 0
  }

  /** Length of the rest of a string token, closing quote included. */
  function StringTail(s: bytes): (r: Option<nat>)
    ensures r.Some? ==> 1 <= r.value <= |s|
    decreases |s|, 0
  {
    if s == [] then None
    else if s[0] == QUOTE then Some(1)
    else if s[0] == BACKSLASH then Advance(1, EscapeTail(s[1..]))
    else if IsPlain(s[0]) then Advance(1, StringTail(s[1..]))
    else None
  }

  /** The same, behind a backslash. */
  function EscapeTail(s: bytes): (r: Option<nat>)
    ensures r.Some? ==> 1 <= r.value <= |s|
    decreases |s|, 0
  {
    if s == [] then None
    else if IsSimpleEscape(s[0]) then Advance(1, StringTail(s[1..]))
    else if s[0] == 0x75 then Advance(1, HexTail(s[1..], 4))
    else None
  }

  /** The same, where `n` more hexadecimal digits are due. */
  function HexTail(s: bytes, n: nat): (r: Option<nat>)
    ensures r.Some? ==> 1 <= r.value <= |s|
    decreases |s|, n + 1
  {
    if n == 0 then StringTail(s)
    else if s != [] && IsHex(s[0]) then Advance(1, HexTail(s[1..], n - 1))
    else None
  }

  function Advance(n: nat, r: Option<nat>): Option<nat> {
    match r
    case None => None
    case Some(m) => Some(n + m)
  }

  /** Number of digits `s` starts with. */
  function Digits(s: bytes): (n: nat)
    ensures n <= |s|
  {
    if s != [] && IsDigit(s[0]) then 1 + Digits(s[1..]) else 0
  }

  function IntLength(s: bytes): (n: nat)
    ensures n <= |s|
  {
    if s != [] && s[0] == 0x30 then 1 else Digits(s)
  }

  function FracLength(s: bytes): (n: nat)
    ensures n <= |s|
  {
    if s != [] && s[0] == 0x2E && Digits(s[1..]) > 0 then 1 + Digits(s[1..]) else 0
  }

  function ExpLength(s: bytes): (n: nat)
    ensures n <= |s|
  {
    if s != [] && (s[0] == 0x65 || s[0] == 0x45) then
      var k := if |s| > 1 && (s[1] == 0x2B || s[1] == 0x2D) then 2 else 1;
      var d := Digits(s[k..]);
      if d > 0 then k + d else 0
    else 0
  }

  function FracExpLength(s: bytes): (n: nat)
    ensures n <= |s|
  {
    var f := FracLength(s);
    f + ExpLength(s[f..])
  }

  /** Length of the number token `s` starts with, 0 when there is none. */
  function NumberLength(s: bytes): (n: nat)
    ensures n <= |s|
  {
    var m := if s != [] && s[0] == 0x2D then 1 else 0;
    var n := IntLength(s[m..]);
    if n == 0 then 0 else m + n + FracExpLength(s[m + n..])
  }

  /** The token at the start of `s` (no blanks in front) and its length. */
  function Token(s: bytes): (r: (Kind, nat))
    ensures r.1 >= 1 && (r.0 != EndOfInput ==> r.1 <= |s|)
  {
    if s == [] || s[0] == 0 then (EndOfInput, 1)
    else if s[0] == QUOTE then
      match StringTail(s[1..]) {
        case Some(n) => (ValueString, 1 + n)
        case None => (ParseError, 1)
      }
    else if s[0] == 0x2C then (ValueSeparator, 1)
    else if s[0] == 0x3A then (NameSeparator, 1)
    else if s[0] == 0x5B then (BeginArray, 1)
    else if s[0] == 0x5D then (EndArray, 1)
    else if s[0] == 0x7B then (BeginObject, 1)
    else if s[0] == 0x7D then (EndObject, 1)
    else if TRUE <= s then (LiteralTrue, 4)
    else if FALSE <= s then (LiteralFalse, 5)
    else if NULL <= s then (LiteralNull, 4)
    else if NumberLength(s) > 0 then (ValueNumber, NumberLength(s))
    else (ParseError, 1)
  }

  /** The next token of `b` from position `i`: blanks are skipped first. */
  function LexAt(b: bytes, i: nat): (r: Lexeme)
    requires i <= |b|
    ensures i <= r.start < r.end && r.start <= |b|
    ensures r.kind != EndOfInput ==> r.end <= |b|
  {
    TokenAt(b, i + SkipBlanks(b[i..]))
  }

  /** The token that starts at position `p`. */
  function TokenAt(b: bytes, p: nat): (r: Lexeme)
    requires p <= |b|
    ensures p == r.start < r.end && (r.kind != EndOfInput ==> r.end <= |b|)
  {
    Lexeme(Token(b[p..]).0, p, p + Token(b[p..]).1)
  }

  lemma LexIsToken(b: bytes, i: nat)
    requires i <= |b|
    ensures LexAt(b, i) == TokenAt(b, i + SkipBlanks(b[i..]))
  {
  }

  /** White space of section 2 of RFC 7159. */
  predicate WhiteSpace(c: byte) { c == 0x20 || c == 0x09 || c == 0x0A || c == 0x0D }

  ghost predicate StartsWithMark(s: bytes) {
    |s| >= 3 && s[0] == 0xEF && s[1] == 0xBB && s[2] == 0xBF
  }

  /** White space and byte order marks, and nothing else. */
  ghost predicate Skippable(w: bytes)
    decreases |w|
  {
    w == [] || (WhiteSpace(w[0]) && Skippable(w[1..])) || (StartsWithMark(w) && Skippable(w[3..]))
  }

  /** What the scanner skips is white space and byte order marks, up to the first byte that is neither. */
  lemma {:induction false} SkipsExactly(s: bytes)
    ensures var n := SkipBlanks(s);
      Skippable(s[..n]) && (n < |s| ==> !WhiteSpace(s[n])) && !StartsWithMark(s[n..])
    decreases |s|
  {
    MarkStarts(s);
    var n := SkipBlanks(s);
    if s != [] && WhiteSpace(s[0]) {
      SkipsExactly(s[1..]);
      assert s[..n][1..] == s[1..][..n - 1] && s[1..][n - 1..] == s[n..];
    } else if StartsWithMark(s) {
      SkipsExactly(s[3..]);
      assert s[..n][3..] == s[3..][..n - 3] && s[3..][n - 3..] == s[n..];
    } else {
      assert s[0..] == s;
    }
  }

  lemma MarkStarts(s: bytes)
    ensures BOM <= s <==> StartsWithMark(s)
  {
    assert |s| >= 3 ==> s == [s[0], s[1], s[2]] + s[3..];
    assert BOM <= s ==> s[0] == BOM[0] && s[1] == BOM[1] && s[2] == BOM[2];
  }

  /** A token starts behind white space and marks; neither starts a token. */
  lemma TokenStart(b: bytes, i: nat)
    requires i <= |b|
    ensures var l := LexAt(b, i);
      && Skippable(b[i..l.start]) && (l.start < |b| ==> !WhiteSpace(b[l.start])) && !StartsWithMark(b[l.start..])
      && l == TokenAt(b, l.start)
  {
    LexIsToken(b, i);
    SkipsExactly(b[i..]);
    var n := SkipBlanks(b[i..]);
    assert b[i..][..n] == b[i..i + n] && b[i..][n..] == b[i + n..];
    assert i + n < |b| ==> b[i..][n] == b[i + n];
  }

  /** And what may be skipped is skipped. */
  lemma {:induction false} SkippableSkipped(w: bytes, s: bytes)
    requires Skippable(w)
    ensures SkipBlanks(w + s) == |w| + SkipBlanks(s)
    decreases |w|
  {
    if w == [] {
      assert w + s == s;
    } else if WhiteSpace(w[0]) {
      assert (w + s)[1..] == w[1..] + s;
      SkippableSkipped(w[1..], s);
    } else {
      assert (w + s)[3..] == w[3..] + s;
      MarkStarts(w + s);
      SkippableSkipped(w[3..], s);
    }
  }
}
