/**
 Parsing what `dump` prints gives an equal value: for every value without floats, every
 indentation and every byte string in it, through the scanner, the two codecs and the parser.
 */
module RoundTrip {
  import opened Bytes
  import opened Values
  import opened Ordering
  import opened Lexemes
  import opened Escape
  import opened StringCodec
  import opened Numbers
  import opened Grammar
  import opened Parsing
  import opened Printing

  // ----- The value read back -----

  /** The value the parser builds: a non-negative signed number is read as unsigned. */
  function Canon(j: Json): Json {
    match j
    case Integer(i) => if i < 0 then j else Unsigned(i)
    case Array(elems) => Array(CanonElems(elems))
    case Object(members) => Object(CanonMembers(members))
    case _ => j
  }

  function CanonElems(elems: seq<Json>): seq<Json> {
    if elems == [] then [] else [Canon(elems[0])] + CanonElems(elems[1..])
  }

  function CanonMembers(members: seq<Member>): (r: seq<Member>)
    ensures |r| == |members| && forall k :: 0 <= k < |r| ==> r[k].key == members[k].key
  {
    if members == [] then []
    else
      var r := [Member(members[0].key, Canon(members[0].value))] + CanonMembers(members[1..]);
      assert forall k :: 1 <= k < |r| ==> r[k].key == members[1..][k - 1].key;
      r
  }

  lemma {:induction false} CanonNoFloat(j: Json)
    requires NoFloat(j)
    ensures NoFloat(Canon(j))
    decreases j, 0
  {
    match j
    case Array(elems) => CanonElemsNoFloat(elems);
    case Object(members) => CanonMembersNoFloat(members);
    case _ =>
  }

  lemma {:induction false} CanonElemsNoFloat(elems: seq<Json>)
    requires forall k :: 0 <= k < |elems| ==> NoFloat(elems[k])
    ensures |CanonElems(elems)| == |elems| && forall k :: 0 <= k < |elems| ==> NoFloat(CanonElems(elems)[k])
    decreases elems, 0
  {
    if elems == [] {
    } else {
      CanonNoFloat(elems[0]);
      CanonElemsNoFloat(elems[1..]);
    }
  }

  lemma {:induction false} CanonMembersNoFloat(members: seq<Member>)
    requires forall k :: 0 <= k < |members| ==> NoFloat(members[k].value)
    ensures forall k :: 0 <= k < |members| ==> NoFloat(CanonMembers(members)[k].value)
    decreases members, 0
  {
    if members == [] {
    } else {
      CanonNoFloat(members[0].value);
      CanonMembersNoFloat(members[1..]);
    }
  }

  /** The value read back is equal under `operator==`. */
  lemma {:induction false} CanonEqual(j: Json)
    requires Valid(j) && NoFloat(j)
    ensures NoFloat(Canon(j)) && JsonEq(Canon(j), j)
    decreases j, 0
  {
    CanonNoFloat(j);
    match j
    case Array(elems) => CanonElemsEqual(elems);
    case Object(members) => CanonMembersEqual(members);
    case _ =>
  }

  lemma {:induction false} CanonElemsEqual(elems: seq<Json>)
    requires forall k :: 0 <= k < |elems| ==> Valid(elems[k]) && NoFloat(elems[k])
    ensures |CanonElems(elems)| == |elems| && forall k :: 0 <= k < |elems| ==> NoFloat(CanonElems(elems)[k])
    ensures ElemsEq(CanonElems(elems), elems)
    decreases elems, 0
  {
    CanonElemsNoFloat(elems);
    if elems == [] {
    } else {
      CanonEqual(elems[0]);
      CanonElemsEqual(elems[1..]);
      assert CanonElems(elems)[1..] == CanonElems(elems[1..]);
    }
  }

  lemma {:induction false} CanonMembersEqual(members: seq<Member>)
    requires forall k :: 0 <= k < |members| ==> Valid(members[k].value) && NoFloat(members[k].value)
    ensures forall k :: 0 <= k < |members| ==> NoFloat(CanonMembers(members)[k].value)
    ensures MembersEq(CanonMembers(members), members)
    decreases members, 0
  {
    CanonMembersNoFloat(members);
    if members == [] {
    } else {
      CanonEqual(members[0].value);
      CanonMembersEqual(members[1..]);
      assert CanonMembers(members)[1..] == CanonMembers(members[1..]);
    }
  }

  // ----- The derivation of the printed text -----

  function TreeOf(j: Json): Tree
    requires NoFloat(j)
  {
    match j
    case Null => NullTree
    case Boolean(b) => BoolTree(b)
    case String(s) => StringTree(s)
    case Integer(_) => NumberTree(Canon(j))
    case Unsigned(_) => NumberTree(j)
    case Array(elems) => ArrayTree(TreesOf(elems))
    case Object(members) => ObjectTree(PairsOf(members))
  }

  function TreesOf(elems: seq<Json>): (r: seq<Tree>)
    requires forall k :: 0 <= k < |elems| ==> NoFloat(elems[k])
    ensures |r| == |elems|
  {
    if elems == [] then [] else [TreeOf(elems[0])] + TreesOf(elems[1..])
  }

  function PairsOf(members: seq<Member>): (r: seq<Pair>)
    requires forall k :: 0 <= k < |members| ==> NoFloat(members[k].value)
    ensures |r| == |members|
  {
    if members == [] then [] else [Pair(members[0].key, TreeOf(members[0].value))] + PairsOf(members[1..])
  }

  /** It denotes the value read back: sorted members are inserted at the end one after the other. */
  lemma {:induction false} TreeDenotes(j: Json)
    requires Valid(j) && NoFloat(j)
    ensures Denote(TreeOf(j)) == Canon(j)
    decreases j, 0
  {
    match j
    case Array(elems) => TreesDenote(elems);
    case Object(members) =>
      PairsDenote([], members);
      assert [] + CanonMembers(members) == CanonMembers(members);
    case _ =>
  }

  lemma {:induction false} TreesDenote(elems: seq<Json>)
    requires forall k :: 0 <= k < |elems| ==> Valid(elems[k]) && NoFloat(elems[k])
    ensures DenoteElems(TreesOf(elems)) == CanonElems(elems)
    decreases elems, 0
  {
    if elems == [] {
    } else {
      TreeDenotes(elems[0]);
      TreesDenote(elems[1..]);
      assert TreesOf(elems)[1..] == TreesOf(elems[1..]);
    }
  }

  lemma {:induction false} PairsDenote(done: seq<Member>, members: seq<Member>)
    requires forall k :: 0 <= k < |members| ==> Valid(members[k].value) && NoFloat(members[k].value)
    requires Sorted(members) && AllBelow(done, members)
    ensures DenotePairs(PairsOf(members), done) == done + CanonMembers(members)
    decreases members, 0
  {
    if members == [] {
    } else {
      var m := members[0];
      TreeDenotes(m.value);
      var c := Member(m.key, Canon(m.value));
      BelowRest(done, c, members);
      PairsDenote(done + [c], members[1..]);
      PairsStep(done, members);
      Append(done, c, CanonMembers(members[1..]));
    }
  }

  /** Every key of `done` is less than every key of `members`. */
  ghost predicate AllBelow(done: seq<Member>, members: seq<Member>) {
    forall m, k :: m in done && 0 <= k < |members| ==> Less(m.key, members[k].key)
  }

  lemma BelowRest(done: seq<Member>, c: Member, members: seq<Member>)
    requires members != [] && c.key == members[0].key && Sorted(members) && AllBelow(done, members)
    ensures Sorted(members[1..]) && AllBelow(done + [c], members[1..])
    ensures Put(done, c.key, c.value) == done + [c]
  {
    PutLast(done, c.key, c.value);
  }

  lemma PairsStep(done: seq<Member>, members: seq<Member>)
    requires members != [] && forall k :: 0 <= k < |members| ==> NoFloat(members[k].value)
    ensures DenotePairs(PairsOf(members), done)
         == DenotePairs(PairsOf(members[1..]), Put(done, members[0].key, Denote(TreeOf(members[0].value))))
  {
    assert PairsOf(members)[1..] == PairsOf(members[1..]);
  }

  lemma Append(done: seq<Member>, c: Member, rest: seq<Member>)
    ensures done + [c] + rest == done + ([c] + rest)
  {
  }

  // ----- Tokens of the pieces of a printed text -----

  /** The text reads as the tokens; unfolded only where `Look` is mentioned. */
  ghost predicate Reads(s: bytes, ts: seq<Tok>) {
    forall once: bool {:trigger Look(once)} :: Look(once) ==> Tokens(s) == ts
  }

  /** A text that starts with a token. */
  lemma ReadsCons(s: bytes, n: nat, ts: seq<Tok>)
    requires s != [] && !IsBlank(s[0]) && s[0] != 0xEF
    requires !IsLast(Token(s).0) && Token(s).1 == n
    requires Reads(s[n..], ts)
    ensures Reads(s, [TokOf(s)] + ts)
  {
    assert SkipBlanks(s) == 0 && s[0..] == s;
    assert Look(true);
  }

  predicate AllBlank(w: bytes) {
    forall k :: 0 <= k < |w| ==> IsBlank(w[k])
  }

  lemma {:induction false} TokensBlank(w: bytes, s: bytes)
    requires AllBlank(w)
    ensures Tokens(w + s) == Tokens(s)
  {
    if w == [] {
      assert w + s == s;
    } else {
      var t := w[1..] + s;
      assert (w + s)[1..] == t && (w + s)[0] == w[0];
      assert SkipBlanks(w + s) == 1 + SkipBlanks(t);
      assert (w + s)[1 + SkipBlanks(t)..] == t[SkipBlanks(t)..];
      TokensBlank(w[1..], s);
    }
  }

  /** Blanks carry no token. */
  lemma ReadsBlank(w: bytes, s: bytes, ts: seq<Tok>)
    requires AllBlank(w) && Reads(s, ts)
    ensures Reads(w + s, ts)
  {
    TokensBlank(w, s);
    assert Look(true);
  }

  function MarkTok(c: byte): Tok {
    if c == 0x2C then Comma else if c == 0x3A then Colon else if c == 0x5B then LBracket
    else if c == 0x5D then RBracket else if c == 0x7B then LBrace else RBrace
  }

  predicate IsMark(c: byte) {
    c == 0x2C || c == 0x3A || c == 0x5B || c == 0x5D || c == 0x7B || c == 0x7D
  }

  lemma MarkToken(s: bytes)
    requires s != [] && IsMark(s[0])
    ensures !IsLast(Token(s).0) && Token(s).1 == 1 && TokOf(s) == MarkTok(s[0])
  {
  }

  lemma ReadsMark(c: byte, s: bytes, ts: seq<Tok>)
    requires IsMark(c) && Reads(s, ts)
    ensures Reads([c] + s, [MarkTok(c)] + ts)
  {
    assert ([c] + s)[1..] == s;
    MarkToken([c] + s);
    ReadsCons([c] + s, 1, ts);
  }

  lemma ReadsString(k: bytes, rest: bytes, ts: seq<Tok>)
    requires Reads(rest, ts)
    ensures Reads([QUOTE] + Escaped(k) + [QUOTE] + rest, [Str(Ok(k))] + ts)
  {
    var s := [QUOTE] + Escaped(k) + [QUOTE] + rest;
    var n := |Escaped(k)| + 2;
    EscapeRoundTrip(k, rest);
    assert s[n..] == rest;
    ReadsCons(s, n, ts);
    assert s[1..][..n - 2] == Escaped(k);
    assert StringIn(s) == StringValue(Escaped(k));
  }

  lemma NumberTok(i: int, rest: bytes)
    requires -TWO_63 <= i < TWO_64 && EndsHere(rest)
    ensures var s := DecimalSigned(i) + rest;
      Token(s) == (ValueNumber, |DecimalSigned(i)|) && TokOf(s) == Num(if i < 0 then Integer(i) else Unsigned(i))
  {
    NumberIsToken(i, rest);
    NumberRoundTrip(i);
    assert (DecimalSigned(i) + rest)[..|DecimalSigned(i)|] == DecimalSigned(i);
  }

  lemma ReadsNumber(i: int, rest: bytes, ts: seq<Tok>)
    requires -TWO_63 <= i < TWO_64 && EndsHere(rest) && Reads(rest, ts)
    ensures Reads(DecimalSigned(i) + rest, [Num(if i < 0 then Integer(i) else Unsigned(i))] + ts)
  {
    var s := DecimalSigned(i) + rest;
    NumberTok(i, rest);
    DecimalValue(if i < 0 then -i else i);
    assert s[0] == DecimalSigned(i)[0] && (s[0] == 0x2D || IsDigit(s[0]));
    assert s[|DecimalSigned(i)|..] == rest;
    ReadsCons(s, |DecimalSigned(i)|, ts);
  }

  lemma ReadsWord(w: bytes, rest: bytes, ts: seq<Tok>)
    requires w == TRUE || w == FALSE || w == NULL
    requires Reads(rest, ts)
    ensures Reads(w + rest, [if w == TRUE then True else if w == FALSE then False else NullTok] + ts)
  {
    var s := w + rest;
    assert w <= s && s[0] == w[0];
    assert s[|w|..] == rest;
    ReadsCons(s, |w|, ts);
  }

  // ----- The printed text reads as the derivation -----

  ghost predicate EndsHere(rest: bytes) {
    rest == [] || EndsNumber(rest[0])
  }

  lemma {:induction false} PrintReads(j: Json, pretty: bool, step: nat, current: nat, rest: bytes, ts: seq<Tok>)
    requires Valid(j) && NoFloat(j) && EndsHere(rest) && Reads(rest, ts)
    ensures Reads(Print(j, pretty, step, current) + rest, Yield(TreeOf(j)) + ts)
    decreases j, 1
  {
    match j
    case Array(elems) =>
      if elems == [] { EmptyReads(0x5B, 0x5D, rest, ts); } else { ArrayReads(j, pretty, step, current, rest, ts); }
    case Object(members) =>
      if members == [] { EmptyReads(0x7B, 0x7D, rest, ts); } else { ObjectReads(j, pretty, step, current, rest, ts); }
    case _ => ScalarReads(j, pretty, step, current, rest, ts);
  }

  lemma ScalarReads(j: Json, pretty: bool, step: nat, current: nat, rest: bytes, ts: seq<Tok>)
    requires Valid(j) && NoFloat(j) && EndsHere(rest) && Reads(rest, ts) && IsPrimitive(j)
    ensures Reads(Print(j, pretty, step, current) + rest, Yield(TreeOf(j)) + ts)
  {
    hide Reads;
    match j
    case Null => ReadsWord(NULL, rest, ts);
    case Boolean(b) => ReadsWord(if b then TRUE else FALSE, rest, ts);
    case Integer(i) => ReadsNumber(i, rest, ts);
    case Unsigned(u) => ReadsNumber(u, rest, ts);
    case String(s) => ReadsString(s, rest, ts);
  }

  lemma {:induction false} ArrayReads(j: Json, pretty: bool, step: nat, current: nat, rest: bytes, ts: seq<Tok>)
    requires Valid(j) && NoFloat(j) && EndsHere(rest) && Reads(rest, ts) && j.Array? && j.elems != []
    ensures Reads(Print(j, pretty, step, current) + rest, Yield(TreeOf(j)) + ts)
    decreases j, 0
  {
    var elems := j.elems;
    CloseReads(0x5D, pretty, current, rest, ts);
    ElemsRead(elems, pretty, step, Inner(pretty, step, current), Close(0x5D, pretty, current, rest), [RBracket] + ts);
    OpenReads(0x5B, 0x5D, PrintElems(elems, pretty, step, Inner(pretty, step, current)), pretty, current, rest,
              YieldElems(TreesOf(elems)), ts);
  }

  lemma {:induction false} ObjectReads(j: Json, pretty: bool, step: nat, current: nat, rest: bytes, ts: seq<Tok>)
    requires Valid(j) && NoFloat(j) && EndsHere(rest) && Reads(rest, ts) && j.Object? && j.members != []
    ensures Reads(Print(j, pretty, step, current) + rest, Yield(TreeOf(j)) + ts)
    decreases j, 0
  {
    var members := j.members;
    CloseReads(0x7D, pretty, current, rest, ts);
    MembersRead(members, pretty, step, Inner(pretty, step, current), Close(0x7D, pretty, current, rest), [RBrace] + ts);
    OpenReads(0x7B, 0x7D, PrintMembers(members, pretty, step, Inner(pretty, step, current)), pretty, current, rest,
              YieldPairs(PairsOf(members)), ts);
  }

  ghost predicate Brackets(open: byte, close: byte) {
    (open == 0x5B && close == 0x5D) || (open == 0x7B && close == 0x7D)
  }

  lemma EmptyReads(open: byte, close: byte, rest: bytes, ts: seq<Tok>)
    requires Brackets(open, close) && Reads(rest, ts)
    ensures Reads([open, close] + rest, (if open == 0x5B then [LBracket, RBracket] else [LBrace, RBrace]) + ts)
  {
    ReadsMark(close, rest, ts);
    var k := if open == 0x5B then RBracket else RBrace;
    ReadsMark(open, [close] + rest, [k] + ts);
    assert [open, close] + rest == [open] + ([close] + rest);
    assert (if open == 0x5B then [LBracket, RBracket] else [LBrace, RBrace]) + ts
        == [if open == 0x5B then LBracket else LBrace] + ([k] + ts);
  }

  /** What stands behind the contents of a printed array or object. */
  function Close(close: byte, pretty: bool, current: nat, rest: bytes): (r: bytes)
    ensures r != [] && (r[0] == 0x0A || r[0] == 0x20 || r[0] == close)
  {
    Newline(pretty) + Spaces(current) + ([close] + rest)
  }

  lemma CloseReads(close: byte, pretty: bool, current: nat, rest: bytes, ts: seq<Tok>)
    requires (close == 0x5D || close == 0x7D) && Reads(rest, ts)
    ensures Reads(Close(close, pretty, current, rest), [if close == 0x5D then RBracket else RBrace] + ts)
  {
    ReadsMark(close, rest, ts);
    ReadsBlank(Newline(pretty) + Spaces(current), [close] + rest, [if close == 0x5D then RBracket else RBrace] + ts);
  }

  lemma OpenReads(open: byte, close: byte, body: bytes, pretty: bool, current: nat, rest: bytes, bs: seq<Tok>, ts: seq<Tok>)
    requires Brackets(open, close)
    requires Reads(body + Close(close, pretty, current, rest), bs + ([if close == 0x5D then RBracket else RBrace] + ts))
    ensures Reads([open] + Newline(pretty) + body + Newline(pretty) + Spaces(current) + [close] + rest,
                  [if open == 0x5B then LBracket else LBrace] + bs + [if close == 0x5D then RBracket else RBrace] + ts)
  {
    var o, c := if open == 0x5B then LBracket else LBrace, if close == 0x5D then RBracket else RBrace;
    Shuffle([open], Newline(pretty), body, Newline(pretty), Spaces(current), [close], rest);
    ReadsBlank(Newline(pretty), body + Close(close, pretty, current, rest), bs + ([c] + ts));
    ReadsMark(open, Newline(pretty) + (body + Close(close, pretty, current, rest)), bs + ([c] + ts));
    Regroup([o], bs, [c], ts);
  }

  lemma Shuffle(a: bytes, b: bytes, c: bytes, d: bytes, e: bytes, f: bytes, g: bytes)
    ensures a + b + c + d + e + f + g == a + (b + (c + (d + e + (f + g))))
  {
  }

  lemma {:induction false} ElemsRead(elems: seq<Json>, pretty: bool, step: nat, indent: nat, rest: bytes, ts: seq<Tok>)
    requires elems != [] && forall k :: 0 <= k < |elems| ==> Valid(elems[k]) && NoFloat(elems[k])
    requires EndsHere(rest) && Reads(rest, ts)
    ensures Reads(PrintElems(elems, pretty, step, indent) + rest, YieldElems(TreesOf(elems)) + ts)
    decreases elems, 0
  {
    if |elems| == 1 {
      PrintReads(elems[0], pretty, step, indent, rest, ts);
      ElemReads(elems[0], pretty, step, indent, rest, Yield(TreeOf(elems[0])) + ts);
    } else {
      var more, ms := PrintElems(elems[1..], pretty, step, indent), YieldElems(TreesOf(elems[1..]));
      ElemsRead(elems[1..], pretty, step, indent, rest, ts);
      CommaReads(pretty, more + rest, ms + ts);
      PrintReads(elems[0], pretty, step, indent, Comma2(pretty, more + rest), [Comma] + (ms + ts));
      ElemReads(elems[0], pretty, step, indent, Comma2(pretty, more + rest), Yield(TreeOf(elems[0])) + ([Comma] + (ms + ts)));
      Separated(PrintElem(elems[0], pretty, step, indent), Newline(pretty), more, rest);
      Regroup(Yield(TreeOf(elems[0])), [Comma], ms, ts);
      assert TreesOf(elems)[1..] == TreesOf(elems[1..]);
    }
  }

  lemma ElemReads(j: Json, pretty: bool, step: nat, indent: nat, rest: bytes, ts: seq<Tok>)
    requires NoFloat(j) && Reads(Print(j, pretty, step, indent) + rest, ts)
    ensures Reads(PrintElem(j, pretty, step, indent) + rest, ts)
  {
    ReadsBlank(Spaces(indent), Print(j, pretty, step, indent) + rest, ts);
    assert PrintElem(j, pretty, step, indent) + rest == Spaces(indent) + (Print(j, pretty, step, indent) + rest);
  }

  /** A comma, the line break and more. */
  function Comma2(pretty: bool, more: bytes): (r: bytes)
    ensures r != [] && r[0] == 0x2C
  {
    [0x2C] + (Newline(pretty) + more)
  }

  lemma CommaReads(pretty: bool, more: bytes, ts: seq<Tok>)
    requires Reads(more, ts)
    ensures Reads(Comma2(pretty, more), [Comma] + ts)
  {
    ReadsBlank(Newline(pretty), more, ts);
    ReadsMark(0x2C, Newline(pretty) + more, ts);
  }

  lemma Separated(first: bytes, nl: bytes, more: bytes, rest: bytes)
    ensures first + [0x2C] + nl + more + rest == first + ([0x2C] + (nl + (more + rest)))
  {
  }

  lemma {:induction false} MembersRead(members: seq<Member>, pretty: bool, step: nat, indent: nat, rest: bytes, ts: seq<Tok>)
    requires members != [] && forall k :: 0 <= k < |members| ==> Valid(members[k].value) && NoFloat(members[k].value)
    requires EndsHere(rest) && Reads(rest, ts)
    ensures Reads(PrintMembers(members, pretty, step, indent) + rest, YieldPairs(PairsOf(members)) + ts)
    decreases members, 0
  {
    var m := members[0];
    var p := Pair(m.key, TreeOf(m.value));
    if |members| == 1 {
      PrintReads(m.value, pretty, step, indent, rest, ts);
      MemberReads(m, pretty, step, indent, rest, ts);
    } else {
      var more, ms := PrintMembers(members[1..], pretty, step, indent), YieldPairs(PairsOf(members[1..]));
      MembersRead(members[1..], pretty, step, indent, rest, ts);
      CommaReads(pretty, more + rest, ms + ts);
      PrintReads(m.value, pretty, step, indent, Comma2(pretty, more + rest), [Comma] + (ms + ts));
      MemberReads(m, pretty, step, indent, Comma2(pretty, more + rest), [Comma] + (ms + ts));
      Separated(PrintMember(m, pretty, step, indent), Newline(pretty), more, rest);
      Regroup(YieldPair(p), [Comma], ms, ts);
      assert PairsOf(members)[1..] == PairsOf(members[1..]);
    }
  }

  /** The text of a member: a name, a colon and the printed value. */
  lemma MemberText(m: Member, pretty: bool, step: nat, indent: nat, rest: bytes)
    requires NoFloat(m.value)
    ensures var blank: bytes := if pretty then [0x20] else [];
      PrintMember(m, pretty, step, indent) + rest
      == Spaces(indent) + ([QUOTE] + Escaped(m.key) + [QUOTE] + ([0x3A] + (blank + (Print(m.value, pretty, step, indent) + rest))))
  {
    hide Print, Escaped, Spaces;
    Named(Spaces(indent), Escaped(m.key), if pretty then [0x20] else [], Print(m.value, pretty, step, indent), rest);
  }

  /** It reads as the tokens of the pair. */
  lemma MemberReads(m: Member, pretty: bool, step: nat, indent: nat, rest: bytes, ts: seq<Tok>)
    requires NoFloat(m.value)
    requires Reads(Print(m.value, pretty, step, indent) + rest, Yield(TreeOf(m.value)) + ts)
    ensures Reads(PrintMember(m, pretty, step, indent) + rest, YieldPair(Pair(m.key, TreeOf(m.value))) + ts)
  {
    hide Reads, Print, PrintMember, Escaped, Spaces, Yield, TreeOf;
    var text := Print(m.value, pretty, step, indent) + rest;
    var vs := Yield(TreeOf(m.value)) + ts;
    var blank: bytes := if pretty then [0x20] else [];
    ReadsBlank(blank, text, vs);
    ReadsMark(0x3A, blank + text, vs);
    ReadsString(m.key, [0x3A] + (blank + text), [Colon] + vs);
    SpacesBlank(indent);
    ReadsBlank(Spaces(indent), [QUOTE] + Escaped(m.key) + [QUOTE] + ([0x3A] + (blank + text)), [Str(Ok(m.key))] + ([Colon] + vs));
    MemberText(m, pretty, step, indent, rest);
    assert [Str(Ok(m.key))] + ([Colon] + vs) == YieldPair(Pair(m.key, TreeOf(m.value))) + ts;
  }

  lemma SpacesBlank(n: nat)
    ensures AllBlank(Spaces(n))
  {
  }

  lemma Named(a: bytes, k: bytes, c: bytes, d: bytes, rest: bytes)
    ensures a + [0x22] + k + [0x22, 0x3A] + c + d + rest == a + ([QUOTE] + k + [QUOTE] + ([0x3A] + (c + (d + rest))))
  {
    assert [0x22, 0x3A] == [QUOTE] + [0x3A];
  }

  /** Parsing the output of `dump`, compact or with any indentation, succeeds and gives an equal value. */
  lemma PrintParseRoundTrip(j: Json, indent: int)
    requires Valid(j) && NoFloat(j)
    ensures Grammar.Parse(Tokens(PrintText(j, indent))) == Ok(Canon(j))
    ensures NoFloat(Canon(j)) && JsonEq(Canon(j), j)
  {
    CanonEqual(j);
    TreeDenotes(j);
    TextReads(j, indent);
    assert Look(true);
    ParsesTree(TreeOf(j), [End]);
  }

  lemma TextReads(j: Json, indent: int)
    requires Valid(j) && NoFloat(j)
    ensures Reads(PrintText(j, indent), Yield(TreeOf(j)) + [End])
  {
    EndReads();
    if indent >= 0 {
      PrintReads(j, true, indent, 0, [], [End]);
    } else {
      PrintReads(j, false, 0, 0, [], [End]);
    }
    assert PrintText(j, indent) + [] == PrintText(j, indent);
  }

  lemma EndReads()
    ensures Reads([], [End])
  {
    assert SkipBlanks([]) == 0 && Tokens([]) == [End];
  }
}
