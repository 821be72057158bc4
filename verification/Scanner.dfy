/**
 `lexer::scan` (include/json.h:7517-8279): the re2c automaton with its cursor, its
 backtracking marker and `yyaccept`. Label `LN` is `basic_json_parser_N`; the labels are
 grouped by the kind of token they read.
 */
module Scanner {
  import opened Bytes
  import opened Lexemes

  datatype Label =
    | Back                        // L33: return to the marker
    | Blank                       // L6
    | Fail                        // L5
    | Accept                      // L14
    | Single(kind: Kind)          // L2, L4, L10, L17, L19, L21, L26, L28: one byte, one token
    | Str(s: StringLabel)
    | Num(n: NumberLabel)
    | Lit(l: LiteralLabel)
    | Mark(m: MarkLabel)

  datatype StringLabel = L9 | L31 | L32 | L34 | L36 | L43 | L54 | L60 | L63
  datatype NumberLabel = L12 | L13 | L15 | L37 | L38 | L44 | L46 | L47
  datatype LiteralLabel = L23 | L24 | L25 | L39 | L40 | L41 | L49 | L50 | L51 | L55 | L56 | L58 | L61
  datatype MarkLabel = L30 | L42 | L52

  /** The registers of the automaton; `pc` is where control is. */
  datatype Config = Config(pc: Label, cursor: nat, marker: nat, accept: nat)

  datatype Outcome =
    | Goto(config: Config)
    | Return(kind: Kind, cursor: nat)
    | Rescan(cursor: nat)

  /** `*p` in a buffer that ends with a NUL byte. */
  function At(b: bytes, p: nat): byte
    requires p <= |b|
  {
    if p < |b| then b[p] else 0
  }

  /** The cursor stays inside the buffer; every label but these reads on from a byte that is not the NUL. */
  predicate InBuffer(b: bytes, c: Config) {
    && c.cursor <= |b| && c.marker <= |b|
    && (c.cursor == |b| ==> c.pc.Back? || c.pc.Fail? || c.pc.Accept? || c.pc == Single(EndOfInput) || c.pc == Str(L32))
  }

  /** One block of the automaton, up to the next `goto` or `return`. */
  function Step(b: bytes, c: Config): Outcome
    requires InBuffer(b, c)
  {
    match c.pc
    case Back => Goto(c.(cursor := c.marker, pc := if c.accept == 0 then Fail else Accept))
    case Blank => if IsBlank(At(b, c.cursor + 1)) then Goto(c.(cursor := c.cursor + 1)) else Rescan(c.cursor + 1)
    case Fail => Return(ParseError, c.cursor)
    case Accept => Return(ValueNumber, c.cursor)
    case Single(kind) => Return(kind, c.cursor + 1)
    case Str(q) => StringStep(b, q, c)
    case Num(q) => NumberStep(b, q, c)
    case Lit(q) => LiteralStep(b, q, c)
    case Mark(q) => MarkStep(b, q, c)
  }

  /** The decision tree on the first byte of a token. */
  function FirstLabel(ch: byte): Label {
    if IsBlank(ch) then Blank
    else if ch <= 0x5C then
      if ch <= 0x2D then
        if ch <= 0x22 then (if ch <= 0x00 then Single(EndOfInput) else if ch <= 0x21 then Single(ParseError) else Str(L9))
        else if ch <= 0x2B then Single(ParseError) else if ch <= 0x2C then Single(ValueSeparator) else Num(L12)
      else if ch <= 0x39 then
        (if ch <= 0x2F then Single(ParseError) else if ch <= 0x30 then Num(L13) else Num(L15))
      else if ch <= 0x3A then Single(NameSeparator) else if ch == 0x5B then Single(BeginArray) else Single(ParseError)
    else if ch <= 0x74 then
      if ch <= 0x66 then (if ch <= 0x5D then Single(EndArray) else if ch <= 0x65 then Single(ParseError) else Lit(L23))
      else if ch == 0x6E then Lit(L24) else if ch <= 0x73 then Single(ParseError) else Lit(L25)
    else if ch <= 0x7C then (if ch == 0x7B then Single(BeginObject) else Single(ParseError))
    else if ch <= 0x7D then Single(EndObject) else if ch == 0xEF then Mark(L30) else Single(ParseError)
  }

  /** The labels that read a string. */
  function StringStep(b: bytes, q: StringLabel, c: Config): Outcome
    requires c.cursor <= |b| && (q == L32 || c.cursor < |b|)
  {
    if q == L32 then
      var ch := At(b, c.cursor);
      Goto(c.(pc := if IsPlain(ch) then Str(L31) else if ch <= 0x0F then Back else if ch <= 0x22 then Str(L34) else Str(L36)))
    else
      var n := c.cursor + 1;
      var ch := At(b, n);
      match q
      case L9 => Goto(Config(if ch <= 0x0F then Fail else Str(L32), n, n, 0))
      case L31 => Goto(c.(pc := Str(L32), cursor := n))
      case L34 => Return(ValueString, n)
      case L36 => Goto(c.(cursor := n, pc := EscapeLabel(ch)))
      case L43 => Goto(c.(cursor := n, pc := HexLabel(ch, L54)))
      case L54 => Goto(c.(cursor := n, pc := HexLabel(ch, L60)))
      case L60 => Goto(c.(cursor := n, pc := HexLabel(ch, L63)))
      case L63 => Goto(c.(cursor := n, pc := HexLabel(ch, L31)))
  }

  /** The decision tree on the byte behind a backslash. */
  function EscapeLabel(ch: byte): (l: Label)
    ensures l == if IsSimpleEscape(ch) then Str(L31) else if ch == 0x75 then Str(L43) else Back
  {
    if ch <= 0x65 then
      if ch <= 0x2F then (if ch == 0x22 then Str(L31) else if ch <= 0x2E then Back else Str(L31))
      else if ch <= 0x5C then (if ch <= 0x5B then Back else Str(L31))
      else if ch == 0x62 then Str(L31) else Back
    else if ch <= 0x71 then (if ch <= 0x66 then Str(L31) else if ch == 0x6E then Str(L31) else Back)
    else if ch <= 0x73 then (if ch <= 0x72 then Str(L31) else Back)
    else if ch <= 0x74 then Str(L31) else if ch <= 0x75 then Str(L43) else Back
  }

  function HexLabel(ch: byte, next: StringLabel): (l: Label)
    ensures l == if IsHex(ch) then Str(next) else Back
  {
    if ch <= 0x40 then (if ch <= 0x2F then Back else if ch <= 0x39 then Str(next) else Back)
    else if ch <= 0x46 then Str(next) else if ch <= 0x60 then Back else if ch <= 0x66 then Str(next) else Back
  }

  /** The labels that read a number. */
  function NumberStep(b: bytes, q: NumberLabel, c: Config): Outcome
    requires c.cursor < |b|
  {
    var n := c.cursor + 1;
    var ch := At(b, n);
    match q
    case L12 =>
      Goto(c.(cursor := n, pc := if ch <= 0x2F then Fail else if ch <= 0x30 then Num(L13) else if ch <= 0x39 then Num(L15) else Fail))
    case L13 => Goto(Config(PastInt(ch), n, n, 1))
    case L15 => Goto(Config(if IsDigit(ch) then Num(L15) else PastInt(ch), n, n, 1))
    case L37 => Goto(c.(cursor := n, pc := if ch <= 0x2F then Back else if ch <= 0x39 then Num(L44) else Back))
    case L38 =>
      Goto(c.(cursor := n, pc :=
          if ch <= 0x2C then (if ch == 0x2B then Num(L46) else Back)
          else if ch <= 0x2D then Num(L46) else if ch <= 0x2F then Back else if ch <= 0x39 then Num(L47) else Back))
    case L44 =>
      Goto(Config(if ch <= 0x44 then (if ch <= 0x2F then Accept else if ch <= 0x39 then Num(L44) else Accept)
                  else if ch <= 0x45 then Num(L38) else if ch == 0x65 then Num(L38) else Accept, n, n, 1))
    case L46 => Goto(c.(cursor := n, pc := if ch <= 0x2F then Back else if ch >= 0x3A then Back else Num(L47)))
    case L47 => Goto(c.(cursor := n, pc := if ch <= 0x2F then Accept else if ch <= 0x39 then Num(L47) else Accept))
  }

  /** The byte behind the integer part of a number. */
  function PastInt(ch: byte): (l: Label)
    ensures l == if ch == 0x2E then Num(L37) else if ch == 0x45 || ch == 0x65 then Num(L38) else Accept
  {
    if ch <= 0x44 then (if ch == 0x2E then Num(L37) else Accept)
    else if ch <= 0x45 then Num(L38) else if ch == 0x65 then Num(L38) else Accept
  }

  /** The labels that read `true`, `false` and `null`. */
  function LiteralStep(b: bytes, q: LiteralLabel, c: Config): Outcome
    requires c.cursor < |b|
  {
    var n := c.cursor + 1;
    var ch := At(b, n);
    match q
    case L23 => Goto(Config(if ch == 0x61 then Lit(L39) else Fail, n, n, 0))
    case L24 => Goto(Config(if ch == 0x75 then Lit(L40) else Fail, n, n, 0))
    case L25 => Goto(Config(if ch == 0x72 then Lit(L41) else Fail, n, n, 0))
    case L39 => Goto(c.(cursor := n, pc := if ch == 0x6C then Lit(L49) else Back))
    case L40 => Goto(c.(cursor := n, pc := if ch == 0x6C then Lit(L50) else Back))
    case L41 => Goto(c.(cursor := n, pc := if ch == 0x75 then Lit(L51) else Back))
    case L49 => Goto(c.(cursor := n, pc := if ch == 0x73 then Lit(L55) else Back))
    case L50 => Goto(c.(cursor := n, pc := if ch == 0x6C then Lit(L56) else Back))
    case L51 => Goto(c.(cursor := n, pc := if ch == 0x65 then Lit(L58) else Back))
    case L55 => Goto(c.(cursor := n, pc := if ch == 0x65 then Lit(L61) else Back))
    case L56 => Return(LiteralNull, n)
    case L58 => Return(LiteralTrue, n)
    case L61 => Return(LiteralFalse, n)
  }

  /** The labels that skip a byte order mark. */
  function MarkStep(b: bytes, q: MarkLabel, c: Config): Outcome
    requires c.cursor < |b|
  {
    var n := c.cursor + 1;
    var ch := At(b, n);
    match q
    case L30 => Goto(Config(if ch == 0xBB then Mark(L42) else Fail, n, n, 0))
    case L42 => Goto(c.(cursor := n, pc := if ch == 0xBF then Mark(L52) else Back))
    case L52 => Rescan(n)
  }

  // ----- What the token will be, seen from each label -----

  /** What becomes of the bytes from `start` on: a token, or blanks before position `p`. */
  datatype Fate = Read(token: Lexeme) | Skip(p: nat)

  ghost function Expected(b: bytes, start: nat, c: Config): Fate
    requires InBuffer(b, c)
  {
    match c.pc
    case Back => Read(Lexeme(if c.accept == 0 then ParseError else ValueNumber, start, c.marker))
    case Blank => Skip(c.cursor + 1 + BlankRun(b[c.cursor + 1..]))
    case Fail => Read(Lexeme(ParseError, start, c.cursor))
    case Accept => Read(Lexeme(ValueNumber, start, c.cursor))
    case Single(kind) => Read(Lexeme(kind, start, c.cursor + 1))
    case Str(q) =>
      var tail := ExpectedTail(b[c.cursor..], q);
      if tail.None? then Read(Lexeme(ParseError, start, if q == L9 then c.cursor + 1 else c.marker))
      else Read(Lexeme(ValueString, start, c.cursor + tail.value))
    case Num(q) =>
      var k := ExpectedNumber(b[c.cursor..], q);
      if k == 0 then Read(Lexeme(if q == L12 then ParseError else ValueNumber, start, if q == L12 then c.cursor + 1 else c.marker))
      else Read(Lexeme(ValueNumber, start, c.cursor + k))
    case Lit(q) =>
      var k := ExpectedWord(b[c.cursor..], q);
      if k == 0 then Read(Lexeme(ParseError, start, if q == L23 || q == L24 || q == L25 then c.cursor + 1 else c.marker))
      else Read(Lexeme(WordKind(q), start, c.cursor + k))
    case Mark(q) =>
      var word := ExpectedMark(q);
      if word <= b[c.cursor + 1..] then Skip(c.cursor + 1 + |word|)
      else Read(Lexeme(ParseError, start, if q == L30 then c.cursor + 1 else c.marker))
  }

  /** Number of blanks `s` starts with. */
  ghost function BlankRun(s: bytes): nat {
    if s != [] && IsBlank(s[0]) then 1 + BlankRun(s[1..]) else 0
  }

  /** Length of the rest of the string from the cursor on, if it is one. */
  ghost function ExpectedTail(s: bytes, q: StringLabel): Option<nat>
    requires q != L32 ==> s != []
    decreases |s|, if q == L32 then 1 else 0
  {
    if q == L32 then
      if s == [] then None
      else if IsPlain(s[0]) then ExpectedTail(s, L31)
      else if s[0] == QUOTE then Some(1)
      else if s[0] == BACKSLASH then ExpectedTail(s, L36)
      else None
    else if q == L34 then Some(1)
    else if q == L9 || q == L31 then Advance(1, ExpectedTail(s[1..], L32))
    else if |s| == 1 then None
    else if q == L36 then
      if IsSimpleEscape(s[1]) then Advance(1, ExpectedTail(s[1..], L31))
      else if s[1] == 0x75 then Advance(1, ExpectedTail(s[1..], L43)) else None
    else if IsHex(s[1]) then
      Advance(1, ExpectedTail(s[1..], if q == L43 then L54 else if q == L54 then L60 else if q == L60 then L63 else L31))
    else None
  }

  /** Length of the rest of the number from the cursor on; 0 when the token ends earlier. */
  ghost function ExpectedNumber(s: bytes, q: NumberLabel): nat
    requires s != []
  {
    var ch := if |s| > 1 then s[1] else 0;
    match q
    case L12 =>
      if ch == 0x30 then 1 + ExpectedNumber(s[1..], L13)
      else if IsDigit(ch) then 1 + ExpectedNumber(s[1..], L15) else 0
    case L13 => 1 + (if ch == 0x2E then ExpectedNumber(s[1..], L37) else if IsE(ch) then ExpectedNumber(s[1..], L38) else 0)
    case L15 =>
      1 + (if IsDigit(ch) then ExpectedNumber(s[1..], L15)
           else if ch == 0x2E then ExpectedNumber(s[1..], L37) else if IsE(ch) then ExpectedNumber(s[1..], L38) else 0)
    case L37 => if IsDigit(ch) then 1 + ExpectedNumber(s[1..], L44) else 0
    case L38 =>
      if ch == 0x2B || ch == 0x2D then
        var k := ExpectedNumber(s[1..], L46);
        if k > 0 then 1 + k else 0
      else if IsDigit(ch) then 1 + ExpectedNumber(s[1..], L47) else 0
    case L44 => 1 + (if IsDigit(ch) then ExpectedNumber(s[1..], L44) else if IsE(ch) then ExpectedNumber(s[1..], L38) else 0)
    case L46 => if IsDigit(ch) then 1 + ExpectedNumber(s[1..], L47) else 0
    case L47 => 1 + (if IsDigit(ch) then ExpectedNumber(s[1..], L47) else 0)
  }

  predicate IsE(c: byte) { c == 0x65 || c == 0x45 }

  /** Length of the rest of the literal from the cursor on, 0 when it is not spelled out. */
  ghost function ExpectedWord(s: bytes, q: LiteralLabel): nat
    requires s != []
  {
    if q == L56 || q == L58 || q == L61 then 1
    else
      var (ch, next) := WordStep(q);
      if |s| > 1 && s[1] == ch && ExpectedWord(s[1..], next) > 0 then 1 + ExpectedWord(s[1..], next) else 0
  }

  ghost function WordStep(q: LiteralLabel): (byte, LiteralLabel) {
    match q
    case L23 => (0x61, L39)
    case L39 => (0x6C, L49)
    case L49 => (0x73, L55)
    case L55 => (0x65, L61)
    case L24 => (0x75, L40)
    case L40 => (0x6C, L50)
    case L50 => (0x6C, L56)
    case L25 => (0x72, L41)
    case L41 => (0x75, L51)
    case L51 => (0x65, L58)
    case _ => (0, q)
  }

  ghost function WordKind(q: LiteralLabel): Kind {
    match q
    case L24 | L40 | L50 | L56 => LiteralNull
    case L25 | L41 | L51 | L58 => LiteralTrue
    case _ => LiteralFalse
  }

  ghost function ExpectedMark(q: MarkLabel): bytes {
    match q
    case L30 => [0xBB, 0xBF]
    case L42 => [0xBF]
    case L52 => []
  }

  /** What holds of the registers at each label. */
  ghost predicate Consistent(b: bytes, start: nat, c: Config) {
    && InBuffer(b, c) && start <= c.cursor
    && match c.pc
       case Back => c.accept <= 1 && start <= c.marker
       case Str(q) => q != L9 ==> c.accept == 0 && start <= c.marker
       case Num(q) =>
         && (q == L37 ==> b[c.cursor] == 0x2E)
         && (q == L38 ==> b[c.cursor] == 0x65 || b[c.cursor] == 0x45)
         && (q == L37 || q == L38 || q == L46 ==> c.accept == 1 && start <= c.marker)
         && (q == L37 || q == L38 ==> c.marker == c.cursor)
       case Lit(q) => q != L23 && q != L24 && q != L25 ==> c.accept == 0 && start <= c.marker
       case Mark(q) => q != L30 ==> c.accept == 0 && start <= c.marker
       case _ => true
  }

  /** The work left at a configuration: backtracking and accepting come last. */
  ghost function Rest(b: bytes, c: Config): nat
    requires c.cursor <= |b|
  {
    match c.pc
    case Fail => 0
    case Accept => 0
    case Back => 1
    case Str(q) => if q == L32 then 2 * (|b| - c.cursor) + 3 else 2 * (|b| - c.cursor) + 2
    case _ => 2 * (|b| - c.cursor) + 2
  }

  /** One step leads to the token that was expected. */
  ghost predicate StepKeeps(b: bytes, start: nat, c: Config)
    requires Consistent(b, start, c)
  {
    match Step(b, c)
    case Goto(d) => Consistent(b, start, d) && Expected(b, start, d) == Expected(b, start, c) && Rest(b, d) < Rest(b, c)
    case Return(kind, cursor) => Expected(b, start, c) == Read(Lexeme(kind, start, cursor))
    case Rescan(p) => start < p <= |b| && Expected(b, start, c) == Skip(p)
  }

  /** The bytes at the cursor and behind it. */
  lemma BytesAhead(b: bytes, i: nat)
    requires i < |b|
    ensures b[i..][0] == b[i] && b[i..][1..] == b[i + 1..] && (i + 1 < |b| ==> b[i..][1] == b[i + 1])
  {
  }

  lemma StringInner(b: bytes, start: nat, c: Config)
    requires Consistent(b, start, c) && c.pc == Str(L32)
    ensures StepKeeps(b, start, c)
  {
    var s := b[c.cursor..];
    if s != [] {
      assert s[0] == b[c.cursor];
    }
  }

  lemma StringOuter(b: bytes, start: nat, c: Config)
    requires Consistent(b, start, c) && (c.pc == Str(L9) || c.pc == Str(L31) || c.pc == Str(L34))
    ensures StepKeeps(b, start, c)
  {
    BytesAhead(b, c.cursor);
    assert At(b, c.cursor + 1) <= 0x0F ==> ExpectedTail(b[c.cursor..][1..], L32) == None;
  }

  lemma EscapeKeeps(b: bytes, start: nat, c: Config)
    requires Consistent(b, start, c) && c.pc == Str(L36)
    ensures StepKeeps(b, start, c)
  {
    BytesAhead(b, c.cursor);
  }

  lemma HexKeeps(b: bytes, start: nat, c: Config)
    requires Consistent(b, start, c) && (c.pc == Str(L43) || c.pc == Str(L54))
    ensures StepKeeps(b, start, c)
  {
    BytesAhead(b, c.cursor);
  }

  lemma HexEndKeeps(b: bytes, start: nat, c: Config)
    requires Consistent(b, start, c) && (c.pc == Str(L60) || c.pc == Str(L63))
    ensures StepKeeps(b, start, c)
  {
    BytesAhead(b, c.cursor);
  }

  lemma FalseKeeps(b: bytes, start: nat, c: Config)
    requires Consistent(b, start, c) && (c.pc == Lit(L39) || c.pc == Lit(L49) || c.pc == Lit(L55) || c.pc == Lit(L61))
    ensures StepKeeps(b, start, c)
  {
    BytesAhead(b, c.cursor);
  }

  /** The first letter of a literal. */
  lemma LetterKeeps(b: bytes, start: nat, c: Config)
    requires Consistent(b, start, c) && (c.pc == Lit(L23) || c.pc == Lit(L24) || c.pc == Lit(L25))
    ensures StepKeeps(b, start, c)
  {
    BytesAhead(b, c.cursor);
  }

  lemma NullKeeps(b: bytes, start: nat, c: Config)
    requires Consistent(b, start, c) && (c.pc == Lit(L40) || c.pc == Lit(L50) || c.pc == Lit(L56))
    ensures StepKeeps(b, start, c)
  {
    BytesAhead(b, c.cursor);
  }

  lemma TrueKeeps(b: bytes, start: nat, c: Config)
    requires Consistent(b, start, c) && (c.pc == Lit(L41) || c.pc == Lit(L51) || c.pc == Lit(L58))
    ensures StepKeeps(b, start, c)
  {
    BytesAhead(b, c.cursor);
  }

  lemma MarkKeeps(b: bytes, start: nat, c: Config)
    requires Consistent(b, start, c) && c.pc.Mark?
    ensures StepKeeps(b, start, c)
  {
    var t := b[c.cursor + 1..];
    var word := ExpectedMark(c.pc.m);
    if word != [] && t != [] {
      assert t[0] == b[c.cursor + 1] && t[1..] == b[c.cursor + 2..];
      PrefixCons(word, t);
    }
  }

  lemma PrefixCons(w: bytes, s: bytes)
    requires w != [] && s != []
    ensures w <= s <==> w[0] == s[0] && w[1..] <= s[1..]
  {
    assert w == [w[0]] + w[1..] && s == [s[0]] + s[1..];
  }

  lemma IntKeeps(b: bytes, start: nat, c: Config)
    requires Consistent(b, start, c) && c.pc.Num? && (c.pc.n == L12 || c.pc.n == L13 || c.pc.n == L15)
    ensures StepKeeps(b, start, c)
  {
    BytesAhead(b, c.cursor);
  }

  lemma FracKeeps(b: bytes, start: nat, c: Config)
    requires Consistent(b, start, c) && c.pc.Num? && (c.pc.n == L37 || c.pc.n == L44)
    ensures StepKeeps(b, start, c)
  {
    BytesAhead(b, c.cursor);
  }

  lemma ExpKeeps(b: bytes, start: nat, c: Config)
    requires Consistent(b, start, c) && c.pc.Num? && (c.pc.n == L38 || c.pc.n == L46 || c.pc.n == L47)
    ensures StepKeeps(b, start, c)
  {
    BytesAhead(b, c.cursor);
  }

  // ----- The labels read exactly the tokens of the rules -----

  /** The string labels read the string rules. */
  lemma {:induction false} StringLabels(s: bytes)
    ensures ExpectedTail(s, L32) == StringTail(s)
    ensures s != [] ==> ExpectedTail(s, L31) == Advance(1, StringTail(s[1..]))
    ensures s != [] ==> ExpectedTail(s, L36) == Advance(1, EscapeTail(s[1..]))
    decreases |s|, 2
  {
    if s == [] {
    } else {
      StringLabels(s[1..]);
      if |s| > 1 { HexLabels(s[1..]); }
    }
  }

  /** Each of them asks for one hexadecimal digit. */
  lemma {:induction false} HexLabels(s: bytes)
    requires s != []
    ensures ExpectedTail(s, L43) == Advance(1, HexTail(s[1..], 4))
    ensures ExpectedTail(s, L54) == Advance(1, HexTail(s[1..], 3))
    ensures ExpectedTail(s, L60) == Advance(1, HexTail(s[1..], 2))
    ensures ExpectedTail(s, L63) == Advance(1, HexTail(s[1..], 1))
    decreases |s|, 1
  {
    if |s| == 1 {
    } else {
      HexLabels(s[1..]);
      LastHexLabel(s);
    }
  }

  lemma {:induction false} LastHexLabel(s: bytes)
    requires |s| > 1
    ensures ExpectedTail(s, L63) == Advance(1, HexTail(s[1..], 1))
    decreases |s|, 0
  {
    StringLabels(s[1..]);
    assert HexTail(s[1..][1..], 0) == StringTail(s[1..][1..]);
  }

  /** The number labels read the number rules. */
  lemma {:induction false} DigitLabels(s: bytes)
    requires s != []
    ensures var t := s[1..]; var d := Digits(t);
      && ExpectedNumber(s, L47) == 1 + d
      && ExpectedNumber(s, L46) == (if d > 0 then 1 + d else 0)
    decreases |s|
  {
    if |s| <= 1 {
    } else {
      DigitLabels(s[1..]);
    }
  }

  lemma {:induction false} ExponentLabels(s: bytes)
    requires s != [] && IsE(s[0])
    ensures ExpectedNumber(s, L38) == ExpLength(s)
  {
    DigitLabels(s);
    if |s| <= 1 {
    } else {
      DigitLabels(s[1..]);
      assert s[2..] == s[1..][1..];
    }
  }

  lemma {:induction false} FractionLabels(s: bytes)
    requires s != []
    ensures var t := s[1..]; var d := Digits(t);
      && ExpectedNumber(s, L44) == 1 + d + ExpLength(t[d..])
      && ExpectedNumber(s, L37) == (if d > 0 then 1 + d + ExpLength(t[d..]) else 0)
    decreases |s|
  {
    if |s| <= 1 {
    } else {
      var t := s[1..];
      FractionLabels(t);
      if IsDigit(t[0]) {
        assert t[Digits(t)..] == t[1..][Digits(t[1..])..];
      } else {
        assert t[0..] == t;
        if IsE(t[0]) { ExponentLabels(t); }
      }
    }
  }

  lemma {:induction false} IntLabels(s: bytes)
    requires s != []
    ensures var t := s[1..]; var d := Digits(t);
      && ExpectedNumber(s, L13) == 1 + FracExpLength(t)
      && ExpectedNumber(s, L15) == 1 + d + FracExpLength(t[d..])
    decreases |s|
  {
    if |s| <= 1 {
    } else {
      var t := s[1..];
      IntLabels(t);
      assert t[0..] == t;
      if IsDigit(t[0]) {
        assert t[Digits(t)..] == t[1..][Digits(t[1..])..];
      } else if t[0] == 0x2E {
        FractionLabels(t);
        BehindPoint(t);
      } else if IsE(t[0]) {
        ExponentLabels(t);
      }
    }
  }

  lemma BehindPoint(t: bytes)
    requires t != [] && t[0] == 0x2E
    ensures var d := Digits(t[1..]);
      FracExpLength(t) == if d > 0 then 1 + d + ExpLength(t[1..][d..]) else 0
  {
    var d := Digits(t[1..]);
    assert t[1 + d..] == t[1..][d..];
    assert t[0..] == t;
  }

  lemma SignLabel(s: bytes)
    requires s != [] && s[0] == 0x2D
    ensures NumberLength(s) == ExpectedNumber(s, L12)
  {
    var t := s[1..];
    if t != [] {
      IntLabels(t);
      var k := IntLength(t);
      assert s[1 + k..] == t[k..];
      if k > 0 { assert t[k..] == t[1..][k - 1..]; }
    }
  }

  lemma UnsignedLabel(s: bytes)
    requires s != [] && s[0] != 0x2D
    ensures NumberLength(s) == if s[0] == 0x30 then ExpectedNumber(s, L13)
                               else if IsDigit(s[0]) then ExpectedNumber(s, L15) else 0
  {
    assert s[0..] == s;
    IntLabels(s);
    if s[0] != 0x30 && IsDigit(s[0]) {
      assert s[Digits(s)..] == s[1..][Digits(s[1..])..];
    }
  }

  /** From label `q`, whose byte is `w[0]`, the labels ask for the bytes of `w` in turn. */
  ghost predicate Spells(q: LiteralLabel, w: bytes)
    decreases |w|
  {
    if q == L56 || q == L58 || q == L61 then |w| == 1
    else |w| > 1 && w[1] == WordStep(q).0 && Spells(WordStep(q).1, w[1..])
  }

  lemma {:induction false} Spelled(s: bytes, q: LiteralLabel, w: bytes)
    requires s != [] && w != [] && s[0] == w[0] && Spells(q, w)
    ensures ExpectedWord(s, q) == if w <= s then |w| else 0
    decreases |w|
  {
    PrefixCons(w, s);
    if |w| <= 1 || |s| <= 1 {
    } else {
      PrefixCons(w[1..], s[1..]);
      if s[1] == w[1] {
        Spelled(s[1..], WordStep(q).1, w[1..]);
      }
    }
  }

  lemma FalseSpells()
    ensures Spells(L23, FALSE)
  {
    var w := FALSE;
    assert Spells(L61, w[1..][1..][1..][1..]);
    assert Spells(L55, w[1..][1..][1..]);
    assert Spells(L49, w[1..][1..]);
    assert Spells(L39, w[1..]);
  }

  lemma NullSpells()
    ensures Spells(L24, NULL)
  {
    var w := NULL;
    assert Spells(L56, w[1..][1..][1..]);
    assert Spells(L50, w[1..][1..]);
    assert Spells(L40, w[1..]);
  }

  lemma TrueSpells()
    ensures Spells(L25, TRUE)
  {
    var w := TRUE;
    assert Spells(L58, w[1..][1..][1..]);
    assert Spells(L51, w[1..][1..]);
    assert Spells(L41, w[1..]);
  }

  /** The literal labels spell the literals. */
  lemma LiteralLabels(s: bytes)
    requires s != []
    ensures s[0] == 0x74 ==> ExpectedWord(s, L25) == if TRUE <= s then 4 else 0
    ensures s[0] == 0x66 ==> ExpectedWord(s, L23) == if FALSE <= s then 5 else 0
    ensures s[0] == 0x6E ==> ExpectedWord(s, L24) == if NULL <= s then 4 else 0
  {
    if s[0] == 0x74 {
      TrueSpells();
      Spelled(s, L25, TRUE);
    } else if s[0] == 0x66 {
      FalseSpells();
      Spelled(s, L23, FALSE);
    } else if s[0] == 0x6E {
      NullSpells();
      Spelled(s, L24, NULL);
    }
  }

  /** The token that starts with `s` and its length, by the label its first byte leads to. */
  ghost function ByLabel(s: bytes, l: Label): (Kind, nat)
    requires s != []
  {
    match l
    case Single(kind) => (kind, 1)
    case Str(_) => if ExpectedTail(s, L9).Some? then (ValueString, ExpectedTail(s, L9).value) else (ParseError, 1)
    case Num(q) => if ExpectedNumber(s, q) > 0 then (ValueNumber, ExpectedNumber(s, q)) else (ParseError, 1)
    case Lit(q) => if ExpectedWord(s, q) > 0 then (WordKind(q), ExpectedWord(s, q)) else (ParseError, 1)
    case _ => (ParseError, 1)
  }

  /** The token, by the label its first byte leads to. */
  ghost predicate LabelReads(s: bytes) {
    s != [] && Token(s) == ByLabel(s, FirstLabel(s[0]))
  }

  lemma FirstNumber(s: bytes)
    requires s != [] && (s[0] == 0x2D || IsDigit(s[0]))
    ensures LabelReads(s)
  {
    if s[0] == 0x2D { SignLabel(s); } else { UnsignedLabel(s); }
  }

  lemma FirstLetter(s: bytes)
    requires s != [] && (s[0] == 0x74 || s[0] == 0x66 || s[0] == 0x6E)
    ensures LabelReads(s)
  {
    LiteralLabels(s);
    UnsignedLabel(s);
  }

  lemma FirstQuote(s: bytes)
    requires s != [] && s[0] == QUOTE
    ensures LabelReads(s)
  {
    StringLabels(s[1..]);
  }

  lemma FirstOther(s: bytes)
    requires s != [] && s[0] != 0 && s[0] != QUOTE && s[0] != 0x2D && !IsDigit(s[0])
    requires s[0] != 0x74 && s[0] != 0x66 && s[0] != 0x6E && !IsBlank(s[0]) && s[0] != 0xEF
    ensures LabelReads(s)
  {
    UnsignedLabel(s);
  }

  lemma FirstByte(s: bytes)
    requires s != [] && s[0] != 0 && !IsBlank(s[0]) && s[0] != 0xEF
    ensures LabelReads(s)
  {
    if s[0] == 0x2D || IsDigit(s[0]) {
      FirstNumber(s);
    } else if s[0] == 0x74 || s[0] == 0x66 || s[0] == 0x6E {
      FirstLetter(s);
    } else if s[0] == QUOTE {
      FirstQuote(s);
    } else {
      FirstOther(s);
    }
  }

  lemma FirstMark(s: bytes)
    requires s != [] && s[0] == 0xEF
    ensures Token(s) == (ParseError, 1)
  {
    UnsignedLabel(s);
  }

  lemma BlankKeeps(b: bytes, start: nat, c: Config)
    requires Consistent(b, start, c) && c.pc.Blank?
    ensures StepKeeps(b, start, c)
  {
    var t := b[c.cursor + 1..];
    if t != [] {
      assert t[0] == b[c.cursor + 1] && t[1..] == b[c.cursor + 2..];
    }
  }

  lemma Keeps(b: bytes, start: nat, c: Config)
    requires Consistent(b, start, c)
    ensures StepKeeps(b, start, c)
  {
    match c.pc
    case Blank => BlankKeeps(b, start, c);
    case Str(q) =>
      match q {
        case L32 => StringInner(b, start, c);
        case L9 | L31 | L34 => StringOuter(b, start, c);
        case L36 => EscapeKeeps(b, start, c);
        case L43 | L54 => HexKeeps(b, start, c);
        case L60 | L63 => HexEndKeeps(b, start, c);
      }
    case Num(q) =>
      match q {
        case L12 | L13 | L15 => IntKeeps(b, start, c);
        case L37 | L44 => FracKeeps(b, start, c);
        case L38 | L46 | L47 => ExpKeeps(b, start, c);
      }
    case Lit(q) =>
      match q {
        case L23 | L24 | L25 => LetterKeeps(b, start, c);
        case L39 | L49 | L55 | L61 => FalseKeeps(b, start, c);
        case L40 | L50 | L56 => NullKeeps(b, start, c);
        case L41 | L51 | L58 => TrueKeeps(b, start, c);
      }
    case Mark(_) => MarkKeeps(b, start, c);
    case _ =>
  }

  lemma SameToken(b: bytes, i: nat, j: nat)
    requires i <= |b| && j <= |b| && i + SkipBlanks(b[i..]) == j + SkipBlanks(b[j..])
    ensures LexAt(b, i) == LexAt(b, j)
  {
    hide *;
    LexIsToken(b, i);
    LexIsToken(b, j);
  }

  /** Blanks in front are skipped. */
  lemma {:induction false} SkipRun(b: bytes, i: nat)
    requires i <= |b|
    ensures var j := i + BlankRun(b[i..]); j <= |b| && i + SkipBlanks(b[i..]) == j + SkipBlanks(b[j..])
    decreases |b| - i
  {
    var s := b[i..];
    if s != [] && IsBlank(s[0]) {
      assert s[1..] == b[i + 1..];
      SkipRun(b, i + 1);
    }
  }

  lemma SkipMark(b: bytes, i: nat)
    requires i < |b| && BOM <= b[i..]
    ensures i + 3 <= |b| && SkipBlanks(b[i..]) == 3 + SkipBlanks(b[i + 3..])
    ensures [0xBB, 0xBF] <= b[i + 1..] && b[i] == 0xEF
  {
    var s := b[i..];
    assert s[0] == BOM[0] && s[3..] == b[i + 3..];
    MarkBehind(b, i);
  }

  /** Blanks and a byte order mark in front do not change the token. */
  lemma RunSkipped(b: bytes, i: nat)
    requires i <= |b|
    ensures i + BlankRun(b[i..]) <= |b| && LexAt(b, i) == LexAt(b, i + BlankRun(b[i..]))
  {
    SkipRun(b, i);
    SameToken(b, i, i + BlankRun(b[i..]));
  }

  lemma MarkSkipped(b: bytes, i: nat)
    requires i < |b| && BOM <= b[i..]
    ensures i + 3 <= |b| && LexAt(b, i) == LexAt(b, i + 3)
  {
    SkipMark(b, i);
    SameToken(b, i, i + 3);
  }

  lemma MarkBehind(b: bytes, i: nat)
    requires i < |b| && BOM <= b[i..]
    ensures i + 3 <= |b| && [0xBB, 0xBF] <= b[i + 1..] && b[i] == 0xEF
  {
    assert b[i..][0] == BOM[0] && b[i..][1] == BOM[1] && b[i..][2] == BOM[2];
    assert b[i + 1..] == [b[i + 1], b[i + 2]] + b[i + 3..];
  }

  /** What the entry of the scanner leads to. */
  ghost function Entry(b: bytes, start: nat): Config
    requires start <= |b|
  {
    Config(FirstLabel(At(b, start)), start, 0, 0)
  }

  lemma EntersSpace(b: bytes, start: nat)
    requires start < |b| && IsBlank(b[start])
    ensures Consistent(b, start, Entry(b, start))
    ensures Expected(b, start, Entry(b, start)) == Skip(start + BlankRun(b[start..])) && BlankRun(b[start..]) > 0
  {
    var s := b[start..];
    assert s[1..] == b[start + 1..];
  }

  lemma EntersBom(b: bytes, start: nat)
    requires start < |b| && BOM <= b[start..]
    ensures Consistent(b, start, Entry(b, start))
    ensures Expected(b, start, Entry(b, start)) == Skip(start + 3)
  {
    MarkBehind(b, start);
  }

  lemma EntersBlank(b: bytes, start: nat)
    requires start < |b| && (IsBlank(b[start]) || BOM <= b[start..])
    ensures Consistent(b, start, Entry(b, start))
    ensures Expected(b, start, Entry(b, start)).Skip?
    ensures var p := Expected(b, start, Entry(b, start)).p; start < p <= |b| && LexAt(b, start) == LexAt(b, p)
  {
    if IsBlank(b[start]) {
      EntersSpace(b, start);
      RunSkipped(b, start);
    } else {
      EntersBom(b, start);
      MarkSkipped(b, start);
    }
  }

  /** A label that a token starts with expects the token it reads. */
  lemma EntersLabel(b: bytes, start: nat)
    requires start < |b| && b[start] != 0 && !IsBlank(b[start]) && b[start] != 0xEF
    ensures Consistent(b, start, Entry(b, start))
    ensures var (kind, n) := ByLabel(b[start..], FirstLabel(b[start])); Expected(b, start, Entry(b, start)) == Read(Lexeme(kind, start, start + n))
  {
  }

  lemma EntersMark(b: bytes, start: nat)
    requires start < |b| && b[start] == 0xEF && !(BOM <= b[start..])
    ensures Consistent(b, start, Entry(b, start))
    ensures Expected(b, start, Entry(b, start)) == Read(Lexeme(ParseError, start, start + 1))
  {
    PrefixCons(BOM, b[start..]);
    assert b[start..][1..] == b[start + 1..];
  }

  lemma EntersToken(b: bytes, start: nat)
    requires start <= |b| && (start < |b| ==> !IsBlank(b[start]) && !(BOM <= b[start..]))
    ensures Consistent(b, start, Entry(b, start))
    ensures var (kind, n) := Token(b[start..]); Expected(b, start, Entry(b, start)) == Read(Lexeme(kind, start, start + n))
  {
    if start == |b| || b[start] == 0 {
      EntersEnd(b, start);
    } else if b[start] == 0xEF {
      EntersMark(b, start);
      FirstMark(b[start..]);
    } else {
      EntersLabel(b, start);
      FirstByte(b[start..]);
    }
  }

  lemma EntersEnd(b: bytes, start: nat)
    requires start <= |b| && At(b, start) == 0
    ensures Consistent(b, start, Entry(b, start)) && Token(b[start..]) == (EndOfInput, 1)
    ensures Expected(b, start, Entry(b, start)) == Read(Lexeme(EndOfInput, start, start + 1))
  {
  }

  /** The entry of the scanner leads to the token the rules name, or over the blanks. */
  lemma Enters(b: bytes, start: nat)
    requires start <= |b|
    ensures Consistent(b, start, Entry(b, start))
    ensures match Expected(b, start, Entry(b, start))
            case Read(token) => LexAt(b, start) == token
            case Skip(p) => start < p <= |b| && LexAt(b, start) == LexAt(b, p)
  {
    if start < |b| && (IsBlank(b[start]) || BOM <= b[start..]) {
      EntersBlank(b, start);
    } else {
      EntersToken(b, start);
      assert SkipBlanks(b[start..]) == 0;
    }
  }
}
