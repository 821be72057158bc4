/**
 The layout of what `dump` prints (include/json.h:6126-6334), read back by an automaton
 that knows nothing of values: compact text has no blanks outside strings, and in pretty
 text every element, member and closing bracket stands on a line of its own, indented by the step
 for every bracket that is open there.
 */
module Layout {
  import opened Bytes
  import opened Values
  import opened Ordering
  import opened Escape
  import opened Lexemes
  import opened Numbers
  import opened Printing

  /** Where the reader stands; `LineStart` counts the spaces, and says whether a closing bracket must follow. */
  datatype Mode = Ready | Open | Plain | Comma | Colon | InString | Escape | LineStart(spaces: nat, closing: bool)

  datatype Reader = Reader(depth: int, mode: Mode, ok: bool)

  predicate IsOpening(c: byte) { c == 0x5B || c == 0x7B }

  predicate IsClosing(c: byte) { c == 0x5D || c == 0x7D }

  /** The indentation of a line inside `depth` brackets, in the arithmetic of `unsigned int`. */
  function Indentation(step: nat, depth: int): int {
    (step * depth) % TWO_32
  }

  /** A value or a name may start here. */
  predicate MayStart(r: Reader, pretty: bool, step: nat) {
    || r.mode == Ready
    || (pretty && r.mode.LineStart? && !r.mode.closing && r.mode.spaces == Indentation(step, r.depth))
    || (!pretty && (r.mode == Open || r.mode == Comma || r.mode == Colon))
  }

  /** A closing bracket may stand here. */
  predicate MayClose(r: Reader, pretty: bool, step: nat) {
    || r.mode == Open
    || (pretty && r.mode.LineStart? && r.mode.closing && r.mode.spaces == Indentation(step, r.depth - 1))
    || (!pretty && r.mode == Plain)
  }

  /** One byte more. */
  function Feed(r: Reader, c: byte, pretty: bool, step: nat): Reader {
    if r.mode == InString then
      r.(mode := if c == QUOTE then Plain else if c == BACKSLASH then Escape else InString, ok := r.ok && c != 0x0A)
    else if r.mode == Escape then r.(mode := InString)
    else if c == 0x0A then
      Reader(r.depth, LineStart(0, r.mode == Plain), r.ok && pretty && (r.mode == Open || r.mode == Comma || r.mode == Plain))
    else if c == 0x20 then
      if r.mode.LineStart? then r.(mode := LineStart(r.mode.spaces + 1, r.mode.closing))
      else r.(mode := Ready, ok := r.ok && pretty && r.mode == Colon)
    else if IsClosing(c) then Reader(r.depth - 1, Plain, r.ok && MayClose(r, pretty, step))
    else if c == 0x2C then r.(mode := Comma, ok := r.ok && r.mode == Plain)
    else if c == 0x3A then r.(mode := Colon, ok := r.ok && r.mode == Plain)
    else if c == QUOTE then r.(mode := InString, ok := r.ok && MayStart(r, pretty, step))
    else if IsOpening(c) then Reader(r.depth + 1, Open, r.ok && MayStart(r, pretty, step))
    else r.(mode := Plain, ok := r.ok && (r.mode == Plain || MayStart(r, pretty, step)))
  }

  function FeedAll(r: Reader, s: bytes, pretty: bool, step: nat): Reader
    decreases s
  {
    if s == [] then r else FeedAll(Feed(r, s[0], pretty, step), s[1..], pretty, step)
  }

  /** The text reads from one state to another; unfolded only where `Look` is mentioned. */
  ghost predicate Leads(r: Reader, s: bytes, t: Reader, pretty: bool, step: nat) {
    forall once: bool {:trigger Look(once)} :: Look(once) ==> FeedAll(r, s, pretty, step) == t
  }

  lemma {:induction false} FeedConcat(r: Reader, a: bytes, b: bytes, pretty: bool, step: nat)
    ensures FeedAll(r, a + b, pretty, step) == FeedAll(FeedAll(r, a, pretty, step), b, pretty, step)
    decreases a
  {
    if a == [] {
      assert a + b == b;
    } else {
      assert (a + b)[1..] == a[1..] + b;
      FeedConcat(Feed(r, a[0], pretty, step), a[1..], b, pretty, step);
    }
  }

  lemma Then(r: Reader, a: bytes, q: Reader, b: bytes, t: Reader, pretty: bool, step: nat)
    requires Leads(r, a, q, pretty, step) && Leads(q, b, t, pretty, step)
    ensures Leads(r, a + b, t, pretty, step)
  {
    assert Look(true);
    FeedConcat(r, a, b, pretty, step);
  }

  lemma OneByte(r: Reader, c: byte, pretty: bool, step: nat)
    ensures Leads(r, [c], Feed(r, c, pretty, step), pretty, step)
  {
    assert [c][1..] == [];
  }

  lemma Nothing(r: Reader, pretty: bool, step: nat)
    ensures Leads(r, [], r, pretty, step)
  {
  }

  // ----- The pieces -----

  lemma {:induction false} SpacesLead(r: Reader, n: nat, pretty: bool, step: nat)
    requires n > 0 ==> r.mode.LineStart?
    ensures Leads(r, Spaces(n), if n > 0 then r.(mode := LineStart(r.mode.spaces + n, r.mode.closing)) else r, pretty, step)
    decreases n
  {
    if n == 0 {
      Nothing(r, pretty, step);
    } else {
      var q := Feed(r, 0x20, pretty, step);
      SpacesLead(q, n - 1, pretty, step);
      OneByte(r, 0x20, pretty, step);
      assert Spaces(n) == [0x20] + Spaces(n - 1);
      Then(r, [0x20], q, Spaces(n - 1), r.(mode := LineStart(r.mode.spaces + n, r.mode.closing)), pretty, step);
    }
  }

  /** A byte of a number or literal. */
  predicate IsScalarByte(c: byte) {
    c != QUOTE && c != 0x0A && c != 0x20 && c != 0x2C && c != 0x3A && !IsOpening(c) && !IsClosing(c)
  }

  lemma {:induction false} ScalarLeads(r: Reader, s: bytes, pretty: bool, step: nat)
    requires s != [] && (forall i :: 0 <= i < |s| ==> IsScalarByte(s[i])) && r.ok
    requires r.mode == Plain || MayStart(r, pretty, step)
    ensures Leads(r, s, r.(mode := Plain), pretty, step)
    decreases s
  {
    var q := r.(mode := Plain);
    OneByte(r, s[0], pretty, step);
    assert s == [s[0]] + s[1..];
    if |s| > 1 {
      ScalarLeads(q, s[1..], pretty, step);
      Then(r, [s[0]], q, s[1..], q, pretty, step);
    } else {
      assert s == [s[0]];
    }
  }

  lemma DigitsScalar(i: int)
    ensures DecimalSigned(i) != [] && forall k :: 0 <= k < |DecimalSigned(i)| ==> IsScalarByte(DecimalSigned(i)[k])
  {
    var n := if i < 0 then -i else i;
    DecimalValue(n);
    var ds := Decimal(n);
    assert forall k :: 0 <= k < |ds| ==> IsDigit(ds[k]);
  }

  /** Inside a string an escaped byte stays inside. */
  lemma EscapedByteLeads(r: Reader, c: byte, pretty: bool, step: nat)
    requires r.mode == InString
    ensures Leads(r, EscapeByte(c), r, pretty, step)
  {
    var e := EscapeByte(c);
    OneByte(r, e[0], pretty, step);
    if |e| == 1 {
      assert e == [e[0]];
    } else {
      var q := Feed(r, e[0], pretty, step);
      OneByte(q, e[1], pretty, step);
      Then(r, [e[0]], q, [e[1]], r, pretty, step);
      if |e| == 2 {
        assert e == [e[0]] + [e[1]];
      } else {
        QuietLeads(r, e[2..], pretty, step);
        Then(r, [e[0]] + [e[1]], r, e[2..], r, pretty, step);
        assert e == [e[0]] + [e[1]] + e[2..];
      }
    }
  }

  lemma {:induction false} QuietLeads(r: Reader, s: bytes, pretty: bool, step: nat)
    requires r.mode == InString && forall i :: 0 <= i < |s| ==> s[i] != QUOTE && s[i] != BACKSLASH && s[i] != 0x0A
    ensures Leads(r, s, r, pretty, step)
    decreases s
  {
    if s == [] {
      Nothing(r, pretty, step);
    } else {
      OneByte(r, s[0], pretty, step);
      QuietLeads(r, s[1..], pretty, step);
      Then(r, [s[0]], r, s[1..], r, pretty, step);
      assert s == [s[0]] + s[1..];
    }
  }

  lemma {:induction false} EscapedLeads(r: Reader, s: bytes, pretty: bool, step: nat)
    requires r.mode == InString
    ensures Leads(r, Escaped(s), r, pretty, step)
    decreases s
  {
    if s == [] {
      Nothing(r, pretty, step);
    } else {
      EscapedByteLeads(r, s[0], pretty, step);
      EscapedLeads(r, s[1..], pretty, step);
      Then(r, EscapeByte(s[0]), r, Escaped(s[1..]), r, pretty, step);
    }
  }

  lemma StringLeads(r: Reader, s: bytes, pretty: bool, step: nat)
    requires r.ok && MayStart(r, pretty, step)
    ensures Leads(r, [0x22] + Escaped(s) + [0x22], r.(mode := Plain), pretty, step)
  {
    var q := r.(mode := InString);
    OneByte(r, 0x22, pretty, step);
    EscapedLeads(q, s, pretty, step);
    OneByte(q, 0x22, pretty, step);
    Then(r, [0x22], q, Escaped(s), q, pretty, step);
    Then(r, [0x22] + Escaped(s), q, [0x22], r.(mode := Plain), pretty, step);
  }

  lemma NewlineLeads(r: Reader, pretty: bool, step: nat)
    requires r.ok && (r.mode == Open || r.mode == Comma || r.mode == Plain)
    ensures Leads(r, Newline(pretty), if pretty then r.(mode := LineStart(0, r.mode == Plain)) else r, pretty, step)
  {
    if pretty {
      OneByte(r, 0x0A, pretty, step);
    } else {
      Nothing(r, pretty, step);
    }
  }

  // ----- The values -----

  /** The indentation `dump` has at this depth. */
  predicate IndentedAt(current: nat, depth: int, pretty: bool, step: nat) {
    depth >= 0 && current == if pretty then Indentation(step, depth) else 0
  }

  lemma {:induction false} PrintLeads(r: Reader, j: Json, pretty: bool, step: nat, current: nat)
    requires NoFloat(j) && r.ok && MayStart(r, pretty, step) && IndentedAt(current, r.depth, pretty, step)
    ensures Leads(r, Print(j, pretty, step, current), r.(mode := Plain), pretty, step)
    decreases j, 1
  {
    match j
    case Array(elems) =>
      if elems == [] { EmptyLeads(r, 0x5B, 0x5D, pretty, step); } else { ArrayLeads(r, elems, pretty, step, current); }
    case Object(members) =>
      if members == [] { EmptyLeads(r, 0x7B, 0x7D, pretty, step); } else { ObjectLeads(r, members, pretty, step, current); }
    case String(s) => StringLeads(r, s, pretty, step);
    case Integer(i) => DigitsScalar(i); ScalarLeads(r, DecimalSigned(i), pretty, step);
    case Unsigned(u) => DigitsScalar(u); ScalarLeads(r, DecimalSigned(u), pretty, step);
    case Null => ScalarLeads(r, NULL, pretty, step);
    case Boolean(b) => ScalarLeads(r, if b then TRUE else FALSE, pretty, step);
  }

  lemma EmptyLeads(r: Reader, open: byte, close: byte, pretty: bool, step: nat)
    requires IsOpening(open) && IsClosing(close) && r.ok && MayStart(r, pretty, step)
    ensures Leads(r, [open, close], r.(mode := Plain), pretty, step)
  {
    var q := Feed(r, open, pretty, step);
    OneByte(r, open, pretty, step);
    OneByte(q, close, pretty, step);
    Then(r, [open], q, [close], r.(mode := Plain), pretty, step);
    assert [open] + [close] == [open, close];
  }

  /** Behind the opening bracket, or behind a comma: the start of the next line. */
  function Inside(depth: int, mode: Mode, pretty: bool): Reader {
    Reader(depth, if pretty then LineStart(0, false) else mode, true)
  }

  lemma OpenLeads(r: Reader, open: byte, pretty: bool, step: nat)
    requires IsOpening(open) && r.ok && MayStart(r, pretty, step)
    ensures Leads(r, [open] + Newline(pretty), Inside(r.depth + 1, Open, pretty), pretty, step)
  {
    var q := Feed(r, open, pretty, step);
    OneByte(r, open, pretty, step);
    NewlineLeads(q, pretty, step);
    Then(r, [open], q, Newline(pretty), Inside(r.depth + 1, Open, pretty), pretty, step);
  }

  lemma CloseLeads(depth: int, close: byte, pretty: bool, step: nat, current: nat)
    requires IsClosing(close) && IndentedAt(current, depth, pretty, step)
    ensures Leads(Reader(depth + 1, Plain, true), Newline(pretty) + Spaces(current) + [close], Reader(depth, Plain, true), pretty, step)
  {
    var r := Reader(depth + 1, Plain, true);
    var q := if pretty then r.(mode := LineStart(0, true)) else r;
    var p := if pretty then r.(mode := LineStart(current, true)) else r;
    NewlineLeads(r, pretty, step);
    SpacesLead(q, current, pretty, step);
    Then(r, Newline(pretty), q, Spaces(current), p, pretty, step);
    OneByte(p, close, pretty, step);
    Then(r, Newline(pretty) + Spaces(current), p, [close], Reader(depth, Plain, true), pretty, step);
  }

  lemma AddModulo(n: nat, k: nat)
    ensures (n % TWO_32 + k) % TWO_32 == (n + k) % TWO_32
  {
  }

  lemma OneDeeper(step: nat, depth: nat)
    ensures Indentation(step, depth + 1) == (Indentation(step, depth) + step) % TWO_32
  {
    assert step * (depth + 1) == step * depth + step;
    AddModulo(step * depth, step);
  }

  lemma InnerIndented(current: nat, depth: int, pretty: bool, step: nat)
    requires IndentedAt(current, depth, pretty, step)
    ensures IndentedAt(Inner(pretty, step, current), depth + 1, pretty, step)
  {
    hide Indentation;
    OneDeeper(step, depth);
  }

  /** Brackets around contents that start behind the opening one and end in front of the closing one. */
  lemma BracketsLead(r: Reader, open: byte, body: bytes, close: byte, pretty: bool, step: nat, current: nat)
    requires IsOpening(open) && IsClosing(close) && r.ok && MayStart(r, pretty, step)
    requires IndentedAt(current, r.depth, pretty, step)
    requires Leads(Inside(r.depth + 1, Open, pretty), body, Reader(r.depth + 1, Plain, true), pretty, step)
    ensures Leads(r, [open] + Newline(pretty) + body + Newline(pretty) + Spaces(current) + [close], r.(mode := Plain), pretty, step)
  {
    OpenLeads(r, open, pretty, step);
    Then(r, [open] + Newline(pretty), Inside(r.depth + 1, Open, pretty), body, Reader(r.depth + 1, Plain, true), pretty, step);
    CloseLeads(r.depth, close, pretty, step, current);
    Then(r, [open] + Newline(pretty) + body, Reader(r.depth + 1, Plain, true),
         Newline(pretty) + Spaces(current) + [close], r.(mode := Plain), pretty, step);
    Assoc([open] + Newline(pretty) + body, Newline(pretty), Spaces(current), [close]);
  }

  lemma Assoc(a: bytes, b: bytes, c: bytes, d: bytes)
    ensures a + (b + c + d) == a + b + c + d
  {
  }

  lemma {:induction false} ArrayLeads(r: Reader, elems: seq<Json>, pretty: bool, step: nat, current: nat)
    requires elems != [] && forall k :: 0 <= k < |elems| ==> NoFloat(elems[k])
    requires r.ok && MayStart(r, pretty, step) && IndentedAt(current, r.depth, pretty, step)
    ensures Leads(r, Print(Array(elems), pretty, step, current), r.(mode := Plain), pretty, step)
    decreases elems, 3
  {
    InnerIndented(current, r.depth, pretty, step);
    ElemsLead(r.depth + 1, Open, elems, pretty, step, Inner(pretty, step, current));
    BracketsLead(r, 0x5B, PrintElems(elems, pretty, step, Inner(pretty, step, current)), 0x5D, pretty, step, current);
  }

  lemma {:induction false} ObjectLeads(r: Reader, members: seq<Member>, pretty: bool, step: nat, current: nat)
    requires members != [] && forall k :: 0 <= k < |members| ==> NoFloat(members[k].value)
    requires r.ok && MayStart(r, pretty, step) && IndentedAt(current, r.depth, pretty, step)
    ensures Leads(r, Print(Object(members), pretty, step, current), r.(mode := Plain), pretty, step)
    decreases members, 3
  {
    InnerIndented(current, r.depth, pretty, step);
    MembersLead(r.depth + 1, Open, members, pretty, step, Inner(pretty, step, current));
    BracketsLead(r, 0x7B, PrintMembers(members, pretty, step, Inner(pretty, step, current)), 0x7D, pretty, step, current);
  }

  /** The state in front of an indented item. */
  lemma IndentLeads(depth: int, mode: Mode, pretty: bool, step: nat, indent: nat)
    requires IndentedAt(indent, depth, pretty, step) && (mode == Open || mode == Comma)
    ensures var q := Reader(depth, if pretty then LineStart(indent, false) else mode, true);
      Leads(Inside(depth, mode, pretty), Spaces(indent), q, pretty, step) && MayStart(q, pretty, step)
  {
    SpacesLead(Inside(depth, mode, pretty), indent, pretty, step);
  }

  lemma CommaLeads(depth: int, pretty: bool, step: nat)
    ensures Leads(Reader(depth, Plain, true), [0x2C] + Newline(pretty), Inside(depth, Comma, pretty), pretty, step)
  {
    var r := Reader(depth, Plain, true);
    OneByte(r, 0x2C, pretty, step);
    NewlineLeads(r.(mode := Comma), pretty, step);
    Then(r, [0x2C], r.(mode := Comma), Newline(pretty), Inside(depth, Comma, pretty), pretty, step);
  }

  /** An item, a comma and more items. */
  lemma ItemsLead(depth: int, mode: Mode, item: bytes, more: bytes, pretty: bool, step: nat)
    requires Leads(Inside(depth, mode, pretty), item, Reader(depth, Plain, true), pretty, step)
    requires Leads(Inside(depth, Comma, pretty), more, Reader(depth, Plain, true), pretty, step)
    ensures Leads(Inside(depth, mode, pretty), item + [0x2C] + Newline(pretty) + more, Reader(depth, Plain, true), pretty, step)
  {
    var r, p := Inside(depth, mode, pretty), Reader(depth, Plain, true);
    CommaLeads(depth, pretty, step);
    Then(r, item, p, [0x2C] + Newline(pretty), Inside(depth, Comma, pretty), pretty, step);
    Then(r, item + ([0x2C] + Newline(pretty)), Inside(depth, Comma, pretty), more, p, pretty, step);
    assert item + ([0x2C] + Newline(pretty)) + more == item + [0x2C] + Newline(pretty) + more;
  }

  lemma {:induction false} ElemsLead(depth: int, mode: Mode, elems: seq<Json>, pretty: bool, step: nat, indent: nat)
    requires elems != [] && forall k :: 0 <= k < |elems| ==> NoFloat(elems[k])
    requires IndentedAt(indent, depth, pretty, step) && (mode == Open || mode == Comma)
    ensures Leads(Inside(depth, mode, pretty), PrintElems(elems, pretty, step, indent), Reader(depth, Plain, true), pretty, step)
    decreases elems, 2
  {
    var q := Reader(depth, if pretty then LineStart(indent, false) else mode, true);
    IndentLeads(depth, mode, pretty, step, indent);
    PrintLeads(q, elems[0], pretty, step, indent);
    Then(Inside(depth, mode, pretty), Spaces(indent), q, Print(elems[0], pretty, step, indent), Reader(depth, Plain, true), pretty, step);
    if |elems| <= 1 {
    } else {
      ElemsLead(depth, Comma, elems[1..], pretty, step, indent);
      ItemsLead(depth, mode, PrintElem(elems[0], pretty, step, indent), PrintElems(elems[1..], pretty, step, indent), pretty, step);
    }
  }

  /** A name, the colon and its space. */
  lemma NameLeads(q: Reader, k: bytes, pretty: bool, step: nat)
    requires q.ok && MayStart(q, pretty, step)
    ensures Leads(q, [0x22] + Escaped(k) + [0x22, 0x3A] + (if pretty then [0x20] else []),
                  q.(mode := if pretty then Ready else Colon), pretty, step)
  {
    var p, c := q.(mode := Plain), q.(mode := Colon);
    StringLeads(q, k, pretty, step);
    OneByte(p, 0x3A, pretty, step);
    Then(q, [0x22] + Escaped(k) + [0x22], p, [0x3A], c, pretty, step);
    assert [0x22] + Escaped(k) + [0x22] + [0x3A] == [0x22] + Escaped(k) + [0x22, 0x3A];
    if pretty {
      OneByte(c, 0x20, pretty, step);
      Then(q, [0x22] + Escaped(k) + [0x22, 0x3A], c, [0x20], c.(mode := Ready), pretty, step);
    } else {
      assert [0x22] + Escaped(k) + [0x22, 0x3A] + [] == [0x22] + Escaped(k) + [0x22, 0x3A];
    }
  }

  lemma {:induction false} MemberLeads(depth: int, mode: Mode, m: Member, pretty: bool, step: nat, indent: nat)
    requires NoFloat(m.value) && IndentedAt(indent, depth, pretty, step) && (mode == Open || mode == Comma)
    ensures Leads(Inside(depth, mode, pretty), PrintMember(m, pretty, step, indent), Reader(depth, Plain, true), pretty, step)
    decreases m, 2
  {
    var r := Inside(depth, mode, pretty);
    var q := Reader(depth, if pretty then LineStart(indent, false) else mode, true);
    var v := q.(mode := if pretty then Ready else Colon);
    var blank: bytes := if pretty then [0x20] else [];
    var name: bytes := [0x22] + Escaped(m.key) + [0x22, 0x3A] + blank;
    IndentLeads(depth, mode, pretty, step, indent);
    NameLeads(q, m.key, pretty, step);
    Then(r, Spaces(indent), q, name, v, pretty, step);
    PrintLeads(v, m.value, pretty, step, indent);
    Then(r, Spaces(indent) + name, v, Print(m.value, pretty, step, indent), Reader(depth, Plain, true), pretty, step);
    NameAssoc(Spaces(indent), Escaped(m.key), blank);
  }

  lemma NameAssoc(a: bytes, k: bytes, blank: bytes)
    ensures a + ([0x22] + k + [0x22, 0x3A] + blank) == a + [0x22] + k + [0x22, 0x3A] + blank
  {
  }

  lemma {:induction false} MembersLead(depth: int, mode: Mode, members: seq<Member>, pretty: bool, step: nat, indent: nat)
    requires members != [] && forall k :: 0 <= k < |members| ==> NoFloat(members[k].value)
    requires IndentedAt(indent, depth, pretty, step) && (mode == Open || mode == Comma)
    ensures Leads(Inside(depth, mode, pretty), PrintMembers(members, pretty, step, indent), Reader(depth, Plain, true), pretty, step)
    decreases members, 2
  {
    MemberLeads(depth, mode, members[0], pretty, step, indent);
    if |members| <= 1 {
    } else {
      MembersLead(depth, Comma, members[1..], pretty, step, indent);
      ItemsLead(depth, mode, PrintMember(members[0], pretty, step, indent), PrintMembers(members[1..], pretty, step, indent), pretty, step);
    }
  }

  /** The reader accepts every printed text and ends outside all brackets. */
  lemma LaidOut(j: Json, indent: int)
    requires NoFloat(j) && indent < TWO_32
    ensures FeedAll(Reader(0, Ready, true), PrintText(j, indent), indent >= 0, if indent >= 0 then indent else 0) == Reader(0, Plain, true)
  {
    var r := Reader(0, Ready, true);
    if indent >= 0 {
      PrintLeads(r, j, true, indent, 0);
    } else {
      PrintLeads(r, j, false, 0, 0);
    }
    assert Look(true);
  }
}
