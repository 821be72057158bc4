/**
 The recursive `dump` (include/json.h:2161-2175, 6126-6334) for values without floats,
 compact and pretty.
 */
module Printing {
  import opened Bytes
  import opened Values
  import opened Ordering
  import opened Escape
  import opened Numbers

  const TWO_32: int := 0x1_0000_0000

  function Spaces(n: nat): bytes {
    seq(n, _ => 0x20)
  }

  /** `new_indent` in the recursive calls, an `unsigned int`. */
  function Inner(pretty: bool, step: nat, current: nat): nat {
    if pretty then (current + step) % TWO_32 else current
  }

  function Newline(pretty: bool): bytes {
    if pretty then [0x0A] else []
  }

  /** The serialization of a value. */
  function Print(j: Json, pretty: bool, step: nat, current: nat): bytes
    requires NoFloat(j)
    decreases j, 0
  {
    match j
    case Object(members) =>
      if members == [] then [0x7B, 0x7D]
      else [0x7B] + Newline(pretty) + PrintMembers(members, pretty, step, Inner(pretty, step, current))
           + Newline(pretty) + Spaces(current) + [0x7D]
    case Array(elems) =>
      if elems == [] then [0x5B, 0x5D]
      else [0x5B] + Newline(pretty) + PrintElems(elems, pretty, step, Inner(pretty, step, current))
           + Newline(pretty) + Spaces(current) + [0x5D]
    case String(s) => [0x22] + Escaped(s) + [0x22]
    case Boolean(b) => if b then [0x74, 0x72, 0x75, 0x65] else [0x66, 0x61, 0x6C, 0x73, 0x65]
    case Integer(i) => DecimalSigned(i)
    case Unsigned(u) => DecimalSigned(u)
    case Null => [0x6E, 0x75, 0x6C, 0x6C]
  }

  function PrintElem(j: Json, pretty: bool, step: nat, indent: nat): bytes
    requires NoFloat(j)
    decreases j, 1
  {
    Spaces(indent) + Print(j, pretty, step, indent)
  }

  /** The elements at indentation `indent`, separated by commas. */
  function PrintElems(elems: seq<Json>, pretty: bool, step: nat, indent: nat): bytes
    requires elems != [] && forall k :: 0 <= k < |elems| ==> NoFloat(elems[k])
    decreases elems, 2
  {
    if |elems| == 1 then PrintElem(elems[0], pretty, step, indent)
    else PrintElem(elems[0], pretty, step, indent) + [0x2C] + Newline(pretty) + PrintElems(elems[1..], pretty, step, indent)
  }

  function PrintMember(m: Member, pretty: bool, step: nat, indent: nat): bytes
    requires NoFloat(m.value)
    decreases m, 1
  {
    Spaces(indent) + [0x22] + Escaped(m.key) + [0x22, 0x3A] + (if pretty then [0x20] else []) + Print(m.value, pretty, step, indent)
  }

  /** The members at indentation `indent`, separated by commas. */
  function PrintMembers(members: seq<Member>, pretty: bool, step: nat, indent: nat): bytes
    requires members != [] && forall k :: 0 <= k < |members| ==> NoFloat(members[k].value)
    decreases members, 2
  {
    if |members| == 1 then PrintMember(members[0], pretty, step, indent)
    else PrintMember(members[0], pretty, step, indent) + [0x2C] + Newline(pretty)
         + PrintMembers(members[1..], pretty, step, indent)
  }

  /** `dump(indent)`: pretty for a non-negative indent, else compact. */
  function PrintText(j: Json, indent: int): bytes
    requires NoFloat(j)
  {
    if indent >= 0 then Print(j, true, indent, 0) else Print(j, false, 0, 0)
  }

  lemma {:induction false} PrintElemsSnoc(elems: seq<Json>, i: nat, pretty: bool, step: nat, indent: nat)
    requires 0 < i < |elems| && forall k :: 0 <= k < |elems| ==> NoFloat(elems[k])
    ensures PrintElems(elems[..i + 1], pretty, step, indent)
         == PrintElems(elems[..i], pretty, step, indent) + ([0x2C] + Newline(pretty)) + PrintElem(elems[i], pretty, step, indent)
  {
    var a, b := elems[..i + 1], elems[..i];
    var head, last := PrintElem(elems[0], pretty, step, indent), PrintElem(elems[i], pretty, step, indent);
    if i > 1 {
      assert a[1..] == elems[1..][..i] && b[1..] == elems[1..][..i - 1];
      PrintElemsSnoc(elems[1..], i - 1, pretty, step, indent);
      SnocCons(head + [0x2C] + Newline(pretty), PrintElems(b[1..], pretty, step, indent), [0x2C] + Newline(pretty), last);
    } else {
      assert a[1..] == [elems[1]];
      SnocTwo(head, Newline(pretty), last);
    }
  }

  lemma SnocCons(p: bytes, x: bytes, y: bytes, z: bytes)
    ensures p + (x + y + z) == p + x + y + z
  {
  }

  lemma SnocTwo(head: bytes, nl: bytes, last: bytes)
    ensures head + [0x2C] + nl + last == head + ([0x2C] + nl) + last
  {
  }

  lemma {:induction false} PrintMembersSnoc(members: seq<Member>, i: nat, pretty: bool, step: nat, indent: nat)
    requires 0 < i < |members| && forall k :: 0 <= k < |members| ==> NoFloat(members[k].value)
    ensures PrintMembers(members[..i + 1], pretty, step, indent)
         == PrintMembers(members[..i], pretty, step, indent) + ([0x2C] + Newline(pretty)) + PrintMember(members[i], pretty, step, indent)
  {
    var a, b := members[..i + 1], members[..i];
    var head, last := PrintMember(members[0], pretty, step, indent), PrintMember(members[i], pretty, step, indent);
    if i > 1 {
      assert a[1..] == members[1..][..i] && b[1..] == members[1..][..i - 1];
      PrintMembersSnoc(members[1..], i - 1, pretty, step, indent);
      SnocCons(head + [0x2C] + Newline(pretty), PrintMembers(b[1..], pretty, step, indent), [0x2C] + Newline(pretty), last);
    } else {
      assert a[1..] == [members[1]];
      SnocTwo(head, Newline(pretty), last);
    }
  }

  /** The output stream `dump` writes to. */
  class OStream {
    var text: bytes

    constructor ()
      ensures text == []
    {
      text := [];
    }

    method Write(s: bytes)
      modifies this
      ensures text == old(text) + s
    {
      text := text + s;
    }
  }

  /** Appends exactly the serialization to the stream. */
  method Dump(j: Json, o: OStream, pretty: bool, step: nat, current: nat)
    requires NoFloat(j) && step < TWO_32 && current < TWO_32
    modifies o
    ensures o.text == old(o.text) + Print(j, pretty, step, current)
    decreases j, 0
  {
    match j {
      case Object(members) =>
        if members == [] {
          o.Write([0x7B, 0x7D]);
          return;
        }
        DumpMembers(members, o, pretty, step, current);
      case Array(elems) =>
        if elems == [] {
          o.Write([0x5B, 0x5D]);
          return;
        }
        DumpElems(elems, o, pretty, step, current);
      case String(s) =>
        var escaped := EscapeString(s);
        o.Write([0x22] + escaped + [0x22]);
      case Boolean(b) => o.Write(if b then [0x74, 0x72, 0x75, 0x65] else [0x66, 0x61, 0x6C, 0x73, 0x65]);
      case Integer(i) => o.Write(DecimalSigned(i));
      case Unsigned(u) => o.Write(DecimalSigned(u));
      case Null => o.Write([0x6E, 0x75, 0x6C, 0x6C]);
    }
  }

  /** What is written in front of item `i`. */
  function Separator(i: nat, pretty: bool): bytes {
    if i > 0 then [0x2C] + Newline(pretty) else []
  }

  /** The first `i` elements as printed. */
  ghost function FirstElems(elems: seq<Json>, i: nat, pretty: bool, step: nat, indent: nat): bytes
    requires i <= |elems| && forall k :: 0 <= k < |elems| ==> NoFloat(elems[k])
  {
    if i == 0 then [] else PrintElems(elems[..i], pretty, step, indent)
  }

  lemma NextElem(elems: seq<Json>, i: nat, pretty: bool, step: nat, indent: nat)
    requires i < |elems| && forall k :: 0 <= k < |elems| ==> NoFloat(elems[k])
    ensures FirstElems(elems, i + 1, pretty, step, indent)
         == FirstElems(elems, i, pretty, step, indent) + Separator(i, pretty) + PrintElem(elems[i], pretty, step, indent)
  {
    if i > 0 {
      PrintElemsSnoc(elems, i, pretty, step, indent);
    } else {
      assert elems[..1] == [elems[0]];
    }
  }

  /** The first `i` members as printed. */
  ghost function FirstMembers(members: seq<Member>, i: nat, pretty: bool, step: nat, indent: nat): bytes
    requires i <= |members| && forall k :: 0 <= k < |members| ==> NoFloat(members[k].value)
  {
    if i == 0 then [] else PrintMembers(members[..i], pretty, step, indent)
  }

  lemma NextMember(members: seq<Member>, i: nat, pretty: bool, step: nat, indent: nat)
    requires i < |members| && forall k :: 0 <= k < |members| ==> NoFloat(members[k].value)
    ensures FirstMembers(members, i + 1, pretty, step, indent)
         == FirstMembers(members, i, pretty, step, indent) + Separator(i, pretty) + PrintMember(members[i], pretty, step, indent)
  {
    if i > 0 {
      PrintMembersSnoc(members, i, pretty, step, indent);
    } else {
      assert members[..1] == [members[0]];
    }
  }

  lemma AllElems(elems: seq<Json>, pretty: bool, step: nat, indent: nat)
    requires elems != [] && forall k :: 0 <= k < |elems| ==> NoFloat(elems[k])
    ensures FirstElems(elems, |elems|, pretty, step, indent) == PrintElems(elems, pretty, step, indent)
  {
    assert elems[..|elems|] == elems;
  }

  lemma AllMembers(members: seq<Member>, pretty: bool, step: nat, indent: nat)
    requires members != [] && forall k :: 0 <= k < |members| ==> NoFloat(members[k].value)
    ensures FirstMembers(members, |members|, pretty, step, indent) == PrintMembers(members, pretty, step, indent)
  {
    assert members[..|members|] == members;
  }

  lemma Glue(a: bytes, b: bytes, c: bytes, item: bytes, next: bytes)
    requires next == b + c + item
    ensures a + b + c + item == a + next
    ensures a + [] == a
  {
  }

  lemma GlueTwo(a: bytes, d: bytes, e: bytes)
    ensures a + d + e == a + (d + e)
  {
  }

  /** The array case; `new_indent` is decreased again in unsigned arithmetic. */
  method DumpElems(elems: seq<Json>, o: OStream, pretty: bool, step: nat, current: nat)
    requires elems != [] && (forall k :: 0 <= k < |elems| ==> NoFloat(elems[k])) && step < TWO_32 && current < TWO_32
    modifies o
    ensures o.text == old(o.text) + Print(Array(elems), pretty, step, current)
    decreases elems, 2
  {
    var new_indent := current;
    if pretty {
      new_indent := (new_indent + step) % TWO_32;
    }
    o.Write([0x5B] + Newline(pretty));
    DumpElemList(elems, o, pretty, step, new_indent);
    if pretty {
      new_indent := (new_indent - step) % TWO_32;
    }
    o.Write(Newline(pretty) + Spaces(new_indent) + [0x5D]);
    Wrapped(old(o.text), [0x5B] + Newline(pretty), PrintElems(elems, pretty, step, Inner(pretty, step, current)),
            Newline(pretty), Spaces(current), [0x5D]);
  }

  lemma Wrapped(a: bytes, b: bytes, c: bytes, d: bytes, e: bytes, f: bytes)
    ensures a + b + c + (d + e + f) == a + (b + c + d + e + f)
  {
  }

  /** One element, indented. */
  method DumpElem(j: Json, o: OStream, pretty: bool, step: nat, indent: nat)
    requires NoFloat(j) && step < TWO_32 && indent < TWO_32
    modifies o
    ensures o.text == old(o.text) + PrintElem(j, pretty, step, indent)
    decreases j, 1
  {
    o.Write(Spaces(indent));
    Dump(j, o, pretty, step, indent);
    GlueTwo(old(o.text), Spaces(indent), Print(j, pretty, step, indent));
  }

  method DumpElemList(elems: seq<Json>, o: OStream, pretty: bool, step: nat, indent: nat)
    requires elems != [] && (forall k :: 0 <= k < |elems| ==> NoFloat(elems[k])) && step < TWO_32 && indent < TWO_32
    modifies o
    ensures o.text == old(o.text) + PrintElems(elems, pretty, step, indent)
    decreases elems, 1
  {
    for i := 0 to |elems|
      invariant o.text == old(o.text) + FirstElems(elems, i, pretty, step, indent)
    {
      NextElem(elems, i, pretty, step, indent);
      o.Write(Separator(i, pretty));
      DumpElem(elems[i], o, pretty, step, indent);
      Glue(old(o.text), FirstElems(elems, i, pretty, step, indent), Separator(i, pretty),
           PrintElem(elems[i], pretty, step, indent), FirstElems(elems, i + 1, pretty, step, indent));
    }
    AllElems(elems, pretty, step, indent);
  }

  /** The object case. */
  method DumpMembers(members: seq<Member>, o: OStream, pretty: bool, step: nat, current: nat)
    requires members != [] && (forall k :: 0 <= k < |members| ==> NoFloat(members[k].value)) && step < TWO_32 && current < TWO_32
    modifies o
    ensures o.text == old(o.text) + Print(Object(members), pretty, step, current)
    decreases members, 2
  {
    var new_indent := current;
    if pretty {
      new_indent := (new_indent + step) % TWO_32;
    }
    o.Write([0x7B] + Newline(pretty));
    DumpMemberList(members, o, pretty, step, new_indent);
    if pretty {
      new_indent := (new_indent - step) % TWO_32;
    }
    o.Write(Newline(pretty) + Spaces(new_indent) + [0x7D]);
    Wrapped(old(o.text), [0x7B] + Newline(pretty), PrintMembers(members, pretty, step, Inner(pretty, step, current)),
            Newline(pretty), Spaces(current), [0x7D]);
  }

  /** One member, indented: the escaped key, a colon and the value. */
  method DumpMember(m: Member, o: OStream, pretty: bool, step: nat, indent: nat)
    requires NoFloat(m.value) && step < TWO_32 && indent < TWO_32
    modifies o
    ensures o.text == old(o.text) + PrintMember(m, pretty, step, indent)
    decreases m, 1
  {
    var key := EscapeString(m.key);
    var name: bytes := Spaces(indent) + [0x22] + key + [0x22, 0x3A] + if pretty then [0x20] else [];
    o.Write(name);
    Dump(m.value, o, pretty, step, indent);
    GlueTwo(old(o.text), name, Print(m.value, pretty, step, indent));
  }

  method DumpMemberList(members: seq<Member>, o: OStream, pretty: bool, step: nat, indent: nat)
    requires members != [] && (forall k :: 0 <= k < |members| ==> NoFloat(members[k].value)) && step < TWO_32 && indent < TWO_32
    modifies o
    ensures o.text == old(o.text) + PrintMembers(members, pretty, step, indent)
    decreases members, 1
  {
    for i := 0 to |members|
      invariant o.text == old(o.text) + FirstMembers(members, i, pretty, step, indent)
    {
      NextMember(members, i, pretty, step, indent);
      o.Write(Separator(i, pretty));
      DumpMember(members[i], o, pretty, step, indent);
      Glue(old(o.text), FirstMembers(members, i, pretty, step, indent), Separator(i, pretty),
           PrintMember(members[i], pretty, step, indent), FirstMembers(members, i + 1, pretty, step, indent));
    }
    AllMembers(members, pretty, step, indent);
  }

  /** The public `dump`. */
  method DumpText(j: Json, indent: int) returns (text: bytes)
    requires NoFloat(j) && indent < TWO_32
    ensures text == PrintText(j, indent)
  {
    var o := new OStream();
    if indent >= 0 {
      Dump(j, o, true, indent, 0);
    } else {
      Dump(j, o, false, 0, 0);
    }
    text := o.text;
  }
}
