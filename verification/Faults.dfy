/**
 Strings that cannot be decoded (include/json.h:8336-8437), seen by the parser: what `get_string`
 throws leaves `parse` unchanged, from the first such string.
 */
module Faults {
  import opened Bytes
  import opened Values
  import opened Lexemes
  import opened Grammar
  import opened Parsing

  predicate IsFault(t: Tok) { t.Str? && t.value.Throw? }

  /** The token, with a string that can be decoded. */
  function Mend(t: Tok): Tok {
    if IsFault(t) then Str(Ok([])) else t
  }

  function Mended(ts: seq<Tok>): (r: seq<Tok>)
    ensures |r| == |ts| && forall i :: 0 <= i < |ts| ==> r[i] == Mend(ts[i])
  {
    seq(|ts|, i requires 0 <= i < |ts| => Mend(ts[i]))
  }

  /** What the first string that cannot be decoded throws. */
  function FirstFault(ts: seq<Tok>): Option<Error> {
    if ts == [] then None else if IsFault(ts[0]) then Some(ts[0].value.error) else FirstFault(ts[1..])
  }

  lemma {:induction false} FaultsConcat(a: seq<Tok>, b: seq<Tok>)
    ensures FirstFault(a + b) == if FirstFault(a).Some? then FirstFault(a) else FirstFault(b)
  {
    if a == [] {
      assert a + b == b;
    } else {
      assert (a + b)[1..] == a[1..] + b;
      FaultsConcat(a[1..], b);
    }
  }

  lemma FaultsSplit(ts: seq<Tok>, m: nat, n: nat)
    requires m <= n <= |ts|
    ensures FirstFault(ts[..n]) == if FirstFault(ts[..m]).Some? then FirstFault(ts[..m]) else FirstFault(ts[m..][..n - m])
  {
    assert ts[..n] == ts[..m] + ts[m..][..n - m];
    FaultsConcat(ts[..m], ts[m..][..n - m]);
  }

  /** How the parse `r` of `ts` follows from a successful parse of the mended tokens. */
  ghost predicate Settled(ts: seq<Tok>, mended: Parsed, r: Parsed) {
    mended.Ok? ==>
      var n := |ts| - |mended.value.1|;
      && 0 <= n <= |ts| && mended.value.1 == Mended(ts[n..])
      && (FirstFault(ts[..n]).None? ==> r.Ok? && r.value.1 == ts[n..])
      && (FirstFault(ts[..n]).Some? ==> r == Throw(FirstFault(ts[..n]).value))
  }

  lemma MendedTail(ts: seq<Tok>, n: nat)
    requires n <= |ts|
    ensures Mended(ts)[n..] == Mended(ts[n..])
  {
  }

  lemma FirstFew(ts: seq<Tok>, n: nat)
    requires n <= |ts| && n <= 2
    ensures n == 1 ==> FirstFault(ts[..1]) == if IsFault(ts[0]) then Some(ts[0].value.error) else None
    ensures n == 2 ==> FirstFault(ts[..2]) == if IsFault(ts[0]) then Some(ts[0].value.error)
                                              else if IsFault(ts[1]) then Some(ts[1].value.error) else None
  {
    if n == 1 {
      assert ts[..1][0] == ts[0] && ts[..1][1..] == [];
    } else if n == 2 {
      FirstFew(ts[1..], 1);
      assert ts[..2][0] == ts[0] && ts[..2][1..] == ts[1..][..1];
    }
  }

  /** A first part of `m` tokens without fault, and the rest. */
  lemma Behind(ts: seq<Tok>, m: nat, mended: Parsed, r: Parsed)
    requires m <= |ts| && Settled(ts[m..], mended, r) && FirstFault(ts[..m]).None?
    ensures Settled(ts, mended, r)
  {
    if mended.Ok? {
      var n := |ts| - |mended.value.1|;
      FaultsSplit(ts, m, n);
      assert ts[m..][n - m..] == ts[n..];
    }
  }

  /** A first part with a fault: the exception is out, whatever follows. */
  lemma Broken(ts: seq<Tok>, m: nat, e: Error, mended: Parsed, unused: Parsed)
    requires m <= |ts| && Settled(ts[m..], mended, unused) && FirstFault(ts[..m]) == Some(e)
    ensures Settled(ts, mended, Throw(e))
  {
    if mended.Ok? {
      var n := |ts| - |mended.value.1|;
      FaultsSplit(ts, m, n);
      assert ts[m..][n - m..] == ts[n..];
    }
  }

  lemma {:induction false} ValueSettled(ts: seq<Tok>)
    ensures Settled(ts, ParseValue(Mended(ts)), ParseValue(ts))
    decreases |ts|, 0
  {
    if ts != [] {
      MendedTail(ts, 1);
      FirstFew(ts, 1);
      if ts[0] == LBracket {
        EmptySettled(ts);
        ElemsSettled(ts[1..], [], []);
        Behind(ts, 1, ParseElems(Mended(ts[1..]), []), ParseElems(ts[1..], []));
      } else if ts[0] == LBrace {
        EmptySettled(ts);
        MembersSettled(ts[1..], [], []);
        Behind(ts, 1, ParseMembers(Mended(ts[1..]), []), ParseMembers(ts[1..], []));
      }
    }
  }

  /** Two tokens, an opening and a closing bracket. */
  lemma EmptySettled(ts: seq<Tok>)
    requires ts != []
    ensures |ts| > 1 && !IsFault(ts[0]) && !IsFault(ts[1]) ==> Mended(ts)[2..] == Mended(ts[2..]) && FirstFault(ts[..2]).None?
  {
    if |ts| > 1 {
      MendedTail(ts, 2);
      FirstFew(ts, 2);
    }
  }

  lemma {:induction false} ElemsSettled(ts: seq<Tok>, a: seq<Json>, b: seq<Json>)
    ensures Settled(ts, ParseElems(Mended(ts), a), ParseElems(ts, b))
    decreases |ts|, 1
  {
    ValueSettled(ts);
    var v := ParseValue(Mended(ts));
    if v.Ok? {
      var m := |ts| - |v.value.1|;
      var r := ParseValue(ts);
      var done := if r.Ok? then b + [r.value.0] else b;
      BehindElemSettled(ts[m..], a + [v.value.0], done);
      var mended, next := BehindElem(Mended(ts[m..]), a + [v.value.0]), BehindElem(ts[m..], done);
      if FirstFault(ts[..m]).None? {
        Behind(ts, m, mended, next);
      } else {
        Broken(ts, m, FirstFault(ts[..m]).value, mended, next);
      }
    }
  }

  lemma {:induction false} BehindElemSettled(ts: seq<Tok>, a: seq<Json>, b: seq<Json>)
    ensures Settled(ts, BehindElem(Mended(ts), a), BehindElem(ts, b))
    decreases |ts|, 0
  {
    if ts != [] {
      MendedTail(ts, 1);
      FirstFew(ts, 1);
      if ts[0] == Tok.Comma {
        ElemsSettled(ts[1..], a, b);
        Behind(ts, 1, ParseElems(Mended(ts[1..]), a), ParseElems(ts[1..], b));
      }
    }
  }

  lemma {:induction false} MembersSettled(ts: seq<Tok>, a: seq<Member>, b: seq<Member>)
    ensures Settled(ts, ParseMembers(Mended(ts), a), ParseMembers(ts, b))
    decreases |ts|, 1
  {
    if ParseName(Mended(ts)).Ok? {
      MendedTail(ts, 2);
      FirstFew(ts, 2);
      var rest := ts[2..];
      var v, r := ParseValue(Mended(rest)), ParseValue(rest);
      ValueSettled(rest);
      if v.Ok? {
        var m := |rest| - |v.value.1|;
        var c := Put(a, ParseName(Mended(ts)).value, v.value.0);
        var d := if r.Ok? && ParseName(ts).Ok? then Put(b, ParseName(ts).value, r.value.0) else b;
        BehindMemberSettled(rest[m..], c, d);
        var mended, next := BehindMember(Mended(rest[m..]), c), BehindMember(rest[m..], d);
        var whole := if FirstFault(rest[..m]).None? then next else Throw(FirstFault(rest[..m]).value);
        if FirstFault(rest[..m]).None? {
          Behind(rest, m, mended, next);
        } else {
          Broken(rest, m, FirstFault(rest[..m]).value, mended, next);
        }
        if IsFault(ts[0]) {
          Broken(ts, 2, ts[0].value.error, mended, whole);
        } else {
          Behind(ts, 2, mended, whole);
        }
      }
    }
  }

  lemma {:induction false} BehindMemberSettled(ts: seq<Tok>, a: seq<Member>, b: seq<Member>)
    ensures Settled(ts, BehindMember(Mended(ts), a), BehindMember(ts, b))
    decreases |ts|, 0
  {
    if ts != [] {
      MendedTail(ts, 1);
      FirstFew(ts, 1);
      if ts[0] == Tok.Comma {
        MembersSettled(ts[1..], a, b);
        Behind(ts, 1, ParseMembers(Mended(ts[1..]), a), ParseMembers(ts[1..], b));
      }
    }
  }

  /** A text that is JSON but for its strings: parsing it throws what the first bad string throws. */
  lemma FirstFaultThrown(text: bytes)
    requires Grammar.Parse(Mended(Tokens(text))).Ok?
    ensures match FirstFault(Tokens(text)) {
      case Some(e) => Grammar.Parse(Tokens(text)) == Throw(e)
      case None => Grammar.Parse(Tokens(text)).Ok?
    }
  {
    var ts := Tokens(text);
    ValueSettled(ts);
    EndIsLast(text);
    hide ParseValue, Tokens;
    var n := |ts| - |ParseValue(Mended(ts)).value.1|;
    assert Mended(ts[n..])[0] == Mend(ts[n]);
    assert ts[n..] == [End];
    FaultsSplit(ts, n, |ts|);
    assert ts[..|ts|] == ts && ts[n..][..|ts| - n] == [End];
    FirstFew([End], 1);
    assert [End][..1] == [End];
  }
}
