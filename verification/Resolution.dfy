/**
 Which pointers resolve, and what is thrown for the others: `get_checked`
 (include/json.h:9089-9131, 9185-9227), `get_and_create` (include/json.h:8976-9030) and
 `std::stoi` on reference tokens, against relations on entries and elements.
 */
module Resolution {
  import opened Bytes
  import opened Values
  import opened Lexemes
  import opened NumberGrammar
  import opened Numbers
  import opened Access

  // ----- The number at the start of a token -----

  predicate Space(c: byte) { c == 0x20 || c == 0x09 || c == 0x0A || c == 0x0B || c == 0x0C || c == 0x0D }

  /** `t` is spaces up to `a`, an optional sign up to `b`, all the digits up to `c`, and anything behind them. */
  ghost predicate IndexParts(t: bytes, a: nat, b: nat, c: nat) {
    && a <= b < c <= |t|
    && (forall i :: 0 <= i < a ==> Space(t[i]))
    && (b == a || (b == a + 1 && (t[a] == 0x2B || t[a] == 0x2D)))
    && AllDigits(t[b..c])
    && (c == |t| || !(0x30 <= t[c] <= 0x39))
  }

  ghost function Signed(t: bytes, a: nat, b: nat, c: nat): int
    requires IndexParts(t, a, b, c)
  {
    if b == a + 1 && t[a] == 0x2D then 0 - Value(t[b..c]) else Value(t[b..c])
  }

  /** The token starts with a number that is an `int`. */
  ghost predicate Numbered(t: bytes, i: int) {
    -2147483648 <= i <= 2147483647 && exists a: nat, b: nat, c: nat :: IndexParts(t, a, b, c) && Signed(t, a, b, c) == i
  }

  lemma {:induction false} SpacesSkipped(t: bytes) returns (a: nat)
    ensures a <= |t| && SkipSpaces(t) == t[a..] && (forall i :: 0 <= i < a ==> Space(t[i])) && (a < |t| ==> !Space(t[a]))
  {
    if t == [] || !IsSpace(t[0]) {
      a := 0;
      assert t[0..] == t;
    } else {
      a := SpacesSkipped(t[1..]);
      assert t[1..][a..] == t[a + 1..];
      assert forall i :: 1 <= i < a + 1 ==> t[i] == t[1..][i - 1];
      assert a < |t[1..]| ==> t[1..][a] == t[a + 1];
      a := a + 1;
    }
  }

  /** The parts of a token lie where the spaces, the sign and the digits end. */
  lemma PartsAt(t: bytes, a: nat, k: nat, n: nat)
    requires a <= |t| && (forall i :: 0 <= i < a ==> Space(t[i])) && (a < |t| ==> !Space(t[a]))
    requires k == if a < |t| && (t[a] == 0x2B || t[a] == 0x2D) then 1 else 0
    requires n == Digits(t[a + k..])
    ensures n > 0 ==> IndexParts(t, a, a + k, a + k + n)
    ensures forall a': nat, b: nat, c: nat :: IndexParts(t, a', b, c) ==> a' == a && b == a + k && c == a + k + n
  {
    var u := t[a + k..];
    DigitRun(u);
    DigitsEnd(u);
    assert n <= |u| && t[a + k..a + k + n] == u[..n];
    assert a + k + n < |t| ==> u[n] == t[a + k + n];
    forall a': nat, b: nat, c: nat | IndexParts(t, a', b, c) ensures a' == a && b == a + k && c == a + k + n {
      PartsUnique(t, a, k, n, a', b, c);
    }
  }

  lemma {:induction false} DigitsEnd(s: bytes)
    ensures Digits(s) < |s| ==> !IsDigit(s[Digits(s)])
    ensures forall i :: 0 <= i < Digits(s) ==> IsDigit(s[i])
  {
    if s == [] || !IsDigit(s[0]) {
    } else {
      DigitsEnd(s[1..]);
      assert forall i :: 1 <= i < |s| ==> s[i] == s[1..][i - 1];
    }
  }

  lemma PartsUnique(t: bytes, a: nat, k: nat, n: nat, a': nat, b: nat, c: nat)
    requires a <= |t| && (forall i :: 0 <= i < a ==> Space(t[i])) && (a < |t| ==> !Space(t[a]))
    requires k == if a < |t| && (t[a] == 0x2B || t[a] == 0x2D) then 1 else 0
    requires n == Digits(t[a + k..]) && IndexParts(t, a', b, c)
    ensures a' == a && b == a + k && c == a + k + n
  {
    assert t[b] == t[b..c][0];
    assert IsDigit(t[b]);
    assert a' == a;
    assert b == a + k;
    var u := t[a + k..];
    DigitsEnd(u);
    forall i | 0 <= i < c - b ensures IsDigit(u[i]) {
      assert u[i] == t[b..c][i];
    }
    assert c < |t| ==> u[c - b] == t[c];
  }

  /** `std::stoi` reads exactly the numbers that are an `int`. */
  lemma StoIExactly(t: bytes, i: int)
    ensures StoI(t) == Some(i) <==> Numbered(t, i)
  {
    var a := SpacesSkipped(t);
    var u := t[a..];
    var k := if u != [] && (u[0] == 0x2B || u[0] == 0x2D) then 1 else 0;
    assert u[k..] == t[a + k..];
    var n := Digits(t[a + k..]);
    PartsAt(t, a, k, n);
    if n > 0 {
      assert t[a + k..][..n] == t[a + k..a + k + n];
      assert IndexParts(t, a, a + k, a + k + n);
      assert Signed(t, a, a + k, a + k + n) == if k == 1 && t[a] == 0x2D then 0 - Value(u[k..][..n]) else Value(u[k..][..n]);
    }
  }

  /** A decimal number is read as itself, as far as it is an `int`, and as nothing else. */
  lemma DecimalNumbered(n: nat, i: int)
    ensures Numbered(Decimal(n), i) <==> i == n && n <= 2147483647
  {
    StoIExactly(Decimal(n), i);
    IndexOfDecimal(n);
  }

  // ----- Checked lookup -----

  /** `t` names the child `c` of `j`: the key of an entry, or a number below the size that has no leading zero. */
  ghost predicate Leads(j: Json, t: bytes, c: Json) {
    || (j.Object? && exists i :: 0 <= i < |j.members| && j.members[i] == Member(t, c))
    || (j.Array? && !LeadingZero(t) && exists i :: 0 <= i < |j.elems| && Numbered(t, i) && j.elems[i] == c)
  }

  predicate LeadingZero(t: bytes) { |t| > 1 && t[0] == 0x30 }

  /** The path leads from `j` to `x`. */
  ghost predicate Resolves(j: Json, p: Path, x: Json)
    decreases |p|
  {
    if p == [] then x == j else exists c :: Leads(j, p[0], c) && Resolves(c, p[1..], x)
  }

  /** No child is named, and this is thrown: nothing below a primitive value, no such key, or no such element. */
  ghost predicate Refuses(j: Json, t: bytes, e: Error) {
    match j
    case Object(members) => e == UnresolvedErr && forall i :: 0 <= i < |members| ==> members[i].key != t
    case Array(elems) =>
      if t == [0x2D] then e == UnresolvedErr
      else if LeadingZero(t) then e == PointerErr
      else if exists i :: Numbered(t, i) then e == UnresolvedErr && forall i :: Numbered(t, i) ==> !(0 <= i < |elems|)
      else e == IndexErr
    case _ => e == UnresolvedErr
  }

  /** Somewhere on the way the next token is refused. */
  ghost predicate Refused(j: Json, p: Path, e: Error)
    decreases |p|
  {
    p != [] && (Refuses(j, p[0], e) || exists c :: Leads(j, p[0], c) && Refused(c, p[1..], e))
  }

  lemma NumberedOnce(t: bytes, i: int, k: int)
    requires Numbered(t, i) && Numbered(t, k)
    ensures i == k
  {
    StoIExactly(t, i);
    StoIExactly(t, k);
  }

  /** One step of the lookup: to the only child named, or the exception. */
  lemma ElemStep(elems: seq<Json>, t: bytes, rest: Path)
    ensures var r := GetChecked(Array(elems), [t] + rest);
      || (exists c :: Leads(Array(elems), t, c) && r == GetChecked(c, rest) && (forall d :: Leads(Array(elems), t, d) ==> d == c)
                      && forall e :: !Refuses(Array(elems), t, e))
      || (exists e :: Refuses(Array(elems), t, e) && r == Throw(e) && (forall f :: Refuses(Array(elems), t, f) ==> f == e)
                      && forall d :: !Leads(Array(elems), t, d))
  {
    assert ([t] + rest)[1..] == rest;
    var j := Array(elems);
    var index := StoI(t);
    forall i ensures Numbered(t, i) <==> index == Some(i) {
      StoIExactly(t, i);
    }
    DashIsNoIndex();
    if index.Some? && 0 <= index.value < |elems| && !LeadingZero(t) {
      var c := elems[index.value];
      assert Numbered(t, index.value);
      assert Leads(j, t, c);
    } else {
      var e := if t == [0x2D] then UnresolvedErr else if LeadingZero(t) then PointerErr else if index.Some? then UnresolvedErr else IndexErr;
      if index.Some? { assert Numbered(t, index.value); }
      assert Refuses(j, t, e);
    }
  }

  lemma MemberStep(members: seq<Member>, t: bytes, rest: Path)
    requires Sorted(members)
    ensures var r := GetChecked(Object(members), [t] + rest);
      || (exists c :: Leads(Object(members), t, c) && r == GetChecked(c, rest) && (forall d :: Leads(Object(members), t, d) ==> d == c)
                      && forall e :: !Refuses(Object(members), t, e))
      || (Refuses(Object(members), t, UnresolvedErr) && r == Throw(UnresolvedErr) && forall d :: !Leads(Object(members), t, d))
  {
    assert ([t] + rest)[1..] == rest;
    var j := Object(members);
    FindIn(members, t);
    if Find(members, t).Some? {
      var i :| 0 <= i < |members| && members[i] == Member(t, Find(members, t).value);
      assert Leads(j, t, members[i].value);
      forall d | Leads(j, t, d) ensures d == members[i].value {
        var k :| 0 <= k < |members| && members[k] == Member(t, d);
        FindAt(members, k);
      }
    }
  }

  /** Checked lookup finds exactly what a path leads to, and throws exactly what refuses it. */
  lemma {:induction false} LookupExactly(j: Json, p: Path)
    requires Valid(j)
    ensures forall x :: GetChecked(j, p) == Ok(x) <==> Resolves(j, p, x)
    ensures forall e :: GetChecked(j, p) == Throw(e) <==> Refused(j, p, e)
    decreases |p|
  {
    if p == [] {
    } else {
      var t, rest := p[0], p[1..];
      assert p == [t] + rest;
      if j.Array? {
        ElemStep(j.elems, t, rest);
      } else if j.Object? {
        MemberStep(j.members, t, rest);
      }
      forall c | Leads(j, t, c) ensures Valid(c) {
      }
      forall c | Leads(j, t, c)
        ensures forall x :: GetChecked(c, rest) == Ok(x) <==> Resolves(c, rest, x)
        ensures forall e :: GetChecked(c, rest) == Throw(e) <==> Refused(c, rest, e)
      {
        LookupExactly(c, rest);
      }
    }
  }

  /** For a canonical index: the element of that number, or the exception for a number too large. */
  lemma CanonicalStep(elems: seq<Json>, n: nat)
    ensures forall c :: Leads(Array(elems), Decimal(n), c) <==> n < |elems| && n <= 2147483647 && elems[n] == c
    ensures forall e :: Refuses(Array(elems), Decimal(n), e)
                   <==> (if n > 2147483647 then e == IndexErr else n >= |elems| && e == UnresolvedErr)
  {
    DecimalValue(n);
    CanonicalIndex(Decimal(n));
    forall i ensures Numbered(Decimal(n), i) <==> i == n && n <= 2147483647 {
      DecimalNumbered(n, i);
    }
    if n <= 2147483647 {
      assert Numbered(Decimal(n), n);
    }
  }

  // ----- Assigning -----

  /** The existing child an assignment goes through; leading zeros are accepted. */
  ghost predicate Enters(j: Json, t: bytes, c: Json) {
    || (j.Object? && exists i :: 0 <= i < |j.members| && j.members[i] == Member(t, c))
    || (j.Array? && exists i :: 0 <= i < |j.elems| && Numbered(t, i) && j.elems[i] == c)
  }

  /** A primitive value other than null takes no token, and an array only a number that is not negative. */
  ghost predicate Blocks(j: Json, t: bytes, e: Error) {
    || (!j.Null? && !j.Array? && !j.Object? && e == PointerErr)
    || (j.Array? && e == IndexErr && forall i :: Numbered(t, i) ==> i < 0)
  }

  ghost predicate Blocked(j: Json, p: Path, e: Error)
    decreases |p|
  {
    p != [] && (Blocks(j, p[0], e) || exists c :: Enters(j, p[0], c) && Blocked(c, p[1..], e))
  }

  lemma {:induction false} NullTakesAll(p: Path, v: Json)
    ensures SetAt(Null, p, v).Ok?
    decreases |p|
  {
    if p == [] {
    } else {
      NullTakesAll(p[1..], v);
    }
  }

  /** An assignment throws exactly what blocks it; whatever is not there is created. */
  lemma {:induction false} AssignExactly(j: Json, p: Path, v: Json)
    requires Valid(j)
    ensures forall e :: SetAt(j, p, v) == Throw(e) <==> Blocked(j, p, e)
    decreases |p|
  {
    if p == [] {
    } else {
      match j {
        case Null => NullTakesAll(p, v);
        case Object(members) => AssignMember(members, p, v);
        case Array(elems) => AssignElem(elems, p, v);
        case _ =>
      }
    }
  }

  lemma {:induction false} AssignMember(members: seq<Member>, p: Path, v: Json)
    requires Valid(Object(members)) && p != []
    ensures forall e :: SetAt(Object(members), p, v) == Throw(e) <==> Blocked(Object(members), p, e)
    decreases |p|, 0
  {
    var j, t, rest := Object(members), p[0], p[1..];
    assert SetAt(j, p, v) == SetMember(members, t, rest, v);
    FindIn(members, t);
    if Find(members, t).None? {
      NullTakesAll(rest, v);
    } else {
      var i :| 0 <= i < |members| && members[i] == Member(t, Find(members, t).value);
      var c := members[i].value;
      AssignExactly(c, rest, v);
      assert Enters(j, t, c);
      forall d | Enters(j, t, d) ensures d == c {
        var k :| 0 <= k < |members| && members[k] == Member(t, d);
        FindAt(members, k);
      }
    }
  }

  lemma {:induction false} AssignElem(elems: seq<Json>, p: Path, v: Json)
    requires Valid(Array(elems)) && p != []
    ensures forall e :: SetAt(Array(elems), p, v) == Throw(e) <==> Blocked(Array(elems), p, e)
    decreases |p|, 0
  {
    var j, t, rest := Array(elems), p[0], p[1..];
    var index := StoI(t);
    forall i ensures Numbered(t, i) <==> index == Some(i) {
      StoIExactly(t, i);
    }
    if index.None? || index.value < 0 {
    } else {
      var i: nat := index.value;
      assert Numbered(t, i);
      assert SetAt(j, p, v) == SetElem(elems, i, rest, v);
      if i < |elems| {
        AssignExactly(elems[i], rest, v);
        assert Enters(j, t, elems[i]);
      } else {
        NullTakesAll(rest, v);
      }
    }
  }
}
