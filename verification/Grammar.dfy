/**
 The grammar of sections 2, 4 and 5 of RFC 7159 over tokens, the value it denotes, and
 the recursive descent of `parser::parse_internal` without a callback
 (include/json.h:8705-8889) as a function of the tokens that are left.
 */
module Grammar {
  import opened Bytes
  import opened Values

  /** A token with what `get_string` or `get_number` makes of it. */
  datatype Tok =
    | True | False | NullTok
    | Str(value: Result<bytes>)
    | Num(number: Json)
    | LBracket | RBracket | LBrace | RBrace | Colon | Comma
    | Bad | End

  /** A derivation of the grammar. */
  datatype Tree =
    | NullTree | BoolTree(b: bool) | StringTree(s: bytes) | NumberTree(number: Json)
    | ArrayTree(elems: seq<Tree>)
    | ObjectTree(pairs: seq<Pair>)

  datatype Pair = Pair(key: bytes, value: Tree)

  /** The tokens a derivation spells. */
  function Yield(t: Tree): (ts: seq<Tok>)
    ensures ts != [] && ts[0] != Comma && ts[0] != RBracket && ts[0] != RBrace && ts[0] != End
    decreases t, 1
  {
    match t
    case NullTree => [NullTok]
    case BoolTree(b) => [if b then True else False]
    case StringTree(s) => [Str(Ok(s))]
    case NumberTree(v) => [Num(v)]
    case ArrayTree(elems) => if elems == [] then [LBracket, RBracket] else [LBracket] + YieldElems(elems) + [RBracket]
    case ObjectTree(pairs) => if pairs == [] then [LBrace, RBrace] else [LBrace] + YieldPairs(pairs) + [RBrace]
  }

  /** value *( value-separator value ) */
  function YieldElems(ts: seq<Tree>): (r: seq<Tok>)
    requires ts != []
    ensures r != [] && r[0] != Comma && r[0] != RBracket
    decreases ts, 0
  {
    if |ts| == 1 then Yield(ts[0]) else Yield(ts[0]) + [Comma] + YieldElems(ts[1..])
  }

  /** member = string name-separator value */
  function YieldPair(p: Pair): seq<Tok>
    decreases p, 0
  {
    [Str(Ok(p.key)), Colon] + Yield(p.value)
  }

  /** member *( value-separator member ) */
  function YieldPairs(ps: seq<Pair>): (r: seq<Tok>)
    requires ps != []
    ensures r != [] && r[0].Str?
    decreases ps, 0
  {
    if |ps| == 1 then YieldPair(ps[0]) else YieldPair(ps[0]) + [Comma] + YieldPairs(ps[1..])
  }

  /** The value a derivation denotes; of several members with one name the last counts. */
  function Denote(t: Tree): Json {
    match t
    case NullTree => Null
    case BoolTree(b) => Boolean(b)
    case StringTree(s) => String(s)
    case NumberTree(v) => v
    case ArrayTree(elems) => Array(DenoteElems(elems))
    case ObjectTree(pairs) => Object(DenotePairs(pairs, []))
  }

  function DenoteElems(ts: seq<Tree>): seq<Json> {
    if ts == [] then [] else [Denote(ts[0])] + DenoteElems(ts[1..])
  }

  function DenotePairs(ps: seq<Pair>, members: seq<Member>): seq<Member> {
    if ps == [] then members else DenotePairs(ps[1..], Put(members, ps[0].key, Denote(ps[0].value)))
  }

  /** The value of the last pair with the key. */
  function LastValue(ps: seq<Pair>, k: bytes): Option<Json> {
    if ps == [] then None
    else if ps[|ps| - 1].key == k then Some(Denote(ps[|ps| - 1].value))
    else LastValue(ps[..|ps| - 1], k)
  }

  lemma {:induction false} DenotePairsSnoc(ps: seq<Pair>, p: Pair, members: seq<Member>)
    ensures DenotePairs(ps + [p], members) == Put(DenotePairs(ps, members), p.key, Denote(p.value))
  {
    if ps == [] {
      assert (ps + [p])[1..] == [];
    } else {
      assert (ps + [p])[1..] == ps[1..] + [p];
      DenotePairsSnoc(ps[1..], p, Put(members, ps[0].key, Denote(ps[0].value)));
    }
  }

  /** An object denotes a sorted map in which the last of several equal names wins. */
  lemma {:induction false} LastDuplicateWins(ps: seq<Pair>, k: bytes)
    ensures Sorted(DenotePairs(ps, [])) && Find(DenotePairs(ps, []), k) == LastValue(ps, k)
  {
    if ps == [] {
    } else {
      var t, p := ps[..|ps| - 1], ps[|ps| - 1];
      assert ps == t + [p];
      LastDuplicateWins(t, k);
      DenotePairsSnoc(t, p, []);
      PutFind(DenotePairs(t, []), p.key, Denote(p.value), k);
      PutSorted(DenotePairs(t, []), p.key, Denote(p.value));
    }
  }

  // ----- Recursive descent -----

  /** A parsed value and the tokens behind it. */
  type Parsed = Result<(Json, seq<Tok>)>

  function ParseValue(ts: seq<Tok>): (r: Parsed)
    ensures r.Ok? ==> |r.value.1| < |ts|
    decreases |ts|, 0
  {
    if ts == [] then Throw(ParseErr)
    else match ts[0]
      case LBrace =>
        if |ts| == 1 || ts[1] == Comma then Throw(ParseErr)
        else if ts[1] == RBrace then Ok((Object([]), ts[2..]))
        else ParseMembers(ts[1..], [])
      case LBracket =>
        if |ts| == 1 || ts[1] == Comma then Throw(ParseErr)
        else if ts[1] == RBracket then Ok((Array([]), ts[2..]))
        else ParseElems(ts[1..], [])
      case NullTok => Ok((Null, ts[1..]))
      case True => Ok((Boolean(true), ts[1..]))
      case False => Ok((Boolean(false), ts[1..]))
      case Str(Ok(s)) => Ok((String(s), ts[1..]))
      case Str(Throw(e)) => Throw(e)
      case Num(v) => Ok((v, ts[1..]))
      case _ => Throw(ParseErr)
  }

  /** The elements from here to the closing bracket, behind those already read. */
  function ParseElems(ts: seq<Tok>, done: seq<Json>): (r: Parsed)
    ensures r.Ok? ==> |r.value.1| < |ts|
    decreases |ts|, 1
  {
    match ParseValue(ts)
    case Throw(e) => Throw(e)
    case Ok((v, rest)) => BehindElem(rest, done + [v])
  }

  /** Behind an element: another one, or the end of the array. */
  function BehindElem(ts: seq<Tok>, done: seq<Json>): (r: Parsed)
    ensures r.Ok? ==> |r.value.1| < |ts|
    decreases |ts|, 0
  {
    if ts == [] then Throw(ParseErr)
    else if ts[0] == Comma then ParseElems(ts[1..], done)
    else if ts[0] == RBracket then Ok((Array(done), ts[1..]))
    else Throw(ParseErr)
  }

  /** The members from here to the closing brace, added to those already read. */
  function ParseMembers(ts: seq<Tok>, done: seq<Member>): (r: Parsed)
    ensures r.Ok? ==> |r.value.1| < |ts|
    decreases |ts|, 1
  {
    match ParseName(ts)
    case Throw(e) => Throw(e)
    case Ok(key) =>
      match ParseValue(ts[2..])
      case Throw(e) => Throw(e)
      case Ok((v, rest)) => BehindMember(rest, Put(done, key, v))
  }

  /** The name of a member and the colon behind it. */
  function ParseName(ts: seq<Tok>): (r: Result<bytes>)
    ensures r.Ok? ==> |ts| > 1 && ts[0] == Str(r) && ts[1] == Colon
  {
    if ts == [] || !ts[0].Str? then Throw(ParseErr)
    else if ts[0].value.Throw? then Throw(ts[0].value.error)
    else if |ts| == 1 || ts[1] != Colon then Throw(ParseErr)
    else ts[0].value
  }

  /** Behind a member: another one, or the end of the object. */
  function BehindMember(ts: seq<Tok>, done: seq<Member>): (r: Parsed)
    ensures r.Ok? ==> |r.value.1| < |ts|
    decreases |ts|, 0
  {
    if ts == [] then Throw(ParseErr)
    else if ts[0] == Comma then ParseMembers(ts[1..], done)
    else if ts[0] == RBrace then Ok((Object(done), ts[1..]))
    else Throw(ParseErr)
  }

  /** `parser::parse`: one value and then the end of the input. */
  function Parse(ts: seq<Tok>): Result<Json> {
    match ParseValue(ts)
    case Throw(e) => Throw(e)
    case Ok((v, rest)) => if rest != [] && rest[0] == End then Ok(v) else Throw(ParseErr)
  }

  // ----- The parser accepts every derivation, whatever follows it -----

  lemma {:induction false} ParsesTree(t: Tree, rest: seq<Tok>)
    ensures ParseValue(Yield(t) + rest) == Ok((Denote(t), rest))
    decreases t, 1
  {
    match t {
      case ArrayTree(elems) =>
        if elems == [] {
          assert ([LBracket, RBracket] + rest)[2..] == rest;
        } else {
          ParsesElems(elems, [], rest);
          OpensArray(YieldElems(elems) + [RBracket] + rest);
          Regroup([LBracket], YieldElems(elems), [RBracket], rest);
          assert [] + DenoteElems(elems) == DenoteElems(elems);
        }
      case ObjectTree(pairs) =>
        if pairs == [] {
          assert ([LBrace, RBrace] + rest)[2..] == rest;
        } else {
          ParsesPairs(pairs, [], rest);
          OpensObject(YieldPairs(pairs) + [RBrace] + rest);
          Regroup([LBrace], YieldPairs(pairs), [RBrace], rest);
        }
      case _ => assert (Yield(t) + rest)[1..] == rest;
    }
  }

  lemma Regroup(a: seq<Tok>, b: seq<Tok>, c: seq<Tok>, d: seq<Tok>)
    ensures a + b + c + d == a + (b + c + d)
    ensures a + b + c + d == a + (b + (c + d))
  {
  }

  lemma OpensArray(ts: seq<Tok>)
    requires ts != [] && ts[0] != Comma && ts[0] != RBracket
    ensures ParseValue([LBracket] + ts) == ParseElems(ts, [])
  {
    assert ([LBracket] + ts)[1..] == ts;
  }

  lemma OpensObject(ts: seq<Tok>)
    requires ts != [] && ts[0] != Comma && ts[0] != RBrace
    ensures ParseValue([LBrace] + ts) == ParseMembers(ts, [])
  {
    assert ([LBrace] + ts)[1..] == ts;
  }

  lemma {:induction false} ParsesElems(elems: seq<Tree>, done: seq<Json>, rest: seq<Tok>)
    requires elems != []
    ensures ParseElems(YieldElems(elems) + [RBracket] + rest, done) == Ok((Array(done + DenoteElems(elems)), rest))
    decreases elems, 0
  {
    var v := Denote(elems[0]);
    if |elems| == 1 {
      assert YieldElems(elems) + [RBracket] + rest == Yield(elems[0]) + ([RBracket] + rest);
      ParsesTree(elems[0], [RBracket] + rest);
      assert ([RBracket] + rest)[1..] == rest;
      assert DenoteElems(elems) == [v];
    } else {
      var behind := YieldElems(elems[1..]) + [RBracket] + rest;
      assert YieldElems(elems) + [RBracket] + rest == Yield(elems[0]) + ([Comma] + behind);
      ParsesTree(elems[0], [Comma] + behind);
      assert ([Comma] + behind)[1..] == behind;
      ParsesElems(elems[1..], done + [v], rest);
      assert done + DenoteElems(elems) == done + [v] + DenoteElems(elems[1..]);
    }
  }

  lemma {:induction false} ParsesPairs(pairs: seq<Pair>, done: seq<Member>, rest: seq<Tok>)
    requires pairs != []
    ensures ParseMembers(YieldPairs(pairs) + [RBrace] + rest, done) == Ok((Object(DenotePairs(pairs, done)), rest))
    decreases pairs, 0
  {
    var p := pairs[0];
    if |pairs| == 1 {
      assert YieldPairs(pairs) + [RBrace] + rest == YieldPair(p) + ([RBrace] + rest);
      ParsesTree(p.value, [RBrace] + rest);
      PairBehind(p, [RBrace] + rest);
      assert ([RBrace] + rest)[1..] == rest;
    } else {
      var behind := YieldPairs(pairs[1..]) + [RBrace] + rest;
      assert YieldPairs(pairs) + [RBrace] + rest == YieldPair(p) + ([Comma] + behind);
      ParsesTree(p.value, [Comma] + behind);
      PairBehind(p, [Comma] + behind);
      assert ([Comma] + behind)[1..] == behind;
      ParsesPairs(pairs[1..], Put(done, p.key, Denote(p.value)), rest);
    }
  }

  lemma PairBehind(p: Pair, rest: seq<Tok>)
    ensures var ts := YieldPair(p) + rest; |ts| > 2 && ts[0] == Str(Ok(p.key)) && ts[1] == Colon && ts[2..] == Yield(p.value) + rest
  {
    assert (YieldPair(p) + rest)[2..] == Yield(p.value) + rest;
  }

  // ----- What the parser accepts is a derivation -----

  lemma {:induction false} TreeOfParse(ts: seq<Tok>) returns (t: Tree)
    requires ParseValue(ts).Ok?
    ensures ts == Yield(t) + ParseValue(ts).value.1 && Denote(t) == ParseValue(ts).value.0
    decreases |ts|, 0
  {
    match ts[0] {
      case LBrace =>
        if ts[1] == RBrace {
          t := ObjectTree([]);
        } else {
          var pairs := PairsOfParse(ts[1..], []);
          t := ObjectTree(pairs);
        }
      case LBracket =>
        if ts[1] == RBracket {
          t := ArrayTree([]);
        } else {
          var elems := ElemsOfParse(ts[1..], []);
          t := ArrayTree(elems);
        }
      case NullTok => t := NullTree;
      case True => t := BoolTree(true);
      case False => t := BoolTree(false);
      case Str(Ok(s)) => t := StringTree(s);
      case Num(v) => t := NumberTree(v);
    }
  }

  lemma {:induction false} ElemsOfParse(ts: seq<Tok>, done: seq<Json>) returns (elems: seq<Tree>)
    requires ParseElems(ts, done).Ok?
    ensures elems != [] && ts == YieldElems(elems) + [RBracket] + ParseElems(ts, done).value.1
    ensures ParseElems(ts, done).value.0 == Array(done + DenoteElems(elems))
    decreases |ts|, 1
  {
    var t := TreeOfParse(ts);
    var rest := ParseValue(ts).value.1;
    if rest[0] == Comma {
      var more := ElemsOfParse(rest[1..], done + [Denote(t)]);
      elems := [t] + more;
      ElemsCons(t, more, done);
      Continued(ts, Yield(t), rest, YieldElems(more), RBracket, ParseElems(ts, done).value.1);
    } else {
      elems := [t];
      assert DenoteElems(elems) == [Denote(t)];
      Closed(ts, Yield(t), rest);
    }
  }

  /** A first part, a comma and the rest of the list. */
  lemma Continued(ts: seq<Tok>, first: seq<Tok>, rest: seq<Tok>, more: seq<Tok>, close: Tok, tail: seq<Tok>)
    requires ts == first + rest && rest != [] && rest[0] == Comma && rest[1..] == more + [close] + tail
    ensures ts == first + [Comma] + more + [close] + tail
  {
    assert rest == [Comma] + rest[1..];
  }

  /** A last part and the closing token. */
  lemma Closed(ts: seq<Tok>, first: seq<Tok>, rest: seq<Tok>)
    requires ts == first + rest && rest != []
    ensures ts == first + [rest[0]] + rest[1..]
  {
    assert rest == [rest[0]] + rest[1..];
  }

  lemma PairInFront(ts: seq<Tok>, p: Pair, rest: seq<Tok>)
    requires |ts| > 2 && ts[0] == Str(Ok(p.key)) && ts[1] == Colon && ts[2..] == Yield(p.value) + rest
    ensures ts == YieldPair(p) + rest
  {
    assert ts == [ts[0], ts[1]] + ts[2..];
  }

  lemma ElemsCons(t: Tree, more: seq<Tree>, done: seq<Json>)
    requires more != []
    ensures YieldElems([t] + more) == Yield(t) + [Comma] + YieldElems(more)
    ensures done + DenoteElems([t] + more) == done + [Denote(t)] + DenoteElems(more)
  {
    assert ([t] + more)[1..] == more;
    AppendOne(done, Denote(t), DenoteElems(more));
  }

  lemma AppendOne(done: seq<Json>, v: Json, more: seq<Json>)
    ensures done + ([v] + more) == done + [v] + more
  {
  }

  lemma {:induction false} PairsOfParse(ts: seq<Tok>, done: seq<Member>) returns (pairs: seq<Pair>)
    requires ParseMembers(ts, done).Ok?
    ensures pairs != [] && ts == YieldPairs(pairs) + [RBrace] + ParseMembers(ts, done).value.1
    ensures ParseMembers(ts, done).value.0 == Object(DenotePairs(pairs, done))
    decreases |ts|, 1
  {
    var t := TreeOfParse(ts[2..]);
    var p := Pair(ts[0].value.value, t);
    var rest := ParseValue(ts[2..]).value.1;
    PairInFront(ts, p, rest);
    if rest[0] == Comma {
      var more := PairsOfParse(rest[1..], Put(done, p.key, Denote(t)));
      pairs := [p] + more;
      PairsCons(p, more, done);
      Continued(ts, YieldPair(p), rest, YieldPairs(more), RBrace, ParseMembers(ts, done).value.1);
    } else {
      pairs := [p];
      assert DenotePairs(pairs, done) == Put(done, p.key, Denote(t));
      Closed(ts, YieldPair(p), rest);
    }
  }

  lemma PairsCons(p: Pair, more: seq<Pair>, done: seq<Member>)
    requires more != []
    ensures YieldPairs([p] + more) == YieldPair(p) + [Comma] + YieldPairs(more)
    ensures DenotePairs([p] + more, done) == DenotePairs(more, Put(done, p.key, Denote(p.value)))
  {
    assert ([p] + more)[1..] == more;
  }

  /** The parser accepts exactly the derivable token sequences and returns what the derivation denotes. */
  lemma ParserAcceptsGrammar(ts: seq<Tok>, v: Json)
    requires End !in ts
    ensures Parse(ts + [End]) == Ok(v) <==> exists t :: Yield(t) == ts && Denote(t) == v
  {
    if Parse(ts + [End]) == Ok(v) {
      var t := TreeOfParse(ts + [End]);
      var rest := ParseValue(ts + [End]).value.1;
      var n := |Yield(t)|;
      assert (ts + [End])[n] == rest[0] == End;
      assert forall i :: 0 <= i < |ts| ==> (ts + [End])[i] == ts[i];
      assert ts == (ts + [End])[..n] == Yield(t);
    }
    forall t | Yield(t) == ts && Denote(t) == v ensures Parse(ts + [End]) == Ok(v) {
      ParsesTree(t, [End]);
    }
  }

  // ----- One token sequence has one derivation -----

  /** What follows the first element up to the bracket and beyond. */
  function BehindFirst(more: seq<Tree>, rest: seq<Tok>): seq<Tok> {
    if more == [] then [RBracket] + rest else [Comma] + (YieldElems(more) + [RBracket] + rest)
  }

  lemma Nested(a: seq<Tok>, b: seq<Tok>, c: seq<Tok>, d: seq<Tok>, e: seq<Tok>)
    ensures a + b + c + d + e == a + (b + (c + d + e))
  {
  }

  lemma FirstElem(x: seq<Tree>, rest: seq<Tok>)
    requires x != []
    ensures YieldElems(x) + [RBracket] + rest == Yield(x[0]) + BehindFirst(x[1..], rest)
  {
    if |x| == 1 {
      assert x[1..] == [];
    } else {
      Nested(Yield(x[0]), [Comma], YieldElems(x[1..]), [RBracket], rest);
    }
  }

  function BehindFirstPair(more: seq<Pair>, rest: seq<Tok>): seq<Tok> {
    if more == [] then [RBrace] + rest else [Comma] + (YieldPairs(more) + [RBrace] + rest)
  }

  lemma FirstPair(x: seq<Pair>, rest: seq<Tok>)
    requires x != []
    ensures YieldPairs(x) + [RBrace] + rest == YieldPair(x[0]) + BehindFirstPair(x[1..], rest)
  {
    if |x| == 1 {
      assert x[1..] == [];
    } else {
      Nested(YieldPair(x[0]), [Comma], YieldPairs(x[1..]), [RBrace], rest);
    }
  }

  lemma Cancel(a: seq<Tok>, x: seq<Tok>, b: seq<Tok>, y: seq<Tok>)
    requires |a| == |b| && a + x == b + y
    ensures a == b && x == y
  {
    assert a == (a + x)[..|a|] && b == (b + y)[..|b|];
    assert x == (a + x)[|a|..] && y == (b + y)[|b|..];
  }

  lemma Inside(open: Tok, body: seq<Tok>, close: Tok, rest: seq<Tok>)
    ensures [open] + body + [close] + rest == [open] + (body + [close] + rest)
  {
  }

  /** The second token tells an empty array or object from one with contents. */
  lemma EmptyArray(x: seq<Tree>, rest: seq<Tok>)
    ensures (Yield(ArrayTree(x)) + rest)[1] == RBracket <==> x == []
  {
    if x != [] {
      assert (Yield(ArrayTree(x)) + rest)[1] == YieldElems(x)[0];
    }
  }

  lemma EmptyObject(x: seq<Pair>, rest: seq<Tok>)
    ensures (Yield(ObjectTree(x)) + rest)[1] == RBrace <==> x == []
  {
    if x != [] {
      assert (Yield(ObjectTree(x)) + rest)[1] == YieldPairs(x)[0];
    }
  }

  /** Derivations that spell the same tokens in front of some rest are the same. */
  lemma {:induction false} SameTree(t: Tree, u: Tree, r: seq<Tok>, s: seq<Tok>)
    requires Yield(t) + r == Yield(u) + s
    ensures t == u && r == s
    decreases t, 2
  {
    assert (Yield(t) + r)[0] == Yield(t)[0] && (Yield(u) + s)[0] == Yield(u)[0];
    match t {
      case ArrayTree(x) => SameArray(x, u.elems, r, s);
      case ObjectTree(x) => SameObject(x, u.pairs, r, s);
      case _ => Cancel(Yield(t), r, Yield(u), s);
    }
  }

  lemma {:induction false} SameArray(x: seq<Tree>, y: seq<Tree>, r: seq<Tok>, s: seq<Tok>)
    requires Yield(ArrayTree(x)) + r == Yield(ArrayTree(y)) + s
    ensures x == y && r == s
    decreases x, 1
  {
    EmptyArray(x, r);
    EmptyArray(y, s);
    if x == [] {
      Cancel(Yield(ArrayTree(x)), r, Yield(ArrayTree(y)), s);
    } else {
      Inside(LBracket, YieldElems(x), RBracket, r);
      Inside(LBracket, YieldElems(y), RBracket, s);
      Cancel([LBracket], YieldElems(x) + [RBracket] + r, [LBracket], YieldElems(y) + [RBracket] + s);
      SameElems(x, y, r, s);
    }
  }

  lemma {:induction false} SameElems(x: seq<Tree>, y: seq<Tree>, r: seq<Tok>, s: seq<Tok>)
    requires x != [] && y != [] && YieldElems(x) + [RBracket] + r == YieldElems(y) + [RBracket] + s
    ensures x == y && r == s
    decreases x, 0
  {
    FirstElem(x, r);
    FirstElem(y, s);
    SameTree(x[0], y[0], BehindFirst(x[1..], r), BehindFirst(y[1..], s));
    assert x == [x[0]] + x[1..] && y == [y[0]] + y[1..];
    assert BehindFirst(x[1..], r)[0] == BehindFirst(y[1..], s)[0];
    if x[1..] == [] {
      Cancel([RBracket], r, [RBracket], s);
    } else {
      Cancel([Comma], YieldElems(x[1..]) + [RBracket] + r, [Comma], YieldElems(y[1..]) + [RBracket] + s);
      SameElems(x[1..], y[1..], r, s);
    }
  }

  lemma {:induction false} SameObject(x: seq<Pair>, y: seq<Pair>, r: seq<Tok>, s: seq<Tok>)
    requires Yield(ObjectTree(x)) + r == Yield(ObjectTree(y)) + s
    ensures x == y && r == s
    decreases x, 1
  {
    EmptyObject(x, r);
    EmptyObject(y, s);
    if x == [] {
      Cancel(Yield(ObjectTree(x)), r, Yield(ObjectTree(y)), s);
    } else {
      Inside(LBrace, YieldPairs(x), RBrace, r);
      Inside(LBrace, YieldPairs(y), RBrace, s);
      Cancel([LBrace], YieldPairs(x) + [RBrace] + r, [LBrace], YieldPairs(y) + [RBrace] + s);
      SamePairs(x, y, r, s);
    }
  }

  lemma {:induction false} SamePairs(x: seq<Pair>, y: seq<Pair>, r: seq<Tok>, s: seq<Tok>)
    requires x != [] && y != [] && YieldPairs(x) + [RBrace] + r == YieldPairs(y) + [RBrace] + s
    ensures x == y && r == s
    decreases x, 0
  {
    var xs, ys := BehindFirstPair(x[1..], r), BehindFirstPair(y[1..], s);
    FirstPair(x, r);
    FirstPair(y, s);
    PairBehind(x[0], xs);
    PairBehind(y[0], ys);
    SameTree(x[0].value, y[0].value, xs, ys);
    assert x == [x[0]] + x[1..] && y == [y[0]] + y[1..];
    assert xs[0] == ys[0];
    if x[1..] == [] {
      Cancel([RBrace], r, [RBrace], s);
    } else {
      Cancel([Comma], YieldPairs(x[1..]) + [RBrace] + r, [Comma], YieldPairs(y[1..]) + [RBrace] + s);
      SamePairs(x[1..], y[1..], r, s);
    }
  }

  /** The grammar is unambiguous. */
  lemma Unambiguous(t: Tree, u: Tree)
    ensures Yield(t) == Yield(u) <==> t == u
  {
    if Yield(t) == Yield(u) {
      SameTree(t, u, [], []);
    }
  }
}
