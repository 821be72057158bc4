/**
 Looking up and assigning through a JSON pointer: `get_checked` and `get_and_create`
 (include/json.h:8976-9030, 9089-9131, 9185-9227) with `operator[]` of arrays and objects
 (include/json.h:3288-3312, 3375-3394).
 */
module Access {
  import opened Bytes
  import opened Values
  import opened Lexemes
  import opened NumberGrammar
  import opened Numbers

  const INT_MAX: int := 0x7FFF_FFFF

  type Path = seq<bytes>

  const ZERO: bytes := [0x30]
  const DASH: bytes := [0x2D]

  /** `isspace` in the C locale. */
  predicate IsSpace(c: byte) { c == 0x20 || 0x09 <= c <= 0x0D }

  function SkipSpaces(t: bytes): bytes {
    if t != [] && IsSpace(t[0]) then SkipSpaces(t[1..]) else t
  }

  /** `std::stoi`: leading spaces and a sign are accepted, and so is anything behind the digits. */
  function StoI(t: bytes): (r: Option<int>)
    ensures r.Some? ==> -INT_MAX - 1 <= r.value <= INT_MAX
  {
    var u := SkipSpaces(t);
    var k := if u != [] && (u[0] == 0x2B || u[0] == 0x2D) then 1 else 0;
    var ds := u[k..][..Digits(u[k..])];
    DigitRun(u[k..]);
    if ds == [] then None
    else
      var v: int := if u[0] == 0x2D then -(Value(ds) as int) else Value(ds);
      if -INT_MAX - 1 <= v <= INT_MAX then Some(v) else None
  }

  /** `operator[](size_type)` up to the access: null values are appended until there are `n` elements. */
  function Filled(elems: seq<Json>, n: nat): (r: seq<Json>)
    ensures |r| == if n <= |elems| then |elems| else n
    ensures forall i :: 0 <= i < |r| ==> r[i] == if i < |elems| then elems[i] else Null
  {
    if n <= |elems| then elems else elems + seq(n - |elems|, _ => Null)
  }

  method FillTo(elems: seq<Json>, idx: nat) returns (r: seq<Json>)
    ensures r == Filled(elems, idx + 1)
  {
    r := elems;
    for i := |elems| to if idx < |elems| then |elems| else idx + 1
      invariant |r| == i && r == Filled(elems, i)
    {
      r := r + [Null];
    }
  }

  /** The value of an object entry, a null one where there is none. */
  function Child(members: seq<Member>, k: bytes): Json {
    match Find(members, k)
    case Some(v) => v
    case None => Null
  }

  /** Assigning `v` to what `get_and_create` returns for the path. */
  function SetAt(j: Json, path: Path, v: Json): Result<Json>
    decreases |path|, 0
  {
    if path == [] then Ok(v)
    else match j
      case Null =>
        if path[0] == ZERO then SetElem([], 0, path[1..], v) else SetMember([], path[0], path[1..], v)
      case Object(members) => SetMember(members, path[0], path[1..], v)
      case Array(elems) =>
        var i := StoI(path[0]);
        if i.None? || i.value < 0 then Throw(IndexErr) else SetElem(elems, i.value, path[1..], v)
      case _ => Throw(PointerErr)
  }

  function SetElem(elems: seq<Json>, i: nat, rest: Path, v: Json): Result<Json>
    decreases |rest|, 1
  {
    var filled := Filled(elems, i + 1);
    match SetAt(filled[i], rest, v)
    case Ok(x) => Ok(Array(filled[i := x]))
    case Throw(e) => Throw(e)
  }

  function SetMember(members: seq<Member>, k: bytes, rest: Path, v: Json): Result<Json>
    decreases |rest|, 1
  {
    match SetAt(Child(members, k), rest, v)
    case Ok(x) => Ok(Object(Put(members, k, x)))
    case Throw(e) => Throw(e)
  }

  /** `get_checked`. */
  function GetChecked(j: Json, path: Path): Result<Json>
    decreases |path|
  {
    if path == [] then Ok(j)
    else match j
      case Object(members) =>
        (match Find(members, path[0])
         case Some(v) => GetChecked(v, path[1..])
         case None => Throw(UnresolvedErr))
      case Array(elems) =>
        if path[0] == DASH then Throw(UnresolvedErr)
        else if |path[0]| > 1 && path[0][0] == 0x30 then Throw(PointerErr)
        else
          var i := StoI(path[0]);
          if i.None? then Throw(IndexErr)
          else if 0 <= i.value < |elems| then GetChecked(elems[i.value], path[1..]) else Throw(UnresolvedErr)
      case _ => Throw(UnresolvedErr)
  }

  // ----- The loops over the reference tokens -----

  /** One step of the pointer into the document: the container it points into, and where. */
  datatype Crumb = InArray(elems: seq<Json>, i: nat) | InObject(members: seq<Member>, key: bytes)

  /** The place a pointer was moved to: the steps from the root, and the value it points to. */
  datatype Place = Place(crumbs: seq<Crumb>, value: Json)

  /** The container after its element has become `v`. */
  function Within(c: Crumb, v: Json): Json {
    match c
    case InArray(elems, i) => Array(if i < |elems| then elems[i := v] else elems)
    case InObject(members, key) => Object(Put(members, key, v))
  }

  /** The whole document after assigning `v` through the pointer. */
  function Plug(crumbs: seq<Crumb>, v: Json): Json {
    if crumbs == [] then v
    else var n := |crumbs| - 1; Plug(crumbs[..n], Within(crumbs[n], v))
  }

  function Rebuilt(c: Crumb, r: Result<Json>): Result<Json> {
    match r
    case Ok(v) => Ok(Within(c, v))
    case Throw(e) => Throw(e)
  }

  function PlugResult(crumbs: seq<Crumb>, r: Result<Json>): Result<Json> {
    match r
    case Ok(v) => Ok(Plug(crumbs, v))
    case Throw(e) => Throw(e)
  }

  lemma PlugMore(crumbs: seq<Crumb>, c: Crumb, v: Json)
    ensures Plug(crumbs + [c], v) == Plug(crumbs, Within(c, v))
  {
    assert (crumbs + [c])[..|crumbs|] == crumbs;
  }

  /** One step into a container does not change what assigning through the rest of the path does. */
  lemma StepIn(node: Json, c: Crumb, child: Json, crumbs: seq<Crumb>, path: Path, v: Json)
    requires path != [] && SetAt(node, path, v) == Rebuilt(c, SetAt(child, path[1..], v))
    ensures PlugResult(crumbs, SetAt(node, path, v)) == PlugResult(crumbs + [c], SetAt(child, path[1..], v))
  {
    var r := SetAt(child, path[1..], v);
    if r.Ok? {
      PlugMore(crumbs, c, r.value);
    }
  }

  /** Assigning through the place, unless there was an exception. */
  function Assigned(place: Result<Place>, v: Json): Result<Json> {
    match place
    case Ok(p) => Ok(Plug(p.crumbs, v))
    case Throw(e) => Throw(e)
  }

  /** `get_and_create`: whatever is assigned through the place it returns, the document becomes what `SetAt` says. */
  method GetAndCreate(j: Json, path: Path) returns (r: Result<Place>)
    ensures forall v :: SetAt(j, path, v) == Assigned(r, v)
  {
    var crumbs: seq<Crumb>, node := [], j;
    assert path[0..] == path;
    for k := 0 to |path|
      invariant forall v :: SetAt(j, path, v) == PlugResult(crumbs, SetAt(node, path[k..], v))
    {
      var token := path[k];
      var crumb, child;
      assert path[k..][0] == token && path[k..][1..] == path[k + 1..];
      if node.Object? || (node.Null? && token != ZERO) {
        var members := if node.Object? then node.members else [];
        crumb, child := InObject(members, token), Child(members, token);
      } else if node.Array? || node.Null? {
        var index := if node.Array? then StoI(token) else Some(0);
        if index.None? || index.value < 0 {
          return Throw(IndexErr);
        }
        var filled := FillTo(if node.Array? then node.elems else [], index.value);
        crumb, child := InArray(filled, index.value), filled[index.value];
      } else {
        return Throw(PointerErr);
      }
      forall v ensures SetAt(j, path, v) == PlugResult(crumbs + [crumb], SetAt(child, path[k + 1..], v)) {
        StepIn(node, crumb, child, crumbs, path[k..], v);
      }
      crumbs, node := crumbs + [crumb], child;
    }
    assert path[|path|..] == [];
    r := Ok(Place(crumbs, node));
  }

  method Lookup(j: Json, path: Path) returns (r: Result<Json>)
    ensures r == GetChecked(j, path)
  {
    var node := j;
    assert path[0..] == path;
    for k := 0 to |path|
      invariant GetChecked(node, path[k..]) == GetChecked(j, path)
    {
      var token := path[k];
      assert path[k..][0] == token && path[k..][1..] == path[k + 1..];
      match node {
        case Object(members) =>
          var found := Find(members, token);
          if found.None? { return Throw(UnresolvedErr); }
          node := found.value;
        case Array(elems) =>
          if token == DASH { return Throw(UnresolvedErr); }
          if |token| > 1 && token[0] == 0x30 { return Throw(PointerErr); }
          var index := StoI(token);
          if index.None? { return Throw(IndexErr); }
          if !(0 <= index.value < |elems|) { return Throw(UnresolvedErr); }
          node := elems[index.value];
        case _ =>
          return Throw(UnresolvedErr);
      }
    }
    assert path[|path|..] == [];
    r := Ok(node);
  }

  // ----- Set, then get -----

  /** No array on the way is given an index of several characters that starts with "0". */
  ghost predicate NoLeadingZero(j: Json, path: Path)
    decreases |path|
  {
    path != [] ==>
      match j
      case Object(members) => NoLeadingZero(Child(members, path[0]), path[1..])
      case Array(elems) =>
        && !(|path[0]| > 1 && path[0][0] == 0x30)
        && var i := StoI(path[0]);
           NoLeadingZero(if i.Some? && 0 <= i.value < |elems| then elems[i.value] else Null, path[1..])
      case _ => NoLeadingZero(Null, path[1..])
  }

  lemma DashIsNoIndex()
    ensures StoI(DASH) == None
  {
    assert SkipSpaces(DASH) == DASH;
    assert DASH[1..] == [];
  }

  /** What was assigned is found again, exactly when no array index is written with a leading zero. */
  lemma {:induction false} SetThenGet(j: Json, path: Path, v: Json)
    requires SetAt(j, path, v).Ok?
    ensures GetChecked(SetAt(j, path, v).value, path) == Ok(v) <==> NoLeadingZero(j, path)
    decreases |path|
  {
    if path == [] {
    } else {
      var t, rest := path[0], path[1..];
      match j {
        case Object(members) =>
          SetThenGet(Child(members, t), rest, v);
          PutFind(members, t, SetAt(Child(members, t), rest, v).value, t);
        case Array(elems) =>
          DashIsNoIndex();
          var i := StoI(t).value;
          SetThenGet(Filled(elems, i + 1)[i], rest, v);
        case Null =>
          SetThenGet(Null, rest, v);
          if t == ZERO {
            ZeroIndex();
          } else {
            PutFind([], t, SetAt(Null, rest, v).value, t);
          }
      }
    }
  }

  lemma ZeroIndex()
    ensures StoI(ZERO) == Some(0)
  {
    IndexOfDecimal(0);
  }

  /** The index `std::to_string` prints is the index `std::stoi` reads, as far as it is an `int`. */
  lemma IndexOfDecimal(i: nat)
    ensures StoI(Decimal(i)) == if i <= 2147483647 then Some(i) else None
  {
    DecimalValue(i);
    var t := Decimal(i);
    assert SkipSpaces(t) == t && t[0..] == t;
    DigitsThen(t, []);
    assert t + [] == t && t[..|t|] == t;
  }

  /** Assigning to [null] through "/00" works, and looking the same pointer up is an error. */
  lemma LeadingZeroLost(v: Json)
    ensures var path := [[0x30, 0x30]];
      && SetAt(Array([Null]), path, v) == Ok(Array([v])) && GetChecked(Array([v]), path) == Throw(PointerErr)
      && !NoLeadingZero(Array([Null]), path)
  {
    var t: bytes := [0x30, 0x30];
    var path := [t];
    DoubleZero();
    assert path[1..] == [];
    assert SetAt(Null, [], v) == Ok(v);
    assert Filled([Null], 1) == [Null] && [Null][0 := v] == [v];
    assert SetElem([Null], 0, [], v) == Ok(Array([v]));
  }

  lemma DoubleZero()
    ensures StoI([0x30, 0x30]) == Some(0)
  {
    var t: bytes := [0x30, 0x30];
    assert SkipSpaces(t) == t && t[0..] == t && t[..2] == t;
    DigitsThen(t, []);
    assert t + [] == t;
    assert t[..1] == [0x30] && t[..1][..0] == [];
    assert Value(t[..1]) == 0;
  }

  /** Every array index on the path is a canonical decimal number. */
  ghost predicate Canonical(j: Json, path: Path)
    decreases |path|
  {
    path != [] ==>
      match j
      case Object(members) => Canonical(Child(members, path[0]), path[1..])
      case Array(elems) =>
        && IsInt(path[0])
        && var i := Value(path[0]); Canonical(if i < |elems| then elems[i] else Null, path[1..])
      case _ => Canonical(Null, path[1..])
  }

  /** A canonical number is the decimal form of its value. */
  lemma {:induction false} CanonicalDecimal(t: bytes)
    requires IsInt(t)
    ensures Decimal(Value(t)) == t
  {
    var n := |t| - 1;
    if n > 0 {
      assert IsInt(t[..n]);
      CanonicalDecimal(t[..n]);
      Positive(t[..n]);
      assert t == t[..n] + [t[n]];
    } else {
      assert t[..0] == [];
      assert t == [t[0]];
    }
  }

  lemma {:induction false} Positive(t: bytes)
    requires IsInt(t) && t[0] != 0x30
    ensures Value(t) > 0
  {
    if |t| > 1 {
      assert IsInt(t[..|t| - 1]);
      Positive(t[..|t| - 1]);
    } else {
      assert t[..0] == [];
    }
  }

  lemma CanonicalIndex(t: bytes)
    requires IsInt(t)
    ensures StoI(t) == if Value(t) <= INT_MAX then Some(Value(t)) else None
    ensures t != DASH && !(|t| > 1 && t[0] == 0x30)
  {
    CanonicalDecimal(t);
    IndexOfDecimal(Value(t));
    assert IsDigit(t[0]);
  }

  predicate IsPrefix(p: Path, q: Path) { p <= q }

  /** Every pointer that resolved before and is neither a prefix nor an extension of the assigned one resolves to the same value. */
  lemma {:induction false} SetKeepsOthers(j: Json, path: Path, v: Json, other: Path, x: Json)
    requires SetAt(j, path, v).Ok? && GetChecked(j, other) == Ok(x)
    requires Canonical(j, path) && Canonical(j, other)
    requires !IsPrefix(path, other) && !IsPrefix(other, path)
    ensures GetChecked(SetAt(j, path, v).value, other) == Ok(x)
    decreases |path|
  {
    if path[0] == other[0] {
      TailsDiverge(path, other);
      if j.Array? {
        CanonicalIndex(path[0]);
        SetKeepsOthers(j.elems[Value(path[0])], path[1..], v, other[1..], x);
      } else {
        SetKeepsOthers(Child(j.members, path[0]), path[1..], v, other[1..], x);
        PutFind(j.members, path[0], SetAt(Child(j.members, path[0]), path[1..], v).value, path[0]);
      }
    } else {
      OtherHead(j, path, v, other);
    }
  }

  lemma OtherHead(j: Json, path: Path, v: Json, other: Path)
    requires path != [] && other != [] && path[0] != other[0]
    requires SetAt(j, path, v).Ok? && GetChecked(j, other).Ok?
    requires Canonical(j, path) && Canonical(j, other)
    ensures GetChecked(SetAt(j, path, v).value, other) == GetChecked(j, other)
  {
    if j.Array? {
      CanonicalIndex(path[0]);
      CanonicalIndex(other[0]);
      OtherElem(j.elems, path[0], path[1..], v, other[0]);
    } else {
      OtherMember(j.members, path[0], path[1..], v, other[0]);
    }
  }

  lemma TailsDiverge(path: Path, other: Path)
    requires path != [] && other != [] && path[0] == other[0]
    requires !IsPrefix(path, other) && !IsPrefix(other, path)
    ensures !IsPrefix(path[1..], other[1..]) && !IsPrefix(other[1..], path[1..])
  {
    assert path == [path[0]] + path[1..] && other == [other[0]] + other[1..];
  }

  lemma OtherMember(members: seq<Member>, k: bytes, rest: Path, v: Json, other: bytes)
    requires SetMember(members, k, rest, v).Ok? && other != k
    ensures Find(SetMember(members, k, rest, v).value.members, other) == Find(members, other)
  {
    PutFind(members, k, SetAt(Child(members, k), rest, v).value, other);
  }

  lemma OtherElem(elems: seq<Json>, t: bytes, rest: Path, v: Json, u: bytes)
    requires IsInt(t) && IsInt(u) && t != u && Value(t) <= INT_MAX && Value(u) < |elems|
    requires SetElem(elems, Value(t), rest, v).Ok?
    ensures var r := SetElem(elems, Value(t), rest, v).value; Value(u) < |r.elems| && r.elems[Value(u)] == elems[Value(u)]
  {
    CanonicalDecimal(t);
    CanonicalDecimal(u);
  }
}
