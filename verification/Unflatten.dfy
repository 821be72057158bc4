/**
 `unflatten` (include/json.h:9388-9419, 9463-9492): the entries of a flat object are
 assigned one after the other, in key order, through `get_and_create`. The
 documentation promises `j == j.flatten().unflatten()` for every value without empty
 containers; here is when it holds.
 */
module Unflatten {
  import opened Bytes
  import opened Values
  import opened Lexemes
  import opened NumberGrammar
  import opened Numbers
  import opened Access
  import opened Ordering
  import opened Flatten
  import opened Resolution
  import P = Pointer

  // ----- The function and its loop -----

  /** The value after assigning all entries to `node`. */
  function Replay(node: Json, ms: seq<Member>): Result<Json>
    decreases ms
  {
    if ms == [] then Ok(node)
    else if !IsPrimitive(ms[0].value) then Throw(PointerErr)
    else match P.Split(ms[0].key)
      case Throw(e) => Throw(e)
      case Ok(path) =>
        match SetAt(node, path, ms[0].value)
        case Ok(next) => Replay(next, ms[1..])
        case Throw(e) => Throw(e)
  }

  function Unflattened(j: Json): Result<Json> {
    if j.Object? then Replay(Null, j.members) else Throw(PointerErr)
  }

  method UnflattenValue(j: Json) returns (r: Result<Json>)
    ensures r == Unflattened(j)
  {
    if !j.Object? { return Throw(PointerErr); }
    var result := Null;
    assert j.members[0..] == j.members;
    for i := 0 to |j.members|
      invariant Replay(result, j.members[i..]) == Unflattened(j)
    {
      var element := j.members[i];
      assert j.members[i..][0] == element && j.members[i..][1..] == j.members[i + 1..];
      if !IsPrimitive(element.value) { return Throw(PointerErr); }
      var path := P.SplitPointer(element.key);
      if path.Throw? { return Throw(path.error); }
      var place := GetAndCreate(result, path.value);
      assert SetAt(result, path.value, element.value) == Assigned(place, element.value);
      if place.Throw? { return Throw(place.error); }
      result := Plug(place.value.crumbs, element.value);
    }
    assert j.members[|j.members|..] == [];
    r := Ok(result);
  }

  // ----- When it throws -----

  /** The entry cannot be assigned to `node`: it is not primitive, its key is no pointer, or the assignment is blocked. */
  ghost predicate EntryRefused(node: Json, m: Member, e: Error) {
    if m.value.Array? || m.value.Object? || !P.IsPointer(m.key) then e == PointerErr
    else exists tokens :: P.Join(tokens) == m.key && Blocked(node, tokens, e)
  }

  lemma RefusedExactly(node: Json, m: Member, e: Error)
    requires Valid(node)
    ensures Replay(node, [m]) == Throw(e) <==> EntryRefused(node, m, e)
  {
    P.SplitAccepts(m.key);
    assert [m][1..] == [];
    if IsPrimitive(m.value) && P.Split(m.key).Ok? {
      var path := P.Split(m.key).value;
      P.JoinSplit(m.key);
      AssignExactly(node, path, m.value);
      forall tokens | P.Join(tokens) == m.key ensures tokens == path {
        P.SplitJoin(tokens);
      }
    }
  }

  /** Assigning in a valid value keeps it valid. */
  lemma {:induction false} SetValid(j: Json, path: Path, v: Json)
    requires Valid(j) && Valid(v) && SetAt(j, path, v).Ok?
    ensures Valid(SetAt(j, path, v).value)
    decreases |path|, 0
  {
    if path == [] {
    } else {
      match j {
        case Object(members) => SetMemberValid(members, path[0], path[1..], v);
        case Array(elems) => SetElemValid(elems, StoI(path[0]).value, path[1..], v);
        case Null =>
          if path[0] == ZERO {
            SetElemValid([], 0, path[1..], v);
          } else {
            SetMemberValid([], path[0], path[1..], v);
          }
      }
    }
  }

  lemma {:induction false} SetElemValid(elems: seq<Json>, i: nat, rest: Path, v: Json)
    requires Valid(Array(elems)) && Valid(v) && SetElem(elems, i, rest, v).Ok?
    ensures Valid(SetElem(elems, i, rest, v).value)
    decreases |rest|, 1
  {
    SetValid(Filled(elems, i + 1)[i], rest, v);
  }

  lemma {:induction false} SetMemberValid(members: seq<Member>, k: bytes, rest: Path, v: Json)
    requires Valid(Object(members)) && Valid(v) && SetMember(members, k, rest, v).Ok?
    ensures Valid(SetMember(members, k, rest, v).value)
    decreases |rest|, 1
  {
    FindIn(members, k);
    SetValid(Child(members, k), rest, v);
    var x := SetAt(Child(members, k), rest, v).value;
    PutSorted(members, k, x);
    PutFlatEntries(members, k, x);
    forall i | 0 <= i < |Put(members, k, x)| ensures Valid(Put(members, k, x)[i].value) {
      assert Put(members, k, x)[i] in Put(members, k, x);
    }
  }

  /** The exception of the first entry that is refused by what the entries in front of it have built. */
  ghost predicate FirstRefused(node: Json, ms: seq<Member>, e: Error)
    decreases ms
  {
    ms != [] && (EntryRefused(node, ms[0], e)
                 || (Replay(node, [ms[0]]).Ok? && FirstRefused(Replay(node, [ms[0]]).value, ms[1..], e)))
  }

  lemma {:induction false} ReplayThrows(node: Json, ms: seq<Member>, e: Error)
    requires Valid(node) && forall m :: m in ms ==> Valid(m.value)
    ensures Replay(node, ms) == Throw(e) <==> FirstRefused(node, ms, e)
    decreases ms
  {
    if ms == [] {
    } else {
      var m := ms[0];
      assert m in ms && forall x :: x in ms[1..] ==> x in ms;
      assert [m][1..] == [];
      RefusedExactly(node, m, e);
      var one := Replay(node, [m]);
      if one.Ok? {
        SetValid(node, P.Split(m.key).value, m.value);
        assert Replay(one.value, []) == one;
        ReplayThrows(one.value, ms[1..], e);
      }
    }
  }

  /** `unflatten` throws for a value that is no object, and otherwise what the first refused entry does. */
  lemma UnflattenThrows(j: Json, e: Error)
    requires Valid(j)
    ensures Unflattened(j) == Throw(e) <==> if j.Object? then FirstRefused(Null, j.members, e) else e == PointerErr
  {
    if j.Object? {
      ReplayThrows(Null, j.members, e);
    }
  }

  // ----- Entries by path -----

  datatype Entry = Entry(path: Path, value: Json)

  function Entries(ms: seq<Member>): seq<Entry>
    requires forall m :: m in ms ==> P.Split(m.key).Ok?
  {
    if ms == [] then []
    else
      assert ms[0] in ms && forall m :: m in ms[1..] ==> m in ms;
      [Entry(P.Split(ms[0].key).value, ms[0].value)] + Entries(ms[1..])
  }

  /** Assigning the entries one after the other. */
  function Apply(node: Json, es: seq<Entry>): Result<Json>
    decreases es
  {
    if es == [] then Ok(node)
    else match SetAt(node, es[0].path, es[0].value)
      case Ok(next) => Apply(next, es[1..])
      case Throw(e) => Throw(e)
  }

  lemma {:induction false} ReplayApplies(node: Json, ms: seq<Member>)
    requires forall m :: m in ms ==> P.Split(m.key).Ok? && IsPrimitive(m.value)
    ensures Replay(node, ms) == Apply(node, Entries(ms))
    decreases ms
  {
    if ms == [] {
    } else {
      assert ms[0] in ms && forall m :: m in ms[1..] ==> m in ms;
      var next := SetAt(node, P.Split(ms[0].key).value, ms[0].value);
      assert Entries(ms)[1..] == Entries(ms[1..]);
      if next.Ok? {
        ReplayApplies(next.value, ms[1..]);
      }
    }
  }

  function Get(es: seq<Entry>, p: Path): Option<Json> {
    if es == [] then None else if es[0].path == p then Some(es[0].value) else Get(es[1..], p)
  }

  lemma {:induction false} EntriesGet(ms: seq<Member>, p: Path)
    requires forall m :: m in ms ==> P.Split(m.key).Ok?
    ensures Get(Entries(ms), p) == Find(ms, P.Join(p))
  {
    if ms == [] {
    } else {
      assert ms[0] in ms && forall m :: m in ms[1..] ==> m in ms;
      P.JoinSplit(ms[0].key);
      JoinInjective(P.Split(ms[0].key).value, p);
      assert Entries(ms)[1..] == Entries(ms[1..]);
      EntriesGet(ms[1..], p);
    }
  }

  lemma {:induction false} GetIn(es: seq<Entry>, p: Path)
    ensures Get(es, p).Some? ==> Entry(p, Get(es, p).value) in es
    ensures forall e :: e in es && e.path == p ==> Get(es, p).Some?
  {
    if es == [] {
    } else {
      GetIn(es[1..], p);
      assert forall e :: e in es <==> e == es[0] || e in es[1..];
    }
  }

  /** The entries stand in the order of their pointers. */
  ghost predicate Ascending(es: seq<Entry>) {
    es != [] ==> (forall e :: e in es[1..] ==> Less(P.Join(es[0].path), P.Join(e.path))) && Ascending(es[1..])
  }

  lemma {:induction false} EntriesAscending(ms: seq<Member>)
    requires IsFlat(ms)
    ensures Ascending(Entries(ms))
    ensures forall e :: e in Entries(ms) ==> Member(P.Join(e.path), e.value) in ms
  {
    if ms == [] {
    } else {
      assert ms[0] in ms && forall m :: m in ms[1..] ==> m in ms;
      EntriesAscending(ms[1..]);
      P.JoinSplit(ms[0].key);
      assert Entries(ms)[1..] == Entries(ms[1..]);
      forall e | e in Entries(ms[1..]) ensures Less(ms[0].key, P.Join(e.path)) {
        var i :| 0 <= i < |ms[1..]| && ms[1..][i] == Member(P.Join(e.path), e.value);
        assert ms[i + 1].key == P.Join(e.path);
      }
    }
  }

  /** The entries are the leaves of `j`, in order. */
  ghost predicate Spans(es: seq<Entry>, j: Json) {
    Ascending(es) && forall p :: Get(es, p) == LeafAt(j, p)
  }

  // ----- The entries below one reference token -----

  function Under(es: seq<Entry>, k: bytes): seq<Entry> {
    if es == [] then []
    else if es[0].path != [] && es[0].path[0] == k then [Entry(es[0].path[1..], es[0].value)] + Under(es[1..], k)
    else Under(es[1..], k)
  }

  lemma {:induction false} UnderGet(es: seq<Entry>, k: bytes, p: Path)
    ensures Get(Under(es, k), p) == Get(es, [k] + p)
  {
    if es == [] {
    } else {
      UnderGet(es[1..], k, p);
      var q := es[0].path;
      if q != [] && q[0] == k {
        assert q == [k] + q[1..];
        assert Under(es, k)[1..] == Under(es[1..], k);
        assert q == [k] + p <==> q[1..] == p by { assert ([k] + p)[1..] == p; }
      }
    }
  }

  lemma JoinCons(k: bytes, p: Path)
    ensures P.Join([k] + p) == [P.SLASH] + P.Encoded(k) + P.Join(p)
  {
    assert ([k] + p)[1..] == p;
  }

  /** Pointers through the same token are ordered as what follows it. */
  lemma LessBelow(k: bytes, p: Path, q: Path)
    ensures Less(P.Join([k] + p), P.Join([k] + q)) <==> Less(P.Join(p), P.Join(q))
  {
    JoinCons(k, p);
    JoinCons(k, q);
    LessCommonPrefix([P.SLASH] + P.Encoded(k), P.Join(p), P.Join(q));
  }

  lemma {:induction false} UnderAscending(es: seq<Entry>, k: bytes)
    requires Ascending(es)
    ensures Ascending(Under(es, k))
    ensures forall e :: e in Under(es, k) ==> Entry([k] + e.path, e.value) in es
  {
    if es == [] {
    } else {
      UnderAscending(es[1..], k);
      assert forall e :: e in es <==> e == es[0] || e in es[1..];
      var q := es[0].path;
      if q != [] && q[0] == k {
        assert q == [k] + q[1..];
        assert Under(es, k)[1..] == Under(es[1..], k);
        forall e | e in Under(es[1..], k) ensures Less(P.Join(q[1..]), P.Join(e.path)) {
          assert Entry([k] + e.path, e.value) in es[1..];
          LessBelow(k, q[1..], e.path);
        }
      }
    }
  }

  /** The entries below the token of a child are the leaves of the child. */
  lemma UnderSpans(es: seq<Entry>, j: Json, k: bytes, child: Json)
    requires Spans(es, j) && Step(j, k) == Some(child)
    ensures Spans(Under(es, k), child)
  {
    UnderAscending(es, k);
    forall p ensures Get(Under(es, k), p) == LeafAt(child, p) {
      UnderGet(es, k, p);
      assert ([k] + p)[1..] == p;
      assert LeafAt(j, [k] + p) == LeafAt(child, p);
    }
  }

  /** Below a token that leads nowhere there is nothing. */
  lemma UnderNothing(es: seq<Entry>, j: Json, k: bytes)
    requires Spans(es, j) && !IsLeaf(j) && Step(j, k) == None
    ensures Under(es, k) == []
  {
    assert forall p :: LeafAt(j, [k] + p) == None;
    assert Under(es, k) != [] ==> Get(Under(es, k), Under(es, k)[0].path).Some?;
    forall p ensures Get(Under(es, k), p) == None {
      UnderGet(es, k, p);
    }
  }

  lemma UnderSomething(es: seq<Entry>, j: Json, k: bytes, p: Path)
    requires Spans(es, j) && p != [] && p[0] == k && LeafAt(j, p).Some?
    ensures Under(es, k) != []
  {
    UnderGet(es, k, p[1..]);
    assert p == [k] + p[1..];
    assert Get(es, p) == LeafAt(j, p);
  }

  /** Every entry of a container with content leads through one of its children. */
  lemma HeadsLead(es: seq<Entry>, j: Json)
    requires Spans(es, j) && !IsLeaf(j)
    ensures forall e :: e in es ==> e.path != [] && Step(j, e.path[0]).Some?
  {
    forall e | e in es ensures e.path != [] && Step(j, e.path[0]).Some? {
      GetIn(es, e.path);
      assert Get(es, e.path) == LeafAt(j, e.path);
    }
  }

  // ----- Assigning into an object, child by child -----

  /** The child of `k` ends up as what its own entries make of it. */
  lemma {:induction false} ObjectReplay(ms: seq<Member>, es: seq<Entry>, k: bytes)
    requires forall e :: e in es ==> e.path != []
    requires Apply(Object(ms), es).Ok?
    ensures var r := Apply(Object(ms), es).value;
      && r.Object? && Apply(Child(ms, k), Under(es, k)) == Ok(Child(r.members, k))
      && (Find(r.members, k).Some? <==> Find(ms, k).Some? || Under(es, k) != [])
    decreases es
  {
    if es == [] {
    } else {
      assert es[0] in es && forall e :: e in es[1..] ==> e in es;
      var t, rest := es[0].path[0], es[0].path[1..];
      assert SetAt(Object(ms), es[0].path, es[0].value) == SetMember(ms, t, rest, es[0].value);
      var x := SetAt(Child(ms, t), rest, es[0].value).value;
      ObjectReplay(Put(ms, t, x), es[1..], k);
      PutFind(ms, t, x, k);
      assert t == k ==> Under(es, k)[1..] == Under(es[1..], k);
    }
  }

  lemma {:induction false} ObjectSorted(ms: seq<Member>, es: seq<Entry>)
    requires Sorted(ms) && forall e :: e in es ==> e.path != []
    requires Apply(Object(ms), es).Ok?
    ensures Apply(Object(ms), es).value.Object? && Sorted(Apply(Object(ms), es).value.members)
    decreases es
  {
    if es == [] {
    } else {
      assert es[0] in es && forall e :: e in es[1..] ==> e in es;
      var t := es[0].path[0];
      assert SetAt(Object(ms), es[0].path, es[0].value) == SetMember(ms, t, es[0].path[1..], es[0].value);
      var x := SetAt(Child(ms, t), es[0].path[1..], es[0].value).value;
      PutSorted(ms, t, x);
      ObjectSorted(Put(ms, t, x), es[1..]);
    }
  }

  /** An exception comes from the entries of one child. */
  lemma {:induction false} ObjectStuck(ms: seq<Member>, es: seq<Entry>) returns (k: bytes)
    requires forall e :: e in es ==> e.path != []
    requires Apply(Object(ms), es).Throw?
    ensures Apply(Child(ms, k), Under(es, k)).Throw?
    decreases es
  {
    assert es[0] in es && forall e :: e in es[1..] ==> e in es;
    var t, rest := es[0].path[0], es[0].path[1..];
    var r := SetAt(Child(ms, t), rest, es[0].value);
    assert SetAt(Object(ms), es[0].path, es[0].value) == SetMember(ms, t, rest, es[0].value);
    if r.Throw? {
      k := t;
    } else {
      k := ObjectStuck(Put(ms, t, r.value), es[1..]);
      PutFind(ms, t, r.value, k);
      assert t == k ==> Under(es, k)[1..] == Under(es[1..], k);
    }
  }

  // ----- Assigning into an array, element by element -----

  function ElemAt(elems: seq<Json>, i: nat): Json {
    if i < |elems| then elems[i] else Null
  }

  ghost predicate Indexed(es: seq<Entry>) {
    forall e :: e in es ==> e.path != [] && IsInt(e.path[0])
  }

  /** Some entry leads to element `i` or one behind it. */
  ghost predicate Reaches(es: seq<Entry>, i: nat)
    requires Indexed(es)
  {
    exists e :: e in es && Value(e.path[0]) >= i
  }

  lemma ReachesTail(es: seq<Entry>, i: nat)
    requires es != [] && Indexed(es)
    ensures Indexed(es[1..]) && es[0] in es
    ensures Reaches(es, i) <==> Value(es[0].path[0]) >= i || Reaches(es[1..], i)
  {
    assert forall e :: e in es <==> e == es[0] || e in es[1..];
    assert es[0] in es;
  }

  /** The assignment of one entry, by canonical index. */
  lemma SetIndexed(elems: seq<Json>, path: Path, v: Json, i: nat)
    requires path != [] && IsInt(path[0])
    ensures var n := Value(path[0]); var child := SetAt(ElemAt(elems, n), path[1..], v); var r := SetAt(Array(elems), path, v);
      && (r.Ok? <==> n <= INT_MAX && child.Ok?)
      && (r.Ok? ==> r.value.Array? && ElemAt(r.value.elems, i) == (if i == n then child.value else ElemAt(elems, i))
                    && (i < |r.value.elems| <==> i < |elems| || i <= n))
  {
    CanonicalIndex(path[0]);
  }

  lemma {:induction false} ArrayReplay(elems: seq<Json>, es: seq<Entry>, i: nat)
    requires Indexed(es) && Apply(Array(elems), es).Ok?
    ensures !Reaches(es, INT_MAX + 1)
    ensures var r := Apply(Array(elems), es).value;
      && r.Array? && Apply(ElemAt(elems, i), Under(es, Decimal(i))) == Ok(ElemAt(r.elems, i))
      && (i < |r.elems| <==> i < |elems| || Reaches(es, i))
    decreases es
  {
    if es == [] {
    } else {
      ReachesTail(es, i);
      ReachesTail(es, INT_MAX + 1);
      var t := es[0].path[0];
      SetIndexed(elems, es[0].path, es[0].value, i);
      IsIndex(t, i);
      ArrayReplay(SetAt(Array(elems), es[0].path, es[0].value).value.elems, es[1..], i);
      assert t == Decimal(i) ==> Under(es, Decimal(i))[1..] == Under(es[1..], Decimal(i));
    }
  }

  /** An exception comes from an index that is no `int`, or from the entries of one element. */
  lemma {:induction false} ArrayStuck(elems: seq<Json>, es: seq<Entry>) returns (i: nat)
    requires Indexed(es) && Apply(Array(elems), es).Throw?
    ensures Reaches(es, INT_MAX + 1) || Apply(ElemAt(elems, i), Under(es, Decimal(i))).Throw?
    decreases es
  {
    var path, v := es[0].path, es[0].value;
    ReachesTail(es, INT_MAX + 1);
    i := Value(path[0]);
    SetIndexed(elems, path, v, i);
    IsIndex(path[0], i);
    var r := SetAt(Array(elems), path, v);
    if r.Ok? {
      var n := i;
      i := ArrayStuck(r.value.elems, es[1..]);
      SetIndexed(elems, path, v, i);
      IsIndex(path[0], i);
      assert i == n ==> Under(es, Decimal(i))[1..] == Under(es[1..], Decimal(i));
    }
  }

  /** What has become an array stays one. */
  lemma {:induction false} ArrayStays(elems: seq<Json>, es: seq<Entry>)
    requires forall e :: e in es ==> e.path != []
    ensures Apply(Array(elems), es).Ok? ==> Apply(Array(elems), es).value.Array?
    decreases es
  {
    if es == [] {
    } else {
      assert es[0] in es && forall e :: e in es[1..] ==> e in es;
      var r := SetAt(Array(elems), es[0].path, es[0].value);
      var i := StoI(es[0].path[0]);
      if i.Some? && i.value >= 0 {
        assert r == SetElem(elems, i.value, es[0].path[1..], es[0].value);
      }
      if r.Ok? {
        ArrayStays(r.value.elems, es[1..]);
      }
    }
  }

  /** The first entry decides whether the null value becomes an array or an object. */
  lemma FirstDecides(es: seq<Entry>)
    requires es != [] && es[0].path != []
    ensures Apply(Null, es) == Apply(if es[0].path[0] == ZERO then Array([]) else Object([]), es)
  {
    ZeroIndex();
  }

  // ----- Which values are restored -----

  /** The pointers through key `k` come before those through key "0". `leaf` says that "0" leads to a leaf. */
  predicate Precedes(k: bytes, leaf: bool) {
    k == [] || k[0] < P.SLASH || (!leaf && |k| > 1 && k[0] == 0x30 && k[1] < P.SLASH)
  }

  /** There is a key "0", and no other key comes before it in the flat object. */
  predicate ZeroFirst(members: seq<Member>) {
    var zero := Find(members, ZERO);
    zero.Some? && forall i :: 0 <= i < |members| && members[i].key != ZERO ==> !Precedes(members[i].key, IsLeaf(zero.value))
  }

  /**
   No empty container, no array that `std::stoi` cannot index, and no object whose
   flat form starts with key "0".
   */
  predicate Restorable(j: Json) {
    match j
    case Array(elems) => elems != [] && |elems| <= INT_MAX + 1 && forall k :: 0 <= k < |elems| ==> Restorable(elems[k])
    case Object(members) =>
      members != [] && !ZeroFirst(members) && forall k :: 0 <= k < |members| ==> Restorable(members[k].value)
    case _ => true
  }

  predicate Slashy(r: bytes) { r == [] || r[0] == P.SLASH }

  lemma ZeroOrder(k: bytes, rk: bytes, r0: bytes)
    requires k != ZERO && Slashy(rk) && Slashy(r0)
    ensures Less(P.Encoded(k) + rk, ZERO + r0) <==> Precedes(k, r0 == [])
  {
    var a, b := P.Encoded(k) + rk, ZERO + r0;
    assert b[1..] == r0;
    if k == [] {
      assert a == rk;
    } else {
      EncodedFirst(k, rk);
      if k[0] == 0x30 {
        assert k == [0x30] + k[1..];
        EncodedFirst(k[1..], rk);
      }
    }
  }

  /** The first byte of an encoded key. */
  lemma EncodedFirst(k: bytes, rk: bytes)
    requires k != []
    ensures var a := P.Encoded(k) + rk;
      && a != [] && a[0] == (if k[0] == P.TILDE || k[0] == P.SLASH then P.TILDE else k[0])
      && (k[0] != P.TILDE && k[0] != P.SLASH ==> a[1..] == P.Encoded(k[1..]) + rk)
  {
    assert P.Encoded(k) == P.EncodedByte(k[0]) + P.Encoded(k[1..]);
  }

  lemma PathAfter(p: Path)
    requires p != []
    ensures P.Join(p) == [P.SLASH] + (P.Encoded(p[0]) + P.Join(p[1..])) && Slashy(P.Join(p[1..]))
    ensures P.Join(p[1..]) == [] <==> |p| == 1
  {
  }

  lemma PathOrder(p: Path, z: Path)
    requires p != [] && z != [] && p[0] != ZERO && z[0] == ZERO
    ensures Less(P.Join(p), P.Join(z)) <==> Precedes(p[0], |z| == 1)
  {
    PathAfter(p);
    PathAfter(z);
    ZeroPlain();
    ZeroOrder(p[0], P.Join(p[1..]), P.Join(z[1..]));
    LessCommonPrefix([P.SLASH], P.Encoded(p[0]) + P.Join(p[1..]), ZERO + P.Join(z[1..]));
  }

  lemma ZeroPlain()
    ensures P.Encoded(ZERO) == ZERO
  {
    DigitsPlain(ZERO);
  }

  /** The first entry is not greater than any other. */
  lemma FirstIsLeast(es: seq<Entry>, p: Path)
    requires Ascending(es) && Get(es, p).Some? && es[0].path != p
    ensures Less(P.Join(es[0].path), P.Join(p)) && !Less(P.Join(p), P.Join(es[0].path))
  {
    GetIn(es, p);
    var e := Entry(p, Get(es, p).value);
    assert e in es[1..];
    LessTrichotomy(P.Join(es[0].path), P.Join(p));
  }

  /** Index 0 comes first in every array. */
  lemma ArrayZeroFirst(es: seq<Entry>, j: Json)
    requires Valid(j) && j.Array? && !IsLeaf(j) && Spans(es, j)
    ensures es != [] && es[0].path != [] && es[0].path[0] == ZERO
  {
    var z := ThroughElem(j, 0);
    assert Get(es, z) == LeafAt(j, z);
    HeadsLead(es, j);
    var p := es[0].path;
    assert es[0] in es;
    if p[0] != ZERO {
      FirstIsLeast(es, z);
      assert IsInt(p[0]) && p[0][0] >= 0x30 && |p[0]| > 1 ==> p[0][0] > 0x30;
      assert !Precedes(p[0], |z| == 1) by { assert IsDigit(p[0][0]); }
      PathOrder(p, z);
    }
  }

  /** The first entry of an object leads through key "0" exactly when that key comes first. */
  lemma ObjectZeroFirst(es: seq<Entry>, j: Json)
    requires Valid(j) && j.Object? && !IsLeaf(j) && Spans(es, j)
    ensures es != [] && es[0].path != [] && (es[0].path[0] == ZERO <==> ZeroFirst(j.members))
  {
    var some := ThroughMember(j, 0);
    assert Get(es, some) == LeafAt(j, some);
    HeadsLead(es, j);
    var p := es[0].path;
    assert es[0] in es;
    FindIn(j.members, ZERO);
    if Find(j.members, ZERO).Some? {
      var i :| 0 <= i < |j.members| && j.members[i].key == ZERO;
      FindAt(j.members, i);
      if p[0] == ZERO {
        GetIn(es, p);
        assert LeafAt(j, p) == Get(es, p);
        ZeroPathLength(j.members[i].value, p[1..]);
        forall k | 0 <= k < |j.members| && j.members[k].key != ZERO
          ensures !Precedes(j.members[k].key, IsLeaf(j.members[i].value))
        {
          var q := ThroughMember(j, k);
          assert Get(es, q) == LeafAt(j, q);
          FirstIsLeast(es, q);
          PathOrder(q, p);
        }
      } else {
        var z := ThroughMember(j, i);
        assert Get(es, z) == LeafAt(j, z);
        ZeroPathLength(j.members[i].value, z[1..]);
        FirstIsLeast(es, z);
        PathOrder(p, z);
        FindIn(j.members, p[0]);
        var k :| 0 <= k < |j.members| && j.members[k].key == p[0];
        assert Precedes(j.members[k].key, IsLeaf(j.members[i].value));
      }
    }
  }

  lemma ZeroPathLength(c: Json, p: Path)
    requires LeafAt(c, p).Some?
    ensures IsLeaf(c) <==> p == []
  {
  }

  // ----- The theorem -----

  /** A leaf has one entry. */
  lemma LeafEntries(es: seq<Entry>, j: Json)
    requires IsLeaf(j) && Spans(es, j)
    ensures es == [Entry([], Shown(j))]
  {
    assert Get(es, []) == LeafAt(j, []);
    LessIrreflexive(P.Join([]));
    assert |es| > 1 ==> es[1] in es[1..] && es[1] in es;
    forall e | e in es ensures e.path == [] {
      GetIn(es, e.path);
      assert Get(es, e.path) == LeafAt(j, e.path);
      ZeroPathLength(j, e.path);
    }
    assert es[0] in es;
  }

  lemma LeafApplied(es: seq<Entry>, j: Json)
    requires IsLeaf(j) && Spans(es, j)
    ensures Apply(Null, es) == Ok(Shown(j))
  {
    LeafEntries(es, j);
    assert es[1..] == [];
    assert Apply(Shown(j), []) == Ok(Shown(j));
    assert SetAt(Null, [], Shown(j)) == Ok(Shown(j));
  }

  /** Assigning the leaves of a value to a null value gives the value back, exactly when it is restorable. */
  lemma {:induction false} Restores(es: seq<Entry>, j: Json)
    requires Valid(j) && Spans(es, j)
    ensures Apply(Null, es) == Ok(j) <==> Restorable(j)
    decreases j, 1
  {
    if IsLeaf(j) {
      LeafApplied(es, j);
    } else if j.Array? {
      RestoresArray(es, j);
    } else {
      RestoresObject(es, j);
    }
  }

  lemma {:induction false} RestoresArray(es: seq<Entry>, j: Json)
    requires Valid(j) && j.Array? && !IsLeaf(j) && Spans(es, j)
    ensures Apply(Null, es) == Ok(j) <==> Restorable(j)
    decreases j, 0
  {
    ArrayZeroFirst(es, j);
    FirstDecides(es);
    HeadsLead(es, j);
    forall i: nat | i < |j.elems| ensures Apply(Null, Under(es, Decimal(i))) == Ok(j.elems[i]) <==> Restorable(j.elems[i]) {
      IsIndex(Decimal(i), i);
      UnderSpans(es, j, Decimal(i), j.elems[i]);
      Restores(Under(es, Decimal(i)), j.elems[i]);
    }
    ArrayReaches(es, j);
    if Apply(Null, es).Ok? {
      ArrayRebuilt(es, j);
    } else if Restorable(j) {
      var i := ArrayStuck([], es);
      assert i < |j.elems| by { if i >= |j.elems| { ElemBeyond(es, j, i); } }
      assert false;
    }
  }

  lemma ElemBeyond(es: seq<Entry>, j: Json, i: nat)
    requires j.Array? && !IsLeaf(j) && Spans(es, j) && i >= |j.elems|
    ensures Under(es, Decimal(i)) == []
  {
    IsIndex(Decimal(i), i);
    UnderNothing(es, j, Decimal(i));
  }

  /** The entries reach exactly the elements. */
  lemma ArrayReaches(es: seq<Entry>, j: Json)
    requires Valid(j) && j.Array? && !IsLeaf(j) && Spans(es, j)
    ensures Indexed(es) && forall i: nat :: Reaches(es, i) <==> i < |j.elems|
  {
    HeadsLead(es, j);
    var n := |j.elems| - 1;
    var p := ThroughElem(j, n);
    assert Get(es, p) == LeafAt(j, p);
    GetIn(es, p);
    var e := Entry(p, Get(es, p).value);
    IsIndex(p[0], n);
    assert e in es && Value(e.path[0]) == n;
  }

  lemma ArrayRebuilt(es: seq<Entry>, j: Json)
    requires Valid(j) && j.Array? && !IsLeaf(j) && Spans(es, j)
    requires Indexed(es) && forall i: nat :: Reaches(es, i) <==> i < |j.elems|
    requires Apply(Array([]), es).Ok?
    ensures Apply(Array([]), es) == Ok(j) <==> forall i: nat :: i < |j.elems| ==> Apply(Null, Under(es, Decimal(i))) == Ok(j.elems[i])
    ensures |j.elems| <= INT_MAX + 1
  {
    var r := Apply(Array([]), es).value;
    ArrayReplay([], es, 0);
    assert !Reaches(es, INT_MAX + 1);
    forall i: nat ensures Apply(Null, Under(es, Decimal(i))) == Ok(ElemAt(r.elems, i)) && (i < |r.elems| <==> i < |j.elems|) {
      ArrayReplay([], es, i);
      assert Reaches(es, i) <==> i < |j.elems|;
    }
    assert |r.elems| < |j.elems| ==> Reaches(es, |r.elems|);
    ArrayReplay([], es, |r.elems|);
    ArrayReplay([], es, |j.elems|);
    assert |r.elems| == |j.elems|;
    if forall i: nat :: i < |j.elems| ==> Apply(Null, Under(es, Decimal(i))) == Ok(j.elems[i]) {
      forall i: nat | i < |j.elems| ensures r.elems[i] == j.elems[i] {
        assert Apply(Null, Under(es, Decimal(i))) == Ok(ElemAt(r.elems, i));
      }
      assert r.elems == j.elems;
    }
  }

  lemma {:induction false} RestoresObject(es: seq<Entry>, j: Json)
    requires Valid(j) && j.Object? && !IsLeaf(j) && Spans(es, j)
    ensures Apply(Null, es) == Ok(j) <==> Restorable(j)
    decreases j, 0
  {
    ObjectZeroFirst(es, j);
    FirstDecides(es);
    HeadsLead(es, j);
    if es[0].path[0] == ZERO {
      ArrayStays([], es);
    } else {
      forall i | 0 <= i < |j.members|
        ensures Apply(Null, Under(es, j.members[i].key)) == Ok(j.members[i].value) <==> Restorable(j.members[i].value)
      {
        FindAt(j.members, i);
        UnderSpans(es, j, j.members[i].key, j.members[i].value);
        Restores(Under(es, j.members[i].key), j.members[i].value);
      }
      if Apply(Object([]), es).Ok? {
        ObjectRebuilt(es, j);
      } else if Restorable(j) {
        var k := ObjectStuck([], es);
        FindIn(j.members, k);
        if Find(j.members, k).None? {
          UnderNothing(es, j, k);
        }
        assert false;
      }
    }
  }

  lemma ObjectRebuilt(es: seq<Entry>, j: Json)
    requires Valid(j) && j.Object? && !IsLeaf(j) && Spans(es, j)
    requires Apply(Object([]), es).Ok?
    ensures Apply(Object([]), es) == Ok(j)
       <==> forall i :: 0 <= i < |j.members| ==> Apply(Null, Under(es, j.members[i].key)) == Ok(j.members[i].value)
  {
    HeadsLead(es, j);
    ObjectSorted([], es);
    var r := Apply(Object([]), es).value;
    forall k ensures Apply(Null, Under(es, k)) == Ok(Child(r.members, k)) && (Find(r.members, k).Some? <==> Find(j.members, k).Some?) {
      ObjectReplay([], es, k);
      FindIn(j.members, k);
      if Find(j.members, k).None? {
        UnderNothing(es, j, k);
      } else {
        var i :| 0 <= i < |j.members| && j.members[i].key == k;
        var p := ThroughMember(j, i);
        UnderSomething(es, j, k, p);
      }
    }
    if r == j {
      forall i | 0 <= i < |j.members| ensures Apply(Null, Under(es, j.members[i].key)) == Ok(j.members[i].value) {
        FindAt(j.members, i);
      }
    } else if forall i :: 0 <= i < |j.members| ==> Apply(Null, Under(es, j.members[i].key)) == Ok(j.members[i].value) {
      forall k ensures Find(r.members, k) == Find(j.members, k) {
        FindIn(j.members, k);
        if Find(j.members, k).Some? {
          var i :| 0 <= i < |j.members| && j.members[i] == Member(k, Find(j.members, k).value);
          assert Apply(Null, Under(es, k)) == Ok(Child(r.members, k));
        }
      }
      SameLookupsSameObject(r.members, j.members);
    }
  }

  /** The entries of the flat object are the leaves, and unflattening it assigns them. */
  lemma FlattenedSpans(j: Json)
    requires Valid(j)
    ensures var ms := Flattened(j);
      && (forall m :: m in ms ==> P.Split(m.key).Ok?)
      && Spans(Entries(ms), j) && Unflattened(Object(ms)) == Apply(Null, Entries(ms))
  {
    FlattenedLeaves(j);
    var ms := Flattened(j);
    ReplayApplies(Null, ms);
    EntriesAscending(ms);
    forall p ensures Get(Entries(ms), p) == LeafAt(j, p) {
      EntriesGet(ms, p);
      assert Find(ms, P.Join(p)) == LeafAt(j, p);
    }
  }

  /** Unflattening what was flattened gives the very value back, exactly for the restorable values. */
  lemma UnflattenFlatten(j: Json)
    requires Valid(j)
    ensures Unflattened(Object(Flattened(j))) == Ok(j) <==> Restorable(j)
  {
    FlattenedSpans(j);
    Restores(Entries(Flattened(j)), j);
  }

  // ----- The same for the comparison of the code -----

  /** Assigning a value without floats into a value without floats leaves one. */
  lemma {:induction false} SetNoFloat(j: Json, path: Path, v: Json)
    requires NoFloat(j) && NoFloat(v) && SetAt(j, path, v).Ok?
    ensures NoFloat(SetAt(j, path, v).value)
    decreases |path|, 0
  {
    if path == [] {
    } else {
      match j {
        case Object(members) => SetMemberNoFloat(members, path[0], path[1..], v);
        case Array(elems) => SetElemNoFloat(elems, StoI(path[0]).value, path[1..], v);
        case Null =>
          if path[0] == ZERO {
            SetElemNoFloat([], 0, path[1..], v);
          } else {
            SetMemberNoFloat([], path[0], path[1..], v);
          }
      }
    }
  }

  lemma {:induction false} SetElemNoFloat(elems: seq<Json>, i: nat, rest: Path, v: Json)
    requires NoFloat(Array(elems)) && NoFloat(v) && SetElem(elems, i, rest, v).Ok?
    ensures NoFloat(SetElem(elems, i, rest, v).value)
    decreases |rest|, 1
  {
    SetNoFloat(Filled(elems, i + 1)[i], rest, v);
  }

  lemma {:induction false} SetMemberNoFloat(members: seq<Member>, k: bytes, rest: Path, v: Json)
    requires NoFloat(Object(members)) && NoFloat(v) && SetMember(members, k, rest, v).Ok?
    ensures NoFloat(SetMember(members, k, rest, v).value)
    decreases |rest|, 1
  {
    FindIn(members, k);
    SetNoFloat(Child(members, k), rest, v);
    PutNoFloat(members, k, SetAt(Child(members, k), rest, v).value);
  }

  lemma PutNoFloat(members: seq<Member>, k: bytes, v: Json)
    requires NoFloat(Object(members)) && NoFloat(v)
    ensures NoFloat(Object(Put(members, k, v)))
  {
    PutFlatEntries(members, k, v);
    forall i | 0 <= i < |Put(members, k, v)| ensures NoFloat(Put(members, k, v)[i].value) {
      assert Put(members, k, v)[i] in Put(members, k, v);
    }
  }

  lemma {:induction false} ApplyNoFloat(node: Json, es: seq<Entry>)
    requires NoFloat(node) && (forall e :: e in es ==> NoFloat(e.value)) && Apply(node, es).Ok?
    ensures NoFloat(Apply(node, es).value)
    decreases es
  {
    if es == [] {
    } else {
      assert es[0] in es && forall e :: e in es[1..] ==> e in es;
      SetNoFloat(node, es[0].path, es[0].value);
      ApplyNoFloat(SetAt(node, es[0].path, es[0].value).value, es[1..]);
    }
  }

  lemma {:induction false} LeafNoFloat(j: Json, p: Path)
    requires NoFloat(j) && LeafAt(j, p).Some?
    ensures NoFloat(LeafAt(j, p).value)
    decreases |p|
  {
    if p == [] {
    } else {
      if j.Object? { FindIn(j.members, p[0]); }
      LeafNoFloat(Step(j, p[0]).value, p[1..]);
    }
  }

  /** The entries of a value without floats assign none. */
  lemma EntriesNoFloat(es: seq<Entry>, j: Json)
    requires NoFloat(j) && Spans(es, j) && Apply(Null, es).Ok?
    ensures NoFloat(Apply(Null, es).value)
  {
    forall e | e in es ensures NoFloat(e.value) {
      EntryGets(es, e);
      assert Get(es, e.path) == LeafAt(j, e.path);
      LeafNoFloat(j, e.path);
    }
    ApplyNoFloat(Null, es);
  }

  /** In ascending entries each is the one its path gets. */
  lemma {:induction false} EntryGets(es: seq<Entry>, e: Entry)
    requires Ascending(es) && e in es
    ensures Get(es, e.path) == Some(e.value)
  {
    if e == es[0] {
    } else {
      assert e in es[1..];
      LessIrreflexive(P.Join(e.path));
      EntryGets(es[1..], e);
    }
  }

  /** The result is equal to the value, as `operator==` sees it. */
  ghost predicate ComesBack(r: Result<Json>, j: Json)
    requires NoFloat(j)
  {
    r.Ok? && NoFloat(r.value) && JsonEq(r.value, j)
  }

  /** Only a restorable value comes back as an equal one. */
  lemma {:induction false} EqualRestorable(es: seq<Entry>, j: Json)
    requires Valid(j) && NoFloat(j) && Spans(es, j) && ComesBack(Apply(Null, es), j)
    ensures Restorable(j)
    decreases j, 1
  {
    if IsLeaf(j) {
      LeafApplied(es, j);
    } else if j.Array? {
      EqualArray(es, j);
    } else {
      EqualObject(es, j);
    }
  }

  lemma {:induction false} EqualArray(es: seq<Entry>, j: Json)
    requires Valid(j) && NoFloat(j) && Spans(es, j) && ComesBack(Apply(Null, es), j) && j.Array? && !IsLeaf(j)
    ensures Restorable(j)
    decreases j, 0
  {
    ArrayZeroFirst(es, j);
    FirstDecides(es);
    ArrayReaches(es, j);
    ArrayRebuilt(es, j);
    var r := Apply(Array([]), es).value;
    forall i: nat | i < |j.elems| ensures Restorable(j.elems[i]) {
      ArrayReplay([], es, i);
      ElemsEqAt(r.elems, j.elems, i);
      IsIndex(Decimal(i), i);
      UnderSpans(es, j, Decimal(i), j.elems[i]);
      EqualRestorable(Under(es, Decimal(i)), j.elems[i]);
    }
  }

  lemma {:induction false} ElemsEqAt(x: seq<Json>, y: seq<Json>, i: nat)
    requires |x| == |y| && i < |x| && forall k :: 0 <= k < |x| ==> NoFloat(x[k]) && NoFloat(y[k])
    requires ElemsEq(x, y)
    ensures JsonEq(x[i], y[i])
  {
    if i == 0 {
    } else {
      ElemsEqAt(x[1..], y[1..], i - 1);
    }
  }

  lemma {:induction false} EqualObject(es: seq<Entry>, j: Json)
    requires Valid(j) && NoFloat(j) && Spans(es, j) && ComesBack(Apply(Null, es), j) && j.Object? && !IsLeaf(j)
    ensures Restorable(j)
    decreases j, 0
  {
    ObjectZeroFirst(es, j);
    FirstDecides(es);
    HeadsLead(es, j);
    ArrayStays([], es);
    assert es[0].path[0] != ZERO;
    ObjectSorted([], es);
    var r := Apply(Object([]), es).value;
    forall i | 0 <= i < |j.members| ensures Restorable(j.members[i].value) {
      var k := j.members[i].key;
      MembersEqAt(r.members, j.members, i);
      FindAt(r.members, i);
      FindAt(j.members, i);
      ObjectReplay([], es, k);
      UnderSpans(es, j, k, j.members[i].value);
      EqualRestorable(Under(es, k), j.members[i].value);
    }
  }

  lemma {:induction false} MembersEqAt(x: seq<Member>, y: seq<Member>, i: nat)
    requires |x| == |y| && i < |x| && forall k :: 0 <= k < |x| ==> NoFloat(x[k].value) && NoFloat(y[k].value)
    requires MembersEq(x, y)
    ensures x[i].key == y[i].key && JsonEq(x[i].value, y[i].value)
  {
    if i == 0 {
    } else {
      MembersEqAt(x[1..], y[1..], i - 1);
    }
  }

  /** `j == j.flatten().unflatten()` under `operator==`, exactly for the restorable values. */
  lemma UnflattenFlattenEqual(j: Json)
    requires Valid(j) && NoFloat(j)
    ensures var r := Unflattened(Object(Flattened(j)));
      && (r.Ok? ==> NoFloat(r.value))
      && (r.Ok? && NoFloat(r.value) && JsonEq(r.value, j) <==> Restorable(j))
  {
    FlattenedSpans(j);
    var es := Entries(Flattened(j));
    UnflattenFlatten(j);
    if Apply(Null, es).Ok? {
      EntriesNoFloat(es, j);
      if ComesBack(Apply(Null, es), j) {
        EqualRestorable(es, j);
      }
    }
    Trichotomy(j, j);
  }

  /** The promise fails for a value without empty containers: {"0": null} comes back as [null]. */
  lemma KeyZeroLost()
    ensures Valid(Object([Member([0x30], Null)]))
    ensures Unflattened(Object(Flattened(Object([Member([0x30], Null)])))) == Ok(Array([Null]))
    ensures !JsonEq(Array([Null]), Object([Member([0x30], Null)]))
  {
    var ms := [Member(ZERO, Null)];
    JoinOne([], ZERO);
    assert [] + [ZERO] == [ZERO];
    assert [] + [P.SLASH] + P.EscapeToken(ZERO) == [P.SLASH] + P.EscapeToken(ZERO) == P.Join([ZERO]);
    assert FlatMembers([], ms, 1, []) == Flat([P.SLASH] + P.EscapeToken(ZERO), Null, FlatMembers([], ms, 0, []));
    var flat := Flattened(Object(ms));
    assert flat == [Member(P.Join([ZERO]), Null)];
    P.SplitJoin([ZERO]);
    assert flat[1..] == [] && [ZERO][1..] == [];
    assert SetAt(Null, [ZERO], Null) == SetElem([], 0, [], Null);
    assert Filled([], 1) == [Null];
    assert [Null][0 := Null] == [Null];
    assert SetAt(Null, [], Null) == Ok(Null);
    assert SetElem([], 0, [], Null) == Ok(Array([Null][0 := Null]));
    assert SetAt(Null, [ZERO], Null) == Ok(Array([Null]));
    assert Replay(Array([Null]), []) == Ok(Array([Null]));
    assert Replay(Null, flat) == Replay(Array([Null]), flat[1..]);
  }
}
