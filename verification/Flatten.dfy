/**
 `flatten` (include/json.h:9330-9386, 9455-9460): every leaf of a value under the JSON
 pointer that leads to it, and its agreement with checked lookup (include/json.h:9185-9227).
 */
module Flatten {
  import opened Bytes
  import opened Values
  import opened Lexemes
  import opened NumberGrammar
  import opened Numbers
  import opened Access
  import P = Pointer

  // ----- The function -----

  /** The result object after `flatten(ref, j, result)`, from `acc`. */
  function Flat(ref: bytes, j: Json, acc: seq<Member>): seq<Member>
    decreases j, 0
  {
    match j
    case Array(elems) => if elems == [] then Put(acc, ref, Null) else FlatElems(ref, elems, |elems|, acc)
    case Object(members) => if members == [] then Put(acc, ref, Null) else FlatMembers(ref, members, |members|, acc)
    case _ => Put(acc, ref, j)
  }

  /** After the first `n` elements. */
  function FlatElems(ref: bytes, elems: seq<Json>, n: nat, acc: seq<Member>): seq<Member>
    requires n <= |elems|
    decreases elems, n
  {
    if n == 0 then acc
    else Flat(ref + [P.SLASH] + Decimal(n - 1), elems[n - 1], FlatElems(ref, elems, n - 1, acc))
  }

  /** After the first `n` members. */
  function FlatMembers(ref: bytes, members: seq<Member>, n: nat, acc: seq<Member>): seq<Member>
    requires n <= |members|
    decreases members, n
  {
    if n == 0 then acc
    else Flat(ref + [P.SLASH] + P.EscapeToken(members[n - 1].key), members[n - 1].value, FlatMembers(ref, members, n - 1, acc))
  }

  /** The object of the public `flatten`. */
  function Flattened(j: Json): seq<Member> {
    Flat([], j, [])
  }

  // ----- The recursion on a result object changed in place -----

  class Target {
    var members: seq<Member>

    constructor ()
      ensures members == []
    {
      members := [];
    }

    /** `result[key] = value`. */
    method Assign(key: bytes, value: Json)
      modifies this
      ensures members == Put(old(members), key, value)
    {
      members := Put(members, key, value);
    }
  }

  method FlattenInto(ref: bytes, j: Json, target: Target)
    modifies target
    ensures target.members == Flat(ref, j, old(target.members))
    decreases j, 0
  {
    match j {
      case Array(elems) =>
        if elems == [] {
          target.Assign(ref, Null);
        } else {
          for i := 0 to |elems|
            invariant target.members == FlatElems(ref, elems, i, old(target.members))
          {
            FlattenInto(ref + [P.SLASH] + Decimal(i), elems[i], target);
          }
        }
      case Object(members) =>
        if members == [] {
          target.Assign(ref, Null);
        } else {
          for i := 0 to |members|
            invariant target.members == FlatMembers(ref, members, i, old(target.members))
          {
            var key := P.ReplaceSubstring(members[i].key, [P.TILDE], P.TILDE0);
            key := P.ReplaceSubstring(key, [P.SLASH], P.TILDE1);
            FlattenInto(ref + [P.SLASH] + key, members[i].value, target);
          }
        }
      case _ =>
        target.Assign(ref, j);
    }
  }

  method FlattenValue(j: Json) returns (r: Json)
    ensures r == Object(Flattened(j))
  {
    var target := new Target();
    FlattenInto([], j, target);
    r := Object(target.members);
  }

  // ----- The leaves of a value -----

  /** A primitive value, or a container without content. */
  predicate IsLeaf(j: Json) {
    IsPrimitive(j) || j == Array([]) || j == Object([])
  }

  /** What `flatten` writes for a leaf. */
  function Shown(j: Json): Json {
    if IsPrimitive(j) then j else Null
  }

  /** The value at the child a reference token names; elements by their canonical decimal index only. */
  ghost function Step(j: Json, t: bytes): Option<Json> {
    match j
    case Array(elems) => if IsInt(t) && Value(t) < |elems| then Some(elems[Value(t)]) else None
    case Object(members) => Find(members, t)
    case _ => None
  }

  /** What is shown of the leaf a path leads to. */
  ghost function LeafAt(j: Json, p: Path): Option<Json>
    decreases |p|
  {
    if p == [] then if IsLeaf(j) then Some(Shown(j)) else None
    else match Step(j, p[0])
      case Some(c) => LeafAt(c, p[1..])
      case None => None
  }

  /** The same, for a value that stands at the path `base`. */
  ghost function LeafBelow(j: Json, base: Path, p: Path): Option<Json> {
    if base <= p then LeafAt(j, p[|base|..]) else None
  }

  function Or(a: Option<Json>, b: Option<Json>): Option<Json> {
    if a.Some? then a else b
  }

  lemma JoinOne(base: Path, t: bytes)
    ensures P.Join(base + [t]) == P.Join(base) + [P.SLASH] + P.EscapeToken(t)
  {
    hide *;
    JoinMore(base, [t]);
    JoinSingle(t);
    assert P.Join(base) + ([P.SLASH] + P.EscapeToken(t)) == P.Join(base) + [P.SLASH] + P.EscapeToken(t);
  }

  lemma JoinSingle(t: bytes)
    ensures P.Join([t]) == [P.SLASH] + P.EscapeToken(t)
  {
    P.EscapeIsEncoding(t);
    assert [t][1..] == [];
  }

  lemma {:induction false} JoinMore(a: Path, b: Path)
    ensures P.Join(a + b) == P.Join(a) + P.Join(b)
  {
    if a == [] {
      assert a + b == b;
    } else {
      assert (a + b)[1..] == a[1..] + b;
      JoinMore(a[1..], b);
    }
  }

  lemma JoinInjective(p: Path, q: Path)
    ensures P.Join(p) == P.Join(q) <==> p == q
  {
    P.SplitJoin(p);
    P.SplitJoin(q);
  }

  /** Digits need no escaping. */
  lemma {:induction false} DigitsPlain(t: bytes)
    requires AllDigits(t)
    ensures P.Encoded(t) == t
  {
    if t == [] {
    } else {
      assert IsDigit(t[0]);
      DigitsPlain(t[1..]);
    }
  }

  lemma JoinIndex(base: Path, i: nat)
    ensures P.Join(base + [Decimal(i)]) == P.Join(base) + [P.SLASH] + Decimal(i)
  {
    JoinOne(base, Decimal(i));
    P.EscapeIsEncoding(Decimal(i));
    DecimalValue(i);
    DigitsPlain(Decimal(i));
  }

  lemma IsIndex(t: bytes, i: nat)
    ensures t == Decimal(i) <==> IsInt(t) && Value(t) == i
  {
    DecimalValue(i);
    if IsInt(t) {
      CanonicalDecimal(t);
    }
  }

  lemma Extends(base: Path, t: bytes, p: Path)
    ensures base + [t] <= p <==> base <= p && |p| > |base| && p[|base|] == t
    ensures base + [t] <= p ==> p[|base|..][0] == t && p[|base|..][1..] == p[|base + [t]|..]
  {
    if base <= p && |p| > |base| {
      assert p[..|base| + 1] == base + [p[|base|]];
    }
  }

  // ----- The entries are the leaves -----

  /** Looking up a path in the result: a leaf of the value, or what was there before. */
  lemma {:induction false} FlatFind(base: Path, j: Json, acc: seq<Member>, p: Path)
    requires Valid(j)
    ensures Find(Flat(P.Join(base), j, acc), P.Join(p)) == Or(LeafBelow(j, base, p), Find(acc, P.Join(p)))
    decreases j, 0
  {
    if IsLeaf(j) {
      PutFind(acc, P.Join(base), Shown(j), P.Join(p));
      JoinInjective(p, base);
      LeafAlone(j, base, p);
    } else if j.Array? {
      FlatElemsFind(base, j.elems, |j.elems|, acc, p);
    } else {
      FlatMembersFind(base, j.members, |j.members|, acc, p);
      MembersAll(j.members, base, p);
    }
  }

  lemma LeafAlone(j: Json, base: Path, p: Path)
    requires IsLeaf(j)
    ensures LeafBelow(j, base, p) == if p == base then Some(Shown(j)) else None
  {
    if base <= p {
      assert p == base + p[|base|..];
    }
  }

  /** The leaf a path leads to through one of the first `n` elements. */
  ghost function LeafInElems(elems: seq<Json>, n: nat, base: Path, p: Path): Option<Json>
    requires n <= |elems|
  {
    if base <= p && |p| > |base| && IsInt(p[|base|]) && Value(p[|base|]) < n
    then LeafAt(elems[Value(p[|base|])], p[|base| + 1..]) else None
  }

  lemma {:induction false} FlatElemsFind(base: Path, elems: seq<Json>, n: nat, acc: seq<Member>, p: Path)
    requires n <= |elems| && forall k :: 0 <= k < |elems| ==> Valid(elems[k])
    ensures Find(FlatElems(P.Join(base), elems, n, acc), P.Join(p)) == Or(LeafInElems(elems, n, base, p), Find(acc, P.Join(p)))
    decreases elems, n
  {
    if n == 0 {
    } else {
      var i := n - 1;
      FlatElemsFind(base, elems, i, acc, p);
      JoinIndex(base, i);
      FlatFind(base + [Decimal(i)], elems[i], FlatElems(P.Join(base), elems, i, acc), p);
      Extends(base, Decimal(i), p);
      if base <= p && |p| > |base| {
        IsIndex(p[|base|], i);
      }
    }
  }

  /** The leaf a path leads to through one of the first `n` members. */
  ghost function LeafInMembers(members: seq<Member>, n: nat, base: Path, p: Path): Option<Json>
    requires n <= |members|
  {
    if n == 0 then None
    else if base <= p && |p| > |base| && p[|base|] == members[n - 1].key
    then LeafAt(members[n - 1].value, p[|base| + 1..])
    else LeafInMembers(members, n - 1, base, p)
  }

  lemma {:induction false} FlatMembersFind(base: Path, members: seq<Member>, n: nat, acc: seq<Member>, p: Path)
    requires n <= |members| && Sorted(members) && forall k :: 0 <= k < |members| ==> Valid(members[k].value)
    ensures Find(FlatMembers(P.Join(base), members, n, acc), P.Join(p)) == Or(LeafInMembers(members, n, base, p), Find(acc, P.Join(p)))
    decreases members, n
  {
    if n == 0 {
    } else {
      var key := members[n - 1].key;
      FlatMembersFind(base, members, n - 1, acc, p);
      JoinOne(base, key);
      FlatFind(base + [key], members[n - 1].value, FlatMembers(P.Join(base), members, n - 1, acc), p);
      Extends(base, key, p);
      if base + [key] <= p {
        NoneBefore(members, n - 1, base, p);
      }
    }
  }

  lemma {:induction false} NoneBefore(members: seq<Member>, n: nat, base: Path, p: Path)
    requires n < |members| && Sorted(members) && base <= p && |p| > |base|
    requires forall i :: 0 <= i < n ==> Less(members[i].key, p[|base|])
    ensures LeafInMembers(members, n, base, p) == None
  {
    if n == 0 {
    } else {
      LessIrreflexive(p[|base|]);
      NoneBefore(members, n - 1, base, p);
    }
  }

  lemma MembersAll(members: seq<Member>, base: Path, p: Path)
    requires members != [] && Sorted(members)
    ensures LeafInMembers(members, |members|, base, p) == LeafBelow(Object(members), base, p)
  {
    if base <= p && |p| > |base| {
      var q := p[|base|..];
      assert q[0] == p[|base|] && q[1..] == p[|base| + 1..];
      MembersFound(members, |members|, base, p);
      FindIn(members, q[0]);
      if Find(members, q[0]).Some? {
        var i :| 0 <= i < |members| && members[i].key == q[0];
        FindAt(members, i);
      }
    } else {
      MembersElsewhere(members, |members|, base, p);
    }
  }

  lemma {:induction false} MembersElsewhere(members: seq<Member>, n: nat, base: Path, p: Path)
    requires n <= |members| && !(base <= p && |p| > |base|)
    ensures LeafInMembers(members, n, base, p) == None
  {
    if n == 0 {
    } else {
      MembersElsewhere(members, n - 1, base, p);
    }
  }

  lemma {:induction false} MembersFound(members: seq<Member>, n: nat, base: Path, p: Path)
    requires n <= |members| && Sorted(members) && base <= p && |p| > |base|
    ensures forall i :: 0 <= i < n && members[i].key == p[|base|] ==> LeafInMembers(members, n, base, p) == LeafAt(members[i].value, p[|base| + 1..])
    ensures (forall i :: 0 <= i < n ==> members[i].key != p[|base|]) ==> LeafInMembers(members, n, base, p) == None
  {
    if n == 0 {
    } else {
      MembersFound(members, n - 1, base, p);
      LessIrreflexive(p[|base|]);
    }
  }

  /** Every entry is keyed by a JSON pointer and holds a primitive value; the entries are sorted. */
  ghost predicate IsFlat(ms: seq<Member>) {
    && Sorted(ms)
    && forall m :: m in ms ==> P.Split(m.key).Ok? && IsPrimitive(m.value)
  }

  lemma {:induction false} FlatIsFlat(base: Path, j: Json, acc: seq<Member>)
    requires Valid(j) && IsFlat(acc)
    ensures IsFlat(Flat(P.Join(base), j, acc))
    decreases j, 0
  {
    if IsLeaf(j) {
      P.SplitJoin(base);
      PutIsFlat(acc, P.Join(base), Shown(j));
    } else if j.Array? {
      FlatElemsIsFlat(base, j.elems, |j.elems|, acc);
    } else {
      FlatMembersIsFlat(base, j.members, |j.members|, acc);
    }
  }

  lemma {:induction false} PutIsFlat(acc: seq<Member>, k: bytes, v: Json)
    requires IsFlat(acc) && P.Split(k).Ok? && IsPrimitive(v)
    ensures IsFlat(Put(acc, k, v))
  {
    PutSorted(acc, k, v);
    PutFlatEntries(acc, k, v);
  }

  lemma {:induction false} PutFlatEntries(acc: seq<Member>, k: bytes, v: Json)
    ensures forall m :: m in Put(acc, k, v) ==> m == Member(k, v) || m in acc
  {
    if acc != [] && !Less(k, acc[0].key) && acc[0].key != k {
      PutFlatEntries(acc[1..], k, v);
    }
  }

  lemma {:induction false} FlatElemsIsFlat(base: Path, elems: seq<Json>, n: nat, acc: seq<Member>)
    requires n <= |elems| && IsFlat(acc) && forall k :: 0 <= k < |elems| ==> Valid(elems[k])
    ensures IsFlat(FlatElems(P.Join(base), elems, n, acc))
    decreases elems, n
  {
    if n == 0 {
    } else {
      FlatElemsIsFlat(base, elems, n - 1, acc);
      JoinIndex(base, n - 1);
      FlatIsFlat(base + [Decimal(n - 1)], elems[n - 1], FlatElems(P.Join(base), elems, n - 1, acc));
    }
  }

  lemma {:induction false} FlatMembersIsFlat(base: Path, members: seq<Member>, n: nat, acc: seq<Member>)
    requires n <= |members| && IsFlat(acc) && forall k :: 0 <= k < |members| ==> Valid(members[k].value)
    ensures IsFlat(FlatMembers(P.Join(base), members, n, acc))
    decreases members, n
  {
    if n == 0 {
    } else {
      FlatMembersIsFlat(base, members, n - 1, acc);
      JoinOne(base, members[n - 1].key);
      FlatIsFlat(base + [members[n - 1].key], members[n - 1].value, FlatMembers(P.Join(base), members, n - 1, acc));
    }
  }

  /** The entries of `flatten` are exactly the leaves, each once, under its pointer. */
  lemma FlattenedLeaves(j: Json)
    requires Valid(j)
    ensures IsFlat(Flattened(j))
    ensures forall p: Path :: Find(Flattened(j), P.Join(p)) == LeafAt(j, p)
  {
    FlatIsFlat([], j, []);
    forall p: Path ensures Find(Flattened(j), P.Join(p)) == LeafAt(j, p) {
      FlatFind([], j, [], p);
      assert p[0..] == p;
    }
  }

  // ----- Agreement with checked lookup -----

  /** Every array is short enough for its indices to be read by `std::stoi`. */
  ghost predicate Indexable(j: Json) {
    match j
    case Array(elems) => |elems| <= INT_MAX + 1 && forall k :: 0 <= k < |elems| ==> Indexable(elems[k])
    case Object(members) => forall k :: 0 <= k < |members| ==> Indexable(members[k].value)
    case _ => true
  }

  /** What checked lookup must give for an entry that holds `v`: the leaf it was written for. */
  predicate Stands(r: Result<Json>, v: Json) {
    r.Ok? && if r.value == Array([]) || r.value == Object([]) then v == Null else r.value == v && !v.Array? && !v.Object?
  }

  /** Checked lookup of a leaf path gives the leaf. */
  lemma {:induction false} LookupLeaf(j: Json, p: Path)
    requires Indexable(j) && LeafAt(j, p).Some?
    ensures Stands(GetChecked(j, p), LeafAt(j, p).value)
    decreases |p|
  {
    if p == [] {
    } else {
      if j.Array? {
        CanonicalIndex(p[0]);
        LookupLeaf(j.elems[Value(p[0])], p[1..]);
      } else {
        FindIn(j.members, p[0]);
        LookupLeaf(Find(j.members, p[0]).value, p[1..]);
      }
    }
  }

  /** Every value has a leaf. */
  lemma {:induction false} SomeLeaf(j: Json) returns (p: Path)
    requires Valid(j)
    ensures LeafAt(j, p).Some?
    decreases j
  {
    if IsLeaf(j) {
      p := [];
    } else if j.Array? {
      p := ThroughElem(j, 0);
    } else {
      p := ThroughMember(j, 0);
    }
  }

  lemma ThroughElem(j: Json, i: nat) returns (p: Path)
    requires Valid(j) && j.Array? && i < |j.elems|
    ensures p != [] && p[0] == Decimal(i) && LeafAt(j.elems[i], p[1..]).Some? && LeafAt(j, p) == LeafAt(j.elems[i], p[1..])
    decreases j, 0
  {
    var q := SomeLeaf(j.elems[i]);
    p := [Decimal(i)] + q;
    IsIndex(Decimal(i), i);
    assert p[1..] == q;
  }

  lemma ThroughMember(j: Json, i: nat) returns (p: Path)
    requires Valid(j) && j.Object? && i < |j.members|
    ensures p != [] && p[0] == j.members[i].key
    ensures LeafAt(j.members[i].value, p[1..]).Some? && LeafAt(j, p) == LeafAt(j.members[i].value, p[1..])
    decreases j, 0
  {
    var q := SomeLeaf(j.members[i].value);
    p := [j.members[i].key] + q;
    FindAt(j.members, i);
    assert p[1..] == q;
  }

  /** A value with a longer array has a leaf whose pointer cannot be looked up. */
  lemma {:induction false} LongArrayLeaf(j: Json) returns (p: Path)
    requires Valid(j) && !Indexable(j)
    ensures LeafAt(j, p).Some? && GetChecked(j, p).Throw?
    decreases j
  {
    if j.Array? {
      if |j.elems| > INT_MAX + 1 {
        p := ThroughElem(j, INT_MAX + 1);
        IndexOfDecimal(INT_MAX + 1);
      } else {
        var i :| 0 <= i < |j.elems| && !Indexable(j.elems[i]);
        var q := LongArrayLeaf(j.elems[i]);
        p := [Decimal(i)] + q;
        assert p[1..] == q;
        IsIndex(Decimal(i), i);
        CanonicalIndex(Decimal(i));
      }
    } else {
      var i :| 0 <= i < |j.members| && !Indexable(j.members[i].value);
      var q := LongArrayLeaf(j.members[i].value);
      p := [j.members[i].key] + q;
      assert p[1..] == q;
      FindAt(j.members, i);
    }
  }

  /** The pointer of an entry looks up what the entry was written for. */
  ghost predicate Agrees(j: Json, m: Member) {
    P.Split(m.key).Ok? && Stands(GetChecked(j, P.Split(m.key).value), m.value)
  }

  /** `flatten` agrees with checked lookup on every entry, exactly when all arrays can be indexed. */
  lemma FlattenAgrees(j: Json)
    requires Valid(j)
    ensures (forall m :: m in Flattened(j) ==> Agrees(j, m)) <==> Indexable(j)
  {
    FlattenedLeaves(j);
    var ms := Flattened(j);
    if Indexable(j) {
      forall m | m in ms ensures Agrees(j, m) {
        var i :| 0 <= i < |ms| && ms[i] == m;
        FindAt(ms, i);
        P.JoinSplit(m.key);
        LookupLeaf(j, P.Split(m.key).value);
      }
    } else {
      var p := LongArrayLeaf(j);
      P.SplitJoin(p);
      assert Find(ms, P.Join(p)) == LeafAt(j, p);
      FindIn(ms, P.Join(p));
      var m := Member(P.Join(p), LeafAt(j, p).value);
      assert m in ms && !Agrees(j, m);
    }
  }
}
