/**
 `operator==` and `operator<` on JSON values (include/json.h:5406-5485, 5596-5678) and
 the order of the type ranking (include/json.h:5359-5380).
 */
module Ordering {
  import opened Bytes
  import opened Values

  /** `static_cast<int64_t>` of a `uint64_t`. */
  function AsSigned(u: int): int {
    if u < TWO_63 then u else u - TWO_64
  }

  function Rank(j: Json): nat {
    match j
    case Null => 0
    case Boolean(_) => 1
    case Integer(_) => 2
    case Unsigned(_) => 2
    case Float(_) => 2
    case Object(_) => 3
    case Array(_) => 4
    case String(_) => 5
  }

  /** No floating-point number occurs in the value. */
  ghost predicate NoFloat(j: Json) {
    match j
    case Float(_) => false
    case Array(elems) => forall k :: 0 <= k < |elems| ==> NoFloat(elems[k])
    case Object(members) => forall k :: 0 <= k < |members| ==> NoFloat(members[k].value)
    case _ => true
  }

  /** Number of nodes, the measure of the mutual recursion below. */
  function Size(j: Json): nat {
    match j
    case Array(elems) => 1 + ElemsSize(elems)
    case Object(members) => 1 + MembersSize(members)
    case _ => 1
  }

  function ElemsSize(x: seq<Json>): nat {
    if x == [] then 0 else 1 + Size(x[0]) + ElemsSize(x[1..])
  }

  function MembersSize(x: seq<Member>): nat {
    if x == [] then 0 else 1 + Size(x[0].value) + MembersSize(x[1..])
  }

  predicate JsonEq(a: Json, b: Json)
    requires NoFloat(a) && NoFloat(b)
  {
    match (a, b)
    case (Null, Null) => true
    case (Boolean(x), Boolean(y)) => x == y
    case (Integer(x), Integer(y)) => x == y
    case (Unsigned(x), Unsigned(y)) => x == y
    case (Unsigned(x), Integer(y)) => AsSigned(x) == y
    case (Integer(x), Unsigned(y)) => x == AsSigned(y)
    case (String(x), String(y)) => x == y
    case (Array(x), Array(y)) => |x| == |y| && ElemsEq(x, y)
    case (Object(x), Object(y)) => |x| == |y| && MembersEq(x, y)
    case _ => false
  }

  /** `std::vector::operator==` after the size test. */
  predicate ElemsEq(x: seq<Json>, y: seq<Json>)
    requires |x| == |y|
    requires forall k :: 0 <= k < |x| ==> NoFloat(x[k])
    requires forall k :: 0 <= k < |y| ==> NoFloat(y[k])
  {
    x == [] || (JsonEq(x[0], y[0]) && ElemsEq(x[1..], y[1..]))
  }

  /** `std::map::operator==` after the size test: equal pairs in key order. */
  predicate MembersEq(x: seq<Member>, y: seq<Member>)
    requires |x| == |y|
    requires forall k :: 0 <= k < |x| ==> NoFloat(x[k].value)
    requires forall k :: 0 <= k < |y| ==> NoFloat(y[k].value)
  {
    x == [] || (x[0].key == y[0].key && JsonEq(x[0].value, y[0].value) && MembersEq(x[1..], y[1..]))
  }

  predicate JsonLess(a: Json, b: Json)
    requires NoFloat(a) && NoFloat(b)
    decreases Size(a) + Size(b), 0
  {
    match (a, b)
    case (Boolean(x), Boolean(y)) => !x && y
    case (Integer(x), Integer(y)) => x < y
    case (Unsigned(x), Unsigned(y)) => x < y
    case (Integer(x), Unsigned(y)) => x < AsSigned(y)
    case (Unsigned(x), Integer(y)) => AsSigned(x) < y
    case (String(x), String(y)) => Less(x, y)
    case (Array(x), Array(y)) => ElemsLess(x, y)
    case (Object(x), Object(y)) => MembersLess(x, y)
    case _ => Rank(a) < Rank(b)
  }

  /** `std::lexicographical_compare` with `operator<` on the elements. */
  predicate ElemsLess(x: seq<Json>, y: seq<Json>)
    requires forall k :: 0 <= k < |x| ==> NoFloat(x[k])
    requires forall k :: 0 <= k < |y| ==> NoFloat(y[k])
    decreases ElemsSize(x) + ElemsSize(y), 0
  {
    y != [] && (x == [] || JsonLess(x[0], y[0])
                || (!JsonLess(y[0], x[0]) && ElemsLess(x[1..], y[1..])))
  }

  /** `operator<` of `std::pair`. */
  predicate MemberLess(m: Member, n: Member)
    requires NoFloat(m.value) && NoFloat(n.value)
    decreases Size(m.value) + Size(n.value), 1
  {
    Less(m.key, n.key) || (!Less(n.key, m.key) && JsonLess(m.value, n.value))
  }

  /** `std::lexicographical_compare` with `operator<` on the pairs. */
  predicate MembersLess(x: seq<Member>, y: seq<Member>)
    requires forall k :: 0 <= k < |x| ==> NoFloat(x[k].value)
    requires forall k :: 0 <= k < |y| ==> NoFloat(y[k].value)
    decreases MembersSize(x) + MembersSize(y), 2
  {
    y != [] && (x == [] || MemberLess(x[0], y[0])
                || (!MemberLess(y[0], x[0]) && MembersLess(x[1..], y[1..])))
  }

  /** Every unsigned number in the value is one an `int64_t` can hold. */
  ghost predicate Comparable(j: Json) {
    match j
    case Unsigned(u) => u < TWO_63
    case Array(elems) => forall k :: 0 <= k < |elems| ==> Comparable(elems[k])
    case Object(members) => forall k :: 0 <= k < |members| ==> Comparable(members[k].value)
    case _ => true
  }

  ghost predicate ExactlyOne(p: bool, q: bool, r: bool) {
    (p || q || r) && !(p && q) && !(q && r) && !(p && r)
  }

  /** Exactly one of `a < b`, `a == b`, `b < a`. */
  lemma {:induction false} Trichotomy(a: Json, b: Json)
    requires NoFloat(a) && NoFloat(b)
    ensures ExactlyOne(JsonLess(a, b), JsonEq(a, b), JsonLess(b, a))
    decreases Size(a) + Size(b), 0
  {
    match (a, b) {
      case (String(x), String(y)) => LessTrichotomy(x, y);
      case (Array(x), Array(y)) => ElemsTrichotomy(x, y);
      case (Object(x), Object(y)) => MembersTrichotomy(x, y);
      case _ =>
    }
  }

  lemma {:induction false} ElemsTrichotomy(x: seq<Json>, y: seq<Json>)
    requires forall k :: 0 <= k < |x| ==> NoFloat(x[k])
    requires forall k :: 0 <= k < |y| ==> NoFloat(y[k])
    ensures ExactlyOne(ElemsLess(x, y), |x| == |y| && ElemsEq(x, y), ElemsLess(y, x))
    decreases ElemsSize(x) + ElemsSize(y), 0
  {
    if x == [] || y == [] {
    } else {
      Trichotomy(x[0], y[0]);
      ElemsTrichotomy(x[1..], y[1..]);
    }
  }

  lemma {:induction false} MembersTrichotomy(x: seq<Member>, y: seq<Member>)
    requires forall k :: 0 <= k < |x| ==> NoFloat(x[k].value)
    requires forall k :: 0 <= k < |y| ==> NoFloat(y[k].value)
    ensures ExactlyOne(MembersLess(x, y), |x| == |y| && MembersEq(x, y), MembersLess(y, x))
    decreases MembersSize(x) + MembersSize(y), 0
  {
    if x == [] || y == [] {
    } else {
      LessTrichotomy(x[0].key, y[0].key);
      Trichotomy(x[0].value, y[0].value);
      MembersTrichotomy(x[1..], y[1..]);
    }
  }

  /** `p` and `q` chain: less dominates equal, and equal composes with equal. */
  ghost predicate Chains(lessAB: bool, eqAB: bool, lessBC: bool, eqBC: bool, lessAC: bool, eqAC: bool) {
    && (lessAB && (lessBC || eqBC) ==> lessAC)
    && (eqAB && lessBC ==> lessAC)
    && (eqAB && eqBC ==> eqAC)
  }

  /** `operator<` is transitive, `operator==` is transitive and `operator<` respects it. */
  lemma {:induction false} Transitivity(a: Json, b: Json, c: Json)
    requires NoFloat(a) && NoFloat(b) && NoFloat(c)
    requires Comparable(a) && Comparable(b) && Comparable(c)
    ensures Chains(JsonLess(a, b), JsonEq(a, b), JsonLess(b, c), JsonEq(b, c), JsonLess(a, c), JsonEq(a, c))
    decreases Size(a) + Size(b) + Size(c), 1
  {
    hide JsonLess, JsonEq, Comparable;
    if Rank(a) != Rank(b) || Rank(b) != Rank(c) {
      UnequalRanks(a, b, c);
    } else {
      match a {
        case Array(_) => ArrayTransitivity(a, b, c);
        case Object(_) => ObjectTransitivity(a, b, c);
        case String(_) => StringTransitivity(a, b, c);
        case _ => ScalarTransitivity(a, b, c);
      }
    }
  }

  lemma {:induction false} ArrayTransitivity(a: Json, b: Json, c: Json)
    requires NoFloat(a) && NoFloat(b) && NoFloat(c) && a.Array? && b.Array? && c.Array?
    requires Comparable(a) && Comparable(b) && Comparable(c)
    ensures Chains(JsonLess(a, b), JsonEq(a, b), JsonLess(b, c), JsonEq(b, c), JsonLess(a, c), JsonEq(a, c))
    decreases Size(a) + Size(b) + Size(c), 0
  {
    ElemsTransitivity(a.elems, b.elems, c.elems);
  }

  lemma {:induction false} ObjectTransitivity(a: Json, b: Json, c: Json)
    requires NoFloat(a) && NoFloat(b) && NoFloat(c) && a.Object? && b.Object? && c.Object?
    requires Comparable(a) && Comparable(b) && Comparable(c)
    ensures Chains(JsonLess(a, b), JsonEq(a, b), JsonLess(b, c), JsonEq(b, c), JsonLess(a, c), JsonEq(a, c))
    decreases Size(a) + Size(b) + Size(c), 0
  {
    MembersTransitivity(a.members, b.members, c.members);
  }

  lemma StringTransitivity(a: Json, b: Json, c: Json)
    requires NoFloat(a) && NoFloat(b) && NoFloat(c) && a.String? && b.String? && c.String?
    ensures Chains(JsonLess(a, b), JsonEq(a, b), JsonLess(b, c), JsonEq(b, c), JsonLess(a, c), JsonEq(a, c))
  {
    if Less(a.s, b.s) && Less(b.s, c.s) { LessTransitive(a.s, b.s, c.s); }
  }

  lemma ScalarTransitivity(a: Json, b: Json, c: Json)
    requires NoFloat(a) && NoFloat(b) && NoFloat(c)
    requires Comparable(a) && Comparable(b) && Comparable(c)
    requires Rank(a) == Rank(b) == Rank(c) <= 2
    ensures Chains(JsonLess(a, b), JsonEq(a, b), JsonLess(b, c), JsonEq(b, c), JsonLess(a, c), JsonEq(a, c))
  {
  }

  /** Values of different ranks are ordered by rank and never equal. */
  lemma RankDecides(a: Json, b: Json)
    requires NoFloat(a) && NoFloat(b)
    ensures Rank(a) != Rank(b) ==> (JsonLess(a, b) <==> Rank(a) < Rank(b)) && !JsonEq(a, b)
  {
  }

  lemma UnequalRanks(a: Json, b: Json, c: Json)
    requires NoFloat(a) && NoFloat(b) && NoFloat(c)
    requires Rank(a) != Rank(b) || Rank(b) != Rank(c)
    ensures Chains(JsonLess(a, b), JsonEq(a, b), JsonLess(b, c), JsonEq(b, c), JsonLess(a, c), JsonEq(a, c))
  {
    hide JsonLess, JsonEq, Rank, NoFloat;
    RankDecides(a, b);
    RankDecides(b, c);
    RankDecides(a, c);
  }

  lemma {:induction false} ElemsTransitivity(x: seq<Json>, y: seq<Json>, z: seq<Json>)
    requires forall k :: 0 <= k < |x| ==> NoFloat(x[k]) && Comparable(x[k])
    requires forall k :: 0 <= k < |y| ==> NoFloat(y[k]) && Comparable(y[k])
    requires forall k :: 0 <= k < |z| ==> NoFloat(z[k]) && Comparable(z[k])
    ensures Chains(ElemsLess(x, y), |x| == |y| && ElemsEq(x, y), ElemsLess(y, z), |y| == |z| && ElemsEq(y, z),
                   ElemsLess(x, z), |x| == |z| && ElemsEq(x, z))
    decreases ElemsSize(x) + ElemsSize(y) + ElemsSize(z), 0
  {
    if x == [] || y == [] || z == [] {
    } else {
      Trichotomy(x[0], y[0]);
      Trichotomy(y[0], z[0]);
      Trichotomy(x[0], z[0]);
      Transitivity(x[0], y[0], z[0]);
      ElemsTransitivity(x[1..], y[1..], z[1..]);
    }
  }

  lemma {:induction false} MembersTransitivity(x: seq<Member>, y: seq<Member>, z: seq<Member>)
    requires forall k :: 0 <= k < |x| ==> NoFloat(x[k].value) && Comparable(x[k].value)
    requires forall k :: 0 <= k < |y| ==> NoFloat(y[k].value) && Comparable(y[k].value)
    requires forall k :: 0 <= k < |z| ==> NoFloat(z[k].value) && Comparable(z[k].value)
    ensures Chains(MembersLess(x, y), |x| == |y| && MembersEq(x, y), MembersLess(y, z), |y| == |z| && MembersEq(y, z),
                   MembersLess(x, z), |x| == |z| && MembersEq(x, z))
    decreases MembersSize(x) + MembersSize(y) + MembersSize(z), 0
  {
    if x == [] || y == [] || z == [] {
    } else {
      MemberOrder(x[0], y[0]);
      MemberOrder(y[0], z[0]);
      MemberOrder(x[0], z[0]);
      MemberTransitivity(x[0], y[0], z[0]);
      MembersTransitivity(x[1..], y[1..], z[1..]);
    }
  }

  ghost predicate MemberEq(m: Member, n: Member)
    requires NoFloat(m.value) && NoFloat(n.value)
  {
    m.key == n.key && JsonEq(m.value, n.value)
  }

  lemma MemberOrder(m: Member, n: Member)
    requires NoFloat(m.value) && NoFloat(n.value)
    ensures ExactlyOne(MemberLess(m, n), MemberEq(m, n), MemberLess(n, m))
  {
    LessTrichotomy(m.key, n.key);
    Trichotomy(m.value, n.value);
  }

  lemma {:induction false} MemberTransitivity(m: Member, n: Member, o: Member)
    requires NoFloat(m.value) && NoFloat(n.value) && NoFloat(o.value)
    requires Comparable(m.value) && Comparable(n.value) && Comparable(o.value)
    ensures Chains(MemberLess(m, n), MemberEq(m, n), MemberLess(n, o), MemberEq(n, o), MemberLess(m, o), MemberEq(m, o))
    decreases Size(m.value) + Size(n.value) + Size(o.value), 2
  {
    LessTrichotomy(m.key, n.key);
    LessTrichotomy(n.key, o.key);
    LessTrichotomy(m.key, o.key);
    if Less(m.key, n.key) && Less(n.key, o.key) { LessTransitive(m.key, n.key, o.key); }
    Transitivity(m.value, n.value, o.value);
  }

  /**
   `operator<` is irreflexive and exactly one of less, equal, greater holds, for all values. On
   comparable values it is transitive and respects `operator==`: a strict total order up to equality.
   */
  lemma StrictTotalOrder(a: Json, b: Json, c: Json)
    requires NoFloat(a) && NoFloat(b) && NoFloat(c)
    ensures !JsonLess(a, a)
    ensures ExactlyOne(JsonLess(a, b), JsonEq(a, b), JsonLess(b, a))
    ensures Comparable(a) && Comparable(b) && Comparable(c) ==>
      && (JsonLess(a, b) && JsonLess(b, c) ==> JsonLess(a, c))
      && (JsonEq(a, b) ==> JsonLess(a, c) == JsonLess(b, c) && JsonLess(c, a) == JsonLess(c, b))
  {
    Trichotomy(a, a);
    Trichotomy(a, b);
    if Comparable(a) && Comparable(b) && Comparable(c) {
      EqualsAlike(a, b, c);
    }
  }

  lemma EqualsAlike(a: Json, b: Json, c: Json)
    requires NoFloat(a) && NoFloat(b) && NoFloat(c)
    requires Comparable(a) && Comparable(b) && Comparable(c)
    ensures JsonLess(a, b) && JsonLess(b, c) ==> JsonLess(a, c)
    ensures JsonEq(a, b) ==> JsonLess(a, c) == JsonLess(b, c) && JsonLess(c, a) == JsonLess(c, b)
  {
    hide JsonLess, JsonEq, NoFloat, Comparable;
    Trichotomy(a, b);
    Trichotomy(b, a);
    Transitivity(a, b, c);
    Transitivity(b, a, c);
    Transitivity(c, a, b);
    Transitivity(c, b, a);
  }

  /** `operator==` is an equivalence on all values: the casts keep 64-bit numbers apart. */
  lemma EqualityEquivalence(a: Json, b: Json, c: Json)
    requires Valid(a) && Valid(b) && Valid(c) && NoFloat(a) && NoFloat(b) && NoFloat(c)
    ensures JsonEq(a, a) && JsonEq(a, b) == JsonEq(b, a)
    ensures JsonEq(a, b) && JsonEq(b, c) ==> JsonEq(a, c)
  {
    Trichotomy(a, a);
    Trichotomy(a, b);
    Trichotomy(b, a);
    if JsonEq(a, b) && JsonEq(b, c) {
      EqualityTransitive(a, b, c);
    }
  }

  lemma {:induction false} EqualityTransitive(a: Json, b: Json, c: Json)
    requires Valid(a) && Valid(b) && Valid(c) && NoFloat(a) && NoFloat(b) && NoFloat(c)
    requires JsonEq(a, b) && JsonEq(b, c)
    ensures JsonEq(a, c)
    decreases Size(a), 0
  {
    match a {
      case Array(x) => ElemsEqualityTransitive(x, b.elems, c.elems);
      case Object(x) => MembersEqualityTransitive(x, b.members, c.members);
      case _ =>
    }
  }

  lemma {:induction false} ElemsEqualityTransitive(x: seq<Json>, y: seq<Json>, z: seq<Json>)
    requires |x| == |y| == |z|
    requires forall k :: 0 <= k < |x| ==> Valid(x[k]) && Valid(y[k]) && Valid(z[k]) && NoFloat(x[k]) && NoFloat(y[k]) && NoFloat(z[k])
    requires ElemsEq(x, y) && ElemsEq(y, z)
    ensures ElemsEq(x, z)
    decreases ElemsSize(x), 0
  {
    if x == [] {
    } else {
      EqualityTransitive(x[0], y[0], z[0]);
      ElemsEqualityTransitive(x[1..], y[1..], z[1..]);
    }
  }

  lemma {:induction false} MembersEqualityTransitive(x: seq<Member>, y: seq<Member>, z: seq<Member>)
    requires |x| == |y| == |z|
    requires forall k :: 0 <= k < |x| ==> Valid(x[k].value) && Valid(y[k].value) && Valid(z[k].value)
    requires forall k :: 0 <= k < |x| ==> NoFloat(x[k].value) && NoFloat(y[k].value) && NoFloat(z[k].value)
    requires MembersEq(x, y) && MembersEq(y, z)
    ensures MembersEq(x, z)
    decreases MembersSize(x), 0
  {
    if x == [] {
    } else {
      EqualityTransitive(x[0].value, y[0].value, z[0].value);
      MembersEqualityTransitive(x[1..], y[1..], z[1..]);
    }
  }

  // ----- Exactly where the order fails -----

  ghost predicate OnCycle(a: Json, b: Json, c: Json)
    requires NoFloat(a) && NoFloat(b) && NoFloat(c)
  {
    JsonLess(a, b) && JsonLess(b, c) && JsonLess(c, a)
  }

  /** A comparable value of the code. */
  ghost predicate Ordinary(j: Json) {
    Valid(j) && NoFloat(j) && Comparable(j)
  }

  /**
   A value fits into the order of the comparable values exactly when it is one: any other
   lies on a cycle a < b < c < a with two comparable values.
   */
  lemma OrderedExactly(a: Json)
    requires Valid(a) && NoFloat(a)
    ensures Comparable(a) <==> forall b, c :: Ordinary(b) && Ordinary(c) ==> !OnCycle(a, b, c)
  {
    if Comparable(a) {
      forall b, c | Ordinary(b) && Ordinary(c) ensures !OnCycle(a, b, c) {
        Transitivity(a, b, c);
        Trichotomy(a, c);
      }
    } else {
      var b, c := Cycle(a);
      assert Ordinary(b) && Ordinary(c);
    }
  }

  /** The cycle of a value that is not comparable: u < 0 < 1 < u for a large unsigned number, and so in its place. */
  lemma {:induction false} Cycle(a: Json) returns (b: Json, c: Json)
    requires Valid(a) && NoFloat(a) && !Comparable(a)
    ensures Ordinary(b) && Ordinary(c) && OnCycle(a, b, c)
    decreases a
  {
    match a {
      case Unsigned(u) =>
        b, c := Integer(0), Unsigned(1);
      case Array(elems) =>
        var k := FirstLarge(elems);
        var x, y := Cycle(elems[k]);
        b, c := Array(elems[..k] + [x]), Array(elems[..k] + [y]);
        ArrayCycle(elems, k, x, y);
      case Object(members) =>
        var k := FirstLargeMember(members);
        var x, y := Cycle(members[k].value);
        var key := members[k].key;
        b, c := Object(members[..k] + [Member(key, x)]), Object(members[..k] + [Member(key, y)]);
        ObjectCycle(members, k, x, y);
    }
  }

  lemma ArrayCycle(elems: seq<Json>, k: nat, x: Json, y: Json)
    requires Valid(Array(elems)) && NoFloat(Array(elems)) && k < |elems| && Ordinary(x) && Ordinary(y)
    requires (forall i :: 0 <= i < k ==> Comparable(elems[i])) && OnCycle(elems[k], x, y)
    ensures var b, c := Array(elems[..k] + [x]), Array(elems[..k] + [y]); Ordinary(b) && Ordinary(c) && OnCycle(Array(elems), b, c)
  {
    var p, rest := elems[..k], elems[k..];
    assert elems == p + rest;
    ElemsPrefix(p, rest, [x]);
    ElemsPrefix(p, [x], [y]);
    ElemsPrefix(p, [y], rest);
  }

  lemma ObjectCycle(members: seq<Member>, k: nat, x: Json, y: Json)
    requires Valid(Object(members)) && NoFloat(Object(members)) && k < |members| && Ordinary(x) && Ordinary(y)
    requires (forall i :: 0 <= i < k ==> Comparable(members[i].value)) && OnCycle(members[k].value, x, y)
    ensures var b, c := Object(members[..k] + [Member(members[k].key, x)]), Object(members[..k] + [Member(members[k].key, y)]);
      Ordinary(b) && Ordinary(c) && OnCycle(Object(members), b, c)
  {
    var p, rest := members[..k], members[k..];
    var m, n := Member(members[k].key, x), Member(members[k].key, y);
    LessIrreflexive(members[k].key);
    assert members == p + rest;
    MembersPrefix(p, rest, [m]);
    MembersPrefix(p, [m], [n]);
    MembersPrefix(p, [n], rest);
  }

  lemma {:induction false} FirstLarge(elems: seq<Json>) returns (k: nat)
    requires exists k :: 0 <= k < |elems| && !Comparable(elems[k])
    ensures k < |elems| && !Comparable(elems[k]) && forall i :: 0 <= i < k ==> Comparable(elems[i])
  {
    if !Comparable(elems[0]) {
      k := 0;
    } else {
      assert forall i :: 1 <= i < |elems| ==> elems[i] == elems[1..][i - 1];
      k := FirstLarge(elems[1..]);
      k := k + 1;
    }
  }

  lemma {:induction false} FirstLargeMember(members: seq<Member>) returns (k: nat)
    requires exists k :: 0 <= k < |members| && !Comparable(members[k].value)
    ensures k < |members| && !Comparable(members[k].value) && forall i :: 0 <= i < k ==> Comparable(members[i].value)
  {
    if !Comparable(members[0].value) {
      k := 0;
    } else {
      assert forall i :: 1 <= i < |members| ==> members[i] == members[1..][i - 1];
      k := FirstLargeMember(members[1..]);
      k := k + 1;
    }
  }

  /** A common prefix does not matter for the order of arrays, */
  lemma {:induction false} ElemsPrefix(p: seq<Json>, x: seq<Json>, y: seq<Json>)
    requires forall k :: 0 <= k < |p| ==> NoFloat(p[k])
    requires forall k :: 0 <= k < |x| ==> NoFloat(x[k])
    requires forall k :: 0 <= k < |y| ==> NoFloat(y[k])
    ensures ElemsLess(p + x, p + y) == ElemsLess(x, y)
  {
    if p == [] {
      assert p + x == x && p + y == y;
    } else {
      assert (p + x)[1..] == p[1..] + x && (p + y)[1..] == p[1..] + y;
      Trichotomy(p[0], p[0]);
      ElemsPrefix(p[1..], x, y);
    }
  }

  /** nor for that of objects. */
  lemma {:induction false} MembersPrefix(p: seq<Member>, x: seq<Member>, y: seq<Member>)
    requires forall k :: 0 <= k < |p| ==> NoFloat(p[k].value)
    requires forall k :: 0 <= k < |x| ==> NoFloat(x[k].value)
    requires forall k :: 0 <= k < |y| ==> NoFloat(y[k].value)
    ensures MembersLess(p + x, p + y) == MembersLess(x, y)
  {
    if p == [] {
      assert p + x == x && p + y == y;
    } else {
      assert (p + x)[1..] == p[1..] + x && (p + y)[1..] == p[1..] + y;
      MemberOrder(p[0], p[0]);
      MembersPrefix(p[1..], x, y);
    }
  }

  /** Equal up to position `n`, where `x` ends or has the lesser element. */
  ghost predicate DecidedAt(x: seq<Json>, y: seq<Json>, n: nat)
    requires forall k :: 0 <= k < |x| ==> NoFloat(x[k])
    requires forall k :: 0 <= k < |y| ==> NoFloat(y[k])
  {
    n <= |x| && n < |y| && (forall k :: 0 <= k < n ==> JsonEq(x[k], y[k])) && (n == |x| || JsonLess(x[n], y[n]))
  }

  /** Arrays are ordered lexicographically. */
  lemma {:induction false} ArraysLexicographic(x: seq<Json>, y: seq<Json>)
    requires forall k :: 0 <= k < |x| ==> NoFloat(x[k])
    requires forall k :: 0 <= k < |y| ==> NoFloat(y[k])
    ensures JsonLess(Array(x), Array(y)) <==> exists n: nat :: DecidedAt(x, y, n)
  {
    assert JsonLess(Array(x), Array(y)) == ElemsLess(x, y);
    if y == [] {
    } else if x == [] {
      assert DecidedAt(x, y, 0);
    } else {
      var xs, ys := x[1..], y[1..];
      Trichotomy(x[0], y[0]);
      ArraysLexicographic(xs, ys);
      assert JsonLess(Array(xs), Array(ys)) == ElemsLess(xs, ys);
      forall n: nat ensures DecidedAt(x, y, n + 1) <==> JsonEq(x[0], y[0]) && DecidedAt(xs, ys, n) {
        DecidedLater(x, y, n);
      }
      assert DecidedAt(x, y, 0) <==> JsonLess(x[0], y[0]);
      if ElemsLess(x, y) {
        if !JsonLess(x[0], y[0]) {
          var n: nat :| DecidedAt(xs, ys, n);
          assert DecidedAt(x, y, n + 1);
        }
      }
      forall n: nat | DecidedAt(x, y, n) ensures ElemsLess(x, y) {
        if n > 0 {
          assert DecidedAt(x, y, (n - 1) + 1);
          assert DecidedAt(xs, ys, n - 1);
        }
      }
    }
  }

  lemma DecidedLater(x: seq<Json>, y: seq<Json>, n: nat)
    requires x != [] && y != []
    requires forall k :: 0 <= k < |x| ==> NoFloat(x[k])
    requires forall k :: 0 <= k < |y| ==> NoFloat(y[k])
    ensures DecidedAt(x, y, n + 1) <==> JsonEq(x[0], y[0]) && DecidedAt(x[1..], y[1..], n)
  {
    if DecidedAt(x, y, n + 1) {
      assert forall k :: 0 <= k < n ==> x[1..][k] == x[k + 1] && y[1..][k] == y[k + 1];
    }
    if JsonEq(x[0], y[0]) && DecidedAt(x[1..], y[1..], n) {
      forall k | 0 <= k < n + 1 ensures JsonEq(x[k], y[k]) {
        if k > 0 { assert JsonEq(x[1..][k - 1], y[1..][k - 1]); }
      }
    }
  }

  /** The same for the entries of objects: by key, then by value. */
  ghost predicate MemberDecidedAt(x: seq<Member>, y: seq<Member>, n: nat)
    requires forall k :: 0 <= k < |x| ==> NoFloat(x[k].value)
    requires forall k :: 0 <= k < |y| ==> NoFloat(y[k].value)
  {
    && n <= |x| && n < |y|
    && (forall k :: 0 <= k < n ==> x[k].key == y[k].key && JsonEq(x[k].value, y[k].value))
    && (n == |x| || Less(x[n].key, y[n].key) || (x[n].key == y[n].key && JsonLess(x[n].value, y[n].value)))
  }

  /** Objects are ordered lexicographically by their entries in key order. */
  lemma {:induction false} ObjectsLexicographic(x: seq<Member>, y: seq<Member>)
    requires forall k :: 0 <= k < |x| ==> NoFloat(x[k].value)
    requires forall k :: 0 <= k < |y| ==> NoFloat(y[k].value)
    ensures JsonLess(Object(x), Object(y)) <==> exists n: nat :: MemberDecidedAt(x, y, n)
  {
    assert JsonLess(Object(x), Object(y)) == MembersLess(x, y);
    if y == [] {
    } else if x == [] {
      assert MemberDecidedAt(x, y, 0);
    } else {
      var xs, ys := x[1..], y[1..];
      MemberOrder(x[0], y[0]);
      LessTrichotomy(x[0].key, y[0].key);
      ObjectsLexicographic(xs, ys);
      assert JsonLess(Object(xs), Object(ys)) == MembersLess(xs, ys);
      forall n: nat ensures MemberDecidedAt(x, y, n + 1) <==> MemberEq(x[0], y[0]) && MemberDecidedAt(xs, ys, n) {
        MemberDecidedLater(x, y, n);
      }
      assert MemberDecidedAt(x, y, 0) <==> MemberLess(x[0], y[0]);
      if MembersLess(x, y) {
        if !MemberLess(x[0], y[0]) {
          var n: nat :| MemberDecidedAt(xs, ys, n);
          assert MemberDecidedAt(x, y, n + 1);
        }
      }
      forall n: nat | MemberDecidedAt(x, y, n) ensures MembersLess(x, y) {
        if n > 0 {
          assert MemberDecidedAt(x, y, (n - 1) + 1);
          assert MemberDecidedAt(xs, ys, n - 1);
        }
      }
    }
  }

  lemma MemberDecidedLater(x: seq<Member>, y: seq<Member>, n: nat)
    requires x != [] && y != []
    requires forall k :: 0 <= k < |x| ==> NoFloat(x[k].value)
    requires forall k :: 0 <= k < |y| ==> NoFloat(y[k].value)
    ensures MemberDecidedAt(x, y, n + 1) <==> MemberEq(x[0], y[0]) && MemberDecidedAt(x[1..], y[1..], n)
  {
    if MemberDecidedAt(x, y, n + 1) {
      assert forall k :: 0 <= k < n ==> x[1..][k] == x[k + 1] && y[1..][k] == y[k + 1];
    }
    if MemberEq(x[0], y[0]) && MemberDecidedAt(x[1..], y[1..], n) {
      forall k | 0 <= k < n + 1 ensures x[k].key == y[k].key && JsonEq(x[k].value, y[k].value) {
        if k > 0 { assert JsonEq(x[1..][k - 1].value, y[1..][k - 1].value); }
      }
    }
  }

  /** The order of the types: null, boolean, number, object, array, string. */
  ghost predicate TypeBefore(a: Json, b: Json) {
    || (a.Null? && (b.Boolean? || b.Integer? || b.Unsigned? || b.Object? || b.Array? || b.String?))
    || (a.Boolean? && (b.Integer? || b.Unsigned? || b.Object? || b.Array? || b.String?))
    || ((a.Integer? || a.Unsigned?) && (b.Object? || b.Array? || b.String?))
    || (a.Object? && (b.Array? || b.String?))
    || (a.Array? && b.String?)
  }

  lemma TypeOrder(a: Json, b: Json)
    requires NoFloat(a) && NoFloat(b) && TypeBefore(a, b)
    ensures JsonLess(a, b) && !JsonLess(b, a) && !JsonEq(a, b)
  {
    RankDecides(a, b);
    RankDecides(b, a);
  }

  /** Inside a type: false before true, numbers by value, strings at the first byte that differs. */
  lemma ScalarOrder(i: int, j: int, s: bytes, t: bytes)
    ensures JsonLess(Boolean(false), Boolean(true)) && !JsonLess(Boolean(true), Boolean(false))
    ensures JsonLess(Integer(i), Integer(j)) <==> i < j
    ensures JsonLess(Unsigned(i), Unsigned(j)) <==> i < j
    ensures JsonLess(String(s), String(t)) <==> exists n: nat :: FirstDiffers(s, t, n)
  {
    LessAtFirst(s, t);
  }

  /** A mixed comparison agrees with the numbers exactly when the cast keeps them apart from the wrapped ones. */
  lemma MixedComparisonExact(i: int, u: int)
    requires -TWO_63 <= i < TWO_63 && 0 <= u < TWO_64
    ensures JsonLess(Integer(i), Unsigned(u)) == (i < u) <==> u < TWO_63 || i + TWO_64 < u
    ensures JsonLess(Unsigned(u), Integer(i)) == (u < i) <==> u < TWO_63 || i + TWO_64 <= u
    ensures JsonEq(Integer(i), Unsigned(u)) == (i == u) <==> u < TWO_63 || i + TWO_64 != u
  {
  }
}
