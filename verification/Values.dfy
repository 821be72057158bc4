/**
 JSON values as `basic_json` stores them. An object is the sequence of entries of its
 `std::map`, strictly sorted by key. A floating-point number is an opaque leaf
 identified by the literal it was read from.
 */
module Values {
  import opened Bytes

  datatype Json =
    | Null
    | Boolean(b: bool)
    | Integer(i: int)
    | Unsigned(u: int)
    | Float(literal: bytes)
    | String(s: bytes)
    | Array(elems: seq<Json>)
    | Object(members: seq<Member>)

  datatype Member = Member(key: bytes, value: Json)

  const TWO_63: int := 0x8000_0000_0000_0000
  const TWO_64: int := 0x1_0000_0000_0000_0000

  ghost predicate Sorted(ms: seq<Member>) {
    forall i, j :: 0 <= i < j < |ms| ==> Less(ms[i].key, ms[j].key)
  }

  /** What every `basic_json` value satisfies: 64-bit numbers, sorted objects. */
  ghost predicate Valid(j: Json) {
    match j
    case Integer(i) => -TWO_63 <= i < TWO_63
    case Unsigned(u) => 0 <= u < TWO_64
    case Array(elems) => forall k :: 0 <= k < |elems| ==> Valid(elems[k])
    case Object(members) => Sorted(members) && forall k :: 0 <= k < |members| ==> Valid(members[k].value)
    case _ => true
  }

  predicate IsPrimitive(j: Json) {
    !j.Array? && !j.Object?
  }

  /** `std::map::operator[](k) = v`: overwrite the entry of `k`, or insert it in order. */
  function Put(ms: seq<Member>, k: bytes, v: Json): seq<Member> {
    if ms == [] || Less(k, ms[0].key) then [Member(k, v)] + ms
    else if ms[0].key == k then [Member(k, v)] + ms[1..]
    else [ms[0]] + Put(ms[1..], k, v)
  }

  function Find(ms: seq<Member>, k: bytes): Option<Json> {
    if ms == [] then None
    else if ms[0].key == k then Some(ms[0].value)
    else Find(ms[1..], k)
  }

  lemma {:induction false} FindIn(ms: seq<Member>, k: bytes)
    ensures Find(ms, k).Some? <==> exists i :: 0 <= i < |ms| && ms[i].key == k
    ensures Find(ms, k).Some? ==> exists i :: 0 <= i < |ms| && ms[i] == Member(k, Find(ms, k).value)
  {
    if ms == [] {
    } else {
      if ms[0].key == k {
        assert ms[0] == Member(k, ms[0].value);
      } else {
        FindIn(ms[1..], k);
        assert forall i :: 1 <= i < |ms| ==> ms[i] == ms[1..][i - 1];
        assert forall i :: 0 <= i < |ms[1..]| ==> ms[1..][i] == ms[i + 1];
      }
    }
  }

  lemma {:induction false} PutFind(ms: seq<Member>, k: bytes, v: Json, k': bytes)
    ensures Find(Put(ms, k, v), k') == if k' == k then Some(v) else Find(ms, k')
  {
    if ms == [] || Less(k, ms[0].key) || ms[0].key == k {
      assert Put(ms, k, v)[1..] == if ms != [] && !Less(k, ms[0].key) then ms[1..] else ms;
    } else {
      assert Put(ms, k, v)[1..] == Put(ms[1..], k, v);
      PutFind(ms[1..], k, v, k');
    }
  }

  lemma {:induction false} PutSorted(ms: seq<Member>, k: bytes, v: Json)
    requires Sorted(ms)
    ensures Sorted(Put(ms, k, v))
    ensures forall m :: m in Put(ms, k, v) ==> m.key == k || m in ms
  {
    if ms == [] {
    } else {
      LessTrichotomy(k, ms[0].key);
      if Less(k, ms[0].key) {
        forall i | 0 <= i < |ms| ensures Less(k, ms[i].key) {
          if i > 0 { LessTransitive(k, ms[0].key, ms[i].key); }
        }
      } else if ms[0].key != k {
        PutSorted(ms[1..], k, v);
        forall m | m in Put(ms[1..], k, v) ensures Less(ms[0].key, m.key) {
          if m in ms[1..] {
            var i :| 0 <= i < |ms[1..]| && ms[1..][i] == m;
            assert ms[i + 1] == m;
          }
        }
      }
    }
  }

  /** Inserting beyond the last key appends. */
  lemma {:induction false} PutLast(ms: seq<Member>, k: bytes, v: Json)
    requires forall m :: m in ms ==> Less(m.key, k)
    ensures Put(ms, k, v) == ms + [Member(k, v)]
  {
    if ms == [] {
    } else {
      assert ms[0] in ms;
      LessTrichotomy(k, ms[0].key);
      assert forall m :: m in ms[1..] ==> m in ms;
      PutLast(ms[1..], k, v);
      assert ms == [ms[0]] + ms[1..];
    }
  }

  lemma {:induction false} FindAt(ms: seq<Member>, i: nat)
    requires Sorted(ms) && i < |ms|
    ensures Find(ms, ms[i].key) == Some(ms[i].value)
  {
    if i == 0 {
    } else {
      LessIrreflexive(ms[i].key);
      FindAt(ms[1..], i - 1);
    }
  }

  /** A sorted entry sequence is determined by its lookups: a `std::map` is a map. */
  lemma {:induction false} SameLookupsSameObject(a: seq<Member>, b: seq<Member>)
    requires Sorted(a) && Sorted(b)
    requires forall k :: Find(a, k) == Find(b, k)
    ensures a == b
  {
    if a == [] {
      if b != [] { FindAt(b, 0); }
    } else if b == [] {
      FindAt(a, 0);
    } else {
      HeadIsLeast(a, b);
      HeadIsLeast(b, a);
      LessTrichotomy(a[0].key, b[0].key);
      FindAt(a, 0);
      FindAt(b, 0);
      var k0 := a[0].key;
      assert b[0].key == k0 && Find(a, k0) == Find(b, k0);
      assert a[0] == b[0];
      forall k ensures Find(a[1..], k) == Find(b[1..], k) {
        assert Find(a, k) == Find(b, k);
        if k == k0 {
          NotInTail(a);
          NotInTail(b);
        }
      }
      SameLookupsSameObject(a[1..], b[1..]);
      assert a == [a[0]] + a[1..] && b == [b[0]] + b[1..];
    }
  }

  lemma HeadIsLeast(a: seq<Member>, b: seq<Member>)
    requires a != [] && b != [] && Sorted(b)
    requires Find(b, a[0].key).Some?
    ensures b[0].key == a[0].key || Less(b[0].key, a[0].key)
  {
    FindIn(b, a[0].key);
    var i :| 0 <= i < |b| && b[i].key == a[0].key;
  }

  lemma NotInTail(a: seq<Member>)
    requires a != [] && Sorted(a)
    ensures Find(a[1..], a[0].key) == None
  {
    FindIn(a[1..], a[0].key);
    if Find(a[1..], a[0].key).Some? {
      var i :| 0 <= i < |a[1..]| && a[1..][i].key == a[0].key;
      assert Less(a[0].key, a[i + 1].key);
      LessIrreflexive(a[0].key);
    }
  }
}
