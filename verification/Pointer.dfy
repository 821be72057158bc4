/**
 JSON pointers (sections 3 and 4 of RFC 6901): `replace_substring`, the escaping of
 reference tokens and `split` (include/json.h:9230-9321, 9365-9373).
 */
module Pointer {
  import opened Bytes

  const SLASH: byte := 0x2F
  const TILDE: byte := 0x7E

  // ----- Replacing a substring -----

  predicate OccursAt(s: bytes, f: bytes, p: nat) {
    p + |f| <= |s| && s[p..p + |f|] == f
  }

  lemma OccursBehind(s: bytes, f: bytes, k: nat, q: nat)
    requires k <= |s|
    ensures OccursAt(s[k..], f, q) <==> OccursAt(s, f, k + q)
  {
    if k + q + |f| <= |s| {
      assert s[k..][q..q + |f|] == s[k + q..k + q + |f|];
    }
  }

  /** `s.find(f, pos)`: the lowest position from `pos` on where `f` occurs. */
  function Find(s: bytes, f: bytes, pos: nat): (r: Option<nat>)
    requires pos <= |s|
    ensures r.Some? ==> pos <= r.value && r.value + |f| <= |s|
    decreases |s| - pos
  {
    if OccursAt(s, f, pos) then Some(pos) else if pos == |s| then None else Find(s, f, pos + 1)
  }

  lemma {:induction false} FindFirst(s: bytes, f: bytes, pos: nat)
    requires pos <= |s|
    ensures var r := Find(s, f, pos);
      && (r.Some? ==> OccursAt(s, f, r.value) && forall q :: pos <= q < r.value ==> !OccursAt(s, f, q))
      && (r.None? ==> forall q :: pos <= q ==> !OccursAt(s, f, q))
    decreases |s| - pos
  {
    if !OccursAt(s, f, pos) && pos < |s| {
      FindFirst(s, f, pos + 1);
    }
  }

  /** Leftmost non-overlapping replacement. */
  function ReplaceAll(s: bytes, f: bytes, t: bytes): bytes
    requires f != []
  {
    if s == [] then []
    else if f <= s then t + ReplaceAll(s[|f|..], f, t)
    else [s[0]] + ReplaceAll(s[1..], f, t)
  }

  /** The first occurrence, found byte by byte. */
  predicate FirstAt(s: bytes, f: bytes, p: nat) {
    if p == 0 then f <= s else !(f <= s) && s != [] && FirstAt(s[1..], f, p - 1)
  }

  lemma {:induction false} OccursFirst(s: bytes, f: bytes, p: nat)
    requires f != [] && OccursAt(s, f, p) && forall q :: 0 <= q < p ==> !OccursAt(s, f, q)
    ensures FirstAt(s, f, p)
  {
    if p == 0 {
    } else {
      NotPrefix(s, f);
      OccursBehind(s, f, 1, p - 1);
      forall q | 0 <= q < p - 1 ensures !OccursAt(s[1..], f, q) {
        OccursBehind(s, f, 1, q);
      }
      OccursFirst(s[1..], f, p - 1);
    }
  }

  lemma {:induction false} ReplaceFirst(s: bytes, f: bytes, t: bytes, p: nat)
    requires f != [] && FirstAt(s, f, p) && p + |f| <= |s|
    ensures ReplaceAll(s, f, t) == s[..p] + (t + ReplaceAll(s[p + |f|..], f, t))
  {
    if p == 0 {
      EmptyInFront(s, t + ReplaceAll(s[|f|..], f, t));
    } else {
      ReplaceFirst(s[1..], f, t, p - 1);
      SliceBehind(s, p, p + |f|);
      ByteLater(s, p, t + ReplaceAll(s[p + |f|..], f, t), ReplaceAll(s[1..], f, t));
    }
  }

  lemma ByteLater(s: bytes, p: nat, r: bytes, x: bytes)
    requires 0 < p <= |s| && x == s[1..][..p - 1] + r
    ensures [s[0]] + x == s[..p] + r
  {
  }

  lemma EmptyInFront(s: bytes, r: bytes)
    ensures s[..0] + r == r
  {
  }

  lemma SliceBehind(s: bytes, p: nat, e: nat)
    requires 0 < p <= e <= |s|
    ensures s[..p] == [s[0]] + s[1..][..p - 1] && s[1..][e - 1..] == s[e..]
  {
  }

  lemma {:induction false} ReplaceNone(s: bytes, f: bytes, t: bytes)
    requires f != [] && forall q :: 0 <= q ==> !OccursAt(s, f, q)
    ensures ReplaceAll(s, f, t) == s
  {
    if s == [] {
    } else {
      NotPrefix(s, f);
      forall q | 0 <= q ensures !OccursAt(s[1..], f, q) {
        OccursBehind(s, f, 1, q);
      }
      ReplaceNone(s[1..], f, t);
    }
  }

  lemma NotPrefix(s: bytes, f: bytes)
    requires !OccursAt(s, f, 0)
    ensures !(f <= s)
  {
  }

  /** The text between the occurrences that are replaced. */
  function Pieces(s: bytes, f: bytes): (r: seq<bytes>)
    requires f != []
    ensures r != []
    decreases |s|
  {
    match Find(s, f, 0)
    case None => [s]
    case Some(p) => [s[..p]] + Pieces(s[p + |f|..], f)
  }

  function Joined(pieces: seq<bytes>, t: bytes): bytes
    requires pieces != []
  {
    if |pieces| == 1 then pieces[0] else pieces[0] + t + Joined(pieces[1..], t)
  }

  /** The occurrences replaced are those that cut the string into its pieces: no occurrence starts in front of one. */
  lemma {:induction false} ReplaceByPieces(s: bytes, f: bytes, t: bytes)
    requires f != []
    ensures Joined(Pieces(s, f), f) == s && Joined(Pieces(s, f), t) == ReplaceAll(s, f, t)
    decreases |s|
  {
    var r := Find(s, f, 0);
    FindFirst(s, f, 0);
    if r.None? {
      ReplaceNone(s, f, t);
    } else {
      var p := r.value;
      var rest := s[p + |f|..];
      ReplaceByPieces(rest, f, t);
      OccursFirst(s, f, p);
      ReplaceFirst(s, f, t, p);
      assert s[..p] + (t + ReplaceAll(rest, f, t)) == s[..p] + t + ReplaceAll(rest, f, t);
      PiecesJoined(s, f, t, p);
      PiecesJoined(s, f, f, p);
      ThreeParts(s, p, |f|);
    }
  }

  lemma ThreeParts(s: bytes, p: nat, n: nat)
    requires p + n <= |s|
    ensures s == s[..p] + s[p..p + n] + s[p + n..]
  {
  }

  lemma PiecesJoined(s: bytes, f: bytes, t: bytes, p: nat)
    requires f != [] && Find(s, f, 0) == Some(p)
    ensures Joined(Pieces(s, f), t) == s[..p] + t + Joined(Pieces(s[p + |f|..], f), t)
  {
    JoinedCons(s[..p], Pieces(s[p + |f|..], f), t);
  }

  lemma JoinedCons(p: bytes, ps: seq<bytes>, t: bytes)
    requires ps != []
    ensures Joined([p] + ps, t) == p + t + Joined(ps, t)
  {
    assert ([p] + ps)[1..] == ps;
  }

  lemma {:induction false} PiecesHaveNone(s: bytes, f: bytes)
    requires f != []
    ensures forall p :: p in Pieces(s, f) ==> forall q :: 0 <= q ==> !OccursAt(p, f, q)
    decreases |s|
  {
    FindFirst(s, f, 0);
    match Find(s, f, 0) {
      case None =>
      case Some(p) =>
        PiecesHaveNone(s[p + |f|..], f);
        forall q | 0 <= q ensures !OccursAt(s[..p], f, q) {
          OccursInFront(s, f, p, q);
        }
    }
  }

  /** What occurs in front of a position occurs in the whole. */
  lemma OccursInFront(s: bytes, f: bytes, p: nat, q: nat)
    requires p <= |s|
    ensures OccursAt(s[..p], f, q) ==> OccursAt(s, f, q) && q + |f| <= p
  {
    if q + |f| <= p {
      assert s[..p][q..q + |f|] == s[q..q + |f|];
    }
  }

  /** `s.replace(p, n, t)`. */
  function Spliced(s: bytes, p: nat, n: nat, t: bytes): (r: bytes)
    requires p + n <= |s|
    ensures |r| == |s| - n + |t|
  {
    s[..p] + t + s[p + n..]
  }

  /** A string of which the part in front of `k` is finished. */
  ghost function Finished(s: bytes, k: nat, f: bytes, t: bytes): bytes
    requires f != [] && k <= |s|
  {
    s[..k] + ReplaceAll(s[k..], f, t)
  }

  lemma FinishedEnds(s: bytes, k: nat, f: bytes, t: bytes)
    requires f != [] && k <= |s|
    ensures Finished(s, 0, f, t) == ReplaceAll(s, f, t)
    ensures Find(s, f, k) == None ==> Finished(s, k, f, t) == s
  {
    assert s[0..] == s && s[..0] + ReplaceAll(s, f, t) == ReplaceAll(s, f, t);
    if Find(s, f, k) == None {
      RestHasNone(s, f, k);
      ReplaceNone(s[k..], f, t);
      assert s[..k] + s[k..] == s;
    }
  }

  /** The same as a statement about the result; unfolded only where `Look` is mentioned. */
  ghost predicate Pending(s: bytes, k: nat, f: bytes, t: bytes, goal: bytes) {
    forall once: bool {:trigger Look(once)} :: Look(once) ==> f != [] && k <= |s| && Finished(s, k, f, t) == goal
  }

  lemma PendingStart(s: bytes, f: bytes, t: bytes)
    requires f != []
    ensures Pending(s, 0, f, t, ReplaceAll(s, f, t))
  {
    FinishedEnds(s, 0, f, t);
  }

  lemma PendingEnd(s: bytes, k: nat, f: bytes, t: bytes, goal: bytes)
    requires f != [] && k <= |s| && Pending(s, k, f, t, goal) && Find(s, f, k) == None
    ensures s == goal
  {
    assert Look(true);
    FinishedEnds(s, k, f, t);
  }

  lemma PendingRound(s: bytes, k: nat, f: bytes, t: bytes, goal: bytes, p: nat)
    requires f != [] && k <= |s| && Pending(s, k, f, t, goal) && Find(s, f, k) == Some(p)
    ensures k <= p && p + |f| <= |s| && Pending(Spliced(s, p, |f|, t), p + |t|, f, t, goal)
  {
    assert Look(true);
    ReplaceRound(s, f, t, k, p);
  }

  /** `replace_substring`: the string may grow, the part still to be searched shrinks. */
  method ReplaceSubstring(s0: bytes, f: bytes, t: bytes) returns (s: bytes)
    requires f != []
    ensures s == ReplaceAll(s0, f, t)
  {
    s := s0;
    ghost var k: nat := 0;
    ghost var goal := ReplaceAll(s0, f, t);
    var pos := Find(s, f, 0);
    PendingStart(s, f, t);
    while pos.Some?
      invariant k <= |s| && pos == Find(s, f, k)
      invariant Pending(s, k, f, t, goal)
      decreases |s| - k
    {
      PendingRound(s, k, f, t, goal, pos.value);
      s := Spliced(s, pos.value, |f|, t);
      k := pos.value + |t|;
      pos := Find(s, f, pos.value + |t|);
    }
    PendingEnd(s, k, f, t, goal);
  }

  lemma SplicedParts(s: bytes, p: nat, n: nat, t: bytes)
    requires p + n <= |s|
    ensures Spliced(s, p, n, t)[..p + |t|] == s[..p] + t && Spliced(s, p, n, t)[p + |t|..] == s[p + n..]
  {
  }

  /** One round: the part in front of `k` is finished, the part behind it still to be replaced in. */
  lemma ReplaceRound(s: bytes, f: bytes, t: bytes, k: nat, p: nat)
    requires f != [] && k <= |s| && Find(s, f, k) == Some(p)
    ensures Finished(Spliced(s, p, |f|, t), p + |t|, f, t) == Finished(s, k, f, t)
  {
    SplicedParts(s, p, |f|, t);
    FinishedBefore(s, f, t, k, p);
  }

  lemma FinishedBefore(s: bytes, f: bytes, t: bytes, k: nat, p: nat)
    requires f != [] && k <= |s| && Find(s, f, k) == Some(p)
    ensures Finished(s, k, f, t) == s[..p] + t + ReplaceAll(s[p + |f|..], f, t)
  {
    NextOccurrence(s, f, k, p);
    OccursFirst(s[k..], f, p - k);
    ReplaceFirst(s[k..], f, t, p - k);
    assert s[k..][p - k + |f|..] == s[p + |f|..];
    PartsBefore(s, k, p, t, ReplaceAll(s[p + |f|..], f, t), ReplaceAll(s[k..], f, t));
  }

  lemma PartsBefore(s: bytes, k: nat, p: nat, t: bytes, r: bytes, x: bytes)
    requires k <= p <= |s| && x == s[k..][..p - k] + (t + r)
    ensures s[..k] + x == s[..p] + t + r
  {
    assert s[..k] + s[k..][..p - k] == s[..p];
  }

  lemma NextOccurrence(s: bytes, f: bytes, k: nat, p: nat)
    requires k <= |s| && Find(s, f, k) == Some(p)
    ensures OccursAt(s[k..], f, p - k) && forall q :: 0 <= q < p - k ==> !OccursAt(s[k..], f, q)
  {
    FindFirst(s, f, k);
    OccursBehind(s, f, k, p - k);
    forall q | 0 <= q < p - k ensures !OccursAt(s[k..], f, q) {
      OccursBehind(s, f, k, q);
    }
  }

  lemma RestHasNone(s: bytes, f: bytes, k: nat)
    requires k <= |s| && Find(s, f, k) == None
    ensures forall q :: 0 <= q ==> !OccursAt(s[k..], f, q)
  {
    FindFirst(s, f, k);
    forall q | 0 <= q ensures !OccursAt(s[k..], f, q) {
      OccursBehind(s, f, k, q);
    }
  }

  // ----- Reference tokens -----

  const TILDE0: bytes := [0x7E, 0x30]
  const TILDE1: bytes := [0x7E, 0x31]

  /** The escaping `flatten` applies to a key: first "~" to "~0", then "/" to "~1". */
  function EscapeToken(k: bytes): bytes {
    ReplaceAll(ReplaceAll(k, [TILDE], TILDE0), [SLASH], TILDE1)
  }

  /** The unescaping `split` applies to a token: first "~1" to "/", then "~0" to "~". */
  function UnescapeToken(u: bytes): bytes {
    ReplaceAll(ReplaceAll(u, TILDE1, [SLASH]), TILDE0, [TILDE])
  }

  /** Section 3 of RFC 6901: "~" is written "~0" and "/" is written "~1". */
  function Encoded(k: bytes): bytes {
    if k == [] then [] else EncodedByte(k[0]) + Encoded(k[1..])
  }

  function EncodedByte(c: byte): bytes {
    if c == TILDE then TILDE0 else if c == SLASH then TILDE1 else [c]
  }

  /** Every "~" is followed by "0" or "1". */
  predicate ProperlyEscaped(u: bytes) {
    if u == [] then true
    else if u[0] == TILDE then |u| > 1 && (u[1] == 0x30 || u[1] == 0x31) && ProperlyEscaped(u[2..])
    else ProperlyEscaped(u[1..])
  }

  /** Section 4 of RFC 6901: one pass from the left. */
  function Decoded(u: bytes): bytes
    requires ProperlyEscaped(u)
  {
    if u == [] then []
    else if u[0] == TILDE then [if u[1] == 0x31 then SLASH else TILDE] + Decoded(u[2..])
    else [u[0]] + Decoded(u[1..])
  }

  lemma {:induction false} EscapeIsEncoding(k: bytes)
    ensures EscapeToken(k) == Encoded(k)
  {
    if k == [] {
    } else {
      EscapeIsEncoding(k[1..]);
      var r := ReplaceAll(k[1..], [TILDE], TILDE0);
      if k[0] == TILDE {
        assert k == [TILDE] + k[1..];
        assert ReplaceAll(k, [TILDE], TILDE0) == TILDE0 + r;
        ReplaceSkips(TILDE0, r, [SLASH], TILDE1);
      } else {
        assert ReplaceAll(k, [TILDE], TILDE0) == [k[0]] + r;
        if k[0] == SLASH {
          assert ([k[0]] + r)[1..] == r && [SLASH] <= [k[0]] + r;
        } else {
          ReplaceSkips([k[0]], r, [SLASH], TILDE1);
        }
      }
    }
  }

  /** Bytes that do not start an occurrence of a pattern are copied. */
  lemma {:induction false} ReplaceSkips(a: bytes, r: bytes, f: bytes, t: bytes)
    requires f != [] && forall i :: 0 <= i < |a| ==> a[i] != f[0]
    ensures ReplaceAll(a + r, f, t) == a + ReplaceAll(r, f, t)
  {
    if a == [] {
      assert a + r == r;
    } else {
      assert (a + r)[1..] == a[1..] + r && (a + r)[0] == a[0];
      ReplaceSkips(a[1..], r, f, t);
      assert a == [a[0]] + a[1..];
    }
  }

  /** The two passes of `split` are the single pass of the standard. */
  lemma {:induction false} UnescapeIsDecoding(u: bytes)
    requires ProperlyEscaped(u)
    ensures UnescapeToken(u) == Decoded(u)
    decreases |u|
  {
    if u == [] {
    } else {
      if u[0] != TILDE {
        UnescapeIsDecoding(u[1..]);
        var r := ReplaceAll(u[1..], TILDE1, [SLASH]);
        assert u == [u[0]] + u[1..];
        ReplaceSkips([u[0]], u[1..], TILDE1, [SLASH]);
        ReplaceSkips([u[0]], r, TILDE0, [TILDE]);
      } else {
        UnescapeIsDecoding(u[2..]);
        var r := ReplaceAll(u[2..], TILDE1, [SLASH]);
        assert u == [u[0], u[1]] + u[2..];
        if u[1] == 0x31 {
          assert TILDE1 <= u;
          assert ReplaceAll(u, TILDE1, [SLASH]) == [SLASH] + r;
          ReplaceSkips([SLASH], r, TILDE0, [TILDE]);
        } else {
          assert u[1..] == [u[1]] + u[2..];
          ReplaceSkips([u[1]], u[2..], TILDE1, [SLASH]);
          var v := ReplaceAll(u, TILDE1, [SLASH]);
          assert v == [TILDE] + ([u[1]] + r) == TILDE0 + r;
          assert v[2..] == r && TILDE0 <= v;
        }
      }
    }
  }

  /** Escaping and unescaping are inverse, both ways. */
  lemma {:induction false} EncodedDecodes(k: bytes)
    ensures ProperlyEscaped(Encoded(k)) && SLASH !in Encoded(k) && Decoded(Encoded(k)) == k
  {
    if k == [] {
    } else {
      EncodedDecodes(k[1..]);
      DecodesFirst(k[0], Encoded(k[1..]));
      assert k == [k[0]] + k[1..];
    }
  }

  lemma DecodesFirst(c: byte, u: bytes)
    requires ProperlyEscaped(u) && SLASH !in u
    ensures ProperlyEscaped(EncodedByte(c) + u) && SLASH !in EncodedByte(c) + u
    ensures Decoded(EncodedByte(c) + u) == [c] + Decoded(u)
  {
    var v := EncodedByte(c) + u;
    if c == TILDE || c == SLASH {
      assert v[2..] == u;
    } else {
      assert v[1..] == u;
    }
  }

  lemma {:induction false} DecodedEncodes(u: bytes)
    requires ProperlyEscaped(u) && SLASH !in u
    ensures Encoded(Decoded(u)) == u
    decreases |u|
  {
    if u == [] {
    } else {
      assert u[0] in u;
      if u[0] == TILDE {
        DecodedEncodes(u[2..]);
        assert Decoded(u)[1..] == Decoded(u[2..]);
        assert u == [u[0], u[1]] + u[2..];
      } else {
        DecodedEncodes(u[1..]);
        assert Decoded(u)[1..] == Decoded(u[1..]);
        assert u == [u[0]] + u[1..];
      }
    }
  }

  // ----- Pointers -----

  /** The pointer string of a list of reference tokens. */
  function Join(tokens: seq<bytes>): bytes {
    if tokens == [] then [] else [SLASH] + Encoded(tokens[0]) + Join(tokens[1..])
  }

  /** The parts of a string between slashes. */
  function Cut(s: bytes): (r: seq<bytes>)
    ensures r != []
  {
    if s == [] then [[]]
    else if s[0] == SLASH then [[]] + Cut(s[1..])
    else var r := Cut(s[1..]); [[s[0]] + r[0]] + r[1..]
  }

  /** Checks and unescapes every part. */
  function UnescapeAll(us: seq<bytes>): Result<seq<bytes>> {
    if us == [] then Ok([])
    else if !ProperlyEscaped(us[0]) then Throw(PointerErr)
    else match UnescapeAll(us[1..])
      case Ok(r) => Ok([UnescapeToken(us[0])] + r)
      case Throw(e) => Throw(e)
  }

  /** The reference tokens of a pointer string, or the exception of `split`. */
  function Split(s: bytes): Result<seq<bytes>> {
    if s == [] then Ok([])
    else if s[0] != SLASH then Throw(PointerErr)
    else UnescapeAll(Cut(s[1..]))
  }

  /** Section 3 of RFC 6901: empty or starting with a slash, and every "~" followed by "0" or "1". */
  predicate IsPointer(s: bytes) {
    (s == [] || s[0] == SLASH) && ProperlyEscaped(s)
  }

  lemma {:induction false} CutFirst(u: bytes, rest: bytes)
    requires SLASH !in u && (rest == [] || rest[0] == SLASH)
    ensures Cut(u + rest) == [u] + if rest == [] then [] else Cut(rest[1..])
  {
    if u == [] {
      assert u + rest == rest;
    } else {
      assert u[0] in u && (u + rest)[1..] == u[1..] + rest;
      CutFirst(u[1..], rest);
      assert u == [u[0]] + u[1..];
    }
  }

  lemma UnescapeFirst(u: bytes, tail: seq<bytes>)
    requires ProperlyEscaped(u) && UnescapeAll(tail).Ok?
    ensures UnescapeAll([u] + tail) == Ok([UnescapeToken(u)] + UnescapeAll(tail).value)
  {
    assert ([u] + tail)[1..] == tail;
  }

  /** The first token of a pointer is the one in front of the rest. */
  lemma SplitFirst(k: bytes, rest: bytes)
    requires Split(rest).Ok?
    ensures Split([SLASH] + (Encoded(k) + rest)) == Ok([k] + Split(rest).value)
  {
    var u := Encoded(k);
    EncodedDecodes(k);
    UnescapeIsDecoding(u);
    CutFirst(u, rest);
    UnescapeFirst(u, if rest == [] then [] else Cut(rest[1..]));
    assert ([SLASH] + (u + rest))[1..] == u + rest;
  }

  /** Splitting the joined form of any token list gives that list back. */
  lemma {:induction false} SplitJoin(tokens: seq<bytes>)
    ensures Split(Join(tokens)) == Ok(tokens)
  {
    if tokens == [] {
    } else {
      SplitJoin(tokens[1..]);
      SplitFirst(tokens[0], Join(tokens[1..]));
      assert Join(tokens) == [SLASH] + (Encoded(tokens[0]) + Join(tokens[1..]));
      assert tokens == [tokens[0]] + tokens[1..];
    }
  }

  /** Joining the parts with slashes in front. */
  function Slashed(us: seq<bytes>): bytes {
    if us == [] then [] else [SLASH] + us[0] + Slashed(us[1..])
  }

  lemma {:induction false} CutSlashed(s: bytes)
    ensures Slashed(Cut(s)) == [SLASH] + s
    ensures forall u :: u in Cut(s) ==> SLASH !in u
  {
    if s == [] {
    } else {
      CutSlashed(s[1..]);
      assert s == [s[0]] + s[1..];
      if s[0] == SLASH {
        assert Cut(s)[1..] == Cut(s[1..]);
      } else {
        Grows(s[0], Cut(s[1..]), s[1..]);
      }
    }
  }

  /** A byte in front of the first part. */
  lemma Grows(c: byte, r: seq<bytes>, t: bytes)
    requires r != [] && c != SLASH && Slashed(r) == [SLASH] + t && forall u :: u in r ==> SLASH !in u
    ensures Slashed([[c] + r[0]] + r[1..]) == [SLASH] + ([c] + t)
    ensures forall u :: u in [[c] + r[0]] + r[1..] ==> SLASH !in u
  {
    SlashedCons(r[0], r[1..]);
    SlashedCons([c] + r[0], r[1..]);
    assert r == [r[0]] + r[1..];
    ByteInFront(c, r[0], Slashed(r[1..]), t);
    assert r[0] in r && forall u :: u in r[1..] ==> u in r;
  }

  lemma SlashedCons(u: bytes, us: seq<bytes>)
    ensures Slashed([u] + us) == [SLASH] + u + Slashed(us)
  {
    assert ([u] + us)[1..] == us;
  }

  lemma ByteInFront(c: byte, u: bytes, rest: bytes, t: bytes)
    requires [SLASH] + u + rest == [SLASH] + t
    ensures [SLASH] + ([c] + u) + rest == [SLASH] + ([c] + t)
  {
    assert ([SLASH] + u + rest)[1..] == u + rest && ([SLASH] + t)[1..] == t;
    assert [SLASH] + ([c] + u) + rest == [SLASH] + ([c] + (u + rest));
  }

  lemma {:induction false} UnescapedJoins(us: seq<bytes>)
    requires UnescapeAll(us).Ok? && forall u :: u in us ==> SLASH !in u
    ensures Join(UnescapeAll(us).value) == Slashed(us)
  {
    if us == [] {
    } else {
      UnescapeIsDecoding(us[0]);
      DecodedEncodes(us[0]);
      UnescapedJoins(us[1..]);
      assert UnescapeAll(us).value[1..] == UnescapeAll(us[1..]).value;
    }
  }

  /** Joining the tokens of a pointer string gives that string back. */
  lemma JoinSplit(s: bytes)
    requires Split(s).Ok?
    ensures Join(Split(s).value) == s
  {
    if s != [] {
      CutSlashed(s[1..]);
      UnescapedJoins(Cut(s[1..]));
      assert s == [SLASH] + s[1..];
    }
  }

  lemma {:induction false} CutEscaped(s: bytes)
    ensures ProperlyEscaped(s) <==> forall u :: u in Cut(s) ==> ProperlyEscaped(u)
    decreases |s|
  {
    if s == [] {
    } else {
      var r := Cut(s[1..]);
      assert r == [r[0]] + r[1..];
      if s[0] == SLASH {
        CutEscaped(s[1..]);
      } else if s[0] != TILDE {
        CutEscaped(s[1..]);
        assert ([s[0]] + r[0])[1..] == r[0];
        HeadTail(r, [s[0]] + r[0]);
      } else if |s| == 1 || (s[1] != 0x30 && s[1] != 0x31) {
        assert Cut(s)[0] == [TILDE] + r[0] && Cut(s)[0] in Cut(s);
        assert |s| > 1 && s[1] != SLASH ==> r[0][0] == s[1];
      } else {
        var q := Cut(s[2..]);
        assert s[1..][1..] == s[2..];
        assert r == [[s[1]] + q[0]] + q[1..];
        CutEscaped(s[2..]);
        var v := [TILDE] + ([s[1]] + q[0]);
        assert v[2..] == q[0];
        assert Cut(s) == [v] + q[1..];
        HeadTail(q, v);
      }
    }
  }

  /** Replacing the first part by one that is escaped alike. */
  lemma HeadTail(r: seq<bytes>, v: bytes)
    requires r != [] && ProperlyEscaped(v) == ProperlyEscaped(r[0])
    ensures (forall u :: u in [v] + r[1..] ==> ProperlyEscaped(u)) <==> (forall u :: u in r ==> ProperlyEscaped(u))
  {
    assert r == [r[0]] + r[1..];
    assert v in [v] + r[1..];
    assert r[0] in r;
    assert forall u :: u in [v] + r[1..] <==> u == v || u in r[1..];
    assert forall u :: u in r <==> u == r[0] || u in r[1..];
  }

  lemma {:induction false} UnescapeAllOk(us: seq<bytes>)
    ensures UnescapeAll(us).Ok? <==> forall u :: u in us ==> ProperlyEscaped(u)
  {
    if us == [] {
    } else {
      UnescapeAllOk(us[1..]);
      assert us[0] in us;
      assert forall u :: u in us <==> u == us[0] || u in us[1..];
    }
  }

  lemma {:induction false} UnescapeAllThrows(us: seq<bytes>)
    ensures UnescapeAll(us).Throw? ==> UnescapeAll(us) == Throw(PointerErr)
  {
    if us == [] {
    } else {
      UnescapeAllThrows(us[1..]);
    }
  }

  /** `split` accepts exactly the pointers of the standard and throws one exception for all others. */
  lemma SplitAccepts(s: bytes)
    ensures Split(s).Ok? <==> IsPointer(s)
    ensures Split(s).Throw? ==> Split(s) == Throw(PointerErr)
  {
    if s == [] {
    } else {
      CutEscaped(s[1..]);
      UnescapeAllOk(Cut(s[1..]));
      UnescapeAllThrows(Cut(s[1..]));
    }
  }

  /** The encoding byte by byte: "~" is "~0", "/" is "~1", and any other byte is itself; a pointer has "/" in front of each token. */
  lemma EncodingBytes(c: byte, k: bytes, tokens: seq<bytes>)
    ensures Encoded([0x7E] + k) == [0x7E, 0x30] + Encoded(k)
    ensures Encoded([0x2F] + k) == [0x7E, 0x31] + Encoded(k)
    ensures c != 0x7E && c != 0x2F ==> Encoded([c] + k) == [c] + Encoded(k)
    ensures Join([k] + tokens) == [0x2F] + Encoded(k) + Join(tokens)
  {
    assert forall b: byte :: ([b] + k)[1..] == k;
    assert ([k] + tokens)[1..] == tokens;
  }

  // ----- The loops of `split` -----

  /** The check of one reference token: no "~" stands at the end or in front of another byte. */
  method CheckEscapes(u: bytes) returns (ok: bool)
    ensures ok == ProperlyEscaped(u)
  {
    var pos := Find(u, [TILDE], 0);
    TildesSkipped(u, 0, pos);
    assert u[0..] == u;
    while pos.Some?
      invariant pos.Some? ==> pos.value < |u| && u[pos.value] == TILDE
      invariant ProperlyEscaped(u) == (pos.None? || ProperlyEscaped(u[pos.value..]))
      decreases if pos.Some? then |u| - pos.value else 0
    {
      var p := pos.value;
      TildePair(u, p);
      if p == |u| - 1 || (u[p + 1] != 0x30 && u[p + 1] != 0x31) {
        return false;
      }
      pos := Find(u, [TILDE], p + 1);
      TildesSkippedFrom(u, p + 2, pos);
    }
    ok := true;
  }

  lemma TildePair(u: bytes, p: nat)
    requires p < |u| && u[p] == TILDE
    ensures ProperlyEscaped(u[p..]) <==> p + 1 < |u| && (u[p + 1] == 0x30 || u[p + 1] == 0x31) && ProperlyEscaped(u[p + 2..])
  {
    if p + 1 < |u| {
      assert u[p..][2..] == u[p + 2..];
    }
  }

  lemma TildesSkippedFrom(u: bytes, k: nat, pos: Option<nat>)
    requires 0 < k <= |u| && Find(u, [TILDE], k - 1) == pos && u[k - 1] != TILDE
    ensures pos.Some? ==> k <= pos.value < |u| && u[pos.value] == TILDE
    ensures ProperlyEscaped(u[k..]) == (pos.None? || ProperlyEscaped(u[pos.value..]))
  {
    assert u[k - 1..k][0] == u[k - 1];
    assert Find(u, [TILDE], k - 1) == Find(u, [TILDE], k);
    TildesSkipped(u, k, pos);
  }

  lemma {:induction false} TildesSkipped(u: bytes, k: nat, pos: Option<nat>)
    requires k <= |u| && Find(u, [TILDE], k) == pos
    ensures pos.Some? ==> k <= pos.value < |u| && u[pos.value] == TILDE
    ensures ProperlyEscaped(u[k..]) == (pos.None? || ProperlyEscaped(u[pos.value..]))
    decreases |u| - k
  {
    if k >= |u| {
    } else {
      assert u[k..][1..] == u[k + 1..];
      if u[k] == TILDE {
        assert u[k..k + 1] == [TILDE];
      } else {
        assert u[k..k + 1][0] == u[k];
        TildesSkipped(u, k + 1, pos);
      }
    }
  }

  /** What `result` holds and what follows from `start` on make up the split; unfolded only where `Look` is mentioned. */
  ghost predicate Splitting(s: bytes, result: seq<bytes>, start: nat) {
    forall once: bool {:trigger Look(once)} :: Look(once) ==> start <= |s| && Appended(result, UnescapeAll(Cut(s[start..]))) == Split(s)
  }

  lemma SplittingStart(s: bytes)
    requires s != [] && s[0] == SLASH
    ensures Splitting(s, [], 1)
  {
    assert forall t: seq<bytes> :: [] + t == t;
  }

  /** One reference token more. */
  lemma SplittingRound(s: bytes, result: seq<bytes>, start: nat, slash: Option<nat>)
    requires start <= |s| && Splitting(s, result, start) && Find(s, [SLASH], start) == slash
    ensures var token := s[start..if slash.Some? then slash.value else |s|];
      && (!ProperlyEscaped(token) ==> Split(s) == Throw(PointerErr))
      && (ProperlyEscaped(token) && slash.None? ==> Split(s) == Ok(result + [UnescapeToken(token)]))
      && (ProperlyEscaped(token) && slash.Some? ==> Splitting(s, result + [UnescapeToken(token)], slash.value + 1))
  {
    hide Cut, Split, Find, UnescapeAll, UnescapeToken, ProperlyEscaped;
    assert Look(true);
    CutAt(s, start, slash);
    var end := if slash.Some? then slash.value else |s|;
    var behind := if slash.Some? then Cut(s[end + 1..]) else [];
    UnescapeAllCons(s[start..end], behind);
    AppendedCons(result, UnescapeToken(s[start..end]), UnescapeAll(behind));
  }

  lemma UnescapeAllCons(u: bytes, us: seq<bytes>)
    ensures UnescapeAll([u] + us) == if ProperlyEscaped(u) then Appended([UnescapeToken(u)], UnescapeAll(us)) else Throw(PointerErr)
    ensures UnescapeAll([]) == Ok([])
  {
    assert ([u] + us)[1..] == us;
  }

  /** `split`, with the positions of the last slash and of the token behind it. */
  method SplitPointer(s: bytes) returns (r: Result<seq<bytes>>)
    ensures r == Split(s)
  {
    if s == [] { return Ok([]); }
    if s[0] != SLASH { return Throw(PointerErr); }
    var result: seq<bytes> := [];
    var start := 1;
    var more := true;
    SplittingStart(s);
    while more
      invariant 1 <= start <= |s|
      invariant more ==> Splitting(s, result, start)
      invariant !more ==> Split(s) == Ok(result)
      decreases more, |s| - start
    {
      var slash := Find(s, [SLASH], start);
      SplittingRound(s, result, start, slash);
      var token := s[start..if slash.Some? then slash.value else |s|];
      var ok := CheckEscapes(token);
      if !ok { return Throw(PointerErr); }
      token := ReplaceSubstring(token, TILDE1, [SLASH]);
      token := ReplaceSubstring(token, TILDE0, [TILDE]);
      result := result + [token];
      if slash.Some? { start := slash.value + 1; }
      more := slash.Some?;
    }
    r := Ok(result);
  }

  ghost function Appended(done: seq<bytes>, r: Result<seq<bytes>>): Result<seq<bytes>> {
    match r
    case Ok(v) => Ok(done + v)
    case Throw(e) => Throw(e)
  }

  lemma AppendedCons(done: seq<bytes>, token: bytes, r: Result<seq<bytes>>)
    ensures Appended(done + [token], r) == Appended(done, Appended([token], r))
    ensures Appended(done + [token], Ok([])) == Ok(done + [token])
  {
    assert done + [token] + [] == done + [token];
    if r.Ok? { assert done + [token] + r.value == done + ([token] + r.value); }
  }

  /** A single byte occurs where it stands. */
  lemma ByteAt(s: bytes, c: byte, p: nat)
    ensures OccursAt(s, [c], p) <==> p < |s| && s[p] == c
  {
    if p < |s| {
      assert s[p..p + 1] == [s[p]];
    }
  }

  /** There is no slash in front of the one found. */
  lemma SlashFree(s: bytes, start: nat, end: nat)
    requires start <= end <= |s|
    requires Find(s, [SLASH], start) == if end < |s| then Some(end) else None
    ensures SLASH !in s[start..end] && (end < |s| ==> s[end] == SLASH)
  {
    FindFirst(s, [SLASH], start);
    ByteAt(s, SLASH, end);
    forall i | start <= i < end ensures s[i] != SLASH {
      ByteAt(s, SLASH, i);
    }
  }

  lemma SliceAt(s: bytes, start: nat, end: nat)
    requires start <= end <= |s|
    ensures s[start..] == s[start..end] + s[end..] && (end < |s| ==> s[end..][0] == s[end] && s[end..][1..] == s[end + 1..])
  {
  }

  /** The part up to the next slash is the first one. */
  lemma CutAt(s: bytes, start: nat, slash: Option<nat>)
    requires start <= |s| && Find(s, [SLASH], start) == slash
    ensures slash.Some? ==> start <= slash.value < |s|
    ensures var end := if slash.Some? then slash.value else |s|;
      Cut(s[start..]) == [s[start..end]] + if slash.Some? then Cut(s[end + 1..]) else []
  {
    hide Find, Cut, OccursAt;
    var end := if slash.Some? then slash.value else |s|;
    SlashFree(s, start, end);
    SliceAt(s, start, end);
    CutFirst(s[start..end], s[end..]);
  }
}
