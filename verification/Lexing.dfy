/**
 The `lexer` class (include/json.h:7333-8660) on a string buffer: `scan`, `get_string`
 and `get_number` work on the start of the current token and the cursor behind it.
 */
module Lexing {
  import opened Bytes
  import opened Lexemes
  import opened Scanner
  import opened StringCodec
  import Utf8
  import opened Values
  import opened NumberGrammar
  import opened Numbers

  /** The lexer object: a buffer, the start of the current token and the cursor. */
  class Lexer {
    const m_buffer: bytes
    var m_start: nat
    var m_cursor: nat

    constructor (s: bytes)
      ensures m_buffer == s && m_start == 0 && m_cursor == 0
    {
      m_buffer := s;
      m_start, m_cursor := 0, 0;
    }

    /** The next token is the one the rules name; the cursor is left behind it. */
    method Scan() returns (kind: Kind)
      requires m_cursor <= |m_buffer|
      modifies this
      ensures Lexeme(kind, m_start, m_cursor) == LexAt(m_buffer, old(m_cursor))
      decreases |m_buffer| - m_cursor
    {
      m_start := m_cursor;
      var marker, accept := 0, 0;
      var cursor := m_cursor;
      var pc := FirstLabel(At(m_buffer, cursor));
      Enters(m_buffer, m_start);
      ghost var fate := Expected(m_buffer, m_start, Config(pc, cursor, marker, accept));
      while true
        invariant m_start == m_cursor == old(m_cursor)
        invariant Consistent(m_buffer, m_start, Config(pc, cursor, marker, accept))
        invariant Expected(m_buffer, m_start, Config(pc, cursor, marker, accept)) == fate
        decreases Rest(m_buffer, Config(pc, cursor, marker, accept))
      {
        var c := Config(pc, cursor, marker, accept);
        Keeps(m_buffer, m_start, c);
        match Step(m_buffer, c) {
          case Goto(d) => pc, cursor, marker, accept := d.pc, d.cursor, d.marker, d.accept;
          case Return(k, p) =>
            m_cursor := p;
            return k;
          case Rescan(p) =>
            m_cursor := p;
            kind := Scan();
            return;
        }
      }
    }

    /** The value of the current string token, or the exception `to_unicode` or a missing surrogate raises. */
    method GetString() returns (r: Result<bytes>)
      requires InToken(m_buffer, m_start + 1, m_cursor)
      ensures r == ValueFrom(m_buffer, m_start + 1, m_cursor)
    {
      var b, end := m_buffer, m_cursor;
      var result: bytes := [];
      var i := m_start + 1;
      ghost var value, rest := ValueFrom(b, i, end), ValueFrom(b, i, end);
      PrefixedTwice([], [], rest);
      while i < end - 1
        invariant m_start < i < end
        invariant InToken(b, i, end) && rest == ValueFrom(b, i, end)
        invariant Prefixed(result, rest) == value
      {
        var piece, next := GetCharacter(i);
        if piece.Throw? { return Throw(piece.error); }
        rest := ValueFrom(b, next, end);
        PrefixedTwice(result, piece.value, rest);
        result, i := result + piece.value, next;
      }
      LastRound(b, i, end);
      PrefixedTwice(result, [], Ok([]));
      r := Ok(result);
    }

    /** One round of the loop at `i`: the characters to append and the position of the next round. */
    method GetCharacter(i: nat) returns (r: Result<bytes>, next: nat)
      requires InToken(m_buffer, i, m_cursor) && i + 1 < m_cursor
      ensures r.Throw? ==> ValueFrom(m_buffer, i, m_cursor) == r
      ensures r.Ok? ==> i < next && InToken(m_buffer, next, m_cursor)
      ensures r.Ok? ==> ValueFrom(m_buffer, i, m_cursor) == Prefixed(r.value, ValueFrom(m_buffer, next, m_cursor))
    {
      var b := m_buffer;
      if b[i] == BACKSLASH {
        ShortRound(b, i, m_cursor);
        if b[i + 1] != 0x75 {
          r, next := Ok([ShortMeaning(b[i + 1])]), i + 2;
        } else {
          r, next := GetUnicode(i + 1);
        }
      } else {
        PlainRound(b, i, m_cursor);
        r, next := Ok([b[i]]), i + 1;
      }
    }

    /** The `\u` case of `get_string`, with `i` at the `u`: the characters and the position behind the escape. */
    method GetUnicode(i: nat) returns (r: Result<bytes>, next: nat)
      requires 0 < i && InToken(m_buffer, i - 1, m_cursor)
      requires i + 1 < m_cursor && m_buffer[i - 1] == BACKSLASH && m_buffer[i] == 0x75
      ensures r.Throw? ==> ValueFrom(m_buffer, i - 1, m_cursor) == r
      ensures r.Ok? ==> i < next && InToken(m_buffer, next, m_cursor)
      ensures r.Ok? ==> ValueFrom(m_buffer, i - 1, m_cursor) == Prefixed(r.value, ValueFrom(m_buffer, next, m_cursor))
    {
      var b := m_buffer;
      next := i;
      SingleRound(b, i - 1, m_cursor);
      var codepoint := HexValue(b[i + 1..i + 5]);
      if 0xD800 <= codepoint <= 0xDBFF {
        PairRound(b, i - 1, m_cursor);
        if i + 6 >= |b| || b[i + 5] != BACKSLASH || b[i + 6] != 0x75 {
          return Throw(SurrogateErr), next;
        }
        r := Utf8.ToUnicode(codepoint, HexValue(b[i + 7..i + 11]));
        next := i + 11;
      } else {
        r := Utf8.ToUnicode(codepoint, 0);
        next := i + 5;
      }
    }

    /** The value of the current number token, with the accumulator wrapping at 2^64. */
    method GetNumber() returns (result: Json)
      requires m_start < m_cursor <= |m_buffer|
      requires m_buffer[m_start] == 0x2D ==> m_start + 1 < m_cursor
      ensures result == NumberOf(m_buffer[m_start..m_cursor])
    {
      ghost var literal := m_buffer[m_start..m_cursor];
      var curptr := m_start;
      var value, max, negative, float := 0, TWO_64 - 1, false, false;
      if m_buffer[curptr] == 0x2D {
        negative, max := true, TWO_63;
        curptr := curptr + 1;
      }
      ghost var first := curptr;
      ghost var ds := m_buffer[first..m_cursor];
      while curptr < m_cursor
        invariant first <= curptr <= m_cursor
        invariant !float ==> AllDigits(ds[..curptr - first]) && Accumulate(ds[..curptr - first], max) == Some(value)
        invariant float ==> !AllDigits(ds) || Accumulate(ds, max) == None
      {
        var c := m_buffer[curptr];
        assert c == ds[curptr - first];
        if c < 0x30 || c > 0x39 {
          float := true;
          if c != 0x2E { break; }
        } else if !float {
          float, value := AddDigit(ds, curptr - first, max, value, c);
        }
        curptr := curptr + 1;
      }
      assert ds[..|ds|] == ds == if negative then literal[1..] else literal;
      result := if float then Float(m_buffer[m_start..m_cursor]) else if negative then Integer(-(value as int)) else Unsigned(value);
    }
  }

  /** The digit case of the loop: the next accumulator, or the overflow that makes the number a float. */
  method AddDigit(ghost ds: bytes, ghost i: nat, max: nat, value: nat, c: byte) returns (overflow: bool, next: nat)
    requires i < |ds| && ds[i] == c && IsDigit(c) && AllDigits(ds[..i])
    requires Accumulate(ds[..i], max) == Some(value)
    ensures AllDigits(ds[..i + 1])
    ensures !overflow ==> Accumulate(ds[..i + 1], max) == Some(next)
    ensures overflow ==> !AllDigits(ds) || Accumulate(ds, max) == None
  {
    var temp := (value * 10 + c - 0x30) % TWO_64;
    ghost var seen := ds[..i + 1];
    assert seen[..|seen| - 1] == ds[..i];
    overflow, next := temp < value || temp > max, temp;
    if overflow {
      StaysFloat(ds, i + 1, max);
    }
  }

  /** Once the accumulation has stopped, further digits do not revive it. */
  lemma {:induction false} StaysFloat(ds: bytes, i: nat, max: nat)
    requires i <= |ds|
    requires AllDigits(ds[..i]) && Accumulate(ds[..i], max) == None
    ensures !AllDigits(ds) || Accumulate(ds, max) == None
  {
    if i < |ds| {
      assert ds[..|ds| - 1][..i] == ds[..i];
      StaysFloat(ds[..|ds| - 1], i, max);
    } else {
      assert ds[..i] == ds;
    }
  }
}
