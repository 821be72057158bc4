/**
 `extra_space` and `escape_string` (include/json.h:5954-6107): the escaped text is written
 into a buffer that was sized beforehand and filled with backslashes.
 */
module Escape {
  import opened Bytes

  /** The lower-case hexadecimal digit of a number below 16. */
  function Hexify(v: nat): byte
    requires v < 16
  {
    if v < 10 then 0x30 + v else 0x61 + v - 10
  }

  /** The escaped form of one byte. */
  function EscapeByte(c: byte): bytes {
    if c == 0x22 then [0x5C, 0x22]
    else if c == 0x5C then [0x5C, 0x5C]
    else if c == 0x08 then [0x5C, 0x62]
    else if c == 0x0C then [0x5C, 0x66]
    else if c == 0x0A then [0x5C, 0x6E]
    else if c == 0x0D then [0x5C, 0x72]
    else if c == 0x09 then [0x5C, 0x74]
    else if c <= 0x1F then [0x5C, 0x75, 0x30, 0x30, Hexify(c / 16), Hexify(c % 16)]
    else [c]
  }

  /** The escaped form of a string, byte by byte. */
  function Escaped(s: bytes): bytes {
    if s == [] then [] else EscapeByte(s[0]) + Escaped(s[1..])
  }

  /** The escape of each byte: itself, its short form, or \u00 and two lower-case hexadecimal digits. */
  lemma EscapeBytes(c: byte)
    ensures c >= 0x20 && c != 0x22 && c != 0x5C ==> EscapeByte(c) == [c]
    ensures EscapeByte(0x22) == [0x5C, 0x22] && EscapeByte(0x5C) == [0x5C, 0x5C]
    ensures EscapeByte(0x08) == [0x5C, 0x62] && EscapeByte(0x0C) == [0x5C, 0x66] && EscapeByte(0x0A) == [0x5C, 0x6E]
    ensures EscapeByte(0x0D) == [0x5C, 0x72] && EscapeByte(0x09) == [0x5C, 0x74]
    ensures c < 0x08 ==> EscapeByte(c) == [0x5C, 0x75, 0x30, 0x30, 0x30, 0x30 + c]
    ensures EscapeByte(0x0B) == [0x5C, 0x75, 0x30, 0x30, 0x30, 0x62]
    ensures EscapeByte(0x0E) == [0x5C, 0x75, 0x30, 0x30, 0x30, 0x65] && EscapeByte(0x0F) == [0x5C, 0x75, 0x30, 0x30, 0x30, 0x66]
    ensures 0x10 <= c < 0x1A ==> EscapeByte(c) == [0x5C, 0x75, 0x30, 0x30, 0x31, 0x30 + (c - 0x10)]
    ensures 0x1A <= c < 0x20 ==> EscapeByte(c) == [0x5C, 0x75, 0x30, 0x30, 0x31, 0x61 + (c - 0x1A)]
  {
  }

  lemma {:induction false} EscapedConcat(s: bytes, t: bytes)
    ensures Escaped(s + t) == Escaped(s) + Escaped(t)
  {
    if s == [] {
      assert s + t == t;
    } else {
      assert (s + t)[1..] == s[1..] + t;
      EscapedConcat(s[1..], t);
    }
  }

  lemma EscapedNext(s: bytes, i: nat)
    requires i < |s|
    ensures Escaped(s[..i + 1]) == Escaped(s[..i]) + EscapeByte(s[i])
    ensures |Escaped(s[..i + 1])| <= |Escaped(s)|
  {
    assert s[..i + 1] == s[..i] + [s[i]];
    EscapedConcat(s[..i], [s[i]]);
    assert Escaped([s[i]]) == EscapeByte(s[i]);
    assert s == s[..i + 1] + s[i + 1..];
    EscapedConcat(s[..i + 1], s[i + 1..]);
  }

  lemma {:induction false} EscapedLonger(s: bytes)
    ensures |Escaped(s)| >= |s|
    ensures |Escaped(s)| == |s| ==> Escaped(s) == s
  {
    if s == [] {
    } else {
      EscapedLonger(s[1..]);
      assert s == [s[0]] + s[1..];
    }
  }

  /** Counts exactly the bytes that escaping adds. */
  method ExtraSpace(s: bytes) returns (result: nat)
    ensures |s| + result == |Escaped(s)|
  {
    result := 0;
    for i := 0 to |s|
      invariant i + result == |Escaped(s[..i])|
    {
      var c := s[i];
      EscapedNext(s, i);
      if c == 0x22 || c == 0x5C || c == 0x08 || c == 0x0C || c == 0x0A || c == 0x0D || c == 0x09 {
        result := result + 1;
      } else if c <= 0x1F {
        result := result + 5;
      }
    }
    assert s[..|s|] == s;
  }

  /** The loop that prints a control character as \uxxxx behind the backslash already there. */
  method WriteUnicode(result: array<byte>, start: nat, c: byte) returns (pos: nat)
    requires c <= 0x1F && start + 6 <= result.Length
    requires result[start] == 0x5C
    modifies result
    ensures pos == start + 6
    ensures result[..pos] == old(result[..start]) + [0x5C, 0x75, 0x30, 0x30, Hexify(c / 16), Hexify(c % 16)]
    ensures result[pos..] == old(result[pos..])
  {
    pos := start;
    var m := [0x75, 0x30, 0x30, Hexify(c / 16), Hexify(c % 16)];
    for j := 0 to 5
      invariant pos == start + j
      invariant result[..pos + 1] == old(result[..start]) + [0x5C] + m[..j]
      invariant result[start + 6..] == old(result[start + 6..])
    {
      pos := pos + 1;
      result[pos] := m[j];
    }
    pos := pos + 1;
  }

  /** One character of the loop: its escape replaces the backslashes at `start`. */
  method WriteEscape(result: array<byte>, start: nat, c: byte) returns (pos: nat)
    requires start + |EscapeByte(c)| <= result.Length
    requires forall k :: start <= k < result.Length ==> result[k] == 0x5C
    modifies result
    ensures pos == start + |EscapeByte(c)|
    ensures result[..pos] == old(result[..start]) + EscapeByte(c)
    ensures forall k :: pos <= k < result.Length ==> result[k] == 0x5C
  {
    if c == 0x22 {
      result[start + 1] := 0x22;
      pos := start + 2;
    } else if c == 0x5C {
      pos := start + 2;
    } else if c == 0x08 {
      result[start + 1] := 0x62;
      pos := start + 2;
    } else if c == 0x0C {
      result[start + 1] := 0x66;
      pos := start + 2;
    } else if c == 0x0A {
      result[start + 1] := 0x6E;
      pos := start + 2;
    } else if c == 0x0D {
      result[start + 1] := 0x72;
      pos := start + 2;
    } else if c == 0x09 {
      result[start + 1] := 0x74;
      pos := start + 2;
    } else if c <= 0x1F {
      pos := WriteUnicode(result, start, c);
      assert forall k :: pos <= k < result.Length ==> result[k] == result[pos..][k - pos] == old(result[start + 6..])[k - pos];
    } else {
      result[start] := c;
      pos := start + 1;
    }
  }

  /** Every write lands inside the buffer, and the result is the byte-by-byte escape. */
  method EscapeString(s: bytes) returns (r: bytes)
    ensures r == Escaped(s)
  {
    var space := ExtraSpace(s);
    if space == 0 {
      EscapedLonger(s);
      return s;
    }
    var result := new byte[|s| + space](_ => 0x5C);
    var pos := 0;
    for i := 0 to |s|
      invariant pos == |Escaped(s[..i])| <= result.Length
      invariant result[..pos] == Escaped(s[..i])
      invariant forall k :: pos <= k < result.Length ==> result[k] == 0x5C
    {
      EscapedNext(s, i);
      pos := WriteEscape(result, pos, s[i]);
    }
    assert s[..|s|] == s;
    assert pos == |s| + space;
    return result[..];
  }
}
