/**
 `lexer::to_unicode` (include/json.h:7402-7464) against section 3 of RFC 3629 (UTF-8) and
 section 2.2 of RFC 2781 (surrogate pairs). Shifts and masks are written as division and
 remainder by powers of two, and `|` of disjoint bits as a sum.
 */
module Utf8 {
  import opened Bytes

  predicate IsHigh(cp: nat) { 0xD800 <= cp <= 0xDBFF }

  predicate IsLow(cp: nat) { 0xDC00 <= cp <= 0xDFFF }

  /** A Unicode scalar value: a code point that is not a surrogate. */
  predicate IsScalar(cp: nat) { cp <= 0x10FFFF && !IsHigh(cp) && !IsLow(cp) }

  function ToUnicode(codepoint1: nat, codepoint2: nat): Result<bytes> {
    if IsHigh(codepoint1) then
      if IsLow(codepoint2) then Encode(codepoint1 * 0x400 + codepoint2 - 0x35FDC00) else Throw(SurrogateErr)
    else Encode(codepoint1)
  }

  function Encode(cp: nat): Result<bytes> {
    if cp < 0x80 then Ok([cp])
    else if cp <= 0x7FF then Ok([0xC0 + cp / 0x40 % 0x20, 0x80 + cp % 0x40])
    else if cp <= 0xFFFF then Ok([0xE0 + cp / 0x1000 % 0x10, 0x80 + cp / 0x40 % 0x40, 0x80 + cp % 0x40])
    else if cp <= 0x10FFFF then
      Ok([0xF0 + cp / 0x40000 % 8, 0x80 + cp / 0x1000 % 0x40, 0x80 + cp / 0x40 % 0x40, 0x80 + cp % 0x40])
    else Throw(CodePointErr)
  }

  predicate IsTail(c: byte) { 0x80 <= c <= 0xBF }

  /** UTF8-char of section 4 of RFC 3629. */
  predicate IsUtf8Char(s: bytes) {
    || (|s| == 1 && s[0] <= 0x7F)
    || (|s| == 2 && 0xC2 <= s[0] <= 0xDF && IsTail(s[1]))
    || (|s| == 3 && IsTail(s[2])
        && ((s[0] == 0xE0 && 0xA0 <= s[1] <= 0xBF) || (0xE1 <= s[0] <= 0xEC && IsTail(s[1]))
            || (s[0] == 0xED && 0x80 <= s[1] <= 0x9F) || (0xEE <= s[0] <= 0xEF && IsTail(s[1]))))
    || (|s| == 4 && IsTail(s[2]) && IsTail(s[3])
        && ((s[0] == 0xF0 && 0x90 <= s[1] <= 0xBF) || (0xF1 <= s[0] <= 0xF3 && IsTail(s[1]))
            || (s[0] == 0xF4 && 0x80 <= s[1] <= 0x8F)))
  }

  /** The payload of a byte behind its marker bits. */
  function Bits(c: byte, marker: nat): nat
    requires marker <= c
  {
    c - marker
  }

  /** The code point of a UTF-8 character: its payload bits in order. */
  function Decode(s: bytes): nat
    requires IsUtf8Char(s)
  {
    if |s| == 1 then s[0]
    else if |s| == 2 then Bits(s[0], 0xC0) * 0x40 + Bits(s[1], 0x80)
    else if |s| == 3 then Bits(s[0], 0xE0) * 0x1000 + Bits(s[1], 0x80) * 0x40 + Bits(s[2], 0x80)
    else Bits(s[0], 0xF0) * 0x40000 + Bits(s[1], 0x80) * 0x1000 + Bits(s[2], 0x80) * 0x40 + Bits(s[3], 0x80)
  }

  lemma DecodeIsScalar(s: bytes)
    requires IsUtf8Char(s)
    ensures IsScalar(Decode(s))
  {
  }

  /** Every scalar value is encoded as the one UTF-8 character that decodes to it. */
  lemma EncodeDecode(cp: nat, c2: nat)
    requires IsScalar(cp)
    ensures ToUnicode(cp, c2).Ok? && IsUtf8Char(ToUnicode(cp, c2).value) && Decode(ToUnicode(cp, c2).value) == cp
  {
    if 0x7FF < cp <= 0xFFFF {
      EncodeDecode3(cp);
    } else if 0xFFFF < cp {
      EncodeDecode4(cp);
    }
  }

  /** The six-bit groups of a number. */
  lemma Groups(n: nat)
    ensures n / 0x1000 == n / 0x40 / 0x40 && n / 0x40000 == n / 0x1000 / 0x40
    ensures n == n / 0x1000 * 0x1000 + n / 0x40 % 0x40 * 0x40 + n % 0x40
    ensures n / 0x1000 == n / 0x40000 * 0x40 + n / 0x1000 % 0x40
  {
  }

  lemma EncodeDecode3(cp: nat)
    requires IsScalar(cp) && 0x7FF < cp <= 0xFFFF
    ensures IsUtf8Char(Encode(cp).value) && Decode(Encode(cp).value) == cp
  {
    Groups(cp);
    var a, b, c := cp / 0x1000, cp / 0x40 % 0x40, cp % 0x40;
    assert cp == a * 0x1000 + b * 0x40 + c && a < 0x10;
    assert a == 0 ==> b >= 0x20;
    assert a == 0xD ==> b < 0x20;
    assert Encode(cp).value == [0xE0 + a, 0x80 + b, 0x80 + c];
  }

  lemma EncodeDecode4(cp: nat)
    requires 0xFFFF < cp <= 0x10FFFF
    ensures IsUtf8Char(Encode(cp).value) && Decode(Encode(cp).value) == cp
  {
    Groups(cp);
    var a, b, c, d := cp / 0x40000, cp / 0x1000 % 0x40, cp / 0x40 % 0x40, cp % 0x40;
    assert cp == a * 0x40000 + b * 0x1000 + c * 0x40 + d && a <= 4;
    assert a == 0 ==> b >= 0x10;
    assert a == 4 ==> b < 0x10;
    assert Encode(cp).value == [0xF0 + a, 0x80 + b, 0x80 + c, 0x80 + d];
  }

  /** And every UTF-8 character is the encoding of its code point, so distinct code points give distinct bytes. */
  lemma DecodeEncode(s: bytes)
    requires IsUtf8Char(s)
    ensures ToUnicode(Decode(s), 0) == Ok(s)
  {
    DecodeIsScalar(s);
    if |s| == 1 {
      assert s == [s[0]];
    } else if |s| == 2 {
      assert s == [s[0], s[1]];
      Radix(Bits(s[0], 0xC0), Bits(s[1], 0x80), 0x40);
    } else if |s| == 3 {
      DecodeEncode3(s);
    } else if |s| == 4 {
      DecodeEncode4(s);
    }
  }

  lemma DecodeEncode3(s: bytes)
    requires IsUtf8Char(s) && |s| == 3
    ensures Encode(Decode(s)) == Ok(s)
  {
    var cp := Decode(s);
    var a, b, c := Bits(s[0], 0xE0), Bits(s[1], 0x80), Bits(s[2], 0x80);
    Groups(cp);
    Radix(a * 0x40 + b, c, 0x40);
    Radix(a, b, 0x40);
    assert 0x7FF < cp <= 0xFFFF;
    assert s == [s[0], s[1], s[2]];
    assert Encode(cp).value == [0xE0 + a, 0x80 + b, 0x80 + c];
  }

  lemma DecodeEncode4(s: bytes)
    requires IsUtf8Char(s) && |s| == 4
    ensures Encode(Decode(s)) == Ok(s)
  {
    var cp := Decode(s);
    var a, b, c, d := Bits(s[0], 0xF0), Bits(s[1], 0x80), Bits(s[2], 0x80), Bits(s[3], 0x80);
    Groups(cp);
    Radix((a * 0x40 + b) * 0x40 + c, d, 0x40);
    Radix(a * 0x40 + b, c, 0x40);
    Radix(a, b, 0x40);
    assert a * 0x40 + b >= 0x10;
    assert 0xFFFF < cp <= 0x10FFFF;
    assert s == [s[0], s[1], s[2], s[3]];
    assert Encode(cp).value == [0xF0 + a, 0x80 + b, 0x80 + c, 0x80 + d];
  }

  lemma Radix(q: nat, r: nat, m: nat)
    requires r < m
    ensures (q * m + r) / m == q && (q * m + r) % m == r
  {
    var n := q * m + r;
    var k := n / m;
    assert n == k * m + n % m;
    assert k > q ==> k * m >= (q + 1) * m;
    assert k < q ==> k * m <= (q - 1) * m;
  }

  /** The bytes of two scalar values are in the order of the values. */
  lemma Utf8Order(a: nat, b: nat)
    requires IsScalar(a) && IsScalar(b) && a < b
    ensures Less(Encode(a).value, Encode(b).value)
  {
    var x, y := Encode(a).value, Encode(b).value;
    if a >= 0x80 && b <= 0x7FF {
      Order2(a, b);
    } else if a > 0x7FF && b <= 0xFFFF {
      Order3(a, b);
    } else if a > 0xFFFF {
      Order4(a, b);
    } else {
      LeadingOrder(a, b);
      BytewiseLess(x, y, 0);
    }
  }

  /** The groups of six bits in front keep the order, and the last one does where they agree. */
  lemma Sixes(a: nat, b: nat)
    requires a < b
    ensures a / 0x40 < b / 0x40 || (a / 0x40 == b / 0x40 && a % 0x40 < b % 0x40)
  {
  }

  lemma LeadingOrder(a: nat, b: nat)
    requires IsScalar(a) && IsScalar(b) && a < b
    requires b < 0x80 || a < 0x80 || (a <= 0x7FF < b) || (a <= 0xFFFF < b)
    ensures Encode(a).value[0] < Encode(b).value[0]
  {
  }

  lemma Order2(a: nat, b: nat)
    requires 0x80 <= a < b <= 0x7FF
    ensures Less(Encode(a).value, Encode(b).value)
  {
    Sixes(a, b);
    BytewiseLess(Encode(a).value, Encode(b).value, if a / 0x40 < b / 0x40 then 0 else 1);
  }

  lemma Order3(a: nat, b: nat)
    requires 0x7FF < a < b <= 0xFFFF
    ensures Less(Encode(a).value, Encode(b).value)
  {
    Groups(a);
    Groups(b);
    Sixes(a, b);
    if a / 0x40 < b / 0x40 {
      Sixes(a / 0x40, b / 0x40);
    }
    BytewiseLess(Encode(a).value, Encode(b).value, if a / 0x1000 < b / 0x1000 then 0 else if a / 0x40 < b / 0x40 then 1 else 2);
  }

  lemma Order4(a: nat, b: nat)
    requires 0xFFFF < a < b <= 0x10FFFF
    ensures Less(Encode(a).value, Encode(b).value)
  {
    var n := FourGroups(a, b);
    BytewiseLess(Encode(a).value, Encode(b).value, n);
  }

  lemma FourBytes(n: nat)
    requires 0xFFFF < n <= 0x10FFFF
    ensures n / 0x40000 <= 4 && Encode(n).value == [0xF0 + n / 0x40000, 0x80 + n / 0x1000 % 0x40, 0x80 + n / 0x40 % 0x40, 0x80 + n % 0x40]
  {
  }

  /** The first of four groups that differs. */
  lemma FourGroups(a: nat, b: nat) returns (n: nat)
    requires 0xFFFF < a < b <= 0x10FFFF
    ensures n < 4 && Encode(a).value[n] < Encode(b).value[n] && forall i :: 0 <= i < n ==> Encode(a).value[i] == Encode(b).value[i]
  {
    hide Encode;
    FourBytes(a);
    FourBytes(b);
    Groups(a);
    Groups(b);
    Sixes(a, b);
    n := 3;
    if a / 0x40 != b / 0x40 {
      Sixes(a / 0x40, b / 0x40);
      n := 2;
      if a / 0x1000 != b / 0x1000 {
        Sixes(a / 0x1000, b / 0x1000);
        n := if a / 0x40000 != b / 0x40000 then 0 else 1;
      }
    }
  }

  lemma BytewiseLess(x: bytes, y: bytes, n: nat)
    requires n < |x| && n < |y| && x[n] < y[n] && forall i :: 0 <= i < n ==> x[i] == y[i]
    ensures Less(x, y)
  {
    LessAtFirst(x, y);
    assert x[..n] == y[..n];
    assert FirstDiffers(x, y, n);
  }

  /** Section 2.2 of RFC 2781: the supplementary code point of a surrogate pair. */
  function FromPair(high: nat, low: nat): nat
    requires IsHigh(high) && IsLow(low)
  {
    0x10000 + (high - 0xD800) * 0x400 + (low - 0xDC00)
  }

  /** Section 2.1 of RFC 2781: the surrogate pair of a supplementary code point. */
  function ToPair(cp: nat): (nat, nat)
    requires 0x10000 <= cp <= 0x10FFFF
  {
    (0xD800 + (cp - 0x10000) / 0x400, 0xDC00 + (cp - 0x10000) % 0x400)
  }

  /** A pair is encoded as its supplementary code point, and pairs correspond one to one to those. */
  lemma Pairs(high: nat, low: nat)
    requires IsHigh(high) && IsLow(low)
    ensures ToUnicode(high, low) == ToUnicode(FromPair(high, low), 0)
    ensures 0x10000 <= FromPair(high, low) <= 0x10FFFF && ToPair(FromPair(high, low)) == (high, low)
  {
    Radix(high - 0xD800, low - 0xDC00, 0x400);
  }

  lemma PairsOnto(cp: nat)
    requires 0x10000 <= cp <= 0x10FFFF
    ensures IsHigh(ToPair(cp).0) && IsLow(ToPair(cp).1) && FromPair(ToPair(cp).0, ToPair(cp).1) == cp
  {
  }

  /** Pairs are in the order of their code points, the high surrogate first. */
  lemma PairOrder(high: nat, low: nat, high': nat, low': nat)
    requires IsHigh(high) && IsLow(low) && IsHigh(high') && IsLow(low')
    ensures FromPair(high, low) < FromPair(high', low') <==> high < high' || (high == high' && low < low')
  {
  }

  /** The result is UTF-8 exactly for scalar values and surrogate pairs: a lone low surrogate is encoded too. */
  lemma Utf8Exactly(c1: nat, c2: nat)
    ensures ToUnicode(c1, c2).Ok? && IsUtf8Char(ToUnicode(c1, c2).value) <==> IsScalar(c1) || (IsHigh(c1) && IsLow(c2))
    ensures ToUnicode(c1, c2).Throw? <==> c1 > 0x10FFFF || (IsHigh(c1) && !IsLow(c2))
  {
    if IsScalar(c1) {
      EncodeDecode(c1, c2);
    } else if IsHigh(c1) && IsLow(c2) {
      Pairs(c1, c2);
      EncodeDecode(FromPair(c1, c2), 0);
    } else if IsLow(c1) {
      LoneLow(c1);
    }
  }

  lemma LoneLow(c: nat)
    requires IsLow(c)
    ensures Encode(c).Ok? && |Encode(c).value| == 3 && Encode(c).value[0] == 0xED && Encode(c).value[1] >= 0xB0
    ensures !IsUtf8Char(Encode(c).value)
  {
    assert c / 0x1000 == 0xD;
    assert 0x370 <= c / 0x40 <= 0x37F;
  }
}
