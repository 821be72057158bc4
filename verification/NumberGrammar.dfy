/**
 The number grammar of section 6 of RFC 7159, and that the number token is the longest
 prefix of the text that derives from it. Forms like "1.x", "0e+" and "12E" are the ones
 on which the scanner has to return to its marker.
 */
module NumberGrammar {
  import opened Bytes
  import opened Lexemes

  predicate AllDigits(s: bytes) {
    forall i :: 0 <= i < |s| ==> IsDigit(s[i])
  }

  /** int = zero / ( digit1-9 *DIGIT ) */
  ghost predicate IsInt(s: bytes) {
    s != [] && AllDigits(s) && (s[0] == 0x30 ==> |s| == 1)
  }

  /** frac = decimal-point 1*DIGIT */
  ghost predicate IsFrac(s: bytes) {
    |s| > 1 && s[0] == 0x2E && AllDigits(s[1..])
  }

  /** exp = e [ minus / plus ] 1*DIGIT */
  ghost predicate IsExp(s: bytes) {
    |s| > 1 && (s[0] == 0x65 || s[0] == 0x45)
    && (AllDigits(s[1..]) || (|s| > 2 && (s[1] == 0x2B || s[1] == 0x2D) && AllDigits(s[2..])))
  }

  /** number = [ minus ] int [ frac ] [ exp ], with its parts ending at `i`, `j`, `k`. */
  ghost predicate HasParts(s: bytes, i: nat, j: nat, k: nat) {
    && i <= j <= k <= |s|
    && (i == 0 || (i == 1 && s[0] == 0x2D))
    && IsInt(s[i..j])
    && (j == k || IsFrac(s[j..k]))
    && (k == |s| || IsExp(s[k..]))
  }

  ghost predicate IsNumber(s: bytes) {
    exists i: nat, j: nat, k: nat :: HasParts(s, i, j, k)
  }

  lemma {:induction false} DigitRun(s: bytes)
    ensures AllDigits(s[..Digits(s)])
    ensures forall n :: 0 <= n <= |s| && AllDigits(s[..n]) ==> n <= Digits(s)
  {
    if s != [] && IsDigit(s[0]) {
      DigitRun(s[1..]);
      var d := Digits(s[1..]);
      forall i | 0 <= i < d + 1 ensures IsDigit(s[i]) {
        if i > 0 { assert s[i] == s[1..][..d][i - 1]; }
      }
      forall n | 0 <= n <= |s| && AllDigits(s[..n]) ensures n <= d + 1 {
        if n > 0 {
          assert s[1..][..n - 1] == s[..n][1..];
          assert AllDigits(s[1..][..n - 1]);
        }
      }
    } else {
      assert forall n :: 0 < n <= |s| ==> s[..n][0] == s[0];
    }
  }

  lemma IntRun(s: bytes)
    ensures IntLength(s) > 0 ==> IsInt(s[..IntLength(s)])
    ensures forall n :: 0 <= n <= |s| && IsInt(s[..n]) ==> n <= IntLength(s)
    ensures forall n :: 0 <= n < IntLength(s) ==> IsDigit(s[n])
  {
    DigitRun(s);
    forall n | 0 <= n < IntLength(s) ensures IsDigit(s[n]) {
      assert s[..IntLength(s)][n] == s[n];
      if s[0] != 0x30 { assert s[..Digits(s)][n] == s[n]; }
    }
  }

  lemma FracRun(s: bytes)
    ensures FracLength(s) > 0 ==> IsFrac(s[..FracLength(s)])
    ensures forall n :: 0 <= n <= |s| && IsFrac(s[..n]) ==> n <= FracLength(s)
    ensures forall n :: 1 <= n < FracLength(s) ==> IsDigit(s[n])
  {
    if s != [] {
      var t := s[1..];
      DigitRun(t);
      forall n | 0 <= n <= |s| && IsFrac(s[..n]) ensures n <= FracLength(s) {
        assert s[..n][1..] == t[..n - 1];
      }
      if FracLength(s) > 0 {
        assert s[..FracLength(s)][1..] == t[..Digits(t)];
        forall n | 1 <= n < FracLength(s) ensures IsDigit(s[n]) {
          assert t[..Digits(t)][n - 1] == s[n];
        }
      }
    }
  }

  lemma ExpRun(s: bytes)
    ensures ExpLength(s) > 0 ==> IsExp(s[..ExpLength(s)])
    ensures forall n :: 0 <= n <= |s| && IsExp(s[..n]) ==> n <= ExpLength(s)
  {
    if |s| > 1 && (s[0] == 0x65 || s[0] == 0x45) {
      var k := if s[1] == 0x2B || s[1] == 0x2D then 2 else 1;
      var t := s[k..];
      DigitRun(t);
      if ExpLength(s) > 0 {
        assert s[..ExpLength(s)][k..] == t[..Digits(t)];
      }
      forall n | 0 <= n <= |s| && IsExp(s[..n]) ensures n <= ExpLength(s) {
        var p := s[..n];
        if AllDigits(p[1..]) {
          assert p[1..][0] == s[1];
          assert k == 1 && p[1..] == t[..n - 1];
        } else {
          assert p[2..] == t[..n - 2];
        }
      }
    }
  }

  /** A part of a prefix is a prefix of a rest. */
  lemma Slice(s: bytes, e: nat, i: nat, j: nat)
    requires i <= j <= e <= |s|
    ensures s[..e][i..j] == s[i..][..j - i]
  {
  }

  function Sign(s: bytes): nat {
    if s != [] && s[0] == 0x2D then 1 else 0
  }

  /** The number token derives from the grammar. */
  lemma NumberTokenIsNumber(s: bytes)
    requires NumberLength(s) > 0
    ensures IsNumber(s[..NumberLength(s)])
  {
    var m := Sign(s);
    var j := m + IntLength(s[m..]);
    var f := FracLength(s[j..]);
    var k := j + f;
    var e := k + ExpLength(s[k..]);
    assert s[j..][f..] == s[k..];
    assert e == NumberLength(s);
    PartsDerive(s, j, k, e);
  }

  lemma PartsDerive(s: bytes, j: nat, k: nat, e: nat)
    requires Sign(s) <= |s| && j == Sign(s) + IntLength(s[Sign(s)..]) && j > Sign(s)
    requires k == j + FracLength(s[j..]) && e == k + ExpLength(s[k..])
    ensures IsNumber(s[..e])
  {
    var m := Sign(s);
    IntRun(s[m..]);
    FracRun(s[j..]);
    ExpRun(s[k..]);
    Slice(s, e, m, j);
    Slice(s, e, j, k);
    Slice(s, e, k, e);
    assert s[..e][k..] == s[..e][k..e];
    assert HasParts(s[..e], m, j, k);
  }

  /** No longer prefix does. */
  lemma NumberTokenIsLongest(s: bytes, e: nat)
    requires e <= |s| && IsNumber(s[..e])
    ensures 0 < e <= NumberLength(s)
  {
    hide NumberLength, IntLength, FracExpLength;
    var i: nat, j: nat, k: nat :| HasParts(s[..e], i, j, k);
    LongestInt(s, e, i, j, k);
    LengthBehind(s, i);
    assert j < k ==> s[..e][j..k][0] == s[j];
    assert k < e ==> s[..e][k..][0] == s[k];
    if j == i + IntLength(s[i..]) {
      LongestBehindInt(s, e, j, k);
    }
  }

  lemma LengthBehind(s: bytes, i: nat)
    requires i == Sign(s) && i <= |s| && IntLength(s[i..]) > 0
    ensures var j := i + IntLength(s[i..]); NumberLength(s) == j + FracExpLength(s[j..])
  {
  }

  /** The integer part of the number is the longest run, or the number ends within it. */
  lemma LongestInt(s: bytes, e: nat, i: nat, j: nat, k: nat)
    requires e <= |s| && HasParts(s[..e], i, j, k)
    ensures i == Sign(s) && i < j <= i + IntLength(s[i..]) && (j < i + IntLength(s[i..]) ==> IsDigit(s[j]))
  {
    var p := s[..e];
    assert IsDigit(p[i..j][0]) && p[i..j][0] == s[i];
    Slice(s, e, i, j);
    IntRun(s[i..]);
    assert j < i + IntLength(s[i..]) ==> s[i..][j - i] == s[j];
  }

  lemma LongestBehindInt(s: bytes, e: nat, j: nat, k: nat)
    requires j <= k <= e <= |s|
    requires j == k || IsFrac(s[..e][j..k])
    requires k == e || IsExp(s[..e][k..])
    ensures e <= j + FracExpLength(s[j..])
  {
    var f := FracLength(s[j..]);
    assert s[j..][f..] == s[j + f..];
    FracRun(s[j..]);
    Slice(s, e, j, k);
    assert k < e ==> s[..e][k..][0] == s[k];
    if k < j + f {
      assert s[j..][k - j] == s[k];
    } else {
      ExpRun(s[k..]);
      Slice(s, e, k, e);
      assert s[..e][k..] == s[..e][k..e];
    }
  }

  lemma NumberFirst(s: bytes)
    requires s != [] && (s[0] == 0x2D || IsDigit(s[0]))
    ensures Token(s) == if NumberLength(s) > 0 then (ValueNumber, NumberLength(s)) else (ParseError, 1)
  {
  }

  /** Where a number could start, the token read is a number exactly when some prefix derives from the grammar. */
  lemma NumberToken(s: bytes)
    requires s != [] && (s[0] == 0x2D || IsDigit(s[0]))
    ensures Token(s).0 == ValueNumber <==> exists e :: 0 <= e <= |s| && IsNumber(s[..e])
    ensures Token(s).0 == ValueNumber ==>
      IsNumber(s[..Token(s).1]) && forall e :: 0 <= e <= |s| && IsNumber(s[..e]) ==> e <= Token(s).1
    ensures Token(s).0 != ValueNumber ==> Token(s) == (ParseError, 1)
  {
    NumberFirst(s);
    if NumberLength(s) > 0 { NumberTokenIsNumber(s); }
    forall e | 0 <= e <= |s| && IsNumber(s[..e]) ensures 0 < e <= NumberLength(s) {
      NumberTokenIsLongest(s, e);
    }
  }
}
