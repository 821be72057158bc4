/**
 Integer literals: the decimal digits `dump` prints (include/json.h:6231-6241) and the
 64-bit accumulation of `lexer::get_number` (include/json.h:8531-8643). The value of a
 literal with fraction or exponent, or of one that does not fit, is a float identified by
 the literal; the conversion itself belongs to the C library.
 */
module Numbers {
  import opened Bytes
  import opened Values
  import opened Lexemes
  import opened NumberGrammar

  /** The decimal digits of a number, as `operator<<` prints it. */
  function Decimal(n: nat): (ds: bytes)
    ensures ds != []
  {
    if n < 10 then [0x30 + n] else Decimal(n / 10) + [0x30 + n % 10]
  }

  function DecimalSigned(i: int): bytes {
    if i < 0 then [0x2D] + Decimal(-i) else Decimal(i)
  }

  function DigitValue(c: byte): nat
    requires IsDigit(c)
  {
    c - 0x30
  }

  /** The number a digit string denotes. */
  function Value(ds: bytes): nat
    requires AllDigits(ds)
  {
    if ds == [] then 0 else 10 * Value(ds[..|ds| - 1]) + DigitValue(ds[|ds| - 1])
  }

  /** The overflow test of the loop on the 64-bit accumulator `w` and the next digit. */
  predicate Overflows(w: nat, d: nat, max: nat) {
    var temp := (w * 10 + d) % TWO_64;
    temp < w || temp > max
  }

  /** The accumulation over a digit string; `None` once the test has failed. */
  ghost function Accumulate(ds: bytes, max: nat): (r: Option<nat>)
    requires AllDigits(ds)
    ensures r.Some? ==> r.value < TWO_64
  {
    if ds == [] then Some(0)
    else
      var w := Accumulate(ds[..|ds| - 1], max);
      if w.None? || Overflows(w.value, DigitValue(ds[|ds| - 1]), max) then None
      else Some((w.value * 10 + DigitValue(ds[|ds| - 1])) % TWO_64)
  }

  /** What `get_number` makes of a number token. */
  ghost function NumberOf(literal: bytes): Json
    requires literal != []
  {
    if literal[0] == 0x2D then
      if AllDigits(literal[1..]) && Accumulate(literal[1..], TWO_63).Some?
      then Integer(0 - Accumulate(literal[1..], TWO_63).value) else Float(literal)
    else if AllDigits(literal) && Accumulate(literal, TWO_64 - 1).Some?
    then Unsigned(Accumulate(literal, TWO_64 - 1).value) else Float(literal)
  }

  // ----- The overflow test, in exact arithmetic -----

  /** The wrap test compares the quotients by 2^64 of 10w+d and 9w+d. */
  lemma WrapTest(w: nat, d: nat, max: nat)
    requires w < TWO_64 && d < 10
    ensures Overflows(w, d, max) <==> (10 * w + d) / TWO_64 != (9 * w + d) / TWO_64 || (10 * w + d) % TWO_64 > max
  {
    var q := (10 * w + d) / TWO_64;
    var p := (9 * w + d) / TWO_64;
    assert 10 * w + d == q * TWO_64 + (10 * w + d) % TWO_64;
    assert 9 * w + d == p * TWO_64 + (9 * w + d) % TWO_64;
  }

  /** The test rejects digit `i` of the literal. */
  ghost predicate CaughtAt(ds: bytes, max: nat, i: nat)
    requires AllDigits(ds) && i < |ds|
  {
    var w := Value(ds[..i]) % TWO_64;
    var d := DigitValue(ds[i]);
    (10 * w + d) / TWO_64 != (9 * w + d) / TWO_64 || (10 * w + d) % TWO_64 > max
  }

  ghost predicate Caught(ds: bytes, max: nat)
    requires AllDigits(ds)
  {
    exists i :: 0 <= i < |ds| && CaughtAt(ds, max, i)
  }

  /** The accumulation stops exactly when some digit is caught; otherwise it is the value modulo 2^64. */
  lemma {:induction false} AccumulateExactly(ds: bytes, max: nat)
    requires AllDigits(ds)
    ensures Accumulate(ds, max) == if Caught(ds, max) then None else Some(Value(ds) % TWO_64)
  {
    if ds == [] {
    } else {
      var n := |ds| - 1;
      var t := ds[..n];
      AccumulateExactly(t, max);
      CaughtLast(ds, max);
      WrapTest(Value(t) % TWO_64, DigitValue(ds[n]), max);
      WrapValue(Value(t), DigitValue(ds[n]));
    }
  }

  /** A digit is caught in front of the last one, or the last one is. */
  lemma CaughtLast(ds: bytes, max: nat)
    requires ds != [] && AllDigits(ds)
    ensures var n := |ds| - 1; Caught(ds, max) <==> Caught(ds[..n], max) || CaughtAt(ds, max, n)
  {
    var t := ds[..|ds| - 1];
    forall i | 0 <= i < |t| ensures CaughtAt(ds, max, i) == CaughtAt(t, max, i) {
      assert ds[..i] == t[..i];
    }
    if Caught(t, max) {
      var i :| 0 <= i < |t| && CaughtAt(t, max, i);
      assert CaughtAt(ds, max, i);
    }
  }

  lemma WrapValue(v: nat, d: nat)
    ensures (v % TWO_64 * 10 + d) % TWO_64 == (10 * v + d) % TWO_64
  {
    var k := v / TWO_64;
    assert v == k * TWO_64 + v % TWO_64;
    assert 10 * v + d == 10 * k * TWO_64 + (v % TWO_64 * 10 + d);
    ModShift(v % TWO_64 * 10 + d, 10 * k);
  }

  lemma {:induction false} ModShift(n: nat, k: nat)
    ensures (k * TWO_64 + n) % TWO_64 == n % TWO_64
  {
    if k == 0 {
    } else {
      ModShift(n, k - 1);
      assert k * TWO_64 + n == (k - 1) * TWO_64 + n + TWO_64;
    }
  }

  /** A value that fits is never caught. */
  lemma {:induction false} FittingNotCaught(ds: bytes, max: nat)
    requires AllDigits(ds) && Value(ds) <= max < TWO_64
    ensures !Caught(ds, max)
  {
    if ds == [] {
    } else {
      var n := |ds| - 1;
      FittingNotCaught(ds[..n], max);
      forall i | 0 <= i < n ensures !CaughtAt(ds, max, i) {
        assert ds[..n][..i] == ds[..i];
        assert !CaughtAt(ds[..n], max, i);
      }
      LastNotCaught(ds, max);
    }
  }

  lemma LastNotCaught(ds: bytes, max: nat)
    requires ds != [] && AllDigits(ds) && Value(ds) <= max < TWO_64
    ensures !CaughtAt(ds, max, |ds| - 1)
  {
    var v, d := Value(ds[..|ds| - 1]), DigitValue(ds[|ds| - 1]);
    assert Value(ds) == 10 * v + d;
    Below(v);
    Below(9 * v + d);
    Below(10 * v + d);
  }

  lemma Below(n: nat)
    requires n < TWO_64
    ensures n / TWO_64 == 0 && n % TWO_64 == n
  {
  }

  /** What the documentation promises: an integer of the right type when the value fits, a float when it does not. */
  ghost predicate ReadsAsPromised(literal: bytes)
    requires literal != [] && AllDigits(Magnitude(literal))
  {
    NumberOf(literal) == if literal[0] == 0x2D then
      (if Value(Magnitude(literal)) <= TWO_63 then Integer(0 - Value(Magnitude(literal))) else Float(literal))
    else
      (if Value(Magnitude(literal)) < TWO_64 then Unsigned(Value(Magnitude(literal))) else Float(literal))
  }

  /** The literal without its sign. */
  function Magnitude(literal: bytes): bytes
    requires literal != []
  {
    if literal[0] == 0x2D then literal[1..] else literal
  }

  function Limit(literal: bytes): nat
    requires literal != []
  {
    if literal[0] == 0x2D then TWO_63 else TWO_64 - 1
  }

  /** The promise is kept exactly when the value fits or the wrap test catches some digit; else the value is taken modulo 2^64. */
  lemma NumberExactly(literal: bytes)
    requires literal != [] && AllDigits(Magnitude(literal))
    ensures ReadsAsPromised(literal)
       <==> Value(Magnitude(literal)) <= Limit(literal) || Caught(Magnitude(literal), Limit(literal))
    ensures !ReadsAsPromised(literal) ==>
      var v := Value(Magnitude(literal)) % TWO_64; NumberOf(literal) == if literal[0] == 0x2D then Integer(0 - v) else Unsigned(v)
  {
    var ds, max := Magnitude(literal), Limit(literal);
    AccumulateExactly(ds, max);
    if Value(ds) <= max {
      FittingNotCaught(ds, max);
    } else if !Caught(ds, max) {
      assert Value(ds) % TWO_64 != Value(ds) || Value(ds) > max;
    }
  }

  /** A literal that reaches 2^64 with a digit for which 9v+d stays below is a float, whatever digits follow. */
  lemma FirstWrapCaught(ds: bytes, i: nat)
    requires AllDigits(ds) && i < |ds| && ds[0] != 0x2D
    requires Value(ds[..i]) < TWO_64 <= 10 * Value(ds[..i]) + DigitValue(ds[i])
    requires 9 * Value(ds[..i]) + DigitValue(ds[i]) < TWO_64
    ensures NumberOf(ds) == Float(ds)
  {
    AccumulateExactly(ds, TWO_64 - 1);
    assert CaughtAt(ds, TWO_64 - 1, i);
  }

  /** 42000000000000000000 is beyond 2^64 and yet read as the unsigned number 5106511852580896768. */
  lemma MissedWrap()
    ensures var ds := Decimal(42000000000000000000);
      AllDigits(ds) && !ReadsAsPromised(ds) && NumberOf(ds) == Unsigned(5106511852580896768)
  {
    var ds := Decimal(42000000000000000000);
    MissedNotCaught();
    DecimalValue(42000000000000000000);
    assert IsDigit(ds[0]);
    NumberExactly(ds);
    assert 42000000000000000000 % TWO_64 == 5106511852580896768;
  }

  lemma MissedNotCaught()
    ensures var ds := Decimal(42000000000000000000); AllDigits(ds) && !Caught(ds, TWO_64 - 1)
  {
    var n := 4200000000000000000;
    DecimalValue(10 * n);
    DecimalValue(n);
    DecimalNotCaught(n);
    LastDigit(10 * n);
    LastMissed(Decimal(10 * n), n);
    CaughtLast(Decimal(10 * n), TWO_64 - 1);
  }

  lemma LastMissed(ds: bytes, n: nat)
    requires n == 4200000000000000000 && AllDigits(ds) && ds != [] && Value(ds[..|ds| - 1]) == n && ds[|ds| - 1] == 0x30
    ensures !CaughtAt(ds, TWO_64 - 1, |ds| - 1)
  {
    Below(n);
    Quotient(9 * n, 2);
    Quotient(10 * n, 2);
  }

  lemma Quotient(x: nat, q: nat)
    requires q * TWO_64 <= x < (q + 1) * TWO_64
    ensures x / TWO_64 == q
  {
    var r := x / TWO_64;
    assert x == r * TWO_64 + x % TWO_64;
  }

  lemma LastDigit(n: nat)
    requires n >= 10
    ensures Decimal(n)[..|Decimal(n)| - 1] == Decimal(n / 10) && Decimal(n)[|Decimal(n)| - 1] == 0x30 + n % 10
  {
  }

  lemma DecimalNotCaught(n: nat)
    requires n < TWO_64
    ensures AllDigits(Decimal(n)) && !Caught(Decimal(n), TWO_64 - 1)
  {
    DecimalValue(n);
    FittingNotCaught(Decimal(n), TWO_64 - 1);
  }

  // ----- Fractions and exponents -----

  /** A number with a fraction or an exponent is a float, whatever its digits. */
  lemma FractionIsFloat(s: bytes, i: nat, j: nat, k: nat)
    requires HasParts(s, i, j, k) && j < |s|
    ensures NumberOf(s) == Float(s)
  {
    IntBytes(s[i..j]);
    assert s[i] == s[i..j][0];
    if j < k {
      assert s[j..k][0] == s[j];
    } else {
      assert s[k..][0] == s[j];
    }
    assert Magnitude(s)[j - i] == s[j] && !IsDigit(s[j]);
  }

  lemma IntBytes(t: bytes)
    requires IsInt(t)
    ensures IsDigit(t[0]) && AllDigits(t)
  {
  }

  /** A number read as an integer has neither; it is signed exactly when it has a minus sign. */
  lemma IntegerPartsOnly(s: bytes, i: nat, j: nat, k: nat)
    requires HasParts(s, i, j, k)
    ensures NumberOf(s).Integer? ==> j == |s| && i == 1
    ensures NumberOf(s).Unsigned? ==> j == |s| && i == 0
    ensures NumberOf(s).Float? ==> NumberOf(s) == Float(s)
  {
    IntBytes(s[i..j]);
    assert s[i] == s[i..j][0];
    if j < |s| {
      FractionIsFloat(s, i, j, k);
    }
  }

  // ----- Printing and reading back -----

  /** The printed digits are an integer of the grammar that denotes the number. */
  lemma {:induction false} DecimalValue(n: nat)
    ensures IsInt(Decimal(n)) && Value(Decimal(n)) == n
    ensures n > 0 ==> Decimal(n)[0] != 0x30
  {
    if n >= 10 {
      DecimalValue(n / 10);
      var ds := Decimal(n);
      assert ds[..|ds| - 1] == Decimal(n / 10);
    } else {
      assert Decimal(n)[..0] == [];
    }
  }

  /** Every printed 64-bit number is read back as itself; a non-negative one as unsigned. */
  lemma NumberRoundTrip(i: int)
    requires -9223372036854775808 <= i <= 18446744073709551615
    ensures NumberOf(DecimalSigned(i)) == if i < 0 then Integer(i) else Unsigned(i)
  {
    var literal := DecimalSigned(i);
    DecimalValue(if i < 0 then -i else i);
    if i < 0 {
      assert literal[1..] == Decimal(-i);
    } else {
      assert IsDigit(literal[0]);
    }
    NumberExactly(literal);
    FittingNotCaught(Magnitude(literal), Limit(literal));
  }

  /** A byte that cannot continue an integer literal. */
  predicate EndsNumber(c: byte) {
    !IsDigit(c) && c != 0x2E && c != 0x65 && c != 0x45
  }

  lemma {:induction false} DigitsThen(ds: bytes, rest: bytes)
    requires AllDigits(ds) && (rest == [] || !IsDigit(rest[0]))
    ensures Digits(ds + rest) == |ds|
  {
    if ds == [] {
      assert ds + rest == rest;
    } else {
      assert (ds + rest)[1..] == ds[1..] + rest;
      DigitsThen(ds[1..], rest);
    }
  }

  lemma IntThen(ds: bytes, rest: bytes)
    requires IsInt(ds) && (rest == [] || EndsNumber(rest[0]))
    ensures var t := ds + rest; IsDigit(t[0]) && IntLength(t) == |ds| && FracExpLength(t[|ds|..]) == 0
  {
    DigitsThen(ds, rest);
    assert (ds + rest)[0] == ds[0];
    assert (ds + rest)[|ds|..] == rest;
    assert rest[0..] == rest;
  }

  lemma IntIsToken(ds: bytes, rest: bytes)
    requires IsInt(ds) && (rest == [] || EndsNumber(rest[0]))
    ensures Token(ds + rest) == (ValueNumber, |ds|)
  {
    var t := ds + rest;
    IntThen(ds, rest);
    NumberFirst(t);
    assert t[0..] == t;
  }

  lemma MinusIsToken(ds: bytes, rest: bytes)
    requires IsInt(ds) && (rest == [] || EndsNumber(rest[0]))
    ensures Token([0x2D] + ds + rest) == (ValueNumber, 1 + |ds|)
  {
    var s, t := [0x2D] + ds + rest, ds + rest;
    IntThen(ds, rest);
    NumberFirst(s);
    MinusInFront(ds, rest);
  }

  lemma MinusInFront(ds: bytes, rest: bytes)
    ensures var s, t := [0x2D] + ds + rest, ds + rest; s[0] == 0x2D && s[1..] == t && s[1 + |ds|..] == t[|ds|..]
  {
  }

  /** A printed number is one number token. */
  lemma NumberIsToken(i: int, rest: bytes)
    requires rest == [] || EndsNumber(rest[0])
    ensures Token(DecimalSigned(i) + rest) == (ValueNumber, |DecimalSigned(i)|)
  {
    if i < 0 {
      DecimalValue(-i);
      MinusIsToken(Decimal(-i), rest);
    } else {
      DecimalValue(i);
      IntIsToken(Decimal(i), rest);
    }
  }
}
