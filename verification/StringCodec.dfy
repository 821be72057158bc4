/**
 What a string token means, and `lexer::get_string` (include/json.h:8336-8437).
 The contents of a string token are a sequence of items; the scanner accepts exactly the
 item sequences, `get_string` computes their meaning, and the meaning of an escaped
 string is the string.
 */
module StringCodec {
  import opened Bytes
  import opened Lexemes
  import opened Utf8
  import opened Escape

  /** A character for itself, a two-byte escape, or \uXXXX with its four hexadecimal digits. */
  datatype Item = Plain(c: byte) | Short(c: byte) | Unicode(h: bytes)

  predicate ValidItem(x: Item) {
    match x
    case Plain(c) => IsPlain(c)
    case Short(c) => IsSimpleEscape(c)
    case Unicode(h) => |h| == 4 && IsHex(h[0]) && IsHex(h[1]) && IsHex(h[2]) && IsHex(h[3])
  }

  ghost predicate ValidItems(items: seq<Item>) {
    forall k :: 0 <= k < |items| ==> ValidItem(items[k])
  }

  function ItemText(x: Item): bytes {
    match x
    case Plain(c) => [c]
    case Short(c) => [BACKSLASH, c]
    case Unicode(h) => [BACKSLASH, 0x75] + h
  }

  function Text(items: seq<Item>): bytes {
    if items == [] then [] else ItemText(items[0]) + Text(items[1..])
  }

  /** The items of a text, read from the left. */
  function ItemsIn(s: bytes): seq<Item> {
    if s == [] then []
    else if s[0] != BACKSLASH || |s| == 1 then [Plain(s[0])] + ItemsIn(s[1..])
    else if s[1] != 0x75 || |s| < 6 then [Short(s[1])] + ItemsIn(s[2..])
    else [Unicode(s[2..6])] + ItemsIn(s[6..])
  }

  /** The character a two-byte escape stands for. */
  function ShortMeaning(c: byte): byte {
    if c == 0x62 then 0x08
    else if c == 0x66 then 0x0C
    else if c == 0x6E then 0x0A
    else if c == 0x72 then 0x0D
    else if c == 0x74 then 0x09
    else c
  }

  function HexDigitValue(c: byte): nat
    requires IsHex(c)
  {
    if IsDigit(c) then c - 0x30 else if c <= 0x46 then c - 0x41 + 10 else c - 0x61 + 10
  }

  /** `std::strtoul` of four hexadecimal digits. */
  function HexValue(h: bytes): (v: nat)
    requires ValidItem(Unicode(h))
    ensures v <= 0xFFFF
  {
    HexDigitValue(h[0]) * 0x1000 + HexDigitValue(h[1]) * 0x100 + HexDigitValue(h[2]) * 0x10 + HexDigitValue(h[3])
  }

  /** `u` in front of what the rest means. */
  function Prefixed(u: bytes, r: Result<bytes>): Result<bytes> {
    match r
    case Ok(v) => Ok(u + v)
    case Throw(e) => Throw(e)
  }

  lemma PrefixedTwice(u: bytes, v: bytes, r: Result<bytes>)
    ensures Prefixed(u, Prefixed(v, r)) == Prefixed(u + v, r)
    ensures Prefixed([], r) == r
    ensures Prefixed(u, Ok([])) == Ok(u)
  {
    assert u + [] == u;
    if r.Ok? {
      assert u + (v + r.value) == u + v + r.value && [] + r.value == r.value;
    }
  }

  /** A high surrogate takes the next item, which has to be a low surrogate, with it. */
  function Meaning(items: seq<Item>): Result<bytes>
    requires ValidItems(items)
  {
    if items == [] then Ok([])
    else match items[0]
      case Plain(c) => Prefixed([c], Meaning(items[1..]))
      case Short(c) => Prefixed([ShortMeaning(c)], Meaning(items[1..]))
      case Unicode(h) =>
        if !IsHigh(HexValue(h)) then
          match ToUnicode(HexValue(h), 0) {
            case Ok(u) => Prefixed(u, Meaning(items[1..]))
            case Throw(e) => Throw(e)
          }
        else if |items| > 1 && items[1].Unicode? then
          match ToUnicode(HexValue(h), HexValue(items[1].h)) {
            case Ok(u) => Prefixed(u, Meaning(items[2..]))
            case Throw(e) => Throw(e)
          }
        else Throw(SurrogateErr)
  }

  // ----- The scanner accepts exactly the item sequences -----

  lemma {:induction false} HexRun(s: bytes, n: nat, r: nat)
    requires HexTail(s, n) == Some(r)
    ensures n < r <= |s| && StringTail(s[n..]) == Some(r - n)
    ensures forall k :: 0 <= k < n ==> IsHex(s[k])
  {
    if n == 0 {
      assert s[0..] == s;
    } else {
      HexRun(s[1..], n - 1, r - 1);
      assert s[1..][n - 1..] == s[n..];
      assert forall k :: 1 <= k < n ==> s[k] == s[1..][k - 1];
    }
  }

  /** The first item of a string token, by its first bytes: a plain byte, */
  lemma PlainFirst(s: bytes, n: nat)
    requires StringTail(s) == Some(n) && n > 1 && s[0] != BACKSLASH
    ensures IsPlain(s[0]) && StringTail(s[1..]) == Some(n - 1)
    ensures ItemsIn(s[..n - 1]) == [Plain(s[0])] + ItemsIn(s[1..][..n - 2])
  {
    assert s[..n - 1][1..] == s[1..][..n - 2];
  }

  /** a two-byte escape, */
  lemma ShortFirst(s: bytes, n: nat)
    requires StringTail(s) == Some(n) && n > 1 && s[0] == BACKSLASH
    ensures n > 2
    ensures s[1] != 0x75 ==> IsSimpleEscape(s[1]) && StringTail(s[2..]) == Some(n - 2)
    ensures s[1] != 0x75 ==> ItemsIn(s[..n - 1]) == [Short(s[1])] + ItemsIn(s[2..][..n - 3])
  {
    assert s[1..][1..] == s[2..];
    if s[1] != 0x75 {
      assert s[..n - 1][2..] == s[2..][..n - 3];
    }
  }

  /** or a \u escape. */
  lemma UnicodeFirst(s: bytes, n: nat)
    requires StringTail(s) == Some(n) && n > 2 && s[0] == BACKSLASH && s[1] == 0x75
    ensures n > 6 && ValidItem(Unicode(s[2..6])) && StringTail(s[6..]) == Some(n - 6)
    ensures ItemsIn(s[..n - 1]) == [Unicode(s[2..6])] + ItemsIn(s[6..][..n - 7])
  {
    assert s[1..][1..] == s[2..];
    HexRun(s[2..], 4, n - 2);
    assert s[2..][4..] == s[6..];
    assert forall k :: 0 <= k < 4 ==> s[2..6][k] == s[2..][k];
    assert s[..n - 1][2..6] == s[2..6] && s[..n - 1][6..] == s[6..][..n - 7];
  }

  /** The text is spelled by its items. */
  ghost predicate Spelled(text: bytes) {
    ValidItems(ItemsIn(text)) && Text(ItemsIn(text)) == text
  }

  /** One item in front of such a text. */
  lemma TokenCons(x: Item, text: bytes, t: bytes)
    requires ValidItem(x) && ItemsIn(text) == [x] + ItemsIn(t) && text == ItemText(x) + t && Spelled(t)
    ensures Spelled(text)
  {
    assert ([x] + ItemsIn(t))[1..] == ItemsIn(t);
  }

  lemma PlainSpelled(s: bytes, n: nat)
    requires StringTail(s) == Some(n) && n > 1 && s[0] != BACKSLASH && Spelled(s[1..][..n - 2])
    ensures Spelled(s[..n - 1])
  {
    PlainFirst(s, n);
    assert s[..n - 1] == [s[0]] + s[1..][..n - 2];
    TokenCons(Plain(s[0]), s[..n - 1], s[1..][..n - 2]);
  }

  lemma ShortSpelled(s: bytes, n: nat)
    requires StringTail(s) == Some(n) && n > 2 && s[0] == BACKSLASH && s[1] != 0x75 && Spelled(s[2..][..n - 3])
    ensures Spelled(s[..n - 1])
  {
    ShortFirst(s, n);
    assert s[..n - 1] == [s[0], s[1]] + s[2..][..n - 3];
    TokenCons(Short(s[1]), s[..n - 1], s[2..][..n - 3]);
  }

  lemma UnicodeSpelled(s: bytes, n: nat)
    requires StringTail(s) == Some(n) && n > 6 && s[0] == BACKSLASH && s[1] == 0x75 && Spelled(s[6..][..n - 7])
    ensures Spelled(s[..n - 1])
  {
    UnicodeFirst(s, n);
    assert s[..n - 1] == [s[0], s[1]] + s[2..6] + s[6..][..n - 7];
    TokenCons(Unicode(s[2..6]), s[..n - 1], s[6..][..n - 7]);
  }

  /** Every string token spells a sequence of items. */
  lemma {:induction false} TokenItems(s: bytes, n: nat)
    requires StringTail(s) == Some(n)
    ensures ValidItems(ItemsIn(s[..n - 1])) && Text(ItemsIn(s[..n - 1])) == s[..n - 1]
    decreases |s|
  {
    hide StringTail, ItemsIn, Text, ValidItem;
    if n == 1 {
      EmptySpelled(s[..0]);
    } else if s[0] != BACKSLASH {
      PlainFirst(s, n);
      TokenItems(s[1..], n - 1);
      PlainSpelled(s, n);
    } else {
      ShortFirst(s, n);
      if s[1] != 0x75 {
        TokenItems(s[2..], n - 2);
        ShortSpelled(s, n);
      } else {
        UnicodeFirst(s, n);
        TokenItems(s[6..], n - 6);
        UnicodeSpelled(s, n);
      }
    }
  }

  lemma EmptySpelled(s: bytes)
    requires s == []
    ensures Spelled(s)
  {
  }

  lemma {:induction false} HexForward(h: bytes, s: bytes)
    requires forall k :: 0 <= k < |h| ==> IsHex(h[k])
    ensures HexTail(h + s, |h|) == Advance(|h|, StringTail(s))
  {
    if h == [] {
      assert h + s == s;
    } else {
      assert (h + s)[1..] == h[1..] + s;
      HexForward(h[1..], s);
    }
  }

  /** Every sequence of items is the contents of a string token, whatever follows the closing quote. */
  lemma {:induction false} ItemsToken(items: seq<Item>, rest: bytes)
    requires ValidItems(items)
    ensures StringTail(Text(items) + [QUOTE] + rest) == Some(|Text(items)| + 1)
  {
    if items == [] {
    } else {
      ItemsToken(items[1..], rest);
      ItemInFront(items[0], Text(items[1..]) + [QUOTE] + rest);
      assert Text(items) + [QUOTE] + rest == ItemText(items[0]) + (Text(items[1..]) + [QUOTE] + rest);
    }
  }

  lemma ItemInFront(x: Item, t: bytes)
    requires ValidItem(x)
    ensures StringTail(ItemText(x) + t) == Advance(|ItemText(x)|, StringTail(t))
  {
    var s := ItemText(x) + t;
    match x {
      case Plain(c) => assert s[1..] == t;
      case Short(c) => assert s[1..][1..] == t;
      case Unicode(h) =>
        assert s[1..][1..] == h + t;
        HexForward(h, t);
    }
  }

  /** Reading the items of a text gives back the items it was written from. */
  lemma {:induction false} ItemsOfText(items: seq<Item>)
    requires ValidItems(items)
    ensures ItemsIn(Text(items)) == items
  {
    if items == [] {
    } else {
      var s := Text(items);
      var x := ItemText(items[0]);
      var t := Text(items[1..]);
      ItemsOfText(items[1..]);
      assert items == [items[0]] + items[1..];
      match items[0] {
        case Plain(c) => assert s[1..] == t;
        case Short(c) => assert s[2..] == t;
        case Unicode(h) => assert s[2..6] == h && s[6..] == t;
      }
    }
  }

  // ----- The meaning of an escaped string is the string -----

  /** The item `escape_string` writes for a byte. */
  function EscapeItem(c: byte): (x: Item)
    ensures ValidItem(x) && ItemText(x) == EscapeByte(c)
  {
    if c == 0x22 || c == 0x5C then Short(c)
    else if c == 0x08 then Short(0x62)
    else if c == 0x0C then Short(0x66)
    else if c == 0x0A then Short(0x6E)
    else if c == 0x0D then Short(0x72)
    else if c == 0x09 then Short(0x74)
    else if c <= 0x1F then Unicode([0x30, 0x30, Hexify(c / 16), Hexify(c % 16)])
    else Plain(c)
  }

  function EscapeItems(s: bytes): seq<Item> {
    if s == [] then [] else [EscapeItem(s[0])] + EscapeItems(s[1..])
  }

  lemma {:induction false} EscapedItems(s: bytes)
    ensures ValidItems(EscapeItems(s)) && Text(EscapeItems(s)) == Escaped(s)
    ensures Meaning(EscapeItems(s)) == Ok(s)
  {
    if s == [] {
    } else {
      EscapedItems(s[1..]);
      EscapedFirst(s[0], EscapeItems(s[1..]));
      assert s == [s[0]] + s[1..];
    }
  }

  lemma EscapedFirst(c: byte, items: seq<Item>)
    requires ValidItems(items) && Meaning(items).Ok?
    ensures ValidItems([EscapeItem(c)] + items) && Text([EscapeItem(c)] + items) == EscapeByte(c) + Text(items)
    ensures Meaning([EscapeItem(c)] + items) == Ok([c] + Meaning(items).value)
  {
    assert ([EscapeItem(c)] + items)[1..] == items;
    if EscapeItem(c).Unicode? {
      assert HexValue(EscapeItem(c).h) == c;
    }
  }

  /** The value of the string token whose contents are `s`. */
  function StringValue(s: bytes): Result<bytes>
    requires ValidItems(ItemsIn(s))
  {
    Meaning(ItemsIn(s))
  }

  /** A quoted escaped string, whatever follows it, is read as one string token with the string as its value. */
  lemma EscapeRoundTrip(s: bytes, rest: bytes)
    ensures Token([QUOTE] + Escaped(s) + [QUOTE] + rest) == (ValueString, |Escaped(s)| + 2)
    ensures ValidItems(ItemsIn(Escaped(s))) && StringValue(Escaped(s)) == Ok(s)
  {
    EscapedItems(s);
    ItemsOfText(EscapeItems(s));
    EscapedToken(s, rest);
  }

  lemma EscapedToken(s: bytes, rest: bytes)
    ensures Token([QUOTE] + Escaped(s) + [QUOTE] + rest) == (ValueString, |Escaped(s)| + 2)
  {
    EscapedItems(s);
    ItemsToken(EscapeItems(s), rest);
    QuotedToken(Escaped(s) + [QUOTE] + rest, |Escaped(s)| + 1);
    QuoteInFront(Escaped(s), rest);
  }

  lemma QuoteInFront(t: bytes, rest: bytes)
    ensures [QUOTE] + t + [QUOTE] + rest == [QUOTE] + (t + [QUOTE] + rest)
  {
  }

  lemma QuotedToken(t: bytes, n: nat)
    requires StringTail(t) == Some(n)
    ensures Token([QUOTE] + t) == (ValueString, 1 + n)
  {
    assert ([QUOTE] + t)[1..] == t;
  }

  // ----- What each item is and means, byte by byte (section 7 of RFC 7159) -----

  predicate HexByte(c: byte) { 0x30 <= c <= 0x39 || 0x41 <= c <= 0x46 || 0x61 <= c <= 0x66 }

  /** The bytes that may stand for themselves, follow a backslash, or stand in a \u escape. */
  lemma ItemBytes(c: byte, h: bytes)
    ensures ValidItem(Plain(c)) <==> c >= 0x10 && c != 0x22 && c != 0x5C
    ensures ValidItem(Short(c)) <==> c in [0x22, 0x2F, 0x5C, 0x62, 0x66, 0x6E, 0x72, 0x74]
    ensures ValidItem(Unicode(h)) <==> (|h| == 4 && forall i :: 0 <= i < 4 ==> HexByte(h[i]))
  {
  }

  /** The quoted text of items is one string token that means what the items mean. */
  lemma TextMeans(items: seq<Item>, rest: bytes)
    requires ValidItems(items)
    ensures Token([QUOTE] + Text(items) + [QUOTE] + rest) == (ValueString, |Text(items)| + 2)
    ensures ValidItems(ItemsIn(Text(items))) && StringValue(Text(items)) == Meaning(items)
  {
    ItemsToken(items, rest);
    ItemsOfText(items);
    QuotedToken(Text(items) + [QUOTE] + rest, |Text(items)| + 1);
    QuoteInFront(Text(items), rest);
  }

  /** A byte that is no control character below 0x10, no quote and no backslash stands for itself. */
  lemma PlainMeans(c: byte, items: seq<Item>)
    requires ValidItems(items) && c >= 0x10 && c != 0x22 && c != 0x5C
    ensures ValidItems([Plain(c)] + items) && Text([Plain(c)] + items) == [c] + Text(items)
    ensures Meaning([Plain(c)] + items) == Prefixed([c], Meaning(items))
  {
    assert ([Plain(c)] + items)[1..] == items;
  }

  /** The character of each two-byte escape. */
  ghost predicate Names(letter: byte, c: byte) {
    || (letter == 0x22 && c == 0x22)   // quotation mark
    || (letter == 0x5C && c == 0x5C)   // reverse solidus
    || (letter == 0x2F && c == 0x2F)   // solidus
    || (letter == 0x62 && c == 0x08)   // b: backspace
    || (letter == 0x66 && c == 0x0C)   // f: form feed
    || (letter == 0x6E && c == 0x0A)   // n: line feed
    || (letter == 0x72 && c == 0x0D)   // r: carriage return
    || (letter == 0x74 && c == 0x09)   // t: tab
  }

  lemma ShortMeans(letter: byte, c: byte, items: seq<Item>)
    requires ValidItems(items) && Names(letter, c)
    ensures ValidItems([Short(letter)] + items) && Text([Short(letter)] + items) == [0x5C, letter] + Text(items)
    ensures Meaning([Short(letter)] + items) == Prefixed([c], Meaning(items))
  {
    assert ([Short(letter)] + items)[1..] == items;
  }

  /** `c` is the hexadecimal digit of `d`, in upper or lower case. */
  ghost predicate DigitFor(c: byte, d: nat) {
    (d < 10 && c == 0x30 + d) || (10 <= d < 16 && (c == 0x41 + (d - 10) || c == 0x61 + (d - 10)))
  }

  /** Four hexadecimal digits of a code unit, the last one first by division. */
  ghost predicate SpelledBy(h: bytes, n: nat) {
    && |h| == 4 && n <= 0xFFFF
    && DigitFor(h[3], n % 16) && DigitFor(h[2], n / 16 % 16) && DigitFor(h[1], n / 16 / 16 % 16) && DigitFor(h[0], n / 16 / 16 / 16)
  }

  lemma DigitRead(c: byte, d: nat)
    requires DigitFor(c, d)
    ensures IsHex(c) && HexDigitValue(c) == d
  {
  }

  lemma UnitRead(h: bytes, n: nat)
    requires SpelledBy(h, n)
    ensures ValidItem(Unicode(h)) && HexValue(h) == n
  {
    DigitRead(h[3], n % 16);
    DigitRead(h[2], n / 16 % 16);
    DigitRead(h[1], n / 16 / 16 % 16);
    DigitRead(h[0], n / 16 / 16 / 16);
    assert n == n / 16 * 16 + n % 16;
    assert n / 16 == n / 16 / 16 * 16 + n / 16 % 16;
    assert n / 16 / 16 == n / 16 / 16 / 16 * 16 + n / 16 / 16 % 16;
  }

  /** Every code unit has its digits. */
  lemma UnitSpelled(n: nat) returns (h: bytes)
    requires n <= 0xFFFF
    ensures SpelledBy(h, n)
  {
    h := [LowerDigit(n / 16 / 16 / 16), LowerDigit(n / 16 / 16 % 16), LowerDigit(n / 16 % 16), LowerDigit(n % 16)];
  }

  function LowerDigit(d: nat): byte
    requires d < 16
  {
    if d < 10 then 0x30 + d else 0x61 + (d - 10)
  }

  /** A \u escape of a scalar value means the UTF-8 character of that value. */
  lemma UnicodeMeans(h: bytes, n: nat, items: seq<Item>) returns (u: bytes)
    requires ValidItems(items) && SpelledBy(h, n) && IsScalar(n)
    ensures ValidItems([Unicode(h)] + items) && Text([Unicode(h)] + items) == [0x5C, 0x75] + h + Text(items)
    ensures IsUtf8Char(u) && Decode(u) == n && Meaning([Unicode(h)] + items) == Prefixed(u, Meaning(items))
  {
    UnitRead(h, n);
    EncodeDecode(n, 0);
    u := ToUnicode(n, 0).value;
    assert ([Unicode(h)] + items)[1..] == items;
  }

  /** The two escapes of the pair of a supplementary code point mean its one UTF-8 character. */
  lemma PairMeans(high: bytes, low: bytes, cp: nat, items: seq<Item>) returns (u: bytes)
    requires ValidItems(items) && 0x10000 <= cp <= 0x10FFFF && SpelledBy(high, ToPair(cp).0) && SpelledBy(low, ToPair(cp).1)
    ensures var pair := [Unicode(high), Unicode(low)];
      ValidItems(pair + items) && Text(pair + items) == [0x5C, 0x75] + high + ([0x5C, 0x75] + low + Text(items))
    ensures IsUtf8Char(u) && Decode(u) == cp && Meaning([Unicode(high), Unicode(low)] + items) == Prefixed(u, Meaning(items))
  {
    var (c1, c2) := ToPair(cp);
    UnitRead(high, c1);
    UnitRead(low, c2);
    PairsOnto(cp);
    Pairs(c1, c2);
    EncodeDecode(cp, 0);
    u := ToUnicode(c1, c2).value;
    var all := [Unicode(high), Unicode(low)] + items;
    assert all[2..] == items && all[1..] == [Unicode(low)] + items && all[1..][1..] == items;
  }

  /** The \u escape of a code unit between `lo` and `hi`. */
  ghost predicate UnitIn(x: Item, lo: nat, hi: nat) {
    x.Unicode? && exists n :: lo <= n <= hi && SpelledBy(x.h, n)
  }

  /** Every high surrogate has its low one behind it. */
  ghost predicate WellPaired(items: seq<Item>) {
    forall i :: 0 <= i < |items| && UnitIn(items[i], 0xD800, 0xDBFF) ==> i + 1 < |items| && UnitIn(items[i + 1], 0xDC00, 0xDFFF)
  }

  lemma UnitUnique(h: bytes, lo: nat, hi: nat)
    requires ValidItem(Unicode(h))
    ensures UnitIn(Unicode(h), lo, hi) <==> lo <= HexValue(h) <= hi
  {
    DigitBack(h);
    forall n | lo <= n <= hi && SpelledBy(h, n) ensures n == HexValue(h) {
      UnitRead(h, n);
    }
  }

  lemma DigitBack(h: bytes)
    requires ValidItem(Unicode(h))
    ensures SpelledBy(h, HexValue(h))
  {
    var n := HexValue(h);
    var a, b, c, d := HexDigitValue(h[0]), HexDigitValue(h[1]), HexDigitValue(h[2]), HexDigitValue(h[3]);
    assert n == 16 * (16 * (16 * a + b) + c) + d;
    assert n % 16 == d && n / 16 == 16 * (16 * a + b) + c;
    assert n / 16 % 16 == c && n / 16 / 16 == 16 * a + b;
    assert n / 16 / 16 % 16 == b && n / 16 / 16 / 16 == a;
  }

  /** A string has a value exactly when its surrogates pair up; otherwise the exception is that of a missing one. */
  lemma {:induction false} MeaningExactly(items: seq<Item>)
    requires ValidItems(items)
    ensures Meaning(items) == Throw(SurrogateErr) <==> !WellPaired(items)
    ensures Meaning(items).Throw? ==> Meaning(items) == Throw(SurrogateErr)
  {
    if items == [] {
    } else {
      MeaningExactly(items[1..]);
      PairedTail(items);
      if items[0].Unicode? {
        UnitUnique(items[0].h, 0xD800, 0xDBFF);
        Utf8Exactly(HexValue(items[0].h), 0);
        if |items| > 1 && items[1].Unicode? {
          UnitUnique(items[1].h, 0xDC00, 0xDFFF);
          UnitUnique(items[1].h, 0xD800, 0xDBFF);
          Utf8Exactly(HexValue(items[0].h), HexValue(items[1].h));
          assert items[1..][1..] == items[2..];
          MeaningExactly(items[2..]);
          PairedTail(items[1..]);
        }
      }
    }
  }

  lemma PairedTail(items: seq<Item>)
    requires items != []
    ensures WellPaired(items)
       <==> (WellPaired(items[1..]) && (UnitIn(items[0], 0xD800, 0xDBFF) ==> 1 < |items| && UnitIn(items[1], 0xDC00, 0xDFFF)))
  {
    var t := items[1..];
    assert forall i :: 0 <= i < |t| ==> t[i] == items[i + 1];
    if WellPaired(items) {
      forall i | 0 <= i < |t| && UnitIn(t[i], 0xD800, 0xDBFF) ensures i + 1 < |t| && UnitIn(t[i + 1], 0xDC00, 0xDFFF) {
        assert UnitIn(items[i + 1], 0xD800, 0xDBFF);
      }
    }
    if WellPaired(t) && (UnitIn(items[0], 0xD800, 0xDBFF) ==> 1 < |items| && UnitIn(items[1], 0xDC00, 0xDFFF)) {
      forall i | 0 <= i < |items| && UnitIn(items[i], 0xD800, 0xDBFF) ensures i + 1 < |items| && UnitIn(items[i + 1], 0xDC00, 0xDFFF) {
        if i > 0 { assert UnitIn(t[i - 1], 0xD800, 0xDBFF); }
      }
    }
  }

  // ----- One round of the decoding loop -----

  /** Inside the string token of `b` that ends at `end`, between two items. */
  ghost predicate InToken(b: bytes, i: nat, end: nat) {
    i < end <= |b| && StringTail(b[i..]) == Some(end - i)
  }

  /** What the items from `i` on mean. */
  ghost function ValueFrom(b: bytes, i: nat, end: nat): Result<bytes>
    requires InToken(b, i, end)
  {
    TokenItems(b[i..], end - i);
    StringValue(b[i..][..end - i - 1])
  }

  lemma LastRound(b: bytes, i: nat, end: nat)
    requires InToken(b, i, end) && i + 1 == end
    ensures ValueFrom(b, i, end) == Ok([])
  {
    assert b[i..][..0] == [];
  }

  lemma PlainRound(b: bytes, i: nat, end: nat)
    requires InToken(b, i, end) && i + 1 < end && b[i] != BACKSLASH
    ensures InToken(b, i + 1, end)
    ensures ValueFrom(b, i, end) == Prefixed([b[i]], ValueFrom(b, i + 1, end))
  {
    PlainFirst(b[i..], end - i);
    assert b[i..][1..] == b[i + 1..];
  }

  lemma ShortRound(b: bytes, i: nat, end: nat)
    requires InToken(b, i, end) && i + 1 < end && b[i] == BACKSLASH
    ensures i + 2 < end
    ensures b[i + 1] != 0x75 ==> InToken(b, i + 2, end)
    ensures b[i + 1] != 0x75 ==> ValueFrom(b, i, end) == Prefixed([ShortMeaning(b[i + 1])], ValueFrom(b, i + 2, end))
  {
    ShortFirst(b[i..], end - i);
    assert b[i..][2..] == b[i + 2..];
  }

  /** The digits of a \u escape; the next one, if any, is its low surrogate. */
  lemma UnicodeRound(b: bytes, i: nat, end: nat)
    requires InToken(b, i, end) && i + 2 < end && b[i] == BACKSLASH && b[i + 1] == 0x75
    ensures i + 6 < end && ValidItem(Unicode(b[i + 2..i + 6])) && InToken(b, i + 6, end)
    ensures ItemsIn(b[i..][..end - i - 1]) == [Unicode(b[i + 2..i + 6])] + ItemsIn(b[i + 6..][..end - i - 7])
  {
    UnicodeFirst(b[i..], end - i);
    DigitsPlaced(b, i);
  }

  lemma DigitsPlaced(b: bytes, i: nat)
    requires i + 6 <= |b|
    ensures b[i..][6..] == b[i + 6..] && b[i..][2..6] == b[i + 2..i + 6]
  {
  }

  lemma SingleRound(b: bytes, i: nat, end: nat)
    requires InToken(b, i, end) && i + 2 < end && b[i] == BACKSLASH && b[i + 1] == 0x75
    ensures i + 6 < end && ValidItem(Unicode(b[i + 2..i + 6])) && InToken(b, i + 6, end)
    ensures !IsHigh(HexValue(b[i + 2..i + 6])) ==>
              ValueFrom(b, i, end) == match ToUnicode(HexValue(b[i + 2..i + 6]), 0)
                                      case Ok(u) => Prefixed(u, ValueFrom(b, i + 6, end))
                                      case Throw(e) => Throw(e)
  {
    UnicodeRound(b, i, end);
    TokenItems(b[i..], end - i);
  }

  predicate AtUnicode(b: bytes, i: nat) {
    i + 1 < |b| && b[i] == BACKSLASH && b[i + 1] == 0x75
  }

  lemma PairRound(b: bytes, i: nat, end: nat)
    requires InToken(b, i, end) && i + 2 < end && b[i] == BACKSLASH && b[i + 1] == 0x75
    requires i + 6 < end && ValidItem(Unicode(b[i + 2..i + 6])) && IsHigh(HexValue(b[i + 2..i + 6]))
    ensures !AtUnicode(b, i + 6) ==> ValueFrom(b, i, end) == Throw(SurrogateErr)
    ensures AtUnicode(b, i + 6) ==> i + 12 < end && ValidItem(Unicode(b[i + 8..i + 12])) && InToken(b, i + 12, end)
    ensures AtUnicode(b, i + 6) ==>
              ValueFrom(b, i, end) == match ToUnicode(HexValue(b[i + 2..i + 6]), HexValue(b[i + 8..i + 12]))
                                      case Ok(u) => Prefixed(u, ValueFrom(b, i + 12, end))
                                      case Throw(e) => Throw(e)
  {
    UnicodeRound(b, i, end);
    TokenItems(b[i..], end - i);
    var items := ItemsIn(b[i..][..end - i - 1]);
    var rest := ItemsIn(b[i + 6..][..end - i - 7]);
    assert items[1..] == rest;
    if i + 7 < end {
      SecondItem(b, i + 6, end);
      if AtUnicode(b, i + 6) {
        UnicodeRound(b, i + 6, end);
        assert items[2..] == rest[1..];
      }
    } else {
      assert rest == [] && b[i + 6..][0] == QUOTE;
    }
  }

  /** Whether the next item is a \u escape shows in its first two bytes. */
  lemma SecondItem(b: bytes, i: nat, end: nat)
    requires InToken(b, i, end) && i + 1 < end
    ensures AtUnicode(b, i) ==> i + 2 < end
    ensures ItemsIn(b[i..][..end - i - 1]) != [] && (ItemsIn(b[i..][..end - i - 1])[0].Unicode? <==> AtUnicode(b, i))
  {
    var s := b[i..];
    if s[0] != BACKSLASH {
      PlainFirst(s, end - i);
    } else {
      ShortFirst(s, end - i);
      if s[1] == 0x75 {
        UnicodeFirst(s, end - i);
      }
    }
  }
}
