/**
 Bytes, byte strings and the order `std::string` puts on them.
 A C++ `char` is modelled by its value as an unsigned byte; `std::string::compare`
 compares bytes as unsigned, so the order below is the one `std::map` sorts keys by.
 */
module Bytes {
  type byte = x: int | 0 <= x < 256
  type bytes = seq<byte>

  /** Always true. A definition guarded by it is unfolded only where a proof mentions it. */
  ghost predicate Look(once: bool) { true }

  datatype Option<+T> = None | Some(value: T)

  /** The outcome of an operation that may throw. */
  datatype Result<+T> = Ok(value: T) | Throw(error: Error)

  datatype Error =
    | ParseErr        // std::invalid_argument of the parser
    | SurrogateErr    // std::invalid_argument of to_unicode and get_string
    | CodePointErr    // std::out_of_range of to_unicode
    | PointerErr      // std::domain_error of json_pointer
    | UnresolvedErr   // std::out_of_range of a checked lookup
    | IndexErr        // std::invalid_argument or std::out_of_range of std::stoi, or an index no vector can hold

  /** `a < b` on byte strings: at the first difference, or a proper prefix. */
  predicate Less(a: bytes, b: bytes) {
    b != [] && (a == [] || a[0] < b[0] || (a[0] == b[0] && Less(a[1..], b[1..])))
  }

  lemma {:induction false} LessIrreflexive(a: bytes)
    ensures !Less(a, a)
  {
    if a == [] {
    } else {
      LessIrreflexive(a[1..]);
    }
  }

  lemma {:induction false} LessTransitive(a: bytes, b: bytes, c: bytes)
    requires Less(a, b) && Less(b, c)
    ensures Less(a, c)
  {
    if a != [] && a[0] == b[0] && b[0] == c[0] {
      LessTransitive(a[1..], b[1..], c[1..]);
    }
  }

  lemma {:induction false} LessTrichotomy(a: bytes, b: bytes)
    ensures Less(a, b) || a == b || Less(b, a)
    ensures !(Less(a, b) && Less(b, a))
    ensures Less(a, b) || Less(b, a) ==> a != b
  {
    if a != [] && b != [] && a[0] == b[0] {
      LessTrichotomy(a[1..], b[1..]);
      assert a == [a[0]] + a[1..] && b == [b[0]] + b[1..];
    }
  }

  /** A common prefix does not matter for the order. */
  lemma {:induction false} LessCommonPrefix(p: bytes, a: bytes, b: bytes)
    ensures Less(p + a, p + b) == Less(a, b)
  {
    if p == [] {
      assert p + a == a && p + b == b;
    } else {
      assert (p + a)[1..] == p[1..] + a && (p + b)[1..] == p[1..] + b;
      LessCommonPrefix(p[1..], a, b);
    }
  }

  /** Equal up to position `n`, where `a` ends or has the lesser byte. */
  ghost predicate FirstDiffers(a: bytes, b: bytes, n: nat) {
    n <= |a| && n < |b| && a[..n] == b[..n] && (n == |a| || a[n] < b[n])
  }

  /** The order is decided at the first byte that differs. */
  lemma {:induction false} LessAtFirst(a: bytes, b: bytes)
    ensures Less(a, b) <==> exists n: nat :: FirstDiffers(a, b, n)
  {
    if b == [] {
    } else if a == [] {
      assert FirstDiffers(a, b, 0);
    } else {
      LessAtFirst(a[1..], b[1..]);
      assert FirstDiffers(a, b, 0) <==> a[0] < b[0];
      forall n: nat ensures FirstDiffers(a, b, n + 1) <==> a[0] == b[0] && FirstDiffers(a[1..], b[1..], n) {
        DiffersLater(a, b, n);
      }
      if Less(a, b) && a[0] == b[0] {
        var n: nat :| FirstDiffers(a[1..], b[1..], n);
        assert FirstDiffers(a, b, n + 1);
      }
      forall n: nat | FirstDiffers(a, b, n) ensures Less(a, b) {
        if n > 0 {
          assert FirstDiffers(a, b, (n - 1) + 1);
          assert FirstDiffers(a[1..], b[1..], n - 1);
        }
      }
    }
  }

  lemma DiffersLater(a: bytes, b: bytes, n: nat)
    requires a != [] && b != []
    ensures FirstDiffers(a, b, n + 1) <==> a[0] == b[0] && FirstDiffers(a[1..], b[1..], n)
  {
    if n + 1 <= |a| && n + 1 <= |b| {
      assert a[..n + 1] == [a[0]] + a[1..][..n] && b[..n + 1] == [b[0]] + b[1..][..n];
      if a[..n + 1] == b[..n + 1] {
        assert a[..n + 1][0] == b[..n + 1][0] && a[..n + 1][1..] == b[..n + 1][1..];
        assert a[..n + 1][1..] == a[1..][..n] && b[..n + 1][1..] == b[1..][..n];
      }
    }
  }
}
