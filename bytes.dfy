/** Byte strings and the fixed-width text encodings the archive writer puts
    into tar headers: octal numbers (Rust's `{:0Wo}` format), the unsigned byte
    sum used by the header checksum, and lowercase hexadecimal (`hex::encode`). */
module Bytes {

  /** An unsigned 8-bit value, kept as an `int` so that sums do not wrap. */
  type byte = x: int | 0 <= x < 256

  const ASCII_ZERO: byte := 48
  const ASCII_SPACE: byte := 32
  const ASCII_SLASH: byte := 47
  const ASCII_NEWLINE: byte := 10

  /** `n` zero bytes. */
  function Zeros(n: nat): (r: seq<byte>)
    ensures |r| == n
    ensures forall i :: 0 <= i < n ==> r[i] == 0
  {
    seq(n, _ => 0)
  }

  /** `n` copies of the byte `b`. */
  function Repeat(b: byte, n: nat): (r: seq<byte>)
    ensures |r| == n
    ensures forall i :: 0 <= i < n ==> r[i] == b
  {
    seq(n, _ => b)
  }

  lemma AppendAssoc<T>(a: seq<T>, b: seq<T>, c: seq<T>)
    ensures (a + b) + c == a + (b + c)
  {
  }

  // ---------------------------------------------------------------------------
  // Byte sums
  // ---------------------------------------------------------------------------

  /** The sum of the unsigned values of the bytes of `s`, accumulated from the
      front as the checksum loop does. */
  function Sum(s: seq<byte>): nat
  {
    if s == [] then 0 else Sum(s[..|s| - 1]) + s[|s| - 1]
  }

  /** A sum of `n` bytes is at most `255 * n`. */
  lemma {:induction false} SumBound(s: seq<byte>)
    ensures Sum(s) <= 255 * |s|
  {
    if s != [] {
      SumBound(s[..|s| - 1]);
    }
  }

  /** Extending a prefix by one byte adds that byte to the sum. */
  lemma SumPrefixStep(s: seq<byte>, i: nat)
    requires i < |s|
    ensures Sum(s[..i + 1]) == Sum(s[..i]) + s[i]
  {
    assert s[..i + 1][..i] == s[..i];
  }

  // ---------------------------------------------------------------------------
  // Octal numbers as ASCII digits
  // ---------------------------------------------------------------------------

  function Pow8(k: nat): (r: nat)
    ensures r >= 1
  {
    if k == 0 then 1 else 8 * Pow8(k - 1)
  }

  predicate IsOctalDigit(c: byte)
  {
    ASCII_ZERO <= c < ASCII_ZERO + 8
  }

  /** The shortest octal spelling of `n` (a single "0" for zero). */
  function OctalDigits(n: nat): (r: seq<byte>)
    ensures 1 <= |r|
    ensures forall i :: 0 <= i < |r| ==> IsOctalDigit(r[i])
    decreases n
  {
    if n < 8 then [ASCII_ZERO + n] else OctalDigits(n / 8) + [ASCII_ZERO + n % 8]
  }

  /** Rust's `format!("{:0width$o}", n)`: the octal digits of `n`, left-padded
      with '0' to at least `width` characters. A number that needs more than
      `width` digits is written in full, so the result is then longer. */
  function FormatOctal(n: nat, width: nat): seq<byte>
  {
    var d := OctalDigits(n);
    if |d| < width then Repeat(ASCII_ZERO, width - |d|) + d else d
  }

  /** The value of a string of octal digits (most significant first). */
  function ParseOctal(s: seq<byte>): nat
  {
    if s == [] then 0
    else ParseOctal(s[..|s| - 1]) * 8 + (if IsOctalDigit(s[|s| - 1]) then s[|s| - 1] - ASCII_ZERO else 0)
  }

  /** `n` has at most `w` octal digits exactly when `n < 8^w`. */
  lemma {:induction false} OctalDigitsLength(n: nat, w: nat)
    requires w >= 1
    ensures |OctalDigits(n)| <= w <==> n < Pow8(w)
    decreases n
  {
    if n >= 8 {
      if w == 1 {
        assert |OctalDigits(n)| == |OctalDigits(n / 8)| + 1;
      } else {
        OctalDigitsLength(n / 8, w - 1);
        assert Pow8(w) == 8 * Pow8(w - 1);
      }
    } else {
      assert Pow8(w) == 8 * Pow8(w - 1);
    }
  }

  /** A padded octal field has exactly its nominal width precisely when the
      number fits into that many digits; otherwise it is longer. */
  lemma FormatOctalLength(n: nat, w: nat)
    requires w >= 1
    ensures |FormatOctal(n, w)| >= w
    ensures |FormatOctal(n, w)| == w <==> n < Pow8(w)
  {
    OctalDigitsLength(n, w);
  }

  lemma {:induction false} ParseOctalAppend(a: seq<byte>, b: seq<byte>)
    ensures ParseOctal(a + b) == ParseOctal(a) * Pow8(|b|) + ParseOctal(b)
    decreases |b|
  {
    if b == [] {
      assert a + b == a;
    } else {
      var b' := b[..|b| - 1];
      var last := b[|b| - 1];
      var d := if IsOctalDigit(last) then last - ASCII_ZERO else 0;
      assert (a + b)[..|a + b| - 1] == a + b';
      assert (a + b)[|a + b| - 1] == last;
      ParseOctalAppend(a, b');
      var pa, pb, p := ParseOctal(a), ParseOctal(b'), Pow8(|b'|);
      calc {
        ParseOctal(a + b);
        ParseOctal(a + b') * 8 + d;
        (pa * p + pb) * 8 + d;
        { MulAssoc8(pa, p); }
        pa * (8 * p) + (pb * 8 + d);
        ParseOctal(a) * Pow8(|b|) + ParseOctal(b);
      }
    }
  }

  lemma MulAssoc8(x: nat, y: nat)
    ensures (x * y) * 8 == x * (8 * y)
  {
  }

  lemma {:induction false} ParseOctalZeros(k: nat)
    ensures ParseOctal(Repeat(ASCII_ZERO, k)) == 0
  {
    if k > 0 {
      assert Repeat(ASCII_ZERO, k)[..k - 1] == Repeat(ASCII_ZERO, k - 1);
      ParseOctalZeros(k - 1);
    }
  }

  lemma {:induction false} ParseOctalDigits(n: nat)
    ensures ParseOctal(OctalDigits(n)) == n
    decreases n
  {
    if n >= 8 {
      var d := OctalDigits(n / 8);
      assert (d + [ASCII_ZERO + n % 8])[..|d|] == d;
      ParseOctalDigits(n / 8);
    }
  }

  /** Reading a padded octal field back yields the number that was written,
      whatever the width. */
  lemma FormatOctalRoundTrip(n: nat, w: nat)
    ensures ParseOctal(FormatOctal(n, w)) == n
    ensures forall i :: 0 <= i < |FormatOctal(n, w)| ==> IsOctalDigit(FormatOctal(n, w)[i])
  {
    var d := OctalDigits(n);
    ParseOctalDigits(n);
    if |d| < w {
      ParseOctalAppend(Repeat(ASCII_ZERO, w - |d|), d);
      ParseOctalZeros(w - |d|);
    }
  }

  // ---------------------------------------------------------------------------
  // Lowercase hexadecimal (hex::encode)
  // ---------------------------------------------------------------------------

  function HexDigit(v: nat): (c: byte)
    requires v < 16
  {
    if v < 10 then ASCII_ZERO + v else 87 + v
  }

  predicate IsLowerHexDigit(c: byte)
  {
    (ASCII_ZERO <= c < ASCII_ZERO + 10) || (97 <= c < 103)
  }

  /** Inverse of `HexDigit` on lowercase hexadecimal digits. */
  function HexValue(c: byte): (v: nat)
    requires IsLowerHexDigit(c)
    ensures v < 16 && HexDigit(v) == c
  {
    if c < 97 then c - ASCII_ZERO else c - 87
  }

  /** Two lowercase hexadecimal digits per byte, high nibble first. */
  function Hex(s: seq<byte>): (r: seq<byte>)
  {
    if s == [] then [] else [HexDigit(s[0] / 16), HexDigit(s[0] % 16)] + Hex(s[1..])
  }

  /** Reads pairs of lowercase hexadecimal digits back into bytes. */
  function Unhex(h: seq<byte>): seq<byte>
    requires |h| % 2 == 0
    requires forall i :: 0 <= i < |h| ==> IsLowerHexDigit(h[i])
  {
    if h == [] then [] else [HexValue(h[0]) * 16 + HexValue(h[1])] + Unhex(h[2..])
  }

  /** The hexadecimal text has two lowercase digits per byte. */
  lemma {:induction false} HexShape(s: seq<byte>)
    ensures |Hex(s)| == 2 * |s|
    ensures forall i :: 0 <= i < |Hex(s)| ==> IsLowerHexDigit(Hex(s)[i])
  {
    if s != [] {
      HexShape(s[1..]);
    }
  }

  /** Decoding the hexadecimal text gives back the bytes: `Hex` loses nothing. */
  lemma {:induction false} HexRoundTrip(s: seq<byte>)
    ensures |Hex(s)| == 2 * |s|
    ensures forall i :: 0 <= i < |Hex(s)| ==> IsLowerHexDigit(Hex(s)[i])
    ensures Unhex(Hex(s)) == s
  {
    HexShape(s);
    if s != [] {
      HexRoundTrip(s[1..]);
      var h := Hex(s);
      assert h[2..] == Hex(s[1..]);
    }
  }

  // ---------------------------------------------------------------------------
  // Lexicographic order of byte strings (Rust's `Ord` on byte slices)
  // ---------------------------------------------------------------------------

  /** `a` sorts strictly before `b`: at the first differing position `a` has
      the smaller byte, or `a` is a proper prefix of `b`. */
  predicate LexLess(a: seq<byte>, b: seq<byte>)
  {
    if a == [] then b != []
    else if b == [] then false
    else a[0] < b[0] || (a[0] == b[0] && LexLess(a[1..], b[1..]))
  }

  lemma {:induction false} LexLessIrreflexive(a: seq<byte>)
    ensures !LexLess(a, a)
  {
    if a != [] {
      LexLessIrreflexive(a[1..]);
    }
  }

  lemma {:induction false} LexLessAsymmetric(a: seq<byte>, b: seq<byte>)
    requires LexLess(a, b)
    ensures !LexLess(b, a)
  {
    if a != [] && b != [] && a[0] == b[0] {
      LexLessAsymmetric(a[1..], b[1..]);
    }
  }

  lemma {:induction false} LexLessTransitive(a: seq<byte>, b: seq<byte>, c: seq<byte>)
    requires LexLess(a, b) && LexLess(b, c)
    ensures LexLess(a, c)
  {
    if a != [] && a[0] == b[0] && b[0] == c[0] {
      LexLessTransitive(a[1..], b[1..], c[1..]);
    }
  }

  /** Any two distinct byte strings are ordered one way or the other. */
  lemma {:induction false} LexLessTotal(a: seq<byte>, b: seq<byte>)
    requires a != b
    ensures LexLess(a, b) || LexLess(b, a)
  {
    if a != [] && b != [] && a[0] == b[0] {
      assert a == [a[0]] + a[1..] && b == [b[0]] + b[1..];
      LexLessTotal(a[1..], b[1..]);
    }
  }
}
