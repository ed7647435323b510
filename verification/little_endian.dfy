/** Unsigned machine integers and their little-endian byte encoding,
    as Rust's `u64::to_le_bytes` produces it. */
module LittleEndian {
  import opened Arithmetic

  type Byte = b: int | 0 <= b < 256

  const U64_MODULUS: int := 0x1_0000_0000_0000_0000
  const U64_MAX: int := U64_MODULUS - 1

  /** A Rust `u64`: integers in [0, 2^64). */
  type U64 = n: int | 0 <= n < U64_MODULUS

  /** 256^k, the number of values k bytes can hold. */
  function Pow256(k: nat): (r: nat)
    ensures r >= 1
  {
    if k == 0 then 1 else 256 * Pow256(k - 1)
  }

  /** Eight bytes hold exactly the `u64` range. */
  lemma Pow256Eight()
    ensures Pow256(8) == U64_MODULUS
  {
  }

  /** The `width` least significant base-256 digits of `n`, least significant first. */
  function ToLE(n: nat, width: nat): (r: seq<Byte>)
    requires n < Pow256(width)
    ensures |r| == width
    decreases width
  {
    if width == 0 then []
    else
      DivBound(n, Pow256(width - 1));
      [n % 256] + ToLE(n / 256, width - 1)
  }

  /** The number whose little-endian digits are `s`. */
  function FromLE(s: seq<Byte>): (r: nat)
    ensures r < Pow256(|s|)
  {
    if |s| == 0 then 0
    else
      var rest := FromLE(s[1..]);
      assert s[0] + 256 * rest <= 255 + 256 * (Pow256(|s| - 1) - 1);
      s[0] + 256 * rest
  }

  /** Digit `i` of `n` in base 256: the independent, positional reading of
      what byte `i` of a little-endian encoding holds. */
  function DigitAt(n: nat, i: nat): Byte
  {
    (n / Pow256(i)) % 256
  }

  /** Decoding an encoding gives the number back. */
  lemma {:induction false} FromToLE(n: nat, width: nat)
    requires n < Pow256(width)
    ensures FromLE(ToLE(n, width)) == n
    decreases width
  {
    if width > 0 {
      var r := ToLE(n, width);
      DivBound(n, Pow256(width - 1));
      assert r[1..] == ToLE(n / 256, width - 1);
      FromToLE(n / 256, width - 1);
    }
  }

  /** Encoding a decoding, at the same width, gives the bytes back. */
  lemma {:induction false} ToFromLE(s: seq<Byte>)
    ensures ToLE(FromLE(s), |s|) == s
  {
    if |s| > 0 {
      var rest := FromLE(s[1..]);
      var n := s[0] + 256 * rest;
      assert n % 256 == s[0];
      assert n / 256 == rest;
      ToFromLE(s[1..]);
    }
  }

  /** Byte `i` of the encoding is base-256 digit `i` of the number. */
  lemma {:induction false} ToLEDigits(n: nat, width: nat, i: nat)
    requires n < Pow256(width)
    requires i < width
    ensures ToLE(n, width)[i] == DigitAt(n, i)
    decreases width
  {
    if i > 0 {
      DivBound(n, Pow256(width - 1));
      assert ToLE(n, width)[i] == ToLE(n / 256, width - 1)[i - 1];
      ToLEDigits(n / 256, width - 1, i - 1);
      DivDiv(n, 256, Pow256(i - 1));
    }
  }

  /** `u64::to_le_bytes`: the 8-byte little-endian encoding of a counter. */
  function LE8(c: U64): (r: seq<Byte>)
    ensures |r| == 8
  {
    Pow256Eight();
    ToLE(c, 8)
  }

  /** Byte `i` of `LE8(c)` is base-256 digit `i` of `c`. */
  lemma LE8Digits(c: U64, i: nat)
    requires i < 8
    ensures LE8(c)[i] == DigitAt(c, i)
  {
    Pow256Eight();
    ToLEDigits(c, 8, i);
  }

  /** `u64::from_le_bytes`: the inverse of `LE8`. */
  function FromLE8(b: seq<Byte>): (c: U64)
    requires |b| == 8
  {
    Pow256Eight();
    FromLE(b)
  }

  lemma LE8RoundTrip(c: U64)
    ensures FromLE8(LE8(c)) == c
  {
    Pow256Eight();
    FromToLE(c, 8);
  }

  lemma LE8RoundTripBytes(b: seq<Byte>)
    requires |b| == 8
    ensures LE8(FromLE8(b)) == b
  {
    ToFromLE(b);
  }

  /** Different counters have different encodings. */
  lemma LE8Injective(c1: U64, c2: U64)
    ensures LE8(c1) == LE8(c2) <==> c1 == c2
  {
    LE8RoundTrip(c1);
    LE8RoundTrip(c2);
  }
}
