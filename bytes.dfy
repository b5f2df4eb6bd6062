/** Byte values, big-endian integer fields and the outcome of a Python call. */
module Bytes {

  /** One octet as it travels on the serial line. */
  type byte = b: int | 0 <= b < 256

  datatype Option<T> = None | Some(value: T)

  /** What a Python call ends with: a returned value, or an exception that
      propagates to the caller (IndexError, TypeError, struct.error, ...). */
  datatype Call<T> = Returned(value: T) | Raised
  {
    /** With these three members `var x :- call;` propagates an exception the
        way Python does: the caller stops and raises in turn. */
    predicate IsFailure() { Raised? }

    function PropagateFailure<U>(): Call<U>
      requires IsFailure()
    {
      Raised
    }

    function Extract(): T
      requires !IsFailure()
    {
      value
    }
  }

  function Min(a: int, b: int): int { if a <= b then a else b }

  function MinReal(a: real, b: real): real { if a <= b then a else b }

  function MaxReal(a: real, b: real): real { if a >= b then a else b }

  /** 256 to the power n: the number of values a field of n bytes can hold. */
  function Pow256(n: nat): (r: nat)
    ensures r >= 1
  {
    if n == 0 then 1 else 256 * Pow256(n - 1)
  }

  /** The unsigned big-endian value of a byte string (struct format '>H', '>I'). */
  function UInt(s: seq<byte>): (r: nat)
    ensures r < Pow256(|s|)
  {
    if s == [] then 0 else UInt(s[..|s| - 1]) * 256 + s[|s| - 1]
  }

  /** The two's-complement big-endian value of a byte string (struct format
      '>h', '>i'): the top bit of the leading byte is set exactly when the
      unsigned value lies in the upper half of the range. */
  function SInt(s: seq<byte>): int
  {
    if UInt(s) >= Pow256(|s|) / 2 then UInt(s) - Pow256(|s|) else UInt(s)
  }

  /** The `width` big-endian bytes of n modulo 256^width: what struct.pack
      writes for an unsigned field, and `(n >> 8) & 0xFF, n & 0xFF` for width 2.
      The division and remainder are Euclidean, so a negative n gives its
      two's-complement bytes. */
  function UIntBytes(n: int, width: nat): (r: seq<byte>)
    ensures |r| == width
    decreases width
  {
    if width == 0 then [] else UIntBytes(n / 256, width - 1) + [n % 256]
  }

  /** x is representable in a signed field of `width` bytes. */
  predicate FitsSigned(x: int, width: nat)
  {
    width > 0 && -(Pow256(width) / 2) <= x < Pow256(width) / 2
  }

  /** The `width` big-endian two's-complement bytes of x (struct.pack '>h',
      '>i'), taken modulo 256^width; struct raises instead for a value that
      does not fit, and FitsSigned is what the round trip requires. */
  function SIntBytes(x: int, width: nat): (r: seq<byte>)
    ensures |r| == width
  {
    UIntBytes(x, width)
  }

  /** Adding 256^width does not change the `width` low bytes. */
  lemma {:induction false} UIntBytesPeriodic(n: int, width: nat)
    ensures UIntBytes(n + Pow256(width), width) == UIntBytes(n, width)
    decreases width
  {
    if width > 0 {
      var q := Pow256(width - 1);
      assert (n + 256 * q) / 256 == n / 256 + q;
      assert (n + 256 * q) % 256 == n % 256;
      UIntBytesPeriodic(n / 256, width - 1);
    }
  }

  /** Unsigned big-endian round trip: reading back what was written gives n. */
  lemma {:induction false} UIntRoundTrip(n: nat, width: nat)
    requires n < Pow256(width)
    ensures UInt(UIntBytes(n, width)) == n
  {
    if width > 0 {
      UIntRoundTrip(n / 256, width - 1);
      var bs := UIntBytes(n, width);
      assert bs[..width - 1] == UIntBytes(n / 256, width - 1);
    }
  }

  /** The other direction: writing back the value read from a byte string
      gives that byte string. */
  lemma {:induction false} UIntBytesOfUInt(s: seq<byte>)
    ensures UIntBytes(UInt(s), |s|) == s
  {
    if s != [] {
      var n := |s|;
      UIntBytesOfUInt(s[..n - 1]);
      var u := UInt(s[..n - 1]) * 256 + s[n - 1];
      assert u / 256 == UInt(s[..n - 1]) && u % 256 == s[n - 1];
      assert s == s[..n - 1] + [s[n - 1]];
    }
  }

  /** Signed big-endian round trip for every value the field can hold. */
  lemma SIntRoundTrip(x: int, width: nat)
    requires FitsSigned(x, width)
    ensures SInt(SIntBytes(x, width)) == x
  {
    if x >= 0 {
      UIntRoundTrip(x, width);
    } else {
      UIntBytesPeriodic(x, width);
      UIntRoundTrip(x + Pow256(width), width);
    }
  }

  /** A prefix is the shorter prefix followed by the slice between them. */
  lemma PrefixSplit(s: seq<byte>, lo: nat, hi: nat)
    requires lo <= hi <= |s|
    ensures s[..lo] + s[lo..hi] == s[..hi]
  {
  }

  /** The signed value read from a non-empty byte string fits a field of
      its width. */
  lemma SIntFits(s: seq<byte>)
    requires |s| > 0
    ensures FitsSigned(SInt(s), |s|)
  {
    assert Pow256(|s|) == 256 * Pow256(|s| - 1);
  }

  /** Packing the signed value read from a byte string rebuilds that
      string. */
  lemma SIntBytesOfSInt(s: seq<byte>)
    ensures SIntBytes(SInt(s), |s|) == s
  {
    UIntBytesOfUInt(s);
    if UInt(s) >= Pow256(|s|) / 2 {
      UIntBytesPeriodic(UInt(s) - Pow256(|s|), |s|);
    }
  }
}
