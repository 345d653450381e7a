/**
 * Bytes and the fixed-width integer encodings used by the wire frames
 * (big-endian, through `byteorder::BigEndian`) and by the GMA format
 * (little-endian, through `byteorder::LittleEndian`).
 */
module Bytes {
  import opened Wrappers

  type byte = b: int | 0 <= b < 256

  type u16 = x: int | 0 <= x < 0x1_0000
  type u32 = x: int | 0 <= x < 0x1_0000_0000
  type u64 = x: int | 0 <= x < 0x1_0000_0000_0000_0000

  const NUL: byte := 0

  function Pow256(n: nat): (r: nat)
    ensures r >= 1
  {
    if n == 0 then 1 else 256 * Pow256(n - 1)
  }

  /** The `n` low bytes of `x`, least significant first. */
  function LE(x: nat, n: nat): (r: seq<byte>)
    ensures |r| == n
  {
    if n == 0 then [] else [x % 256] + LE(x / 256, n - 1)
  }

  /** The value of a little-endian byte string. */
  function FromLE(s: seq<byte>): (r: nat)
    ensures r < Pow256(|s|)
  {
    if s == [] then 0 else s[0] + 256 * FromLE(s[1..])
  }

  /** The `n` low bytes of `x`, most significant first (network order). */
  function BE(x: nat, n: nat): (r: seq<byte>)
    ensures |r| == n
  {
    if n == 0 then [] else BE(x / 256, n - 1) + [x % 256]
  }

  /** The value of a big-endian byte string. */
  function FromBE(s: seq<byte>): (r: nat)
    ensures r < Pow256(|s|)
  {
    if s == [] then 0 else 256 * FromBE(s[..|s| - 1]) + s[|s| - 1]
  }

  lemma {:induction false} LERoundTrip(x: nat, n: nat)
    requires x < Pow256(n)
    ensures FromLE(LE(x, n)) == x
  {
    if n > 0 {
      var r := LE(x, n);
      assert r[1..] == LE(x / 256, n - 1);
      LERoundTrip(x / 256, n - 1);
    }
  }

  lemma {:induction false} BERoundTrip(x: nat, n: nat)
    requires x < Pow256(n)
    ensures FromBE(BE(x, n)) == x
  {
    if n > 0 {
      var r := BE(x, n);
      assert r[..n - 1] == BE(x / 256, n - 1);
      BERoundTrip(x / 256, n - 1);
    }
  }

  /** Two byte strings of one width with the same little-endian value are equal. */
  lemma {:induction false} FromLEInjective(a: seq<byte>, b: seq<byte>)
    requires |a| == |b| && FromLE(a) == FromLE(b)
    ensures a == b
  {
    if a != [] {
      FromLEInjective(a[1..], b[1..]);
      assert a == [a[0]] + a[1..] && b == [b[0]] + b[1..];
    }
  }

  /** Writing the value read from `n` bytes gives those bytes back. */
  lemma {:induction false} LEOfFromLE(s: seq<byte>)
    ensures LE(FromLE(s), |s|) == s
  {
    if s != [] {
      LEOfFromLE(s[1..]);
      assert (s[0] + 256 * FromLE(s[1..])) / 256 == FromLE(s[1..]);
    }
  }

  /** `u32::from_be_bytes`. */
  function U32FromBE(s: seq<byte>): (r: u32)
    requires |s| == 4
    ensures r == FromBE(s)
  {
    assert Pow256(4) == 0x1_0000_0000;
    FromBE(s)
  }

  /** `u16::from_be_bytes`. */
  function U16FromBE(s: seq<byte>): (r: u16)
    requires |s| == 2
    ensures r == FromBE(s)
  {
    assert Pow256(2) == 0x1_0000;
    FromBE(s)
  }

  /** Writing the value read from `n` big-endian bytes gives those bytes back. */
  lemma {:induction false} BEOfFromBE(s: seq<byte>)
    ensures BE(FromBE(s), |s|) == s
  {
    if s != [] {
      var pre := s[..|s| - 1];
      BEOfFromBE(pre);
      assert (256 * FromBE(pre) + s[|s| - 1]) / 256 == FromBE(pre);
      assert s == pre + [s[|s| - 1]];
    }
  }

  /** The UTF-8 bytes of an ASCII string literal. */
  function Ascii(s: string): (r: seq<byte>)
    requires forall i :: 0 <= i < |s| ==> s[i] as int < 128
    ensures |r| == |s| && forall i :: 0 <= i < |s| ==> r[i] == s[i] as int
  {
    if s == [] then [] else [s[0] as int] + Ascii(s[1..])
  }

  /** Whether a byte string holds no NUL byte. */
  predicate NulFree(s: seq<byte>)
  {
    forall i :: 0 <= i < |s| ==> s[i] != NUL
  }

  /** The bytes before the first NUL and the bytes after it; None when there is no NUL. */
  function UntilNul(s: seq<byte>): Option<(seq<byte>, seq<byte>)>
  {
    if s == [] then None
    else if s[0] == NUL then Some(([], s[1..]))
    else match UntilNul(s[1..])
      case None => None
      case Some((pre, rest)) => Some(([s[0]] + pre, rest))
  }

  /** Splitting at the first NUL gives a NUL-free prefix, the NUL, and the rest. */
  lemma {:induction false} UntilNulSplits(s: seq<byte>)
    ensures UntilNul(s).None? <==> NulFree(s)
    ensures UntilNul(s).Some? ==>
      NulFree(UntilNul(s).value.0) && s == UntilNul(s).value.0 + [NUL] + UntilNul(s).value.1
  {
    if s != [] && s[0] != NUL {
      UntilNulSplits(s[1..]);
      assert s == [s[0]] + s[1..];
    }
  }

  /** A NUL-free string written with its terminator reads back as itself, leaving what follows. */
  lemma {:induction false} UntilNulTerminated(s: seq<byte>, t: seq<byte>)
    requires NulFree(s)
    ensures UntilNul(s + [NUL] + t) == Some((s, t))
  {
    if s == [] {
      assert s + [NUL] + t == [NUL] + t;
    } else {
      UntilNulTerminated(s[1..], t);
      assert (s + [NUL] + t)[1..] == s[1..] + [NUL] + t;
      assert [s[0]] + s[1..] == s;
    }
  }
}
