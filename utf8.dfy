/**
 * Well-formed UTF-8, as the byte sequences of Table 3-7 of the Unicode
 * Standard: what Rust's `String` guarantees and `String::from_utf8` checks.
 */
module Utf8 {
  import opened Bytes

  predicate Cont(b: byte)
  {
    0x80 <= b <= 0xBF
  }

  /** Length of the well-formed scalar value at the start of `s`, or 0 if there is none. */
  function ScalarLen(s: seq<byte>): nat
  {
    if |s| == 0 then 0
    else if s[0] < 0x80 then 1
    else if 0xC2 <= s[0] <= 0xDF then
      (if |s| >= 2 && Cont(s[1]) then 2 else 0)
    else if 0xE0 <= s[0] <= 0xEF then
      (if |s| >= 3 && Second3(s[0], s[1]) && Cont(s[2]) then 3 else 0)
    else if 0xF0 <= s[0] <= 0xF4 then
      (if |s| >= 4 && Second4(s[0], s[1]) && Cont(s[2]) && Cont(s[3]) then 4 else 0)
    else 0
  }

  predicate Second3(b0: byte, b1: byte)
  {
    if b0 == 0xE0 then 0xA0 <= b1 <= 0xBF
    else if b0 == 0xED then 0x80 <= b1 <= 0x9F
    else Cont(b1)
  }

  predicate Second4(b0: byte, b1: byte)
  {
    if b0 == 0xF0 then 0x90 <= b1 <= 0xBF
    else if b0 == 0xF4 then 0x80 <= b1 <= 0x8F
    else Cont(b1)
  }

  predicate ValidUtf8(s: seq<byte>)
    decreases |s|
  {
    s == [] || (ScalarLen(s) > 0 && ScalarLen(s) <= |s| && ValidUtf8(s[ScalarLen(s)..]))
  }

  /** The first scalar value of a text is still the first one after more text is added. */
  lemma ScalarLenExtends(s: seq<byte>, t: seq<byte>)
    requires ScalarLen(s) > 0
    ensures ScalarLen(s + t) == ScalarLen(s)
  {
    var u := s + t;
    assert u[0] == s[0];
    if |s| >= 2 { assert u[1] == s[1]; }
    if |s| >= 3 { assert u[2] == s[2]; }
    if |s| >= 4 { assert u[3] == s[3]; }
  }

  lemma {:induction false} ValidConcat(a: seq<byte>, b: seq<byte>)
    requires ValidUtf8(a) && ValidUtf8(b)
    ensures ValidUtf8(a + b)
    decreases |a|
  {
    if a == [] {
      assert a + b == b;
    } else {
      var n := ScalarLen(a);
      ScalarLenExtends(a, b);
      assert (a + b)[n..] == a[n..] + b;
      ValidConcat(a[n..], b);
    }
  }

  lemma {:induction false} AsciiValid(s: seq<byte>)
    requires forall i :: 0 <= i < |s| ==> s[i] < 0x80
    ensures ValidUtf8(s)
    decreases |s|
  {
    if s != [] {
      AsciiValid(s[1..]);
    }
  }

  /** The first scalar value alone has the same length. */
  lemma ScalarPrefix(s: seq<byte>, n: nat)
    requires n == ScalarLen(s) > 0
    ensures ScalarLen(s[..n]) == n
  {
    var h := s[..n];
    assert h[0] == s[0];
    if n >= 2 { assert h[1] == s[1]; }
    if n >= 3 { assert h[2] == s[2]; }
    if n >= 4 { assert h[3] == s[3]; }
  }

  /** The number of bytes UTF-8 spends on one scalar value (Table 3-6 of the Unicode Standard). */
  function Width(c: char): (n: nat)
    ensures 1 <= n <= 4
  {
    var v := c as int;
    if v < 0x80 then 1 else if v < 0x800 then 2 else if v < 0x1_0000 then 3 else 4
  }

  /** The UTF-8 encoding of one scalar value. */
  function EncodeChar(c: char): (r: seq<byte>)
    ensures |r| == Width(c)
  {
    var v := c as int;
    if v < 0x80 then [v]
    else if v < 0x800 then [0xC0 + v / 64, 0x80 + v % 64]
    else if v < 0x1_0000 then [0xE0 + v / 4096, 0x80 + (v / 64) % 64, 0x80 + v % 64]
    else [0xF0 + v / 262144, 0x80 + (v / 4096) % 64, 0x80 + (v / 64) % 64, 0x80 + v % 64]
  }

  /** What a Rust `String` holding `s` stores: the encodings of its scalar values one after another. */
  function Encode(s: string): (r: seq<byte>)
  {
    if s == [] then [] else EncodeChar(s[0]) + Encode(s[1..])
  }

  /** `str::len`: the length of the encoding in bytes. */
  function ByteLength(s: string): (n: nat)
  {
    if s == [] then 0 else Width(s[0]) + ByteLength(s[1..])
  }

  /** Each scalar value encodes as one well-formed scalar of its width. */
  lemma EncodeCharScalar(c: char)
    ensures ScalarLen(EncodeChar(c)) == Width(c)
  {
    var v := c as int;
    var r := EncodeChar(c);
    if 0x800 <= v < 0x1_0000 {
      assert v < 0xD800 || 0xE000 <= v;
      if v < 0x1000 {
        assert r[0] == 0xE0 && v / 64 >= 32;
      } else if 0xD000 <= v < 0xE000 {
        assert r[0] == 0xED && v / 64 < 0xD800 / 64;
      }
    } else if 0x1_0000 <= v {
      if v < 0x4_0000 {
        assert r[0] == 0xF0 && v / 4096 >= 16;
      } else if 0x10_0000 <= v {
        assert r[0] == 0xF4 && v / 4096 < 0x11_0000 / 4096;
      }
    }
  }

  /** The encoding is well-formed UTF-8 and `len` is its length: so `len` counts bytes, not characters. */
  lemma {:induction false} EncodeValid(s: string)
    ensures ValidUtf8(Encode(s)) && |Encode(s)| == ByteLength(s)
    ensures |s| <= ByteLength(s) <= 4 * |s|
  {
    if s != [] {
      var head := EncodeChar(s[0]);
      EncodeValid(s[1..]);
      EncodeCharScalar(s[0]);
      ScalarPrefix(head, Width(s[0]));
      assert head[..Width(s[0])] == head;
      assert ValidUtf8(head) by {
        assert head[Width(s[0])..] == [];
      }
      ValidConcat(head, Encode(s[1..]));
    }
  }

  /** Below U+0080 a character is one byte, so `len` is the character count exactly for ASCII text. */
  lemma {:induction false} ByteLengthAscii(s: string)
    ensures ByteLength(s) == |s| <==> forall i :: 0 <= i < |s| ==> s[i] as int < 0x80
  {
    if s != [] {
      ByteLengthAscii(s[1..]);
      EncodeValid(s[1..]);
      assert forall i :: 1 <= i < |s| ==> s[i] == s[1..][i - 1];
    }
  }
}
