// Escaping of JSON text for embedding inside a single-quoted JavaScript
// string: every backslash and every single quote gets a backslash in front.

module EscapeJson {
  import opened Bytes
  import opened Utf8

  const BACKSLASH: byte := 0x5C
  const SINGLE_QUOTE: byte := 0x27

  predicate NeedsEscape(b: byte)
  {
    b == BACKSLASH || b == SINGLE_QUOTE
  }

  /** What one input byte becomes in the output. */
  function EscapeByte(b: byte): seq<byte>
  {
    if NeedsEscape(b) then [BACKSLASH, b] else [b]
  }

  /** The escaped form of a byte string, built from the left as the loop builds it. */
  function Escaped(s: seq<byte>): seq<byte>
  {
    if s == [] then [] else Escaped(s[..|s| - 1]) + EscapeByte(s[|s| - 1])
  }

  /** `escape_single_quoted_json`: insert a backslash before each backslash and quote, in place. */
  method EscapeSingleQuotedJson(str: seq<byte>) returns (bytes: seq<byte>)
    ensures bytes == Escaped(str)
  {
    bytes := str;
    var i := 0;
    ghost var k := 0;
    while i < |bytes|
      invariant k <= |str|
      invariant bytes == Escaped(str[..k]) + str[k..]
      invariant i == |Escaped(str[..k])|
      decreases |str| - k
    {
      EscapeStep(str, k, bytes, i);
      var b := bytes[i];
      if b == BACKSLASH || b == SINGLE_QUOTE {
        bytes := bytes[..i] + [BACKSLASH] + bytes[i..];
        i := i + 1;
      }
      i := i + 1;
      k := k + 1;
    }
    assert str[..k] == str;
  }

  // ---------------------------------------------------------------------------
  // Structure of the escaped form

  /**
   * One step of the loop: with `k` bytes of `str` escaped, the byte at `i` is
   * `str[k]`; putting a backslash before it when it needs one leaves `k + 1`
   * bytes escaped.
   */
  lemma EscapeStep(str: seq<byte>, k: nat, bytes: seq<byte>, i: nat)
    requires k < |str| && bytes == Escaped(str[..k]) + str[k..] && i == |Escaped(str[..k])|
    ensures i < |bytes| && bytes[i] == str[k]
    ensures NeedsEscape(str[k]) ==>
      bytes[..i] + [BACKSLASH] + bytes[i..] == Escaped(str[..k + 1]) + str[k + 1..] &&
      i + 2 == |Escaped(str[..k + 1])|
    ensures !NeedsEscape(str[k]) ==>
      bytes == Escaped(str[..k + 1]) + str[k + 1..] && i + 1 == |Escaped(str[..k + 1])|
  {
    var e := Escaped(str[..k]);
    assert str[..k + 1][..k] == str[..k];
    assert Escaped(str[..k + 1]) == e + EscapeByte(str[k]);
    assert str[k..] == [str[k]] + str[k + 1..];
    assert bytes[i] == str[k..][0];
    if NeedsEscape(str[k]) {
      assert bytes[..i] == e && bytes[i..] == str[k..];
    }
  }

  lemma {:induction false} EscapedAppend(a: seq<byte>, b: seq<byte>)
    ensures Escaped(a + b) == Escaped(a) + Escaped(b)
    decreases |b|
  {
    if b == [] {
      assert a + b == a;
    } else {
      var b' := b[..|b| - 1];
      assert (a + b)[..|a + b| - 1] == a + b';
      EscapedAppend(a, b');
    }
  }

  lemma EscapedCons(x: byte, s: seq<byte>)
    ensures Escaped([x] + s) == EscapeByte(x) + Escaped(s)
  {
    EscapedAppend([x], s);
    assert [x][..0] == [];
  }

  /** The number of bytes that need a backslash. */
  function Specials(s: seq<byte>): nat
  {
    if s == [] then 0 else Specials(s[..|s| - 1]) + (if NeedsEscape(s[|s| - 1]) then 1 else 0)
  }

  /** One byte is added per backslash and per single quote, and no other. */
  lemma {:induction false} EscapedLength(s: seq<byte>)
    ensures |Escaped(s)| == |s| + Specials(s)
  {
    if s != [] {
      EscapedLength(s[..|s| - 1]);
    }
  }

  /** Without backslashes or quotes the text is left exactly as it was. */
  lemma {:induction false} EscapedUnchanged(s: seq<byte>)
    requires forall i :: 0 <= i < |s| ==> !NeedsEscape(s[i])
    ensures Escaped(s) == s
  {
    if s != [] {
      EscapedUnchanged(s[..|s| - 1]);
    }
  }

  // ---------------------------------------------------------------------------
  // The reference definition: two string replacements

  /** Replace every byte `c` with `rep`. */
  function Replace(s: seq<byte>, c: byte, rep: seq<byte>): seq<byte>
  {
    if s == [] then [] else Replace(s[..|s| - 1], c, rep) + (if s[|s| - 1] == c then rep else [s[|s| - 1]])
  }

  lemma {:induction false} ReplaceAppend(a: seq<byte>, b: seq<byte>, c: byte, rep: seq<byte>)
    ensures Replace(a + b, c, rep) == Replace(a, c, rep) + Replace(b, c, rep)
    decreases |b|
  {
    if b == [] {
      assert a + b == a;
    } else {
      var b' := b[..|b| - 1];
      assert (a + b)[..|a + b| - 1] == a + b';
      ReplaceAppend(a, b', c, rep);
    }
  }

  lemma {:induction false} ReplaceAbsent(s: seq<byte>, c: byte, rep: seq<byte>)
    requires c !in s
    ensures Replace(s, c, rep) == s
  {
    if s != [] {
      ReplaceAbsent(s[..|s| - 1], c, rep);
    }
  }

  /**
   * Escaping equals replacing each backslash by two and then each quote by
   * backslash-quote; the backslashes the first step adds are not touched again.
   */
  lemma {:induction false} EscapedIsDoubleReplace(s: seq<byte>)
    ensures Escaped(s) == Replace(Replace(s, BACKSLASH, [BACKSLASH, BACKSLASH]), SINGLE_QUOTE, [BACKSLASH, SINGLE_QUOTE])
  {
    if s != [] {
      var init, x := s[..|s| - 1], s[|s| - 1];
      EscapedIsDoubleReplace(init);
      var once := Replace(init, BACKSLASH, [BACKSLASH, BACKSLASH]);
      var step := if x == BACKSLASH then [BACKSLASH, BACKSLASH] else [x];
      ReplaceAppend(once, step, SINGLE_QUOTE, [BACKSLASH, SINGLE_QUOTE]);
      if x == BACKSLASH {
        ReplaceAbsent(step, SINGLE_QUOTE, [BACKSLASH, SINGLE_QUOTE]);
      } else {
        assert [x][..0] == [];
      }
    }
  }

  // ---------------------------------------------------------------------------
  // The inverse: dropping the inserted backslashes

  /** Read escaped text back: a backslash stands for the byte after it. */
  function Unescape(r: seq<byte>): seq<byte>
  {
    if r == [] then []
    else if r[0] == BACKSLASH && |r| >= 2 then [r[1]] + Unescape(r[2..])
    else [r[0]] + Unescape(r[1..])
  }

  /** Escaping loses nothing: unescaping gives the original text back. */
  lemma {:induction false} UnescapeEscaped(s: seq<byte>)
    ensures Unescape(Escaped(s)) == s
  {
    if s != [] {
      var x, rest := s[0], s[1..];
      assert s == [x] + rest;
      EscapedCons(x, rest);
      UnescapeEscaped(rest);
      var e := Escaped(s);
      if NeedsEscape(x) {
        assert e[0] == BACKSLASH && e[1] == x && e[2..] == Escaped(rest);
      } else {
        assert e[0] == x && e[1..] == Escaped(rest);
      }
    }
  }

  /** Different texts escape differently. */
  lemma EscapedInjective(s: seq<byte>, t: seq<byte>)
    requires Escaped(s) == Escaped(t)
    ensures s == t
  {
    UnescapeEscaped(s);
    UnescapeEscaped(t);
  }

  // ---------------------------------------------------------------------------
  // UTF-8 well-formedness is kept

  /** One well-formed scalar value stays well-formed once escaped. */
  lemma EscapedScalar(head: seq<byte>)
    requires 0 < ScalarLen(head) == |head|
    ensures ValidUtf8(Escaped(head))
  {
    if |head| == 1 {
      assert head == [head[0]];
      assert Escaped(head) == EscapeByte(head[0]) by { assert head[..0] == []; }
      AsciiValid(Escaped(head));
    } else {
      assert forall i :: 0 <= i < |head| ==> head[i] >= 0x80;
      EscapedUnchanged(head);
      assert head[|head|..] == [];
    }
  }

  /** Escaping keeps well-formed UTF-8 well-formed: only ASCII bytes are touched or added. */
  lemma {:induction false} EscapedKeepsUtf8(s: seq<byte>)
    requires ValidUtf8(s)
    ensures ValidUtf8(Escaped(s))
    decreases |s|
  {
    if s != [] {
      var n := ScalarLen(s);
      var head, rest := s[..n], s[n..];
      assert s == head + rest;
      ScalarLenExtends(head, rest);
      ScalarPrefix(s, n);
      EscapedScalar(head);
      EscapedAppend(head, rest);
      EscapedKeepsUtf8(rest);
      ValidConcat(Escaped(head), Escaped(rest));
    }
  }
}
