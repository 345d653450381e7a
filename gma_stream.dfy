/**
 * The byte streams the GMA code reads and writes: a file handle with a read
 * cursor (a `BufReader` over a file, which can also seek) and a growing output
 * buffer. Reading past the end gives fewer bytes, never an error of its own;
 * the callers decide what a short read means.
 */
module GmaStream {
  import opened Wrappers
  import opened Bytes

  /** "GMAD", the magic bytes every GMA file starts with. */
  const GMA_HEADER: seq<byte> := [0x47, 0x4D, 0x41, 0x44]
  const SUPPORTED_GMA_VERSION: byte := 3

  /** The result of code that can panic: a failed `unwrap` ends in `Panicked`. */
  datatype Outcome<+T> = Done(value: T) | Panicked

  /** The bytes from `pos` on; none once the cursor is past the end. */
  function Rest(data: seq<byte>, pos: nat): seq<byte>
  {
    if pos <= |data| then data[pos..] else []
  }

  /** What `read_until(0, ..)` takes: everything up to and including the first NUL, or all of it. */
  function UpToNulIncl(r: seq<byte>): (buf: seq<byte>)
    ensures |buf| <= |r|
  {
    if r == [] then []
    else if r[0] == NUL then [NUL]
    else [r[0]] + UpToNulIncl(r[1..])
  }

  lemma UpToNulInclStep(data: seq<byte>, p: nat)
    requires p < |data|
    ensures UpToNulIncl(data[p..]) == if data[p] == NUL then [NUL] else [data[p]] + UpToNulIncl(data[p + 1..])
  {
    assert data[p..][1..] == data[p + 1..];
  }

  /** The read stops at the first NUL, or takes everything when there is none. */
  lemma {:induction false} UpToNulInclShape(r: seq<byte>)
    ensures var buf := UpToNulIncl(r);
      buf == r[..|buf|] && (buf != [] ==> NulFree(buf[..|buf| - 1])) &&
      (buf == r || buf[|buf| - 1] == NUL)
  {
    if r != [] && r[0] != NUL {
      UpToNulInclShape(r[1..]);
      var tail := UpToNulIncl(r[1..]);
      assert UpToNulIncl(r) == [r[0]] + tail;
      if tail != [] {
        assert ([r[0]] + tail)[..|tail|] == [r[0]] + tail[..|tail| - 1];
      }
    }
  }

  /** A NUL-free string followed by its terminator is read up to that terminator. */
  lemma {:induction false} UpToNulInclTerminated(s: seq<byte>, t: seq<byte>)
    requires NulFree(s)
    ensures UpToNulIncl(s + [NUL] + t) == s + [NUL]
  {
    if s == [] {
      assert s + [NUL] + t == [NUL] + t;
    } else {
      assert (s + [NUL] + t)[1..] == s[1..] + [NUL] + t;
      UpToNulInclTerminated(s[1..], t);
      assert [s[0]] + s[1..] == s;
    }
  }

  /** A number read from the file and the position after it, or a read that ran past the end. */
  datatype NumberRead = ShortRead | Number(value: nat, next: nat)

  /** `n` little-endian bytes at `pos`. */
  function LEAt(data: seq<byte>, pos: nat, n: nat): (r: NumberRead)
    ensures r.Number? ==> r.value < Pow256(n) && r.next == pos + n
    ensures r.Number? && n > 0 ==> r.next <= |data|
  {
    if n <= |Rest(data, pos)| then Number(FromLE(Rest(data, pos)[..n]), pos + n) else ShortRead
  }

  /** `x` is stored at `pos` in `data`. */
  predicate At(data: seq<byte>, pos: nat, x: seq<byte>)
  {
    pos + |x| <= |data| && data[pos..pos + |x|] == x
  }

  lemma AtSplit(data: seq<byte>, pos: nat, a: seq<byte>, b: seq<byte>)
    requires At(data, pos, a + b)
    ensures At(data, pos, a) && At(data, pos + |a|, b)
  {
    assert data[pos..pos + |a|] == (a + b)[..|a|];
    assert data[pos + |a|..pos + |a| + |b|] == (a + b)[|a|..];
  }

  lemma AtRest(data: seq<byte>, pos: nat, x: seq<byte>)
    requires At(data, pos, x)
    ensures Rest(data, pos)[..|x|] == x
  {
  }

  /** A little-endian number stored at `pos` reads back as itself. */
  lemma LEAtReads(data: seq<byte>, pos: nat, x: nat, n: nat)
    requires At(data, pos, LE(x, n)) && x < Pow256(n)
    ensures LEAt(data, pos, n) == Number(x, pos + n)
  {
    AtRest(data, pos, LE(x, n));
    LERoundTrip(x, n);
  }

  lemma Pow256Widths()
    ensures Pow256(4) == 0x1_0000_0000 && Pow256(8) == 0x1_0000_0000_0000_0000
  {
    assert Pow256(2) == 0x1_0000;
  }

  /** The byte loop behind `read_until`: one byte at a time until a NUL or the end. */
  method UntilNulFrom(data: seq<byte>, start: nat) returns (buf: seq<byte>)
    ensures buf == UpToNulIncl(Rest(data, start))
  {
    buf := [];
    if start > |data| {
      return;
    }
    var p := start;
    while p < |data|
      invariant start <= p <= |data|
      invariant UpToNulIncl(data[start..]) == buf + UpToNulIncl(data[p..])
      decreases |data| - p
    {
      var b := data[p];
      UpToNulInclStep(data, p);
      p := p + 1;
      buf := buf + [b];
      if b == NUL {
        return;
      }
    }
    assert data[p..] == [];
  }

  /** A file handle: the file's bytes and a read cursor. */
  class ByteStream {
    const data: seq<byte>
    var pos: nat

    constructor(data: seq<byte>)
      ensures this.data == data && pos == 0
    {
      this.data := data;
      pos := 0;
    }

    /** `read_exact`: exactly `n` bytes, or `None` after consuming what is left. */
    method ReadExact(n: nat) returns (r: Option<seq<byte>>)
      modifies this`pos
      ensures n <= |Rest(data, old(pos))| ==> r.Some? && r.value == Rest(data, old(pos))[..n] && pos == old(pos) + n
      ensures n > |Rest(data, old(pos))| ==> r.None? && pos == old(pos) + |Rest(data, old(pos))|
    {
      var rest := Rest(data, pos);
      if n <= |rest| {
        r := Some(rest[..n]);
        pos := pos + n;
      } else {
        r := None;
        pos := pos + |rest|;
      }
    }

    /** `read_u32::<LittleEndian>` and its wider and narrower siblings. */
    method ReadLE(n: nat) returns (r: Option<nat>)
      modifies this`pos
      ensures LEAt(data, old(pos), n).Number? ==> r.Some? && r.value == LEAt(data, old(pos), n).value && pos == old(pos) + n
      ensures LEAt(data, old(pos), n).ShortRead? ==> r.None? && pos == old(pos) + |Rest(data, old(pos))|
    {
      var bytes := ReadExact(n);
      match bytes {
        case Some(b) => r := Some(FromLE(b));
        case None => r := None;
      }
    }

    /** `read_until(0, ..)`: the bytes up to and including the next NUL, or up to the end. */
    method ReadUntilNul() returns (buf: seq<byte>)
      modifies this`pos
      ensures buf == UpToNulIncl(Rest(data, old(pos)))
      ensures pos == old(pos) + |buf|
    {
      buf := UntilNulFrom(data, pos);
      pos := pos + |buf|;
    }

    /** `io::copy(&mut handle.take(n), &mut io::sink())`: skip up to `n` bytes; a short file is no error. */
    method Skip(n: nat) returns (copied: nat)
      modifies this`pos
      ensures copied == if n <= |Rest(data, old(pos))| then n else |Rest(data, old(pos))|
      ensures pos == old(pos) + copied
    {
      var rest := Rest(data, pos);
      copied := if n <= |rest| then n else |rest|;
      pos := pos + copied;
    }

    /** `seek(SeekFrom::Start(p))`: a cursor past the end is allowed, reads there give nothing. */
    method Seek(p: nat)
      modifies this`pos
      ensures pos == p
    {
      pos := p;
    }
  }

  /** A growing output buffer; writes to it cannot fail. */
  class ByteWriter {
    var out: seq<byte>

    constructor()
      ensures out == []
    {
      out := [];
    }

    method Write(bytes: seq<byte>)
      modifies this
      ensures out == old(out) + bytes
    {
      out := out + bytes;
    }
  }
}
