/**
 * The standalone GMA writer: header, the addon's name and description, a
 * fixed author, the entry table and the contents, each section written
 * straight after the one before. A name with a NUL inside stops the write
 * with an error, and an entry without contents panics; what was written
 * before stays written.
 */
module GmaLibWrite {
  import opened Wrappers
  import opened Bytes
  import opened Utf8
  import opened GmaStream
  import opened GmaLibRead

  /** The one error a write to memory can give: a C string with an interior NUL. */
  datatype WriteError = InteriorNul

  /** What `write_gma` ends in. */
  datatype WriteResult = Written | WriteFailed(error: WriteError) | WritePanicked

  /** The bytes `write_gma` leaves in the writer, and how it ended. */
  datatype WriteOutput = WriteOutput(bytes: seq<byte>, result: WriteResult)

  /** "Author Name", written in place of the addon's author. */
  const AUTHOR: seq<byte> := [0x41, 0x75, 0x74, 0x68, 0x6F, 0x72, 0x20, 0x4E, 0x61, 0x6D, 0x65]

  /** The author is plain ASCII text without a NUL. */
  lemma AuthorText()
    ensures NulFree(AUTHOR) && ValidUtf8(AUTHOR)
  {
    assert forall i :: 0 <= i < |AUTHOR| ==> 0x20 <= AUTHOR[i] < 0x80;
    AsciiValid(AUTHOR);
  }

  /** Fixed little-endian fields: `0u32`, `0u64` and `1i32`. */
  const ZERO_U32: seq<byte> := [0, 0, 0, 0]
  const ZERO_U64: seq<byte> := [0, 0, 0, 0, 0, 0, 0, 0]
  const ONE_I32: seq<byte> := [1, 0, 0, 0]

  /** The widths of a `u32` and a `u64` field. */
  const U32_LEN: nat := 4
  const U64_LEN: nat := 8

  /** The fixed fields are the little-endian encodings of their values. */
  lemma FixedFields()
    ensures ZERO_U32 == LE(0, 4) && ZERO_U64 == LE(0, 8) && ONE_I32 == LE(1, 4)
  {
  }

  /** The first 22 bytes: magic, version, a zero steam id, the timestamp and one empty required-content string. */
  function Header(timestamp: u64): seq<byte>
  {
    GMA_HEADER + [SUPPORTED_GMA_VERSION] + ZERO_U64 + LE(timestamp, U64_LEN) + [NUL]
  }

  /** The file index of entry `i`: `(1 + i) as u32`, which wraps at 2^32. */
  function IndexBytes(i: nat): seq<byte>
  {
    LE((1 + i) % 0x1_0000_0000, U32_LEN)
  }

  /** Entry `i` of the table: index, name, size and a zero crc. */
  function EntryRecord(i: nat, e: GmaEntry): seq<byte>
  {
    IndexBytes(i) + e.name + [NUL] + LE(e.size, U64_LEN) + ZERO_U32
  }

  /** The records of the first `n` entries. */
  function TableBytes(es: seq<GmaEntry>, n: nat): seq<byte>
    requires n <= |es|
  {
    if n == 0 then [] else TableBytes(es, n - 1) + EntryRecord(n - 1, es[n - 1])
  }

  /** The contents of the first `n` entries, one after the other. */
  function ContentBytes(es: seq<GmaEntry>, n: nat): seq<byte>
    requires n <= |es| && forall j :: 0 <= j < n ==> es[j].contents.Some?
  {
    if n == 0 then [] else ContentBytes(es, n - 1) + es[n - 1].contents.value
  }

  /** The first entry whose name holds a NUL, or the number of entries. */
  function FirstBadName(es: seq<GmaEntry>): (k: nat)
    ensures k <= |es| && (forall j :: 0 <= j < k ==> NulFree(es[j].name))
    ensures k < |es| ==> !NulFree(es[k].name)
  {
    if es == [] then 0
    else if !NulFree(es[0].name) then 0
    else 1 + FirstBadName(es[1..])
  }

  /** The first entry without contents, or the number of entries. */
  function FirstMissing(es: seq<GmaEntry>): (k: nat)
    ensures k <= |es| && (forall j :: 0 <= j < k ==> es[j].contents.Some?)
    ensures k < |es| ==> es[k].contents.None?
  {
    if es == [] then 0
    else if es[0].contents.None? then 0
    else 1 + FirstMissing(es[1..])
  }

  /** Everything before the entry table. */
  function Prelude(f: GmaFile, timestamp: u64): seq<byte>
  {
    Header(timestamp) + (f.name + [NUL]) + (f.description + [NUL]) + (AUTHOR + [NUL]) + ONE_I32
  }

  /** The entry table and the contents, as written after the prelude, stopping at the first failure. */
  function TableAndContents(es: seq<GmaEntry>): WriteOutput
  {
    var k := FirstBadName(es);
    if k < |es| then WriteOutput(TableBytes(es, k) + IndexBytes(k), WriteFailed(InteriorNul))
    else
      var table := TableBytes(es, |es|) + ZERO_U32;
      var m := FirstMissing(es);
      if m < |es| then WriteOutput(table + ContentBytes(es, m), WritePanicked)
      else WriteOutput(table + ContentBytes(es, |es|) + ZERO_U32, Written)
  }

  /** The whole of `write_gma`'s output, stopping at the first failure. */
  function WriteOf(f: GmaFile, timestamp: u64): WriteOutput
  {
    if !NulFree(f.name) then WriteOutput(Header(timestamp), WriteFailed(InteriorNul))
    else if !NulFree(f.description) then WriteOutput(Header(timestamp) + (f.name + [NUL]), WriteFailed(InteriorNul))
    else
      var rest := TableAndContents(f.entries);
      WriteOutput(Prelude(f, timestamp) + rest.bytes, rest.result)
  }

  // ---------------------------------------------------------------------------
  // The writer

  /** `write_cstr`: the string and its terminator, or nothing and an error when the string holds a NUL. */
  method WriteCStr(w: ByteWriter, s: seq<byte>) returns (ok: bool)
    modifies w
    ensures ok == NulFree(s)
    ensures ok ==> w.out == old(w.out) + (s + [NUL])
    ensures !ok ==> w.out == old(w.out)
  {
    var i := 0;
    while i < |s|
      invariant i <= |s| && NulFree(s[..i])
    {
      if s[i] == NUL {
        return false;
      }
      assert s[..i + 1] == s[..i] + [s[i]];
      i := i + 1;
    }
    assert s[..i] == s;
    w.Write(s + [NUL]);
    ok := true;
  }

  /** `write_gma`, writing into `w`; `timestamp` stands for the clock's seconds since the epoch. */
  method WriteGma(f: GmaFile, timestamp: u64, w: ByteWriter) returns (r: WriteResult)
    modifies w
    ensures r == WriteOf(f, timestamp).result
    ensures w.out == old(w.out) + WriteOf(f, timestamp).bytes
  {
    ghost var start := w.out;
    WriteHeader(timestamp, w);
    ghost var header := Header(timestamp);
    var ok := WriteCStr(w, f.name);
    if !ok {
      return WriteFailed(InteriorNul);
    }
    Assoc(start, header, f.name + [NUL]);
    ghost var named := header + (f.name + [NUL]);
    ok := WriteCStr(w, f.description);
    if !ok {
      return WriteFailed(InteriorNul);
    }
    Assoc(start, named, f.description + [NUL]);
    ghost var described := named + (f.description + [NUL]);
    ok := WriteCStr(w, AUTHOR);
    assert ok by { AuthorText(); }
    Assoc(start, described, AUTHOR + [NUL]);
    w.Write(ONE_I32);
    Assoc(start, described + (AUTHOR + [NUL]), ONE_I32);
    assert w.out == start + Prelude(f, timestamp);
    r := WriteTable(f.entries, w);
    Assoc(start, Prelude(f, timestamp), TableAndContents(f.entries).bytes);
  }

  /** The fixed start of the file, written field by field. */
  method WriteHeader(timestamp: u64, w: ByteWriter)
    modifies w
    ensures w.out == old(w.out) + Header(timestamp)
  {
    w.Write(GMA_HEADER);
    w.Write([SUPPORTED_GMA_VERSION]);
    w.Write(ZERO_U64);
    w.Write(LE(timestamp, U64_LEN));
    w.Write([NUL]);
  }

  /** One iteration of the table loop: index, name, size and crc; a bad name stops after the index. */
  method WriteRecord(i: nat, e: GmaEntry, w: ByteWriter) returns (ok: bool)
    modifies w
    ensures ok == NulFree(e.name)
    ensures ok ==> w.out == old(w.out) + EntryRecord(i, e)
    ensures !ok ==> w.out == old(w.out) + IndexBytes(i)
  {
    w.Write(IndexBytes(i));
    ghost var indexed := w.out;
    ok := WriteCStr(w, e.name);
    if !ok {
      return;
    }
    assert w.out == indexed + (e.name + [NUL]);
    w.Write(LE(e.size, U64_LEN));
    w.Write(ZERO_U32);
    assert EntryRecord(i, e) == IndexBytes(i) + (e.name + [NUL]) + LE(e.size, U64_LEN) + ZERO_U32;
  }

  /** The two loops of `write_gma`: the entry table, then the contents. */
  method WriteTable(es: seq<GmaEntry>, w: ByteWriter) returns (r: WriteResult)
    modifies w
    ensures r == TableAndContents(es).result
    ensures w.out == old(w.out) + TableAndContents(es).bytes
  {
    var k := WriteRecords(es, w);
    if k < |es| {
      Assoc(old(w.out), TableBytes(es, k), IndexBytes(k));
      return WriteFailed(InteriorNul);
    }
    w.Write(ZERO_U32);
    ghost var table := TableBytes(es, |es|) + ZERO_U32;
    Assoc(old(w.out), TableBytes(es, |es|), ZERO_U32);
    var ok := WriteContents(es, w);
    Assoc(old(w.out), table, ContentBytes(es, FirstMissing(es)));
    if !ok {
      return WritePanicked;
    }
    w.Write(ZERO_U32);
    Assoc(old(w.out), table + ContentBytes(es, |es|), ZERO_U32);
    r := Written;
  }

  /** The table loop: one record per entry, stopping after the index of the first bad name. */
  method WriteRecords(es: seq<GmaEntry>, w: ByteWriter) returns (k: nat)
    modifies w
    ensures k == FirstBadName(es)
    ensures k < |es| ==> w.out == old(w.out) + TableBytes(es, k) + IndexBytes(k)
    ensures k == |es| ==> w.out == old(w.out) + TableBytes(es, |es|)
  {
    ghost var start := w.out;
    assert start + TableBytes(es, 0) == start;
    for i := 0 to |es|
      invariant w.out == start + TableBytes(es, i)
      invariant forall j :: 0 <= j < i ==> NulFree(es[j].name)
    {
      var ok := WriteRecord(i, es[i], w);
      if !ok {
        FirstBadNameAt(es, i);
        return i;
      }
      Assoc(start, TableBytes(es, i), EntryRecord(i, es[i]));
    }
    FirstBadNameAt(es, |es|);
    k := |es|;
  }

  /** The contents loop: each entry's bytes, panicking at the first entry without contents. */
  method WriteContents(es: seq<GmaEntry>, w: ByteWriter) returns (ok: bool)
    modifies w
    ensures ok == (FirstMissing(es) == |es|)
    ensures w.out == old(w.out) + ContentBytes(es, FirstMissing(es))
  {
    for i := 0 to |es|
      invariant forall j :: 0 <= j < i ==> es[j].contents.Some?
      invariant w.out == old(w.out) + ContentBytes(es, i)
    {
      if es[i].contents.None? {
        FirstMissingAt(es, i);
        return false;
      }
      w.Write(es[i].contents.value);
    }
    FirstMissingAt(es, |es|);
    ok := true;
  }

  lemma Assoc(a: seq<byte>, b: seq<byte>, c: seq<byte>)
    ensures a + b + c == a + (b + c)
  {
  }

  /** `FirstBadName` is the first failing index. */
  lemma FirstBadNameAt(es: seq<GmaEntry>, i: nat)
    requires i <= |es| && (forall j :: 0 <= j < i ==> NulFree(es[j].name))
    requires i < |es| ==> !NulFree(es[i].name)
    ensures FirstBadName(es) == i
  {

  }

  /** `FirstMissing` is the first entry without contents. */
  lemma FirstMissingAt(es: seq<GmaEntry>, i: nat)
    requires i <= |es| && (forall j :: 0 <= j < i ==> es[j].contents.Some?)
    requires i < |es| ==> es[i].contents.None?
    ensures FirstMissing(es) == i
  {

  }
}
