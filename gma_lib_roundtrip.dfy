/**
 * Reading back what the GMA writer wrote. A file whose names are UTF-8
 * without a NUL, whose entries all carry exactly `size` bytes of contents,
 * and which has fewer than 2^32 - 1 entries is written in full, and the
 * reader gives back its name, description and entries: each with its name,
 * its size, a zero crc, and its contents when they are asked for. The author
 * comes back as the fixed "Author Name" the writer puts in its place.
 */
module GmaRoundTrip {
  import opened Wrappers
  import opened Bytes
  import opened Utf8
  import opened GmaStream
  import opened GmaLibRead
  import opened GmaLibWrite

  /** A string the writer writes in full and the reader reads back. */
  predicate TextWritable(s: seq<byte>)
  {
    NulFree(s) && ValidUtf8(s)
  }

  predicate EntryWritable(e: GmaEntry)
  {
    TextWritable(e.name) && e.contents.Some? && |e.contents.value| == e.size
  }

  /** The entry numbers 1 ..= |entries| fit in a `u32` without reaching 0 again. */
  predicate Writable(f: GmaFile)
  {
    TextWritable(f.name) && TextWritable(f.description) && |f.entries| < 0xFFFF_FFFF &&
    forall j :: 0 <= j < |f.entries| ==> EntryWritable(f.entries[j])
  }

  /** What the reader makes of a written entry: the crc comes back as 0, the contents only when read. */
  function ReadBack(e: GmaEntry, readEntry: bool): GmaEntry
  {
    GmaEntry(e.name, e.size, 0, if readEntry then e.contents else None)
  }

  /** Every entry as the reader gives it back. */
  function ReadBackAll(es: seq<GmaEntry>, readEntry: bool): (r: seq<GmaEntry>)
    ensures |r| == |es|
  {
    if es == [] then [] else [ReadBack(es[0], readEntry)] + ReadBackAll(es[1..], readEntry)
  }

  /** Entry `j` comes back as `ReadBack` of entry `j`. */
  lemma {:induction false} ReadBackAllAt(es: seq<GmaEntry>, j: nat, readEntry: bool)
    requires j < |es|
    ensures ReadBackAll(es, readEntry)[j] == ReadBack(es[j], readEntry)
  {
    if j > 0 {
      ReadBackAllAt(es[1..], j - 1, readEntry);
    }
  }

  lemma AssocEntries(a: seq<GmaEntry>, b: seq<GmaEntry>, c: seq<GmaEntry>)
    ensures a + b + c == a + (b + c)
  {
  }

  /** The records of entries `i..`, front to back. */
  function RecordsFrom(es: seq<GmaEntry>, i: nat): seq<byte>
    requires i <= |es|
    decreases |es| - i
  {
    if i == |es| then [] else EntryRecord(i, es[i]) + RecordsFrom(es, i + 1)
  }

  /** The contents of entries `i..`, front to back. */
  function ContentsFrom(es: seq<GmaEntry>, i: nat): seq<byte>
    requires i <= |es| && forall j :: 0 <= j < |es| ==> es[j].contents.Some?
    decreases |es| - i
  {
    if i == |es| then [] else es[i].contents.value + ContentsFrom(es, i + 1)
  }

  lemma Assoc3(a: seq<byte>, b: seq<byte>, c: seq<byte>)
    ensures a + b + c == a + (b + c)
  {
  }

  /** The table written front to back is the table the writer's loop builds. */
  lemma {:induction false} RecordsSplit(es: seq<GmaEntry>, i: nat)
    requires i <= |es|
    ensures TableBytes(es, i) + RecordsFrom(es, i) == TableBytes(es, |es|)
    decreases |es| - i
  {
    if i == |es| {
      assert RecordsFrom(es, i) == [];
    } else {
      RecordsSplit(es, i + 1);
      Assoc3(TableBytes(es, i), EntryRecord(i, es[i]), RecordsFrom(es, i + 1));
    }
  }

  lemma {:induction false} ContentsSplit(es: seq<GmaEntry>, i: nat)
    requires i <= |es| && forall j :: 0 <= j < |es| ==> es[j].contents.Some?
    ensures ContentBytes(es, i) + ContentsFrom(es, i) == ContentBytes(es, |es|)
    decreases |es| - i
  {
    if i == |es| {
      assert ContentsFrom(es, i) == [];
    } else {
      ContentsSplit(es, i + 1);
      Assoc3(ContentBytes(es, i), es[i].contents.value, ContentsFrom(es, i + 1));
    }
  }

  // ---------------------------------------------------------------------------
  // Reading from a cursor whose remaining bytes are known

  /**
   * The bytes from `pos` on, dropped one at a time: the same as `Rest`
   * (`SuffixIsRest`), in a recursive form whose unfolding the proofs below
   * ask for only where they need it.
   */
  function Suffix(data: seq<byte>, pos: nat): seq<byte>
    decreases pos
  {
    if pos == 0 || data == [] then data else Suffix(data[1..], pos - 1)
  }

  lemma {:induction false} SuffixIsRest(data: seq<byte>, pos: nat)
    ensures Suffix(data, pos) == Rest(data, pos)
    decreases pos
  {
    if pos != 0 && data != [] {
      SuffixIsRest(data[1..], pos - 1);
      if pos <= |data| {
        assert data[1..][pos - 1..] == data[pos..];
      }
    }
  }

  lemma SuffixOfAppend(x: seq<byte>, y: seq<byte>)
    ensures Suffix(x + y, |x|) == y
  {
    SuffixIsRest(x + y, |x|);
    assert (x + y)[|x|..] == y;
  }

  /** Taking `a` off the front leaves the bytes after it. */
  lemma SuffixAfter(data: seq<byte>, pos: nat, a: seq<byte>, t: seq<byte>)
    requires Suffix(data, pos) == a + t
    ensures Suffix(data, pos + |a|) == t
  {
    SuffixIsRest(data, pos);
    SuffixIsRest(data, pos + |a|);
    if pos <= |data| {
      assert data[pos + |a|..] == data[pos..][|a|..];
    }
  }

  /** A little-endian number at the cursor, and the bytes after it. */
  lemma LEAtSuffix(data: seq<byte>, pos: nat, x: nat, n: nat, t: seq<byte>)
    requires Suffix(data, pos) == LE(x, n) + t && x < Pow256(n)
    ensures LEAt(data, pos, n) == Number(x, pos + n)
    ensures Suffix(data, pos + n) == t
  {
    SuffixIsRest(data, pos);
    assert Rest(data, pos)[..n] == LE(x, n);
    LERoundTrip(x, n);
    SuffixAfter(data, pos, LE(x, n), t);
  }

  /** A NUL-terminated string at the cursor, and the bytes after it. */
  lemma NtStringSuffix(data: seq<byte>, pos: nat, s: seq<byte>, t: seq<byte>)
    requires TextWritable(s) && Suffix(data, pos) == s + [NUL] + t
    ensures NtStringAt(data, pos) == Text(s, pos + |s| + 1)
    ensures Suffix(data, pos + |s| + 1) == t
  {
    SuffixIsRest(data, pos);
    UpToNulInclTerminated(s, t);
    NtStringOfRead(data, pos, s);
    SuffixAfter(data, pos, s + [NUL], t);
  }

  lemma ZeroU32Suffix(data: seq<byte>, pos: nat, t: seq<byte>)
    requires Suffix(data, pos) == ZERO_U32 + t
    ensures LEAt(data, pos, 4) == Number(0, pos + 4)
    ensures Suffix(data, pos + 4) == t
  {
    assert ZERO_U32 == LE(0, 4);
    LEAtSuffix(data, pos, 0, 4, t);
  }

  lemma OneI32Suffix(data: seq<byte>, pos: nat, t: seq<byte>)
    requires Suffix(data, pos) == ONE_I32 + t
    ensures LEAt(data, pos, 4) == Number(1, pos + 4)
    ensures Suffix(data, pos + 4) == t
  {
    assert LE(0, 3) == [0, 0, 0];
    assert ONE_I32 == LE(1, 4);
    LEAtSuffix(data, pos, 1, 4, t);
  }

  // ---------------------------------------------------------------------------
  // The entry table

  /** A record after its index reads back as the entry's name, size and a zero crc. */
  lemma EntryFieldsRead(data: seq<byte>, pos: nat, e: GmaEntry, t: seq<byte>)
    requires TextWritable(e.name)
    requires Suffix(data, pos) == e.name + [NUL] + (LE(e.size, U64_LEN) + (ZERO_U32 + t))
    ensures EntryAt(data, pos) == Entry(ReadBack(e, false), pos + |e.name| + 1 + U64_LEN + 4)
    ensures Suffix(data, pos + |e.name| + 1 + U64_LEN + 4) == t
  {
    NtStringSuffix(data, pos, e.name, LE(e.size, U64_LEN) + (ZERO_U32 + t));
    SizeAndCrcRead(data, pos + |e.name| + 1, e.size, t);
    EntryOfFields(data, pos, e, pos + |e.name| + 1);
  }

  /** The size and the zero crc after an entry's name. */
  lemma SizeAndCrcRead(data: seq<byte>, p1: nat, size: u64, t: seq<byte>)
    requires Suffix(data, p1) == LE(size, U64_LEN) + (ZERO_U32 + t)
    ensures LEAt(data, p1, U64_LEN) == Number(size, p1 + U64_LEN)
    ensures LEAt(data, p1 + U64_LEN, 4) == Number(0, p1 + U64_LEN + 4)
    ensures Suffix(data, p1 + U64_LEN + 4) == t
  {
    Pow256Widths();
    LEAtSuffix(data, p1, size, U64_LEN, ZERO_U32 + t);
    ZeroU32Suffix(data, p1 + U64_LEN, t);
  }

  lemma EntryOfFields(data: seq<byte>, pos: nat, e: GmaEntry, p1: nat)
    requires NtStringAt(data, pos) == Text(e.name, p1)
    requires LEAt(data, p1, U64_LEN) == Number(e.size, p1 + U64_LEN)
    requires LEAt(data, p1 + U64_LEN, 4) == Number(0, p1 + U64_LEN + 4)
    ensures EntryAt(data, pos) == Entry(ReadBack(e, false), p1 + U64_LEN + 4)
  {
  }

  /** A record followed by more bytes, regrouped field by field as the reader takes them. */
  lemma RecordLayout(i: nat, e: GmaEntry, t: seq<byte>)
    ensures EntryRecord(i, e) + t ==
      IndexBytes(i) + (e.name + [NUL] + (LE(e.size, U64_LEN) + (ZERO_U32 + t)))
  {
    var a, b, c, d := IndexBytes(i), e.name + [NUL], LE(e.size, U64_LEN), ZERO_U32;
    assert EntryRecord(i, e) == a + b + c + d;
    Assoc3(a + b + c, d, t);
    Assoc3(a + b, c, d + t);
    Assoc3(a, b, c + (d + t));
  }

  /** Below 2^32 - 1 the entry number does not wrap. */
  lemma IndexValue(i: nat)
    requires i < 0xFFFF_FFFF
    ensures IndexBytes(i) == LE(1 + i, U32_LEN) && 1 + i < Pow256(U32_LEN)
  {
    Pow256Widths();
  }

  /** One record of the table: its non-zero index and its entry, and the cursor after it. */
  lemma RecordReads(data: seq<byte>, pos: nat, es: seq<GmaEntry>, i: nat, t: seq<byte>)
    requires i < |es| < 0xFFFF_FFFF && TextWritable(es[i].name)
    requires Suffix(data, pos) == RecordsFrom(es, i) + (ZERO_U32 + t)
    ensures LEAt(data, pos, U32_LEN) == Number(1 + i, pos + U32_LEN)
    ensures EntryAt(data, pos + U32_LEN) == Entry(ReadBack(es[i], false), RecordEnd(pos, es[i]))
    ensures Suffix(data, RecordEnd(pos, es[i])) == RecordsFrom(es, i + 1) + (ZERO_U32 + t)
  {
    var e := es[i];
    var more := RecordsFrom(es, i + 1) + (ZERO_U32 + t);
    Assoc3(EntryRecord(i, e), RecordsFrom(es, i + 1), ZERO_U32 + t);
    RecordLayout(i, e, more);
    var fields := e.name + [NUL] + (LE(e.size, U64_LEN) + (ZERO_U32 + more));
    IndexValue(i);
    LEAtSuffix(data, pos, 1 + i, U32_LEN, fields);
    EntryFieldsRead(data, pos + U32_LEN, e, more);
    assert RecordEnd(pos, e) == pos + U32_LEN + |e.name| + 1 + U64_LEN + 4;
  }

  /** Where the record of `e` that starts at `pos` ends. */
  function RecordEnd(pos: nat, e: GmaEntry): nat
  {
    pos + U32_LEN + |e.name| + 1 + U64_LEN + 4
  }

  /** Entries `i..` of the table, then the zero index, read back after the entries `acc` before them. */
  lemma {:induction false} EntryTableReads(data: seq<byte>, pos: nat, es: seq<GmaEntry>, i: nat, acc: seq<GmaEntry>, t: seq<byte>)
    requires i <= |es| < 0xFFFF_FFFF && forall j :: 0 <= j < |es| ==> TextWritable(es[j].name)
    requires Suffix(data, pos) == RecordsFrom(es, i) + (ZERO_U32 + t)
    ensures var r := EntryTable(data, pos, acc);
      r.Table? && r.entries == acc + ReadBackAll(es[i..], false) && Suffix(data, r.next) == t
    decreases |es| - i
  {
    if i == |es| {
      assert RecordsFrom(es, i) + (ZERO_U32 + t) == ZERO_U32 + t;
      ZeroU32Suffix(data, pos, t);
      assert es[i..] == [];
      assert acc + [] == acc;
    } else {
      RecordReads(data, pos, es, i, t);
      var next := RecordEnd(pos, es[i]);
      var x := ReadBack(es[i], false);
      EntryTableReads(data, next, es, i + 1, acc + [x], t);
      TableUnfolds(data, pos, acc, i, x, next);
      ReadBackAllStep(es, i, false);
      AssocEntries(acc, [x], ReadBackAll(es[i + 1..], false));
    }
  }

  /** A non-zero index and an entry: the table goes on after them with that entry added. */
  lemma TableUnfolds(data: seq<byte>, pos: nat, acc: seq<GmaEntry>, i: nat, x: GmaEntry, next: nat)
    requires LEAt(data, pos, U32_LEN) == Number(1 + i, pos + U32_LEN)
    requires EntryAt(data, pos + U32_LEN) == Entry(x, next)
    ensures EntryTable(data, pos, acc) == EntryTable(data, next, acc + [x])
  {
  }

  lemma ReadBackAllStep(es: seq<GmaEntry>, i: nat, readEntry: bool)
    requires i < |es|
    ensures ReadBackAll(es[i..], readEntry) == [ReadBack(es[i], readEntry)] + ReadBackAll(es[i + 1..], readEntry)
  {
    assert es[i..][1..] == es[i + 1..];
  }

  // ---------------------------------------------------------------------------
  // The contents

  /** Every entry carries exactly `size` bytes. */
  predicate Filled(es: seq<GmaEntry>)
  {
    forall j :: 0 <= j < |es| ==> es[j].contents.Some? && |es[j].contents.value| == es[j].size
  }

  /** The entries while the contents loop is at entry `i`: the ones before it done, the rest as the table gave them. */
  function Partly(es: seq<GmaEntry>, i: nat, readEntry: bool): seq<GmaEntry>
    requires i <= |es|
  {
    ReadBackAll(es[..i], readEntry) + ReadBackAll(es[i..], false)
  }

  lemma PartlyStep(es: seq<GmaEntry>, i: nat, readEntry: bool)
    requires i < |es|
    ensures |Partly(es, i, readEntry)| == |es| && Partly(es, i, readEntry)[i] == ReadBack(es[i], false)
    ensures Partly(es, i, readEntry)[i := ReadBack(es[i], readEntry)] == Partly(es, i + 1, readEntry)
  {
    var a, b := Partly(es, i, readEntry)[i := ReadBack(es[i], readEntry)], Partly(es, i + 1, readEntry);
    assert |a| == |b|;
    ReadBackAllAt(es[i..], 0, false);
    forall j | 0 <= j < |a|
      ensures a[j] == b[j]
    {
      if j < i {
        ReadBackAllAt(es[..i], j, readEntry);
        ReadBackAllAt(es[..i + 1], j, readEntry);
      } else if j == i {
        ReadBackAllAt(es[..i + 1], j, readEntry);
      } else {
        ReadBackAllAt(es[i..], j - i, false);
        ReadBackAllAt(es[i + 1..], j - i - 1, false);
        assert es[i..][j - i] == es[j] == es[i + 1..][j - i - 1];
      }
    }
  }

  /** One entry's contents at the cursor: read in full or skipped, and the cursor after them. */
  lemma EntryContentsReads(data: seq<byte>, pos: nat, e: GmaEntry, readEntry: bool, t: seq<byte>)
    requires e.contents.Some? && |e.contents.value| == e.size
    requires Suffix(data, pos) == e.contents.value + t
    ensures EntryContents(data, pos, ReadBack(e, false), readEntry) == Entry(ReadBack(e, readEntry), pos + e.size)
    ensures Suffix(data, pos + e.size) == t
  {
    SuffixAfter(data, pos, e.contents.value, t);
    SuffixIsRest(data, pos);
    var rest := Rest(data, pos);
    assert e.size <= |rest| && rest[..e.size] == e.contents.value;
    if readEntry {
      assert ReadBack(e, false).(contents := Some(rest[..e.size])) == ReadBack(e, true);
    }
  }

  lemma ContentsUnfolds(data: seq<byte>, pos: nat, cur: seq<GmaEntry>, i: nat, readEntry: bool, x: GmaEntry, next: nat,
                         after: seq<GmaEntry>)
    requires i < |cur| && EntryContents(data, pos, cur[i], readEntry) == Entry(x, next) && after == cur[i := x]
    ensures Contents(data, pos, cur, i, readEntry) == Contents(data, next, after, i + 1, readEntry)
  {
  }

  /** The contents of entries `i..`, read or skipped one after the other. */
  lemma {:induction false} ContentsReads(data: seq<byte>, pos: nat, es: seq<GmaEntry>, i: nat, readEntry: bool, t: seq<byte>)
    requires i <= |es| && Filled(es)
    requires Suffix(data, pos) == ContentsFrom(es, i) + t
    ensures var r := Contents(data, pos, Partly(es, i, readEntry), i, readEntry);
      r.Table? && r.entries == ReadBackAll(es, readEntry) && Suffix(data, r.next) == t
    decreases |es| - i
  {
    if i == |es| {
      assert ContentsFrom(es, i) + t == t;
      assert es[..i] == es && es[i..] == [];
      assert Partly(es, i, readEntry) == ReadBackAll(es, readEntry);
    } else {
      NextContentsReads(data, pos, es, i, readEntry, t);
      ContentsStep(data, pos, es, i, readEntry);
      ContentsReads(data, pos + es[i].size, es, i + 1, readEntry, t);
    }
  }

  lemma ContentsStep(data: seq<byte>, pos: nat, es: seq<GmaEntry>, i: nat, readEntry: bool)
    requires i < |es|
    requires EntryContents(data, pos, ReadBack(es[i], false), readEntry) == Entry(ReadBack(es[i], readEntry), pos + es[i].size)
    ensures Contents(data, pos, Partly(es, i, readEntry), i, readEntry) ==
      Contents(data, pos + es[i].size, Partly(es, i + 1, readEntry), i + 1, readEntry)
  {
    PartlyStep(es, i, readEntry);
    ContentsUnfolds(data, pos, Partly(es, i, readEntry), i, readEntry, ReadBack(es[i], readEntry), pos + es[i].size,
      Partly(es, i + 1, readEntry));
  }

  /** The contents of entry `i` at the cursor, and the contents of the entries after it. */
  lemma NextContentsReads(data: seq<byte>, pos: nat, es: seq<GmaEntry>, i: nat, readEntry: bool, t: seq<byte>)
    requires i < |es| && Filled(es)
    requires Suffix(data, pos) == ContentsFrom(es, i) + t
    ensures EntryContents(data, pos, ReadBack(es[i], false), readEntry) == Entry(ReadBack(es[i], readEntry), pos + es[i].size)
    ensures Suffix(data, pos + es[i].size) == ContentsFrom(es, i + 1) + t
  {
    assert Suffix(data, pos) == es[i].contents.value + (ContentsFrom(es, i + 1) + t) by {
      assert ContentsFrom(es, i) == es[i].contents.value + ContentsFrom(es, i + 1);
      Assoc3(es[i].contents.value, ContentsFrom(es, i + 1), t);
    }
    EntryContentsReads(data, pos, es[i], readEntry, ContentsFrom(es, i + 1) + t);
  }

  // ---------------------------------------------------------------------------
  // The whole file

  /** Everything after the prelude when the write goes through: table, zero index, contents, zero. */
  function Body(es: seq<GmaEntry>): seq<byte>
    requires Filled(es)
  {
    TableBytes(es, |es|) + ZERO_U32 + ContentBytes(es, |es|) + ZERO_U32
  }

  /** A writable file is written in full: the prelude, then the body. */
  lemma WrittenInFull(f: GmaFile, timestamp: u64)
    requires Writable(f)
    ensures Filled(f.entries)
    ensures WriteOf(f, timestamp) == WriteOutput(Prelude(f, timestamp) + Body(f.entries), Written)
  {
    var es := f.entries;
    FirstBadNameAt(es, |es|);
    FirstMissingAt(es, |es|);
  }

  lemma PreludeLayout(f: GmaFile, timestamp: u64, body: seq<byte>)
    ensures Prelude(f, timestamp) + body ==
      Header(timestamp) + (f.name + [NUL] + (f.description + [NUL] + (AUTHOR + [NUL] + (ONE_I32 + body))))
  {
    var h, n, d, a := Header(timestamp), f.name + [NUL], f.description + [NUL], AUTHOR + [NUL];
    Assoc3(h + n + d + a, ONE_I32, body);
    Assoc3(h + n + d, a, ONE_I32 + body);
    Assoc3(h + n, d, a + (ONE_I32 + body));
    Assoc3(h, n, d + (a + (ONE_I32 + body)));
  }

  lemma BodyLayout(es: seq<GmaEntry>)
    requires Filled(es)
    ensures Body(es) == RecordsFrom(es, 0) + (ZERO_U32 + (ContentsFrom(es, 0) + ZERO_U32))
  {
    RecordsSplit(es, 0);
    ContentsSplit(es, 0);
    var tb, cb := TableBytes(es, |es|), ContentBytes(es, |es|);
    assert tb == RecordsFrom(es, 0) && cb == ContentsFrom(es, 0);
    Assoc3(tb + ZERO_U32, cb, ZERO_U32);
    Assoc3(tb, ZERO_U32, cb + ZERO_U32);
  }

  /** The header passes the reader's checks. */
  lemma HeaderChecks(data: seq<byte>, timestamp: u64, r: seq<byte>)
    requires data == Header(timestamp) + r
    ensures |data| >= STRINGS_START && data[..4] == GMA_HEADER && data[4] == SUPPORTED_GMA_VERSION
  {
    var h := Header(timestamp);
    assert |h| == 22;
    assert data[..4] == h[..4] && data[4] == h[4];
  }

  /** The one empty required-content string in the header is skipped. */
  lemma HeaderSkips(data: seq<byte>, timestamp: u64, r: seq<byte>)
    requires data == Header(timestamp) + r
    ensures SkipRequired(data, STRINGS_START) == Skipped(STRINGS_START + 1)
    ensures Suffix(data, STRINGS_START + 1) == r
  {
    var fixed := GMA_HEADER + [SUPPORTED_GMA_VERSION] + ZERO_U64 + LE(timestamp, U64_LEN);
    assert |fixed| == STRINGS_START;
    Assoc3(fixed, [NUL], r);
    SuffixOfAppend(fixed, [NUL] + r);
    assert [NUL] + r == [] + [NUL] + r;
    NtStringSuffix(data, STRINGS_START, [], r);
  }

  /** The entry table read from `pos`, then the contents after it, give `read`. */
  predicate TableThenContents(data: seq<byte>, pos: nat, readEntry: bool, read: seq<GmaEntry>)
  {
    var table := EntryTable(data, pos, []);
    table.Table? &&
    var r := Contents(data, table.next, table.entries, 0, readEntry);
    r.Table? && r.entries == read
  }

  /** The table and the contents read back as the entries that were written. */
  lemma BodyReads(data: seq<byte>, pos: nat, es: seq<GmaEntry>, readEntry: bool)
    requires |es| < 0xFFFF_FFFF && Filled(es) && forall j :: 0 <= j < |es| ==> TextWritable(es[j].name)
    requires Suffix(data, pos) == Body(es)
    ensures TableThenContents(data, pos, readEntry, ReadBackAll(es, readEntry))
  {
    BodyLayout(es);
    EntryTableReads(data, pos, es, 0, [], ContentsFrom(es, 0) + ZERO_U32);
    var table := EntryTable(data, pos, []);
    assert es[..0] == [] && es[0..] == es;
    assert table.entries == Partly(es, 0, readEntry);
    ContentsReads(data, table.next, es, 0, readEntry, ZERO_U32);
  }

  lemma AddonUnfolds(data: seq<byte>, p0: nat, p1: nat, p2: nat, p3: nat, f: GmaFile, read: seq<GmaEntry>, readEntry: bool)
    requires NtStringAt(data, p0) == Text(f.name, p1) && NtStringAt(data, p1) == Text(f.description, p2)
    requires NtStringAt(data, p2) == Text(AUTHOR, p3) && LEAt(data, p3, 4) == Number(1, p3 + 4)
    requires TableThenContents(data, p3 + 4, readEntry, read)
    ensures ParseAddon(data, p0, readEntry) == ReadOk(GmaFile(f.name, f.description, AUTHOR, read))
  {
  }

  /** The addon version, then the body. */
  lemma VersionReads(data: seq<byte>, pos: nat, es: seq<GmaEntry>, readEntry: bool)
    requires |es| < 0xFFFF_FFFF && Filled(es) && forall j :: 0 <= j < |es| ==> TextWritable(es[j].name)
    requires Suffix(data, pos) == ONE_I32 + Body(es)
    ensures LEAt(data, pos, 4) == Number(1, pos + 4)
    ensures TableThenContents(data, pos + 4, readEntry, ReadBackAll(es, readEntry))
  {
    OneI32Suffix(data, pos, Body(es));
    BodyReads(data, pos + 4, es, readEntry);
  }

  /** The author, then the rest. */
  lemma AuthorReads(data: seq<byte>, p2: nat, p3: nat, es: seq<GmaEntry>, readEntry: bool)
    requires |es| < 0xFFFF_FFFF && Filled(es) && forall j :: 0 <= j < |es| ==> TextWritable(es[j].name)
    requires p3 == p2 + |AUTHOR| + 1
    requires Suffix(data, p2) == AUTHOR + [NUL] + (ONE_I32 + Body(es))
    ensures NtStringAt(data, p2) == Text(AUTHOR, p3)
    ensures LEAt(data, p3, 4) == Number(1, p3 + 4)
    ensures TableThenContents(data, p3 + 4, readEntry, ReadBackAll(es, readEntry))
  {
    AuthorText();
    TextThenVersion(data, p2, p3, AUTHOR, es, readEntry);
  }

  /** Some text, then the addon version and the body. */
  lemma TextThenVersion(data: seq<byte>, p2: nat, p3: nat, s: seq<byte>, es: seq<GmaEntry>, readEntry: bool)
    requires |es| < 0xFFFF_FFFF && Filled(es) && forall j :: 0 <= j < |es| ==> TextWritable(es[j].name)
    requires TextWritable(s) && p3 == p2 + |s| + 1
    requires Suffix(data, p2) == s + [NUL] + (ONE_I32 + Body(es))
    ensures NtStringAt(data, p2) == Text(s, p3)
    ensures LEAt(data, p3, 4) == Number(1, p3 + 4)
    ensures TableThenContents(data, p3 + 4, readEntry, ReadBackAll(es, readEntry))
  {
    NtStringSuffix(data, p2, s, ONE_I32 + Body(es));
    VersionReads(data, p3, es, readEntry);
  }

  /** Name, description, author, addon version, table and contents, read one after the other. */
  lemma AddonReads(data: seq<byte>, p0: nat, f: GmaFile, readEntry: bool)
    requires Writable(f) && Filled(f.entries)
    requires Suffix(data, p0) ==
      f.name + [NUL] + (f.description + [NUL] + (AUTHOR + [NUL] + (ONE_I32 + Body(f.entries))))
    ensures ParseAddon(data, p0, readEntry) ==
      ReadOk(GmaFile(f.name, f.description, AUTHOR, ReadBackAll(f.entries, readEntry)))
  {
    var p1 := p0 + |f.name| + 1;
    var p2 := p1 + |f.description| + 1;
    var p3 := p2 + |AUTHOR| + 1;
    NameReads(data, p0, p1, p2, p3, f, readEntry);
    AddonUnfolds(data, p0, p1, p2, p3, f, ReadBackAll(f.entries, readEntry), readEntry);
  }

  lemma NameReads(data: seq<byte>, p0: nat, p1: nat, p2: nat, p3: nat, f: GmaFile, readEntry: bool)
    requires Writable(f) && Filled(f.entries)
    requires p1 == p0 + |f.name| + 1 && p2 == p1 + |f.description| + 1 && p3 == p2 + |AUTHOR| + 1
    requires Suffix(data, p0) ==
      f.name + [NUL] + (f.description + [NUL] + (AUTHOR + [NUL] + (ONE_I32 + Body(f.entries))))
    ensures NtStringAt(data, p0) == Text(f.name, p1) && NtStringAt(data, p1) == Text(f.description, p2)
    ensures NtStringAt(data, p2) == Text(AUTHOR, p3) && LEAt(data, p3, 4) == Number(1, p3 + 4)
    ensures TableThenContents(data, p3 + 4, readEntry, ReadBackAll(f.entries, readEntry))
  {
    NtStringSuffix(data, p0, f.name, f.description + [NUL] + (AUTHOR + [NUL] + (ONE_I32 + Body(f.entries))));
    DescriptionReads(data, p1, p2, p3, f, readEntry);
  }

  lemma DescriptionReads(data: seq<byte>, p1: nat, p2: nat, p3: nat, f: GmaFile, readEntry: bool)
    requires Writable(f) && Filled(f.entries)
    requires p2 == p1 + |f.description| + 1 && p3 == p2 + |AUTHOR| + 1
    requires Suffix(data, p1) == f.description + [NUL] + (AUTHOR + [NUL] + (ONE_I32 + Body(f.entries)))
    ensures NtStringAt(data, p1) == Text(f.description, p2)
    ensures NtStringAt(data, p2) == Text(AUTHOR, p3) && LEAt(data, p3, 4) == Number(1, p3 + 4)
    ensures TableThenContents(data, p3 + 4, readEntry, ReadBackAll(f.entries, readEntry))
  {
    NtStringSuffix(data, p1, f.description, AUTHOR + [NUL] + (ONE_I32 + Body(f.entries)));
    AuthorReads(data, p2, p3, f.entries, readEntry);
  }

  /**
   * Read after write: a writable file comes back with its name, its
   * description, the fixed author and every entry, in order, as `ReadBack`
   * says — with its contents when they are read.
   */
  lemma WriteThenRead(f: GmaFile, timestamp: u64, readEntry: bool)
    requires Writable(f)
    ensures WriteOf(f, timestamp).result == Written
    ensures ParseGma(WriteOf(f, timestamp).bytes, readEntry) ==
      ReadOk(GmaFile(f.name, f.description, AUTHOR, ReadBackAll(f.entries, readEntry)))
  {
    WrittenInFull(f, timestamp);
    var data := WriteOf(f, timestamp).bytes;
    var rest := f.name + [NUL] + (f.description + [NUL] + (AUTHOR + [NUL] + (ONE_I32 + Body(f.entries))));
    PreludeLayout(f, timestamp, Body(f.entries));
    HeaderChecks(data, timestamp, rest);
    HeaderSkips(data, timestamp, rest);
    AddonReads(data, STRINGS_START + 1, f, readEntry);
  }
}
