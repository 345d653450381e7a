/**
 * The app's own GMA reader: a `GMAFile` that parses its metadata and its
 * entry list from the file on first use and keeps them, and reads single
 * entries on demand. Short reads become `FormatError`; a file that cannot be
 * opened gives `IOError`.
 */
module GmaRead {
  import opened Wrappers
  import opened Bytes
  import opened GmaStream
  import GmaLibRead

  type Text = seq<byte>

  /** `u64` arithmetic wraps at 2^64. */
  const U64_MOD: nat := 0x1_0000_0000_0000_0000

  datatype ReadError = IOError | InvalidHeader | UnsupportedVersion | FormatError | EntryNotFound

  /** The fields of `addon.json` the reader keeps. */
  datatype AddonJson = AddonJson(ignore: Option<seq<Text>>, tags: seq<Text>, addonType: Text)

  datatype Metadata = Metadata(name: Text, tags: Option<seq<Text>>, ignore: Option<seq<Text>>, addonType: Option<Text>)

  /** An entry of the list: its path, size and crc, and its offset among the contents. */
  datatype Entry = Entry(path: Text, size: u64, crc: u32, index: u64)

  // ---------------------------------------------------------------------------
  // The format, read from a position in the file

  /** A little-endian number and the position after it; a short read is a `FormatError`. */
  function NumberAt(data: seq<byte>, pos: nat, n: nat): (r: Result<(nat, nat), ReadError>)
    ensures r.Ok? ==> r.value.0 < Pow256(n) && r.value.1 == pos + n
    ensures r.Ok? && n > 0 ==> r.value.1 <= |data|
    ensures r.Err? ==> r.error == FormatError && pos + n > |data|
  {
    match LEAt(data, pos, n)
    case ShortRead => Err(FormatError)
    case Number(v, p) => Ok((v, p))
  }

  /**
   * A NUL-terminated string and the position after it, read as the standalone
   * reader reads one; where that reader panics this one gives a `FormatError`.
   */
  function TextAt(data: seq<byte>, pos: nat): (r: Result<(Text, nat), ReadError>)
    ensures r.Ok? ==> pos < r.value.1 <= |data| && NulFree(r.value.0)
    ensures r.Err? ==> r.error == FormatError
  {
    var s := GmaLibRead.NtStringAt(data, pos);
    if s.TextPanic? then Err(FormatError)
    else
      GmaLibRead.NtStringShape(data, pos);
      Ok((s.text, s.next))
  }

  /** What `addon.json` parses to: the texts that parse, with their fields; any other text fails to parse. */
  function ParseWith(parse: imap<Text, AddonJson>, json: Text): Option<AddonJson>
  {
    if json in parse then Some(parse[json]) else None
  }

  /** The metadata for a name and what `addon.json` parsed to; a failed parse leaves tags, ignore and type unset. */
  function MetadataOf(name: Text, json: Option<AddonJson>): Metadata
  {
    match json
    case None => Metadata(name, None, None, None)
    case Some(j) => Metadata(name, Some(j.tags), j.ignore, Some(j.addonType))
  }

  /**
   * `metadata` from `start`: steam id, timestamp, one skipped string, the name,
   * the `addon.json` text, the skipped author and the addon version; the
   * metadata and the position of the entry list.
   */
  function MetadataAt(data: seq<byte>, start: nat, parse: imap<Text, AddonJson>): Result<(Metadata, nat), ReadError>
  {
    match NumberAt(data, start, 8)
    case Err(e) => Err(e)
    case Ok((_, p1)) =>
      match NumberAt(data, p1, 8)
      case Err(e) => Err(e)
      case Ok((_, p2)) =>
        match TextAt(data, p2)
        case Err(e) => Err(e)
        case Ok((_, p3)) =>
          match TextAt(data, p3)
          case Err(e) => Err(e)
          case Ok((name, p4)) =>
            match TextAt(data, p4)
            case Err(e) => Err(e)
            case Ok((json, p5)) =>
              match TextAt(data, p5)
              case Err(e) => Err(e)
              case Ok((_, p6)) =>
                match NumberAt(data, p6, 4)
                case Err(e) => Err(e)
                case Ok((_, p7)) => Ok((MetadataOf(name, ParseWith(parse, json)), p7))
  }

  /** One record of the entry list after its non-zero index: path, size (an `i64` taken as `u64`) and crc. */
  function RecordAt(data: seq<byte>, pos: nat): (r: Result<(Text, u64, u32, nat), ReadError>)
    ensures r.Ok? ==> pos < r.value.3 <= |data|
  {
    match TextAt(data, pos)
    case Err(e) => Err(e)
    case Ok((path, p1)) =>
      match NumberAt(data, p1, 8)
      case Err(e) => Err(e)
      case Ok((size, p2)) =>
        match NumberAt(data, p2, 4)
        case Err(e) => Err(e)
        case Ok((crc, p3)) =>
          Pow256Widths();
          Ok((path, size, crc, p3))
  }

  /** A number reduced to `u64` as a release build keeps it: `n` modulo 2^64. */
  function Wrap(n: nat): (r: nat)
    ensures r < U64_MOD
    decreases n
  {
    if n < U64_MOD then n else Wrap(n - U64_MOD)
  }

  /** `u64` addition as a release build does it, wrapping at 2^64. */
  function WrapAdd(a: nat, b: nat): (r: nat)
    ensures r < U64_MOD
  {
    Wrap(a + b)
  }

  /**
   * The entry list from `pos` on, appended to `acc`, up to and including the
   * zero index; each entry sits at offset `cursor`, which then grows by the
   * entry's size.
   */
  function EntryListFrom(data: seq<byte>, pos: nat, cursor: nat, acc: seq<Entry>): Result<(seq<Entry>, nat), ReadError>
    requires cursor < U64_MOD
    decreases |data| - pos
  {
    match NumberAt(data, pos, 4)
    case Err(e) => Err(e)
    case Ok((index, p)) =>
      if index == 0 then Ok((acc, p))
      else
        match RecordAt(data, p)
        case Err(e) => Err(e)
        case Ok((path, size, crc, next)) =>
          EntryListFrom(data, next, WrapAdd(cursor, size), acc + [Entry(path, size, crc, cursor)])
  }

  lemma EntryListStops(data: seq<byte>, pos: nat, cursor: nat, acc: seq<Entry>)
    requires cursor < U64_MOD && NumberAt(data, pos, 4).Err?
    ensures EntryListFrom(data, pos, cursor, acc) == Err(NumberAt(data, pos, 4).error)
  {
  }

  lemma EntryListEnds(data: seq<byte>, pos: nat, cursor: nat, acc: seq<Entry>)
    requires cursor < U64_MOD && NumberAt(data, pos, 4).Ok? && NumberAt(data, pos, 4).value.0 == 0
    ensures EntryListFrom(data, pos, cursor, acc) == Ok((acc, NumberAt(data, pos, 4).value.1))
  {
  }

  lemma EntryListFails(data: seq<byte>, pos: nat, cursor: nat, acc: seq<Entry>, index: nat, p: nat)
    requires cursor < U64_MOD && NumberAt(data, pos, 4) == Ok((index, p)) && index != 0 && RecordAt(data, p).Err?
    ensures EntryListFrom(data, pos, cursor, acc) == Err(RecordAt(data, p).error)
  {
  }

  lemma EntryListStep(data: seq<byte>, pos: nat, cursor: nat, acc: seq<Entry>, index: nat, p: nat,
                      path: Text, size: u64, crc: u32, next: nat)
    requires cursor < U64_MOD && NumberAt(data, pos, 4) == Ok((index, p)) && index != 0
    requires RecordAt(data, p) == Ok((path, size, crc, next))
    ensures EntryListFrom(data, pos, cursor, acc) ==
      EntryListFrom(data, next, WrapAdd(cursor, size), acc + [Entry(path, size, crc, cursor)])
  {
  }

  /** `entries_map` as the loop fills it: each path to the position of its entry, a later entry winning. */
  function PathIndex(es: seq<Entry>): map<Text, nat>
  {
    if es == [] then map[] else PathIndex(es[..|es| - 1])[es[|es| - 1].path := |es| - 1]
  }

  /**
   * The state of the `entries` loop at `pos`: what is still to be read, from
   * offset `cursor` on and after `entries`, gives the whole list from `start`.
   */
  ghost predicate Listed(data: seq<byte>, start: nat, pos: nat, cursor: nat, entries: seq<Entry>, entriesMap: map<Text, nat>)
  {
    cursor < U64_MOD && entriesMap == PathIndex(entries) &&
    EntryListFrom(data, start, 0, []) == EntryListFrom(data, pos, cursor, entries)
  }

  /** A record read after a non-zero index keeps the loop state, with the entry appended at the old offset. */
  lemma ListedStep(data: seq<byte>, start: nat, pos: nat, cursor: nat, entries: seq<Entry>, entriesMap: map<Text, nat>,
                   index: nat, p: nat, path: Text, size: u64, crc: u32, next: nat)
    requires Listed(data, start, pos, cursor, entries, entriesMap)
    requires NumberAt(data, pos, 4) == Ok((index, p)) && index != 0
    requires RecordAt(data, p) == Ok((path, size, crc, next))
    ensures Listed(data, start, next, WrapAdd(cursor, size), entries + [Entry(path, size, crc, cursor)], entriesMap[path := |entries|])
  {
    EntryListStep(data, pos, cursor, entries, index, p, path, size, crc, next);
    var es := entries + [Entry(path, size, crc, cursor)];
    assert es[..|es| - 1] == entries;
  }

  /** The metadata section of the file, if it can be opened, and the position after it. */
  function MetadataLoad(file: Option<seq<byte>>, start: nat, parse: imap<Text, AddonJson>): Result<(Metadata, nat), ReadError>
  {
    if file.None? then Err(IOError) else MetadataAt(file.value, start, parse)
  }

  /** The metadata out of a read of the metadata section: what a first call of `metadata` gives. */
  function MetadataPart(sections: Result<(Metadata, nat), ReadError>): Result<Metadata, ReadError>
  {
    match sections
    case Err(e) => Err(e)
    case Ok((m, _)) => Ok(m)
  }

  /** The entries and their path index out of a read of the entry list. */
  function ListingPart(listing: Result<(seq<Entry>, nat), ReadError>): Outcome<Result<(seq<Entry>, map<Text, nat>), ReadError>>
  {
    match listing
    case Err(e) => Done(Err(e))
    case Ok((es, _)) => Done(Ok((es, PathIndex(es))))
  }

  /**
   * What a first call of `entries` gives: a panic when the metadata it needs
   * first cannot be read, otherwise the entry list.
   */
  function EntriesPart(sections: Result<(Metadata, nat), ReadError>, listing: Result<(seq<Entry>, nat), ReadError>)
    : Outcome<Result<(seq<Entry>, map<Text, nat>), ReadError>>
  {
    if sections.Err? then Panicked else ListingPart(listing)
  }

  /**
   * `sections` is what the metadata section of `file` reads as, and `listing`
   * what the entry list after it reads as.
   */
  ghost predicate FileReads(file: Option<seq<byte>>, start: nat, parse: imap<Text, AddonJson>,
                            sections: Result<(Metadata, nat), ReadError>, listing: Result<(seq<Entry>, nat), ReadError>)
  {
    sections == MetadataLoad(file, start, parse) &&
    (sections.Ok? ==> file.Some? && listing == EntryListFrom(file.value, sections.value.1, 0, []))
  }

  /** `read_entry` as written: the entry for `path`, read from offset `index` of the file. */
  function ReadEntryAt(data: seq<byte>, es: seq<Entry>, index: map<Text, nat>, path: Text): Outcome<Option<seq<byte>>>
  {
    if path !in index || index[path] >= |es| then Done(None)
    else
      var e := es[index[path]];
      var rest := Rest(data, e.index);
      if e.size <= |rest| then Done(Some(rest[..e.size])) else Panicked
  }

  /** `read_entry` reading from `entriesStart + index`, where the entry's contents are. */
  function ReadEntryFrom(data: seq<byte>, entriesStart: nat, es: seq<Entry>, index: map<Text, nat>, path: Text)
    : Outcome<Option<seq<byte>>>
  {
    if path !in index || index[path] >= |es| then Done(None)
    else
      var e := es[index[path]];
      var rest := Rest(data, entriesStart + e.index);
      if e.size <= |rest| then Done(Some(rest[..e.size])) else Panicked
  }

  /**
   * `entries_map` finds every entry by its path: each path it maps leads to
   * the last entry with that path, and every entry's path is mapped.
   */
  lemma {:induction false} PathIndexFinds(es: seq<Entry>)
    ensures forall path :: path in PathIndex(es) ==>
      PathIndex(es)[path] < |es| && es[PathIndex(es)[path]].path == path &&
      forall j :: PathIndex(es)[path] < j < |es| ==> es[j].path != path
    ensures forall j :: 0 <= j < |es| ==> es[j].path in PathIndex(es)
  {
    if es != [] {
      var pre := es[..|es| - 1];
      PathIndexFinds(pre);
      assert forall j :: 0 <= j < |pre| ==> pre[j] == es[j];
    }
  }

  /** The sizes of the first `j` entries added up. */
  function SizesBefore(es: seq<Entry>, j: nat): nat
    requires j <= |es|
  {
    if j == 0 then 0 else SizesBefore(es, j - 1) + es[j - 1].size
  }

  /** Each entry's offset is the sizes of the entries before it added up, wrapping at 2^64. */
  ghost predicate AtOffsets(es: seq<Entry>)
  {
    forall j {:trigger es[j]} :: 0 <= j < |es| ==> es[j].index == Wrap(SizesBefore(es, j))
  }

  lemma {:induction false} SizesBeforeSnoc(es: seq<Entry>, e: Entry, j: nat)
    requires j <= |es|
    ensures SizesBefore(es + [e], j) == SizesBefore(es, j)
    decreases j
  {
    if j > 0 {
      SizesBeforeSnoc(es, e, j - 1);
      assert (es + [e])[j - 1] == es[j - 1];
    }
  }

  /** Adding up modulo 2^64 step by step is adding up, then reducing. */
  lemma {:induction false} WrapAddMod(a: nat, b: nat)
    ensures WrapAdd(Wrap(a), b) == Wrap(a + b)
    decreases a
  {
    if a >= U64_MOD {
      WrapAddMod(a - U64_MOD, b);
    }
  }

  /** Appending an entry at the running offset keeps the offsets. */
  lemma OffsetsSnoc(acc: seq<Entry>, e: Entry)
    requires AtOffsets(acc) && e.index == Wrap(SizesBefore(acc, |acc|))
    ensures AtOffsets(acc + [e])
  {
    var acc' := acc + [e];
    forall j | 0 <= j < |acc'|
      ensures acc'[j].index == Wrap(SizesBefore(acc', j))
    {
      SizesBeforeSnoc(acc, e, j);
      if j < |acc| {
        assert acc'[j] == acc[j];
      } else {
        assert acc'[j] == e;
      }
    }
  }

  /** After an entry at the running offset, the offset has moved on by its size. */
  lemma CursorSnoc(acc: seq<Entry>, e: Entry)
    requires e.index == Wrap(SizesBefore(acc, |acc|))
    ensures WrapAdd(e.index, e.size) == Wrap(SizesBefore(acc + [e], |acc| + 1))
  {
    var before := SizesBefore(acc, |acc|);
    assert SizesBefore(acc + [e], |acc| + 1) == before + e.size by {
      SizesBeforeSnoc(acc, e, |acc|);
      assert (acc + [e])[|acc|] == e;
    }
    WrapAddMod(before, e.size);
  }

  /** The entries read so far sit at their offsets, and `cursor` is where the next one goes. */
  ghost predicate OffsetsUpTo(acc: seq<Entry>, cursor: nat)
  {
    AtOffsets(acc) && cursor == Wrap(SizesBefore(acc, |acc|))
  }

  lemma OffsetsUpToSnoc(acc: seq<Entry>, cursor: nat, e: Entry)
    requires OffsetsUpTo(acc, cursor) && e.index == cursor
    ensures OffsetsUpTo(acc + [e], WrapAdd(cursor, e.size))
  {
    OffsetsSnoc(acc, e);
    CursorSnoc(acc, e);
  }

  /**
   * The entry list records each entry at the offset the sizes before it add
   * up to (the running `entry_cursor`).
   */
  lemma {:induction false} EntryListOffsets(data: seq<byte>, pos: nat, cursor: nat, acc: seq<Entry>)
    requires cursor < U64_MOD && OffsetsUpTo(acc, cursor)
    ensures EntryListFrom(data, pos, cursor, acc).Ok? ==> AtOffsets(EntryListFrom(data, pos, cursor, acc).value.0)
    decreases |data| - pos
  {
    match NumberAt(data, pos, 4)
    case Err(_) =>
      EntryListStops(data, pos, cursor, acc);
    case Ok((index, p)) =>
      if index == 0 {
        EntryListEnds(data, pos, cursor, acc);
      } else {
        match RecordAt(data, p)
        case Err(_) =>
          EntryListFails(data, pos, cursor, acc, index, p);
        case Ok((path, size, crc, next)) =>
          var e := Entry(path, size, crc, cursor);
          var cursor' := WrapAdd(cursor, size);
          EntryListStep(data, pos, cursor, acc, index, p, path, size, crc, next);
          assert OffsetsUpTo(acc + [e], cursor') by { OffsetsUpToSnoc(acc, cursor, e); }
          EntryListOffsets(data, next, cursor', acc + [e]);
      }
  }

  /** Read from the start of the list, every entry sits where the sizes before it add up to, modulo 2^64. */
  lemma EntryListAtOffsets(data: seq<byte>, listStart: nat)
    ensures EntryListFrom(data, listStart, 0, []).Ok? ==> AtOffsets(EntryListFrom(data, listStart, 0, []).value.0)
  {
    EntryListOffsets(data, listStart, 0, []);
  }

  /**
   * `read_entry` finds nothing exactly when no entry has the path, whether it
   * reads from the right offset or not.
   */
  lemma ReadEntryMissing(data: seq<byte>, entriesStart: nat, es: seq<Entry>, path: Text)
    ensures ReadEntryAt(data, es, PathIndex(es), path) == Done(None) <==> forall i :: 0 <= i < |es| ==> es[i].path != path
    ensures ReadEntryFrom(data, entriesStart, es, PathIndex(es), path) == Done(None) <==>
      forall i :: 0 <= i < |es| ==> es[i].path != path
  {
    PathIndexFinds(es);
  }

  /** The entries' contents stored end to end, as they follow the entry list in the file. */
  function Concat(blobs: seq<seq<byte>>): seq<byte>
  {
    if blobs == [] then [] else Concat(blobs[..|blobs| - 1]) + blobs[|blobs| - 1]
  }

  lemma {:induction false} ConcatSplit(blobs: seq<seq<byte>>, k: nat)
    requires k <= |blobs|
    ensures Concat(blobs) == Concat(blobs[..k]) + Concat(blobs[k..])
    decreases |blobs|
  {
    if k < |blobs| {
      var init := blobs[..|blobs| - 1];
      var tail := blobs[k..];
      ConcatSplit(init, k);
      assert init[..k] == blobs[..k];
      assert tail[..|tail| - 1] == init[k..];
      assert tail[|tail| - 1] == blobs[|blobs| - 1];
    } else {
      assert blobs[..k] == blobs;
      assert blobs[k..] == [];
    }
  }

  /** A run of contents starts with the first of them. */
  lemma ConcatHead(blobs: seq<seq<byte>>)
    requires blobs != []
    ensures |blobs[0]| <= |Concat(blobs)| && Concat(blobs)[..|blobs[0]|] == blobs[0]
  {
    ConcatSplit(blobs, 1);
    assert blobs[..1][..0] == [];
  }

  /** With each entry's size the length of its contents, the sizes before entry `j` add up to where it starts. */
  lemma {:induction false} SizesBeforeConcat(es: seq<Entry>, blobs: seq<seq<byte>>, j: nat)
    requires |es| == |blobs| && j <= |es|
    requires forall i :: 0 <= i < |es| ==> es[i].size == |blobs[i]|
    ensures SizesBefore(es, j) == |Concat(blobs[..j])|
    decreases j
  {
    if j > 0 {
      SizesBeforeConcat(es, blobs, j - 1);
      assert blobs[..j][..j - 1] == blobs[..j - 1];
    }
  }

  /**
   * Reading from `entriesStart`, each entry found by its path yields exactly
   * its own contents, when the file holds the contents end to end there and
   * the offsets were recorded as the entry list does.
   */
  lemma {:induction false} ReadEntryFromContents(data: seq<byte>, entriesStart: nat, es: seq<Entry>, blobs: seq<seq<byte>>, path: Text)
    requires AtOffsets(es) && |es| == |blobs|
    requires forall i :: 0 <= i < |es| ==> es[i].size == |blobs[i]|
    requires |Concat(blobs)| < U64_MOD
    requires entriesStart + |Concat(blobs)| <= |data| && data[entriesStart..entriesStart + |Concat(blobs)|] == Concat(blobs)
    requires path in PathIndex(es)
    ensures var k := PathIndex(es)[path];
      k < |blobs| && ReadEntryFrom(data, entriesStart, es, PathIndex(es), path) == Done(Some(blobs[k]))
  {
    var k := PathIndex(es)[path];
    assert k < |es| by { PathIndexFinds(es); }
    StoredEntry(data, entriesStart, es, blobs, k);
    ReadEntryFromFound(data, entriesStart, es, PathIndex(es), path);
  }

  /** Entry `k` of contents stored end to end at `entriesStart` is the `size` bytes at `entriesStart + index`. */
  lemma {:induction false} StoredEntry(data: seq<byte>, entriesStart: nat, es: seq<Entry>, blobs: seq<seq<byte>>, k: nat)
    requires AtOffsets(es) && |es| == |blobs| && k < |es|
    requires forall i :: 0 <= i < |es| ==> es[i].size == |blobs[i]|
    requires |Concat(blobs)| < U64_MOD
    requires entriesStart + |Concat(blobs)| <= |data| && data[entriesStart..entriesStart + |Concat(blobs)|] == Concat(blobs)
    ensures var rest := Rest(data, entriesStart + es[k].index);
      es[k].size <= |rest| && rest[..es[k].size] == blobs[k]
  {
    var off := SizesBefore(es, k);
    var all := Concat(blobs);
    assert off + |blobs[k]| <= |all| && all[off..off + |blobs[k]|] == blobs[k] by {
      BlobAt(es, blobs, k);
    }
    assert es[k].index == off by {
      assert es[k].index == Wrap(off);
    }
    RestWithin(data, entriesStart, all, off, |blobs[k]|);
  }

  /** An entry the index finds is read as the `size` bytes at its offset, or the read panics when they are not there. */
  lemma ReadEntryFromFound(data: seq<byte>, entriesStart: nat, es: seq<Entry>, index: map<Text, nat>, path: Text)
    requires path in index && index[path] < |es|
    ensures var e := es[index[path]];
      ReadEntryFrom(data, entriesStart, es, index, path) ==
        if e.size <= |Rest(data, entriesStart + e.index)| then Done(Some(Rest(data, entriesStart + e.index)[..e.size]))
        else Panicked
  {
  }

  /** Entry `k`'s contents sit in the run where the sizes before it add up to. */
  lemma {:induction false} BlobAt(es: seq<Entry>, blobs: seq<seq<byte>>, k: nat)
    requires |es| == |blobs| && k < |es|
    requires forall i :: 0 <= i < |es| ==> es[i].size == |blobs[i]|
    ensures SizesBefore(es, k) + |blobs[k]| <= |Concat(blobs)|
    ensures Concat(blobs)[SizesBefore(es, k)..SizesBefore(es, k) + |blobs[k]|] == blobs[k]
  {
    SizesBeforeConcat(es, blobs, k);
    ConcatSplit(blobs, k);
    ConcatHead(blobs[k..]);
    assert blobs[k..][0] == blobs[k];
  }

  /** Reading `m` bytes at `off` within a run stored at `start` reads that part of the run. */
  lemma RestWithin(data: seq<byte>, start: nat, run: seq<byte>, off: nat, m: nat)
    requires start + |run| <= |data| && data[start..start + |run|] == run && off + m <= |run|
    ensures m <= |Rest(data, start + off)| && Rest(data, start + off)[..m] == run[off..off + m]
  {
    var rest := Rest(data, start + off);
    assert rest == data[start + off..];
    forall i | 0 <= i < m
      ensures rest[i] == run[off + i]
    {
      assert run[off + i] == data[start..start + |run|][off + i];
    }
  }

  /**
   * As written, `read_entry` seeks to the entry's offset from the start of the
   * file, which is where the entry's contents start only when the entry list
   * ends at byte 0: the same read with `entriesStart` taken as 0.
   */
  lemma ReadEntryAtIgnoresStart(data: seq<byte>, es: seq<Entry>, index: map<Text, nat>, path: Text)
    ensures ReadEntryAt(data, es, index, path) == ReadEntryFrom(data, 0, es, index, path)
  {
  }

  /**
   * A file whose single entry `p` holds the bytes 1, 2, 3, 4 right after a
   * four-byte header: as written the read returns the header, "GMAD".
   */
  lemma ReadEntryAtReadsHeader(p: Text)
    ensures var data: seq<byte> := GMA_HEADER + [1, 2, 3, 4];
            var es := [Entry(p, 4, 0, 0)];
            ReadEntryAt(data, es, PathIndex(es), p) == Done(Some(GMA_HEADER)) &&
            ReadEntryFrom(data, 4, es, PathIndex(es), p) == Done(Some([1, 2, 3, 4]))
  {
    var data: seq<byte> := GMA_HEADER + [1, 2, 3, 4];
    var es := [Entry(p, 4, 0, 0)];
    assert PathIndex(es) == map[p := 0] by {
      assert es[..0] == [];
    }
    assert Rest(data, 0)[..4] == GMA_HEADER;
    assert Rest(data, 4)[..4] == [1, 2, 3, 4];
  }

  // ---------------------------------------------------------------------------
  // The reader, walking a file handle

  /** `read_u32::<LittleEndian>()` and its siblings under `safe_read!`. */
  method ReadNumber(handle: ByteStream, n: nat) returns (r: Result<nat, ReadError>)
    modifies handle`pos
    ensures NumberAt(handle.data, old(handle.pos), n) == if r.Ok? then Ok((r.value, handle.pos)) else Err(r.error)
  {
    var v := handle.ReadLE(n);
    r := if v.Some? then Ok(v.value) else Err(FormatError);
  }

  /** The handle's `read_nt_string`. */
  method ReadText(handle: ByteStream) returns (r: Result<Text, ReadError>)
    modifies handle`pos
    ensures TextAt(handle.data, old(handle.pos)) == if r.Ok? then Ok((r.value, handle.pos)) else Err(r.error)
  {
    var s := GmaLibRead.ReadNtString(handle);
    r := if s.Done? then Ok(s.value) else Err(FormatError);
  }

  /** The metadata section read through a handle placed at its start; the first failed read ends it. */
  method ReadMetadata(handle: ByteStream, parse: imap<Text, AddonJson>) returns (r: Result<Metadata, ReadError>)
    modifies handle`pos
    ensures MetadataAt(handle.data, old(handle.pos), parse) == if r.Ok? then Ok((r.value, handle.pos)) else Err(r.error)
  {
    var steamId := ReadNumber(handle, 8);
    if steamId.Err? { return Err(steamId.error); }
    var timestamp := ReadNumber(handle, 8);
    if timestamp.Err? { return Err(timestamp.error); }
    var skipped := ReadText(handle);
    if skipped.Err? { return Err(skipped.error); }
    var name := ReadText(handle);
    if name.Err? { return Err(name.error); }
    var json := ReadText(handle);
    if json.Err? { return Err(json.error); }
    var author := ReadText(handle);
    if author.Err? { return Err(author.error); }
    var version := ReadNumber(handle, 4);
    if version.Err? { return Err(version.error); }
    r := Ok(MetadataOf(name.value, ParseWith(parse, json.value)));
  }

  /** One record: path, size and crc. */
  method ReadRecord(handle: ByteStream) returns (r: Result<(Text, u64, u32), ReadError>)
    modifies handle`pos
    ensures RecordAt(handle.data, old(handle.pos)) ==
      if r.Ok? then Ok((r.value.0, r.value.1, r.value.2, handle.pos)) else Err(r.error)
  {
    var path := ReadText(handle);
    if path.Err? {
      return Err(path.error);
    }
    var size := ReadNumber(handle, 8);
    if size.Err? {
      return Err(size.error);
    }
    var crc := ReadNumber(handle, 4);
    if crc.Err? {
      return Err(crc.error);
    }
    Pow256Widths();
    r := Ok((path.value, size.value, crc.value));
  }

  /** The `while` loop of `entries`: records until the zero index, with the running offset and the path index. */
  method ReadEntryList(handle: ByteStream) returns (r: Result<(seq<Entry>, map<Text, nat>), ReadError>)
    modifies handle`pos
    ensures EntryListFrom(handle.data, old(handle.pos), 0, []) == if r.Ok? then Ok((r.value.0, handle.pos)) else Err(r.error)
    ensures r.Ok? ==> r.value.1 == PathIndex(r.value.0)
  {
    ghost var start := handle.pos;
    var entries: seq<Entry> := [];
    var entriesMap: map<Text, nat> := map[];
    var entryCursor: nat := 0;
    while true
      invariant Listed(handle.data, start, handle.pos, entryCursor, entries, entriesMap)
      decreases |handle.data| - handle.pos
    {
      ghost var here := handle.pos;
      var index := ReadNumber(handle, 4);
      if index.Err? {
        EntryListStops(handle.data, here, entryCursor, entries);
        return Err(index.error);
      }
      if index.value == 0 {
        EntryListEnds(handle.data, here, entryCursor, entries);
        break;
      }
      ghost var p := handle.pos;
      var record := ReadRecord(handle);
      if record.Err? {
        EntryListFails(handle.data, here, entryCursor, entries, index.value, p);
        return Err(record.error);
      }
      var (path, size, crc) := record.value;
      ListedStep(handle.data, start, here, entryCursor, entries, entriesMap, index.value, p, path, size, crc, handle.pos);
      var entry := Entry(path, size, crc, entryCursor);
      entryCursor := WrapAdd(entryCursor, size);
      entriesMap := entriesMap[path := |entries|];
      entries := entries + [entry];
    }
    r := Ok((entries, entriesMap));
  }

  /** Opens the file, seeks to `start` and reads the metadata section. */
  method LoadMetadata(file: Option<seq<byte>>, start: nat, parse: imap<Text, AddonJson>) returns (r: Result<(Metadata, nat), ReadError>)
    ensures r == MetadataLoad(file, start, parse)
  {
    if file.None? {
      return Err(IOError);
    }
    var handle := new ByteStream(file.value);
    handle.Seek(start);
    var m := ReadMetadata(handle, parse);
    r := if m.Ok? then Ok((m.value, handle.pos)) else Err(m.error);
  }

  /**
   * `metadata` for `g` given what it keeps: the kept metadata if there is one,
   * otherwise the file is read and a success is kept along with the position
   * of the entry list.
   */
  method CacheMetadata(g: GmaFile, kept: Option<Metadata>, keptStart: Option<nat>)
    returns (r: Result<Metadata, ReadError>, kept': Option<Metadata>, keptStart': Option<nat>)
    requires g.Describes()
    requires kept.Some? <==> keptStart.Some?
    requires kept.Some? ==> g.file.Some? && g.sections == Ok((kept.value, keptStart.value))
    ensures kept'.Some? <==> keptStart'.Some?
    ensures kept'.Some? ==> g.file.Some? && g.sections == Ok((kept'.value, keptStart'.value))
    ensures r == if kept.Some? then Ok(kept.value) else MetadataPart(g.sections)
    ensures r.Ok? ==> kept' == Some(r.value)
    ensures r.Err? || kept.Some? ==> kept' == kept && keptStart' == keptStart
  {
    if kept.Some? {
      return Ok(kept.value), kept, keptStart;
    }
    assert FileReads(g.file, g.metadataStart, g.parseAddonJson, g.sections, g.listing);
    var loaded := LoadMetadata(g.file, g.metadataStart, g.parseAddonJson);
    if loaded.Err? {
      return Err(loaded.error), kept, keptStart;
    }
    r, kept', keptStart' := Ok(loaded.value.0), Some(loaded.value.0), Some(loaded.value.1);
  }

  /**
   * The entry list of `g` read from where its metadata ends: the entries, their
   * index and where the contents begin.
   */
  method CacheEntryList(g: GmaFile, listStart: nat) returns (r: Result<(seq<Entry>, map<Text, nat>, nat), ReadError>)
    requires g.Describes() && g.sections.Ok? && g.sections.value.1 == listStart
    ensures g.listing == if r.Ok? then Ok((r.value.0, r.value.2)) else Err(r.error)
    ensures r.Ok? ==> r.value.1 == PathIndex(r.value.0)
  {
    assert FileReads(g.file, g.metadataStart, g.parseAddonJson, g.sections, g.listing);
    r := LoadEntryList(g.file.value, listStart);
  }

  /** Opens the file, seeks to `listStart` and reads the entry list: the entries, their index and where the contents begin. */
  method LoadEntryList(data: seq<byte>, listStart: nat) returns (r: Result<(seq<Entry>, map<Text, nat>, nat), ReadError>)
    ensures EntryListFrom(data, listStart, 0, []) == if r.Ok? then Ok((r.value.0, r.value.2)) else Err(r.error)
    ensures r.Ok? ==> r.value.1 == PathIndex(r.value.0)
  {
    var handle := new ByteStream(data);
    handle.Seek(listStart);
    var list := ReadEntryList(handle);
    r := if list.Ok? then Ok((list.value.0, list.value.1, handle.pos)) else Err(list.error);
  }

  /** Opens the file, seeks to `offset` and reads `size` bytes; a short read panics. */
  method LoadBytes(data: seq<byte>, offset: nat, size: nat) returns (r: Outcome<seq<byte>>)
    ensures r == if size <= |Rest(data, offset)| then Done(Rest(data, offset)[..size]) else Panicked
  {
    var handle := new ByteStream(data);
    handle.Seek(offset);
    var buf := handle.ReadExact(size);
    r := if buf.Some? then Done(buf.value) else Panicked;
  }

  /**
   * A GMA file on disk (`file` is `None` when it cannot be opened) whose
   * metadata begins at `metadataStart`, with what has been parsed so far.
   */
  /**
   * `update_extractable_name`: the cached name is recomputed when there is
   * none, or when it was computed while the file had the other id state.
   * Afterwards it is present and matches the id state, and a cache that
   * already did is left alone.
   */
  function UpdateExtractableName(cached: (bool, Option<Text>), hasId: bool, name: Text): (r: (bool, Option<Text>))
    ensures r.0 == hasId && r.1.Some?
    ensures cached.1.Some? && cached.0 == hasId ==> r == cached
    ensures r != cached ==> r.1 == Some(name)
  {
    if cached.1.None? || cached.0 != hasId then (hasId, Some(name)) else cached
  }

  /** A second update changes nothing. */
  lemma UpdateExtractableNameSettles(cached: (bool, Option<Text>), hasId: bool, name: Text, other: Text)
    ensures var once := UpdateExtractableName(cached, hasId, name);
      UpdateExtractableName(once, hasId, other) == once
  {
  }

  class GmaFile {
    const file: Option<seq<byte>>
    const metadataStart: nat
    const parseAddonJson: imap<Text, AddonJson>
    var metadata: Option<Metadata>
    var entriesListStart: Option<nat>
    var entries: Option<seq<Entry>>
    var entriesMap: Option<map<Text, nat>>
    var entriesStart: Option<nat>
    /** Whether the file has a workshop id, and the name `extracted_name()` gives for it. */
    const hasId: bool
    const computedName: Text
    /** The cached extraction name, with the id state it was computed for. */
    var extractedName: (bool, Option<Text>)
    /** What the metadata section of the file reads as, and what the entry list after it reads as. */
    ghost const sections: Result<(Metadata, nat), ReadError>
    ghost const listing: Result<(seq<Entry>, nat), ReadError>

    /**
     * `sections` and `listing` are what the file says (stated for every `f`
     * equal to the file, so that the reading is unfolded only where one is read).
     */
    ghost predicate Describes()
    {
      forall f :: f == file ==> FileReads(f, metadataStart, parseAddonJson, sections, listing)
    }

    /** Whatever is cached is what the file says. */
    ghost predicate Valid()
      reads this
    {
      (metadata.Some? <==> entriesListStart.Some?) &&
      (entries.Some? <==> entriesMap.Some?) && (entries.Some? <==> entriesStart.Some?) &&
      (entries.Some? ==> metadata.Some?) &&
      (metadata.Some? ==> file.Some? && sections == Ok((metadata.value, entriesListStart.value))) &&
      (entries.Some? ==> listing == Ok((entries.value, entriesStart.value)) && entriesMap.value == PathIndex(entries.value))
    }

    constructor (file: Option<seq<byte>>, metadataStart: nat, parseAddonJson: imap<Text, AddonJson>,
                 hasId: bool, computedName: Text, extractedName: (bool, Option<Text>))
      ensures Valid() && Describes()
      ensures this.file == file && this.metadataStart == metadataStart && this.parseAddonJson == parseAddonJson
      ensures this.hasId == hasId && this.computedName == computedName && this.extractedName == extractedName
      ensures metadata.None? && entries.None?
    {
      this.file := file;
      this.hasId := hasId;
      this.computedName := computedName;
      this.extractedName := extractedName;
      this.metadataStart := metadataStart;
      this.parseAddonJson := parseAddonJson;
      var loaded := MetadataLoad(file, metadataStart, parseAddonJson);
      sections := loaded;
      listing := if loaded.Ok? && file.Some? then EntryListFrom(file.value, loaded.value.1, 0, []) else Err(IOError);
      metadata := None;
      entriesListStart := None;
      entries := None;
      entriesMap := None;
      entriesStart := None;
      new;
      assert FileReads(file, metadataStart, parseAddonJson, sections, listing);
    }

    /** `metadata`: parsed on the first successful call only; later calls return the kept value. */
    method Metadata() returns (r: Result<Metadata, ReadError>)
      requires Valid() && Describes()
      modifies this`metadata, this`entriesListStart, this`extractedName
      ensures Valid()
      ensures r == if old(metadata).Some? then Ok(old(metadata).value) else MetadataPart(sections)
      ensures r.Ok? ==> metadata == Some(r.value)
      ensures r.Err? || old(metadata).Some? ==> metadata == old(metadata) && entriesListStart == old(entriesListStart)
      ensures extractedName == if old(metadata).None? && r.Ok?
        then UpdateExtractableName(old(extractedName), hasId, computedName) else old(extractedName)
    {
      var parsed := metadata.None?;
      r, metadata, entriesListStart := CacheMetadata(this, metadata, entriesListStart);
      if parsed && r.Ok? {
        extractedName := UpdateExtractableName(extractedName, hasId, computedName);
      }
    }

    /**
     * `entries`: parsed on the first successful call only, after `metadata`
     * when the entry list has not been located yet (its failure is a panic).
     */
    method Entries() returns (r: Outcome<Result<(seq<Entry>, map<Text, nat>), ReadError>>)
      requires Valid() && Describes()
      modifies this`metadata, this`entriesListStart, this`entries, this`entriesMap, this`entriesStart, this`extractedName
      ensures Valid()
      ensures old(entries).Some? ==>
        r == Done(Ok((old(entries).value, old(entriesMap).value))) && entries == old(entries)
      ensures old(entries).None? ==> r == EntriesPart(sections, listing)
      ensures r.Done? && r.value.Ok? ==> entries == Some(r.value.value.0) && entriesMap == Some(r.value.value.1)
      ensures old(metadata).Some? ==> metadata == old(metadata)
    {
      if entries.Some? {
        return Done(Ok((entries.value, entriesMap.value)));
      }
      if entriesListStart.None? {
        var m := Metadata();
        if m.Err? {
          return Panicked;
        }
      }
      var list := CacheEntryList(this, entriesListStart.value);
      if list.Err? {
        return Done(Err(list.error));
      }
      entries := Some(list.value.0);
      entriesMap := Some(list.value.1);
      entriesStart := Some(list.value.2);
      r := Done(Ok((list.value.0, list.value.1)));
    }

    /** `read_entry` as written: it seeks to the entry's offset from the start of the file. */
    method ReadEntry(path: Text) returns (r: Outcome<Option<seq<byte>>>)
      requires Valid()
      ensures entries.None? ==> r.Panicked?
      ensures entries.Some? ==> r == ReadEntryAt(file.value, entries.value, entriesMap.value, path)
    {
      if entries.None? {
        return Panicked;
      }
      var es, index := entries.value, entriesMap.value;
      if path !in index || index[path] >= |es| {
        return Done(None);
      }
      var entry := es[index[path]];
      var buf := LoadBytes(file.value, entry.index, entry.size);
      r := if buf.Done? then Done(Some(buf.value)) else Panicked;
    }

    /** `read_entry` seeking to `entries_start + index`, where the contents of the entry begin. */
    method ReadEntryFixed(path: Text) returns (r: Outcome<Option<seq<byte>>>)
      requires Valid()
      ensures entries.None? ==> r.Panicked?
      ensures entries.Some? ==> r == ReadEntryFrom(file.value, entriesStart.value, entries.value, entriesMap.value, path)
    {
      if entries.None? {
        return Panicked;
      }
      var es, index := entries.value, entriesMap.value;
      if path !in index || index[path] >= |es| {
        return Done(None);
      }
      var entry := es[index[path]];
      var buf := LoadBytes(file.value, entriesStart.value + entry.index, entry.size);
      r := if buf.Done? then Done(Some(buf.value)) else Panicked;
    }
  }
}
