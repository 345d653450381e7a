/**
 * The standalone GMA reader: header, skipped required-content strings, the
 * addon's name, description and author, the entry table, and optionally the
 * entries' contents. Every `unwrap` on a short read or on text that is not
 * UTF-8 is a panic (`Panicked`); only a wrong magic or version is an error.
 */
module GmaLibRead {
  import opened Wrappers
  import opened Bytes
  import opened Utf8
  import opened GmaStream

  datatype GmaReadError = InvalidHeader | UnsupportedVersion

  datatype GmaEntry = GmaEntry(name: seq<byte>, size: u64, crc: u32, contents: Option<seq<byte>>)

  datatype GmaFile = GmaFile(name: seq<byte>, description: seq<byte>, author: seq<byte>, entries: seq<GmaEntry>)

  /** What `read_gma` ends in: a panic, an error, or the file. */
  datatype GmaRead = ReadPanicked | ReadErr(error: GmaReadError) | ReadOk(file: GmaFile)

  /** Each step of the format ends in a panic or in its value and the position after it. */
  datatype TextRead = TextPanic | Text(text: seq<byte>, next: nat)
  datatype SkipRead = SkipPanic | Skipped(next: nat)
  datatype EntryRead = EntryPanic | Entry(entry: GmaEntry, next: nat)
  datatype TableRead = TablePanic | Table(entries: seq<GmaEntry>, next: nat)

  /** The offset of the first required-content string: magic, version, steam id and timestamp come first. */
  const STRINGS_START: nat := 21

  // ---------------------------------------------------------------------------
  // The format, read from a position in the file

  /**
   * `read_nt_string` at `pos`: the bytes before the next NUL and the position
   * after it. Without a NUL the last byte of the file is dropped instead; an
   * empty read or bytes that are not UTF-8 panic.
   */
  function NtStringAt(data: seq<byte>, pos: nat): (r: TextRead)
    ensures r.Text? ==> pos < r.next <= |data|
  {
    var buf := UpToNulIncl(Rest(data, pos));
    if buf == [] then TextPanic
    else if ValidUtf8(buf[..|buf| - 1]) then Text(buf[..|buf| - 1], pos + |buf|)
    else TextPanic
  }

  /** The required-content strings: read until an empty one; the position after it. */
  function SkipRequired(data: seq<byte>, pos: nat): SkipRead
    decreases |data| - pos
  {
    match NtStringAt(data, pos)
    case TextPanic => SkipPanic
    case Text(s, p) => if s == [] then Skipped(p) else SkipRequired(data, p)
  }

  /** One entry of the table after its non-zero index: name, size and crc. */
  function EntryAt(data: seq<byte>, pos: nat): (r: EntryRead)
    ensures r.Entry? ==> pos < r.next <= |data| && r.entry.contents.None?
  {
    match NtStringAt(data, pos)
    case TextPanic => EntryPanic
    case Text(name, p) =>
      match LEAt(data, p, 8)
      case ShortRead => EntryPanic
      case Number(size, p2) =>
        match LEAt(data, p2, 4)
        case ShortRead => EntryPanic
        case Number(crc, p3) =>
          Pow256Widths();
          Entry(GmaEntry(name, size, crc, None), p3)
  }

  /** The entry table from `pos` on, appended to `acc`, up to and including the zero index. */
  function EntryTable(data: seq<byte>, pos: nat, acc: seq<GmaEntry>): TableRead
    decreases |data| - pos
  {
    match LEAt(data, pos, 4)
    case ShortRead => TablePanic
    case Number(index, p) =>
      if index == 0 then Table(acc, p)
      else match EntryAt(data, p)
        case EntryPanic => TablePanic
        case Entry(e, p2) => EntryTable(data, p2, acc + [e])
  }

  /**
   * One entry's contents at `pos`: read in full when `readEntry` (a short
   * file panics), otherwise skipped by size, where a short file is no error.
   */
  function EntryContents(data: seq<byte>, pos: nat, e: GmaEntry, readEntry: bool): EntryRead
  {
    var rest := Rest(data, pos);
    if !readEntry then Entry(e, pos + (if e.size <= |rest| then e.size else |rest|))
    else if e.size <= |rest| then Entry(e.(contents := Some(rest[..e.size])), pos + e.size)
    else EntryPanic
  }

  /** The contents of entries `i..`, one after the other. */
  function Contents(data: seq<byte>, pos: nat, entries: seq<GmaEntry>, i: nat, readEntry: bool): TableRead
    requires i <= |entries|
    decreases |entries| - i
  {
    if i == |entries| then Table(entries, pos)
    else match EntryContents(data, pos, entries[i], readEntry)
      case EntryPanic => TablePanic
      case Entry(e, p) => Contents(data, p, entries[i := e], i + 1, readEntry)
  }

  /** `read_gma` over a whole file. */
  function ParseGma(data: seq<byte>, readEntry: bool): GmaRead
  {
    if |data| < 4 then ReadPanicked
    else if data[..4] != GMA_HEADER then ReadErr(InvalidHeader)
    else if |data| < 5 then ReadPanicked
    else if data[4] != SUPPORTED_GMA_VERSION then ReadErr(UnsupportedVersion)
    else if |data| < STRINGS_START then ReadPanicked
    else match SkipRequired(data, STRINGS_START)
      case SkipPanic => ReadPanicked
      case Skipped(p0) => ParseAddon(data, p0, readEntry)
  }

  /** Everything after the required-content strings: three strings, the addon version, the table and the contents. */
  function ParseAddon(data: seq<byte>, p0: nat, readEntry: bool): GmaRead
  {
    match NtStringAt(data, p0)
    case TextPanic => ReadPanicked
    case Text(name, p1) =>
      match NtStringAt(data, p1)
      case TextPanic => ReadPanicked
      case Text(desc, p2) =>
        match NtStringAt(data, p2)
        case TextPanic => ReadPanicked
        case Text(author, p3) =>
          match LEAt(data, p3, 4)
          case ShortRead => ReadPanicked
          case Number(_, p4) =>
            match EntryTable(data, p4, [])
            case TablePanic => ReadPanicked
            case Table(entries, p5) =>
              match Contents(data, p5, entries, 0, readEntry)
              case TablePanic => ReadPanicked
              case Table(read, _) => ReadOk(GmaFile(name, desc, author, read))
  }

  // ---------------------------------------------------------------------------
  // The reader, walking a cursor through the file

  /** `read_nt_string`. */
  method ReadNtString(handle: ByteStream) returns (r: Outcome<seq<byte>>)
    modifies handle`pos
    ensures var spec := NtStringAt(handle.data, old(handle.pos));
      (r.Done? <==> spec.Text?) && (r.Done? ==> r.value == spec.text && handle.pos == spec.next)
  {
    var buf := handle.ReadUntilNul();
    if buf == [] {
      return Panicked;
    }
    var s := buf[..|buf| - 1];
    if !ValidUtf8(s) {
      return Panicked;
    }
    r := Done(s);
  }

  /** A `read_u32::<LittleEndian>().unwrap()` and its siblings. */
  method ReadNumber(handle: ByteStream, n: nat) returns (r: Outcome<nat>)
    modifies handle`pos
    ensures var spec := LEAt(handle.data, old(handle.pos), n);
      (r.Done? <==> spec.Number?) && (r.Done? ==> r.value == spec.value && handle.pos == spec.next)
  {
    var v := handle.ReadLE(n);
    r := if v.Some? then Done(v.value) else Panicked;
  }

  /** The loop over required-content strings. */
  method SkipRequiredStrings(handle: ByteStream) returns (r: Outcome<()>)
    modifies handle`pos
    ensures var spec := SkipRequired(handle.data, old(handle.pos));
      (r.Done? <==> spec.Skipped?) && (r.Done? ==> handle.pos == spec.next)
  {
    ghost var start := handle.pos;
    var dumb := ReadNtString(handle);
    if dumb.Panicked? {
      return Panicked;
    }
    while |dumb.value| > 0
      invariant dumb.Done? && handle.pos <= |handle.data|
      invariant dumb.value != [] ==> SkipRequired(handle.data, handle.pos) == SkipRequired(handle.data, start)
      invariant dumb.value == [] ==> SkipRequired(handle.data, start) == Skipped(handle.pos)
      decreases |handle.data| - handle.pos
    {
      dumb := ReadNtString(handle);
      if dumb.Panicked? {
        return Panicked;
      }
    }
    r := Done(());
  }

  /** The body of the entry table loop: name, size and crc. */
  method ReadEntry(handle: ByteStream) returns (r: Outcome<GmaEntry>)
    modifies handle`pos
    ensures var spec := EntryAt(handle.data, old(handle.pos));
      (r.Done? <==> spec.Entry?) && (r.Done? ==> r.value == spec.entry && handle.pos == spec.next)
  {
    var name := ReadNtString(handle);
    if name.Panicked? {
      return Panicked;
    }
    var size := ReadNumber(handle, 8);
    if size.Panicked? {
      return Panicked;
    }
    var crc := ReadNumber(handle, 4);
    if crc.Panicked? {
      return Panicked;
    }
    Pow256Widths();
    r := Done(GmaEntry(name.value, size.value, crc.value, None));
  }

  /** The entry table loop: read while the index is not zero. */
  method ReadEntryTable(handle: ByteStream) returns (r: Outcome<seq<GmaEntry>>)
    modifies handle`pos
    ensures var spec := EntryTable(handle.data, old(handle.pos), []);
      (r.Done? <==> spec.Table?) && (r.Done? ==> r.value == spec.entries && handle.pos == spec.next)
  {
    var entries: seq<GmaEntry> := [];
    ghost var before := handle.pos;
    var index := ReadNumber(handle, 4);
    if index.Panicked? {
      return Panicked;
    }
    while index.value != 0
      invariant index.Done? && handle.pos <= |handle.data|
      invariant LEAt(handle.data, before, 4) == Number(index.value, handle.pos)
      invariant EntryTable(handle.data, before, entries) == EntryTable(handle.data, old(handle.pos), [])
      decreases |handle.data| - handle.pos
    {
      var e := ReadEntry(handle);
      if e.Panicked? {
        return Panicked;
      }
      entries := entries + [e.value];
      before := handle.pos;
      index := ReadNumber(handle, 4);
      if index.Panicked? {
        return Panicked;
      }
    }
    r := Done(entries);
  }

  /** One iteration of the contents loop. */
  method ReadEntryContents(handle: ByteStream, e: GmaEntry, readEntry: bool) returns (r: Outcome<GmaEntry>)
    modifies handle`pos
    ensures var spec := EntryContents(handle.data, old(handle.pos), e, readEntry);
      (r.Done? <==> spec.Entry?) && (r.Done? ==> r.value == spec.entry && handle.pos == spec.next)
  {
    if readEntry {
      var buf := handle.ReadExact(e.size);
      if buf.None? {
        return Panicked;
      }
      r := Done(e.(contents := buf));
    } else {
      var _ := handle.Skip(e.size);
      r := Done(e);
    }
  }

  /** The contents loop, filling each entry's contents in place or skipping them. */
  method ReadContents(handle: ByteStream, entries: seq<GmaEntry>, readEntry: bool) returns (r: Outcome<seq<GmaEntry>>)
    modifies handle`pos
    ensures var spec := Contents(handle.data, old(handle.pos), entries, 0, readEntry);
      (r.Done? <==> spec.Table?) && (r.Done? ==> r.value == spec.entries && handle.pos == spec.next)
  {
    var es := entries;
    for i := 0 to |entries|
      invariant |es| == |entries|
      invariant Contents(handle.data, handle.pos, es, i, readEntry) == Contents(handle.data, old(handle.pos), entries, 0, readEntry)
    {
      var e := ReadEntryContents(handle, es[i], readEntry);
      if e.Panicked? {
        return Panicked;
      }
      es := es[i := e.value];
    }
    r := Done(es);
  }

  /** `read_gma` over a freshly opened file. */
  method ReadGma(file: seq<byte>, readEntry: bool) returns (r: GmaRead)
    ensures r == ParseGma(file, readEntry)
  {
    var handle := new ByteStream(file);
    var magic := handle.ReadExact(4);
    if magic.None? {
      return ReadPanicked;
    }
    if magic.value != GMA_HEADER {
      return ReadErr(InvalidHeader);
    }
    var version := handle.ReadExact(1);
    if version.None? {
      return ReadPanicked;
    }
    if version.value[0] != SUPPORTED_GMA_VERSION {
      return ReadErr(UnsupportedVersion);
    }
    var steamId := ReadNumber(handle, 8);
    var timestamp := ReadNumber(handle, 8);
    if steamId.Panicked? || timestamp.Panicked? {
      return ReadPanicked;
    }
    var skipped := SkipRequiredStrings(handle);
    if skipped.Panicked? {
      return ReadPanicked;
    }
    r := ReadAddon(handle, readEntry);
  }

  /** The part of `read_gma` after the required-content strings. */
  method ReadAddon(handle: ByteStream, readEntry: bool) returns (r: GmaRead)
    modifies handle`pos
    ensures r == ParseAddon(handle.data, old(handle.pos), readEntry)
  {
    var name := ReadNtString(handle);
    if name.Panicked? {
      return ReadPanicked;
    }
    var desc := ReadNtString(handle);
    if desc.Panicked? {
      return ReadPanicked;
    }
    var author := ReadNtString(handle);
    if author.Panicked? {
      return ReadPanicked;
    }
    var addonVersion := ReadNumber(handle, 4);
    if addonVersion.Panicked? {
      return ReadPanicked;
    }
    var entries := ReadEntryTable(handle);
    if entries.Panicked? {
      return ReadPanicked;
    }
    var read := ReadContents(handle, entries.value, readEntry);
    if read.Panicked? {
      return ReadPanicked;
    }
    // The addon CRC may be missing, and whatever follows it is skipped; neither affects the result.
    var addonCrc := handle.ReadLE(4);
    var remaining := handle.Skip(|Rest(handle.data, handle.pos)|);
    r := ReadOk(GmaFile(name.value, desc.value, author.value, read.value));
  }

  // ---------------------------------------------------------------------------
  // Properties of the format

  /** `read_nt_string` returns the bytes before the NUL, without it; only the file's end stops it otherwise. */
  lemma NtStringShape(data: seq<byte>, pos: nat)
    ensures match NtStringAt(data, pos)
      case TextPanic => true
      case Text(s, p) => NulFree(s) && ValidUtf8(s) && data[pos..p - 1] == s && (data[p - 1] == NUL || p == |data|)
  {
    UpToNulInclShape(Rest(data, pos));
  }

  /** A NUL-terminated string is read up to its terminator. */
  lemma ReadsUpToTerminator(data: seq<byte>, pos: nat, s: seq<byte>)
    requires At(data, pos, s + [NUL]) && NulFree(s)
    ensures UpToNulIncl(Rest(data, pos)) == s + [NUL]
  {
    var rest := data[pos + |s| + 1..];
    assert data[pos..] == data[pos..pos + |s| + 1] + rest;
    UpToNulInclTerminated(s, rest);
  }

  /** A well-formed NUL-terminated string reads back as itself. */
  lemma NtStringReads(data: seq<byte>, pos: nat, s: seq<byte>)
    requires At(data, pos, s + [NUL]) && NulFree(s) && ValidUtf8(s)
    ensures NtStringAt(data, pos) == Text(s, pos + |s| + 1)
  {
    ReadsUpToTerminator(data, pos, s);
    NtStringOfRead(data, pos, s);
  }

  lemma NtStringOfRead(data: seq<byte>, pos: nat, s: seq<byte>)
    requires UpToNulIncl(Rest(data, pos)) == s + [NUL] && ValidUtf8(s)
    ensures NtStringAt(data, pos) == Text(s, pos + |s| + 1)
  {
    assert (s + [NUL])[..|s|] == s;
  }

  /** The strings `strs`, each followed by a NUL. */
  function Terminated(strs: seq<seq<byte>>): seq<byte>
  {
    if strs == [] then [] else strs[0] + [NUL] + Terminated(strs[1..])
  }

  /** Required-content strings are skipped up to and including the first empty one. */
  lemma {:induction false} SkipRequiredReads(data: seq<byte>, pos: nat, strs: seq<seq<byte>>)
    requires forall i :: 0 <= i < |strs| ==> strs[i] != [] && NulFree(strs[i]) && ValidUtf8(strs[i])
    requires At(data, pos, Terminated(strs) + [NUL])
    ensures SkipRequired(data, pos) == Skipped(pos + |Terminated(strs)| + 1)
    decreases |strs|
  {
    if strs == [] {
      assert Terminated(strs) + [NUL] == [] + [NUL];
      AsciiValid([]);
      NtStringReads(data, pos, []);
    } else {
      var s := strs[0];
      assert Terminated(strs) + [NUL] == (s + [NUL]) + (Terminated(strs[1..]) + [NUL]);
      AtSplit(data, pos, s + [NUL], Terminated(strs[1..]) + [NUL]);
      NtStringReads(data, pos, s);
      SkipRequiredReads(data, pos + |s| + 1, strs[1..]);
    }
  }

  /** Only the magic and the version byte give errors; a parsed file passed both checks. */
  lemma ParseGmaErrors(data: seq<byte>, readEntry: bool)
    ensures ParseGma(data, readEntry) == ReadErr(InvalidHeader) <==> |data| >= 4 && data[..4] != GMA_HEADER
    ensures ParseGma(data, readEntry) == ReadErr(UnsupportedVersion) <==>
      |data| >= 5 && data[..4] == GMA_HEADER && data[4] != SUPPORTED_GMA_VERSION
    ensures ParseGma(data, readEntry).ReadOk? ==>
      |data| >= STRINGS_START && data[..5] == GMA_HEADER + [SUPPORTED_GMA_VERSION]
  {
    if |data| >= STRINGS_START && data[..4] == GMA_HEADER && data[4] == SUPPORTED_GMA_VERSION {
      assert data[..5] == data[..4] + [data[4]];
    }
  }

  /** Entries from the table have no contents yet, and the ones read before stay in front. */
  lemma {:induction false} EntryTableNoContents(data: seq<byte>, pos: nat, acc: seq<GmaEntry>)
    requires forall e :: e in acc ==> e.contents.None?
    ensures match EntryTable(data, pos, acc)
      case TablePanic => true
      case Table(es, _) => acc <= es && forall e :: e in es ==> e.contents.None?
    decreases |data| - pos
  {
    match LEAt(data, pos, 4)
    case ShortRead =>
    case Number(index, p) =>
      if index != 0 {
        match EntryAt(data, p)
        case EntryPanic =>
        case Entry(e, p2) => EntryTableNoContents(data, p2, acc + [e]);
      }
  }

  /** Entries `i..` get contents of their own size when read, and are left alone when skipped. */
  lemma {:induction false} ContentsFill(data: seq<byte>, pos: nat, es: seq<GmaEntry>, i: nat, readEntry: bool)
    requires i <= |es|
    ensures match Contents(data, pos, es, i, readEntry)
      case TablePanic => true
      case Table(read, _) =>
        |read| == |es| &&
        (forall j :: 0 <= j < i ==> read[j] == es[j]) &&
        (forall j :: i <= j < |es| ==>
          if readEntry then read[j].contents.Some? && |read[j].contents.value| == es[j].size &&
                            read[j] == es[j].(contents := read[j].contents)
          else read[j] == es[j])
    decreases |es| - i
  {
    if i < |es| {
      match EntryContents(data, pos, es[i], readEntry)
      case EntryPanic =>
      case Entry(e, p) => ContentsFill(data, p, es[i := e], i + 1, readEntry);
    }
  }

  /** With `read_entry` every entry holds exactly `size` bytes; without it none holds any. */
  lemma ParsedContents(data: seq<byte>, readEntry: bool)
    ensures match ParseGma(data, readEntry)
      case ReadOk(f) =>
        forall e :: e in f.entries ==>
          if readEntry then e.contents.Some? && |e.contents.value| == e.size else e.contents.None?
      case _ => true
  {
    if |data| >= STRINGS_START && data[..4] == GMA_HEADER && data[4] == SUPPORTED_GMA_VERSION {
      match SkipRequired(data, STRINGS_START)
      case SkipPanic =>
      case Skipped(p0) => AddonContents(data, p0, readEntry);
    }
  }

  lemma AddonContents(data: seq<byte>, p0: nat, readEntry: bool)
    ensures match ParseAddon(data, p0, readEntry)
      case ReadOk(f) =>
        forall e :: e in f.entries ==>
          if readEntry then e.contents.Some? && |e.contents.value| == e.size else e.contents.None?
      case _ => true
  {
    match NtStringAt(data, p0)
    case TextPanic =>
    case Text(name, p1) =>
      match NtStringAt(data, p1)
      case TextPanic =>
      case Text(desc, p2) =>
        match NtStringAt(data, p2)
        case TextPanic =>
        case Text(author, p3) =>
          match LEAt(data, p3, 4)
          case ShortRead =>
          case Number(_, p4) =>
            EntryTableNoContents(data, p4, []);
            match EntryTable(data, p4, [])
            case TablePanic =>
            case Table(entries, p5) =>
              ContentsFill(data, p5, entries, 0, readEntry);
              match Contents(data, p5, entries, 0, readEntry)
              case TablePanic =>
              case Table(read, _) =>
                forall e | e in read
                  ensures if readEntry then e.contents.Some? && |e.contents.value| == e.size else e.contents.None?
                {
                  var j :| 0 <= j < |read| && read[j] == e;
                  assert entries[j] in entries;
                }
  }
}
