/**
 * Discovery of the addons installed in the game (`octopus/game_addons.rs`):
 * `.gma` files in `GarrysMod/addons`, whose workshop id is the number at the
 * end of the file name, and in `GarrysMod/cache/workshop`, whose whole name
 * is the id. Both directories are scanned on their own threads; the files
 * that open are collected in order of their modification time and indexed by
 * path.
 */
module GameAddons {
  import opened Wrappers
  import opened PathText
  import opened SortedSearch

  const U64_MAX: nat := 0xFFFF_FFFF_FFFF_FFFF

  /** A directory entry as `read_dir` yields it; `None` stands for an entry that could not be read. */
  datatype DirEntry = DirEntry(path: string, name: string, isFile: bool)

  /**
   * `gma_check`: the path of a readable regular file whose extension is
   * `gma` in any letter case, with its name minus the last four characters.
   */
  function GmaCheck(entry: Option<DirEntry>): Option<(string, string)>
  {
    if entry.None? || !entry.value.isFile then None
    else
      var name := entry.value.name;
      match Extension(name)
      case None => None
      case Some(ext) =>
        if AsciiLower(ext) != "gma" then None
        else
          assert |name| >= 4 by { ExtensionSplits(name, name[..|name| - |ext| - 1], ext); }
          Some((entry.value.path, name[..|name| - 4]))
  }

  /** A `.gma` name ends in a dot and `gma` in any case, after at least one character. */
  predicate GmaName(name: string)
  {
    |name| >= 5 && name[|name| - 4] == '.' && AsciiLower(name[|name| - 3..]) == "gma"
  }

  /** `gma_check` accepts exactly the readable files with a `.gma` name, and strips the `.gma`. */
  lemma GmaCheckAccepts(entry: Option<DirEntry>)
    ensures GmaCheck(entry).Some? <==> entry.Some? && entry.value.isFile && GmaName(entry.value.name)
    ensures GmaCheck(entry).Some? ==>
      GmaCheck(entry).value == (entry.value.path, entry.value.name[..|entry.value.name| - 4])
  {
    if entry.Some? && entry.value.isFile {
      var name := entry.value.name;
      if GmaName(name) {
        var ext := name[|name| - 3..];
        var stem := name[..|name| - 4];
        assert name == stem + "." + ext;
        assert '.' !in ext by {
          assert forall i :: 0 <= i < 3 ==> AsciiLowerChar(ext[i]) == "gma"[i];
        }
        ExtensionSplits(name, stem, ext);
      }
      match Extension(name)
      case None =>
      case Some(ext) =>
        ExtensionSplits(name, name[..|name| - |ext| - 1], ext);
    }
  }

  // ---------------------------------------------------------------------------
  // Workshop ids in file names

  /** The longest run of decimal digits at the end of `s`. */
  function TrailingDigits(s: string): (r: string)
    ensures |r| <= |s| && r == s[|s| - |r|..] && AllDigits(r)
    ensures |r| < |s| ==> !IsDigit(s[|s| - |r| - 1])
  {
    if s == [] || !IsDigit(s[|s| - 1]) then []
    else
      var r := TrailingDigits(s[..|s| - 1]) + [s[|s| - 1]];
      assert s[|s| - |r|..] == s[..|s| - 1][|s| - |r|..] + [s[|s| - 1]];
      r
  }

  /**
   * What the addons-directory scan makes of a name without its `.gma`:
   * `None` when the id overflows and the file is skipped, otherwise the id,
   * absent when the trailing digits are missing or spell zero. The scan
   * accumulates ten times the value, so an id above `u64::MAX / 10` is
   * already an overflow.
   */
  function AddonsDirId(stem: string): Option<Option<nat>>
  {
    var v := DecimalValue(TrailingDigits(stem));
    if v * 10 > U64_MAX then None
    else if v == 0 then Some(None)
    else Some(Some(v))
  }

  /** The `'paths` loop body: add each trailing digit, then multiply by ten, both checked. */
  method ParseAddonsDirId(stem: string) returns (r: Option<Option<nat>>)
    ensures r == AddonsDirId(stem)
  {
    var digits := TrailingDigits(stem);
    var id := 0;
    var i := 0;
    while i < |digits|
      invariant i <= |digits|
      invariant id == 10 * DecimalValue(digits[..i]) <= U64_MAX
    {
      assert digits[..i + 1][..i] == digits[..i];
      var sum := id + DigitValue(digits[i]);
      assert sum == DecimalValue(digits[..i + 1]);
      if sum > U64_MAX || 10 * sum > U64_MAX {
        DecimalPrefix(digits, i + 1);
        assert digits[..|digits|] == digits;
        assert 10 * DecimalValue(digits) > U64_MAX;
        return None;
      }
      id := 10 * sum;
      i := i + 1;
    }
    assert digits[..i] == digits;
    r := if id == 0 then Some(None) else Some(Some(id / 10));
  }

  /**
   * A name ending in a positive id after a non-digit gives that id back,
   * unless ten times it overflows: then the file is skipped, although the id
   * itself fits in a `u64`.
   */
  lemma AddonsDirIdReadsSuffix(prefix: string, n: nat)
    requires n > 0
    requires prefix == [] || !IsDigit(prefix[|prefix| - 1])
    ensures AddonsDirId(prefix + Decimal(n)) == if n * 10 > U64_MAX then None else Some(Some(n))
  {
    TrailingOfDigits(prefix, Decimal(n));
    DecimalRoundTrip(n);
  }

  lemma {:induction false} TrailingOfDigits(prefix: string, ds: string)
    requires AllDigits(ds)
    requires prefix == [] || !IsDigit(prefix[|prefix| - 1])
    ensures TrailingDigits(prefix + ds) == ds
    decreases |ds|
  {
    if ds == [] {
      assert prefix + ds == prefix;
    } else {
      var init := ds[..|ds| - 1];
      TrailingOfDigits(prefix, init);
      assert (prefix + ds)[..|prefix + ds| - 1] == prefix + init;
    }
  }

  /** An id of 19 digits that fits in a `u64` but makes the addons-directory scan skip its file. */
  lemma AddonsDirIdSkipsLargeId()
    ensures AddonsDirId("addon_" + Decimal(1844674407370955162)) == None
    ensures 1844674407370955162 <= U64_MAX
  {
    AddonsDirIdReadsSuffix("addon_", 1844674407370955162);
  }

  /**
   * `str::parse::<u64>` on a cache-directory name: one optional `+`, then at
   * least one digit and nothing else, with a value that fits in a `u64`.
   */
  function ParseU64(s: string): Option<nat>
  {
    var digits := if |s| > 0 && s[0] == '+' then s[1..] else s;
    if digits == [] || !AllDigits(digits) then None
    else
      var v := DecimalValue(digits);
      if v > U64_MAX then None else Some(v)
  }

  /** Every `u64` written in decimal, with or without a leading `+`, parses back to itself; nothing else parses to it. */
  lemma ParseU64RoundTrip(n: nat)
    requires n <= U64_MAX
    ensures ParseU64(Decimal(n)) == Some(n)
    ensures ParseU64("+" + Decimal(n)) == Some(n)
  {
    DecimalRoundTrip(n);
    assert ("+" + Decimal(n))[1..] == Decimal(n);
  }

  /** What parses is within `u64` and spelled by the digits after an optional `+`. */
  lemma ParseU64Sound(s: string)
    ensures ParseU64(s).Some? ==>
      ParseU64(s).value <= U64_MAX && |s| > 0 &&
      exists k :: 0 <= k <= 1 && k < |s| && (k == 1 ==> s[0] == '+') && AllDigits(s[k..]) && DecimalValue(s[k..]) == ParseU64(s).value
  {
    if ParseU64(s).Some? {
      if s[0] == '+' {
        assert AllDigits(s[1..]);
      } else {
        assert s[0..] == s;
      }
    }
  }

  // ---------------------------------------------------------------------------
  // The two scanning threads

  /** What a scanning thread sends down the channel: a path and the id found in its name. */
  datatype Sent = Sent(path: string, id: Option<nat>)

  /** The message the addons directory sends for one entry: none unless it is a `.gma` file whose trailing id does not overflow. */
  function AddonsDirMessage(entry: Option<DirEntry>): Option<Sent>
  {
    match GmaCheck(entry)
    case None => None
    case Some((path, stem)) =>
      match AddonsDirId(stem)
      case None => None
      case Some(id) => Some(Sent(path, id))
  }

  /** The message the cache directory sends for one entry: one per `.gma` file, with an id when its whole name parses. */
  function CacheDirMessage(entry: Option<DirEntry>): Option<Sent>
  {
    match GmaCheck(entry)
    case None => None
    case Some((path, stem)) => Some(Sent(path, ParseU64(stem)))
  }

  function Sends(m: Option<Sent>): seq<Sent>
  {
    if m.None? then [] else [m.value]
  }

  /** The addons directory's messages, in directory order. */
  function AddonsDirMessages(entries: seq<Option<DirEntry>>): seq<Sent>
  {
    if entries == [] then []
    else AddonsDirMessages(entries[..|entries| - 1]) + Sends(AddonsDirMessage(entries[|entries| - 1]))
  }

  /** The cache directory's messages, in directory order. */
  function CacheDirMessages(entries: seq<Option<DirEntry>>): seq<Sent>
  {
    if entries == [] then []
    else CacheDirMessages(entries[..|entries| - 1]) + Sends(CacheDirMessage(entries[|entries| - 1]))
  }

  /** One iteration of the addons-directory thread. */
  method AddonsDirStep(entry: Option<DirEntry>) returns (m: Option<Sent>)
    ensures m == AddonsDirMessage(entry)
  {
    var checked := GmaCheck(entry);
    if checked.None? {
      return None;
    }
    var (path, stem) := checked.value;
    var id := ParseAddonsDirId(stem);
    m := if id.Some? then Some(Sent(path, id.value)) else None;
  }

  /** The addons-directory thread; a directory that cannot be read sends nothing. */
  method ScanAddonsDir(dir: Option<seq<Option<DirEntry>>>) returns (sent: seq<Sent>)
    ensures sent == if dir.None? then [] else AddonsDirMessages(dir.value)
  {
    if dir.None? {
      return [];
    }
    var entries := dir.value;
    sent := [];
    var i := 0;
    while i < |entries|
      invariant i <= |entries|
      invariant sent == AddonsDirMessages(entries[..i])
    {
      assert entries[..i + 1][..i] == entries[..i];
      var m := AddonsDirStep(entries[i]);
      if m.Some? {
        sent := sent + [m.value];
      }
      i := i + 1;
    }
    assert entries[..i] == entries;
  }

  /** The cache-directory thread; a directory that cannot be read sends nothing. */
  method ScanCacheDir(dir: Option<seq<Option<DirEntry>>>) returns (sent: seq<Sent>)
    ensures sent == if dir.None? then [] else CacheDirMessages(dir.value)
  {
    if dir.None? {
      return [];
    }
    var entries := dir.value;
    sent := [];
    var i := 0;
    while i < |entries|
      invariant i <= |entries|
      invariant sent == CacheDirMessages(entries[..i])
    {
      assert entries[..i + 1][..i] == entries[..i];
      var checked := GmaCheck(entries[i]);
      if checked.Some? {
        var (path, stem) := checked.value;
        sent := sent + [Sent(path, ParseU64(stem))];
      }
      i := i + 1;
    }
    assert entries[..i] == entries;
  }

  /** `m` is a message the addons directory may send for one of `entries`. */
  ghost predicate SentFor(m: Sent, entries: seq<Option<DirEntry>>)
  {
    (m.id.Some? ==> 0 < m.id.value && m.id.value * 10 <= U64_MAX) &&
    exists e :: e in entries && e.Some? && e.value.path == m.path && e.value.isFile && GmaName(e.value.name)
  }

  /** A message for one entry names a readable `.gma` file and carries a positive id that ten times still fits. */
  lemma AddonsDirMessageSound(entry: Option<DirEntry>)
    requires AddonsDirMessage(entry).Some?
    ensures SentFor(AddonsDirMessage(entry).value, [entry])
  {
    GmaCheckAccepts(entry);
    assert entry in [entry];
  }

  /** Every message the addons directory sends is for a `.gma` file it holds, with a positive id if any. */
  lemma {:induction false} AddonsDirMessagesSound(entries: seq<Option<DirEntry>>)
    ensures |AddonsDirMessages(entries)| <= |entries|
    ensures forall m :: m in AddonsDirMessages(entries) ==> SentFor(m, entries)
  {
    if entries != [] {
      var init := entries[..|entries| - 1];
      var last := entries[|entries| - 1];
      AddonsDirMessagesSound(init);
      forall m | m in AddonsDirMessages(entries)
        ensures SentFor(m, entries)
      {
        if m in AddonsDirMessages(init) {
          SentForMore(m, init, entries);
        } else {
          AddonsDirMessageSound(last);
          SentForMore(m, [last], entries);
        }
      }
    }
  }

  /** A message for some entries is one for any sequence holding them all. */
  lemma SentForMore(m: Sent, some: seq<Option<DirEntry>>, entries: seq<Option<DirEntry>>)
    requires SentFor(m, some) && forall e :: e in some ==> e in entries
    ensures SentFor(m, entries)
  {
  }

  /** The channel's receiving order: the two threads' messages interleaved as `schedule` says (`true` takes from the first). */
  function Interleave(a: seq<Sent>, b: seq<Sent>, schedule: seq<bool>): seq<Sent>
    decreases |a| + |b|
  {
    if a == [] then b
    else if b == [] then a
    else if schedule != [] && !schedule[0] then [b[0]] + Interleave(a, b[1..], schedule[1..])
    else [a[0]] + Interleave(a[1..], b, if schedule == [] then [] else schedule[1..])
  }

  /** Whatever the schedule, every message of both threads is received exactly once. */
  lemma {:induction false} InterleaveKeepsAll(a: seq<Sent>, b: seq<Sent>, schedule: seq<bool>)
    ensures multiset(Interleave(a, b, schedule)) == multiset(a) + multiset(b)
    decreases |a| + |b|
  {
    if a == [] || b == [] {
    } else if schedule != [] && !schedule[0] {
      InterleaveKeepsAll(a, b[1..], schedule[1..]);
      TakeFirst(b[0], b[1..], Interleave(a, b[1..], schedule[1..]), multiset(a));
      assert b == [b[0]] + b[1..];
    } else {
      var next := if schedule == [] then [] else schedule[1..];
      InterleaveKeepsAll(a[1..], b, next);
      TakeFirst(a[0], a[1..], Interleave(a[1..], b, next), multiset(b));
      assert a == [a[0]] + a[1..];
    }
  }

  /** Receiving `x` first and then the rest keeps `x` counted. */
  lemma TakeFirst(x: Sent, xs: seq<Sent>, rest: seq<Sent>, other: multiset<Sent>)
    requires multiset(rest) == multiset(xs) + other
    ensures multiset([x] + rest) == multiset([x] + xs) + other
  {
  }

  // ---------------------------------------------------------------------------
  // Collecting the addons

  /** What the file system answers for a path: whether `GMAFile::open` succeeds, the id it reads itself, and the modification time. */
  datatype FileFacts = FileFacts(opens: bool, ownId: Option<nat>, modified: Option<nat>)

  /** An opened GMA file: its path, its workshop id and its modification time. */
  datatype Addon = Addon(path: string, id: Option<nat>, modified: Option<nat>)

  /** The file a message leads to, after `set_ws_id` when the name gave an id. */
  function Opened(m: Sent, facts: FileFacts): Addon
  {
    Addon(m.path, if m.id.Some? then m.id else facts.ownId, facts.modified)
  }

  /** The files among `arrived` that open. */
  function OpenedAll(arrived: seq<Sent>, disk: string -> FileFacts): seq<Addon>
  {
    if arrived == [] then []
    else
      var before := OpenedAll(arrived[..|arrived| - 1], disk);
      var m := arrived[|arrived| - 1];
      if disk(m.path).opens then before + [Opened(m, disk(m.path))] else before
  }

  /** `Option<SystemTime>` ordered as Rust orders it: no time before any time. */
  function TimeKey(modified: Option<nat>): int
  {
    if modified.None? then -1 else modified.value
  }

  function Keys(list: seq<Addon>): (keys: seq<int>)
    ensures |keys| == |list| && forall i :: 0 <= i < |list| ==> keys[i] == TimeKey(list[i].modified)
  {
    seq(|list|, i requires 0 <= i < |list| => TimeKey(list[i].modified))
  }

  predicate ByModified(list: seq<Addon>)
  {
    Sorted(Keys(list))
  }

  /** Inserting an addon where its key falls keeps the list in order. */
  lemma InsertByModified(list: seq<Addon>, pos: nat, a: Addon)
    requires ByModified(list) && pos <= |list|
    requires forall i :: 0 <= i < pos ==> Keys(list)[i] <= TimeKey(a.modified)
    requires forall i :: pos <= i < |list| ==> TimeKey(a.modified) <= Keys(list)[i]
    ensures ByModified(list[..pos] + [a] + list[pos..])
    ensures multiset(list[..pos] + [a] + list[pos..]) == multiset(list) + multiset{a}
  {
    var keys := Keys(list);
    InsertBetweenKeepsSorted(keys, pos, TimeKey(a.modified));
    assert Keys(list[..pos] + [a] + list[pos..]) == keys[..pos] + [TimeKey(a.modified)] + keys[pos..];
    assert list == list[..pos] + list[pos..];
  }

  lemma OpenedAllSnoc(arrived: seq<Sent>, i: nat, disk: string -> FileFacts)
    requires i < |arrived|
    ensures multiset(OpenedAll(arrived[..i + 1], disk)) ==
      multiset(OpenedAll(arrived[..i], disk)) +
      (if disk(arrived[i].path).opens then multiset{Opened(arrived[i], disk(arrived[i].path))} else multiset{})
  {
    assert arrived[..i + 1][..i] == arrived[..i];
  }

  /**
   * The receiving loop: open each file, give it the id from its name, and
   * insert it at the position `binary_search_by_key` finds for its
   * modification time.
   */
  method Collect(arrived: seq<Sent>, disk: string -> FileFacts) returns (list: seq<Addon>)
    ensures ByModified(list)
    ensures multiset(list) == multiset(OpenedAll(arrived, disk))
  {
    list := [];
    var i := 0;
    while i < |arrived|
      invariant i <= |arrived|
      invariant ByModified(list)
      invariant multiset(list) == multiset(OpenedAll(arrived[..i], disk))
    {
      OpenedAllSnoc(arrived, i, disk);
      var m := arrived[i];
      var facts := disk(m.path);
      if facts.opens {
        list := InsertByTime(list, Opened(m, facts));
      }
      i := i + 1;
    }
    assert arrived[..i] == arrived;
  }

  /** `binary_search_by_key` on the modification time, then `insert` at the position found. */
  method InsertByTime(list: seq<Addon>, addon: Addon) returns (r: seq<Addon>)
    requires ByModified(list)
    ensures ByModified(r) && multiset(r) == multiset(list) + multiset{addon}
  {
    var found := BinarySearch(Keys(list), TimeKey(addon.modified));
    var pos := if found.Found? then found.pos else found.insertAt;
    InsertByModified(list, pos, addon);
    r := list[..pos] + [addon] + list[pos..];
  }

  // ---------------------------------------------------------------------------
  // The index by path

  function Paths(list: seq<Addon>): set<string>
  {
    set a | a in list :: a.path
  }

  predicate UniquePaths(list: seq<Addon>)
  {
    forall i, j :: 0 <= i < j < |list| ==> list[i].path != list[j].path
  }

  /** Where `path` sits in the map: its entry's position, or the length when it is absent. */
  function PathPos(m: seq<Addon>, path: string): (j: nat)
    ensures j <= |m| && (forall k :: 0 <= k < j ==> m[k].path != path) && (j < |m| ==> m[j].path == path)
  {
    if m == [] || m[0].path == path then 0 else 1 + PathPos(m[1..], path)
  }

  /** `IndexMap::insert`: a path already present keeps its place and takes the new value; a new one goes last. */
  function IndexInsert(m: seq<Addon>, a: Addon): seq<Addon>
  {
    var j := PathPos(m, a.path);
    if j == |m| then m + [a] else m[j := a]
  }

  /** The map built by inserting `list` in order. */
  function IndexAll(list: seq<Addon>): seq<Addon>
  {
    if list == [] then [] else IndexInsert(IndexAll(list[..|list| - 1]), list[|list| - 1])
  }

  lemma IndexInsertFacts(m: seq<Addon>, a: Addon)
    requires UniquePaths(m)
    ensures UniquePaths(IndexInsert(m, a))
    ensures Paths(IndexInsert(m, a)) == Paths(m) + {a.path}
    ensures a.path !in Paths(m) ==> IndexInsert(m, a) == m + [a]
  {
    var j := PathPos(m, a.path);
    var r := IndexInsert(m, a);
    if j == |m| {
      assert a.path !in Paths(m);
      assert forall x :: x in r <==> x in m || x == a;
    } else {
      assert a.path in Paths(m);
      forall p | p in Paths(r)
        ensures p in Paths(m)
      {
        var x :| x in r && x.path == p;
        var k :| 0 <= k < |r| && r[k] == x;
        assert k == j || r[k] == m[k];
      }
      forall p | p in Paths(m)
        ensures p in Paths(r)
      {
        var x :| x in m && x.path == p;
        var k :| 0 <= k < |m| && m[k] == x;
        assert k == j ==> r[k].path == p;
        assert k != j ==> r[k] == m[k];
      }
    }
  }

  /** The map holds each path of the list once; with distinct paths it is the list itself, in order. */
  lemma {:induction false} IndexAllFacts(list: seq<Addon>)
    ensures UniquePaths(IndexAll(list)) && Paths(IndexAll(list)) == Paths(list)
    ensures UniquePaths(list) ==> IndexAll(list) == list
  {
    if list != [] {
      var init := list[..|list| - 1];
      var a := list[|list| - 1];
      assert list == init + [a];
      IndexAllFacts(init);
      IndexInsertFacts(IndexAll(init), a);
      PathsSnoc(init, a);
      if UniquePaths(list) {
        UniqueSnoc(init, a);
      }
    }
  }

  lemma PathsSnoc(init: seq<Addon>, a: Addon)
    ensures Paths(init + [a]) == Paths(init) + {a.path}
  {
    assert forall x :: x in init + [a] <==> x in init || x == a;
  }

  lemma UniqueSnoc(init: seq<Addon>, a: Addon)
    requires UniquePaths(init + [a])
    ensures UniquePaths(init) && a.path !in Paths(init)
  {
    var list := init + [a];
    assert forall i :: 0 <= i < |init| ==> init[i] == list[i];
    forall x | x in init
      ensures x.path != a.path
    {
      var k :| 0 <= k < |init| && init[k] == x;
      assert list[k] == x && list[|init|] == a;
    }
  }

  /** Filling the `IndexMap` from the collected list. */
  method BuildIndex(list: seq<Addon>) returns (m: seq<Addon>)
    ensures m == IndexAll(list)
  {
    m := [];
    var i := 0;
    while i < |list|
      invariant i <= |list|
      invariant m == IndexAll(list[..i])
    {
      assert list[..i + 1][..i] == list[..i];
      m := Insert(m, list[i]);
      i := i + 1;
    }
    assert list[..i] == list;
  }

  /** One `IndexMap::insert`, looking the path up among the entries. */
  method Insert(m: seq<Addon>, a: Addon) returns (r: seq<Addon>)
    ensures r == IndexInsert(m, a)
  {
    var j := 0;
    while j < |m| && m[j].path != a.path
      invariant j <= |m|
      invariant forall k :: 0 <= k < j ==> m[k].path != a.path
    {
      j := j + 1;
    }
    assert j == PathPos(m, a.path);
    if j == |m| {
      r := m + [a];
    } else {
      r := m[j := a];
    }
  }

  /** The files that open, among the messages of both threads in the order they arrive. */
  function Arrivals(addonsDir: Option<seq<Option<DirEntry>>>, cacheDir: Option<seq<Option<DirEntry>>>,
                    schedule: seq<bool>, disk: string -> FileFacts): seq<Addon>
  {
    OpenedAll(Interleave(if addonsDir.None? then [] else AddonsDirMessages(addonsDir.value),
                         if cacheDir.None? then [] else CacheDirMessages(cacheDir.value), schedule), disk)
  }

  /**
   * What a discovery leaves in the map: every path that arrived and opened,
   * once; with distinct paths, exactly the files that opened, ordered by
   * modification time.
   */
  ghost predicate Discovered(addonsDir: Option<seq<Option<DirEntry>>>, cacheDir: Option<seq<Option<DirEntry>>>,
                             schedule: seq<bool>, disk: string -> FileFacts, m: seq<Addon>)
  {
    var kept := Arrivals(addonsDir, cacheDir, schedule, disk);
    UniquePaths(m) && Paths(m) == Paths(kept) &&
    (UniquePaths(kept) ==> ByModified(m) && multiset(m) == multiset(kept))
  }

  /** The body of `discover_addons` once the game directory is known. */
  method Discover(addonsDir: Option<seq<Option<DirEntry>>>, cacheDir: Option<seq<Option<DirEntry>>>,
                  schedule: seq<bool>, disk: string -> FileFacts) returns (m: seq<Addon>)
    ensures Discovered(addonsDir, cacheDir, schedule, disk, m)
  {
    var fromAddons := ScanAddonsDir(addonsDir);
    var fromCache := ScanCacheDir(cacheDir);
    var list := Collect(Interleave(fromAddons, fromCache, schedule), disk);
    m := BuildIndex(list);
    IndexOfCollected(list, Arrivals(addonsDir, cacheDir, schedule, disk));
  }

  /** Indexing a list collected from `kept` by path gives the facts `Discovered` states. */
  lemma IndexOfCollected(list: seq<Addon>, kept: seq<Addon>)
    requires ByModified(list) && multiset(list) == multiset(kept)
    ensures UniquePaths(IndexAll(list)) && Paths(IndexAll(list)) == Paths(kept)
    ensures UniquePaths(kept) ==> ByModified(IndexAll(list)) && multiset(IndexAll(list)) == multiset(kept)
  {
    IndexAllFacts(list);
    assert Paths(list) == Paths(kept) by {
      assert forall a :: a in list <==> a in multiset(list);
      assert forall a :: a in kept <==> a in multiset(kept);
    }
    if UniquePaths(kept) {
      UniqueUnderPermutation(kept, list);
    }
  }

  /** The installed addons as the game sees them, keyed by path in the order they were collected. */
  class GameAddonsList {
    var addons: seq<Addon>

    constructor()
      ensures addons == []
    {
      addons := [];
    }

    /**
     * `discover_addons`: with no game directory the list is emptied;
     * otherwise both directories are scanned, the messages received in the
     * order `schedule` picks, and the files that open are collected by
     * modification time and indexed by path.
     */
    method DiscoverAddons(gmod: bool, addonsDir: Option<seq<Option<DirEntry>>>, cacheDir: Option<seq<Option<DirEntry>>>,
                          schedule: seq<bool>, disk: string -> FileFacts)
      modifies this
      ensures !gmod ==> addons == []
      ensures gmod ==> Discovered(addonsDir, cacheDir, schedule, disk, addons)
    {
      if !gmod {
        addons := [];
        return;
      }
      addons := Discover(addonsDir, cacheDir, schedule, disk);
    }

    /** `addon(path)`: the file indexed under `path`. */
    function Lookup(path: string): (r: Option<Addon>)
      reads this
      ensures r.Some? ==> r.value in addons && r.value.path == path
      ensures r.None? ==> path !in Paths(addons)
    {
      FindPath(addons, path)
    }
  }

  function FindPath(m: seq<Addon>, path: string): (r: Option<Addon>)
    ensures r.Some? ==> r.value in m && r.value.path == path
    ensures r.None? ==> path !in Paths(m)
  {
    if m == [] then None
    else if m[0].path == path then Some(m[0])
    else
      assert Paths(m) == {m[0].path} + Paths(m[1..]) by { assert m == [m[0]] + m[1..]; }
      FindPath(m[1..], path)
  }

  /** Distinct paths stay distinct in any rearrangement of the same addons. */
  lemma UniqueUnderPermutation(a: seq<Addon>, b: seq<Addon>)
    requires UniquePaths(a) && multiset(a) == multiset(b)
    ensures UniquePaths(b)
  {
    forall i, j | 0 <= i < j < |b|
      ensures b[i].path != b[j].path
    {
      if b[i].path == b[j].path {
        assert b[i] in multiset(a) && b[j] in multiset(a);
        var x :| 0 <= x < |a| && a[x] == b[i];
        var y :| 0 <= y < |a| && a[y] == b[j];
        if x != y {
          assert false;
        } else {
          TwoOccurrences(b, i, j);
          SingleOccurrence(a, x);
          assert false;
        }
      }
    }
  }

  lemma TwoOccurrences(b: seq<Addon>, i: nat, j: nat)
    requires i < j < |b|
    ensures multiset(b)[b[i]] >= 1 + (if b[j] == b[i] then 1 else 0)
  {
    assert b == b[..i] + [b[i]] + b[i + 1..j] + [b[j]] + b[j + 1..];
  }

  /** With distinct paths, an addon occurs in the list at most once. */
  lemma SingleOccurrence(a: seq<Addon>, x: nat)
    requires UniquePaths(a) && x < |a|
    ensures multiset(a)[a[x]] == 1
  {
    assert a == a[..x] + [a[x]] + a[x + 1..];
    assert a[x] !in a[..x] && a[x] !in a[x + 1..];
  }
}
