/**
 * The search index (`search.rs`): one `SearchItem` per installed or
 * published addon, kept in rank order (newest first, then longest first),
 * and the installed addons with a workshop id kept by id. The rank order is
 * the one the items' `Ord` is meant to give; the `Ord` as written compares
 * the two comparisons with each other, is not transitive, and is modelled
 * separately (`CmpAsWritten`, `AddAsWritten`). `add` inserts by binary
 * search while the index is clean; `add_bulk` appends and marks it dirty,
 * and `dirty()` sorts and deduplicates before a query. `quick` returns the
 * ten first items that match, best score first. Lengths are UTF-8 byte
 * lengths, as `str::len` gives them.
 */
module SearchIndex {
  import opened Wrappers
  import opened SortedSearch
  import opened PathText
  import opened Sorting
  import Utf8

  const MAX_QUICK_RESULTS: nat := 10

  /** `SearchItemSource`: what an item stands for. */
  datatype ItemSource =
    | InstalledAddons(path: string, id: Option<nat>)
    | MyWorkshop(workshopId: nat)
    | WorkshopItem(workshopId: nat)

  /** `len` is the byte length of the longest of the caption (the source's `label`) and the terms. */
  datatype SearchItem = SearchItem(caption: string, terms: seq<string>, timestamp: nat, len: nat, source: ItemSource)

  // ---------------------------------------------------------------------------
  // Building an item

  function ByLength(t: string): Key
  {
    Key(Utf8.ByteLength(t), 0)
  }

  /** The byte length of the longest string, 0 for none. */
  function MaxLength(terms: seq<string>): (m: nat)
    ensures forall t :: t in terms ==> Utf8.ByteLength(t) <= m
    ensures terms == [] ==> m == 0
    ensures terms != [] ==> exists t :: t in terms && Utf8.ByteLength(t) == m
  {
    if terms == [] then 0
    else
      var init, last := terms[..|terms| - 1], terms[|terms| - 1];
      assert terms == init + [last];
      var m := MaxLength(init);
      if Utf8.ByteLength(last) > m then Utf8.ByteLength(last) else m
  }

  /** `len` bounds the caption and every term, so an item shorter than the query has nothing that can match. */
  predicate Covers(item: SearchItem)
  {
    Utf8.ByteLength(item.caption) <= item.len && forall t :: t in item.terms ==> Utf8.ByteLength(t) <= item.len
  }

  /** `SearchItem::new`: the terms sorted by byte length, shortest first, and `len` the longest byte length. */
  function NewItem(source: ItemSource, caption: string, terms: seq<string>, timestamp: nat): (r: SearchItem)
    ensures r.caption == caption && r.source == source && r.timestamp == timestamp
    ensures SortedBy(r.terms, ByLength) && multiset(r.terms) == multiset(terms)
    ensures Covers(r) && (r.len == Utf8.ByteLength(caption) || exists t :: t in terms && Utf8.ByteLength(t) == r.len)
  {
    var sorted := SortBy(terms, ByLength);
    assert forall t :: t in sorted <==> t in terms by {
      assert forall t :: t in sorted <==> t in multiset(sorted);
    }
    var longest := MaxLength(sorted);
    SearchItem(caption, sorted, timestamp, if longest > Utf8.ByteLength(caption) then longest else Utf8.ByteLength(caption), source)
  }

  // ---------------------------------------------------------------------------
  // What the index is given

  datatype Metadata = Metadata(title: string, tags: Option<seq<string>>, addonType: Option<string>)

  /** An installed `.gma`; `canonical` is what canonicalising its path gives, if that succeeds. */
  datatype GmaFile = GmaFile(path: string, canonical: Option<string>, id: Option<nat>, metadata: Option<Metadata>,
                             extractedName: string, modified: Option<nat>)

  /** The owner's 64-bit id and its `STEAM_0:…` rendering. */
  datatype SteamId = SteamId(raw: nat, steamId32: string)

  datatype WorkshopEntry = WorkshopEntry(id: nat, title: string, tags: seq<string>, owner: Option<SteamId>, timeUpdated: nat)

  datatype Addon = Installed(file: GmaFile) | Workshop(item: WorkshopEntry)

  /** `GMAFile::search_item`: the title and the tags plus the addon type, or else the extracted name without terms. */
  function GmaSearchItem(f: GmaFile): Option<SearchItem>
  {
    var source := InstalledAddons(if f.canonical.Some? then f.canonical.value else f.path, f.id);
    var timestamp := if f.modified.Some? then f.modified.value else 0;
    match f.metadata
    case Some(md) =>
      var tags := if md.tags.Some? then md.tags.value else [];
      var terms := tags + if md.addonType.Some? then [md.addonType.value] else [];
      Some(NewItem(source, md.title, terms, timestamp))
    case None =>
      if f.extractedName != [] then Some(NewItem(source, f.extractedName, [], timestamp)) else None
  }

  /** `WorkshopItem::search_item`: the title, the tags and the owner's two ids. */
  function WorkshopSearchItem(w: WorkshopEntry): SearchItem
  {
    var ids := if w.owner.Some? then [Decimal(w.owner.value.raw), w.owner.value.steamId32] else [];
    NewItem(MyWorkshop(w.id), w.title, w.tags + ids, w.timeUpdated)
  }

  function SearchItemOf(a: Addon): (r: Option<SearchItem>)
    ensures r.Some? ==> !r.value.source.WorkshopItem? && Covers(r.value)
    ensures r.None? <==> a.Installed? && a.file.metadata.None? && a.file.extractedName == []
    ensures a.Installed? && r.Some? ==>
      r.value.source.InstalledAddons? && r.value.source.id == a.file.id &&
      r.value.caption == (if a.file.metadata.Some? then a.file.metadata.value.title else a.file.extractedName)
    ensures a.Workshop? ==> r.Some? && r.value.source == MyWorkshop(a.item.id) && r.value.caption == a.item.title
  {
    match a
    case Installed(f) => GmaSearchItem(f)
    case Workshop(w) => Some(WorkshopSearchItem(w))
  }

  /** `filter_map(search_item)` over a batch. */
  function SearchItems(addons: seq<Addon>): (r: seq<SearchItem>)
    ensures |r| <= |addons|
    ensures forall x :: x in r ==> !x.source.WorkshopItem? && Covers(x)
  {
    if addons == [] then []
    else
      var last := SearchItemOf(addons[|addons| - 1]);
      SearchItems(addons[..|addons| - 1]) + if last.Some? then [last.value] else []
  }

  /** An installed addon that carries a workshop id: the ones `installed_addons` holds. */
  predicate HasId(x: SearchItem)
  {
    x.source.InstalledAddons? && x.source.id.Some?
  }

  function WithIds(s: seq<SearchItem>): (r: seq<SearchItem>)
    ensures forall x :: x in r <==> x in s && HasId(x)
  {
    if s == [] then []
    else WithIds(s[..|s| - 1]) + if HasId(s[|s| - 1]) then [s[|s| - 1]] else []
  }

  // ---------------------------------------------------------------------------
  // Equality and order of items

  /**
   * `PartialEq`: the same install path, or the same published id. A
   * `WorkshopItem` source on the left is `unreachable!()` in the source; no
   * item the index builds has one.
   */
  predicate SameItem(a: SearchItem, b: SearchItem)
  {
    match a.source
    case InstalledAddons(p, _) => b.source.InstalledAddons? && b.source.path == p
    case MyWorkshop(id) => b.source.MyWorkshop? && b.source.workshopId == id
    case WorkshopItem(_) => false
  }

  /** On the items the index holds, `SameItem` is an equivalence. */
  lemma SameItemEquivalence(a: SearchItem, b: SearchItem, c: SearchItem)
    requires !a.source.WorkshopItem? && !b.source.WorkshopItem?
    ensures SameItem(a, a)
    ensures SameItem(a, b) ==> SameItem(b, a)
    ensures SameItem(a, b) && SameItem(b, c) ==> SameItem(a, c)
  {
  }

  datatype Ordering = Less | Equal | Greater

  function Compare(a: int, b: int): Ordering
  {
    if a < b then Less else if a == b then Equal else Greater
  }

  function Reverse(o: Ordering): Ordering
  {
    match o
    case Less => Greater
    case Equal => Equal
    case Greater => Less
  }

  /** `Ordering`'s own order: `Less < Equal < Greater`. */
  function OrderingRank(o: Ordering): int
  {
    match o
    case Less => -1
    case Equal => 0
    case Greater => 1
  }

  /** `Ord for SearchItem` as written: the two reversed comparisons are compared with each other. */
  function CmpAsWritten(x: SearchItem, y: SearchItem): Ordering
  {
    Compare(OrderingRank(Reverse(Compare(x.timestamp, y.timestamp))), OrderingRank(Reverse(Compare(x.len, y.len))))
  }

  /** Items that differ in both fields, in the same direction, compare equal. */
  lemma CmpAsWrittenNotTransitive()
    ensures var x := SearchItem("x", [], 0, 0, MyWorkshop(1));
            var y := SearchItem("y", [], 1, 5, MyWorkshop(2));
            var w := SearchItem("w", [], 0, 1, MyWorkshop(3));
            CmpAsWritten(x, y) == Equal && CmpAsWritten(y, w) == Equal && CmpAsWritten(x, w) == Less
  {
  }

  /** The intended order: newer first, then longer first (`cmp1.then(cmp2)`). */
  function Cmp(x: SearchItem, y: SearchItem): Ordering
  {
    var byTime := Reverse(Compare(x.timestamp, y.timestamp));
    if byTime != Equal then byTime else Reverse(Compare(x.len, y.len))
  }

  /** The sort key `Cmp` compares by. */
  function RankKey(x: SearchItem): Key
  {
    Key(-(x.timestamp as int), -(x.len as int))
  }

  /** `Cmp` is the lexicographic order of the keys, so it is a total order on (timestamp, length). */
  lemma CmpIsKeyOrder(x: SearchItem, y: SearchItem, z: SearchItem)
    ensures Cmp(x, y) != Greater <==> KeyLe(RankKey(x), RankKey(y))
    ensures Cmp(x, y) == Equal <==> x.timestamp == y.timestamp && x.len == y.len
    ensures Cmp(y, x) == Reverse(Cmp(x, y))
    ensures Cmp(x, y) != Greater && Cmp(y, z) != Greater ==> Cmp(x, z) != Greater
  {
  }

  // ---------------------------------------------------------------------------
  // Insertion while the index is clean

  /** `binary_search` by `Cmp`: a position the item compares equal to, or where it would go. */
  method BinarySearchRank(items: seq<SearchItem>, x: SearchItem) returns (r: SearchResult)
    requires SortedBy(items, RankKey)
    ensures r.Found? ==> r.pos < |items| && RankKey(items[r.pos]) == RankKey(x)
    ensures r.NotFound? ==>
      r.insertAt <= |items| &&
      (forall i :: 0 <= i < r.insertAt ==> KeyLe(RankKey(items[i]), RankKey(x)) && RankKey(items[i]) != RankKey(x)) &&
      (forall i :: r.insertAt <= i < |items| ==> KeyLe(RankKey(x), RankKey(items[i])) && RankKey(items[i]) != RankKey(x))
  {
    var lo, hi := 0, |items|;
    while lo < hi
      invariant 0 <= lo <= hi <= |items|
      invariant forall i :: 0 <= i < lo ==> KeyLe(RankKey(items[i]), RankKey(x)) && RankKey(items[i]) != RankKey(x)
      invariant forall i :: hi <= i < |items| ==> KeyLe(RankKey(x), RankKey(items[i])) && RankKey(items[i]) != RankKey(x)
    {
      var mid := lo + (hi - lo) / 2;
      match Cmp(items[mid], x)
      case Less =>
        lo := mid + 1;
      case Greater =>
        hi := mid;
      case Equal =>
        return Found(mid);
    }
    return NotFound(lo);
  }

  /**
   * What `add` does to the clean item list: the list stays sorted, and the
   * item either replaces one with the same timestamp and length or, when
   * there is none, is added.
   */
  ghost predicate AddedByRank(items: seq<SearchItem>, x: SearchItem, r: seq<SearchItem>)
  {
    SortedBy(r, RankKey) && (forall y :: y in r ==> y in items || y == x) &&
    ((exists pos :: 0 <= pos < |items| && RankKey(items[pos]) == RankKey(x) && r == items[pos := x]) ||
     ((forall y :: y in items ==> RankKey(y) != RankKey(x)) && multiset(r) == multiset(items) + multiset{x}))
  }

  /** `binary_search` then replace at `Ok(pos)` or insert at `Err(pos)`. */
  method AddByRank(items: seq<SearchItem>, x: SearchItem) returns (r: seq<SearchItem>)
    requires SortedBy(items, RankKey)
    ensures AddedByRank(items, x, r)
  {
    var found := BinarySearchRank(items, x);
    match found
    case Found(pos) =>
      ReplaceAtRank(items, pos, x);
      r := items[pos := x];
    case NotFound(pos) =>
      InsertAtRank(items, pos, x);
      r := items[..pos] + [x] + items[pos..];
  }

  lemma ReplaceAtRank(items: seq<SearchItem>, pos: nat, x: SearchItem)
    requires SortedBy(items, RankKey) && pos < |items| && RankKey(items[pos]) == RankKey(x)
    ensures AddedByRank(items, x, items[pos := x])
  {
    var r := items[pos := x];
    assert forall i :: 0 <= i < |r| ==> RankKey(r[i]) == RankKey(items[i]);
    assert forall y :: y in r ==> y in items || y == x by {
      forall y | y in r ensures y in items || y == x {
        var i :| 0 <= i < |r| && r[i] == y;
        if i != pos {
          assert items[i] == y;
        }
      }
    }
  }

  lemma InsertAtRank(items: seq<SearchItem>, pos: nat, x: SearchItem)
    requires SortedBy(items, RankKey) && pos <= |items|
    requires forall i :: 0 <= i < pos ==> KeyLe(RankKey(items[i]), RankKey(x)) && RankKey(items[i]) != RankKey(x)
    requires forall i :: pos <= i < |items| ==> KeyLe(RankKey(x), RankKey(items[i])) && RankKey(items[i]) != RankKey(x)
    ensures AddedByRank(items, x, items[..pos] + [x] + items[pos..])
  {
    var r := items[..pos] + [x] + items[pos..];
    InsertAt(items, pos, x, RankKey);
    assert forall y :: y in items ==> RankKey(y) != RankKey(x);
    assert forall y :: y in r ==> y in items || y == x by {
      assert forall y :: y in r <==> y in multiset(r);
    }
  }

  /** The item `add` as written would store, found with `CmpAsWritten` by halving `[lo, hi)`. */
  function ProbeAsWritten(items: seq<SearchItem>, x: SearchItem, lo: nat, hi: nat): (r: SearchResult)
    requires lo <= hi <= |items|
    ensures r.Found? ==> lo <= r.pos < hi && CmpAsWritten(items[r.pos], x) == Equal
    ensures r.NotFound? ==> lo <= r.insertAt <= hi
    decreases hi - lo
  {
    if lo == hi then NotFound(lo)
    else
      var mid := lo + (hi - lo) / 2;
      match CmpAsWritten(items[mid], x)
      case Less => ProbeAsWritten(items, x, mid + 1, hi)
      case Greater => ProbeAsWritten(items, x, lo, mid)
      case Equal => Found(mid)
  }

  /** `add` on a clean index with the `Ord` as written. */
  function AddAsWritten(items: seq<SearchItem>, x: SearchItem): seq<SearchItem>
  {
    match ProbeAsWritten(items, x, 0, |items|)
    case Found(pos) => items[pos := x]
    case NotFound(pos) => items[..pos] + [x] + items[pos..]
  }

  /**
   * With the `Ord` as written, adding a newer and longer item to a one-item
   * index overwrites the item there, although the two differ in timestamp,
   * length and source; with `Cmp` both are kept.
   */
  lemma AddAsWrittenLosesItem()
    ensures var a := SearchItem("a", [], 0, 1, MyWorkshop(1));
            var b := SearchItem("bbbbb", [], 1, 5, MyWorkshop(2));
            AddAsWritten([a], b) == [b] && !SameItem(a, b) && RankKey(a) != RankKey(b)
  {
  }

  /** The installed addons' ids; anything without one is `-1`, below every id, as `None` sorts before `Some`. */
  function IdOf(x: SearchItem): int
  {
    if HasId(x) then x.source.id.value else -1
  }

  function Ids(s: seq<SearchItem>): (ids: seq<int>)
    ensures |ids| == |s| && forall i :: 0 <= i < |s| ==> ids[i] == IdOf(s[i])
  {
    seq(|s|, i requires 0 <= i < |s| => IdOf(s[i]))
  }

  /** What `add` does to the clean installed-addon list: ids stay strictly increasing; an equal id is replaced, a new one inserted. */
  ghost predicate AddedById(installed: seq<SearchItem>, x: SearchItem, r: seq<SearchItem>)
  {
    StrictlySorted(Ids(r)) && (forall y :: y in r ==> y in installed || y == x) &&
    ((exists pos :: 0 <= pos < |installed| && IdOf(installed[pos]) == IdOf(x) && r == installed[pos := x]) ||
     (IdOf(x) !in Ids(installed) && multiset(r) == multiset(installed) + multiset{x}))
  }

  /** `binary_search_by` on the id, then replace or insert. */
  method AddById(installed: seq<SearchItem>, x: SearchItem) returns (r: seq<SearchItem>)
    requires StrictlySorted(Ids(installed))
    ensures AddedById(installed, x, r)
  {
    var found := BinarySearch(Ids(installed), IdOf(x));
    match found
    case Found(pos) =>
      ReplaceAtId(installed, pos, x);
      r := installed[pos := x];
    case NotFound(pos) =>
      InsertAtId(installed, pos, x);
      r := installed[..pos] + [x] + installed[pos..];
  }

  lemma ReplaceAtId(installed: seq<SearchItem>, pos: nat, x: SearchItem)
    requires StrictlySorted(Ids(installed)) && pos < |installed| && IdOf(installed[pos]) == IdOf(x)
    ensures AddedById(installed, x, installed[pos := x])
  {
    var r := installed[pos := x];
    assert Ids(r) == Ids(installed);
    assert forall y :: y in r ==> y in installed || y == x by {
      forall y | y in r ensures y in installed || y == x {
        var i :| 0 <= i < |r| && r[i] == y;
        if i != pos {
          assert installed[i] == y;
        }
      }
    }
  }

  lemma InsertAtId(installed: seq<SearchItem>, pos: nat, x: SearchItem)
    requires StrictlySorted(Ids(installed)) && pos <= |installed| && IdOf(x) !in Ids(installed)
    requires forall i :: 0 <= i < pos ==> Ids(installed)[i] < IdOf(x)
    requires forall i :: pos <= i < |installed| ==> IdOf(x) < Ids(installed)[i]
    ensures AddedById(installed, x, installed[..pos] + [x] + installed[pos..])
  {
    var r := installed[..pos] + [x] + installed[pos..];
    InsertKeepsSorted(Ids(installed), pos, IdOf(x));
    assert Ids(r) == Ids(installed)[..pos] + [IdOf(x)] + Ids(installed)[pos..];
    assert installed == installed[..pos] + installed[pos..];
    assert multiset(r) == multiset(installed) + multiset{x};
    assert forall y :: y in r ==> y in installed || y == x by {
      assert forall y :: y in r <==> y in multiset(r);
    }
  }

  // ---------------------------------------------------------------------------
  // Sorting and deduplicating a dirty index

  function IdKey(x: SearchItem): Key
  {
    Key(IdOf(x), 0)
  }

  /** `dedup_by` on the installed addons: the same id. */
  predicate SameId(a: SearchItem, b: SearchItem)
  {
    a.source.InstalledAddons? && b.source.InstalledAddons? && a.source.id == b.source.id
  }

  /** `par_sort` by `Cmp`, then `dedup`. */
  function CleanItems(items: seq<SearchItem>): seq<SearchItem>
  {
    Dedup(SortBy(items, RankKey), SameItem)
  }

  /** `par_sort_by` the id, then `dedup_by` the id. */
  function CleanInstalled(installed: seq<SearchItem>): seq<SearchItem>
  {
    Dedup(SortBy(installed, IdKey), SameId)
  }

  /** Cleaning leaves the items sorted, with no two neighbours the same addon, and nothing new. */
  lemma CleanItemsSorted(items: seq<SearchItem>)
    ensures SortedBy(CleanItems(items), RankKey)
    ensures forall x :: x in CleanItems(items) ==> x in items
    ensures forall x :: x in items ==> exists y :: y in CleanItems(items) && (x == y || SameItem(x, y))
  {
    var sorted := SortBy(items, RankKey);
    DedupSorted(sorted, SameItem, RankKey);
    DedupCovers(sorted, SameItem);
    assert forall x :: x in sorted <==> x in items by {
      assert forall x :: x in sorted <==> x in multiset(sorted);
    }
  }

  /** Cleaning installed addons that all carry an id leaves their ids strictly increasing. */
  lemma CleanInstalledStrict(installed: seq<SearchItem>)
    requires forall x :: x in installed ==> HasId(x)
    ensures StrictlySorted(Ids(CleanInstalled(installed)))
    ensures forall x :: x in CleanInstalled(installed) ==> x in installed
  {
    var sorted := SortBy(installed, IdKey);
    assert forall x :: x in sorted ==> x in installed by {
      assert forall x :: x in sorted <==> x in multiset(sorted);
    }
    assert forall a, b :: a in sorted && b in sorted ==> (SameId(a, b) <==> IdKey(a) == IdKey(b));
    DedupByKeyStrict(sorted, SameId, IdKey);
    StrictIdKeys(Dedup(sorted, SameId));
  }

  lemma StrictIdKeys(r: seq<SearchItem>)
    requires StrictlySortedBy(r, IdKey)
    ensures StrictlySorted(Ids(r))
  {
    forall i, j | 0 <= i < j < |r| ensures IdOf(r[i]) < IdOf(r[j]) {
      assert KeyLe(IdKey(r[i]), IdKey(r[j])) && IdKey(r[i]) != IdKey(r[j]);
    }
  }

  // ---------------------------------------------------------------------------
  // Quick search

  /** The scores the matcher gives an item: its caption's, then its terms', each only when at least as many bytes long as the query. */
  function CaptionScore(item: SearchItem, query: string, score: (string, string) -> Option<int>): seq<int>
  {
    if Utf8.ByteLength(item.caption) >= Utf8.ByteLength(query) && score(item.caption, query).Some? then [score(item.caption, query).value] else []
  }

  /**
   * The length gates compare UTF-8 byte lengths, as `str::len` does: a
   * two-character caption in CJK script is six bytes long and so is scored
   * against a four-letter query.
   */
  lemma WideCaptionIsScored(query: string, score: (string, string) -> Option<int>)
    requires query == "abcd" && score("\U{65E5}\U{672C}", query).Some?
    ensures var item := NewItem(MyWorkshop(1), "\U{65E5}\U{672C}", [], 0);
      item.len == 6 && |item.caption| < |query| && CaptionScore(item, query, score) == [score(item.caption, query).value]
  {
    assert Utf8.ByteLength("\U{672C}") == 3;
    assert Utf8.ByteLength("\U{65E5}\U{672C}") == 6;
    Utf8.ByteLengthAscii(query);
  }

  function TermScores(terms: seq<string>, query: string, score: (string, string) -> Option<int>): seq<int>
  {
    if terms == [] then []
    else
      var t := terms[|terms| - 1];
      TermScores(terms[..|terms| - 1], query, score) +
        if Utf8.ByteLength(t) >= Utf8.ByteLength(query) && score(t, query).Some? then [score(t, query).value] else []
  }

  /** The best of some scores, if any. */
  function MaxOf(s: seq<int>): (m: Option<int>)
    ensures m.None? <==> s == []
    ensures m.Some? ==> m.value in s && forall v :: v in s ==> v <= m.value
  {
    if s == [] then None
    else
      var init, last := s[..|s| - 1], s[|s| - 1];
      assert s == init + [last];
      var m := MaxOf(init);
      if m.None? || m.value < last then Some(last) else m
  }

  function BestScore(item: SearchItem, query: string, score: (string, string) -> Option<int>): Option<int>
  {
    MaxOf(CaptionScore(item, query, score) + TermScores(item.terms, query, score))
  }

  /** Taking one more score into account: it wins when nothing has, or when it beats the best so far. */
  lemma MaxOfSnoc(s: seq<int>, v: int)
    ensures MaxOf(s + [v]) == if MaxOf(s).None? || MaxOf(s).value < v then Some(v) else MaxOf(s)
  {
    assert (s + [v])[..|s|] == s;
  }

  lemma TermScoresSnoc(terms: seq<string>, k: nat, query: string, score: (string, string) -> Option<int>)
    requires k < |terms|
    ensures TermScores(terms[..k + 1], query, score) ==
      TermScores(terms[..k], query, score) +
        if Utf8.ByteLength(terms[k]) >= Utf8.ByteLength(query) && score(terms[k], query).Some? then [score(terms[k], query).value] else []
  {
    assert terms[..k + 1][..k] == terms[..k];
  }

  lemma ConcatAssoc(a: seq<int>, b: seq<int>, c: seq<int>)
    ensures a + (b + c) == (a + b) + c
  {
  }

  /** The loop step of `BestMatch` keeps the best score among the caption and the terms seen. */
  lemma BestStep(item: SearchItem, k: nat, query: string, score: (string, string) -> Option<int>, winner: Option<int>)
    requires k < |item.terms|
    requires winner == MaxOf(CaptionScore(item, query, score) + TermScores(item.terms[..k], query, score))
    ensures var t := item.terms[k];
      MaxOf(CaptionScore(item, query, score) + TermScores(item.terms[..k + 1], query, score)) ==
        if Utf8.ByteLength(t) >= Utf8.ByteLength(query) && score(t, query).Some? && (winner.None? || winner.value < score(t, query).value)
        then score(t, query) else winner
  {
    var t := item.terms[k];
    var caption, seen := CaptionScore(item, query, score), TermScores(item.terms[..k], query, score);
    var next := if Utf8.ByteLength(t) >= Utf8.ByteLength(query) && score(t, query).Some? then [score(t, query).value] else [];
    TermScoresSnoc(item.terms, k, query, score);
    ConcatAssoc(caption, seen, next);
    if next != [] {
      MaxOfSnoc(caption + seen, score(t, query).value);
    } else {
      assert (caption + seen) + next == caption + seen;
    }
  }

  /** The caption, then each term: keep a score that beats the one kept so far. */
  method BestMatch(item: SearchItem, query: string, score: (string, string) -> Option<int>) returns (winner: Option<int>)
    ensures winner == BestScore(item, query, score)
  {
    winner := None;
    if Utf8.ByteLength(item.caption) >= Utf8.ByteLength(query) {
      var s := score(item.caption, query);
      if s.Some? {
        winner := s;
      }
    }
    assert CaptionScore(item, query, score) + [] == CaptionScore(item, query, score);
    var k := 0;
    while k < |item.terms|
      invariant k <= |item.terms|
      invariant winner == MaxOf(CaptionScore(item, query, score) + TermScores(item.terms[..k], query, score))
    {
      BestStep(item, k, query, score, winner);
      var t := item.terms[k];
      if Utf8.ByteLength(t) >= Utf8.ByteLength(query) {
        var s := score(t, query);
        if s.Some? && (winner.None? || winner.value < s.value) {
          winner := s;
        }
      }
      k := k + 1;
    }
    assert item.terms[..k] == item.terms;
  }

  /** An item's entry in the results: its best score, unless it is shorter than the query or nothing matches. */
  function Hit(item: SearchItem, query: string, score: (string, string) -> Option<int>): seq<(int, SearchItem)>
  {
    if item.len < Utf8.ByteLength(query) then []
    else
      match BestScore(item, query, score)
      case None => []
      case Some(v) => [(v, item)]
  }

  /** Every item that matches, with its score, in index order. */
  function Matches(items: seq<SearchItem>, query: string, score: (string, string) -> Option<int>): seq<(int, SearchItem)>
  {
    if items == [] then []
    else Matches(items[..|items| - 1], query, score) + Hit(items[|items| - 1], query, score)
  }

  /** The length check before scoring drops nothing: an item whose `len` bounds its texts and is below the query's length has no score. */
  lemma ShortItemHasNoScore(item: SearchItem, query: string, score: (string, string) -> Option<int>)
    requires Covers(item) && item.len < Utf8.ByteLength(query)
    ensures BestScore(item, query, score) == None
  {
    NoTermScores(item.terms, item.len, query, score);
  }

  lemma {:induction false} NoTermScores(terms: seq<string>, bound: nat, query: string, score: (string, string) -> Option<int>)
    requires bound < Utf8.ByteLength(query) && forall t :: t in terms ==> Utf8.ByteLength(t) <= bound
    ensures TermScores(terms, query, score) == []
  {
    if terms != [] {
      NoTermScores(terms[..|terms| - 1], bound, query, score);
      assert terms[|terms| - 1] in terms;
    }
  }

  /** Each match is an item of the index with the best score the matcher gives it. */
  lemma {:induction false} MatchesSound(items: seq<SearchItem>, query: string, score: (string, string) -> Option<int>)
    ensures |Matches(items, query, score)| <= |items|
    ensures forall m :: m in Matches(items, query, score) ==> m.1 in items && BestScore(m.1, query, score) == Some(m.0)
  {
    if items != [] {
      var init := items[..|items| - 1];
      MatchesSound(init, query, score);
      assert items == init + [items[|items| - 1]];
    }
  }

  /** The matches among a prefix come first among the matches of the whole. */
  lemma {:induction false} MatchesPrefix(items: seq<SearchItem>, k: nat, query: string, score: (string, string) -> Option<int>)
    requires k <= |items|
    ensures Matches(items[..k], query, score) <= Matches(items, query, score)
    decreases |items|
  {
    if k < |items| {
      var init := items[..|items| - 1];
      MatchesPrefix(init, k, query, score);
      assert init[..k] == items[..k];
    } else {
      assert items[..k] == items;
    }
  }

  lemma MatchesSnoc(items: seq<SearchItem>, k: nat, query: string, score: (string, string) -> Option<int>)
    requires k < |items|
    ensures Matches(items[..k + 1], query, score) == Matches(items[..k], query, score) + Hit(items[k], query, score)
  {
    assert items[..k + 1][..k] == items[..k];
  }

  function Take<T>(s: seq<T>, n: nat): (r: seq<T>)
    ensures |r| <= n && r <= s && (|s| <= n ==> r == s)
  {
    if |s| <= n then s else s[..n]
  }

  /** `quick`'s results order: by score, best first (`a.0.cmp(&b.0).reverse()`). */
  function ByScore(m: (int, SearchItem)): Key
  {
    Key(-m.0, 0)
  }

  /** `quick` scans past the tenth match only if there is another item after it. */
  predicate MoreAfterTen(items: seq<SearchItem>, query: string, score: (string, string) -> Option<int>)
  {
    |items| > 0 && |Matches(items[..|items| - 1], query, score)| >= MAX_QUICK_RESULTS
  }

  /**
   * `quick` over the cleaned items, one worker at a time: stop at the first
   * item met with ten matches found, and sort the matches best first.
   */
  method QuickResults(items: seq<SearchItem>, query: string, score: (string, string) -> Option<int>)
    returns (ranked: seq<(int, SearchItem)>, hasMore: bool)
    ensures ranked == SortBy(Take(Matches(items, query, score), MAX_QUICK_RESULTS), ByScore)
    ensures hasMore <==> MoreAfterTen(items, query, score)
  {
    var found: seq<(int, SearchItem)> := [];
    hasMore := false;
    var k := 0;
    while k < |items|
      invariant k <= |items| && !hasMore
      invariant found == Matches(items[..k], query, score) && |found| <= MAX_QUICK_RESULTS
      invariant 0 < k ==> |Matches(items[..k - 1], query, score)| < MAX_QUICK_RESULTS
    {
      if |found| >= MAX_QUICK_RESULTS {
        hasMore := true;
        break;
      }
      MatchesSnoc(items, k, query, score);
      var item := items[k];
      if item.len >= Utf8.ByteLength(query) {
        var winner := BestMatch(item, query, score);
        if winner.Some? {
          found := found + [(winner.value, item)];
        }
      }
      k := k + 1;
    }
    QuickScanDone(items, k, found, hasMore, query, score);
    if |found| == 0 {
      ranked, hasMore := [], false;
    } else if |found| == 1 {
      SortSingle(found, ByScore);
      ranked, hasMore := found, false;
    } else {
      ranked := SortBy(found, ByScore);
    }
  }

  lemma SortSingle<T>(s: seq<T>, key: T -> Key)
    requires |s| == 1
    ensures SortBy(s, key) == s
  {
    assert s[..0] == [];
  }

  /** Where the scan stops, it has the first ten matches (or all of them), and it stopped early exactly when there were more items. */
  lemma QuickScanDone(items: seq<SearchItem>, k: nat, found: seq<(int, SearchItem)>, hasMore: bool,
                      query: string, score: (string, string) -> Option<int>)
    requires k <= |items| && found == Matches(items[..k], query, score) && |found| <= MAX_QUICK_RESULTS
    requires 0 < k ==> |Matches(items[..k - 1], query, score)| < MAX_QUICK_RESULTS
    requires hasMore ==> k < |items| && |found| >= MAX_QUICK_RESULTS
    requires !hasMore ==> k == |items|
    ensures found == Take(Matches(items, query, score), MAX_QUICK_RESULTS)
    ensures hasMore <==> MoreAfterTen(items, query, score)
    ensures MoreAfterTen(items, query, score) ==> |found| == MAX_QUICK_RESULTS
  {
    MatchesPrefix(items, k, query, score);
    if hasMore {
      MatchesPrefix(items[..|items| - 1], k, query, score);
      assert items[..|items| - 1][..k] == items[..k];
    } else {
      assert items[..k] == items;
      if |items| > 0 {
        assert items[..k - 1] == items[..|items| - 1];
      }
    }
  }


  /** The matched items of a ranking, in its order (`filter_map(|x| x.map(|x| x.1))`). */
  function Items(ranked: seq<(int, SearchItem)>): (r: seq<SearchItem>)
    ensures |r| == |ranked| && forall i :: 0 <= i < |r| ==> r[i] == ranked[i].1
  {
    seq(|ranked|, i requires 0 <= i < |ranked| => ranked[i].1)
  }

  /** `quick` returns at most ten items, each a match, best score first. */
  lemma QuickResultsMeaning(items: seq<SearchItem>, query: string, score: (string, string) -> Option<int>)
    ensures var ranked := SortBy(Take(Matches(items, query, score), MAX_QUICK_RESULTS), ByScore);
      |ranked| <= MAX_QUICK_RESULTS &&
      (forall i, j :: 0 <= i < j < |ranked| ==> ranked[i].0 >= ranked[j].0) &&
      (forall m :: m in ranked ==> m.1 in items && BestScore(m.1, query, score) == Some(m.0))
  {
    var first := Take(Matches(items, query, score), MAX_QUICK_RESULTS);
    var ranked := SortBy(first, ByScore);
    MatchesSound(items, query, score);
    assert |ranked| == |first| by {
      assert |multiset(ranked)| == |multiset(first)|;
    }
    forall m | m in ranked ensures m in Matches(items, query, score) {
      assert m in multiset(ranked);
      assert m in first;
    }
  }

  /** Items with no `WorkshopItem` source, the only kind `PartialEq` handles. */
  predicate Comparable(items: seq<SearchItem>)
  {
    forall x :: x in items ==> !x.source.WorkshopItem?
  }

  predicate AllWithIds(installed: seq<SearchItem>)
  {
    forall x :: x in installed ==> HasId(x)
  }

  /** `Search`: the items, the installed addons with an id, and the flag `add_bulk` sets. */
  class Search {
    var dirty: bool
    var items: seq<SearchItem>
    var installedAddons: seq<SearchItem>

    /** A clean index keeps both lists sorted; the flag is never cleared once set. */
    ghost predicate Valid()
      reads this
    {
      Comparable(items) && AllWithIds(installedAddons) &&
      (!dirty ==> SortedBy(items, RankKey) && StrictlySorted(Ids(installedAddons)))
    }

    /** `Search::init`. */
    constructor()
      ensures Valid() && !dirty && items == [] && installedAddons == []
    {
      dirty := false;
      items := [];
      installedAddons := [];
    }

    /**
     * `add`: on a dirty index, append; on a clean one, replace or insert at
     * the position binary search finds, in both lists.
     */
    method Add(addon: Addon)
      requires Valid()
      modifies this
      ensures Valid() && dirty == old(dirty)
      ensures SearchItemOf(addon).None? ==> items == old(items) && installedAddons == old(installedAddons)
      ensures SearchItemOf(addon).Some? && old(dirty) ==>
        var x := SearchItemOf(addon).value;
        items == old(items) + [x] && installedAddons == old(installedAddons) + (if HasId(x) then [x] else [])
      ensures SearchItemOf(addon).Some? && !old(dirty) ==>
        var x := SearchItemOf(addon).value;
        AddedByRank(old(items), x, items) &&
        (if HasId(x) then AddedById(old(installedAddons), x, installedAddons) else installedAddons == old(installedAddons))
    {
      var item := SearchItemOf(addon);
      if item.None? {
        return;
      }
      var x := item.value;
      if dirty {
        if HasId(x) {
          installedAddons := installedAddons + [x];
        }
        items := items + [x];
      } else {
        if HasId(x) {
          installedAddons := AddById(installedAddons, x);
        }
        items := AddByRank(items, x);
      }
    }

    /** `add_bulk`: mark the index dirty and append every item, and every installed addon with an id. */
    method AddBulk(addons: seq<Addon>)
      requires Valid()
      modifies this
      ensures Valid() && dirty
      ensures items == old(items) + SearchItems(addons)
      ensures installedAddons == old(installedAddons) + WithIds(SearchItems(addons))
    {
      dirty := true;
      var batch := SearchItems(addons);
      installedAddons := installedAddons + WithIds(batch);
      items := items + batch;
    }

    /** `dirty()`: on a dirty index, sort and deduplicate both lists; the flag stays set. */
    method Clean()
      requires Valid()
      modifies this
      ensures Valid() && dirty == old(dirty)
      ensures !old(dirty) ==> items == old(items) && installedAddons == old(installedAddons)
      ensures old(dirty) ==> items == CleanItems(old(items)) && installedAddons == CleanInstalled(old(installedAddons))
      ensures SortedBy(items, RankKey) && StrictlySorted(Ids(installedAddons))
    {
      if !dirty {
        return;
      }
      CleanItemsSorted(items);
      CleanInstalledStrict(installedAddons);
      items := CleanItems(items);
      installedAddons := CleanInstalled(installedAddons);
    }

    /** `quick`: clean the index, then take the first ten matches, best score first. */
    method Quick(query: string, score: (string, string) -> Option<int>) returns (results: seq<SearchItem>, hasMore: bool)
      requires Valid()
      modifies this
      ensures Valid() && dirty == old(dirty)
      ensures !old(dirty) ==> items == old(items) && installedAddons == old(installedAddons)
      ensures old(dirty) ==> items == CleanItems(old(items)) && installedAddons == CleanInstalled(old(installedAddons))
      ensures results == Items(SortBy(Take(Matches(items, query, score), MAX_QUICK_RESULTS), ByScore))
      ensures hasMore <==> MoreAfterTen(items, query, score)
    {
      Clean();
      var ranked, more := QuickResults(items, query, score);
      results, hasMore := Items(ranked), more;
    }

    /** `clear`: drop every item; the installed addons stay. */
    method Clear()
      requires Valid()
      modifies this
      ensures Valid() && items == [] && dirty == old(dirty) && installedAddons == old(installedAddons)
    {
      items := [];
    }
  }

}
