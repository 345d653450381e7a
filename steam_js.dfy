/**
 * The frontend's `steam.js`: the helpers that name and classify a file by
 * its extension, `trimPath`, and the `Steam` object's cache of workshop
 * items, which the backend fills as items arrive.
 */
module SteamFrontend {
  import opened Wrappers
  import opened PathText
  import opened JsText

  // ---------------------------------------------------------------- trimPath

  predicate IsSeparator(c: char)
  {
    c == '/' || c == '\\'
  }

  /** The path without its trailing run of `/` and `\`. */
  function TrimmedPath(path: string): (r: string)
    ensures |r| <= |path| && r == path[..|r|]
    ensures forall i :: |r| <= i < |path| ==> IsSeparator(path[i])
    ensures r == [] || !IsSeparator(r[|r| - 1])
  {
    if path != [] && IsSeparator(path[|path| - 1]) then TrimmedPath(path[..|path| - 1]) else path
  }

  /**
   * Those three facts pin the trimmed path down: any split of `path` into a
   * text that does not end in a separator and a run of separators is the
   * one `TrimmedPath` makes.
   */
  lemma {:induction false} TrimmedPathUnique(path: string, keep: string)
    requires |keep| <= |path| && keep == path[..|keep|]
    requires forall i :: |keep| <= i < |path| ==> IsSeparator(path[i])
    requires keep == [] || !IsSeparator(keep[|keep| - 1])
    ensures TrimmedPath(path) == keep
    decreases |path|
  {
    if |keep| < |path| {
      assert path[..|path| - 1][..|keep|] == keep;
      TrimmedPathUnique(path[..|path| - 1], keep);
    } else {
      assert keep == path;
    }
  }

  /** Trimming twice is trimming once. */
  lemma TrimmedPathIdempotent(path: string)
    ensures TrimmedPath(TrimmedPath(path)) == TrimmedPath(path)
  {
    var r := TrimmedPath(path);
    TrimmedPathUnique(r, r);
  }

  /** `trimPath`: count the trailing separators from the end, then cut them off. */
  method TrimPath(path: string) returns (r: string)
    ensures r == TrimmedPath(path)
  {
    var n := 0;
    var i := |path| - 1;
    while i >= 0
      invariant -1 <= i < |path|
      invariant n == |path| - 1 - i
      invariant TrimmedPath(path) == TrimmedPath(path[..i + 1])
    {
      if IsSeparator(path[i]) {
        n := n + 1;
      } else {
        break;
      }
      assert path[..i + 1][..i] == path[..i];
      i := i - 1;
    }
    if n > 0 {
      r := path[..|path| - n];
    } else {
      r := path;
    }
  }

  // ------------------------------------------------------------- getFileIcon

  const DEFAULT_ICON := "page_white.png"

  /** `getFileIcon`: the icon of the extension's case, `page_white.png` for no case (or no extension). */
  function FileIcon(extension: Option<string>): string
  {
    match extension
    case None => DEFAULT_ICON
    case Some(x) =>
      if x == "lua" then "script_code.png"
      else if x in ["mp3", "ogg", "wav"] then "sound.png"
      else if x in ["png", "jpg", "jpeg"] then "photo.png"
      else if x in ["bsp", "nav", "ain", "fgd"] then "map.png"
      else if x == "pcf" then "wand.png"
      else if x == "vcd" then "comments.png"
      else if x == "ttf" then "font.png"
      else if x == "txt" then "page_white_text.png"
      else if x == "properties" then "page_white_wrench.png"
      else if x in ["vmt", "vtf"] then "picture_link.png"
      else if x in ["mdl", "vtx", "phy", "ani", "vvd"] then "bricks.png"
      else DEFAULT_ICON
  }

  /** Every extension `getFileIcon` has a case for. */
  const ICON_EXTENSIONS := ["lua", "mp3", "ogg", "wav", "png", "jpg", "jpeg", "bsp", "nav", "ain",
    "fgd", "pcf", "vcd", "ttf", "txt", "properties", "vmt", "vtf", "mdl", "vtx", "phy", "ani", "vvd"]

  /** The default icon is given exactly to a missing extension or one without a case. */
  lemma FileIconDefault(extension: Option<string>)
    ensures FileIcon(extension) == DEFAULT_ICON <==> extension.None? || extension.value !in ICON_EXTENSIONS
  {
    if extension.Some? && extension.value in ICON_EXTENSIONS {
      NamedIcon(extension.value);
    }
  }

  lemma NamedIcon(x: string)
    requires x in ICON_EXTENSIONS
    ensures FileIcon(Some(x)) != DEFAULT_ICON
  {
  }

  // ------------------------------------------------------------- getFileType

  const AUDIO_EXTENSIONS := ["mp3", "ogg", "wav"]
  const IMAGE_EXTENSIONS := ["png", "jpg", "jpeg"]
  /** The extensions `getFileType` reports as their own type. */
  const NAMED_TYPES := ["vtf", "vmt", "map", "ain", "nav", "ttf", "vcd", "fgd", "pcf", "lua",
                        "mdl", "vtx", "phy", "ani", "vvd", "txt", "properties"]

  /** `getFileType`: audio and images by group, `bsp` as a map, the named types as themselves. */
  function FileType(extension: Option<string>): string
  {
    match extension
    case None => "unknown"
    case Some(x) =>
      if x in AUDIO_EXTENSIONS then "audio"
      else if x in IMAGE_EXTENSIONS then "image"
      else if x == "bsp" then "map"
      else if x in NAMED_TYPES then x
      else "unknown"
  }

  /** Every extension `getFileType` recognises. */
  const KNOWN_TYPES := AUDIO_EXTENSIONS + IMAGE_EXTENSIONS + ["bsp"] + NAMED_TYPES

  /** A file type is `unknown` exactly when its extension is missing or not one of the recognised ones. */
  lemma FileTypeUnknown(extension: Option<string>)
    ensures FileType(extension) == "unknown" <==> extension.None? || extension.value !in KNOWN_TYPES
  {
    assert "unknown" !in NAMED_TYPES;
  }

  /**
   * The two switches list the same extensions but for `map`, which has a
   * type of its own and the default icon.
   */
  lemma IconMatchesType(extension: Option<string>)
    ensures FileIcon(extension) == DEFAULT_ICON <==> FileType(extension) == "unknown" || extension == Some("map")
  {
    FileTypeUnknown(extension);
    FileIconDefault(extension);
    if extension.Some? {
      SameExtensions(extension.value);
    }
  }

  lemma SameExtensions(x: string)
    ensures x in ICON_EXTENSIONS <==> x in KNOWN_TYPES && x != "map"
  {
  }

  // --------------------------------------------------------- getFileTypeInfo

  /**
   * `/^.*(?:\.(.*?))$/` on `s`, the way the matcher runs it: the greedy `.*`
   * runs to the first line terminator, then gives characters back one at a
   * time until a `.` follows whose remaining text reaches the end with no
   * line terminator; the capture is that text.
   */
  function MatchLastExtension(s: string): Option<string>
  {
    BackTrack(s, LineRun(s))
  }

  function BackTrack(s: string, k: nat): Option<string>
    requires k <= |s|
    decreases k
  {
    if k < |s| && s[k] == '.' && LineRun(s[k + 1..]) == |s| - k - 1 then Some(s[k + 1..])
    else if k == 0 then None
    else BackTrack(s, k - 1)
  }

  /** After a dot at `d` or later, in text with no line terminator, the match is the text after the last dot up to `k`. */
  lemma {:induction false} BackTrackLastDot(s: string, k: nat)
    requires k < |s| && !HasLineTerminator(s)
    ensures BackTrack(s, k) == match LastIndexOf(s[..k + 1], '.')
      case None => None
      case Some(d) => Some(s[d + 1..])
    decreases k
  {
    WholeLine(s[k + 1..]);
    if s[k] != '.' {
      assert s[..k + 1][..k] == s[..k];
      if k > 0 {
        BackTrackLastDot(s, k - 1);
      }
    }
  }

  /** With a line terminator anywhere, no position from `k` down can match. */
  lemma {:induction false} BackTrackFails(s: string, k: nat)
    requires k <= LineRun(s) < |s|
    ensures BackTrack(s, k) == None
    decreases k
  {
    var m := LineRun(s);
    if k < m {
      assert s[k + 1..][m - k - 1] == s[m];
    }
    if k > 0 {
      BackTrackFails(s, k - 1);
    }
  }

  /** The capture is the text after the last `.`, when there is one and the path has no line terminator. */
  lemma MatchTakesLastDot(s: string)
    ensures MatchLastExtension(s) == if HasLineTerminator(s) then None else
      match LastIndexOf(s, '.')
      case None => None
      case Some(d) => Some(s[d + 1..])
  {
    WholeLine(s);
    if HasLineTerminator(s) {
      BackTrackFails(s, LineRun(s));
    } else if s != [] {
      BackTrackLastDot(s, |s| - 1);
      assert s[..|s|] == s;
    }
  }

  /** The extension `getFileTypeInfo` works with: the capture, lower-cased. */
  function LoweredExtension(path: string): Option<string>
  {
    match MatchLastExtension(path)
    case None => None
    case Some(x) => Some(AsciiLower(x))
  }

  /** `getFileTypeInfo`: icon, type and the lower-cased extension of a path. */
  function FileTypeInfo(path: string): (string, string, Option<string>)
  {
    var extension := LoweredExtension(path);
    (FileIcon(extension), FileType(extension), extension)
  }

  /**
   * A path ending in `.` and an extension is classified by that extension,
   * lower-cased, whatever comes before the dot (even nothing, unlike a
   * path's extension on the backend).
   */
  lemma FileTypeInfoOf(stem: string, extension: string)
    requires '.' !in extension && !HasLineTerminator(stem + "." + extension)
    ensures FileTypeInfo(stem + "." + extension).2 == Some(AsciiLower(extension))
  {
    var s := stem + "." + extension;
    LastIndexOfAt(s, '.', |stem|);
    assert s[|stem| + 1..] == extension;
    MatchTakesLastDot(s);
  }

  /** A path with no `.` has no extension, the default icon and an unknown type. */
  lemma FileTypeInfoNoDot(path: string)
    requires '.' !in path
    ensures FileTypeInfo(path) == (DEFAULT_ICON, "unknown", None)
  {
    MatchTakesLastDot(path);
  }

  // ------------------------------------------------------- the workshop cache

  /** A workshop item as the backend sends it; `dead` marks one that no longer exists. */
  datatype WorkshopItem = WorkshopItem(id: nat, dead: bool, title: string)

  /**
   * A `DeferredPromise` of a workshop item: still waiting, with the dead-item
   * callbacks chained on it so far, or resolved with an item.
   */
  datatype Deferred = Waiting(deadCallbacks: seq<nat>) | Resolved(item: WorkshopItem)

  /** `resolve`: a waiting promise takes the item; a resolved one ignores it. */
  function Resolve(d: Deferred, item: WorkshopItem): Deferred
  {
    if d.Waiting? then Resolved(item) else d
  }

  /** The calls a resolution makes: every chained callback gets the item, if it is dead. */
  function DeadCalls(d: Deferred, item: WorkshopItem): seq<(nat, WorkshopItem)>
  {
    if d.Waiting? && item.dead then seq(|d.deadCallbacks|, i requires 0 <= i < |d.deadCallbacks| => (d.deadCallbacks[i], item))
    else []
  }

  /** The first item a promise is resolved with is the one it keeps. */
  lemma ResolveKeepsFirst(d: Deferred, first: WorkshopItem, later: WorkshopItem)
    ensures Resolve(d, first).Resolved?
    ensures Resolve(Resolve(d, first), later) == Resolve(d, first)
    ensures DeadCalls(Resolve(d, first), later) == []
  {
  }

  /**
   * The `Steam` object's workshop cache. The promise reactions that
   * JavaScript runs later, as microtasks, happen here at once; the
   * `fetch_workshop_item` requests and the dead-item callback calls are
   * kept as logs.
   */
  class Steam {
    var workshop: map<nat, Deferred>
    var fetchRequests: seq<nat>
    var deadCalls: seq<(nat, WorkshopItem)>

    /** Every fetch went out once, for an id the cache holds. */
    predicate Valid()
      reads this
    {
      (forall i, j :: 0 <= i < j < |fetchRequests| ==> fetchRequests[i] != fetchRequests[j]) &&
      (forall i :: 0 <= i < |fetchRequests| ==> fetchRequests[i] in workshop)
    }

    constructor()
      ensures Valid()
      ensures workshop == map[] && fetchRequests == [] && deadCalls == []
    {
      workshop := map[];
      fetchRequests := [];
      deadCalls := [];
    }

    /** `workshopItemReceived`: resolve the promise already waiting for this id, or store a resolved one. */
    method WorkshopItemReceived(item: WorkshopItem)
      requires Valid()
      modifies this
      ensures Valid()
      ensures item.id in old(workshop) ==>
        (workshop == old(workshop)[item.id := Resolve(old(workshop)[item.id], item)] &&
         deadCalls == old(deadCalls) + DeadCalls(old(workshop)[item.id], item))
      ensures item.id !in old(workshop) ==>
        (workshop == old(workshop)[item.id := Resolved(item)] && deadCalls == old(deadCalls))
      ensures fetchRequests == old(fetchRequests)
    {
      if item.id in workshop {
        var d := workshop[item.id];
        workshop := workshop[item.id := Resolve(d, item)];
        deadCalls := deadCalls + DeadCalls(d, item);
      } else {
        workshop := workshop[item.id := Resolved(item)];
      }
    }

    /**
     * `getWorkshopAddon`: on the first request for an id, ask the backend
     * for it and cache a waiting promise; chain the dead-item callback, if
     * any; answer the cached promise.
     */
    method GetWorkshopAddon(id: nat, deadCallback: Option<nat>) returns (d: Deferred)
      requires Valid()
      modifies this
      ensures Valid()
      ensures fetchRequests == old(fetchRequests) + (if id in old(workshop) then [] else [id])
      ensures id in workshop && d == workshop[id]
      ensures workshop.Keys == old(workshop).Keys + {id}
      ensures forall other :: other in old(workshop) && other != id ==> workshop[other] == old(workshop)[other]
      ensures id in old(workshop) && old(workshop)[id].Resolved? ==> d == old(workshop)[id]
      ensures d.Waiting? ==>
        (d.deadCallbacks == (if id in old(workshop) then old(workshop)[id].deadCallbacks else []) +
          (if deadCallback.Some? then [deadCallback.value] else []))
      ensures deadCalls == old(deadCalls) +
        (if deadCallback.Some? && d.Resolved? && d.item.dead then [(deadCallback.value, d.item)] else [])
    {
      if id !in workshop {
        fetchRequests := fetchRequests + [id];
        workshop := workshop[id := Waiting([])];
      }
      if deadCallback.Some? {
        match workshop[id]
        case Waiting(callbacks) =>
          workshop := workshop[id := Waiting(callbacks + [deadCallback.value])];
        case Resolved(item) =>
          if item.dead {
            deadCalls := deadCalls + [(deadCallback.value, item)];
          }
      }
      d := workshop[id];
    }
  }
}
