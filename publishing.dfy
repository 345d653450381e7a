/**
 * The checks made before an addon is uploaded to the Workshop: the publish
 * errors and the text they are reported by, the preview icon's size, format
 * and upscaling rules, the folder holding the archive to upload, the tags
 * sent with an upload, and `verify_whitelist`, which walks a content folder
 * and lists the files that would go into the archive or the paths the
 * whitelist rejects.
 */
module Publishing {
  import opened Wrappers
  import opened PathText
  import opened Whitelist
  import LexSort
  import GameAddons

  datatype PublishError =
    | NotWhitelisted(paths: seq<string>)
    | NoEntries
    | DuplicateEntry(path: string)
    | InvalidContentPath
    | MultipleGMAs
    | IconTooLarge
    | IconTooSmall
    | IconInvalidFormat
    | IOError
    | SteamError(message: string)
    | ImageError(message: string)

  // ---------------------------------------------------------------------------
  // The text of an error

  /** `join("\n")`. */
  function JoinLines(parts: seq<string>): string
  {
    if parts == [] then ""
    else if |parts| == 1 then parts[0]
    else JoinLines(parts[..|parts| - 1]) + "\n" + parts[|parts| - 1]
  }

  /** Cutting a text at every newline; the inverse of `JoinLines`. */
  function SplitLines(text: string): seq<string>
  {
    match LastIndexOf(text, '\n')
    case None => [text]
    case Some(k) => SplitLines(text[..k]) + [text[k + 1..]]
  }

  predicate NoNewlines(parts: seq<string>)
  {
    forall i :: 0 <= i < |parts| ==> '\n' !in parts[i]
  }

  /** A non-empty list of lines without newlines splits back out of its join. */
  lemma {:induction false} SplitJoin(parts: seq<string>)
    requires parts != [] && NoNewlines(parts)
    ensures SplitLines(JoinLines(parts)) == parts
  {
    if |parts| == 1 {
      assert '\n' !in parts[0];
    } else {
      var init, last := parts[..|parts| - 1], parts[|parts| - 1];
      var joined := JoinLines(init);
      var text := joined + "\n" + last;
      assert '\n' !in last;
      assert forall i :: |joined| < i < |text| ==> text[i] == last[i - |joined| - 1];
      LastIndexOfAt(text, '\n', |joined|);
      assert text[..|joined|] == joined && text[|joined| + 1..] == last;
      SplitJoin(init);
      assert parts == init + [last];
    }
  }

  /** The code `Display` writes for each error, after `ERR_`. */
  function ErrorCode(e: PublishError): string
  {
    match e
    case NotWhitelisted(_) => "WHITELIST"
    case NoEntries => "NO_ENTRIES"
    case DuplicateEntry(_) => "DUPLICATE_ENTRIES"
    case InvalidContentPath => "INVALID_CONTENT_PATH"
    case MultipleGMAs => "MULTIPLE_GMAS"
    case IconTooLarge => "ICON_TOO_LARGE"
    case IconTooSmall => "ICON_TOO_SMALL"
    case IconInvalidFormat => "ICON_INVALID_FORMAT"
    case IOError => "IO_ERROR"
    case SteamError(_) => "STEAM_ERROR"
    case ImageError(_) => "IMAGE_ERROR"
  }

  /** What `Display` writes after the code and a `:`, for the errors that carry something. */
  function ErrorDetail(e: PublishError): Option<string>
  {
    match e
    case NotWhitelisted(paths) => Some(JoinLines(paths))
    case DuplicateEntry(path) => Some(path)
    case SteamError(message) => Some(message)
    case ImageError(message) => Some(message)
    case _ => None
  }

  /** The `Display` text of an error. */
  function ErrorText(e: PublishError): string
  {
    "ERR_" + ErrorCode(e) + match ErrorDetail(e) case None => "" case Some(d) => ":" + d
  }

  predicate HasPrefix(s: string, p: string)
  {
    |p| <= |s| && s[..|p|] == p
  }

  /** The errors `Display` writes without a detail, and one of each kind that carries one. */
  const PLAIN_ERRORS: seq<PublishError> := [NoEntries, InvalidContentPath, MultipleGMAs, IconTooLarge, IconTooSmall, IconInvalidFormat, IOError]
  const DETAILED_ERRORS: seq<PublishError> := [NotWhitelisted([]), DuplicateEntry(""), SteamError(""), ImageError("")]

  /** The first of `errors` whose code is `code`. */
  function FindCode(errors: seq<PublishError>, code: string): (r: Option<PublishError>)
    ensures r.Some? ==> r.value in errors && ErrorCode(r.value) == code
  {
    if errors == [] then None
    else if ErrorCode(errors[0]) == code then Some(errors[0])
    else FindCode(errors[1..], code)
  }

  /** The error of the kind of `kind` that carries `detail`. */
  function Attach(kind: PublishError, detail: string): PublishError
  {
    match kind
    case NotWhitelisted(_) => NotWhitelisted(SplitLines(detail))
    case DuplicateEntry(_) => DuplicateEntry(detail)
    case SteamError(_) => SteamError(detail)
    case ImageError(_) => ImageError(detail)
    case _ => kind
  }

  /** The error a code and, for the errors that carry one, a detail stand for. */
  function Decode(code: string, detail: Option<string>): Option<PublishError>
  {
    match detail
    case None => FindCode(PLAIN_ERRORS, code)
    case Some(d) =>
      match FindCode(DETAILED_ERRORS, code)
      case None => None
      case Some(kind) => Some(Attach(kind, d))
  }

  /** Reads an error back from its text: the code runs to the first `:`, the detail after it. */
  function ParseError(text: string): Option<PublishError>
  {
    if !HasPrefix(text, "ERR_") then None
    else
      var body := text[4..];
      match FirstIndexOf(body, ':')
      case Some(k) => Decode(body[..k], Some(body[k + 1..]))
      case None => Decode(body, None)
  }

  /**
   * Every error can be told back from its text, so no two errors share one;
   * a whitelist report needs at least one path and no newline inside a path.
   */
  lemma ErrorTextParses(e: PublishError)
    requires e.NotWhitelisted? ==> e.paths != [] && NoNewlines(e.paths)
    ensures ParseError(ErrorText(e)) == Some(e)
  {
    CodeHasNoColon(e);
    if e.NotWhitelisted? {
      SplitJoin(e.paths);
    }
    CodeDecodes(e);
    ParsesBack(ErrorCode(e), ErrorDetail(e));
  }

  /** A text made of `ERR_`, a code without `:` and maybe `:` and a detail decodes as that code and detail. */
  lemma ParsesBack(code: string, detail: Option<string>)
    requires ':' !in code
    ensures ParseError("ERR_" + code + match detail case None => "" case Some(d) => ":" + d) == Decode(code, detail)
  {
    var suffix := match detail case None => "" case Some(d) => ":" + d;
    var text := "ERR_" + code + suffix;
    var rest := code + suffix;
    assert text == "ERR_" + rest;
    assert text[..4] == "ERR_" && text[4..] == rest;
    match detail
    case None =>
      assert rest == code;
    case Some(d) =>
      assert rest == code + (":" + d);
      FirstIndexOfAt(rest, ':', |code|);
      assert rest[..|code|] == code && rest[|code| + 1..] == d;
  }

  lemma CodeHasNoColon(e: PublishError)
    ensures ':' !in ErrorCode(e)
  {
  }

  /** Each error's code and detail decode to it. */
  lemma CodeDecodes(e: PublishError)
    requires e.NotWhitelisted? ==> SplitLines(JoinLines(e.paths)) == e.paths
    ensures Decode(ErrorCode(e), ErrorDetail(e)) == Some(e)
  {
    if ErrorDetail(e).Some? {
      DetailedCodeDecodes(e);
    } else if e.NoEntries? || e.InvalidContentPath? || e.MultipleGMAs? {
      PlainCodeDecodes(e);
    } else {
      IconCodeDecodes(e);
    }
  }

  lemma DetailedCodeDecodes(e: PublishError)
    requires ErrorDetail(e).Some?
    requires e.NotWhitelisted? ==> SplitLines(JoinLines(e.paths)) == e.paths
    ensures Decode(ErrorCode(e), ErrorDetail(e)) == Some(e)
  {
    match e
    case NotWhitelisted(_) => FindCodeAt(DETAILED_ERRORS, 0, ErrorCode(e));
    case DuplicateEntry(_) => FindCodeAt(DETAILED_ERRORS, 1, ErrorCode(e));
    case SteamError(_) => FindCodeAt(DETAILED_ERRORS, 2, ErrorCode(e));
    case ImageError(_) => FindCodeAt(DETAILED_ERRORS, 3, ErrorCode(e));
  }

  lemma PlainCodeDecodes(e: PublishError)
    requires e.NoEntries? || e.InvalidContentPath? || e.MultipleGMAs?
    ensures Decode(ErrorCode(e), ErrorDetail(e)) == Some(e)
  {
    match e
    case NoEntries => FindCodeAt(PLAIN_ERRORS, 0, ErrorCode(e));
    case InvalidContentPath => FindCodeAt(PLAIN_ERRORS, 1, ErrorCode(e));
    case MultipleGMAs => FindCodeAt(PLAIN_ERRORS, 2, ErrorCode(e));
  }

  lemma IconCodeDecodes(e: PublishError)
    requires e.IconTooLarge? || e.IconTooSmall? || e.IconInvalidFormat? || e.IOError?
    ensures Decode(ErrorCode(e), ErrorDetail(e)) == Some(e)
  {
    match e
    case IconTooLarge => FindCodeAt(PLAIN_ERRORS, 3, ErrorCode(e));
    case IconTooSmall => FindCodeAt(PLAIN_ERRORS, 4, ErrorCode(e));
    case IconInvalidFormat => FindCodeAt(PLAIN_ERRORS, 5, ErrorCode(e));
    case IOError => FindCodeAt(PLAIN_ERRORS, 6, ErrorCode(e));
  }

  /** The lookup finds the first error with the code. */
  lemma {:induction false} FindCodeAt(errors: seq<PublishError>, i: nat, code: string)
    requires i < |errors| && ErrorCode(errors[i]) == code
    requires forall j :: 0 <= j < i ==> ErrorCode(errors[j]) != code
    ensures FindCode(errors, code) == Some(errors[i])
  {
    if i > 0 {
      FindCodeAt(errors[1..], i - 1, code);
    }
  }

  // ---------------------------------------------------------------------------
  // The preview icon

  const WORKSHOP_ICON_MAX_SIZE: nat := 1048576
  const WORKSHOP_ICON_MIN_SIZE: nat := 16

  datatype ImageFormat = Png | Gif | Jpeg

  /** What opening and decoding the icon file gives. */
  datatype Loaded = OpenFailed | DecodeFailed(message: string) | Decoded(width: nat, height: nat)

  datatype Icon =
    | Custom(path: string, format: ImageFormat, width: nat, height: nat, upscale: bool)
    | Default

  /**
   * The format an icon's file name names: its extension, lower-cased, with
   * a name that has none read as `jpg`.
   */
  function IconFormat(name: string): Option<ImageFormat>
  {
    FormatNamed(AsciiLower(match Extension(name) case None => "jpg" case Some(e) => e))
  }

  /** The format a lower-case extension names. */
  function FormatNamed(ext: string): Option<ImageFormat>
  {
    if ext == "png" then Some(Png)
    else if ext == "gif" then Some(Gif)
    else if ext == "jpeg" || ext == "jpg" then Some(Jpeg)
    else None
  }

  /**
   * `WorkshopIcon::new` for the file at `path` whose last component is
   * `name`; `len` is its size, when its metadata can be read.
   */
  function NewIcon(path: string, name: string, len: Option<nat>, loaded: Loaded, upscale: bool): (r: Result<Icon, PublishError>)
    ensures r.Ok? <==>
      (len.Some? && WORKSHOP_ICON_MIN_SIZE <= len.value <= WORKSHOP_ICON_MAX_SIZE && IconFormat(name).Some? && loaded.Decoded?)
    ensures len.Some? && len.value > WORKSHOP_ICON_MAX_SIZE ==> r == Err(IconTooLarge)
    ensures len.Some? && len.value < WORKSHOP_ICON_MIN_SIZE ==> r == Err(IconTooSmall)
    ensures r.Ok? ==> r.value.Custom? && Some(r.value.format) == IconFormat(name) && r.value.path == path
  {
    if len.None? then Err(IOError)
    else if len.value > WORKSHOP_ICON_MAX_SIZE then Err(IconTooLarge)
    else if len.value < WORKSHOP_ICON_MIN_SIZE then Err(IconTooSmall)
    else match IconFormat(name)
      case None => Err(IconInvalidFormat)
      case Some(format) =>
        match loaded
        case OpenFailed => Err(IOError)
        case DecodeFailed(message) => Err(ImageError(message))
        case Decoded(width, height) => Ok(Custom(path, format, width, height, upscale))
  }

  lemma AsciiLowerTwice(s: string)
    ensures AsciiLower(AsciiLower(s)) == AsciiLower(s)
  {
  }

  /** The case of an icon's extension does not matter. */
  lemma IconFormatIgnoresCase(stem: string, ext: string)
    requires stem != [] && '.' !in ext
    ensures IconFormat(stem + "." + ext) == IconFormat(stem + "." + AsciiLower(ext))
  {
    var lowered := AsciiLower(ext);
    assert '.' !in lowered by {
      forall i | 0 <= i < |lowered| ensures lowered[i] != '.' {
        assert ext[i] != '.';
      }
    }
    ExtensionOf(stem, ext);
    ExtensionOf(stem, lowered);
    AsciiLowerTwice(ext);
  }

  lemma ExtensionOf(stem: string, ext: string)
    requires stem != [] && '.' !in ext
    ensures Extension(stem + "." + ext) == Some(ext)
  {
    var name := stem + "." + ext;
    assert name[..|name| - |ext| - 1] == stem;
    ExtensionSplits(name, stem, ext);
  }

  /** A file name without an extension is read as a JPEG. */
  lemma NoExtensionIsJpeg(name: string)
    requires Extension(name).None?
    ensures IconFormat(name) == Some(Jpeg)
  {
    assert AsciiLower("jpg") == "jpg";
  }

  /** `can_upscale`: never a GIF; otherwise when a side is under 512 pixels or the image is not square. */
  predicate CanUpscale(width: nat, height: nat, format: ImageFormat)
  {
    format != Gif && ((width < 512 || height < 512) || width != height)
  }

  /**
   * Only a square of at least 512 pixels, or a GIF, is left as it is, and the
   * 512 by 512 image an upscale produces is never upscaled again.
   */
  lemma UpscaleSettles(width: nat, height: nat, format: ImageFormat)
    ensures !CanUpscale(width, height, format) <==> format == Gif || (width == height && width >= 512)
    ensures !CanUpscale(512, 512, format)
  {
  }

  /**
   * The file the Workshop receives as the preview: the upscaled copy in the
   * temporary directory when the icon asks for an upscale, can be upscaled
   * and the copy was `saved`; the icon's own file otherwise; the bundled
   * default icon, written to the temporary directory, for `Default`.
   */
  function PreviewPath(icon: Icon, tempDir: string, saved: bool): (r: string)
    ensures icon.Custom? && (icon.format == Gif || (icon.width == icon.height && icon.width >= 512)) ==> r == icon.path
    ensures icon.Custom? && (!icon.upscale || !saved) ==> r == icon.path
    ensures icon.Custom? && r != icon.path ==> icon.format != Gif && UpscaledName(tempDir, r)
  {
    UpscaleSettles(if icon.Custom? then icon.width else 0, if icon.Custom? then icon.height else 0,
                   if icon.Custom? then icon.format else Gif);
    match icon
    case Custom(path, format, width, height, upscale) =>
      if upscale && CanUpscale(width, height, format) then
        var ext := match format
          case Png => "png"
          case Jpeg => "jpg"
          case Gif => assert false; "";
        if saved then tempDir + "/gmpublisher_upscaled_icon." + ext else path
      else path
    case Default => tempDir + "/gmpublisher_default_icon.png"
  }

  /** A name in the temporary directory for the upscaled copy, with a `png` or `jpg` extension. */
  predicate UpscaledName(tempDir: string, name: string)
  {
    name == tempDir + "/gmpublisher_upscaled_icon.png" || name == tempDir + "/gmpublisher_upscaled_icon.jpg"
  }

  /** The upscaled copy is saved under a name whose extension reads back as the icon's own format. */
  lemma UpscaledPreviewFormat(icon: Icon, tempDir: string, saved: bool)
    requires icon.Custom? && PreviewPath(icon, tempDir, saved) != icon.path
    ensures IconFormat(PreviewPath(icon, tempDir, saved)) == Some(icon.format)
  {
    var stem := tempDir + "/gmpublisher_upscaled_icon";
    if icon.format == Png {
      assert PreviewPath(icon, tempDir, saved) == stem + "." + "png";
      LowerExtensionFormat(stem, "png");
    } else {
      assert PreviewPath(icon, tempDir, saved) == stem + "." + "jpg";
      LowerExtensionFormat(stem, "jpg");
    }
  }

  lemma LowerExtensionFormat(stem: string, ext: string)
    requires stem != [] && (ext == "png" || ext == "jpg")
    ensures IconFormat(stem + "." + ext) == FormatNamed(ext)
  {
    assert '.' !in ext;
    ExtensionOf(stem, ext);
    assert AsciiLower(ext) == ext;
  }

  // ---------------------------------------------------------------------------
  // What an upload sends

  datatype UpdateType =
    | Creation(title: string, contentPath: string, tags: seq<string>, addonType: string, icon: Icon)
    | Update(title: string, contentPath: string, tags: seq<string>, addonType: string, preview: Option<Icon>, changes: Option<string>)

  /** The fields of the item update `update` submits. */
  datatype Submission = Submission(title: string, contentPath: string, tags: seq<string>, previewPath: Option<string>, changeNote: Option<string>)

  /** The tags an upload sends: the user's, then `Addon`, then the addon's type. */
  function UploadTags(tags: seq<string>, addonType: string): (r: seq<string>)
  {
    tags + ["Addon", addonType]
  }

  function Submit(details: UpdateType, tempDir: string, saved: bool): Submission
  {
    match details
    case Creation(title, contentPath, tags, addonType, preview) =>
      Submission(title, contentPath, UploadTags(tags, addonType), Some(PreviewPath(preview, tempDir, saved)), None)
    case Update(title, contentPath, tags, addonType, preview, changes) =>
      Submission(title, contentPath, UploadTags(tags, addonType),
        match preview case None => None case Some(icon) => Some(PreviewPath(icon, tempDir, saved)),
        changes)
  }

  /**
   * Every upload keeps the user's tags first and ends them with `Addon` and
   * the type; a new item always sends a preview, an update only when given one.
   */
  lemma SubmitFields(details: UpdateType, tempDir: string, saved: bool)
    ensures var s := Submit(details, tempDir, saved);
      |s.tags| == |details.tags| + 2 && s.tags[..|details.tags|] == details.tags
      && s.tags[|details.tags|] == "Addon" && s.tags[|details.tags| + 1] == details.addonType
      && s.title == details.title && s.contentPath == details.contentPath
      && (details.Creation? ==> s.previewPath.Some? && s.changeNote.None?)
      && (details.Update? ==> s.previewPath.Some? == details.preview.Some? && s.changeNote == details.changes)
  {
  }

  // ---------------------------------------------------------------------------
  // The folder to upload

  /** The `.gma` files among the entries that could be read, in listing order. */
  function GmaPaths(entries: seq<Option<GameAddons.DirEntry>>): seq<string>
  {
    if entries == [] then []
    else
      var last := entries[|entries| - 1];
      GmaPaths(entries[..|entries| - 1])
        + if last.Some? && Extension(last.value.name) == Some("gma") then [last.value.path] else []
  }

  lemma {:induction false} GmaPathsPrefix(entries: seq<Option<GameAddons.DirEntry>>, k: nat)
    requires k <= |entries|
    ensures |GmaPaths(entries[..k])| <= |GmaPaths(entries)|
    ensures GmaPaths(entries[..k]) == GmaPaths(entries)[..|GmaPaths(entries[..k])|]
    decreases |entries| - k
  {
    if k < |entries| {
      var init := entries[..|entries| - 1];
      GmaPathsPrefix(init, k);
      assert init[..k] == entries[..k];
    } else {
      assert entries[..k] == entries;
    }
  }

  /**
   * The loop of `ContentPath::new` as written: a folder with more than one
   * archive is refused, one with exactly one gives it, and one with none
   * gives `Some(None)`, which stands for the uninitialised path that
   * `assume_init` then reads.
   */
  method ContentPathScan(isDir: bool, listing: Option<seq<Option<GameAddons.DirEntry>>>) returns (r: Result<Option<string>, PublishError>)
    ensures !isDir ==> r == Err(InvalidContentPath)
    ensures isDir && listing.None? ==> r == Err(IOError)
    ensures isDir && listing.Some? ==>
      var gmas := GmaPaths(listing.value);
      (|gmas| > 1 <==> r == Err(MultipleGMAs))
      && (|gmas| == 1 ==> r == Ok(Some(gmas[0])))
      && (gmas == [] ==> r == Ok(None))
  {
    if !isDir {
      return Err(InvalidContentPath);
    }
    if listing.None? {
      return Err(IOError);
    }
    var entries := listing.value;
    var gmaPath: Option<string> := None;
    var i := 0;
    for k := 0 to |entries|
      invariant i == |GmaPaths(entries[..k])| && i <= 1
      invariant gmaPath == if i == 0 then None else Some(GmaPaths(entries[..k])[0])
    {
      assert entries[..k + 1][..k] == entries[..k];
      var entry := entries[k];
      if entry.Some? && Extension(entry.value.name) == Some("gma") {
        if i > 0 {
          GmaPathsPrefix(entries, k + 1);
          return Err(MultipleGMAs);
        }
        gmaPath := Some(entry.value.path);
        i := i + 1;
      }
    }
    assert entries[..|entries|] == entries;
    return Ok(gmaPath);
  }

  /** `ContentPath::new` with a folder holding no archive refused as an invalid content path. */
  method ContentPathNew(isDir: bool, listing: Option<seq<Option<GameAddons.DirEntry>>>) returns (r: Result<string, PublishError>)
    ensures r.Ok? <==> isDir && listing.Some? && |GmaPaths(listing.value)| == 1
    ensures r.Ok? ==> r.value == GmaPaths(listing.value)[0]
    ensures isDir && listing.Some? && GmaPaths(listing.value) == [] ==> r == Err(InvalidContentPath)
  {
    var scanned := ContentPathScan(isDir, listing);
    match scanned
    case Err(e) => r := Err(e);
    case Ok(None) => r := Err(InvalidContentPath);
    case Ok(Some(path)) => r := Ok(path);
  }

  // ---------------------------------------------------------------------------
  // verify_whitelist

  /**
   * One item of the folder walk: its path with forward slashes (`None` for
   * an error reported without a path), whether it is a directory, and its
   * size when its metadata can be read.
   */
  datatype Walked = Walked(path: Option<string>, isDir: bool, size: Option<nat>)

  /** A file bound for the archive; its checksum and index are filled in when the archive is written. */
  datatype GmaEntry = GmaEntry(path: string, size: nat, crc: nat, index: nat)

  /** A file that passed the ignore lists: its lower-cased path under the folder, its size and the whitelist's verdict. */
  datatype Candidate = Candidate(path: string, size: nat, whitelisted: bool)

  /** The user's ignore globs, each ended with a NUL as the matcher expects. */
  function WithNul(globs: seq<string>): (r: seq<string>)
    ensures |r| == |globs| && forall i :: 0 <= i < |r| ==> NUL in r[i]
  {
    seq(|globs|, i requires 0 <= i < |globs| => globs[i] + [NUL])
  }

  predicate Whitelisted(path: string)
  {
    MatchesAny(ADDON_WHITELIST, UpToNul(path + [NUL]))
  }

  /**
   * What the walk's filters make of one item under the folder `root`:
   * directories, paths no longer than the root, and paths a default or user
   * ignore glob matches are dropped.
   */
  function CandidateOf(root: string, ignore: seq<string>, w: Walked): Option<Candidate>
  {
    if w.path.None? || w.isDir || |w.path.value| < |root| + 1 then None
    else
      var rel := AsciiLower(w.path.value[|root| + 1..]);
      if MatchesAny(DEFAULT_IGNORE, UpToNul(rel + [NUL])) || MatchesAny(ignore, UpToNul(rel + [NUL])) then None
      else Some(Candidate(rel, match w.size case None => 0 case Some(n) => n, Whitelisted(rel)))
  }

  function Candidates(root: string, ignore: seq<string>, walk: seq<Walked>): seq<Candidate>
  {
    if walk == [] then []
    else
      var c := CandidateOf(root, ignore, walk[|walk| - 1]);
      Candidates(root, ignore, walk[..|walk| - 1]) + if c.Some? then [c.value] else []
  }

  /** The state the loop of `verify_whitelist` carries from one file to the next. */
  datatype Tally = Tally(seen: set<string>, failed: seq<string>, extra: bool, files: seq<GmaEntry>, size: nat, duplicate: Option<string>)

  /** The loop has ended: on a tenth rejected path, or by returning a duplicate. */
  predicate Stopped(t: Tally)
  {
    t.extra || t.duplicate.Some?
  }

  function Step(t: Tally, c: Candidate): Tally
  {
    if c.path in t.seen then t.(duplicate := Some(c.path))
    else
      var t := t.(seen := t.seen + {c.path});
      if !c.whitelisted then
        if |t.failed| == 9 then t.(extra := true) else t.(failed := t.failed + [c.path])
      else if t.failed == [] then t.(files := t.files + [GmaEntry(c.path, c.size, 0, 0)], size := t.size + c.size)
      else t
  }

  /** Each walk item adds at most one candidate after those of the items before it. */
  lemma {:induction false} CandidatesPrefix(root: string, ignore: seq<string>, walk: seq<Walked>, k: nat)
    requires k <= |walk|
    ensures |Candidates(root, ignore, walk[..k])| <= |Candidates(root, ignore, walk)|
    ensures Candidates(root, ignore, walk[..k]) == Candidates(root, ignore, walk)[..|Candidates(root, ignore, walk[..k])|]
    decreases |walk| - k
  {
    if k < |walk| {
      var init := walk[..|walk| - 1];
      CandidatesPrefix(root, ignore, init, k);
      assert init[..k] == walk[..k];
    } else {
      assert walk[..k] == walk;
    }
  }

  /** The tally after the candidates, each taken in turn until the loop stops. */
  function Scan(cs: seq<Candidate>): Tally
  {
    if cs == [] then Tally({}, [], false, [], 0, None)
    else
      var t := Scan(cs[..|cs| - 1]);
      if Stopped(t) then t else Step(t, cs[|cs| - 1])
  }

  function Outcome(t: Tally): Result<(seq<GmaEntry>, nat), PublishError>
  {
    if t.duplicate.Some? then Err(DuplicateEntry(t.duplicate.value))
    else if t.failed == [] then
      if t.files == [] then Err(NoEntries) else Ok((t.files, t.size))
    else
      var sorted := LexSort.Sort(t.failed);
      Err(NotWhitelisted(if t.extra then sorted + ["..."] else sorted))
  }

  /** What `verify_whitelist` returns for the folder `root` and the items its walk reports. */
  function WhitelistVerdict(isDir: bool, isAbsolute: bool, root: string, ignoreGlobs: seq<string>, walk: seq<Walked>): Result<(seq<GmaEntry>, nat), PublishError>
  {
    if !isDir || !isAbsolute then Err(InvalidContentPath)
    else Outcome(Scan(Candidates(root, WithNul(ignoreGlobs), walk)))
  }

  lemma {:induction false} ScanStopsForGood(cs: seq<Candidate>, k: nat)
    requires k <= |cs| && Stopped(Scan(cs[..k]))
    ensures Scan(cs) == Scan(cs[..k])
    decreases |cs| - k
  {
    if k < |cs| {
      var init := cs[..|cs| - 1];
      assert init[..k] == cs[..k];
      ScanStopsForGood(init, k);
    } else {
      assert cs[..k] == cs;
    }
  }

  // ---------------------------------------------------------------------------
  // What the verdict means

  function Paths(cs: seq<Candidate>): seq<string>
  {
    seq(|cs|, i requires 0 <= i < |cs| => cs[i].path)
  }

  /** The rejected paths, in walk order. */
  function Rejected(cs: seq<Candidate>): seq<string>
  {
    if cs == [] then []
    else Rejected(cs[..|cs| - 1]) + if cs[|cs| - 1].whitelisted then [] else [cs[|cs| - 1].path]
  }

  /** The archive entries for the candidates, in walk order. */
  function Entries(cs: seq<Candidate>): (r: seq<GmaEntry>)
    ensures |r| == |cs|
  {
    if cs == [] then [] else Entries(cs[..|cs| - 1]) + [GmaEntry(cs[|cs| - 1].path, cs[|cs| - 1].size, 0, 0)]
  }

  function TotalSize(cs: seq<Candidate>): nat
  {
    if cs == [] then 0 else TotalSize(cs[..|cs| - 1]) + cs[|cs| - 1].size
  }

  predicate Distinct(cs: seq<Candidate>)
  {
    forall i, j :: 0 <= i < j < |cs| ==> cs[i].path != cs[j].path
  }

  predicate AllWhitelisted(cs: seq<Candidate>)
  {
    forall i :: 0 <= i < |cs| ==> cs[i].whitelisted
  }

  lemma {:induction false} NoneRejected(cs: seq<Candidate>)
    ensures Rejected(cs) == [] <==> AllWhitelisted(cs)
  {
    if cs != [] {
      var init := cs[..|cs| - 1];
      NoneRejected(init);
      if AllWhitelisted(cs) {
        assert AllWhitelisted(init) by {
          forall i | 0 <= i < |init| ensures init[i].whitelisted {
            assert init[i] == cs[i];
          }
        }
      }
    }
  }

  /** While the loop runs, it has seen each path once, rejected exactly the rejected ones, and, with none rejected, listed every file. */
  lemma {:induction false} ScanRunning(cs: seq<Candidate>)
    requires !Stopped(Scan(cs))
    ensures Scan(cs).seen == set p | p in Paths(cs)
    ensures Distinct(cs)
    ensures Scan(cs).failed == Rejected(cs) && |Rejected(cs)| <= 9
    ensures Scan(cs).failed == [] ==> Scan(cs).files == Entries(cs) && Scan(cs).size == TotalSize(cs)
  {
    if cs != [] {
      var init, c := cs[..|cs| - 1], cs[|cs| - 1];
      ScanRunning(init);
      RunningStep(init, c);
      assert cs == init + [c];
    }
  }

  lemma RunningStep(init: seq<Candidate>, c: Candidate)
    requires !Stopped(Scan(init)) && !Stopped(Step(Scan(init), c))
    requires Scan(init).seen == set p | p in Paths(init)
    requires Distinct(init)
    requires Scan(init).failed == Rejected(init) && |Rejected(init)| <= 9
    requires Scan(init).failed == [] ==> Scan(init).files == Entries(init) && Scan(init).size == TotalSize(init)
    ensures var cs := init + [c];
      Scan(cs).seen == (set p | p in Paths(cs)) && Distinct(cs)
      && Scan(cs).failed == Rejected(cs) && |Rejected(cs)| <= 9
      && (Scan(cs).failed == [] ==> Scan(cs).files == Entries(cs) && Scan(cs).size == TotalSize(cs))
  {
    var cs := init + [c];
    assert cs[..|init|] == init;
    assert Paths(cs) == Paths(init) + [c.path];
    assert c.path !in Paths(init);
    forall i, j | 0 <= i < j < |cs| ensures cs[i].path != cs[j].path {
      if j == |init| {
        assert cs[i].path == Paths(init)[i];
      } else {
        assert cs[i] == init[i] && cs[j] == init[j];
      }
    }
  }

  /** The loop stops on a tenth rejected path or on a path seen twice. */
  lemma {:induction false} ScanStopped(cs: seq<Candidate>)
    requires Stopped(Scan(cs))
    ensures Scan(cs).extra ==> Scan(cs).duplicate.None? && |Rejected(cs)| >= 10 && Scan(cs).failed == Rejected(cs)[..9]
    ensures Scan(cs).duplicate.Some? ==> !Scan(cs).extra && !Distinct(cs)
    ensures Scan(cs).duplicate.Some? ==> Scan(cs).duplicate.value in Paths(cs)
  {
    var init, c := cs[..|cs| - 1], cs[|cs| - 1];
    assert cs == init + [c];
    assert Paths(cs) == Paths(init) + [c.path];
    if Stopped(Scan(init)) {
      ScanStopped(init);
      if !Distinct(init) {
        var i, j :| 0 <= i < j < |init| && init[i].path == init[j].path;
        assert cs[i] == init[i] && cs[j] == init[j];
      }
    } else {
      ScanRunning(init);
      if c.path in Scan(init).seen {
        var i :| 0 <= i < |init| && Paths(init)[i] == c.path;
        assert cs[i] == init[i];
      } else {
        assert Rejected(cs) == Rejected(init) + [c.path];
        assert Rejected(cs)[..9] == Rejected(init);
      }
    }
  }

  /**
   * The folder passes exactly when it is an absolute directory with at
   * least one file left after the ignore lists, no path twice and every path
   * whitelisted; it then lists every such file, with the sum of their sizes.
   */
  lemma WhitelistPasses(isDir: bool, isAbsolute: bool, root: string, ignoreGlobs: seq<string>, walk: seq<Walked>)
    ensures var cs := Candidates(root, WithNul(ignoreGlobs), walk);
      WhitelistVerdict(isDir, isAbsolute, root, ignoreGlobs, walk).Ok? <==>
        isDir && isAbsolute && cs != [] && Distinct(cs) && AllWhitelisted(cs)
    ensures var cs := Candidates(root, WithNul(ignoreGlobs), walk);
      WhitelistVerdict(isDir, isAbsolute, root, ignoreGlobs, walk).Ok? ==>
        WhitelistVerdict(isDir, isAbsolute, root, ignoreGlobs, walk).value == (Entries(cs), TotalSize(cs))
  {
    var cs := Candidates(root, WithNul(ignoreGlobs), walk);
    NoneRejected(cs);
    if Stopped(Scan(cs)) {
      ScanStopped(cs);
    } else {
      ScanRunning(cs);
    }
  }

  /** `NoEntries` exactly when nothing is left after the ignore lists. */
  lemma WhitelistEmpty(isDir: bool, isAbsolute: bool, root: string, ignoreGlobs: seq<string>, walk: seq<Walked>)
    ensures WhitelistVerdict(isDir, isAbsolute, root, ignoreGlobs, walk) == Err(NoEntries) <==>
      isDir && isAbsolute && Candidates(root, WithNul(ignoreGlobs), walk) == []
  {
    var cs := Candidates(root, WithNul(ignoreGlobs), walk);
    if Stopped(Scan(cs)) {
      ScanStopped(cs);
    } else {
      ScanRunning(cs);
    }
  }

  /**
   * A rejection lists the rejected paths sorted, at most nine of them; when
   * there are more, the first nine met, sorted, and then `...`. With no path
   * twice, any rejected path gives a rejection.
   */
  lemma WhitelistRejects(isDir: bool, isAbsolute: bool, root: string, ignoreGlobs: seq<string>, walk: seq<Walked>)
    ensures var cs := Candidates(root, WithNul(ignoreGlobs), walk);
      var r := WhitelistVerdict(isDir, isAbsolute, root, ignoreGlobs, walk);
      r.Err? && r.error.NotWhitelisted? ==>
        Rejected(cs) != []
        && (|Rejected(cs)| <= 9 ==> r.error.paths == LexSort.Sort(Rejected(cs)))
        && (|Rejected(cs)| > 9 ==> r.error.paths == LexSort.Sort(Rejected(cs)[..9]) + ["..."])
    ensures var cs := Candidates(root, WithNul(ignoreGlobs), walk);
      var r := WhitelistVerdict(isDir, isAbsolute, root, ignoreGlobs, walk);
      isDir && isAbsolute && Distinct(cs) && Rejected(cs) != [] ==> r.Err? && r.error.NotWhitelisted?
  {
    var cs := Candidates(root, WithNul(ignoreGlobs), walk);
    if Stopped(Scan(cs)) {
      ScanStopped(cs);
    } else {
      ScanRunning(cs);
    }
  }

  /** A duplicate is a path the walk gave twice; with no path twice there is none. */
  lemma WhitelistDuplicate(isDir: bool, isAbsolute: bool, root: string, ignoreGlobs: seq<string>, walk: seq<Walked>)
    ensures var cs := Candidates(root, WithNul(ignoreGlobs), walk);
      var r := WhitelistVerdict(isDir, isAbsolute, root, ignoreGlobs, walk);
      (r.Err? && r.error.DuplicateEntry? ==> !Distinct(cs) && r.error.path in Paths(cs))
      && (Distinct(cs) ==> !(r.Err? && r.error.DuplicateEntry?))
  {
    var cs := Candidates(root, WithNul(ignoreGlobs), walk);
    if Stopped(Scan(cs)) {
      ScanStopped(cs);
    } else {
      ScanRunning(cs);
    }
  }

  /** Taking one more candidate: nothing changes once the loop has stopped. */
  lemma ScanSnoc(cs: seq<Candidate>, c: Candidate)
    ensures Scan(cs + [c]) == if Stopped(Scan(cs)) then Scan(cs) else Step(Scan(cs), c)
  {
    assert (cs + [c])[..|cs|] == cs;
  }

  lemma CandidatesSnoc(root: string, ignore: seq<string>, walk: seq<Walked>, k: nat)
    requires k < |walk|
    ensures Candidates(root, ignore, walk[..k + 1]) == Candidates(root, ignore, walk[..k])
      + if CandidateOf(root, ignore, walk[k]).Some? then [CandidateOf(root, ignore, walk[k]).value] else []
  {
    assert walk[..k + 1][..k] == walk[..k];
  }

  /** The filters `verify_whitelist` applies to one walk item, and the whitelist check of what passes them. */
  method Sift(root: string, ignore: seq<string>, w: Walked) returns (c: Option<Candidate>)
    requires forall i :: 0 <= i < |ignore| ==> NUL in ignore[i]
    ensures c == CandidateOf(root, ignore, w)
  {
    if w.path.None? || w.isDir || |w.path.value| < |root| + 1 {
      return None;
    }
    var rel := AsciiLower(w.path.value[|root| + 1..]);
    var keep := FilterDefaultIgnored(rel);
    if !keep {
      return None;
    }
    var ignored := IsIgnored(rel, ignore);
    if ignored {
      return None;
    }
    var ok := Check(rel);
    c := Some(Candidate(rel, match w.size case None => 0 case Some(n) => n, ok));
  }

  /** `verify_whitelist`, the loop over the walk kept as the source has it. */
  method VerifyWhitelist(isDir: bool, isAbsolute: bool, root: string, ignoreGlobs: seq<string>, walk: seq<Walked>)
    returns (r: Result<(seq<GmaEntry>, nat), PublishError>)
    ensures r == WhitelistVerdict(isDir, isAbsolute, root, ignoreGlobs, walk)
  {
    if !isDir || !isAbsolute {
      return Err(InvalidContentPath);
    }
    var ignore := WithNul(ignoreGlobs);
    ghost var cs := Candidates(root, ignore, walk);
    var size: nat := 0;
    var failedExtra := false;
    var failed: seq<string> := [];
    var files: seq<GmaEntry> := [];
    var dedup: set<string> := {};
    for k := 0 to |walk|
      invariant Scan(Candidates(root, ignore, walk[..k])) == Tally(dedup, failed, false, files, size, None)
      invariant !failedExtra
    {
      var c := Sift(root, ignore, walk[k]);
      CandidatesSnoc(root, ignore, walk, k);
      if c.None? {
        assert Candidates(root, ignore, walk[..k + 1]) == Candidates(root, ignore, walk[..k]);
        continue;
      }
      var rel, entrySize, ok := c.value.path, c.value.size, c.value.whitelisted;
      ghost var before := Candidates(root, ignore, walk[..k]);
      ScanSnoc(before, c.value);
      CandidatesPrefix(root, ignore, walk, k + 1);
      assert Candidates(root, ignore, walk[..k + 1]) == before + [c.value];
      assert cs[..|before| + 1] == before + [c.value];
      if rel in dedup {
        ScanStopsForGood(cs, |before| + 1);
        return Err(DuplicateEntry(rel));
      }
      dedup := dedup + {rel};
      if !ok {
        if |failed| == 9 {
          failedExtra := true;
          ScanStopsForGood(cs, |before| + 1);
          assert Scan(cs) == Tally(dedup, failed, true, files, size, None);
          break;
        } else {
          failed := failed + [rel];
        }
      } else if failed == [] {
        size := size + entrySize;
        files := files + [GmaEntry(rel, entrySize, 0, 0)];
      }
    }
    assert walk[..|walk|] == walk;
    assert Scan(cs) == Tally(dedup, failed, failedExtra, files, size, None);
    if failed == [] {
      if files == [] {
        r := Err(NoEntries);
      } else {
        r := Ok((files, size));
      }
    } else {
      var sorted := LexSort.Sort(failed);
      if failedExtra {
        sorted := sorted + ["..."];
      }
      r := Err(NotWhitelisted(sorted));
    }
  }
}
