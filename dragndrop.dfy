/**
 * The frontend's `dragndrop.js`: what a drop onto the window holds (GMA
 * files, zip archives or a folder, never a mix) and the counter of drag
 * events that shows and hides the upload overlay.
 */
module DragDrop {
  import opened Wrappers
  import opened PathText
  import opened JsText

  /** `DROP_TYPE_GMA`, `DROP_TYPE_ZIP`, `DROP_TYPE_FOLDER`, `DROP_TYPE_IMAGE` (1 to 4). */
  datatype DropType = Gma | Zip | Folder | Image

  /** A dropped file: its name and its MIME type (empty when the browser knows none). */
  datatype DroppedFile = DroppedFile(name: string, mime: string)

  /** `[null]` (nothing dropped), `[false]` (refused) or `[true, files, type]`. */
  datatype DropResult = NothingDropped | Refused | Accepted(files: seq<DroppedFile>, dropType: DropType)

  // -------------------------------------------------------- getFileExtension

  /**
   * `/^.*?(?:\.(.*?))?$/` on `s`, the way the matcher runs it: the lazy
   * `.*?` grows one character at a time; at each length it first tries a
   * `.` followed by text that reaches the end with no line terminator
   * (the capture), then the end of the input with nothing captured.
   */
  function MatchFileExtension(s: string): Option<string>
  {
    LazyFrom(s, 0)
  }

  function LazyFrom(s: string, k: nat): Option<string>
    requires k <= |s|
    decreases |s| - k
  {
    if k < |s| && s[k] == '.' && LineRun(s[k + 1..]) == |s| - k - 1 then Some(s[k + 1..])
    else if k == |s| then None
    else if IsLineTerminator(s[k]) then None
    else LazyFrom(s, k + 1)
  }

  /** From a position before the first dot, with no line terminator anywhere, the match is the text after the first dot. */
  lemma {:induction false} LazyFirstDot(s: string, k: nat)
    requires k <= |s| && !HasLineTerminator(s)
    requires forall i :: 0 <= i < k ==> s[i] != '.'
    ensures LazyFrom(s, k) == match FirstIndexOf(s, '.')
      case None => None
      case Some(d) => Some(s[d + 1..])
    decreases |s| - k
  {
    if k < |s| {
      WholeLine(s[k + 1..]);
      if s[k] == '.' {
        FirstIndexOfAt(s, '.', k);
      } else {
        LazyFirstDot(s, k + 1);
      }
    }
  }

  /** Once past the first line terminator's position, no length of the lazy prefix matches. */
  lemma {:induction false} LazyFails(s: string, k: nat)
    requires k <= LineRun(s) < |s|
    ensures LazyFrom(s, k) == None
    decreases |s| - k
  {
    var m := LineRun(s);
    if k < m {
      assert s[k + 1..][m - k - 1] == s[m];
      LazyFails(s, k + 1);
    }
  }

  /**
   * `getFileExtension`: the text after the first `.`, or nothing when there
   * is no dot (or the name holds a line terminator).
   */
  lemma MatchTakesFirstDot(s: string)
    ensures MatchFileExtension(s) == if HasLineTerminator(s) then None else
      match FirstIndexOf(s, '.')
      case None => None
      case Some(d) => Some(s[d + 1..])
  {
    WholeLine(s);
    if HasLineTerminator(s) {
      LazyFails(s, 0);
    } else {
      LazyFirstDot(s, 0);
    }
  }

  /** Lower-casing a name leaves its dots and line terminators where they were. */
  lemma LowerKeepsMarks(name: string)
    ensures '.' in AsciiLower(name) <==> '.' in name
    ensures HasLineTerminator(AsciiLower(name)) <==> HasLineTerminator(name)
  {
    var lower := AsciiLower(name);
    if '.' in lower {
      var i :| 0 <= i < |lower| && lower[i] == '.';
      assert name[i] == '.';
    }
    if '.' in name {
      var i :| 0 <= i < |name| && name[i] == '.';
      assert lower[i] == '.';
    }
    if HasLineTerminator(lower) {
      var i :| 0 <= i < |lower| && IsLineTerminator(lower[i]);
      assert IsLineTerminator(name[i]);
    }
    if HasLineTerminator(name) {
      var i :| 0 <= i < |name| && IsLineTerminator(name[i]);
      assert IsLineTerminator(lower[i]);
    }
  }

  // ---------------------------------------------------------------- checkDrop

  const ZIP_TYPES := ["application/zip", "application/x-zip-compressed", "multipart/x-zip"]

  /**
   * The switch `checkDrop` runs on one file, as written: `gma` is a GMA, a
   * zip MIME type is a zip, an octet stream is a zip only with a `zip`
   * extension, and anything else refuses the drop (`None`). Its `case null`
   * never matches, since a missing extension is `undefined`: such a file
   * goes through the MIME switch like any other.
   */
  function FileDropType(file: DroppedFile): Option<DropType>
  {
    var extension := MatchFileExtension(AsciiLower(file.name));
    if extension == Some("gma") then Some(Gma)
    else if file.mime in ZIP_TYPES then Some(Zip)
    else if file.mime == "application/octet-stream" && extension == Some("zip") then Some(Zip)
    else None
  }

  /** No file is ever a folder. */
  lemma FolderUnreachable(file: DroppedFile)
    ensures FileDropType(file) != Some(Folder)
  {
  }

  /** A dropped folder (a name with no dot, no MIME type) refuses the drop instead. */
  lemma FolderRefused(name: string)
    requires '.' !in name && !HasLineTerminator(name)
    ensures FileDropType(DroppedFile(name, "")) == None
  {
    LowerKeepsMarks(name);
    MatchTakesFirstDot(AsciiLower(name));
  }

  /** What `trim` removes: white space and line terminators. */
  predicate IsTrimmed(c: char)
  {
    c == ' ' || c == '\t' || c == '\U{000B}' || c == '\U{000C}' || c == '\U{00A0}' || c == '\U{FEFF}' ||
    IsLineTerminator(c)
  }

  /** `!type || type.trim().length === 0`. */
  predicate Blank(mime: string)
  {
    forall i :: 0 <= i < |mime| ==> IsTrimmed(mime[i])
  }

  /**
   * The switch as evidently intended: its `case null` also catches the
   * `undefined` of a name without an extension, so a nameless-extension file
   * with a blank MIME type is a folder and one with a MIME type refuses the
   * drop.
   */
  function FixedFileDropType(file: DroppedFile): Option<DropType>
  {
    var extension := MatchFileExtension(AsciiLower(file.name));
    if extension == Some("gma") then Some(Gma)
    else if extension.None? then (if Blank(file.mime) then Some(Folder) else None)
    else if file.mime in ZIP_TYPES then Some(Zip)
    else if file.mime == "application/octet-stream" && extension == Some("zip") then Some(Zip)
    else None
  }

  /** With the fix a folder is recognised, and files with an extension are typed as before. */
  lemma FixedFolder(file: DroppedFile)
    requires '.' !in file.name && !HasLineTerminator(file.name)
    ensures FixedFileDropType(file) == (if Blank(file.mime) then Some(Folder) else None)
  {
    LowerKeepsMarks(file.name);
    MatchTakesFirstDot(AsciiLower(file.name));
  }

  lemma FixedKeepsExtensions(file: DroppedFile)
    requires MatchFileExtension(AsciiLower(file.name)).Some?
    ensures FixedFileDropType(file) == FileDropType(file)
  {
  }

  /** Every file has drop type `t`. */
  predicate Uniform(files: seq<DroppedFile>, classify: DroppedFile -> Option<DropType>, t: DropType)
  {
    forall i :: 0 <= i < |files| ==> classify(files[i]) == Some(t)
  }

  /**
   * `checkDrop`, given the per-file switch as `classify`: nothing dropped
   * is `[null]`; the files are accepted, in order, when they all have one
   * drop type; otherwise the drop is refused.
   */
  method CheckDrop(files: Option<seq<DroppedFile>>, classify: DroppedFile -> Option<DropType>) returns (r: DropResult)
    ensures r == NothingDropped <==> files.None? || files.value == []
    ensures r.Accepted? ==> r.files == files.value && Uniform(files.value, classify, r.dropType)
    ensures r == Refused ==> files.Some? && forall t :: !Uniform(files.value, classify, t)
  {
    if files.None? || |files.value| == 0 {
      return NothingDropped;
    }
    var fs := files.value;
    var currentDrag: seq<DroppedFile> := [];
    var dropType: Option<DropType> := None;
    for i := 0 to |fs|
      invariant currentDrag == fs[..i]
      invariant i == 0 <==> dropType.None?
      invariant i > 0 ==> Uniform(fs[..i], classify, dropType.value)
    {
      var thisDropType := classify(fs[i]);
      if thisDropType.None? {
        return Refused;
      }
      if dropType.Some? {
        if dropType != thisDropType {
          assert classify(fs[0]) == dropType by {
            assert fs[..i][0] == fs[0];
          }
          return Refused;
        }
      } else {
        dropType := thisDropType;
      }
      currentDrag := currentDrag + [fs[i]];
      assert forall j :: 0 <= j < i ==> fs[..i + 1][j] == fs[..i][j];
    }
    assert fs[..|fs|] == fs;
    return Accepted(currentDrag, dropType.value);
  }

  // ---------------------------------------------------------------- dragClock

  /**
   * `dragClock` and whether the body carries the `upload` class: entering
   * drags count up and show the overlay at 1; leaving drags count down and
   * hide it at 0.
   */
  class DragCounter {
    var clock: int
    var uploading: bool

    /** The overlay shows exactly while a drag is over the window. */
    predicate Valid()
      reads this
    {
      uploading <==> clock > 0
    }

    constructor()
      ensures Valid() && clock == 0 && !uploading
    {
      clock := 0;
      uploading := false;
    }

    /** `dragenter`; from any state, including the one a drop leaves behind. */
    method DragEnter()
      modifies this
      ensures old(Valid()) ==> Valid()
      ensures clock == old(clock) + 1
      ensures uploading == (old(uploading) || clock == 1)
    {
      clock := clock + 1;
      if clock == 1 {
        uploading := true;
      }
    }

    /** `dragleave`; from any state, including the one a drop leaves behind. */
    method DragLeave()
      modifies this
      ensures old(Valid()) ==> Valid()
      ensures clock == old(clock) - 1
      ensures uploading == (old(uploading) && clock != 0)
    {
      clock := clock - 1;
      if clock == 0 {
        uploading := false;
      }
    }

    /**
     * A drop, as written: the counter goes down but the overlay is left as
     * it was, so a drop that ends the only drag leaves it showing.
     */
    method Drop(files: Option<seq<DroppedFile>>) returns (r: DropResult)
      modifies this
      ensures clock == old(clock) - 1 && uploading == old(uploading)
      ensures old(clock) == 1 && old(uploading) ==> !Valid()
      ensures r == NothingDropped <==> files.None? || files.value == []
    {
      clock := clock - 1;
      r := CheckDrop(files, FileDropType);
    }

    /** A drop as evidently intended: it ends a drag the way leaving does. */
    method FixedDrop(files: Option<seq<DroppedFile>>) returns (r: DropResult)
      requires Valid()
      modifies this
      ensures Valid()
      ensures clock == old(clock) - 1 && uploading == (old(uploading) && clock != 0)
      ensures r == NothingDropped <==> files.None? || files.value == []
    {
      clock := clock - 1;
      if clock == 0 {
        uploading := false;
      }
      r := CheckDrop(files, FixedFileDropType);
    }
  }
}
