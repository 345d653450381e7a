/**
 * The GMA whitelist and ignore lists (src-tauri/src/gma/whitelist.rs).
 *
 * Globs and paths are NUL-terminated strings, one character per byte. `*`
 * matches any run of bytes, `/` included; `?` matches exactly one byte; every
 * other byte matches itself. `Globber` is the two-pointer matcher with
 * backtracking to the last star; `Match` is the recursive definition it is
 * proved to agree with.
 */
module Whitelist {

  const NUL: char := '\0'
  const STAR: char := '*'
  const QUESTION: char := '?'

  /** The text before the first NUL (the whole string when there is none). */
  function UpToNul(s: string): string
  {
    if s == [] || s[0] == NUL then [] else [s[0]] + UpToNul(s[1..])
  }

  /** The reference semantics of a glob. */
  predicate Match(p: string, s: string)
    decreases |p| + |s|
  {
    if p == [] then s == []
    else if p[0] == STAR then Match(p[1..], s) || (s != [] && Match(p, s[1..]))
    else s != [] && (p[0] == QUESTION || p[0] == s[0]) && Match(p[1..], s[1..])
  }

  predicate NoStar(p: string)
  {
    STAR !in p
  }

  predicate AllStars(p: string)
  {
    forall i :: 0 <= i < |p| ==> p[i] == STAR
  }

  /** Only stars from position `w` of the glob on. */
  ghost predicate StarsFrom(pat: string, w: nat)
  {
    forall i :: w <= i < |pat| ==> pat[i] == STAR
  }

  /** `p` matches some suffix of `t`. */
  predicate AnySuffix(p: string, t: string)
    decreases |t|
  {
    Match(p, t) || (t != [] && AnySuffix(p, t[1..]))
  }

  // ---------------------------------------------------------------------------
  // Facts about the reference semantics

  lemma {:induction false} UpToNulFacts(s: string)
    requires NUL in s
    ensures |UpToNul(s)| < |s| && s[|UpToNul(s)|] == NUL
    ensures forall i :: 0 <= i < |UpToNul(s)| ==> UpToNul(s)[i] == s[i] && s[i] != NUL
  {
    if s[0] != NUL {
      UpToNulFacts(s[1..]);
    }
  }

  /** A text without NUL, terminated, reads back as itself. */
  lemma {:induction false} UpToNulOfTerminated(text: string)
    requires NUL !in text
    ensures UpToNul(text + [NUL]) == text
  {
    if text != [] {
      assert (text + [NUL])[1..] == text[1..] + [NUL];
      UpToNulOfTerminated(text[1..]);
    }
  }

  /** Only stars match the empty text: trailing stars match an empty remainder. */
  lemma {:induction false} EmptyText(p: string)
    ensures Match(p, []) <==> AllStars(p)
  {
    if p != [] {
      EmptyText(p[1..]);
      if p[0] == STAR {
        assert AllStars(p) <==> AllStars(p[1..]);
      }
    }
  }

  /** A star-free prefix consumes exactly its own length of text. */
  lemma {:induction false} LiteralPrefix(lit: string, r: string, t: string)
    requires NoStar(lit)
    ensures Match(lit + r, t) ==> |t| >= |lit| && Match(r, t[|lit|..])
  {
    if lit == [] {
      assert lit + r == r && t[0..] == t;
    } else {
      assert (lit + r)[0] == lit[0] && (lit + r)[1..] == lit[1..] + r;
      assert lit[0] != STAR && NoStar(lit[1..]);
      if t != [] {
        LiteralPrefix(lit[1..], r, t[1..]);
        if |t| >= |lit| {
          assert t[1..][|lit| - 1..] == t[|lit|..];
        }
      }
    }
  }

  /** A leading star tries every suffix. */
  lemma {:induction false} StarIsAnySuffix(r: string, t: string)
    ensures Match([STAR] + r, t) <==> AnySuffix(r, t)
    decreases |t|
  {
    assert ([STAR] + r)[1..] == r;
    if t != [] {
      StarIsAnySuffix(r, t[1..]);
    }
  }

  lemma {:induction false} AnySuffixOfSuffix(r: string, t: string, k: nat)
    requires k <= |t| && AnySuffix(r, t[k..])
    ensures AnySuffix(r, t)
  {
    if k > 0 {
      assert t[1..][k - 1..] == t[k..];
      AnySuffixOfSuffix(r, t[1..], k - 1);
    }
  }

  lemma {:induction false} TooShort(lit: string, r: string, u: string)
    requires NoStar(lit) && |u| < |lit|
    ensures !AnySuffix(lit + r, u)
  {
    LiteralPrefix(lit, r, u);
    if u != [] {
      TooShort(lit, r, u[1..]);
    }
  }

  lemma {:induction false} StarForward(lit: string, r: string, u: string)
    requires NoStar(lit)
    ensures AnySuffix(lit + [STAR] + r, u) ==> |u| >= |lit| && AnySuffix(r, u[|lit|..])
  {
    var x := lit + [STAR] + r;
    assert x == lit + ([STAR] + r);
    if AnySuffix(x, u) {
      if Match(x, u) {
        LiteralPrefix(lit, [STAR] + r, u);
        StarIsAnySuffix(r, u[|lit|..]);
      } else {
        StarForward(lit, r, u[1..]);
        assert u[|lit|..][1..] == u[1..][|lit|..];
        AnySuffixOfSuffix(r, u[|lit|..], 1);
      }
    }
  }

  // ---------------------------------------------------------------------------
  // The same semantics on positions into the whole glob and text, which is how
  // the matcher's pointers see them.

  ghost predicate MatchAt(pat: string, text: string, i: nat, j: nat)
    requires i <= |pat| && j <= |text|
    decreases |pat| - i + |text| - j
  {
    if i == |pat| then j == |text|
    else if pat[i] == STAR then MatchAt(pat, text, i + 1, j) || (j < |text| && MatchAt(pat, text, i, j + 1))
    else j < |text| && (pat[i] == QUESTION || pat[i] == text[j]) && MatchAt(pat, text, i + 1, j + 1)
  }

  ghost predicate SuffixAt(pat: string, text: string, i: nat, j: nat)
    requires i <= |pat| && j <= |text|
    decreases |text| - j
  {
    MatchAt(pat, text, i, j) || (j < |text| && SuffixAt(pat, text, i, j + 1))
  }

  lemma {:induction false} MatchAtSlices(pat: string, text: string, i: nat, j: nat)
    requires i <= |pat| && j <= |text|
    ensures MatchAt(pat, text, i, j) == Match(pat[i..], text[j..])
    decreases |pat| - i + |text| - j
  {
    if i < |pat| {
      assert pat[i..][0] == pat[i] && pat[i..][1..] == pat[i + 1..];
      if j < |text| {
        assert text[j..][0] == text[j] && text[j..][1..] == text[j + 1..];
        MatchAtSlices(pat, text, i, j + 1);
        MatchAtSlices(pat, text, i + 1, j + 1);
      }
      MatchAtSlices(pat, text, i + 1, j);
    }
  }

  lemma {:induction false} SuffixAtSlices(pat: string, text: string, i: nat, j: nat)
    requires i <= |pat| && j <= |text|
    ensures SuffixAt(pat, text, i, j) == AnySuffix(pat[i..], text[j..])
    decreases |text| - j
  {
    MatchAtSlices(pat, text, i, j);
    if j < |text| {
      assert text[j..][1..] == text[j + 1..];
      SuffixAtSlices(pat, text, i, j + 1);
    }
  }

  // ---------------------------------------------------------------------------
  // The state of `globber`'s second loop: pattern and text positions `w` and
  // `s`; once a star has been seen, `mp` just after the last star and `cp` one
  // past the text position that star's match currently ends at. `goal` is
  // whether the whole glob matches: either the rest of the pattern matches the
  // rest of the text, or the pattern after the last star matches a suffix of
  // the text that starts at `cp` or later (a longer run for that star).

  ghost predicate Scan(pat: string, text: string, w: nat, s: nat, mp: nat, cp: nat, starSeen: bool, goal: bool)
  {
    w <= |pat| && s <= |text| && cp <= |text| + 1 &&
    (!starSeen ==> cp == 0 && (s < |text| ==> w < |pat| && pat[w] == STAR)) &&
    (starSeen ==> 1 <= mp <= w && 1 <= cp <= s + 1 && w - mp == s - (cp - 1) && NoStar(pat[mp..w])) &&
    (goal <==> MatchAt(pat, text, w, s) || (starSeen && cp <= |text| && SuffixAt(pat, text, mp, cp)))
  }

  /** At a star: remember it; when it ends the pattern, the glob matches. */
  lemma ScanStar(pat: string, text: string, w: nat, s: nat, mp: nat, cp: nat, starSeen: bool, goal: bool)
    requires Scan(pat, text, w, s, mp, cp, starSeen, goal) && w < |pat| && pat[w] == STAR && s < |text|
    ensures cp <= s + 1
    ensures w + 1 == |pat| ==> goal
    ensures w + 1 < |pat| ==> Scan(pat, text, w + 1, s, w + 1, s + 1, true, goal)
  {
    MatchAtSlices(pat, text, w, s);
    MatchAtSlices(pat, text, w + 1, s);
    SuffixAtSlices(pat, text, w + 1, s + 1);
    if starSeen && cp <= |text| {
      SuffixAtSlices(pat, text, mp, cp);
    }
    var r := pat[w + 1..];
    assert pat[w..] == [STAR] + r;
    StarIsAnySuffix(r, text[s..]);
    assert text[s..][1..] == text[s + 1..];
    if starSeen && cp <= |text| && AnySuffix(pat[mp..], text[cp..]) {
      var lit := pat[mp..w];
      assert pat[mp..] == lit + [STAR] + r;
      StarForward(lit, r, text[cp..]);
      assert text[cp..][|lit|..] == text[s + 1..];
    }
    if w + 1 == |pat| {
      AnySuffixOfSuffix(r, text[s..], |text| - s);
    }
  }

  /** A byte matched after a star: both positions move on. */
  lemma ScanLiteral(pat: string, text: string, w: nat, s: nat, mp: nat, cp: nat, starSeen: bool, goal: bool)
    requires Scan(pat, text, w, s, mp, cp, starSeen, goal) && w < |pat| && s < |text|
    requires pat[w] != STAR && (pat[w] == text[s] || pat[w] == QUESTION)
    ensures Scan(pat, text, w + 1, s + 1, mp, cp, starSeen, goal)
  {
    assert pat[mp..w + 1] == pat[mp..w] + [pat[w]];
  }

  /** A mismatch after a star: the star takes one more byte and the rest starts again. */
  lemma ScanBacktrack(pat: string, text: string, w: nat, s: nat, mp: nat, cp: nat, starSeen: bool, goal: bool)
    requires Scan(pat, text, w, s, mp, cp, starSeen, goal) && s < |text|
    requires w == |pat| || (pat[w] != STAR && pat[w] != text[s] && pat[w] != QUESTION)
    ensures starSeen && Scan(pat, text, mp, cp, mp, cp + 1, true, goal)
  {
    MatchAtSlices(pat, text, w, s);
    assert !Match(pat[w..], text[s..]);
    assert pat[mp..mp] == [];
  }

  /** The text used up: only trailing stars may be left. */
  lemma ScanEnd(pat: string, text: string, w: nat, s: nat, mp: nat, cp: nat, starSeen: bool, goal: bool)
    requires Scan(pat, text, w, s, mp, cp, starSeen, goal) && s == |text|
    ensures goal <==> StarsFrom(pat, w)
  {
    MatchAtSlices(pat, text, w, s);
    EmptyText(pat[w..]);
    assert AllStars(pat[w..]) <==> StarsFrom(pat, w);
    assert text[s..] == [];
    if starSeen && cp <= |text| {
      SuffixAtSlices(pat, text, mp, cp);
      var lit := pat[mp..w];
      assert pat[mp..] == lit + pat[w..];
      TooShort(lit, pat[w..], text[cp..]);
    }
  }

  // ---------------------------------------------------------------------------
  // The matcher

  /** What the byte at `i` of a terminated string reads as: its text, then NUL. */
  ghost predicate ReadsAs(raw: string, txt: string, i: nat)
  {
    i < |raw| && i <= |txt| &&
    (i < |txt| ==> raw[i] == txt[i] && raw[i] != NUL) &&
    (i == |txt| ==> raw[i] == NUL)
  }

  lemma ByteAt(raw: string, txt: string, i: nat)
    requires NUL in raw && txt == UpToNul(raw) && i <= |txt|
    ensures ReadsAs(raw, txt, i)
  {
    UpToNulFacts(raw);
  }

  /** `globber`: whether the glob matches the text, each read up to its NUL. */
  method Globber(wild: string, str: string) returns (matched: bool)
    requires NUL in wild && NUL in str
    ensures matched == Match(UpToNul(wild), UpToNul(str))
  {
    ghost var pat := UpToNul(wild);
    ghost var text := UpToNul(str);
    ghost var goal := MatchAt(pat, text, 0, 0);
    MatchAtSlices(pat, text, 0, 0);
    assert pat[0..] == pat && text[0..] == text;
    var w: nat, s: nat := 0, 0;

    ByteAt(wild, pat, w);
    ByteAt(str, text, s);
    // Up to the first star, bytes must match one for one.
    while str[s] != NUL && wild[w] != STAR
      invariant ReadsAs(wild, pat, w) && ReadsAs(str, text, s)
      invariant goal <==> MatchAt(pat, text, w, s)
      decreases |text| - s
    {
      if wild[w] != str[s] && wild[w] != QUESTION {
        return false;
      }
      w := w + 1;
      s := s + 1;
      ByteAt(wild, pat, w);
      ByteAt(str, text, s);
    }

    matched := StarPhase(wild, str, w, s, pat, text, goal);
  }

  /**
   * The rest of `globber`: from the first star on, a mismatch backtracks to
   * the last star; once the text is used up, only stars may be left.
   */
  method StarPhase(wild: string, str: string, w0: nat, s0: nat, ghost pat: string, ghost text: string, ghost goal: bool)
    returns (matched: bool)
    requires NUL in wild && NUL in str && pat == UpToNul(wild) && text == UpToNul(str)
    requires ReadsAs(wild, pat, w0) && ReadsAs(str, text, s0)
    requires s0 < |text| ==> w0 < |pat| && pat[w0] == STAR
    requires goal <==> MatchAt(pat, text, w0, s0)
    ensures matched == goal
  {
    var cp: nat, mp: nat := 0, 0;
    var w: nat, s: nat := w0, s0;
    ghost var starSeen := false;
    while str[s] != NUL
      invariant ReadsAs(wild, pat, w) && ReadsAs(str, text, s)
      invariant Scan(pat, text, w, s, mp, cp, starSeen, goal)
      decreases |text| + 1 - cp, |text| - s, |pat| - w
    {
      if wild[w] == STAR {
        ScanStar(pat, text, w, s, mp, cp, starSeen, goal);
        w := w + 1;
        ByteAt(wild, pat, w);
        if wild[w] == NUL {
          return true;
        }
        mp := w;
        cp := s + 1;
        starSeen := true;
      } else if wild[w] == str[s] || wild[w] == QUESTION {
        ScanLiteral(pat, text, w, s, mp, cp, starSeen, goal);
        w := w + 1;
        s := s + 1;
      } else {
        ScanBacktrack(pat, text, w, s, mp, cp, starSeen, goal);
        w := mp;
        s := cp;
        cp := cp + 1;
      }
      ByteAt(wild, pat, w);
      ByteAt(str, text, s);
    }

    ScanEnd(pat, text, w, s, mp, cp, starSeen, goal);
    matched := TrailingStars(wild, w, pat, goal);
  }

  /** The end of `globber`: with the text used up, skip the stars; the pattern must end there. */
  method TrailingStars(wild: string, w0: nat, ghost pat: string, ghost goal: bool) returns (matched: bool)
    requires NUL in wild && pat == UpToNul(wild) && ReadsAs(wild, pat, w0)
    requires goal <==> StarsFrom(pat, w0)
    ensures matched == goal
  {
    var w := w0;
    while wild[w] == STAR
      invariant ReadsAs(wild, pat, w)
      invariant goal <==> StarsFrom(pat, w)
      decreases |pat| - w
    {
      w := w + 1;
      ByteAt(wild, pat, w);
    }
    return wild[w] == NUL;
  }

  // ---------------------------------------------------------------------------
  // The glob lists

  /** `globbers!`: each glob with its terminating NUL. */
  function Globbers(globs: seq<string>): (r: seq<string>)
    ensures |r| == |globs|
    ensures forall i :: 0 <= i < |r| ==> r[i] == globs[i] + [NUL]
  {
    seq(|globs|, i requires 0 <= i < |globs| => globs[i] + [NUL])
  }

  /** DEFAULT_IGNORE: files never packed into an addon. */
  const DEFAULT_IGNORE: seq<string> := Globbers(DEFAULT_IGNORE_GLOBS)

  /** The default ignore globs as written, before NUL termination. */
  const DEFAULT_IGNORE_GLOBS: seq<string> := [
    ".git/*", "*.psd", "*.pdn", "*.xcf", "*.svn", "*.ini", "*.rtf", "*.pdf",
    ".DS_Store", ".gitignore", ".vscode/*", ".github/*", ".vs/*", ".editorconfig",
    "LICENSE", "LICENSE.*", "license", "license.*", "README", "README.*",
    "readme", "readme.*", "addon.json", "addon.txt", "addon.jpg"
  ]

  /** ADDON_WHITELIST: the only paths an addon may contain. */
  const ADDON_WHITELIST: seq<string> := Globbers(ADDON_WHITELIST_GLOBS)

  /** The whitelist globs as written, before NUL termination. */
  const ADDON_WHITELIST_GLOBS: seq<string> := [
    "lua/*.lua", "scenes/*.vcd", "particles/*.pcf", "resource/fonts/*.ttf",
    "scripts/vehicles/*.txt", "resource/localization/*/*.properties",
    "maps/*.bsp", "maps/*.nav", "maps/*.ain", "maps/thumb/*.png",
    "sound/*.wav", "sound/*.mp3", "sound/*.ogg",
    "materials/*.vmt", "materials/*.vtf", "materials/*.png", "materials/*.jpg", "materials/*.jpeg",
    "models/*.mdl", "models/*.vtx", "models/*.phy", "models/*.ani", "models/*.vvd"
  ] + [
    "gamemodes/*/*.txt", "gamemodes/*/*.fgd", "gamemodes/*/logo.png", "gamemodes/*/icon24.png",
    "gamemodes/*/gamemode/*.lua", "gamemodes/*/entities/effects/*.lua",
    "gamemodes/*/entities/weapons/*.lua", "gamemodes/*/entities/entities/*.lua",
    "gamemodes/*/backgrounds/*.png", "gamemodes/*/backgrounds/*.jpg", "gamemodes/*/backgrounds/*.jpeg",
    "gamemodes/*/content/models/*.mdl", "gamemodes/*/content/models/*.vtx",
    "gamemodes/*/content/models/*.phy", "gamemodes/*/content/models/*.ani",
    "gamemodes/*/content/models/*.vvd",
    "gamemodes/*/content/materials/*.vmt", "gamemodes/*/content/materials/*.vtf",
    "gamemodes/*/content/materials/*.png", "gamemodes/*/content/materials/*.jpg",
    "gamemodes/*/content/materials/*.jpeg",
    "gamemodes/*/content/scenes/*.vcd", "gamemodes/*/content/particles/*.pcf",
    "gamemodes/*/content/resource/fonts/*.ttf", "gamemodes/*/content/scripts/vehicles/*.txt",
    "gamemodes/*/content/resource/localization/*/*.properties",
    "gamemodes/*/content/maps/*.bsp", "gamemodes/*/content/maps/*.nav",
    "gamemodes/*/content/maps/*.ain", "gamemodes/*/content/maps/thumb/*.png",
    "gamemodes/*/content/sound/*.wav", "gamemodes/*/content/sound/*.mp3",
    "gamemodes/*/content/sound/*.ogg"
  ]

  /** Some glob of the list matches the text. */
  predicate MatchesAny(globs: seq<string>, text: string)
  {
    exists i :: 0 <= i < |globs| && Match(UpToNul(globs[i]), text)
  }

  /**
   * The loop `check`, `filter_default_ignored` and `is_ignored` share: run the
   * matcher with each glob in order and stop at the first that matches.
   */
  method AnyGlobMatches(globs: seq<string>, str: string) returns (found: bool)
    requires NUL in str && forall i :: 0 <= i < |globs| ==> NUL in globs[i]
    ensures found == MatchesAny(globs, UpToNul(str))
  {
    for k := 0 to |globs|
      invariant forall i :: 0 <= i < k ==> !Match(UpToNul(globs[i]), UpToNul(str))
    {
      var hit := Globber(globs[k], str);
      if hit {
        assert Match(UpToNul(globs[k]), UpToNul(str));
        return true;
      }
    }
    return false;
  }

  /** `check`: whether some whitelist glob matches the path. */
  method Check(path: string) returns (ok: bool)
    ensures ok == MatchesAny(ADDON_WHITELIST, UpToNul(path + [NUL]))
  {
    ok := AnyGlobMatches(ADDON_WHITELIST, path + [NUL]);
  }

  /** `filter_default_ignored`: false when some default-ignore glob matches the path. */
  method FilterDefaultIgnored(path: string) returns (keep: bool)
    ensures keep == !MatchesAny(DEFAULT_IGNORE, UpToNul(path + [NUL]))
  {
    var ignored := AnyGlobMatches(DEFAULT_IGNORE, path + [NUL]);
    keep := !ignored;
  }

  /** `is_ignored`: whether one of the user's globs matches the path; never for an empty list. */
  method IsIgnored(path: string, ignore: seq<string>) returns (ignored: bool)
    requires forall i :: 0 <= i < |ignore| ==> NUL in ignore[i]
    ensures ignore == [] ==> !ignored
    ensures ignored == MatchesAny(ignore, UpToNul(path + [NUL]))
  {
    if ignore == [] {
      return false;
    }
    ignored := AnyGlobMatches(ignore, path + [NUL]);
  }

  // ---------------------------------------------------------------------------
  // Properties of the semantics

  /** Replace every star of a glob with `fill`. */
  function FillStars(p: string, fill: string): string
  {
    if p == [] then [] else (if p[0] == STAR then fill else [p[0]]) + FillStars(p[1..], fill)
  }

  /** Any glob matches itself with its stars filled in by any text. */
  lemma {:induction false} FilledGlobMatches(p: string, fill: string)
    ensures Match(p, FillStars(p, fill))
  {
    if p != [] {
      FilledGlobMatches(p[1..], fill);
      var rest := FillStars(p[1..], fill);
      if p[0] == STAR {
        StarIsAnySuffix(p[1..], fill + rest);
        assert p == [STAR] + p[1..];
        assert (fill + rest)[|fill|..] == rest;
        AnySuffixOfSuffix(p[1..], fill + rest, |fill|);
      } else {
        assert ([p[0]] + rest)[1..] == rest;
      }
    }
  }

  /**
   * Every whitelist glob, with its stars replaced by any NUL-free text (the
   * tests use "test" and "a"), names a whitelisted path.
   */
  lemma WhitelistAcceptsFilledGlobs(i: nat, fill: string)
    requires i < |ADDON_WHITELIST| && NUL !in fill
    ensures MatchesAny(ADDON_WHITELIST, FillStars(UpToNul(ADDON_WHITELIST[i]), fill))
  {
    FilledGlobMatches(UpToNul(ADDON_WHITELIST[i]), fill);
  }

  /** A star alone matches any run of bytes, separators included. */
  lemma StarMatchesAnyRun(t: string)
    ensures Match([STAR], t)
  {
    StarIsAnySuffix([], t);
    AnySuffixOfSuffix([], t, |t|);
  }

  /** A question mark alone matches exactly one byte. */
  lemma QuestionMatchesOneByte(t: string)
    ensures Match([QUESTION], t) <==> |t| == 1
  {
    assert [QUESTION][1..] == [];
  }

  /** Any other byte matches only itself. */
  lemma LiteralMatchesItself(c: char, t: string)
    requires c != STAR && c != QUESTION
    ensures Match([c], t) <==> t == [c]
  {
    assert [c][1..] == [];
  }

  /** A glob ending in a literal byte only matches texts ending in that byte. */
  lemma {:induction false} EndsWithLiteral(p: string, c: char, t: string)
    requires c != STAR && c != QUESTION && Match(p + [c], t)
    ensures t != [] && t[|t| - 1] == c
    decreases |p| + |t|
  {
    if p == [] {
      LiteralMatchesItself(c, t);
    } else {
      assert (p + [c])[0] == p[0] && (p + [c])[1..] == p[1..] + [c];
      if p[0] == STAR {
        if Match(p[1..] + [c], t) {
          EndsWithLiteral(p[1..], c, t);
        } else {
          EndsWithLiteral(p, c, t[1..]);
        }
      } else {
        EndsWithLiteral(p[1..], c, t[1..]);
      }
    }
  }

  /** Adding stars at the end of a glob never loses a match. */
  lemma {:induction false} TrailingStarsKeepMatch(p: string, stars: string, t: string)
    requires AllStars(stars) && Match(p, t)
    ensures Match(p + stars, t)
    decreases |p| + |t|
  {
    if p == [] {
      assert p + stars == stars;
      assert t == [];
      EmptyText(stars);
    } else {
      assert (p + stars)[0] == p[0] && (p + stars)[1..] == p[1..] + stars;
      if p[0] == STAR {
        if Match(p[1..], t) {
          TrailingStarsKeepMatch(p[1..], stars, t);
        } else {
          TrailingStarsKeepMatch(p, stars, t[1..]);
        }
      } else {
        TrailingStarsKeepMatch(p[1..], stars, t[1..]);
      }
    }
  }

  /** Filling the one star of `a * b`, where `a` and `b` hold no star. */
  lemma {:induction false} FillOneStar(a: string, b: string, fill: string)
    requires NoStar(a) && NoStar(b)
    ensures FillStars(a + [STAR] + b, fill) == a + fill + b
    decreases |a|
  {
    if a == [] {
      assert [STAR] + b == [STAR] + b;
      assert ([STAR] + b)[1..] == b;
      FillNoStar(b, fill);
    } else {
      assert (a + [STAR] + b)[0] == a[0];
      assert (a + [STAR] + b)[1..] == a[1..] + [STAR] + b;
      FillOneStar(a[1..], b, fill);
      assert a == [a[0]] + a[1..];
    }
  }

  /** A glob without stars is left alone by filling. */
  lemma {:induction false} FillNoStar(a: string, fill: string)
    requires NoStar(a)
    ensures FillStars(a, fill) == a
    decreases |a|
  {
    if a != [] {
      FillNoStar(a[1..], fill);
      assert a == [a[0]] + a[1..];
    }
  }

  /** Matching is compositional: glob pieces matching text pieces match the joined text. */
  lemma {:induction false} MatchConcat(p1: string, t1: string, p2: string, t2: string)
    requires Match(p1, t1) && Match(p2, t2)
    ensures Match(p1 + p2, t1 + t2)
    decreases |p1| + |t1|
  {
    if p1 == [] {
      assert p1 + p2 == p2 && t1 + t2 == t2;
    } else {
      assert (p1 + p2)[0] == p1[0] && (p1 + p2)[1..] == p1[1..] + p2;
      if p1[0] == STAR && Match(p1[1..], t1) {
        MatchConcat(p1[1..], t1, p2, t2);
      } else if p1[0] == STAR {
        assert (t1 + t2)[1..] == t1[1..] + t2;
        MatchConcat(p1, t1[1..], p2, t2);
      } else {
        assert (t1 + t2)[0] == t1[0] && (t1 + t2)[1..] == t1[1..] + t2;
        MatchConcat(p1[1..], t1[1..], p2, t2);
      }
    }
  }

  /** A glob `a * b` matches a text `a x b`, for star-free `a` and `b`. */
  lemma OneStarMatches(glob: string, text: string, a: string, x: string, b: string)
    requires NoStar(a) && NoStar(b) && glob == a + [STAR] + b && text == a + x + b
    ensures Match(glob, text)
  {
    FilledGlobMatches(glob, x);
    FillOneStar(a, b, x);
  }

  /** The glob the whitelist holds at `i`, as the matcher reads it. */
  lemma WhitelistGlobAt(i: nat)
    requires i < |ADDON_WHITELIST_GLOBS| && NUL !in ADDON_WHITELIST_GLOBS[i]
    ensures i < |ADDON_WHITELIST| && UpToNul(ADDON_WHITELIST[i]) == ADDON_WHITELIST_GLOBS[i]
  {
    UpToNulOfTerminated(ADDON_WHITELIST_GLOBS[i]);
  }

  /** The glob the default ignore list holds at `i`, as the matcher reads it. */
  lemma IgnoreGlobAt(i: nat)
    requires i < |DEFAULT_IGNORE_GLOBS| && NUL !in DEFAULT_IGNORE_GLOBS[i]
    ensures i < |DEFAULT_IGNORE| && UpToNul(DEFAULT_IGNORE[i]) == DEFAULT_IGNORE_GLOBS[i]
  {
    UpToNulOfTerminated(DEFAULT_IGNORE_GLOBS[i]);
  }

  /** A glob `a * b * c` matches a text `a x b y c`, for star-free `a`, `b` and `c`. */
  lemma TwoStarsMatch(glob: string, text: string, a: string, x: string, b: string, y: string, c: string)
    requires NoStar(a) && NoStar(b) && NoStar(c)
    requires glob == a + [STAR] + b + [STAR] + c && text == a + x + b + y + c
    ensures Match(glob, text)
  {
    OneStarMatches(a + [STAR] + b, a + x + b, a, x, b);
    OneStarMatches([STAR] + c, y + c, [], y, c);
    MatchConcat(a + [STAR] + b, a + x + b, [STAR] + c, y + c);
    assert glob == (a + [STAR] + b) + ([STAR] + c);
    assert text == (a + x + b) + (y + c);
  }

  /** A Lua file directly under `lua/` is whitelisted. */
  lemma WhitelistAcceptsLuaFile()
    ensures MatchesAny(ADDON_WHITELIST, "lua/test.lua")
  {
    WhitelistGlobAt(0);
    WhitelistAcceptsLuaFileGlob(UpToNul(ADDON_WHITELIST[0]), "lua/test.lua");
    MatchesAnyAt(ADDON_WHITELIST, "lua/test.lua", 0);
  }

  lemma WhitelistAcceptsLuaFileGlob(g: string, path: string)
    requires g == "lua/*.lua" && path == "lua/test.lua"
    ensures Match(g, path)
  {
    WhitelistAcceptsLuaFileSplits(g, path);
    OneStarMatches(g, path, "lua/", "test", ".lua");
  }

  lemma WhitelistAcceptsLuaFileSplits(g: string, path: string)
    requires g == "lua/*.lua" && path == "lua/test.lua"
    ensures g == "lua/" + [STAR] + ".lua" && path == "lua/" + "test" + ".lua"
  {
  }

  /** The star of the Lua glob also crosses folder separators. */
  lemma WhitelistAcceptsNestedLuaFile()
    ensures MatchesAny(ADDON_WHITELIST, "lua/lol/test.lua")
  {
    WhitelistGlobAt(0);
    WhitelistAcceptsNestedLuaFileGlob(UpToNul(ADDON_WHITELIST[0]), "lua/lol/test.lua");
    MatchesAnyAt(ADDON_WHITELIST, "lua/lol/test.lua", 0);
  }

  lemma WhitelistAcceptsNestedLuaFileGlob(g: string, path: string)
    requires g == "lua/*.lua" && path == "lua/lol/test.lua"
    ensures Match(g, path)
  {
    WhitelistAcceptsNestedLuaFileSplits(g, path);
    OneStarMatches(g, path, "lua/", "lol/test", ".lua");
  }

  lemma WhitelistAcceptsNestedLuaFileSplits(g: string, path: string)
    requires g == "lua/*.lua" && path == "lua/lol/test.lua"
    ensures g == "lua/" + [STAR] + ".lua" && path == "lua/" + "lol/test" + ".lua"
  {
  }

  /** A `lua` folder inside `lua/` is no obstacle. */
  lemma WhitelistAcceptsLuaUnderLua()
    ensures MatchesAny(ADDON_WHITELIST, "lua/lua/testing.lua")
  {
    WhitelistGlobAt(0);
    WhitelistAcceptsLuaUnderLuaGlob(UpToNul(ADDON_WHITELIST[0]), "lua/lua/testing.lua");
    MatchesAnyAt(ADDON_WHITELIST, "lua/lua/testing.lua", 0);
  }

  lemma WhitelistAcceptsLuaUnderLuaGlob(g: string, path: string)
    requires g == "lua/*.lua" && path == "lua/lua/testing.lua"
    ensures Match(g, path)
  {
    WhitelistAcceptsLuaUnderLuaSplits(g, path);
    OneStarMatches(g, path, "lua/", "lua/testing", ".lua");
  }

  lemma WhitelistAcceptsLuaUnderLuaSplits(g: string, path: string)
    requires g == "lua/*.lua" && path == "lua/lua/testing.lua"
    ensures g == "lua/" + [STAR] + ".lua" && path == "lua/" + "lua/testing" + ".lua"
  {
  }

  /** A JPEG material is whitelisted. */
  lemma WhitelistAcceptsMaterial()
    ensures MatchesAny(ADDON_WHITELIST, "materials/lol.jpeg")
  {
    WhitelistGlobAt(17);
    WhitelistAcceptsMaterialGlob(UpToNul(ADDON_WHITELIST[17]), "materials/lol.jpeg");
    MatchesAnyAt(ADDON_WHITELIST, "materials/lol.jpeg", 17);
  }

  lemma WhitelistAcceptsMaterialGlob(g: string, path: string)
    requires g == "materials/*.jpeg" && path == "materials/lol.jpeg"
    ensures Match(g, path)
  {
    WhitelistAcceptsMaterialSplits(g, path);
    OneStarMatches(g, path, "materials/", "lol", ".jpeg");
  }

  lemma WhitelistAcceptsMaterialSplits(g: string, path: string)
    requires g == "materials/*.jpeg" && path == "materials/lol.jpeg"
    ensures g == "materials/" + [STAR] + ".jpeg" && path == "materials/" + "lol" + ".jpeg"
  {
  }

  /** A text file at the top of a gamemode is whitelisted. */
  lemma WhitelistAcceptsGamemodeText()
    ensures MatchesAny(ADDON_WHITELIST, "gamemodes/test/something.txt")
  {
    WhitelistGlobAt(23);
    WhitelistAcceptsGamemodeTextGlob(UpToNul(ADDON_WHITELIST[23]), "gamemodes/test/something.txt");
    MatchesAnyAt(ADDON_WHITELIST, "gamemodes/test/something.txt", 23);
  }

  lemma WhitelistAcceptsGamemodeTextGlob(g: string, path: string)
    requires g == "gamemodes/*/*.txt" && path == "gamemodes/test/something.txt"
    ensures Match(g, path)
  {
    WhitelistAcceptsGamemodeTextSplits(g, path);
    TwoStarsMatch(g, path, "gamemodes/", "test", "/", "something", ".txt");
  }

  lemma WhitelistAcceptsGamemodeTextSplits(g: string, path: string)
    requires g == "gamemodes/*/*.txt" && path == "gamemodes/test/something.txt"
    ensures g == "gamemodes/" + [STAR] + "/" + [STAR] + ".txt" && path == "gamemodes/" + "test" + "/" + "something" + ".txt"
  {
  }

  /** Files under `.git/` are ignored by default. */
  lemma DefaultIgnoresGitFile()
    ensures MatchesAny(DEFAULT_IGNORE, ".git/index")
  {
    IgnoreGlobAt(0);
    DefaultIgnoresGitFileGlob(UpToNul(DEFAULT_IGNORE[0]), ".git/index");
    MatchesAnyAt(DEFAULT_IGNORE, ".git/index", 0);
  }

  lemma DefaultIgnoresGitFileGlob(g: string, path: string)
    requires g == ".git/*" && path == ".git/index"
    ensures Match(g, path)
  {
    DefaultIgnoresGitFileSplits(g, path);
    OneStarMatches(g, path, ".git/", "index", []);
  }

  lemma DefaultIgnoresGitFileSplits(g: string, path: string)
    requires g == ".git/*" && path == ".git/index"
    ensures g == ".git/" + [STAR] + [] && path == ".git/" + "index" + []
  {
  }

  /** Photoshop files are ignored by default, in any folder. */
  lemma DefaultIgnoresPsd()
    ensures MatchesAny(DEFAULT_IGNORE, "some/location/blah.psd")
  {
    IgnoreGlobAt(1);
    DefaultIgnoresPsdGlob(UpToNul(DEFAULT_IGNORE[1]), "some/location/blah.psd");
    MatchesAnyAt(DEFAULT_IGNORE, "some/location/blah.psd", 1);
  }

  lemma DefaultIgnoresPsdGlob(g: string, path: string)
    requires g == "*.psd" && path == "some/location/blah.psd"
    ensures Match(g, path)
  {
    DefaultIgnoresPsdSplits(g, path);
    OneStarMatches(g, path, [], "some/location/blah", ".psd");
  }

  lemma DefaultIgnoresPsdSplits(g: string, path: string)
    requires g == "*.psd" && path == "some/location/blah.psd"
    ensures g == [] + [STAR] + ".psd" && path == [] + "some/location/blah" + ".psd"
  {
  }

  /** Star-free globs match exactly themselves. */
  lemma LiteralGlobMatchesItself(g: string)
    requires NoStar(g)
    ensures Match(g, g)
  {
    FillNoStar(g, []);
    FilledGlobMatches(g, []);
  }

  /** The addon's own metadata file is ignored by default. */
  lemma DefaultIgnoresAddonJson()
    ensures MatchesAny(DEFAULT_IGNORE, "addon.json")
  {
    IgnoreGlobAt(22);
    LiteralGlobMatchesItself(UpToNul(DEFAULT_IGNORE[22]));
    MatchesAnyAt(DEFAULT_IGNORE, "addon.json", 22);
  }

  /** A glob list matches a text when one of its globs does. */
  lemma MatchesAnyAt(globs: seq<string>, text: string, i: nat)
    requires i < |globs| && Match(UpToNul(globs[i]), text)
    ensures MatchesAny(globs, text)
  {
  }

  /** A user ignore list holding one star-free glob. */
  lemma UserIgnoresLiteral(glob: string, path: string)
    requires glob == "lol.txt\0" && path == "lol.txt"
    ensures MatchesAny([glob], path)
  {
    UpToNulOfTerminated(path);
    assert glob == path + [NUL];
    LiteralGlobMatchesItself(path);
    MatchesAnyAt([glob], path, 0);
  }

  /** A user ignore list holding the Lua-file glob. */
  lemma UserIgnoresLuaFiles(glob: string, path: string)
    requires glob == "lua/*.lua\0" && path == "lua/hello.lua"
    ensures MatchesAny([glob], path)
  {
    var g := "lua/" + [STAR] + ".lua";
    UpToNulOfTerminated(g);
    assert glob == g + [NUL];
    OneStarMatches(g, path, "lua/", "hello", ".lua");
    MatchesAnyAt([glob], path, 0);
  }

  /** A user ignore list holding a whole-folder glob. */
  lemma UserIgnoresLuaFolder(glob: string, path: string)
    requires glob == "lua/*\0" && path == "lua/hello.lua"
    ensures MatchesAny([glob], path)
  {
    var g := "lua/" + [STAR];
    UpToNulOfTerminated(g);
    assert glob == g + [NUL];
    OneStarMatches(g, path, "lua/", "hello.lua", []);
    MatchesAnyAt([glob], path, 0);
  }
}
