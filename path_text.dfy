/**
 * Text helpers for file names, shared by the addon discovery and the publish
 * checks: decimal digits, ASCII lower-casing and the extension of a file
 * name as Rust's `Path::extension` finds it.
 */
module PathText {
  import opened Wrappers

  predicate IsDigit(c: char)
  {
    '0' <= c <= '9'
  }

  predicate AllDigits(s: string)
  {
    forall i :: 0 <= i < |s| ==> IsDigit(s[i])
  }

  function DigitValue(c: char): (d: nat)
    requires IsDigit(c)
    ensures d < 10
  {
    c as int - '0' as int
  }

  function DigitChar(d: nat): (c: char)
    requires d < 10
    ensures IsDigit(c) && DigitValue(c) == d
  {
    ('0' as int + d) as char
  }

  /** The number a run of decimal digits spells, most significant first. */
  function DecimalValue(ds: string): nat
    requires AllDigits(ds)
  {
    if ds == [] then 0 else DecimalValue(ds[..|ds| - 1]) * 10 + DigitValue(ds[|ds| - 1])
  }

  /** `n` written in decimal without leading zeros (`"0"` for zero). */
  function Decimal(n: nat): (ds: string)
    ensures ds != [] && AllDigits(ds)
    ensures |ds| > 1 ==> ds[0] != '0'
  {
    if n < 10 then [DigitChar(n)] else Decimal(n / 10) + [DigitChar(n % 10)]
  }

  /** Reading back what `Decimal` writes gives the number. */
  lemma {:induction false} DecimalRoundTrip(n: nat)
    ensures DecimalValue(Decimal(n)) == n
  {
    if n >= 10 {
      DecimalRoundTrip(n / 10);
      var ds := Decimal(n);
      assert ds[..|ds| - 1] == Decimal(n / 10);
    }
  }

  /** A run of digits spells at least what any of its prefixes spells. */
  lemma {:induction false} DecimalPrefix(ds: string, j: nat)
    requires AllDigits(ds) && j <= |ds|
    ensures DecimalValue(ds[..j]) <= DecimalValue(ds)
    decreases |ds|
  {
    if j < |ds| {
      var init := ds[..|ds| - 1];
      DecimalPrefix(init, j);
      assert init[..j] == ds[..j];
    } else {
      assert ds[..j] == ds;
    }
  }

  /** `to_ascii_lowercase` on one character: only `A`-`Z` change. */
  function AsciiLowerChar(c: char): char
  {
    if 'A' <= c <= 'Z' then (c as int + 32) as char else c
  }

  /** `make_ascii_lowercase` / `to_ascii_lowercase`, character by character. */
  function AsciiLower(s: string): (r: string)
    ensures |r| == |s| && forall i :: 0 <= i < |s| ==> r[i] == AsciiLowerChar(s[i])
  {
    seq(|s|, i requires 0 <= i < |s| => AsciiLowerChar(s[i]))
  }

  /** The position of the last `c` in `s`, if there is one. */
  function LastIndexOf(s: string, c: char): (r: Option<nat>)
    ensures r.Some? ==> r.value < |s| && s[r.value] == c && forall i :: r.value < i < |s| ==> s[i] != c
    ensures r.None? ==> forall i :: 0 <= i < |s| ==> s[i] != c
  {
    if s == [] then None
    else if s[|s| - 1] == c then Some(|s| - 1)
    else LastIndexOf(s[..|s| - 1], c)
  }

  /** The position of the first `c` in `s`, if there is one. */
  function FirstIndexOf(s: string, c: char): (r: Option<nat>)
    ensures r.Some? ==> r.value < |s| && s[r.value] == c && forall i :: 0 <= i < r.value ==> s[i] != c
    ensures r.None? ==> forall i :: 0 <= i < |s| ==> s[i] != c
  {
    if s == [] then None
    else if s[0] == c then Some(0)
    else match FirstIndexOf(s[1..], c)
      case None => None
      case Some(k) => Some(k + 1)
  }

  /** An occurrence with none before it is the first one. */
  lemma {:induction false} FirstIndexOfAt(s: string, c: char, k: nat)
    requires k < |s| && s[k] == c && forall i :: 0 <= i < k ==> s[i] != c
    ensures FirstIndexOf(s, c) == Some(k)
  {
    if k > 0 {
      FirstIndexOfAt(s[1..], c, k - 1);
    }
  }

  /** An occurrence with none after it is the last one. */
  lemma {:induction false} LastIndexOfAt(s: string, c: char, k: nat)
    requires k < |s| && s[k] == c && forall i :: k < i < |s| ==> s[i] != c
    ensures LastIndexOf(s, c) == Some(k)
  {
    if k < |s| - 1 {
      LastIndexOfAt(s[..|s| - 1], c, k);
    }
  }

  /**
   * `Path::extension` of a file name: the text after the last `.`, unless
   * that dot is the name's first character (a hidden file has no extension).
   */
  function Extension(name: string): Option<string>
  {
    match LastIndexOf(name, '.')
    case None => None
    case Some(d) => if d == 0 then None else Some(name[d + 1..])
  }

  /** The extension is found exactly when the name splits as stem, dot, extension, with a non-empty stem and no dot after it. */
  lemma ExtensionSplits(name: string, stem: string, ext: string)
    ensures Extension(name) == Some(ext) && name[..|name| - |ext| - 1] == stem <==>
      name == stem + "." + ext && stem != [] && '.' !in ext
  {
    if name == stem + "." + ext && stem != [] && '.' !in ext {
      var d := |stem|;
      assert name[d] == '.';
      assert forall i :: d < i < |name| ==> name[i] == ext[i - d - 1];
      assert LastIndexOf(name, '.') == Some(d);
      assert name[d + 1..] == ext;
    }
    if Extension(name) == Some(ext) && name[..|name| - |ext| - 1] == stem {
      var d := LastIndexOf(name, '.').value;
      assert name == name[..d] + "." + name[d + 1..];
      assert forall i :: 0 <= i < |ext| ==> ext[i] == name[d + 1 + i];
    }
  }
}
