/**
 * What the frontend's regular expressions need of JavaScript text: `.` in a
 * pattern matches any character except a line terminator, and `$` without
 * the `m` flag matches only at the end of the input.
 */
module JsText {

  /** The four line terminators `.` does not match. */
  predicate IsLineTerminator(c: char)
  {
    c == '\n' || c == '\r' || c == '\U{2028}' || c == '\U{2029}'
  }

  predicate HasLineTerminator(s: string)
  {
    exists i :: 0 <= i < |s| && IsLineTerminator(s[i])
  }

  /** How far a greedy `.*` gets from the start of `s`: up to the first line terminator. */
  function LineRun(s: string): (n: nat)
    ensures n <= |s|
    ensures forall i :: 0 <= i < n ==> !IsLineTerminator(s[i])
    ensures n < |s| ==> IsLineTerminator(s[n])
  {
    if s == [] || IsLineTerminator(s[0]) then 0 else 1 + LineRun(s[1..])
  }

  /** `.*$` matches the whole of `s` exactly when `s` holds no line terminator. */
  lemma WholeLine(s: string)
    ensures LineRun(s) == |s| <==> !HasLineTerminator(s)
  {
    if LineRun(s) < |s| {
      assert IsLineTerminator(s[LineRun(s)]);
    }
  }
}
