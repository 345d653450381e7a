/**
 * The order of Rust's `String` (character by character, a proper prefix
 * before any longer text) and `sort_unstable` on a list of strings, as the
 * whitelist report sorts the paths it rejects.
 */
module LexSort {

  /** `a <= b` in the order of `String`. */
  predicate LexLe(a: string, b: string)
    decreases |a|
  {
    a == [] || (b != [] && (a[0] < b[0] || (a[0] == b[0] && LexLe(a[1..], b[1..]))))
  }

  lemma {:induction false} LexReflexive(a: string)
    ensures LexLe(a, a)
    decreases |a|
  {
    if a != [] {
      LexReflexive(a[1..]);
    }
  }

  lemma {:induction false} LexTotal(a: string, b: string)
    ensures LexLe(a, b) || LexLe(b, a)
    decreases |a|
  {
    if a != [] && b != [] && a[0] == b[0] {
      LexTotal(a[1..], b[1..]);
    }
  }

  lemma {:induction false} LexTransitive(a: string, b: string, c: string)
    requires LexLe(a, b) && LexLe(b, c)
    ensures LexLe(a, c)
    decreases |a|
  {
    if a != [] && a[0] == b[0] && b[0] == c[0] {
      LexTransitive(a[1..], b[1..], c[1..]);
    }
  }

  lemma {:induction false} LexAntisymmetric(a: string, b: string)
    requires LexLe(a, b) && LexLe(b, a)
    ensures a == b
    decreases |a|
  {
    if a != [] {
      LexAntisymmetric(a[1..], b[1..]);
      assert a == [a[0]] + a[1..] && b == [b[0]] + b[1..];
    }
  }

  predicate Sorted(s: seq<string>)
  {
    forall i, j :: 0 <= i < j < |s| ==> LexLe(s[i], s[j])
  }

  /** `x` placed after every string not greater than it. */
  function Insert(s: seq<string>, x: string): (r: seq<string>)
    requires Sorted(s)
    ensures Sorted(r) && multiset(r) == multiset(s) + multiset{x}
  {
    if s == [] then [x]
    else if LexLe(s[|s| - 1], x) then
      AfterLast(s, x);
      s + [x]
    else
      var r := Insert(s[..|s| - 1], x);
      BeforeLast(s, r, x);
      r + [s[|s| - 1]]
  }

  lemma AppendSorted(s: seq<string>, x: string)
    requires Sorted(s) && forall y :: y in s ==> LexLe(y, x)
    ensures Sorted(s + [x])
  {
    var r := s + [x];
    forall i, j | 0 <= i < j < |r|
      ensures LexLe(r[i], r[j])
    {
      assert r[i] == s[i];
      if j < |s| {
        assert r[j] == s[j];
      } else {
        assert s[i] in s;
      }
    }
  }

  lemma AfterLast(s: seq<string>, x: string)
    requires Sorted(s) && s != [] && LexLe(s[|s| - 1], x)
    ensures Sorted(s + [x]) && multiset(s + [x]) == multiset(s) + multiset{x}
  {
    forall y | y in s ensures LexLe(y, x) {
      var i :| 0 <= i < |s| && s[i] == y;
      if i < |s| - 1 {
        LexTransitive(y, s[|s| - 1], x);
      }
    }
    AppendSorted(s, x);
  }

  lemma BeforeLast(s: seq<string>, r: seq<string>, x: string)
    requires Sorted(s) && s != [] && !LexLe(s[|s| - 1], x)
    requires Sorted(r) && multiset(r) == multiset(s[..|s| - 1]) + multiset{x}
    ensures Sorted(r + [s[|s| - 1]]) && multiset(r + [s[|s| - 1]]) == multiset(s) + multiset{x}
  {
    var init, last := s[..|s| - 1], s[|s| - 1];
    assert s == init + [last];
    LexTotal(last, x);
    forall y | y in r ensures LexLe(y, last) {
      assert y in multiset(init) + multiset{x};
      if y in init {
        var i :| 0 <= i < |init| && init[i] == y;
        assert s[i] == y;
      }
    }
    AppendSorted(r, last);
  }

  /** The sorted permutation `sort_unstable` leaves. */
  function Sort(s: seq<string>): (r: seq<string>)
    ensures Sorted(r) && multiset(r) == multiset(s)
  {
    if s == [] then []
    else
      assert s == s[..|s| - 1] + [s[|s| - 1]];
      Insert(Sort(s[..|s| - 1]), s[|s| - 1])
  }

  /**
   * Two sorted arrangements of the same strings are the same list, so an
   * unstable sort of strings has only one possible outcome.
   */
  lemma {:induction false} SortedUnique(a: seq<string>, b: seq<string>)
    requires Sorted(a) && Sorted(b) && multiset(a) == multiset(b)
    ensures a == b
    decreases |a|
  {
    if a != [] {
      assert |b| == |multiset(b)| == |a|;
      SortedTail(a);
      SortedTail(b);
      SameHead(a, b);
      SortedUnique(a[1..], b[1..]);
      assert a == [a[0]] + a[1..] && b == [b[0]] + b[1..];
    }
  }

  lemma SortedTail(a: seq<string>)
    requires Sorted(a) && a != []
    ensures Sorted(a[1..]) && multiset(a[1..]) == multiset(a) - multiset{a[0]}
  {
    assert a == [a[0]] + a[1..];
    assert multiset(a) == multiset{a[0]} + multiset(a[1..]);
  }

  /** The first of a sorted list is its least string, so it is determined by the multiset. */
  lemma SameHead(a: seq<string>, b: seq<string>)
    requires Sorted(a) && Sorted(b) && multiset(a) == multiset(b) && a != [] && b != []
    ensures a[0] == b[0]
  {
    assert a[0] in a && b[0] in b;
    assert a[0] in multiset(a) && b[0] in multiset(b);
    assert a[0] in multiset(b) && b[0] in multiset(a);
    var j :| 0 <= j < |b| && b[j] == a[0];
    var i :| 0 <= i < |a| && a[i] == b[0];
    assert LexLe(b[0], a[0]) by {
      if j > 0 { assert LexLe(b[0], b[j]); } else { LexReflexive(a[0]); }
    }
    assert LexLe(a[0], b[0]) by {
      if i > 0 { assert LexLe(a[0], a[i]); } else { LexReflexive(a[0]); }
    }
    LexAntisymmetric(a[0], b[0]);
  }
}
