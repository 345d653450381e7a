// Order-preserving removal of repeated values from a vector.

module DedupUnsorted {

  /** The values of `s` in order, each kept only where it first occurs. */
  function Dedup<T(==)>(s: seq<T>): seq<T>
  {
    if s == [] then []
    else if s[|s| - 1] in s[..|s| - 1] then Dedup(s[..|s| - 1])
    else Dedup(s[..|s| - 1]) + [s[|s| - 1]]
  }

  /**
   * `dedup_unsorted`: two elements are compared directly; longer vectors are
   * walked once, remembering the values seen so far and removing every later
   * repeat in place.
   */
  method DedupInPlace<T(==)>(v: seq<T>) returns (vec: seq<T>)
    ensures vec == Dedup(v)
  {
    vec := v;
    if |vec| == 2 {
      if vec[0] == vec[1] {
        vec := vec[..1];
      }
      ShortVectors(v[0], v[1]);
      assert v == [v[0], v[1]];
    } else if |vec| > 2 {
      vec := RemoveRepeats(v);
    } else if |vec| == 1 {
      ShortVectors(v[0], v[0]);
      assert v == [v[0]];
    }
  }

  /** The walk for longer vectors: a set of the values kept so far, and removal of every repeat. */
  method RemoveRepeats<T(==)>(v: seq<T>) returns (vec: seq<T>)
    ensures vec == Dedup(v)
  {
    vec := v;
    var dedup: set<T> := {};
    var i := 0;
    ghost var k := 0;
    while i != |vec|
      invariant k <= |v| && i <= |vec|
      invariant vec == Dedup(v[..k]) + v[k..]
      invariant i == |Dedup(v[..k])|
      invariant forall x :: x in dedup <==> x in v[..k]
      decreases |v| - k
    {
      assert vec[..i] == Dedup(v[..k]) && vec[i..] == v[k..];
      assert vec[i] == v[k] && vec[i + 1..] == v[k + 1..];
      DedupStep(v, k);
      if vec[i] in dedup {
        vec := vec[..i] + vec[i + 1..];
      } else {
        dedup := dedup + {vec[i]};
        i := i + 1;
      }
      k := k + 1;
    }
    assert v[..k] == v;
  }

  /** One more element of the input: dropped if already seen, appended otherwise. */
  lemma DedupStep<T>(v: seq<T>, k: nat)
    requires k < |v|
    ensures v[..k + 1][..k] == v[..k] && v[..k + 1] == v[..k] + [v[k]]
    ensures Dedup(v[..k + 1]) == if v[k] in v[..k] then Dedup(v[..k]) else Dedup(v[..k]) + [v[k]]
  {
    assert v[..k + 1][..k] == v[..k];
  }

  // ---------------------------------------------------------------------------
  // Properties of the result

  /** No value appears twice in the result. */
  predicate Distinct<T(==)>(s: seq<T>)
  {
    forall i, j :: 0 <= i < j < |s| ==> s[i] != s[j]
  }

  /** The result holds exactly the values of the input. */
  lemma {:induction false} DedupSameValues<T>(s: seq<T>)
    ensures forall x :: x in Dedup(s) <==> x in s
  {
    if s != [] {
      var init := s[..|s| - 1];
      DedupSameValues(init);
      assert s == init + [s[|s| - 1]];
    }
  }

  /** The result has no repeated values. */
  lemma {:induction false} DedupDistinct<T>(s: seq<T>)
    ensures Distinct(Dedup(s))
  {
    if s != [] {
      var init := s[..|s| - 1];
      DedupDistinct(init);
      DedupSameValues(init);
    }
  }

  /** Where a value first occurs in `s`. */
  function FirstIndex<T(==)>(s: seq<T>, x: T): (r: nat)
    requires x in s
    ensures r < |s| && s[r] == x && x !in s[..r]
  {
    if x in s[..|s| - 1] then
      var r := FirstIndex(s[..|s| - 1], x);
      assert s[..|s| - 1][..r] == s[..r];
      r
    else
      |s| - 1
  }

  /** Values appear in the result in the order of their first occurrences in the input. */
  lemma {:induction false} DedupKeepsFirstOccurrenceOrder<T>(s: seq<T>)
    ensures forall x :: x in Dedup(s) ==> x in s
    ensures forall i, j :: 0 <= i < j < |Dedup(s)| ==>
      FirstIndex(s, Dedup(s)[i]) < FirstIndex(s, Dedup(s)[j])
  {
    DedupSameValues(s);
    if s != [] {
      var init, last := s[..|s| - 1], s[|s| - 1];
      DedupKeepsFirstOccurrenceOrder(init);
      DedupSameValues(init);
      var d := Dedup(init);
      forall x | x in init
        ensures FirstIndex(s, x) == FirstIndex(init, x)
      {
      }
      forall i, j | 0 <= i < j < |Dedup(s)|
        ensures FirstIndex(s, Dedup(s)[i]) < FirstIndex(s, Dedup(s)[j])
      {
        assert Dedup(s)[i] == d[i];
        if j < |d| {
          assert Dedup(s)[j] == d[j];
        } else {
          assert Dedup(s)[j] == last && last !in init;
          assert FirstIndex(init, d[i]) < |init|;
        }
      }
    }
  }

  /** Removing repeats from a vector without repeats changes nothing. */
  lemma {:induction false} DedupOfDistinct<T>(s: seq<T>)
    requires Distinct(s)
    ensures Dedup(s) == s
  {
    if s != [] {
      var init := s[..|s| - 1];
      DedupOfDistinct(init);
      assert s[|s| - 1] !in init;
      assert init + [s[|s| - 1]] == s;
    }
  }

  /** Deduplicating twice is the same as once. */
  lemma DedupIdempotent<T>(s: seq<T>)
    ensures Dedup(Dedup(s)) == Dedup(s)
  {
    DedupDistinct(s);
    DedupOfDistinct(Dedup(s));
  }

  /** A one-element vector is left alone; two equal elements become one. */
  lemma ShortVectors<T>(a: T, b: T)
    ensures Dedup([a]) == [a]
    ensures Dedup([a, b]) == if a == b then [a] else [a, b]
  {
    assert [a][..0] == [];
    assert [a, b][..1] == [a];
  }
}
