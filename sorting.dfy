/**
 * The standard library's `sort_by` (a stable sort) and `dedup_by`, as the
 * search index applies them to its items, its installed addons, its results
 * and an item's terms. Every comparison the index sorts by compares a key
 * of at most two integers lexicographically, so the sort is stated over such
 * keys.
 */
module Sorting {

  /** A sort key: compared by `major`, then by `minor`. */
  datatype Key = Key(major: int, minor: int)

  predicate KeyLe(a: Key, b: Key)
  {
    a.major < b.major || (a.major == b.major && a.minor <= b.minor)
  }

  predicate SortedBy<T>(s: seq<T>, key: T -> Key)
  {
    forall i, j :: 0 <= i < j < |s| ==> KeyLe(key(s[i]), key(s[j]))
  }

  predicate StrictlySortedBy<T>(s: seq<T>, key: T -> Key)
  {
    forall i, j :: 0 <= i < j < |s| ==> KeyLe(key(s[i]), key(s[j])) && key(s[i]) != key(s[j])
  }

  /** Appending an element no smaller than everything before it keeps the order. */
  lemma AppendSorted<T>(s: seq<T>, x: T, key: T -> Key)
    requires SortedBy(s, key) && forall y :: y in s ==> KeyLe(key(y), key(x))
    ensures SortedBy(s + [x], key)
  {
    var r := s + [x];
    forall i, j | 0 <= i < j < |r|
      ensures KeyLe(key(r[i]), key(r[j]))
    {
      assert r[i] == s[i];
      if j < |s| {
        assert r[j] == s[j];
      } else {
        assert s[i] in s;
      }
    }
  }

  /** Inserting at a position between the smaller and the greater keys keeps the order and adds exactly `x`. */
  lemma InsertAt<T>(s: seq<T>, pos: nat, x: T, key: T -> Key)
    requires SortedBy(s, key) && pos <= |s|
    requires forall i :: 0 <= i < pos ==> KeyLe(key(s[i]), key(x))
    requires forall i :: pos <= i < |s| ==> KeyLe(key(x), key(s[i]))
    ensures SortedBy(s[..pos] + [x] + s[pos..], key)
    ensures multiset(s[..pos] + [x] + s[pos..]) == multiset(s) + multiset{x}
  {
    var r := s[..pos] + [x] + s[pos..];
    forall i, j | 0 <= i < j < |r|
      ensures KeyLe(key(r[i]), key(r[j]))
    {
      if j < pos {
        assert r[i] == s[i] && r[j] == s[j];
      } else if j == pos {
        assert r[i] == s[i];
      } else if i < pos {
        assert r[i] == s[i] && r[j] == s[j - 1];
      } else if i == pos {
        assert r[j] == s[j - 1];
      } else {
        assert r[i] == s[i - 1] && r[j] == s[j - 1];
      }
    }
    assert s == s[..pos] + s[pos..];
  }

  /** Places `x` after every element whose key is not greater, so equal keys keep their order. */
  function Insert<T>(s: seq<T>, x: T, key: T -> Key): (r: seq<T>)
    requires SortedBy(s, key)
    ensures SortedBy(r, key) && multiset(r) == multiset(s) + multiset{x}
  {
    if s == [] then [x]
    else if KeyLe(key(s[|s| - 1]), key(x)) then
      AfterLast(s, x, key);
      s + [x]
    else
      var r := Insert(s[..|s| - 1], x, key);
      BeforeLast(s, r, x, key);
      r + [s[|s| - 1]]
  }

  lemma AfterLast<T>(s: seq<T>, x: T, key: T -> Key)
    requires SortedBy(s, key) && s != [] && KeyLe(key(s[|s| - 1]), key(x))
    ensures SortedBy(s + [x], key) && multiset(s + [x]) == multiset(s) + multiset{x}
  {
    forall y | y in s ensures KeyLe(key(y), key(x)) {
      var i :| 0 <= i < |s| && s[i] == y;
      if i < |s| - 1 {
        assert KeyLe(key(s[i]), key(s[|s| - 1]));
      }
    }
    AppendSorted(s, x, key);
  }

  lemma BeforeLast<T>(s: seq<T>, r: seq<T>, x: T, key: T -> Key)
    requires SortedBy(s, key) && s != [] && !KeyLe(key(s[|s| - 1]), key(x))
    requires SortedBy(r, key) && multiset(r) == multiset(s[..|s| - 1]) + multiset{x}
    ensures SortedBy(r + [s[|s| - 1]], key) && multiset(r + [s[|s| - 1]]) == multiset(s) + multiset{x}
  {
    var init, last := s[..|s| - 1], s[|s| - 1];
    assert s == init + [last];
    forall y | y in r ensures KeyLe(key(y), key(last)) {
      assert y in multiset(init) + multiset{x};
      if y in init {
        var i :| 0 <= i < |init| && init[i] == y;
        assert s[i] == y;
      }
    }
    AppendSorted(r, last, key);
  }

  /** The sorted permutation `sort_by` leaves, built by stable insertion. */
  function SortBy<T>(s: seq<T>, key: T -> Key): (r: seq<T>)
    ensures SortedBy(r, key) && multiset(r) == multiset(s)
  {
    if s == [] then []
    else
      assert s == s[..|s| - 1] + [s[|s| - 1]];
      Insert(SortBy(s[..|s| - 1], key), s[|s| - 1], key)
  }

  /** The elements of `s` whose key is `k`, in order. */
  function WithKey<T>(s: seq<T>, k: Key, key: T -> Key): seq<T>
  {
    if s == [] then []
    else WithKey(s[..|s| - 1], k, key) + if key(s[|s| - 1]) == k then [s[|s| - 1]] else []
  }

  lemma WithKeySnoc<T>(s: seq<T>, y: T, k: Key, key: T -> Key)
    ensures WithKey(s + [y], k, key) == WithKey(s, k, key) + if key(y) == k then [y] else []
  {
    assert (s + [y])[..|s|] == s;
  }

  /** Inserting `x` adds it to the elements with its key, after those already there, and to no others. */
  lemma {:induction false} InsertStable<T>(s: seq<T>, x: T, k: Key, key: T -> Key)
    requires SortedBy(s, key)
    ensures WithKey(Insert(s, x, key), k, key) == WithKey(s, k, key) + if key(x) == k then [x] else []
  {
    if s == [] {
      WithKeySnoc(s, x, k, key);
      assert s + [x] == [x];
    } else if KeyLe(key(s[|s| - 1]), key(x)) {
      WithKeySnoc(s, x, k, key);
    } else {
      InsertStable(s[..|s| - 1], x, k, key);
      InsertStableStep(s, x, k, key);
    }
  }

  lemma InsertStableStep<T>(s: seq<T>, x: T, k: Key, key: T -> Key)
    requires SortedBy(s, key) && s != [] && !KeyLe(key(s[|s| - 1]), key(x))
    requires WithKey(Insert(s[..|s| - 1], x, key), k, key) == WithKey(s[..|s| - 1], k, key) + if key(x) == k then [x] else []
    ensures WithKey(Insert(s, x, key), k, key) == WithKey(s, k, key) + if key(x) == k then [x] else []
  {
    var init, last := s[..|s| - 1], s[|s| - 1];
    assert Insert(s, x, key) == Insert(init, x, key) + [last];
    assert s == init + [last];
    SnocBoth(Insert(init, x, key), init, last, x, k, key);
  }

  /** Appending an element with a different key from `x` to both sides keeps `x` last among its equals. */
  lemma SnocBoth<T>(ins: seq<T>, init: seq<T>, last: T, x: T, k: Key, key: T -> Key)
    requires key(x) == k ==> key(last) != k
    requires WithKey(ins, k, key) == WithKey(init, k, key) + if key(x) == k then [x] else []
    ensures WithKey(ins + [last], k, key) == WithKey(init + [last], k, key) + if key(x) == k then [x] else []
  {
    WithKeySnoc(ins, last, k, key);
    WithKeySnoc(init, last, k, key);
  }

  /** `sort_by` is stable: the elements sharing a key come out in the order they went in. */
  lemma {:induction false} SortByStable<T>(s: seq<T>, k: Key, key: T -> Key)
    ensures WithKey(SortBy(s, key), k, key) == WithKey(s, k, key)
  {
    if s != [] {
      SortByStable(s[..|s| - 1], k, key);
      InsertStable(SortBy(s[..|s| - 1], key), s[|s| - 1], k, key);
    }
  }

  /**
   * `dedup_by(same)`: each element is dropped when `same(element, last kept)`
   * holds. The first element is always kept.
   */
  function Dedup<T>(s: seq<T>, same: (T, T) -> bool): (r: seq<T>)
    ensures |r| <= |s| && (s == [] <==> r == [])
    ensures forall x :: x in r ==> x in s
    ensures forall i, j :: 0 <= i && j == i + 1 && j < |r| ==> !same(r[j], r[i])
  {
    if s == [] then []
    else
      var kept := Dedup(s[..|s| - 1], same);
      var last := s[|s| - 1];
      if kept != [] && same(last, kept[|kept| - 1]) then kept else kept + [last]
  }

  /** Every element `dedup_by` drops repeats one it keeps. */
  lemma {:induction false} DedupCovers<T>(s: seq<T>, same: (T, T) -> bool)
    ensures forall x :: x in s ==> x in Dedup(s, same) || exists y :: y in Dedup(s, same) && same(x, y)
  {
    if s != [] {
      var init := s[..|s| - 1];
      DedupCovers(init, same);
      assert s == init + [s[|s| - 1]];
      var kept := Dedup(init, same);
      assert forall y :: y in kept ==> y in Dedup(s, same);
    }
  }

  /** Dropping elements from a sorted sequence leaves it sorted. */
  lemma {:induction false} DedupSorted<T>(s: seq<T>, same: (T, T) -> bool, key: T -> Key)
    requires SortedBy(s, key)
    ensures SortedBy(Dedup(s, same), key)
  {
    if s != [] {
      var init, last := s[..|s| - 1], s[|s| - 1];
      DedupSorted(init, same, key);
      var kept := Dedup(init, same);
      if !(kept != [] && same(last, kept[|kept| - 1])) {
        forall y | y in kept ensures KeyLe(key(y), key(last)) {
          var i :| 0 <= i < |init| && init[i] == y;
          assert s[i] == y;
        }
        AppendSorted(kept, last, key);
      }
    }
  }

  /** Sorted by key and deduplicated on equal keys: the keys strictly increase. */
  lemma {:induction false} DedupByKeyStrict<T>(s: seq<T>, same: (T, T) -> bool, key: T -> Key)
    requires SortedBy(s, key)
    requires forall a, b :: a in s && b in s ==> (same(a, b) <==> key(a) == key(b))
    ensures StrictlySortedBy(Dedup(s, same), key)
  {
    DedupSorted(s, same, key);
    var r := Dedup(s, same);
    forall i, j | 0 <= i < j < |r|
      ensures key(r[i]) != key(r[j])
    {
      assert r[i] in s && r[i + 1] in s;
      assert KeyLe(key(r[i]), key(r[i + 1])) && KeyLe(key(r[i + 1]), key(r[j]));
      assert key(r[i + 1]) != key(r[i]);
    }
  }
}
