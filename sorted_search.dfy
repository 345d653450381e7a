/**
 * `binary_search_by_key` over a sorted sequence of keys, as the registries,
 * the addon list and the search index use it: the position of an element with
 * the key, or the position where the key would be inserted to keep the order.
 */
module SortedSearch {

  predicate Sorted(s: seq<int>)
  {
    forall i, j :: 0 <= i < j < |s| ==> s[i] <= s[j]
  }

  predicate StrictlySorted(s: seq<int>)
  {
    forall i, j :: 0 <= i < j < |s| ==> s[i] < s[j]
  }

  datatype SearchResult = Found(pos: nat) | NotFound(insertAt: nat)

  /** `Ok(pos)` for a position holding the key, otherwise `Err(pos)` with everything before it smaller. */
  method BinarySearch(keys: seq<int>, key: int) returns (r: SearchResult)
    requires Sorted(keys)
    ensures r.Found? ==> r.pos < |keys| && keys[r.pos] == key
    ensures r.NotFound? ==>
      r.insertAt <= |keys| && key !in keys &&
      (forall i :: 0 <= i < r.insertAt ==> keys[i] < key) &&
      (forall i :: r.insertAt <= i < |keys| ==> key < keys[i])
  {
    var lo, hi := 0, |keys|;
    while lo < hi
      invariant 0 <= lo <= hi <= |keys|
      invariant forall i :: 0 <= i < lo ==> keys[i] < key
      invariant forall i :: hi <= i < |keys| ==> key < keys[i]
    {
      var mid := lo + (hi - lo) / 2;
      if keys[mid] < key {
        lo := mid + 1;
      } else if key < keys[mid] {
        hi := mid;
      } else {
        return Found(mid);
      }
    }
    return NotFound(lo);
  }

  /** Inserting a key at its insertion point keeps the sequence sorted, strictly if it was. */
  lemma InsertKeepsSorted(keys: seq<int>, pos: nat, key: int)
    requires pos <= |keys|
    requires forall i :: 0 <= i < pos ==> keys[i] < key
    requires forall i :: pos <= i < |keys| ==> key < keys[i]
    ensures Sorted(keys) ==> Sorted(keys[..pos] + [key] + keys[pos..])
    ensures StrictlySorted(keys) ==> StrictlySorted(keys[..pos] + [key] + keys[pos..])
  {
    var r := keys[..pos] + [key] + keys[pos..];
    assert forall i :: 0 <= i < |r| ==> r[i] == if i < pos then keys[i] else if i == pos then key else keys[i - 1];
  }

  /** Inserting between the smaller-or-equal and the greater-or-equal keys keeps the sequence sorted, and adds exactly that key. */
  lemma InsertBetweenKeepsSorted(keys: seq<int>, pos: nat, key: int)
    requires Sorted(keys) && pos <= |keys|
    requires forall i :: 0 <= i < pos ==> keys[i] <= key
    requires forall i :: pos <= i < |keys| ==> key <= keys[i]
    ensures Sorted(keys[..pos] + [key] + keys[pos..])
    ensures multiset(keys[..pos] + [key] + keys[pos..]) == multiset(keys) + multiset{key}
  {
    var r := keys[..pos] + [key] + keys[pos..];
    assert forall i :: 0 <= i < |r| ==> r[i] == if i < pos then keys[i] else if i == pos then key else keys[i - 1];
    assert keys == keys[..pos] + keys[pos..];
  }

  /** Removing an element keeps the sequence sorted, strictly if it was. */
  lemma RemoveKeepsSorted(keys: seq<int>, pos: nat)
    requires pos < |keys|
    ensures Sorted(keys) ==> Sorted(keys[..pos] + keys[pos + 1..])
    ensures StrictlySorted(keys) ==> StrictlySorted(keys[..pos] + keys[pos + 1..])
  {
    var r := keys[..pos] + keys[pos + 1..];
    assert forall i :: 0 <= i < |r| ==> r[i] == if i < pos then keys[i] else keys[i + 1];
  }
}
