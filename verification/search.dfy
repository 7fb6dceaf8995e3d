/** The slice `binary_search` the nodes use to place keys and children.

    The standard library only promises the contract stated on `Search`: on a
    sorted slice it reports either SOME index holding the probe, or the one
    position where the probe would keep the slice sorted. The body is one
    concrete bisection meeting that contract; everything else in the model
    relies on the contract alone. */
module BinarySearch {
  import opened Sequences

  /** `Ok(i)` and `Err(i)` of `binary_search`. */
  datatype SearchResult = Found(index: nat) | NotFound(index: nat)

  /** Every element before position `hi` is strictly below `key`. */
  predicate AllBelow(keys: seq<int>, key: int, hi: nat) {
    forall j :: 0 <= j < hi && j < |keys| ==> keys[j] < key
  }

  /** Every element from position `lo` on is strictly above `key`. */
  predicate AllAbove(keys: seq<int>, key: int, lo: nat) {
    forall j :: lo <= j < |keys| ==> key < keys[j]
  }

  /** What `binary_search` documents for a sorted slice. */
  predicate Meets(keys: seq<int>, key: int, r: SearchResult) {
    match r
    case Found(i) => i < |keys| && keys[i] == key
    case NotFound(i) => i <= |keys| && AllBelow(keys, key, i) && AllAbove(keys, key, i)
  }

  /** Bisection of the window `[lo, hi)`, all of whose outside is already
      known to be below (left) or above (right) the probe. */
  function SearchBetween(keys: seq<int>, key: int, lo: nat, hi: nat): (r: SearchResult)
    requires lo <= hi <= |keys|
    ensures lo <= r.index <= hi
    ensures r.Found? ==> r.index < hi && keys[r.index] == key
    ensures Sorted(keys) && AllBelow(keys, key, lo) && AllAbove(keys, key, hi) ==> Meets(keys, key, r)
    decreases hi - lo
  {
    if lo == hi then NotFound(lo)
    else
      var mid := lo + (hi - lo) / 2;
      if keys[mid] < key then SearchBetween(keys, key, mid + 1, hi)
      else if key < keys[mid] then SearchBetween(keys, key, lo, mid)
      else Found(mid)
  }

  /** `binary_search` over the whole slice. */
  function Search(keys: seq<int>, key: int): (r: SearchResult)
    ensures r.index <= |keys|
    ensures r.Found? ==> r.index < |keys| && keys[r.index] == key
    ensures Sorted(keys) ==> Meets(keys, key, r)
  {
    SearchBetween(keys, key, 0, |keys|)
  }

  /** `binary_search(..).unwrap_or_else(|x| x)`: the index where the source
      inserts, whichever way the search ended. On a sorted slice everything
      before it is at most the probe and everything from it on is at least
      the probe, so inserting there keeps the slice sorted. */
  function InsertionPoint(keys: seq<int>, key: int): (i: nat)
    ensures i <= |keys|
    ensures Sorted(keys) ==>
      && (forall j :: 0 <= j < i ==> keys[j] <= key)
      && (forall j :: i <= j < |keys| ==> key <= keys[j])
  {
    match Search(keys, key)
    case Found(i) => i
    case NotFound(i) => i
  }

  /** On a sorted slice, a position with everything before it strictly below
      the probe and everything from it on strictly above is the insertion
      point; this pins the index down without unfolding the bisection. */
  lemma InsertionPointBetween(keys: seq<int>, key: int, i: nat)
    requires Sorted(keys) && i <= |keys|
    requires i > 0 ==> keys[i - 1] < key
    requires i < |keys| ==> key < keys[i]
    ensures InsertionPoint(keys, key) == i
  {
  }

  /** On a sorted slice the search reports a hit exactly when the probe occurs. */
  lemma SearchFindsPresent(keys: seq<int>, key: int)
    requires Sorted(keys)
    ensures Search(keys, key).Found? <==> key in keys
  {
  }
}
