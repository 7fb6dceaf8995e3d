/** Ordered sequences and the growable-vector primitive the nodes are built on. */
module Sequences {
  import opened Outcomes

  /** Every element is at most every later element (ascending, duplicates allowed). */
  predicate Sorted(s: seq<int>) {
    forall i, j :: 0 <= i < j < |s| ==> s[i] <= s[j]
  }

  /** Every element is at most its successor: the check `is_sorted` performs. */
  predicate AdjacentSorted(s: seq<int>) {
    forall i :: 0 <= i < |s| - 1 ==> s[i] <= s[i + 1]
  }

  /** Every element is below every later element (ascending, no duplicates). */
  predicate StrictlyIncreasing(s: seq<int>) {
    forall i, j :: 0 <= i < j < |s| ==> s[i] < s[j]
  }

  /** Checking neighbours is the same as checking all pairs. */
  lemma {:induction false} AdjacentSortedIsSorted(s: seq<int>)
    ensures AdjacentSorted(s) <==> Sorted(s)
  {
    if AdjacentSorted(s) && |s| >= 2 {
      var t := s[1..];
      forall i | 0 <= i < |t| - 1
        ensures t[i] <= t[i + 1]
      {
        assert t[i] == s[i + 1] && t[i + 1] == s[i + 2];
      }
      AdjacentSortedIsSorted(t);
      forall i, j | 0 <= i < j < |s|
        ensures s[i] <= s[j]
      {
        if i == 0 {
          assert s[0] <= s[1];
          if j > 1 {
            assert t[0] <= t[j - 1];
          }
        } else {
          assert t[i - 1] <= t[j - 1];
        }
      }
    }
  }

  function Min(a: int, b: int): int {
    if a <= b then a else b
  }

  /** The sequence with position `i` removed; undoes `VecInsert` at `i`. */
  function RemoveAt<T>(s: seq<T>, i: nat): seq<T>
    requires i < |s|
  {
    s[..i] + s[i + 1..]
  }

  /** `Vec::insert`: shifts everything from `i` one place right and puts
      `x` at `i`; panics when `i` is past the end. */
  function VecInsert<T>(s: seq<T>, i: nat, x: T): (r: Result<seq<T>>)
    ensures r.Ok? <==> i <= |s|
    ensures r.Err? ==> r.fault == InsertionIndexOutOfBounds
    ensures r.Ok? ==>
      && |r.value| == |s| + 1
      && r.value[i] == x
      && RemoveAt(r.value, i) == s
      && (forall j :: 0 <= j < i ==> r.value[j] == s[j])
      && (forall j :: i < j < |r.value| ==> r.value[j] == s[j - 1])
    ensures r.Ok? ==> multiset(r.value) == multiset(s) + multiset{x}
  {
    if i <= |s| then
      var t := s[..i] + [x] + s[i..];
      assert t[..i] == s[..i] && t[i + 1..] == s[i..];
      assert s == s[..i] + s[i..];
      Ok(t)
    else
      Err(InsertionIndexOutOfBounds)
  }

  /** Putting `x` between the elements at most `x` and those at least `x`
      keeps a sorted sequence sorted. */
  lemma InsertKeepsSorted(s: seq<int>, i: nat, x: int)
    requires Sorted(s) && i <= |s|
    requires forall j :: 0 <= j < i ==> s[j] <= x
    requires forall j :: i <= j < |s| ==> x <= s[j]
    ensures Sorted(s[..i] + [x] + s[i..])
  {
  }

  /** The sequence of position-wise pairs of two equally long sequences. */
  function Zip<A, B>(a: seq<A>, b: seq<B>): (r: seq<(A, B)>)
    requires |a| == |b|
    ensures |r| == |a|
    ensures forall j :: 0 <= j < |r| ==> r[j] == (a[j], b[j])
  {
    seq(|a|, j requires 0 <= j < |a| => (a[j], b[j]))
  }

  /** Inserting `x` and `y` at the same index of two parallel sequences
      inserts the pair `(x, y)` at that index of their pairs, so each element
      keeps its partner. */
  lemma InsertZip<A, B>(a: seq<A>, b: seq<B>, i: nat, x: A, y: B)
    requires |a| == |b| && i <= |a|
    ensures Zip(a[..i] + [x] + a[i..], b[..i] + [y] + b[i..]) == Zip(a, b)[..i] + [(x, y)] + Zip(a, b)[i..]
  {
    var z, p := Zip(a[..i] + [x] + a[i..], b[..i] + [y] + b[i..]), Zip(a, b);
    var q := p[..i] + [(x, y)] + p[i..];
    forall j | 0 <= j < |z|
      ensures z[j] == q[j]
    {
      if j > i {
        assert q[j] == p[j - 1];
      }
    }
  }

  /** Inserting anywhere adds exactly that element to the multiset. */
  lemma InsertMultiset<T>(s: seq<T>, i: nat, x: T)
    requires i <= |s|
    ensures multiset(s[..i] + [x] + s[i..]) == multiset(s) + multiset{x}
  {
    assert s == s[..i] + s[i..];
  }

  /** A prefix of an ordered sequence is ordered the same way. */
  lemma PrefixKeepsOrder(s: seq<int>, n: nat)
    requires n <= |s|
    ensures Sorted(s) ==> Sorted(s[..n])
    ensures StrictlyIncreasing(s) ==> StrictlyIncreasing(s[..n])
  {
  }

  /** A sequence whose last element is `x` and whose other elements are `t`. */
  lemma RemoveLastIsPrefix<T>(s: seq<T>, t: seq<T>, x: T)
    requires |s| >= 1 && s[|s| - 1] == x && RemoveAt(s, |s| - 1) == t
    ensures s == t + [x]
  {
    assert s[|s| - 1..] == [x];
    assert s == s[..|s| - 1] + s[|s| - 1..];
  }

  /** Inserting an element at least as large as all others, either at the end
      or in front of an equal element, is the same as appending it. */
  lemma InsertLargestIsAppend(s: seq<int>, i: nat, x: int)
    requires Sorted(s) && i <= |s|
    requires forall j :: 0 <= j < |s| ==> s[j] <= x
    requires i == |s| || s[i] == x
    ensures s[..i] + [x] + s[i..] == s + [x]
  {
    var t := s[..i] + [x] + s[i..];
    forall j | 0 <= j < |t|
      ensures t[j] == (s + [x])[j]
    {
      if i < j < |s| {
        assert s[i] <= s[j - 1] && s[i] <= s[j];
      }
    }
  }

  /** The prefix one longer is the prefix followed by the next element. */
  lemma PrefixExtend<T>(s: seq<T>, i: nat)
    requires i < |s|
    ensures s[..i + 1] == s[..i] + [s[i]]
  {
  }

  /** `cur` holds the first `m` elements of `target`: as a multiset, and
      in the same order when `exact`. */
  predicate Tracks<T(==)>(cur: seq<T>, target: seq<T>, m: nat, exact: bool) {
    && m <= |target| && |cur| == m
    && multiset(cur) == multiset(target[..m])
    && (exact ==> cur == target[..m])
  }

  /** Adding the next element of `target` keeps tracking it. */
  lemma TracksExtend<T>(before: seq<T>, after: seq<T>, target: seq<T>, m: nat, exact: bool)
    requires Tracks(before, target, m, exact) && m < |target| && |after| == m + 1
    requires multiset(after) == multiset(before) + multiset{target[m]}
    requires exact ==> after == before + [target[m]]
    ensures Tracks(after, target, m + 1, exact)
  {
    PrefixExtend(target, m);
  }

  /** Tracking all of `target`. */
  lemma TracksWhole<T>(cur: seq<T>, target: seq<T>, exact: bool)
    requires Tracks(cur, target, |target|, exact)
    ensures multiset(cur) == multiset(target)
    ensures exact ==> cur == target
  {
    PrefixWhole(target, |target|);
  }

  /** The first `m` elements of `a` and `b` exist and coincide. */
  predicate AgreeUpTo(a: seq<int>, b: seq<int>, m: nat) {
    m <= |a| && m <= |b| && forall j :: 0 <= j < m ==> a[j] == b[j]
  }

  lemma AgreeExtend(a: seq<int>, b: seq<int>, m: nat)
    requires AgreeUpTo(a, b, m) && m < |a| && m < |b| && a[m] == b[m]
    ensures AgreeUpTo(a, b, m + 1)
  {
  }

  lemma PrefixWhole<T>(s: seq<T>, m: nat)
    requires m == |s|
    ensures s[..m] == s
  {
  }

  lemma AgreeBroken(a: seq<int>, b: seq<int>, m: nat, i: nat)
    requires i < m && i < |a| && i < |b| && a[i] != b[i]
    ensures !AgreeUpTo(a, b, m)
  {
  }

  /** Slicing a suffix is slicing the original, shifted. */
  lemma SliceOfSuffix<T>(s: seq<T>, d: nat, lo: nat, hi: nat)
    requires d <= |s| && lo <= hi <= |s| - d
    ensures s[d..][lo..hi] == s[d + lo .. d + hi]
  {
  }

  // ------------------------------------------------------- slice chunks

  /** Concatenation of a sequence of sequences. */
  function Flatten<T>(ss: seq<seq<T>>): seq<T> {
    if |ss| == 0 then [] else ss[0] + Flatten(ss[1..])
  }

  lemma MulSucc(k: int, size: int)
    ensures (k + 1) * size == k * size + size
  {
  }

  /** `slice::chunks(size)`: consecutive pieces of `size` elements, the last
      one possibly shorter (see `ChunkAt`, `ChunksFlatten`, `ChunkCount`). */
  function Chunks<T>(s: seq<T>, size: nat): (r: seq<seq<T>>)
    requires size >= 1
    ensures |r| <= |s|
    ensures |r| == 0 <==> |s| == 0
    ensures forall k :: 0 <= k < |r| ==> |r[k]| > 0
    decreases |s|
  {
    if |s| == 0 then []
    else if |s| <= size then [s]
    else [s[..size]] + Chunks(s[size..], size)
  }

  /** The chunks, put back together, are the original sequence. */
  lemma {:induction false} ChunksFlatten<T>(s: seq<T>, size: nat)
    requires size >= 1
    ensures Flatten(Chunks(s, size)) == s
    decreases |s|
  {
    if 0 < |s| <= size {
      assert Flatten([s]) == s + Flatten([]);
    } else if |s| > size {
      var rest := Chunks(s[size..], size);
      var r := [s[..size]] + rest;
      assert r[1..] == rest;
      ChunksFlatten(s[size..], size);
      assert s == s[..size] + s[size..];
    }
  }

  /** Chunk `k` is the slice starting at `k * size`, `size` long unless it is
      cut short by the end of `s`. */
  lemma ChunkAt<T>(s: seq<T>, size: nat, k: nat)
    requires size >= 1 && k < |Chunks(s, size)|
    ensures k * size < |s|
    ensures Chunks(s, size)[k] == s[k * size .. Min(k * size + size, |s|)]
  {
    ChunkStartingAt(s, size, k);
    OffsetIsProduct(k, size);
  }

  /** `k * size`, built up by repeated addition. */
  function Offset(k: nat, size: nat): nat {
    if k == 0 then 0 else Offset(k - 1, size) + size
  }

  lemma {:induction false} OffsetIsProduct(k: nat, size: nat)
    ensures Offset(k, size) == k * size
  {
    if k > 0 {
      OffsetIsProduct(k - 1, size);
      MulSucc(k - 1, size);
    }
  }

  lemma {:induction false} ChunkStartingAt<T>(s: seq<T>, size: nat, k: nat)
    requires size >= 1 && k < |Chunks(s, size)|
    ensures Offset(k, size) < |s|
    ensures Chunks(s, size)[k] == s[Offset(k, size) .. Min(Offset(k, size) + size, |s|)]
    decreases k
  {
    if k > 0 {
      assert |s| > size;
      var t := s[size..];
      var rest := Chunks(t, size);
      assert Chunks(s, size) == [s[..size]] + rest;
      assert Chunks(s, size)[k] == rest[k - 1];
      ChunkStartingAt(t, size, k - 1);
      var lo := Offset(k - 1, size);
      assert Offset(k, size) == size + lo;
      var hi := Min(lo + size, |t|);
      assert size + hi == Min(size + lo + size, |s|);
      SliceOfSuffix(s, size, lo, hi);
    } else if |s| <= size {
      assert s[0..|s|] == s;
    } else {
      assert Chunks(s, size)[0] == s[..size];
    }
  }

  /** There are `ceil(|s| / size)` chunks: the last one starts before the end
      of `s` and all of them together reach it. */
  lemma {:induction false} ChunkBounds<T>(s: seq<T>, size: nat)
    requires size >= 1
    ensures (|Chunks(s, size)| - 1) * size < |s| <= |Chunks(s, size)| * size
    decreases |s|
  {
    if |s| > size {
      var rest := Chunks(s[size..], size);
      assert |Chunks(s, size)| == |rest| + 1;
      ChunkBounds(s[size..], size);
      MulSucc(|rest| - 1, size);
      MulSucc(|rest|, size);
    }
  }

  /** Number of chunks as an integer division: `ceil(|s| / size)`. */
  lemma ChunkCount<T>(s: seq<T>, size: nat)
    requires size >= 1
    ensures |Chunks(s, size)| == (|s| + size - 1) / size
  {
    var q := |Chunks(s, size)|;
    ChunkBounds(s, size);
    MulSucc(q - 1, size);
    MulSucc(q, size);
    DivUnique(|s| + size - 1, size, q);
  }

  /** The quotient is the only `q` with `q * b <= a < (q + 1) * b`. */
  lemma DivUnique(a: int, b: int, q: int)
    requires b >= 1 && q * b <= a < q * b + b
    ensures a / b == q
  {
    var d, m := a / b, a % b;
    assert d * b + m == a && 0 <= m < b;
    if d < q {
      MulLe(d + 1, q, b);
      MulSucc(d, b);
    } else if d > q {
      MulLe(q + 1, d, b);
      MulSucc(q, b);
    }
  }

  lemma MulStrict(x: int, y: int, b: int)
    requires x < y && b >= 1
    ensures x * b < y * b
  {
    assert y * b == x * b + (y - x) * b;
  }

  lemma MulLe(x: int, y: int, b: int)
    requires x <= y && b >= 0
    ensures x * b <= y * b
  {
    assert y * b == x * b + (y - x) * b;
  }
}
