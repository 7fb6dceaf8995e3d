/** `BPlusTree`: a root node plus three configuration numbers, the depth
    formula, the split-key chunking and the bulk loader `from_items`. */
module Tree {
  import opened Outcomes
  import opened Sequences
  import opened BinarySearch
  import opened Nodes

  /** Entries per leaf assumed by the depth formula: a literal, never the
      tree's configurable leaf size. */
  const DepthLeafCapacity: nat := 1024

  /** Leaf size a new tree starts with. */
  const DefaultLeafNodeSize: nat := 1024

  datatype BPlusTree<V> = BPlusTree(root: Node<V>, order: nat, depth: nat, leafNodeSize: nat)

  /** `BPlusTree::new`: an empty root of the given order, depth 0 and the
      default leaf size. Creating the root panics for order 0. */
  function New<V>(order: nat): (r: Result<BPlusTree<V>>)
    ensures r.Ok? <==> order >= 1
    ensures r.Err? ==> r.fault == SubtractOverflow
    ensures r.Ok? ==>
      && r.value.order == order && r.value.depth == 0
      && r.value.leafNodeSize == DefaultLeafNodeSize
      && r.value.root == Node([], [], [], order)
  {
    match Nodes.New<V>(order)
    case Err(f) => Err(f)
    case Ok(root) => Ok(BPlusTree(root, order, 0, DefaultLeafNodeSize))
  }

  /** `with_leaf_node_size`: changes the leaf size and nothing else. */
  function WithLeafNodeSize<V>(t: BPlusTree<V>, size: nat): (r: BPlusTree<V>)
    ensures r.leafNodeSize == size
    ensures r.root == t.root && r.order == t.order && r.depth == t.depth
  {
    t.(leafNodeSize := size)
  }

  /** `with_order`: changes the tree's order and nothing else; in particular
      the existing root keeps the order it was created with. */
  function WithOrder<V>(t: BPlusTree<V>, order: nat): (r: BPlusTree<V>)
    ensures r.order == order
    ensures r.root == t.root && r.depth == t.depth && r.leafNodeSize == t.leafNodeSize
  {
    t.(order := order)
  }

  // ---------------------------------------------------------------- depth

  function Pow(b: nat, e: nat): nat {
    if e == 0 then 1 else b * Pow(b, e - 1)
  }

  lemma {:induction false} PowPositive(b: nat, e: nat)
    requires b >= 1
    ensures Pow(b, e) >= 1
  {
    if e > 0 {
      PowPositive(b, e - 1);
    }
  }

  /** For a base of at least two, powers strictly grow with the exponent. */
  lemma {:induction false} PowStrictlyIncreasing(b: nat, e1: nat, e2: nat)
    requires b >= 2 && e1 < e2
    ensures Pow(b, e1) < Pow(b, e2)
    decreases e2
  {
    PowPositive(b, e2 - 1);
    if e1 < e2 - 1 {
      PowStrictlyIncreasing(b, e1, e2 - 1);
    }
  }

  /** The guard of the loop in `depth`: level `d` still holds too few entries. */
  predicate TooShallow(order: nat, d: nat, n: nat) {
    Pow(order, d) * DepthLeafCapacity <= n
  }

  /** The loop of `depth` from the value `d` onwards. */
  function DepthFrom(order: nat, n: nat, d: nat): (r: nat)
    requires order >= 2 && d >= 1
    ensures r >= d && !TooShallow(order, r, n)
    ensures forall e :: d <= e < r ==> TooShallow(order, e, n)
    decreases n - Pow(order, d) * DepthLeafCapacity
  {
    if TooShallow(order, d, n) then
      PowStrictlyIncreasing(order, d, d + 1);
      DepthFrom(order, n, d + 1)
    else d
  }

  /** `BPlusTree::depth` for the tree's order: the smallest `d >= 1` with
      `order^d * 1024 > n`. Stated for order at least 2. For order 0, and for order 1
      from 1024 entries on, the guard never fails (see `DepthGuardAlwaysHolds`)
      and the loop ends only when its counter overflows; order 1 below 1024
      entries gives 1 (see `DepthLoopOutcome`). */
  function Depth(order: nat, n: nat): (r: nat)
    requires order >= 2
    ensures r >= 1
    ensures !TooShallow(order, r, n)
    ensures r > 1 ==> TooShallow(order, r - 1, n)
    ensures forall e :: 1 <= e < r ==> TooShallow(order, e, n)
  {
    var r := DepthFrom(order, n, 1);
    assert r > 1 ==> TooShallow(order, r - 1, n);
    r
  }

  /** Minimality: any level count that fits `n` entries is at least `Depth`. */
  lemma DepthIsLeast(order: nat, n: nat, d: nat)
    requires order >= 2 && d >= 1 && !TooShallow(order, d, n)
    ensures Depth(order, n) <= d
  {
  }

  /** More entries never need fewer levels. */
  lemma DepthMonotone(order: nat, n: nat, m: nat)
    requires order >= 2 && n <= m
    ensures Depth(order, n) <= Depth(order, m)
  {
    DepthIsLeast(order, n, Depth(order, m));
  }

  /** An empty or small input (fewer than `order * 1024` entries) needs one level. */
  lemma DepthOfSmallInput(order: nat, n: nat)
    requires order >= 2 && n < order * DepthLeafCapacity
    ensures Depth(order, n) == 1
  {
    assert Pow(order, 1) == order * Pow(order, 0);
    DepthIsLeast(order, n, 1);
  }

  lemma {:induction false} PowOfOne(e: nat)
    ensures Pow(1, e) == 1
  {
    if e > 0 {
      PowOfOne(e - 1);
    }
  }

  /** For order 0 the guard holds for every `d >= 1`; for order 1 it does so
      once `n >= 1024`. Either way the guard never stops the loop. */
  lemma DepthGuardAlwaysHolds(order: nat, n: nat, d: nat)
    requires order == 0 || (order == 1 && n >= DepthLeafCapacity)
    requires d >= 1
    ensures TooShallow(order, d, n)
  {
    if order == 1 {
      PowOfOne(d);
    }
  }

  /** The largest value of the `u32` level counter of `depth`. */
  const LevelCounterMax: nat := 0xFFFF_FFFF

  /** The largest length a `Vec` can report (`usize::MAX` on 64-bit targets). */
  const UsizeMax: nat := 0xFFFF_FFFF_FFFF_FFFF

  /** The loop of `depth` as the code runs it, from level `d`: the level
      counter is a `u32`, so stepping it past `LevelCounterMax` panics. */
  function DepthLoop(order: nat, n: nat, d: nat): (r: Result<nat>)
    requires 1 <= d <= LevelCounterMax
    ensures r.Ok? ==> d <= r.value <= LevelCounterMax && !TooShallow(order, r.value, n)
    ensures r.Err? ==> r.fault == LevelCounterOverflow && TooShallow(order, LevelCounterMax, n)
    decreases LevelCounterMax - d
  {
    if !TooShallow(order, d, n) then Ok(d)
    else if d == LevelCounterMax then Err(LevelCounterOverflow)
    else DepthLoop(order, n, d + 1)
  }

  /** Started below the depth, with every level up to the depth too shallow,
      the counted loop stops exactly at the depth. */
  lemma {:induction false} DepthLoopReachesDepth(order: nat, n: nat, d: nat)
    requires order >= 2 && 1 <= d <= Depth(order, n) <= LevelCounterMax
    ensures DepthLoop(order, n, d) == Ok(Depth(order, n))
    decreases Depth(order, n) - d
  {
    if d < Depth(order, n) {
      assert TooShallow(order, d, n);
      DepthLoopReachesDepth(order, n, d + 1);
    }
  }

  /** When the guard holds at every level, the counted loop overflows. */
  lemma {:induction false} DepthLoopOverflows(order: nat, n: nat, d: nat)
    requires order == 0 || (order == 1 && n >= DepthLeafCapacity)
    requires 1 <= d <= LevelCounterMax
    ensures DepthLoop(order, n, d) == Err(LevelCounterOverflow)
    decreases LevelCounterMax - d
  {
    DepthGuardAlwaysHolds(order, n, d);
    if d < LevelCounterMax {
      DepthLoopOverflows(order, n, d + 1);
    }
  }

  /** Powers of a base of at least two are at least the powers of two. */
  lemma {:induction false} PowAtLeastPowOfTwo(b: nat, e: nat)
    requires b >= 2
    ensures Pow(b, e) >= Pow(2, e)
  {
    if e > 0 {
      PowAtLeastPowOfTwo(b, e - 1);
      MulLe(2, b, Pow(2, e - 1));
      MulLe(Pow(2, e - 1), Pow(b, e - 1), b);
    }
  }

  /** Exponents add under multiplication. */
  lemma {:induction false} PowAdd(b: nat, e1: nat, e2: nat)
    ensures Pow(b, e1 + e2) == Pow(b, e1) * Pow(b, e2)
    decreases e2
  {
    if e2 > 0 {
      PowAdd(b, e1, e2 - 1);
      var x, y := Pow(b, e1), Pow(b, e2 - 1);
      assert Pow(b, e1 + e2) == b * (x * y);
      assert b * (x * y) == x * (b * y);
    }
  }

  lemma PowOfTwo64()
    ensures Pow(2, 64) == UsizeMax + 1
  {
    assert Pow(2, 8) == 256;
    PowAdd(2, 8, 8);
    assert Pow(2, 16) == 65536;
    PowAdd(2, 16, 16);
    assert Pow(2, 32) == 0x1_0000_0000;
    PowAdd(2, 32, 32);
  }

  /** Any length a `Vec` can have needs at most 64 levels for order at least
      2, so the level counter never overflows there. */
  lemma DepthFitsCounter(order: nat, n: nat)
    requires order >= 2 && n <= UsizeMax
    ensures Depth(order, n) <= 64
  {
    PowAtLeastPowOfTwo(order, 64);
    PowOfTwo64();
    DepthIsLeast(order, n, 64);
  }

  /** `depth` as the code runs it: for order at least 2 and any `Vec`
      length it returns `Depth`; for order 0, and for order 1 with at least
      1024 entries, the counter overflows; for order 1 below 1024 entries it
      returns 1. */
  lemma DepthLoopOutcome(order: nat, n: nat)
    requires n <= UsizeMax
    ensures order >= 2 ==> DepthLoop(order, n, 1) == Ok(Depth(order, n))
    ensures order == 0 || (order == 1 && n >= DepthLeafCapacity) ==>
      DepthLoop(order, n, 1) == Err(LevelCounterOverflow)
    ensures order == 1 && n < DepthLeafCapacity ==> DepthLoop(order, n, 1) == Ok(1)
  {
    if order >= 2 {
      DepthFitsCounter(order, n);
      DepthLoopReachesDepth(order, n, 1);
    } else if order == 0 || n >= DepthLeafCapacity {
      DepthLoopOverflows(order, n, 1);
    } else {
      PowOfOne(1);
    }
  }

  // ----------------------------------------------------------- split keys

  /** `BPlusTree::split_keys` for the tree's order: the first key of every
      chunk of `order - 1` keys, in order (see `SplitKeyAt`, `SplitKeysCount`).
      Chunking by 0 (order 1) panics and `order - 1` underflows (order 0),
      hence `order >= 2`. */
  function SplitKeys(keys: seq<Key>, order: nat): (r: seq<Key>)
    requires order >= 2
    ensures |r| <= |keys|
    ensures |r| == 0 <==> |keys| == 0
  {
    var chunks := Chunks(keys, order - 1);
    seq(|chunks|, k requires 0 <= k < |chunks| => chunks[k][0])
  }

  /** The `k`-th split key is the key at position `k * (order - 1)`. */
  lemma SplitKeyAt(keys: seq<Key>, order: nat, k: nat)
    requires order >= 2 && k < |SplitKeys(keys, order)|
    ensures k * (order - 1) < |keys|
    ensures SplitKeys(keys, order)[k] == keys[k * (order - 1)]
  {
    ChunkAt(keys, order - 1, k);
  }

  /** The number of split keys is `ceil(|keys| / (order - 1))`. */
  lemma SplitKeysCount(keys: seq<Key>, order: nat)
    requires order >= 2
    ensures |SplitKeys(keys, order)| == (|keys| + order - 2) / (order - 1)
    ensures (|SplitKeys(keys, order)| - 1) * (order - 1) < |keys| <= |SplitKeys(keys, order)| * (order - 1)
  {
    ChunkCount(keys, order - 1);
    ChunkBounds(keys, order - 1);
  }

  /** Split keys are a subsequence of the keys, so they inherit their order. */
  lemma SplitKeysSorted(keys: seq<Key>, order: nat)
    requires order >= 2
    ensures Sorted(keys) ==> Sorted(SplitKeys(keys, order))
    ensures StrictlyIncreasing(keys) ==> StrictlyIncreasing(SplitKeys(keys, order))
  {
    var r := SplitKeys(keys, order);
    var c := order - 1;
    forall i, j | 0 <= i < j < |r|
      ensures Sorted(keys) ==> r[i] <= r[j]
      ensures StrictlyIncreasing(keys) ==> r[i] < r[j]
    {
      SplitKeyAt(keys, order, i);
      SplitKeyAt(keys, order, j);
      MulStrict(i, j, c);
      var a, b := i * c, j * c;
      assert r[i] == keys[a] && r[j] == keys[b] && a < b < |keys|;
    }
  }

  // ------------------------------------------------------------ bulk load

  /** The children `from_items` attaches: one per split key, holding that
      split key together with the value at the split key's OWN position in
      the list of split keys (not the value stored with that key). */
  function OneEntryChildren<V>(order: nat, splits: seq<Key>, values: seq<V>): (r: seq<Node<V>>)
    requires |splits| <= |values|
    ensures |r| == |splits|
    ensures forall i :: 0 <= i < |splits| ==> r[i] == OneEntry(order, splits[i], values[i])
  {
    seq(|splits|, i requires 0 <= i < |splits| => OneEntry(order, splits[i], values[i]))
  }

  /** The `j`-th split key is the `j`-th key, for every split key. This is
      what lets each child be attached without running past the end of the
      root's children. */
  predicate SplitsMatchKeys(keys: seq<Key>, order: nat)
    requires order >= 2
  {
    var splits := SplitKeys(keys, order);
    AgreeUpTo(splits, keys, |splits|)
  }

  /** `BPlusTree::from_items`. Asserts the keys are sorted and as many as the
      values, computes the depth and the split keys with the TREE's order,
      replaces the root by a fresh node of the GIVEN order and fills it
      (`FillRoot`).

      It returns exactly when every split key equals the key at the same
      position; otherwise attaching a child panics. On return the root holds
      all keys in order and every value, and one child per split key. */
  method FromItems<V>(t: BPlusTree<V>, order: nat, keys: seq<Key>, values: seq<V>)
    returns (r: Result<BPlusTree<V>>)
    requires |keys| <= UsizeMax
    ensures r.Ok? <==>
      Sorted(keys) && |keys| == |values| && t.order >= 2 && order >= 1 && SplitsMatchKeys(keys, t.order)
    ensures !Sorted(keys) || |keys| != |values| ==> r.Err? && r.fault == AssertionFailed
    ensures Sorted(keys) && |keys| == |values| ==>
      && (t.order == 0 || (t.order == 1 && |keys| >= DepthLeafCapacity) ==> r.Err? && r.fault == LevelCounterOverflow)
      && (t.order == 1 && |keys| < DepthLeafCapacity ==> r.Err? && r.fault == ZeroChunkSize)
      && (t.order >= 2 && order == 0 ==> r.Err? && r.fault == SubtractOverflow)
      && (t.order >= 2 && order >= 1 && !SplitsMatchKeys(keys, t.order) ==>
            r.Err? && r.fault == InsertionIndexOutOfBounds)
    ensures r.Ok? ==>
      var u := r.value;
      var splits := SplitKeys(keys, t.order);
      && u.order == t.order && u.leafNodeSize == t.leafNodeSize
      && u.depth == Depth(t.order, |keys|)
      && u.root.order == order
      && u.root.keys == keys
      && multiset(u.root.values) == multiset(values)
      && |u.root.values| == |values|
      && multiset(Zip(u.root.keys, u.root.values)) == multiset(Zip(keys, values))
      && |u.root.children| == |splits|
      && multiset(u.root.children) == multiset(OneEntryChildren(order, splits, values))
    ensures r.Ok? && StrictlyIncreasing(keys) ==>
      && r.value.root.values == values
      && r.value.root.children == OneEntryChildren(order, SplitKeys(keys, t.order), values)
  {
    AdjacentSortedIsSorted(keys);
    if !AdjacentSorted(keys) || |keys| != |values| {
      return Err(AssertionFailed);
    }
    DepthLoopOutcome(t.order, |keys|);
    var depth := DepthLoop(t.order, |keys|, 1);
    if depth.Err? {
      return Err(depth.fault);
    }
    if t.order == 1 {
      return Err(ZeroChunkSize);
    }
    var splits := SplitKeys(keys, t.order);
    var blank := Nodes.New<V>(order);
    if blank.Err? {
      return Err(blank.fault);
    }
    var filled := FillRoot(blank.value, keys, values, t.order);
    if filled.Err? {
      return Err(filled.fault);
    }
    return Ok(BPlusTree(filled.value, t.order, depth.value, t.leafNodeSize));
  }

  /** The loop of `from_items` over a fresh root: for each position `i`,
      insert `(keys[i], values[i])` into the root and, while `i` is below the
      number of split keys, attach the one-entry child `(splits[i], values[i])`. */
  method FillRoot<V>(blank: Node<V>, keys: seq<Key>, values: seq<V>, treeOrder: nat)
    returns (r: Result<Node<V>>)
    requires blank.keys == [] && blank.values == [] && blank.children == [] && blank.order >= 1
    requires Sorted(keys) && |keys| == |values| && treeOrder >= 2
    ensures r.Ok? <==> SplitsMatchKeys(keys, treeOrder)
    ensures r.Err? ==> r.fault == InsertionIndexOutOfBounds
    ensures r.Ok? ==>
      var splits := SplitKeys(keys, treeOrder);
      && r.value.order == blank.order
      && r.value.keys == keys
      && multiset(r.value.values) == multiset(values)
      && |r.value.values| == |values|
      && multiset(Zip(r.value.keys, r.value.values)) == multiset(Zip(keys, values))
      && |r.value.children| == |splits|
      && multiset(r.value.children) == multiset(OneEntryChildren(blank.order, splits, values))
    ensures r.Ok? && StrictlyIncreasing(keys) ==>
      && r.value.values == values
      && r.value.children == OneEntryChildren(blank.order, SplitKeys(keys, treeOrder), values)
  {
    var order := blank.order;
    var splits := SplitKeys(keys, treeOrder);
    var expected := OneEntryChildren(order, splits, values);
    var root := blank;
    var i := 0;
    ghost var exact := StrictlyIncreasing(keys);
    LoadStarted(blank, keys, values, splits, expected, exact);
    while i < |keys|
      invariant LoopState(root, keys, values, i, splits, expected, order, exact)
    {
      var next := LoadPass(root, keys, values, i, splits, treeOrder, expected, order, exact);
      if next.Err? {
        return next;
      }
      root := next.value;
      i := i + 1;
    }
    LoadFinished(root, keys, values, i, splits, expected, order, exact, treeOrder);
    return Ok(root);
  }

  /** One split key away from its position rules out a full load. */
  lemma SplitMismatchBreaksLoad(keys: seq<Key>, order: nat, i: nat)
    requires order >= 2 && i < |SplitKeys(keys, order)| && i < |keys|
    requires SplitKeys(keys, order)[i] != keys[i]
    ensures !SplitsMatchKeys(keys, order)
  {
    var splits := SplitKeys(keys, order);
    AgreeBroken(splits, keys, |splits|, i);
  }

  /** What the loop of `from_items` keeps after `i` passes: the root has the
      given order and the first `i` keys in order; its values, its (key,
      value) pairs and its children are those of the first `i` positions
      (as multisets, and in order when `exact`); and the split keys seen so
      far equal the keys at their positions. */
  ghost predicate LoopState<V>(root: Node<V>, keys: seq<Key>, values: seq<V>, i: nat, splits: seq<Key>,
                              expected: seq<Node<V>>, order: nat, exact: bool) {
    && i <= |keys| == |values| && |expected| == |splits| <= |keys|
    && root.order == order
    && root.keys == keys[..i]
    && Tracks(root.values, values, i, exact)
    && PairsLoaded(root, keys, values, i)
    && Tracks(root.children, expected, Min(i, |splits|), exact)
    && AgreeUpTo(splits, keys, Min(i, |splits|))
  }

  /** A successful pass of the loop moves the loop state one position on. */
  lemma Advance<V>(root: Node<V>, next: Node<V>, keys: seq<Key>, values: seq<V>, i: nat, splits: seq<Key>,
                   expected: seq<Node<V>>, order: nat, exact: bool)
    requires LoopState(root, keys, values, i, splits, expected, order, exact) && i < |keys|
    requires exact ==> StrictlyIncreasing(keys)
    requires i < |splits| ==> expected[i] == OneEntry(root.order, splits[i], values[i])
    requires i < |splits| ==> splits[i] == keys[i]
    requires
      && next.order == root.order
      && next.keys == keys[..i + 1]
      && |next.values| == i + 1
      && multiset(next.values) == multiset(root.values) + multiset{values[i]}
      && PairsLoaded(next, keys, values, i + 1)
      && (StrictlyIncreasing(keys) ==> next.values == root.values + [values[i]])
    requires i >= |splits| ==> next.children == root.children
    requires i < |splits| ==>
      var child := OneEntry(root.order, splits[i], values[i]);
      && |next.children| == i + 1
      && multiset(next.children) == multiset(root.children) + multiset{child}
      && (StrictlyIncreasing(keys) ==> next.children == root.children + [child])
    ensures LoopState(next, keys, values, i + 1, splits, expected, order, exact)
  {
    TracksExtend(root.values, next.values, values, i, exact);
    if i < |splits| {
      TracksExtend(root.children, next.children, expected, i, exact);
      AgreeExtend(splits, keys, i);
    }
  }

  /** The fresh root is the loop state before the first pass. */
  lemma LoadStarted<V>(blank: Node<V>, keys: seq<Key>, values: seq<V>, splits: seq<Key>,
                       expected: seq<Node<V>>, exact: bool)
    requires blank.keys == [] && blank.values == [] && blank.children == []
    requires |keys| == |values| && |expected| == |splits| <= |keys|
    ensures LoopState(blank, keys, values, 0, splits, expected, blank.order, exact)
  {
    assert Zip(blank.keys, blank.values) == [];
  }

  /** The state the loop of `from_items` ends in, read off as the final root. */
  lemma LoadFinished<V>(root: Node<V>, keys: seq<Key>, values: seq<V>, i: nat, splits: seq<Key>,
                        expected: seq<Node<V>>, order: nat, exact: bool, treeOrder: nat)
    requires LoopState(root, keys, values, i, splits, expected, order, exact) && i == |keys|
    requires treeOrder >= 2 && splits == SplitKeys(keys, treeOrder)
    ensures SplitsMatchKeys(keys, treeOrder)
    ensures root.keys == keys
    ensures multiset(root.values) == multiset(values) && |root.values| == |values|
    ensures multiset(Zip(root.keys, root.values)) == multiset(Zip(keys, values))
    ensures |root.children| == |expected| && multiset(root.children) == multiset(expected)
    ensures exact ==> root.values == values && root.children == expected
  {
    PrefixWhole(keys, i);
    TracksWhole(root.values, values, exact);
    PairsWhole(root, keys, values);
    assert Min(i, |splits|) == |splits|;
    TracksWhole(root.children, expected, exact);
  }

  /** One pass of the loop of `from_items`, at position `i`: insert
      `(keys[i], values[i])` into the root, then, if `i` is below the number of
      split keys, build the child `(splits[i], values[i])` and attach it. */
  method LoadStep<V>(root: Node<V>, keys: seq<Key>, values: seq<V>, i: nat, splits: seq<Key>, treeOrder: nat)
    returns (r: Result<Node<V>>)
    requires treeOrder >= 2 && Sorted(keys) && |keys| == |values| && i < |keys|
    requires splits == SplitKeys(keys, treeOrder)
    requires root.order >= 1 && root.keys == keys[..i] && |root.values| == i
    requires |root.children| == Min(i, |splits|)
    requires PairsLoaded(root, keys, values, i)
    ensures r.Ok? <==> (i < |splits| ==> splits[i] == keys[i])
    ensures r.Err? ==> r.fault == InsertionIndexOutOfBounds
    ensures r.Ok? ==>
      && r.value.order == root.order
      && r.value.keys == keys[..i + 1]
      && |r.value.values| == i + 1
      && multiset(r.value.values) == multiset(root.values) + multiset{values[i]}
      && PairsLoaded(r.value, keys, values, i + 1)
      && (StrictlyIncreasing(keys) ==> r.value.values == root.values + [values[i]])
    ensures r.Ok? && i >= |splits| ==> r.value.children == root.children
    ensures r.Ok? && i < |splits| ==>
      var child := OneEntry(root.order, splits[i], values[i]);
      && |r.value.children| == i + 1
      && multiset(r.value.children) == multiset(root.children) + multiset{child}
      && (StrictlyIncreasing(keys) ==> r.value.children == root.children + [child])
  {
    InsertStep(root, keys, values, i);
    var withPair := Insert(root, keys[i], values[i]).value;
    PairsExtend(root, withPair, keys, values, i);
    if i < |splits| {
      InsertIntoNew(root.order, splits[i], values[i]);
      var child := Insert(Nodes.New<V>(root.order).value, splits[i], values[i]).value;
      AttachStep(withPair, child, keys, i, splits, treeOrder);
      r := InsertChild(withPair, child);
    } else {
      r := Ok(withPair);
    }
  }

  /** The same pass, read as a move of the loop state from `i` to `i + 1`. */
  method LoadPass<V>(root: Node<V>, keys: seq<Key>, values: seq<V>, i: nat, splits: seq<Key>, treeOrder: nat,
                     ghost expected: seq<Node<V>>, ghost order: nat, ghost exact: bool)
    returns (r: Result<Node<V>>)
    requires treeOrder >= 2 && Sorted(keys) && |keys| == |values| && i < |keys| && order >= 1
    requires splits == SplitKeys(keys, treeOrder)
    requires expected == OneEntryChildren(order, splits, values)
    requires exact == StrictlyIncreasing(keys)
    requires LoopState(root, keys, values, i, splits, expected, order, exact)
    ensures r.Ok? <==> (i < |splits| ==> splits[i] == keys[i])
    ensures r.Ok? ==> LoopState(r.value, keys, values, i + 1, splits, expected, order, exact)
    ensures r.Err? ==> r.fault == InsertionIndexOutOfBounds && !SplitsMatchKeys(keys, treeOrder)
  {
    r := LoadStep(root, keys, values, i, splits, treeOrder);
    if r.Err? {
      SplitMismatchBreaksLoad(keys, treeOrder, i);
      return;
    }
    Advance(root, r.value, keys, values, i, splits, expected, order, exact);
  }

  /** The root's (key, value) pairs are, as a multiset, the first `m` of the
      input's pairs. */
  ghost predicate PairsLoaded<V>(n: Node<V>, keys: seq<Key>, values: seq<V>, m: nat) {
    && |keys| == |values| && |n.keys| == |n.values|
    && Tracks(Zip(n.keys, n.values), Zip(keys, values), m, false)
  }

  lemma PairsExtend<V>(before: Node<V>, after: Node<V>, keys: seq<Key>, values: seq<V>, m: nat)
    requires PairsLoaded(before, keys, values, m) && m < |keys|
    requires |after.keys| == |after.values| == m + 1
    requires multiset(Zip(after.keys, after.values)) == multiset(Zip(before.keys, before.values)) + multiset{(keys[m], values[m])}
    ensures PairsLoaded(after, keys, values, m + 1)
  {
    TracksExtend(Zip(before.keys, before.values), Zip(after.keys, after.values), Zip(keys, values), m, false);
  }

  lemma PairsWhole<V>(n: Node<V>, keys: seq<Key>, values: seq<V>)
    requires PairsLoaded(n, keys, values, |keys|)
    ensures multiset(Zip(n.keys, n.values)) == multiset(Zip(keys, values))
  {
    TracksWhole(Zip(n.keys, n.values), Zip(keys, values), false);
  }

  /** One root insertion of the loop: with the root holding `keys[..i]`,
      inserting `keys[i]` appends it, and with distinct keys the value too. */
  lemma InsertStep<V>(root: Node<V>, keys: seq<Key>, values: seq<V>, i: nat)
    requires Sorted(keys) && |keys| == |values| && i < |keys|
    requires root.keys == keys[..i] && |root.values| == i
    ensures Insert(root, keys[i], values[i]).Ok?
    ensures
      var n := Insert(root, keys[i], values[i]).value;
      && n.keys == keys[..i + 1] && |n.values| == i + 1
      && multiset(n.values) == multiset(root.values) + multiset{values[i]}
      && multiset(Zip(n.keys, n.values)) == multiset(Zip(root.keys, root.values)) + multiset{(keys[i], values[i])}
      && n.children == root.children && n.order == root.order
      && (StrictlyIncreasing(keys) ==> n.values == root.values + [values[i]])
  {
    InsertLargestAppends(root, keys[i], values[i]);
    InsertKeepsPairs(root, keys[i], values[i]);
    PrefixExtend(keys, i);
  }

  /** One child attachment of the loop: with the root holding `keys[..i+1]`
      and `i` children, the child for split key `i` fits exactly when that
      split key is `keys[i]`; with distinct keys it is then appended. */
  lemma AttachStep<V>(root: Node<V>, child: Node<V>, keys: seq<Key>, i: nat, splits: seq<Key>, treeOrder: nat)
    requires treeOrder >= 2 && Sorted(keys) && splits == SplitKeys(keys, treeOrder)
    requires i < |splits| && root.keys == keys[..i + 1] && |root.children| == i
    requires |child.keys| >= 1 && child.keys[0] == splits[i]
    ensures InsertChild(root, child).Ok? <==> splits[i] == keys[i]
    ensures InsertChild(root, child).Ok? ==>
      multiset(InsertChild(root, child).value.children) == multiset(root.children) + multiset{child}
    ensures InsertChild(root, child).Ok? && StrictlyIncreasing(keys) ==>
      InsertChild(root, child).value.children == root.children + [child]
  {
    var c := treeOrder - 1;
    SplitKeyAt(keys, treeOrder, i);
    var at := i * c;
    MulLe(1, c, i);
    assert i <= at < |keys|;
    assert keys[i] <= keys[at];
    PrefixKeepsOrder(keys, i + 1);
    var probe := splits[i];
    ProbeAgainstLast(root.keys, probe);
    var attached := InsertChild(root, child);
    if attached.Ok? && StrictlyIncreasing(keys) {
      assert InsertionPoint(root.keys, probe) == i;
      RemoveLastIsPrefix(attached.value.children, root.children, child);
    }
  }

  /** With distinct keys, loading returns exactly when chunks hold one key
      (order 2) or all keys fit in the first chunk. Otherwise the second
      child lands one place past the end of the root's children: the root
      then holds `[k0, k1]`, the probe is `k[order-1] > k1`, so its index is 2
      while there is one child. */
  lemma DistinctKeysLoadIff(keys: seq<Key>, order: nat)
    requires order >= 2 && StrictlyIncreasing(keys)
    ensures SplitsMatchKeys(keys, order) <==> order == 2 || |keys| <= order - 1
  {
    if order == 2 {
      OrderTwoSplitsEveryKey(keys);
    } else if |keys| <= order - 1 {
      OneChunkSplitsFirstKey(keys, order);
    } else {
      SecondSplitSkipsKeys(keys, order);
    }
  }

  /** With order 2 every chunk holds one key, so every key is a split key. */
  lemma OrderTwoSplitsEveryKey(keys: seq<Key>)
    ensures SplitsMatchKeys(keys, 2)
  {
    var splits := SplitKeys(keys, 2);
    forall j | 0 <= j < |splits|
      ensures splits[j] == keys[j]
    {
      SplitKeyAt(keys, 2, j);
    }
  }

  /** Keys that fit in one chunk give the single split key `keys[0]`. */
  lemma OneChunkSplitsFirstKey(keys: seq<Key>, order: nat)
    requires order >= 2 && |keys| <= order - 1
    ensures SplitsMatchKeys(keys, order)
  {
    var splits := SplitKeys(keys, order);
    SplitKeysCount(keys, order);
    if |splits| >= 2 {
      MulLe(1, |splits| - 1, order - 1);
    }
    if |splits| == 1 {
      SplitKeyAt(keys, order, 0);
    }
  }

  /** With chunks of two or more keys and more than one chunk, the second
      split key is `keys[order - 1]`, which distinct keys keep apart from
      `keys[1]`. */
  lemma SecondSplitSkipsKeys(keys: seq<Key>, order: nat)
    requires order >= 3 && |keys| > order - 1 && StrictlyIncreasing(keys)
    ensures !SplitsMatchKeys(keys, order)
  {
    var splits := SplitKeys(keys, order);
    var c := order - 1;
    SplitKeysCount(keys, order);
    if |splits| <= 1 {
      MulLe(|splits|, 1, c);
    }
    SplitKeyAt(keys, order, 1);
    assert splits[1] == keys[c] && keys[1] < keys[c];
  }

  /** Order 4 with keys 1..9: the split keys are [1, 4, 7], the depth is 1,
      and the second split key (4) differs from the second key (2), so
      loading panics when it attaches the second child. */
  lemma OrderFourScenario()
    ensures SplitKeys([1, 2, 3, 4, 5, 6, 7, 8, 9], 4) == [1, 4, 7]
    ensures Depth(4, 9) == 1
    ensures !SplitsMatchKeys([1, 2, 3, 4, 5, 6, 7, 8, 9], 4)
  {
    var keys := [1, 2, 3, 4, 5, 6, 7, 8, 9];
    var splits := SplitKeys(keys, 4);
    SplitKeysCount(keys, 4);
    assert |splits| == 3;
    SplitKeyAt(keys, 4, 0);
    SplitKeyAt(keys, 4, 1);
    SplitKeyAt(keys, 4, 2);
    assert splits[0] == keys[0] && splits[1] == keys[3] && splits[2] == keys[6];
  }
}
