# bptree: a Dafny model of the bulk-loaded B+ tree skeleton

`bptree` is a small in-memory B+ tree skeleton in Rust, written as a
write-once index. Its whole logic sits in `src/lib.rs`:

- a `Node` made of three parallel growable vectors (`keys`, `values`,
  `children`) plus the order it was created with, with two ordered-insert
  primitives: `insert` (a key/value pair) and `insert_child` (a child node,
  placed by its first key among the node's own keys);
- a `BPlusTree` holding a root, an order, a depth and a leaf size, with a
  constructor, two builder setters, the depth formula `depth`, the chunking
  `split_keys`, and the bulk loader `from_items`.

This project models all of it as pure Dafny over `seq` and `nat`:

| file | module | contents |
|---|---|---|
| `outcomes.dfy` | `Outcomes` | `Fault` (the ways the code panics) and `Result` |
| `sequences.dfy` | `Sequences` | sortedness, `Vec::insert` (`VecInsert`) and its inverse `RemoveAt`, pairing two sequences (`Zip`), `slice::chunks` (`Chunks`), small sequence facts |
| `search.dfy` | `BinarySearch` | `slice::binary_search` as its documented contract, and the `unwrap_or_else(\|x\| x)` insertion point |
| `node.dfy` | `Nodes` | `Node`, `Node::new`, `Node::insert`, `Node::insert_child`, and lemmas on where entries and children land |
| `tree.dfy` | `Tree` | `BPlusTree`, `new`, the setters, `depth`, `split_keys`, `from_items` and its loop |

Modelling choices:

- Keys are `int`, which stands for the source's `K: Ord`. Values are a type parameter `V`.
- Every panic becomes an `Err(fault)` of a `Result`. The model follows debug
  builds, where arithmetic overflow panics. The faults are:
  - `AssertionFailed`: an `assert!` in `from_items` fails;
  - `SubtractOverflow`: `order - 1` underflows in `Node::new(0)`;
  - `ZeroChunkSize`: `chunks(0)` is called;
  - `InsertionIndexOutOfBounds`: `Vec::insert` is given an index past the end;
  - `IndexOutOfBounds`: `child.keys[0]` is read on a child without keys;
  - `LevelCounterOverflow`: `d += 1` overflows the `u32` level counter of
    `depth`. This happens for order 0, and for order 1 with at least 1024
    entries, where the loop guard holds at every level
    (`Tree.DepthGuardAlwaysHolds`). The loop then runs `2^32 - 1` rounds
    before it panics (`Tree.DepthLoop`, `Tree.DepthLoopOutcome`). For order
    2 and up the counter never gets near its limit (`Tree.DepthFitsCounter`).
- `binary_search` is given one concrete bisection. Every fact used downstream
  comes from its contract (`BinarySearch.Meets`), which is what the standard
  library documents. With duplicate keys, the contract allows any matching
  index.
- `from_items` uses two different orders:
  - the tree's own `order` drives `depth` and `split_keys`;
  - the `order` argument is what the new root and its children are created with.

  `Tree.FromItems` keeps the two apart.
- `from_items` returns exactly when every split key equals the key at the same
  position (`Tree.SplitsMatchKeys`). For distinct keys this means:
  - the tree's order is 2, or
  - all keys fit in one chunk (`Tree.DistinctKeysLoadIff`).

  For distinct keys, in every other case the second child attachment panics
  (`Tree.SecondSplitSkipsKeys`). With duplicate keys a later attachment can
  be the one that panics, or none does. One might expect order 4 with keys
  1..9 to give a root with three children. The code as written panics on the
  second `insert_child` (`Tree.OrderFourScenario`).
- On return, the root pairs every key with its own value. As a multiset, the
  root's (key, value) pairs are the input's pairs (`Sequences.Zip`).
- The length of a `Vec` is at most `usize::MAX`. `Tree.FromItems` requires
  this of its input (`Tree.UsizeMax`, 64-bit targets).

## Model

| member | source | states |
|---|---|---|
| Sequences.AdjacentSortedIsSorted | src/lib.rs:56 | the neighbour-by-neighbour check `is_sorted` performs holds exactly when every earlier key is at most every later key |
| Sequences.VecInsert | src/lib.rs:147-148 | `Vec::insert` succeeds iff the index is at most the length, else panics; the result is one longer, holds the element at the index, keeps earlier elements in place and shifts later ones by one, gives back the input when that position is removed, and gains exactly that element as a multiset |
| Sequences.InsertZip | src/lib.rs:147-148 | inserting a key and a value at the same index of two equally long vectors inserts the pair at that index of their pairing, with every other pair kept in place |
| Sequences.Chunks | src/lib.rs:110 | `chunks` yields no pieces exactly for an empty slice, never more pieces than elements, and no empty piece |
| Sequences.ChunksFlatten | src/lib.rs:110 | the chunks put back together are the original slice |
| Sequences.ChunkAt | src/lib.rs:110 | chunk `k` is the slice starting at `k * size`, `size` long unless cut short by the end |
| Sequences.ChunkCount | src/lib.rs:110 | the number of chunks is the length divided by the chunk size, rounded up |
| BinarySearch.SearchBetween | src/lib.rs:144 | bisection of a window whose outside is already known to be below or above the probe stays in the window and meets the search contract on a sorted slice |
| BinarySearch.Search | src/lib.rs:144 | on a sorted slice the search either reports an index holding the probe, or the position with everything before strictly below and everything from it strictly above the probe |
| BinarySearch.InsertionPoint | src/lib.rs:144 | the index either way the search ends is at most the length; on a sorted slice everything before it is at most the probe and everything from it on is at least the probe |
| BinarySearch.InsertionPointBetween | src/lib.rs:144 | on a sorted slice, a position with strictly smaller keys before it and strictly larger keys from it on IS the insertion point |
| BinarySearch.SearchFindsPresent | src/lib.rs:144 | on a sorted slice the search reports a hit exactly when the probe occurs in it |
| Nodes.New | src/lib.rs:132-139 | a node is created iff the order is at least 1 (order 0 underflows `order - 1`); it is empty in all three vectors and remembers the order |
| Nodes.Insert | src/lib.rs:142-149 | the pair lands at the insertion point, key and value at the same index; both vectors grow by one and removing that index restores them; an aligned node stays aligned and never panics; sorted keys stay sorted; a duplicate key is placed just before an equal key; children and order are untouched; a misaligned node whose values are too short panics |
| Nodes.InsertKeepsPairs | src/lib.rs:142-149 | inserting into an aligned node never panics, keeps it aligned, and adds exactly the pair (key, value) to its (key, value) pairs, so no value changes the key it sits beside |
| Nodes.InsertChild | src/lib.rs:152-158 | a child without keys panics on `keys[0]`; otherwise the child is placed at the insertion point of its first key among the parent's OWN keys, succeeding iff that point is at most the number of children; removing it restores the children; keys, values and order are untouched |
| Nodes.InsertIntoNew | src/lib.rs:77-80 | inserting one pair into a fresh node gives the node holding just that pair |
| Nodes.InsertLargestAppends | src/lib.rs:144-148 | inserting a key at least as large as every stored key appends it; if strictly larger, its value is appended too |
| Nodes.ProbeAgainstLast | src/lib.rs:154-157 | against sorted keys ending in `last`, a probe at least `last` falls on an existing position iff it equals `last`, and with distinct keys it then falls on `last`'s own index |
| Nodes.InsertChildAtEnd | src/lib.rs:152-158 | a child whose first key probes exactly one past the last child is appended and nothing else changes |
| Nodes.ChildrenFollowParentKeys | src/lib.rs:152-158 | with three sorted parent keys and children whose first keys fall below, between the first two, and between the last two parent keys, attaching them in turn puts them at positions 0, 1 and 2 |
| Nodes.ChildOrderIgnoresSiblings | src/lib.rs:154-157 | siblings are never compared: a child probing between two parent keys goes after the one existing child, whatever that child's first key |
| Nodes.InsertChildPastEndPanics | src/lib.rs:157 | a child probing past the end of an empty child list (between the second and third of three parent keys) makes `Vec::insert` panic |
| Tree.New | src/lib.rs:29-39 | a tree is created iff its root can be (order at least 1); it has the given order, depth 0, leaf size 1024 and an empty root of that order |
| Tree.WithLeafNodeSize | src/lib.rs:42-45 | sets the leaf size and leaves root, order and depth as they were |
| Tree.WithOrder | src/lib.rs:48-51 | sets the order and leaves root (with its own order), depth and leaf size as they were |
| Tree.DepthFrom | src/lib.rs:98-101 | the loop started at `d` ends at some `r >= d` where `order^r * 1024` exceeds `n`, and every level it stepped over held at most `n` |
| Tree.Depth | src/lib.rs:90-104 | for order at least 2 the depth is at least 1, `order^depth * 1024 > n`, and every smaller level from 1 holds at most `n`, using the literal 1024 rather than the leaf size |
| Tree.DepthIsLeast | src/lib.rs:94-101 | any level count `d >= 1` with `order^d * 1024 > n` is at least the depth |
| Tree.DepthMonotone | src/lib.rs:90-104 | more entries never give a smaller depth |
| Tree.DepthOfSmallInput | src/lib.rs:98-103 | fewer than `order * 1024` entries (in particular none) give depth 1 |
| Tree.DepthGuardAlwaysHolds | src/lib.rs:99-101 | for order 0, and for order 1 with at least 1024 entries, the loop guard holds at every level `d >= 1` |
| Tree.DepthLoop | src/lib.rs:98-103 | the loop with its `u32` level counter: when it returns, the level is within the counter's range and `order^level * 1024` exceeds `n`; when it panics on `d += 1`, the guard still held at the counter's largest value |
| Tree.DepthLoopReachesDepth | src/lib.rs:98-103 | for order at least 2, a loop started at or below `Depth` (which fits the counter) returns exactly `Depth` |
| Tree.DepthLoopOverflows | src/lib.rs:98-101 | for order 0, and for order 1 with at least 1024 entries, the loop panics with a counter overflow from any start |
| Tree.DepthFitsCounter | src/lib.rs:98-100 | for order at least 2 and any length a `Vec` can have, the depth is at most 64, far below the counter's limit |
| Tree.DepthLoopOutcome | src/lib.rs:90-104 | `depth` from level 1 over any `Vec` length: returns `Depth` for order at least 2, returns 1 for order 1 below 1024 entries, and panics with a counter overflow for order 0 and for order 1 from 1024 entries on |
| Tree.SplitKeys | src/lib.rs:106-112 | no more split keys than keys, and none exactly when there are no keys |
| Tree.SplitKeyAt | src/lib.rs:110 | split key `k` is `keys[k * (order - 1)]` |
| Tree.SplitKeysCount | src/lib.rs:106-112 | there are `ceil(n / (order - 1))` split keys, the last chunk starting before `n` and all chunks covering it |
| Tree.SplitKeysSorted | src/lib.rs:106-112 | split keys of sorted keys are sorted, and of strictly increasing keys strictly increasing |
| Tree.FromItems | src/lib.rs:54-87 | returns iff the keys are sorted, as many as the values, the tree's order is at least 2, the given order at least 1 and every split key equals the key at its position; names the fault of every other case (failed assertion, level counter overflow, zero chunk size, underflow, child past the end); on return the tree keeps its order and leaf size, has depth `Depth(order, n)`, and a root of the given order holding all keys in order, every value paired with its own key, and one one-entry child `(split key i, values[i])` per split key; with distinct keys values and children are in exactly that order |
| Tree.FillRoot | src/lib.rs:70-85 | the loop over a fresh root succeeds iff every split key equals the key at its position; on success the root holds the keys, the values paired with their keys, and the one-entry children as above |
| Tree.LoadStep | src/lib.rs:71-84 | one pass inserts `keys[i]` as the new last key and, below the number of split keys, attaches child `i`; it panics iff split key `i` differs from `keys[i]` |
| Tree.LoadPass | src/lib.rs:70-84 | one pass moves the loop state (keys so far in order, values and pairs so far as multisets, children so far, split keys matched so far) from position `i` to `i + 1`, or panics with the child past the end when split key `i` differs from `keys[i]`, which rules out a full load |
| Tree.LoadStarted | src/lib.rs:66-70 | the fresh root is the loop state before the first pass |
| Tree.LoadFinished | src/lib.rs:70-87 | the loop state after the last pass means every split key matched, the root holds all keys in order, all values paired with their keys, and all the expected children |
| Tree.Advance | src/lib.rs:71-84 | one key appended, its pair added and, below the number of split keys, its child added, the loop state moves on by one |
| Tree.SplitMismatchBreaksLoad | src/lib.rs:75-83 | a single split key that differs from the key at its position rules out loading |
| Tree.InsertStep | src/lib.rs:72 | with the root holding a prefix of sorted keys, inserting the next key appends it, and with distinct keys appends its value |
| Tree.AttachStep | src/lib.rs:75-83 | with the root holding `keys[..i+1]` and `i` children, child `i` fits iff split key `i` is `keys[i]`, and with distinct keys it is appended |
| Tree.DistinctKeysLoadIff | src/lib.rs:54-87 | for distinct keys, loading returns iff the tree's order is 2 or all keys fit in one chunk of `order - 1` |
| Tree.OrderTwoSplitsEveryKey | src/lib.rs:63 | with order 2 every key is a split key, so every split key matches its position |
| Tree.OneChunkSplitsFirstKey | src/lib.rs:63 | keys that fit in one chunk have the single split key `keys[0]`, which matches |
| Tree.SecondSplitSkipsKeys | src/lib.rs:75-83 | with chunks of two or more distinct keys and more than one chunk, split key 1 is `keys[order - 1]`, not `keys[1]`, so loading panics |
| Tree.OrderFourScenario | src/lib.rs:54-87 | order 4 with keys 1..9: split keys [1, 4, 7], depth 1, and the second split key does not match, so loading panics |

## Left out

- `Box` allocation and `Vec::with_capacity` reservations: the model keeps no capacity, so `Nodes.New` and `Tree.New` create the node for every order of at least 1. In the code, reserving `order` children of 8 bytes each panics (capacity overflow past `isize::MAX` bytes) for every order of `2^60` and more on 64-bit targets, and a huge order below that aborts when the allocation fails. Keys or values wider than 8 bytes make the earlier `keys` and `values` reservations panic from lower orders. Only the `order - 1` underflow of order 0 is modelled (`Nodes.New`).
- The `Debug` bounds, the nightly `is_sorted` feature gate and the implicit `Copy` requirement on keys and values (`*key`, `values[i]`): value semantics in Dafny make them moot.
- `usize` overflow of `order.pow(d) * 1024`: integers are unbounded here, so `Tree.Depth` and `Tree.FromItems` compute a depth where a real run panics on overflow. That happens for very large inputs, and on every input, the empty one included, once the tree's order is `2^54` or more (already `order * 1024` at `d = 1` overflows); `with_order` can set such an order.
- Release-build wrap-around of `order - 1` and of the level counter of `depth`: the model follows debug builds, where both panic. In a release build, order 0 with fewer than 1024 entries wraps the counter to 0 and `depth` returns 0. Order 0 with more entries, and order 1 from 1024 entries on, loop forever.
- The append operation, lookup and the ordinal-only value store that the doc comments list as plans: they have no code.
- The partially updated tree a panic leaves behind (the depth is written before the loop can panic): an `Err` carries no state.
- Tree.FromItems: for keys with duplicates the order of the values within a run of equal keys, and the order of the children, are not stated; the (key, value) pairs and the children are stated as multisets. `binary_search` may return any matching index, so that order depends on the library's search.
- Tree.FillRoot: the same as for `Tree.FromItems`, for the same reason.
- Tree.Depth: stated for order at least 2 only; orders 0 and 1 are covered by `Tree.DepthGuardAlwaysHolds`, `Tree.DepthLoopOutcome` and the faults of `Tree.FromItems`.
- Tree.SplitKeys: stated for order at least 2 only. Order 1 with fewer than 1024 entries reaches `chunks(0)`, the `ZeroChunkSize` fault of `Tree.FromItems`. With order 0, and with order 1 from 1024 entries on, `from_items` never reaches `split_keys`, because `depth` overflows its level counter first (`Tree.DepthLoopOutcome`).
