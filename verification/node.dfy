/** `Node`: three parallel growable sequences (keys, values, children) and
    the order the node was created with. Whether a node acts as a leaf or an
    internal node is decided by whoever walks it, not by a tag. */
module Nodes {
  import opened Outcomes
  import opened Sequences
  import opened BinarySearch

  /** Keys are drawn from one totally ordered type; integers stand for it. */
  type Key = int

  datatype Node<V> = Node(keys: seq<Key>, values: seq<V>, children: seq<Node<V>>, order: nat)

  /** `values[i]` belongs to `keys[i]`. */
  predicate Aligned<V>(n: Node<V>) {
    |n.keys| == |n.values|
  }

  /** `Node::new`: an empty node remembering its order. Reserving `order - 1`
      key slots underflows for order 0. */
  function New<V>(order: nat): (r: Result<Node<V>>)
    ensures r.Ok? <==> order >= 1
    ensures r.Err? ==> r.fault == SubtractOverflow
    ensures r.Ok? ==>
      && r.value.keys == [] && r.value.values == [] && r.value.children == []
      && r.value.order == order
  {
    if order == 0 then Err(SubtractOverflow) else Ok(Node([], [], [], order))
  }

  /** `Node::insert`: puts the pair at the insertion point of `key` among the
      node's keys, the key into `keys` and the value into `values` at the same
      index. A key already present is neither rejected nor merged. The value
      insertion panics only when `values` is shorter than that index, which an
      aligned node never is. */
  function Insert<V>(n: Node<V>, key: Key, value: V): (r: Result<Node<V>>)
    ensures r.Ok? <==> InsertionPoint(n.keys, key) <= |n.values|
    ensures Aligned(n) ==> r.Ok? && Aligned(r.value)
    ensures r.Err? ==> r.fault == InsertionIndexOutOfBounds
    ensures r.Ok? ==>
      var i := InsertionPoint(n.keys, key);
      && |r.value.keys| == |n.keys| + 1 && |r.value.values| == |n.values| + 1
      && r.value.keys[i] == key && r.value.values[i] == value
      && RemoveAt(r.value.keys, i) == n.keys && RemoveAt(r.value.values, i) == n.values
      && r.value.children == n.children && r.value.order == n.order
    ensures r.Ok? ==>
      && multiset(r.value.keys) == multiset(n.keys) + multiset{key}
      && multiset(r.value.values) == multiset(n.values) + multiset{value}
    ensures r.Ok? && Sorted(n.keys) ==> Sorted(r.value.keys)
    ensures r.Ok? && Sorted(n.keys) && key in n.keys ==>
      var i := InsertionPoint(n.keys, key);
      i + 1 < |r.value.keys| && r.value.keys[i + 1] == key
  {
    var i := InsertionPoint(n.keys, key);
    var ks := VecInsert(n.keys, i, key);
    var vs := VecInsert(n.values, i, value);
    if vs.Err? then Err(vs.fault)
    else
      assert Sorted(n.keys) ==> Sorted(ks.value) by {
        if Sorted(n.keys) {
          InsertKeepsSorted(n.keys, i, key);
        }
      }
      assert Sorted(n.keys) && key in n.keys ==> Search(n.keys, key).Found? by {
        if Sorted(n.keys) {
          SearchFindsPresent(n.keys, key);
        }
      }
      Ok(n.(keys := ks.value, values := vs.value))
  }

  /** On an aligned node, `insert` keeps every stored value beside its own
      key and adds the new pair: the multiset of (key, value) pairs grows by
      exactly `(key, value)`. */
  lemma InsertKeepsPairs<V>(n: Node<V>, key: Key, value: V)
    requires Aligned(n)
    ensures
      var r := Insert(n, key, value);
      && r.Ok? && Aligned(r.value)
      && multiset(Zip(r.value.keys, r.value.values)) == multiset(Zip(n.keys, n.values)) + multiset{(key, value)}
  {
    var i := InsertionPoint(n.keys, key);
    var r := Insert(n, key, value);
    assert r.value.keys == n.keys[..i] + [key] + n.keys[i..];
    assert r.value.values == n.values[..i] + [value] + n.values[i..];
    InsertZip(n.keys, n.values, i, key, value);
    InsertMultiset(Zip(n.keys, n.values), i, (key, value));
  }

  /** `Node::insert_child`: puts `child` into `children` at the insertion
      point of the child's FIRST key among this node's OWN keys; sibling
      children are never compared. Reading the first key of a child without
      keys, or an index past the end of `children`, panics. */
  function InsertChild<V>(n: Node<V>, child: Node<V>): (r: Result<Node<V>>)
    ensures r.Ok? <==> |child.keys| > 0 && InsertionPoint(n.keys, child.keys[0]) <= |n.children|
    ensures |child.keys| == 0 ==> r.Err? && r.fault == IndexOutOfBounds
    ensures |child.keys| > 0 && r.Err? ==> r.fault == InsertionIndexOutOfBounds
    ensures r.Ok? ==>
      var i := InsertionPoint(n.keys, child.keys[0]);
      && |r.value.children| == |n.children| + 1
      && r.value.children[i] == child
      && RemoveAt(r.value.children, i) == n.children
      && multiset(r.value.children) == multiset(n.children) + multiset{child}
      && r.value.keys == n.keys && r.value.values == n.values && r.value.order == n.order
  {
    if |child.keys| == 0 then Err(IndexOutOfBounds)
    else
      var i := InsertionPoint(n.keys, child.keys[0]);
      match VecInsert(n.children, i, child)
      case Err(f) => Err(f)
      case Ok(cs) => Ok(n.(children := cs))
  }

  /** A node holding the single pair `(key, value)` and no children. */
  function OneEntry<V>(order: nat, key: Key, value: V): Node<V> {
    Node([key], [value], [], order)
  }

  /** Inserting into a fresh node yields the one-entry node. */
  lemma InsertIntoNew<V>(order: nat, key: Key, value: V)
    requires order >= 1
    ensures Insert(New<V>(order).value, key, value) == Ok(OneEntry(order, key, value))
  {
    var e: seq<Key> := [];
    assert InsertionPoint(e, key) == 0;
    var r := Insert(New<V>(order).value, key, value);
    assert r.value.keys == [key];
    assert r.value.values == [value];
  }

  /** Inserting a key at least as large as every stored key appends it; if it
      is strictly larger than every stored key, the value is appended too. */
  lemma {:induction false} InsertLargestAppends<V>(n: Node<V>, key: Key, value: V)
    requires Aligned(n) && Sorted(n.keys)
    requires forall j :: 0 <= j < |n.keys| ==> n.keys[j] <= key
    ensures Insert(n, key, value).Ok?
    ensures Insert(n, key, value).value.keys == n.keys + [key]
    ensures (forall j :: 0 <= j < |n.keys| ==> n.keys[j] < key) ==>
      Insert(n, key, value).value.values == n.values + [value]
  {
    var i := InsertionPoint(n.keys, key);
    var s := Search(n.keys, key);
    assert Meets(n.keys, key, s);
    assert i == |n.keys| || n.keys[i] == key;
    InsertLargestIsAppend(n.keys, i, key);
    if forall j :: 0 <= j < |n.keys| ==> n.keys[j] < key {
      assert i == |n.keys|;
      assert n.values[..i] + [value] + n.values[i..] == n.values + [value];
    }
  }

  /** The child-placement probe against a sorted key run ending in `last`:
      a probe at least `last` fits among the existing positions exactly when it
      equals `last`; with distinct keys it then lands on `last`'s own index. */
  lemma ProbeAgainstLast(keys: seq<Key>, probe: Key)
    requires Sorted(keys) && |keys| >= 1 && keys[|keys| - 1] <= probe
    ensures InsertionPoint(keys, probe) < |keys| <==> probe == keys[|keys| - 1]
    ensures StrictlyIncreasing(keys) && probe == keys[|keys| - 1] ==>
      InsertionPoint(keys, probe) == |keys| - 1
  {
    var s := Search(keys, probe);
    assert Meets(keys, probe, s);
  }

  /** Children are placed by the parent's keys, not by their siblings: with
      three sorted parent keys `k0 <= k1 <= k2` and children whose first keys
      fall below `k0`, strictly between `k0` and `k1`, and strictly between
      `k1` and `k2`, attaching them in that order lands them at positions 0,
      1 and 2 (for example keys [10, 20, 30] and children starting at 5, 15,
      25). */
  lemma ChildrenFollowParentKeys<V>(parent: Node<V>, c0: Node<V>, c1: Node<V>, c2: Node<V>)
    requires |parent.keys| == 3 && Sorted(parent.keys) && parent.children == []
    requires |c0.keys| > 0 && c0.keys[0] < parent.keys[0]
    requires |c1.keys| > 0 && parent.keys[0] < c1.keys[0] < parent.keys[1]
    requires |c2.keys| > 0 && parent.keys[1] < c2.keys[0] < parent.keys[2]
    ensures
      var p1 := InsertChild(parent, c0);
      && p1.Ok? && p1.value.children == [c0]
      && var p2 := InsertChild(p1.value, c1);
      && p2.Ok? && p2.value.children == [c0, c1]
      && var p3 := InsertChild(p2.value, c2);
      && p3.Ok? && p3.value.children == [c0, c1, c2]
  {
    var keys := parent.keys;
    InsertionPointBetween(keys, c0.keys[0], 0);
    InsertChildAtEnd(parent, c0);
    InsertionPointBetween(keys, c1.keys[0], 1);
    InsertChildAtEnd(parent.(children := [c0]), c1);
    InsertionPointBetween(keys, c2.keys[0], 2);
    InsertChildAtEnd(parent.(children := [c0, c1]), c2);
  }

  /** A child whose probe lands one past the last child is appended. */
  lemma InsertChildAtEnd<V>(n: Node<V>, child: Node<V>)
    requires |child.keys| > 0 && InsertionPoint(n.keys, child.keys[0]) == |n.children|
    ensures InsertChild(n, child) == Ok(n.(children := n.children + [child]))
  {
    var r := InsertChild(n, child);
    RemoveLastIsPrefix(r.value.children, n.children, child);
  }

  /** Because siblings are never compared, children can end up out of order:
      with two sorted parent keys, one child already attached, and a new child
      whose first key lies strictly between the parent keys, the new child is
      placed AFTER the sibling even when the sibling starts above it (for
      example parent keys [10, 20], a child starting at 50, then one starting
      at 15). */
  lemma ChildOrderIgnoresSiblings<V>(parent: Node<V>, sibling: Node<V>, child: Node<V>)
    requires |parent.keys| == 2 && Sorted(parent.keys) && parent.children == [sibling]
    requires |child.keys| > 0 && parent.keys[0] < child.keys[0] < parent.keys[1]
    ensures
      var r := InsertChild(parent, child);
      r.Ok? && r.value.children == [sibling, child]
  {
    InsertionPointBetween(parent.keys, child.keys[0], 1);
    InsertChildAtEnd(parent, child);
  }

  /** Attaching a child at a position the parent's keys put past the end of
      `children` panics: three sorted parent keys, no children yet, and a
      child whose first key lies strictly between the second and third keys
      (for example parent keys [10, 20, 30] and a child starting at 25). */
  lemma InsertChildPastEndPanics<V>(parent: Node<V>, child: Node<V>)
    requires |parent.keys| == 3 && Sorted(parent.keys) && parent.children == []
    requires |child.keys| > 0 && parent.keys[1] < child.keys[0] < parent.keys[2]
    ensures
      var r := InsertChild(parent, child);
      r.Err? && r.fault == InsertionIndexOutOfBounds
  {
    InsertionPointBetween(parent.keys, child.keys[0], 2);
  }
}
