/**
 * The generic two-kind syntax tree of Sources/Covfefe/SyntaxTree.swift:
 * a leaf carries a leaf element, a node carries a key and an ordered list
 * of subtrees that it owns exclusively.
 *
 * This module also holds the reference meanings the rest of the model is
 * proved against: the left-to-right leaf sequence, the pre-order key and
 * subtree sequences, and the subtree an index path addresses.
 */
module Trees {

  datatype Option<T> = None | Some(value: T)

  /** The outcome of Swift code that may trap at run time (an array index
      out of range, or a forced unwrap of nil). */
  datatype Checked<T> = Returned(value: T) | Trapped

  datatype Tree<K, L> = Leaf(value: L) | Node(key: K, children: seq<Tree<K, L>>)

  // ---------------------------------------------------------------------
  // Initialisers and accessors

  /** `init(key:children:)` */
  function NodeWith<K, L>(key: K, children: seq<Tree<K, L>>): (t: Tree<K, L>)
    ensures Root(t) == Some(key) && Children(t) == Some(children) && LeafValue(t) == None
  {
    Node(key, children)
  }

  /** `init(key:)`: a node without children */
  function NodeWithKey<K, L>(key: K): (t: Tree<K, L>)
    ensures Root(t) == Some(key) && Children(t) == Some([]) && LeafValue(t) == None
  {
    Node(key, [])
  }

  /** `init(value:)` */
  function LeafWith<K, L>(value: L): (t: Tree<K, L>)
    ensures LeafValue(t) == Some(value) && Root(t) == None && Children(t) == None
  {
    Leaf(value)
  }

  /** `init()` for trees whose leaf element is the empty tuple */
  function EmptyTree<K>(): (t: Tree<K, ()>)
    ensures LeafValue(t) == Some(()) && Root(t) == None && Children(t) == None
  {
    Leaf(())
  }

  /** `root`: the key of a node, nil for a leaf */
  function Root<K, L>(t: Tree<K, L>): Option<K>
  {
    match t
    case Leaf(_) => None
    case Node(k, _) => Some(k)
  }

  /** `leaf`: the value of a leaf, nil for a node */
  function LeafValue<K, L>(t: Tree<K, L>): Option<L>
  {
    match t
    case Leaf(v) => Some(v)
    case Node(_, _) => None
  }

  /** `children`: the children of a node, nil for a leaf */
  function Children<K, L>(t: Tree<K, L>): Option<seq<Tree<K, L>>>
  {
    match t
    case Leaf(_) => None
    case Node(_, cs) => Some(cs)
  }

  /** The three accessors together recover the tree: exactly one of `root`
      and `leaf` is present, and `children` is present exactly with `root`. */
  lemma AccessorsDetermineTree<K, L>(t: Tree<K, L>)
    ensures Root(t).Some? != LeafValue(t).Some?
    ensures Children(t).Some? == Root(t).Some?
    ensures Root(t).Some? ==> t == NodeWith(Root(t).value, Children(t).value)
    ensures LeafValue(t).Some? ==> t == LeafWith(LeafValue(t).value)
  {
  }

  // ---------------------------------------------------------------------
  // Sizes (termination measures for the explicit-stack loops)

  function Size<K, L>(t: Tree<K, L>): nat
  {
    match t
    case Leaf(_) => 1
    case Node(_, cs) => 1 + SizeOf(cs)
  }

  function SizeOf<K, L>(ts: seq<Tree<K, L>>): nat
  {
    if ts == [] then 0 else Size(ts[0]) + SizeOf(ts[1..])
  }

  lemma SizeOfSuffix<K, L>(ts: seq<Tree<K, L>>, i: nat)
    requires i < |ts|
    ensures SizeOf(ts[i..]) == Size(ts[i]) + SizeOf(ts[i + 1..])
  {
    assert ts[i..][0] == ts[i];
    assert ts[i..][1..] == ts[i + 1..];
  }

  // ---------------------------------------------------------------------
  // Reference sequences

  /** All leaf values, left to right. */
  function Leaves<K, L>(t: Tree<K, L>): seq<L>
  {
    match t
    case Leaf(v) => [v]
    case Node(_, cs) => LeavesOf(cs)
  }

  function LeavesOf<K, L>(ts: seq<Tree<K, L>>): seq<L>
  {
    if ts == [] then [] else Leaves(ts[0]) + LeavesOf(ts[1..])
  }

  /** All node keys, in pre-order. */
  function NodeKeys<K, L>(t: Tree<K, L>): seq<K>
  {
    match t
    case Leaf(_) => []
    case Node(k, cs) => [k] + NodeKeysOf(cs)
  }

  function NodeKeysOf<K, L>(ts: seq<Tree<K, L>>): seq<K>
  {
    if ts == [] then [] else NodeKeys(ts[0]) + NodeKeysOf(ts[1..])
  }

  /** Every subtree (the tree itself included), in pre-order. */
  function Preorder<K, L>(t: Tree<K, L>): seq<Tree<K, L>>
  {
    match t
    case Leaf(_) => [t]
    case Node(_, cs) => [t] + PreorderOf(cs)
  }

  function PreorderOf<K, L>(ts: seq<Tree<K, L>>): seq<Tree<K, L>>
  {
    if ts == [] then [] else Preorder(ts[0]) + PreorderOf(ts[1..])
  }

  lemma {:induction false} LeavesOfAppend<K, L>(a: seq<Tree<K, L>>, b: seq<Tree<K, L>>)
    ensures LeavesOf(a + b) == LeavesOf(a) + LeavesOf(b)
  {
    if a != [] {
      assert (a + b)[0] == a[0];
      assert (a + b)[1..] == a[1..] + b;
      LeavesOfAppend(a[1..], b);
    } else {
      assert a + b == b;
    }
  }

  lemma {:induction false} NodeKeysOfAppend<K, L>(a: seq<Tree<K, L>>, b: seq<Tree<K, L>>)
    ensures NodeKeysOf(a + b) == NodeKeysOf(a) + NodeKeysOf(b)
  {
    if a != [] {
      assert (a + b)[0] == a[0];
      assert (a + b)[1..] == a[1..] + b;
      NodeKeysOfAppend(a[1..], b);
    } else {
      assert a + b == b;
    }
  }

  // ---------------------------------------------------------------------
  // Index paths

  /** The subtree an index path addresses: each index selects a child of
      the current node; a path that runs past a leaf or selects a child
      that does not exist addresses nothing. */
  function At<K, L>(t: Tree<K, L>, path: seq<int>): Option<Tree<K, L>>
    decreases |path|
  {
    if path == [] then Some(t)
    else match t
      case Leaf(_) => None
      case Node(_, cs) =>
        if 0 <= path[0] < |cs| then At(cs[path[0]], path[1..]) else None
  }

  /** Every index along the path that meets a node is a valid index of
      that node's children (so following it through Swift arrays does not
      trap). */
  predicate InBounds<K, L>(t: Tree<K, L>, path: seq<int>)
    decreases |path|
  {
    path == [] ||
    match t
    case Leaf(_) => true
    case Node(_, cs) => 0 <= path[0] < |cs| && InBounds(cs[path[0]], path[1..])
  }

  /** Extending the path of a node by the index of one of its children
      addresses that child. */
  lemma {:induction false} AtChild<K, L>(t: Tree<K, L>, path: seq<int>, i: nat)
    requires At(t, path).Some? && At(t, path).value.Node?
    requires i < |At(t, path).value.children|
    ensures At(t, path + [i]) == Some(At(t, path).value.children[i])
    decreases |path|
  {
    if path == [] {
      assert path + [i] == [i];
      assert [i][1..] == [];
    } else {
      assert (path + [i])[0] == path[0];
      assert (path + [i])[1..] == path[1..] + [i];
      AtChild(t.children[path[0]], path[1..], i);
    }
  }
}
