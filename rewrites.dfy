/**
 * Reference meanings of the tree rewrites `map`, `mapLeafs`, `filter`,
 * `filterLeafs` and `compressed` (SyntaxTree.swift, lines 182-315), as
 * structural recursion, with the properties the documentation promises.
 * The methods that rebuild trees the way the source does, on a stack of
 * child lists, are in the Builders module and are proved equal to these.
 */
module Rewrites {
  import opened Trees

  /** `f` applied to every element, in order. */
  function Apply<A, B>(f: A -> B, s: seq<A>): (r: seq<B>)
    ensures |r| == |s| && forall j :: 0 <= j < |s| ==> r[j] == f(s[j])
  {
    if s == [] then [] else [f(s[0])] + Apply(f, s[1..])
  }

  /** The elements of `s` that satisfy `p`, in order. */
  function Keep<A>(p: A -> bool, s: seq<A>): seq<A>
  {
    if s == [] then [] else (if p(s[0]) then [s[0]] else []) + Keep(p, s[1..])
  }

  lemma {:induction false} KeepAppend<A>(p: A -> bool, a: seq<A>, b: seq<A>)
    ensures Keep(p, a + b) == Keep(p, a) + Keep(p, b)
    decreases |a|
  {
    if a == [] {
      assert a + b == b;
    } else {
      assert (a + b)[0] == a[0];
      assert (a + b)[1..] == a[1..] + b;
      KeepAppend(p, a[1..], b);
    }
  }

  lemma {:induction false} ApplyAppend<A, B>(f: A -> B, a: seq<A>, b: seq<A>)
    ensures Apply(f, a + b) == Apply(f, a) + Apply(f, b)
    decreases |a|
  {
    if a == [] {
      assert a + b == b;
    } else {
      assert (a + b)[0] == a[0];
      assert (a + b)[1..] == a[1..] + b;
      ApplyAppend(f, a[1..], b);
    }
  }

  /** The shape of a tree: its structure with keys and leaf values erased. */
  function Shape<K, L>(t: Tree<K, L>): Tree<(), ()>
  {
    match t
    case Leaf(_) => Leaf(())
    case Node(_, cs) => Node((), ShapeOf(cs))
  }

  function ShapeOf<K, L>(ts: seq<Tree<K, L>>): seq<Tree<(), ()>>
  {
    if ts == [] then [] else [Shape(ts[0])] + ShapeOf(ts[1..])
  }

  /** The value of an optional tree as a list of zero or one trees. */
  function Present<K, L>(o: Option<Tree<K, L>>): (r: seq<Tree<K, L>>)
    ensures |r| <= 1 && (o.Some? <==> r != []) && (o.Some? ==> r[0] == o.value)
  {
    if o.Some? then [o.value] else []
  }

  // -----------------------------------------------------------------------
  // map

  /** `map`: every key replaced by its image under `f`. */
  function MapKeys<K, L, R>(t: Tree<K, L>, f: K -> R): Tree<R, L>
  {
    match t
    case Leaf(v) => Leaf(v)
    case Node(k, cs) => Node(f(k), MapKeysOf(cs, f))
  }

  function MapKeysOf<K, L, R>(ts: seq<Tree<K, L>>, f: K -> R): (r: seq<Tree<R, L>>)
    ensures |r| == |ts|
  {
    if ts == [] then [] else [MapKeys(ts[0], f)] + MapKeysOf(ts[1..], f)
  }

  /** `map` keeps the shape and every leaf and transforms every key, in
      place. */
  lemma {:induction false} MapKeysKeepsLeavesMapsKeys<K, L, R>(t: Tree<K, L>, f: K -> R)
    ensures Shape(MapKeys(t, f)) == Shape(t)
    ensures Leaves(MapKeys(t, f)) == Leaves(t)
    ensures NodeKeys(MapKeys(t, f)) == Apply(f, NodeKeys(t))
  {
    match t
    case Leaf(_) =>
    case Node(k, cs) =>
      MapKeysOfKeepsLeavesMapsKeys(cs, f);
      ApplyAppend(f, [k], NodeKeysOf(cs));
  }

  lemma {:induction false} MapKeysOfKeepsLeavesMapsKeys<K, L, R>(ts: seq<Tree<K, L>>, f: K -> R)
    ensures ShapeOf(MapKeysOf(ts, f)) == ShapeOf(ts)
    ensures LeavesOf(MapKeysOf(ts, f)) == LeavesOf(ts)
    ensures NodeKeysOf(MapKeysOf(ts, f)) == Apply(f, NodeKeysOf(ts))
  {
    if ts != [] {
      var r := MapKeysOf(ts, f);
      assert r[0] == MapKeys(ts[0], f) && r[1..] == MapKeysOf(ts[1..], f);
      MapKeysKeepsLeavesMapsKeys(ts[0], f);
      MapKeysOfKeepsLeavesMapsKeys(ts[1..], f);
      ApplyAppend(f, NodeKeys(ts[0]), NodeKeysOf(ts[1..]));
    }
  }

  /** Mapping twice is mapping once by the composition. */
  lemma {:induction false} MapKeysCompose<K, L, R, Q>(t: Tree<K, L>, f: K -> R, g: R -> Q)
    ensures MapKeys(MapKeys(t, f), g) == MapKeys(t, x => g(f(x)))
  {
    match t
    case Leaf(_) =>
    case Node(k, cs) =>
      MapKeysOfCompose(cs, f, g);
  }

  lemma {:induction false} MapKeysOfCompose<K, L, R, Q>(ts: seq<Tree<K, L>>, f: K -> R, g: R -> Q)
    ensures MapKeysOf(MapKeysOf(ts, f), g) == MapKeysOf(ts, x => g(f(x)))
  {
    if ts != [] {
      var r := MapKeysOf(ts, f);
      assert r[0] == MapKeys(ts[0], f) && r[1..] == MapKeysOf(ts[1..], f);
      MapKeysCompose(ts[0], f, g);
      MapKeysOfCompose(ts[1..], f, g);
    }
  }

  // -----------------------------------------------------------------------
  // mapLeafs

  /** `mapLeafs`: every leaf value replaced by its image under `f`. */
  function MapLeaves<K, L, R>(t: Tree<K, L>, f: L -> R): Tree<K, R>
  {
    match t
    case Leaf(v) => Leaf(f(v))
    case Node(k, cs) => Node(k, MapLeavesOf(cs, f))
  }

  function MapLeavesOf<K, L, R>(ts: seq<Tree<K, L>>, f: L -> R): (r: seq<Tree<K, R>>)
    ensures |r| == |ts|
  {
    if ts == [] then [] else [MapLeaves(ts[0], f)] + MapLeavesOf(ts[1..], f)
  }

  /** `mapLeafs` keeps the shape and every key and transforms every leaf,
      in place. */
  lemma {:induction false} MapLeavesKeepsKeysMapsLeaves<K, L, R>(t: Tree<K, L>, f: L -> R)
    ensures Shape(MapLeaves(t, f)) == Shape(t)
    ensures NodeKeys(MapLeaves(t, f)) == NodeKeys(t)
    ensures Leaves(MapLeaves(t, f)) == Apply(f, Leaves(t))
  {
    match t
    case Leaf(v) =>
      assert Apply(f, [v]) == [f(v)];
    case Node(k, cs) =>
      MapLeavesOfKeepsKeysMapsLeaves(cs, f);
  }

  lemma {:induction false} MapLeavesOfKeepsKeysMapsLeaves<K, L, R>(ts: seq<Tree<K, L>>, f: L -> R)
    ensures ShapeOf(MapLeavesOf(ts, f)) == ShapeOf(ts)
    ensures NodeKeysOf(MapLeavesOf(ts, f)) == NodeKeysOf(ts)
    ensures LeavesOf(MapLeavesOf(ts, f)) == Apply(f, LeavesOf(ts))
  {
    if ts != [] {
      var r := MapLeavesOf(ts, f);
      assert r[0] == MapLeaves(ts[0], f) && r[1..] == MapLeavesOf(ts[1..], f);
      MapLeavesKeepsKeysMapsLeaves(ts[0], f);
      MapLeavesOfKeepsKeysMapsLeaves(ts[1..], f);
      ApplyAppend(f, Leaves(ts[0]), LeavesOf(ts[1..]));
    }
  }

  // -----------------------------------------------------------------------
  // filter

  /** `filter`: every node whose key fails `pred` is removed together with
      its whole subtree; nothing remains when the root itself is such a
      node. Leaves are never tested. */
  function FilterNodes<K, L>(t: Tree<K, L>, pred: K -> bool): Option<Tree<K, L>>
  {
    match t
    case Leaf(_) => Some(t)
    case Node(k, cs) => if pred(k) then Some(Node(k, FilterNodesOf(cs, pred))) else None
  }

  function FilterNodesOf<K, L>(ts: seq<Tree<K, L>>, pred: K -> bool): seq<Tree<K, L>>
  {
    if ts == [] then [] else Present(FilterNodes(ts[0], pred)) + FilterNodesOf(ts[1..], pred)
  }

  /** Nothing is left exactly when the root is a node failing `pred`; what
      is left has only keys satisfying `pred`. */
  lemma {:induction false} FilterNodesKeepsPassingKeys<K, L>(t: Tree<K, L>, pred: K -> bool)
    ensures FilterNodes(t, pred).None? <==> t.Node? && !pred(t.key)
    ensures FilterNodes(t, pred).Some? ==>
      forall k :: k in NodeKeys(FilterNodes(t, pred).value) ==> pred(k)
  {
    if t.Node? && pred(t.key) {
      FilterNodesOfKeepsPassingKeys(t.children, pred);
    }
  }

  lemma {:induction false} FilterNodesOfKeepsPassingKeys<K, L>(ts: seq<Tree<K, L>>, pred: K -> bool)
    ensures forall k :: k in NodeKeysOf(FilterNodesOf(ts, pred)) ==> pred(k)
  {
    if ts != [] {
      var first := Present(FilterNodes(ts[0], pred));
      FilterNodesKeepsPassingKeys(ts[0], pred);
      FilterNodesOfKeepsPassingKeys(ts[1..], pred);
      NodeKeysOfAppend(first, FilterNodesOf(ts[1..], pred));
      if first != [] {
        assert first == [first[0]];
        assert NodeKeysOf(first) == NodeKeys(first[0]);
      }
    }
  }

  /** A tree whose keys all satisfy `pred` comes back unchanged. */
  lemma {:induction false} FilterNodesIdentity<K, L>(t: Tree<K, L>, pred: K -> bool)
    requires forall k :: k in NodeKeys(t) ==> pred(k)
    ensures FilterNodes(t, pred) == Some(t)
  {
    if t.Node? {
      assert t.key in NodeKeys(t);
      FilterNodesOfIdentity(t.children, pred);
    }
  }

  lemma {:induction false} FilterNodesOfIdentity<K, L>(ts: seq<Tree<K, L>>, pred: K -> bool)
    requires forall k :: k in NodeKeysOf(ts) ==> pred(k)
    ensures FilterNodesOf(ts, pred) == ts
  {
    if ts != [] {
      assert NodeKeysOf(ts) == NodeKeys(ts[0]) + NodeKeysOf(ts[1..]);
      FilterNodesIdentity(ts[0], pred);
      FilterNodesOfIdentity(ts[1..], pred);
      assert ts == [ts[0]] + ts[1..];
    }
  }

  /** Filtering a filtered tree again changes nothing. */
  lemma FilterNodesIdempotent<K, L>(t: Tree<K, L>, pred: K -> bool)
    requires FilterNodes(t, pred).Some?
    ensures FilterNodes(FilterNodes(t, pred).value, pred) == FilterNodes(t, pred)
  {
    FilterNodesKeepsPassingKeys(t, pred);
    FilterNodesIdentity(FilterNodes(t, pred).value, pred);
  }

  // -----------------------------------------------------------------------
  // filterLeafs

  /** `filterLeafs`: every leaf whose value fails `pred` is removed; nodes
      are kept even when they lose all their children. Nothing remains when
      the root itself is such a leaf. */
  function FilterLeaves<K, L>(t: Tree<K, L>, pred: L -> bool): Option<Tree<K, L>>
  {
    match t
    case Leaf(v) => if pred(v) then Some(t) else None
    case Node(k, cs) => Some(Node(k, FilterLeavesOf(cs, pred)))
  }

  function FilterLeavesOf<K, L>(ts: seq<Tree<K, L>>, pred: L -> bool): seq<Tree<K, L>>
  {
    if ts == [] then [] else Present(FilterLeaves(ts[0], pred)) + FilterLeavesOf(ts[1..], pred)
  }

  /** The leaves left are exactly those satisfying `pred`, in order, and
      every key is kept, in order. */
  lemma {:induction false} FilterLeavesKeepsKeysFiltersLeaves<K, L>(t: Tree<K, L>, pred: L -> bool)
    ensures FilterLeaves(t, pred).None? <==> t.Leaf? && !pred(t.value)
    ensures LeavesOf(Present(FilterLeaves(t, pred))) == Keep(pred, Leaves(t))
    ensures NodeKeysOf(Present(FilterLeaves(t, pred))) == NodeKeys(t)
  {
    var r := Present(FilterLeaves(t, pred));
    match t
    case Leaf(v) =>
      assert Keep(pred, [v]) == if pred(v) then [v] else [];
    case Node(k, cs) =>
      assert r == [Node(k, FilterLeavesOf(cs, pred))];
      assert LeavesOf(r) == LeavesOf(FilterLeavesOf(cs, pred));
      assert NodeKeysOf(r) == [k] + NodeKeysOf(FilterLeavesOf(cs, pred));
      FilterLeavesOfKeepsKeysFiltersLeaves(cs, pred);
  }

  lemma {:induction false} FilterLeavesOfKeepsKeysFiltersLeaves<K, L>(ts: seq<Tree<K, L>>, pred: L -> bool)
    ensures LeavesOf(FilterLeavesOf(ts, pred)) == Keep(pred, LeavesOf(ts))
    ensures NodeKeysOf(FilterLeavesOf(ts, pred)) == NodeKeysOf(ts)
  {
    if ts != [] {
      var first := Present(FilterLeaves(ts[0], pred));
      FilterLeavesKeepsKeysFiltersLeaves(ts[0], pred);
      FilterLeavesOfKeepsKeysFiltersLeaves(ts[1..], pred);
      LeavesOfAppend(first, FilterLeavesOf(ts[1..], pred));
      NodeKeysOfAppend(first, FilterLeavesOf(ts[1..], pred));
      KeepAppend(pred, Leaves(ts[0]), LeavesOf(ts[1..]));
    }
  }

  // -----------------------------------------------------------------------
  // compressed

  /** `compressed`: a node with exactly one child is replaced by its
      (compressed) child, whether that child is a node or a leaf. */
  function Compress<K, L>(t: Tree<K, L>): Tree<K, L>
  {
    match t
    case Leaf(_) => t
    case Node(k, cs) =>
      var ncs := CompressOf(cs);
      if |ncs| == 1 then ncs[0] else Node(k, ncs)
  }

  function CompressOf<K, L>(ts: seq<Tree<K, L>>): (r: seq<Tree<K, L>>)
    ensures |r| == |ts|
  {
    if ts == [] then [] else [Compress(ts[0])] + CompressOf(ts[1..])
  }

  /** No node has exactly one child. */
  predicate NoUnary<K, L>(t: Tree<K, L>)
  {
    match t
    case Leaf(_) => true
    case Node(_, cs) => |cs| != 1 && NoUnaryOf(cs)
  }

  predicate NoUnaryOf<K, L>(ts: seq<Tree<K, L>>)
  {
    ts == [] || (NoUnary(ts[0]) && NoUnaryOf(ts[1..]))
  }

  /** Compression keeps every leaf, in order, and leaves no node with a
      single child. */
  lemma {:induction false} CompressKeepsLeavesRemovesUnary<K, L>(t: Tree<K, L>)
    ensures Leaves(Compress(t)) == Leaves(t)
    ensures NoUnary(Compress(t))
  {
    match t
    case Leaf(_) =>
    case Node(k, cs) =>
      var ncs := CompressOf(cs);
      CompressOfKeepsLeavesRemovesUnary(cs);
      if |ncs| == 1 {
        assert ncs == [ncs[0]];
        assert LeavesOf(ncs) == Leaves(ncs[0]);
      }
  }

  lemma {:induction false} CompressOfKeepsLeavesRemovesUnary<K, L>(ts: seq<Tree<K, L>>)
    ensures LeavesOf(CompressOf(ts)) == LeavesOf(ts)
    ensures NoUnaryOf(CompressOf(ts))
  {
    if ts != [] {
      var r := CompressOf(ts);
      assert r[0] == Compress(ts[0]) && r[1..] == CompressOf(ts[1..]);
      CompressKeepsLeavesRemovesUnary(ts[0]);
      CompressOfKeepsLeavesRemovesUnary(ts[1..]);
    }
  }

  /** A tree without single-child nodes is already compressed. */
  lemma {:induction false} CompressIdentity<K, L>(t: Tree<K, L>)
    requires NoUnary(t)
    ensures Compress(t) == t
  {
    match t
    case Leaf(_) =>
    case Node(k, cs) =>
      CompressOfIdentity(cs);
  }

  lemma {:induction false} CompressOfIdentity<K, L>(ts: seq<Tree<K, L>>)
    requires NoUnaryOf(ts)
    ensures CompressOf(ts) == ts
  {
    if ts != [] {
      CompressIdentity(ts[0]);
      CompressOfIdentity(ts[1..]);
      assert ts == [ts[0]] + ts[1..];
    }
  }

  /** Compressing twice is compressing once. */
  lemma CompressIdempotent<K, L>(t: Tree<K, L>)
    ensures Compress(Compress(t)) == Compress(t)
  {
    CompressKeepsLeavesRemovesUnary(t);
    CompressIdentity(Compress(t));
  }
}
