/**
 * `reduce`, `leafs` and `allNodes` (SyntaxTree.swift, lines 170-238 and
 * 317-328): folds built on `iterate`. The accumulator that the Swift closure
 * captures and mutates is the state the traversal threads.
 */
module Folds {
  import opened Trees
  import opened Traversal
  import opened Rewrites

  /** The meaning of `reduce`: `next` is handed the running result and each
      item in pre-order and returns the new result and whether to descend
      into that item. Declining skips the item's subtree only: the walk goes
      on with the item's later siblings. */
  function Fold<T, K, L>(next: (T, Tree<K, L>) -> (T, bool), t: Tree<K, L>, acc: T): T
    decreases t, 1
  {
    var (a, descend) := next(acc, t);
    if descend && t.Node? then FoldChildren(next, t, 0, a) else a
  }

  function FoldChildren<T, K, L>(next: (T, Tree<K, L>) -> (T, bool), t: Tree<K, L>, i: nat, acc: T): T
    requires t.Node? && i <= |t.children|
    decreases t, 0, |t.children| - i
  {
    if i == |t.children| then acc
    else FoldChildren(next, t, i + 1, Fold(next, t.children[i], acc))
  }

  /** A left fold over a sequence of items, descending into nothing. */
  function FoldSeq<T, K, L>(next: (T, Tree<K, L>) -> (T, bool), items: seq<Tree<K, L>>, acc: T): T
    decreases |items|
  {
    if items == [] then acc else FoldSeq(next, items[1..], next(acc, items[0]).0)
  }

  lemma {:induction false} FoldSeqAppend<T, K, L>(next: (T, Tree<K, L>) -> (T, bool), a: seq<Tree<K, L>>, b: seq<Tree<K, L>>, acc: T)
    ensures FoldSeq(next, a + b, acc) == FoldSeq(next, b, FoldSeq(next, a, acc))
    decreases |a|
  {
    if a == [] {
      assert a + b == b;
    } else {
      assert (a + b)[0] == a[0];
      assert (a + b)[1..] == a[1..] + b;
      FoldSeqAppend(next, a[1..], b, next(acc, a[0]).0);
    }
  }

  /** The closures `reduce` hands to `iterate`: no completion closure, so
      the walk is never stopped. */
  function ReduceCallbacks<T, K, L>(next: (T, Tree<K, L>) -> (T, bool)): Callbacks<K, L, T>
  {
    Callbacks((a: T, p: seq<nat>, x: Tree<K, L>) => next(a, x), (a: T, p: seq<nat>, k: K) => (a, true))
  }

  lemma {:induction false} WalkFolds<T, K, L>(next: (T, Tree<K, L>) -> (T, bool), t: Tree<K, L>, path: seq<nat>, acc: T)
    ensures Walk(ReduceCallbacks(next), t, path, acc) == (Fold(next, t, acc), false)
    decreases t, 1
  {
    var (a, descend) := next(acc, t);
    if descend && t.Node? {
      ChildrenFold(next, t, 0, path, a);
    }
  }

  lemma {:induction false} ChildrenFold<T, K, L>(next: (T, Tree<K, L>) -> (T, bool), t: Tree<K, L>, i: nat, path: seq<nat>, acc: T)
    requires t.Node? && i <= |t.children|
    ensures WalkChildren(ReduceCallbacks(next), t, i, path, acc) == (FoldChildren(next, t, i, acc), false)
    decreases t, 0, |t.children| - i
  {
    if i < |t.children| {
      WalkFolds(next, t.children[i], path + [i], acc);
      ChildrenFold(next, t, i + 1, path, Fold(next, t.children[i], acc));
    }
  }

  /** `reduce(_:next:)` */
  method Reduce<T, K, L>(t: Tree<K, L>, initial: T, next: (T, Tree<K, L>) -> (T, bool)) returns (r: T)
    ensures r == Fold(next, t, initial)
  {
    r := Iterate(t, initial, ReduceCallbacks(next));
    WalkFolds(next, t, [], initial);
  }

  /** When `next` never declines to descend, `reduce` is a left fold over
      the pre-order sequence of all subtrees. */
  lemma {:induction false} FoldVisitsPreorder<T, K, L>(next: (T, Tree<K, L>) -> (T, bool), t: Tree<K, L>, acc: T)
    requires forall a: T, x: Tree<K, L> :: next(a, x).1
    ensures Fold(next, t, acc) == FoldSeq(next, Preorder(t), acc)
    decreases t, 1
  {
    var a := next(acc, t).0;
    assert next(acc, t).1;
    assert Preorder(t)[0] == t;
    if t.Node? {
      assert Preorder(t)[1..] == PreorderOf(t.children[0..]);
      FoldChildrenVisitsPreorder(next, t, 0, a);
    } else {
      assert Preorder(t)[1..] == [];
    }
  }

  lemma {:induction false} FoldChildrenVisitsPreorder<T, K, L>(next: (T, Tree<K, L>) -> (T, bool), t: Tree<K, L>, i: nat, acc: T)
    requires forall a: T, x: Tree<K, L> :: next(a, x).1
    requires t.Node? && i <= |t.children|
    ensures FoldChildren(next, t, i, acc) == FoldSeq(next, PreorderOf(t.children[i..]), acc)
    decreases t, 0, |t.children| - i
  {
    var cs := t.children;
    if i < |cs| {
      assert cs[i..][0] == cs[i];
      assert cs[i..][1..] == cs[i + 1..];
      FoldVisitsPreorder(next, cs[i], acc);
      FoldChildrenVisitsPreorder(next, t, i + 1, Fold(next, cs[i], acc));
      FoldSeqAppend(next, Preorder(cs[i]), PreorderOf(cs[i + 1..]), acc);
    }
  }

  /** Declining to descend into a node skips only that node's subtree. With
      a counter that declines at the node keyed 1, the tree
      node 0 [node 1 [leaf a], leaf b] yields 3: the root, node 1 and
      leaf b are counted, leaf a is not, and the walk is not stopped. */
  lemma DeclineSkipsOnlySubtree()
    ensures Fold(CountUnless1, Node(0, [Node(1, [Leaf('a')]), Leaf('b')]), 0) == 3
  {
    var inner: Tree<int, char> := Node(1, [Leaf('a')]);
    var t: Tree<int, char> := Node(0, [inner, Leaf('b')]);
    assert Fold(CountUnless1, inner, 1) == 2;
    assert Fold(CountUnless1, Leaf('b'), 2) == 3;
    assert FoldChildren(CountUnless1, t, 2, 3) == 3;
    assert FoldChildren(CountUnless1, t, 1, 2) == 3;
    assert FoldChildren(CountUnless1, t, 0, 1) == 3;
  }

  /** Counts the items it is handed and declines to descend into node 1. */
  function CountUnless1(n: int, x: Tree<int, char>): (int, bool)
  {
    (n + 1, !(x.Node? && x.key == 1))
  }

  // -----------------------------------------------------------------------
  // leafs

  function CollectLeaf<K, L>(acc: seq<L>, x: Tree<K, L>): (seq<L>, bool)
  {
    (if x.Leaf? then acc + [x.value] else acc, true)
  }

  lemma {:induction false} FoldCollectsLeaves<K, L>(t: Tree<K, L>, acc: seq<L>)
    ensures Fold(CollectLeaf, t, acc) == acc + Leaves(t)
    decreases t, 1
  {
    if t.Node? {
      assert t.children[0..] == t.children;
      FoldChildrenCollectsLeaves(t, 0, acc);
    }
  }

  lemma {:induction false} FoldChildrenCollectsLeaves<K, L>(t: Tree<K, L>, i: nat, acc: seq<L>)
    requires t.Node? && i <= |t.children|
    ensures FoldChildren(CollectLeaf, t, i, acc) == acc + LeavesOf(t.children[i..])
    decreases t, 0, |t.children| - i
  {
    var cs := t.children;
    if i < |cs| {
      assert cs[i..][0] == cs[i];
      assert cs[i..][1..] == cs[i + 1..];
      FoldCollectsLeaves(cs[i], acc);
      FoldChildrenCollectsLeaves(t, i + 1, acc + Leaves(cs[i]));
    } else {
      assert cs[i..] == [];
    }
  }

  /** `leafs`: every leaf value, left to right. */
  method Leafs<K, L>(t: Tree<K, L>) returns (r: seq<L>)
    ensures r == Leaves(t)
  {
    r := Reduce(t, [], CollectLeaf);
    FoldCollectsLeaves(t, []);
  }

  // -----------------------------------------------------------------------
  // allNodes(where:)

  /** Whether `x` is a node whose key satisfies `pred`. */
  function IsMatch<K, L>(pred: K -> bool): Tree<K, L> -> bool
  {
    (x: Tree<K, L>) => x.Node? && pred(x.key)
  }

  /** The nodes among `items` whose key satisfies `pred`, in order. */
  function NodesWhere<K, L>(items: seq<Tree<K, L>>, pred: K -> bool): seq<Tree<K, L>>
  {
    Keep(IsMatch(pred), items)
  }

  function CollectMatch<K, L>(pred: K -> bool): (seq<Tree<K, L>>, Tree<K, L>) -> (seq<Tree<K, L>>, bool)
  {
    (acc: seq<Tree<K, L>>, x: Tree<K, L>) => (if x.Node? && pred(x.key) then acc + [x] else acc, true)
  }

  lemma {:induction false} FoldSeqCollectsMatches<K, L>(pred: K -> bool, items: seq<Tree<K, L>>, acc: seq<Tree<K, L>>)
    ensures FoldSeq(CollectMatch(pred), items, acc) == acc + NodesWhere(items, pred)
    decreases |items|
  {
    if items != [] {
      var x := items[0];
      var a := if x.Node? && pred(x.key) then acc + [x] else acc;
      assert CollectMatch(pred)(acc, x).0 == a;
      FoldSeqCollectsMatches(pred, items[1..], a);
    }
  }

  /** `allNodes(where:)`: every node whose key satisfies `pred`, parents
      before their descendants and left before right. */
  method AllNodes<K, L>(t: Tree<K, L>, pred: K -> bool) returns (r: seq<Tree<K, L>>)
    ensures r == NodesWhere(Preorder(t), pred)
  {
    r := Reduce(t, [], CollectMatch(pred));
    FoldVisitsPreorder(CollectMatch(pred), t, []);
    FoldSeqCollectsMatches(pred, Preorder(t), []);
  }

  /** The keys of the nodes among `items`, in order. */
  function KeysOfNodes<K, L>(items: seq<Tree<K, L>>): seq<K>
  {
    if items == [] then [] else (if items[0].Node? then [items[0].key] else []) + KeysOfNodes(items[1..])
  }

  lemma {:induction false} KeysOfNodesAppend<K, L>(a: seq<Tree<K, L>>, b: seq<Tree<K, L>>)
    ensures KeysOfNodes(a + b) == KeysOfNodes(a) + KeysOfNodes(b)
    decreases |a|
  {
    if a == [] {
      assert a + b == b;
    } else {
      assert (a + b)[0] == a[0];
      assert (a + b)[1..] == a[1..] + b;
      KeysOfNodesAppend(a[1..], b);
    }
  }

  /** The keys of the nodes `allNodes` returns are exactly the keys of the
      tree that satisfy `pred`, in pre-order. */
  lemma {:induction false} MatchingKeys<K, L>(t: Tree<K, L>, pred: K -> bool)
    ensures KeysOfNodes(NodesWhere(Preorder(t), pred)) == Keep(pred, NodeKeys(t))
  {
    match t
    case Leaf(_) =>
      assert !IsMatch(pred)(t);
      assert Preorder(t) == [t];
      assert Keep(IsMatch(pred), [t]) == Keep(IsMatch(pred), [t][1..]);
      assert [t][1..] == [];
    case Node(k, cs) =>
      var here: seq<Tree<K, L>> := if pred(k) then [t] else [];
      var keyHere: seq<K> := if pred(k) then [k] else [];
      KeepAppend(IsMatch(pred), [t], PreorderOf(cs));
      assert NodesWhere([t], pred) == here;
      KeepAppend(pred, [k], NodeKeysOf(cs));
      assert Keep(pred, [k]) == keyHere;
      KeysOfNodesAppend(here, NodesWhere(PreorderOf(cs), pred));
      assert KeysOfNodes(here) == keyHere;
      MatchingKeysOf(cs, pred);
  }

  lemma {:induction false} MatchingKeysOf<K, L>(ts: seq<Tree<K, L>>, pred: K -> bool)
    ensures KeysOfNodes(NodesWhere(PreorderOf(ts), pred)) == Keep(pred, NodeKeysOf(ts))
  {
    if ts != [] {
      MatchingKeys(ts[0], pred);
      MatchingKeysOf(ts[1..], pred);
      KeepAppend(IsMatch(pred), Preorder(ts[0]), PreorderOf(ts[1..]));
      KeysOfNodesAppend(NodesWhere(Preorder(ts[0]), pred), NodesWhere(PreorderOf(ts[1..]), pred));
      KeepAppend(pred, NodeKeys(ts[0]), NodeKeysOf(ts[1..]));
    }
  }

  /** Every tree `allNodes` returns is a node whose key satisfies `pred`. */
  lemma {:induction false} NodesWhereMatch<K, L>(items: seq<Tree<K, L>>, pred: K -> bool)
    ensures forall j :: 0 <= j < |NodesWhere(items, pred)| ==>
      NodesWhere(items, pred)[j].Node? && pred(NodesWhere(items, pred)[j].key)
    decreases |items|
  {
    if items != [] {
      var x := items[0];
      assert NodesWhere(items, pred) == (if IsMatch(pred)(x) then [x] else []) + NodesWhere(items[1..], pred);
      assert IsMatch(pred)(x) ==> x.Node? && pred(x.key);
      NodesWhereMatch(items[1..], pred);
    }
  }
}
