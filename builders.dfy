/**
 * `map`, `mapLeafs`, `filter`, `filterLeafs` and `compressed`
 * (SyntaxTree.swift, lines 182-315) as the source computes them: two
 * closures handed to `iterate` rebuild the tree on a captured stack of
 * child lists. Entering a node pushes an empty list; a leaf is appended to
 * the top list; completing a node pops its list and appends the rebuilt
 * node (or, in `compressed`, a lone child) to the list below. Each method is
 * proved equal to the structural definition in the Rewrites module, which
 * also shows that the forced unwraps in the source never fail.
 */
module Builders {
  import opened Trees
  import opened Traversal
  import opened Rewrites

  /** The captured `trees` array. `trapped` records that an array operation
      would have trapped (the last element of an empty array, or a forced
      `popLast()!` of one); a trapped state never changes again. */
  datatype Stacks<K, L> = Stacks(trees: seq<seq<Tree<K, L>>>, trapped: bool)

  /** `trees[trees.count - 1].append(contentsOf: xs)` */
  function AppendLast<K, L>(st: Stacks<K, L>, xs: seq<Tree<K, L>>): (r: Stacks<K, L>)
    ensures !st.trapped && st.trees != [] ==>
      !r.trapped && |r.trees| == |st.trees| && r.trees[..|st.trees| - 1] == st.trees[..|st.trees| - 1]
      && r.trees[|st.trees| - 1] == st.trees[|st.trees| - 1] + xs
    ensures st.trees == [] ==> r.trapped
  {
    if st.trapped then st
    else if st.trees == [] then Stacks(st.trees, true)
    else Stacks(st.trees[..|st.trees| - 1] + [st.trees[|st.trees| - 1] + xs], false)
  }

  /** `trees.append([])` */
  function Push<K, L>(st: Stacks<K, L>): Stacks<K, L>
  {
    if st.trapped then st else Stacks(st.trees + [[]], false)
  }

  /** `trees.popLast()!`: the new state and the popped list. */
  function PopLast<K, L>(st: Stacks<K, L>): (r: (Stacks<K, L>, seq<Tree<K, L>>))
    ensures st.trees == [] ==> r.0.trapped
  {
    if st.trapped then (st, [])
    else if st.trees == [] then (Stacks(st.trees, true), [])
    else (Stacks(st.trees[..|st.trees| - 1], false), st.trees[|st.trees| - 1])
  }

  lemma AppendLastTwice<K, L>(st: Stacks<K, L>, a: seq<Tree<K, L>>, b: seq<Tree<K, L>>)
    requires !st.trapped && st.trees != []
    ensures AppendLast(AppendLast(st, a), b) == AppendLast(st, a + b)
  {
    var n := |st.trees| - 1;
    assert st.trees[n] + a + b == st.trees[n] + (a + b);
  }

  lemma AppendNothing<K, L>(st: Stacks<K, L>)
    requires !st.trapped && st.trees != []
    ensures AppendLast(st, []) == st
  {
    var n := |st.trees| - 1;
    assert st.trees[n] + [] == st.trees[n];
    assert st.trees[..n] + [st.trees[n]] == st.trees;
  }

  /** Pushing a list, filling it with `xs` and popping it again gives back
      the state before and `xs`. */
  lemma PushFillPop<K, L>(st: Stacks<K, L>, xs: seq<Tree<K, L>>)
    requires !st.trapped
    ensures PopLast(AppendLast(Push(st), xs)) == (st, xs)
  {
    var n := |st.trees|;
    var pushed := Push(st);
    assert pushed.trees == st.trees + [[]];
    assert pushed.trees[..n] == st.trees && pushed.trees[n] == [];
    assert [] + xs == xs;
    var filled := AppendLast(pushed, xs);
    assert filled.trees == st.trees + [xs];
    assert filled.trees[..n] == st.trees;
    assert st == Stacks(st.trees, false);
  }

  // -----------------------------------------------------------------------
  // mapLeafs, filter, filterLeafs and compressed share one pattern and
  // differ in three places, collected in a Recipe:
  //   keep/leafMap  whether a leaf is appended, and what becomes of its value
  //   admit         whether a node is entered (`enterNode = false` otherwise)
  //   wrap          what a completed node contributes to its parent's list

  datatype Recipe<!K, !L, !K2, !L2> = Recipe(
    keep: L -> bool,
    leafMap: L -> L2,
    admit: K -> bool,
    wrap: (K, seq<Tree<K2, L2>>) -> seq<Tree<K2, L2>>)

  function Visit<K, L, K2, L2>(r: Recipe<K, L, K2, L2>, st: Stacks<K2, L2>, item: Tree<K, L>): (Stacks<K2, L2>, bool)
  {
    match item
    case Leaf(v) => (if r.keep(v) then AppendLast(st, [Leaf(r.leafMap(v))]) else st, true)
    case Node(k, _) => if r.admit(k) then (Push(st), true) else (st, false)
  }

  function Complete<K, L, K2, L2>(r: Recipe<K, L, K2, L2>, st: Stacks<K2, L2>, key: K): (Stacks<K2, L2>, bool)
  {
    var (st1, children) := PopLast(st);
    (AppendLast(st1, r.wrap(key, children)), true)
  }

  function BuildCallbacks<K, L, K2, L2>(r: Recipe<K, L, K2, L2>): Callbacks<K, L, Stacks<K2, L2>>
  {
    Callbacks((st: Stacks<K2, L2>, p: seq<nat>, item: Tree<K, L>) => Visit(r, st, item),
              (st: Stacks<K2, L2>, p: seq<nat>, k: K) => Complete(r, st, k))
  }

  /** What the closures append to the top list for a whole subtree. */
  function Built<K, L, K2, L2>(r: Recipe<K, L, K2, L2>, t: Tree<K, L>): seq<Tree<K2, L2>>
  {
    match t
    case Leaf(v) => if r.keep(v) then [Leaf(r.leafMap(v))] else []
    case Node(k, cs) => if r.admit(k) then r.wrap(k, BuiltOf(r, cs)) else []
  }

  function BuiltOf<K, L, K2, L2>(r: Recipe<K, L, K2, L2>, ts: seq<Tree<K, L>>): seq<Tree<K2, L2>>
  {
    if ts == [] then [] else Built(r, ts[0]) + BuiltOf(r, ts[1..])
  }

  /** Walking a subtree appends what it builds to the top list and leaves
      the rest of the stack alone; it never traps and is never stopped. */
  lemma {:induction false} WalkBuilds<K, L, K2, L2>(r: Recipe<K, L, K2, L2>, t: Tree<K, L>, path: seq<nat>, st: Stacks<K2, L2>)
    requires !st.trapped && st.trees != []
    ensures Walk(BuildCallbacks(r), t, path, st) == (AppendLast(st, Built(r, t)), false)
    decreases t, 1
  {
    match t
    case Leaf(v) =>
      if !r.keep(v) {
        AppendNothing(st);
      }
    case Node(k, cs) =>
      if r.admit(k) {
        var pushed := Push(st);
        ChildrenBuild(r, t, 0, path, pushed);
        assert cs[0..] == cs;
        PushFillPop(st, BuiltOf(r, cs));
      } else {
        AppendNothing(st);
      }
  }

  lemma {:induction false} ChildrenBuild<K, L, K2, L2>(r: Recipe<K, L, K2, L2>, t: Tree<K, L>, i: nat, path: seq<nat>, st: Stacks<K2, L2>)
    requires t.Node? && i <= |t.children|
    requires !st.trapped && st.trees != []
    ensures WalkChildren(BuildCallbacks(r), t, i, path, st) == (AppendLast(st, BuiltOf(r, t.children[i..])), false)
    decreases t, 0, |t.children| - i
  {
    var cs := t.children;
    if i == |cs| {
      assert cs[i..] == [];
      AppendNothing(st);
    } else {
      assert cs[i..][0] == cs[i];
      assert cs[i..][1..] == cs[i + 1..];
      WalkBuilds(r, cs[i], path + [i], st);
      var st1 := AppendLast(st, Built(r, cs[i]));
      ChildrenBuild(r, t, i + 1, path, st1);
      AppendLastTwice(st, Built(r, cs[i]), BuiltOf(r, cs[i + 1..]));
    }
  }

  /** `iterate` run with a recipe's closures from `[[]]` leaves exactly
      what the whole tree builds as the only list. */
  lemma IterateBuilds<K, L, K2, L2>(r: Recipe<K, L, K2, L2>, t: Tree<K, L>)
    ensures Walk(BuildCallbacks(r), t, [], Stacks([[]], false)).0 == Stacks([Built(r, t)], false)
  {
    WalkBuilds(r, t, [], Stacks([[]], false));
    assert [] + Built(r, t) == Built(r, t);
  }

  // -----------------------------------------------------------------------
  // mapLeafs

  /** The node a recipe wraps around its finished children. */
  function WrapInNode<K, L>(k: K, cs: seq<Tree<K, L>>): seq<Tree<K, L>>
  {
    [Node(k, cs)]
  }

  function MapLeafsRecipe<K, L, R>(f: L -> R): Recipe<K, L, K, R>
  {
    Recipe(v => true, f, k => true, WrapInNode)
  }

  lemma {:induction false} BuiltMapLeaves<K, L, R>(f: L -> R, t: Tree<K, L>)
    ensures Built(MapLeafsRecipe(f), t) == [MapLeaves(t, f)]
  {
    if t.Node? {
      BuiltOfMapLeaves(f, t.children);
    }
  }

  lemma {:induction false} BuiltOfMapLeaves<K, L, R>(f: L -> R, ts: seq<Tree<K, L>>)
    ensures BuiltOf(MapLeafsRecipe(f), ts) == MapLeavesOf(ts, f)
  {
    if ts != [] {
      BuiltMapLeaves(f, ts[0]);
      BuiltOfMapLeaves(f, ts[1..]);
    }
  }

  /** `mapLeafs(_:)` */
  method MapLeafs<K, L, R>(t: Tree<K, L>, f: L -> R) returns (r: Tree<K, R>)
    ensures r == MapLeaves(t, f)
  {
    var st := Iterate(t, Stacks([[]], false), BuildCallbacks(MapLeafsRecipe(f)));
    IterateBuilds(MapLeafsRecipe(f), t);
    BuiltMapLeaves(f, t);
    // trees.first!.first!
    r := st.trees[0][0];
  }

  // -----------------------------------------------------------------------
  // filter

  function FilterRecipe<K, L>(pred: K -> bool): Recipe<K, L, K, L>
  {
    Recipe(v => true, v => v, pred, WrapInNode)
  }

  lemma {:induction false} BuiltFilterNodes<K, L>(pred: K -> bool, t: Tree<K, L>)
    ensures Built(FilterRecipe(pred), t) == Present(FilterNodes(t, pred))
  {
    if t.Node? && pred(t.key) {
      BuiltOfFilterNodes(pred, t.children);
    }
  }

  lemma {:induction false} BuiltOfFilterNodes<K, L>(pred: K -> bool, ts: seq<Tree<K, L>>)
    ensures BuiltOf(FilterRecipe(pred), ts) == FilterNodesOf(ts, pred)
  {
    if ts != [] {
      BuiltFilterNodes(pred, ts[0]);
      BuiltOfFilterNodes(pred, ts[1..]);
    }
  }

  /** `filter(_:)` */
  method Filter<K, L>(t: Tree<K, L>, pred: K -> bool) returns (r: Option<Tree<K, L>>)
    ensures r == FilterNodes(t, pred)
  {
    var st := Iterate(t, Stacks([[]], false), BuildCallbacks(FilterRecipe(pred)));
    IterateBuilds(FilterRecipe(pred), t);
    BuiltFilterNodes(pred, t);
    // trees.first!.first
    r := if st.trees[0] == [] then None else Some(st.trees[0][0]);
  }

  // -----------------------------------------------------------------------
  // filterLeafs

  function FilterLeafsRecipe<K, L>(pred: L -> bool): Recipe<K, L, K, L>
  {
    Recipe(pred, v => v, k => true, WrapInNode)
  }

  lemma {:induction false} BuiltFilterLeaves<K, L>(pred: L -> bool, t: Tree<K, L>)
    ensures Built(FilterLeafsRecipe(pred), t) == Present(FilterLeaves(t, pred))
  {
    if t.Node? {
      BuiltOfFilterLeaves(pred, t.children);
    }
  }

  lemma {:induction false} BuiltOfFilterLeaves<K, L>(pred: L -> bool, ts: seq<Tree<K, L>>)
    ensures BuiltOf(FilterLeafsRecipe(pred), ts) == FilterLeavesOf(ts, pred)
  {
    if ts != [] {
      BuiltFilterLeaves(pred, ts[0]);
      BuiltOfFilterLeaves(pred, ts[1..]);
    }
  }

  /** `filterLeafs(_:)` */
  method FilterLeafs<K, L>(t: Tree<K, L>, pred: L -> bool) returns (r: Option<Tree<K, L>>)
    ensures r == FilterLeaves(t, pred)
  {
    var st := Iterate(t, Stacks([[]], false), BuildCallbacks(FilterLeafsRecipe(pred)));
    IterateBuilds(FilterLeafsRecipe(pred), t);
    BuiltFilterLeaves(pred, t);
    // trees.first!.first
    r := if st.trees[0] == [] then None else Some(st.trees[0][0]);
  }

  // -----------------------------------------------------------------------
  // compressed

  /** A completed node with exactly one rebuilt child contributes that
      child; any other node contributes itself. */
  function CompressWrap<K, L>(k: K, cs: seq<Tree<K, L>>): seq<Tree<K, L>>
  {
    if |cs| == 1 then cs else [Node(k, cs)]
  }

  function CompressRecipe<K, L>(): Recipe<K, L, K, L>
  {
    Recipe(v => true, v => v, k => true, CompressWrap)
  }

  lemma {:induction false} BuiltCompress<K, L>(t: Tree<K, L>)
    ensures Built(CompressRecipe(), t) == [Compress(t)]
  {
    if t.Node? {
      BuiltOfCompress(t.children);
      var ncs := CompressOf(t.children);
      if |ncs| == 1 {
        assert ncs == [ncs[0]];
      }
    }
  }

  lemma {:induction false} BuiltOfCompress<K, L>(ts: seq<Tree<K, L>>)
    ensures BuiltOf(CompressRecipe(), ts) == CompressOf(ts)
  {
    if ts != [] {
      BuiltCompress(ts[0]);
      BuiltOfCompress(ts[1..]);
    }
  }

  /** `compressed()` */
  method Compressed<K, L>(t: Tree<K, L>) returns (r: Tree<K, L>)
    ensures r == Compress(t)
  {
    var st := Iterate(t, Stacks([[]], false), BuildCallbacks(CompressRecipe()));
    IterateBuilds(CompressRecipe(), t);
    BuiltCompress(t);
    // trees.first!.first!
    r := st.trees[0][0];
  }

  // -----------------------------------------------------------------------
  // map: the same pattern with a second captured stack, `mapped`, holding
  // the transformed key of every node under way.

  datatype MapStacks<R, L> = MapStacks(mapped: seq<R>, stacks: Stacks<R, L>)

  function MapVisit<K, L, R>(f: K -> R, ms: MapStacks<R, L>, item: Tree<K, L>): (MapStacks<R, L>, bool)
  {
    match item
    case Leaf(v) => (MapStacks(ms.mapped, AppendLast(ms.stacks, [Leaf(v)])), true)
    case Node(k, _) => (MapStacks(ms.mapped + [f(k)], Push(ms.stacks)), true)
  }

  /** `mapped.popLast()!`, then `trees.popLast()!`, then the append. */
  function MapComplete<R, L>(ms: MapStacks<R, L>): (MapStacks<R, L>, bool)
  {
    if ms.mapped == [] then (MapStacks([], Stacks(ms.stacks.trees, true)), true)
    else
      var n := |ms.mapped| - 1;
      var (st1, children) := PopLast(ms.stacks);
      (MapStacks(ms.mapped[..n], AppendLast(st1, [Node(ms.mapped[n], children)])), true)
  }

  function MapCallbacks<K, L, R>(f: K -> R): Callbacks<K, L, MapStacks<R, L>>
  {
    Callbacks((ms: MapStacks<R, L>, p: seq<nat>, item: Tree<K, L>) => MapVisit(f, ms, item),
              (ms: MapStacks<R, L>, p: seq<nat>, k: K) => MapComplete(ms))
  }

  lemma {:induction false} WalkMaps<K, L, R>(f: K -> R, t: Tree<K, L>, path: seq<nat>, ms: MapStacks<R, L>)
    requires !ms.stacks.trapped && ms.stacks.trees != []
    ensures Walk(MapCallbacks(f), t, path, ms) == (MapStacks(ms.mapped, AppendLast(ms.stacks, [MapKeys(t, f)])), false)
    decreases t, 1
  {
    match t
    case Leaf(v) =>
    case Node(k, cs) =>
      var pushed := MapStacks(ms.mapped + [f(k)], Push(ms.stacks));
      ChildrenMap(f, t, 0, path, pushed);
      assert cs[0..] == cs;
      PushFillPop(ms.stacks, MapKeysOf(cs, f));
      assert (ms.mapped + [f(k)])[..|ms.mapped|] == ms.mapped;
  }

  lemma {:induction false} ChildrenMap<K, L, R>(f: K -> R, t: Tree<K, L>, i: nat, path: seq<nat>, ms: MapStacks<R, L>)
    requires t.Node? && i <= |t.children|
    requires !ms.stacks.trapped && ms.stacks.trees != []
    ensures WalkChildren(MapCallbacks(f), t, i, path, ms) ==
      (MapStacks(ms.mapped, AppendLast(ms.stacks, MapKeysOf(t.children[i..], f))), false)
    decreases t, 0, |t.children| - i
  {
    var cs := t.children;
    if i == |cs| {
      assert cs[i..] == [];
      AppendNothing(ms.stacks);
    } else {
      assert cs[i..][0] == cs[i];
      assert cs[i..][1..] == cs[i + 1..];
      WalkMaps(f, cs[i], path + [i], ms);
      var ms1 := MapStacks(ms.mapped, AppendLast(ms.stacks, [MapKeys(cs[i], f)]));
      ChildrenMap(f, t, i + 1, path, ms1);
      AppendLastTwice(ms.stacks, [MapKeys(cs[i], f)], MapKeysOf(cs[i + 1..], f));
    }
  }

  /** `map(_:)` */
  method Map<K, L, R>(t: Tree<K, L>, f: K -> R) returns (r: Tree<R, L>)
    ensures r == MapKeys(t, f)
  {
    var ms := Iterate(t, MapStacks([], Stacks([[]], false)), MapCallbacks(f));
    WalkMaps(f, t, [], MapStacks([], Stacks([[]], false)));
    // trees.first!.first!
    r := ms.stacks.trees[0][0];
  }
}
