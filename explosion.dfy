/**
 * `explode` (SyntaxTree.swift, lines 109-168): every node whose key the
 * predicate accepts is replaced, in its parent's child list, by its own
 * (already exploded) children. Exploding the root leaves a forest.
 */
module Explosion {
  import opened Trees

  /** Reference meaning of `explode`. */
  function Exploded<K, L>(t: Tree<K, L>, shouldExplode: K -> bool): seq<Tree<K, L>>
  {
    match t
    case Leaf(_) => [t]
    case Node(k, cs) =>
      var spliced := ExplodedAll(cs, shouldExplode);
      if shouldExplode(k) then spliced else [Node(k, spliced)]
  }

  /** The exploded children, concatenated left to right. */
  function ExplodedAll<K, L>(ts: seq<Tree<K, L>>, shouldExplode: K -> bool): seq<Tree<K, L>>
  {
    if ts == [] then [] else Exploded(ts[0], shouldExplode) + ExplodedAll(ts[1..], shouldExplode)
  }

  lemma ExplodedAllSuffix<K, L>(ts: seq<Tree<K, L>>, i: nat, shouldExplode: K -> bool)
    requires i < |ts|
    ensures ExplodedAll(ts[i..], shouldExplode) == Exploded(ts[i], shouldExplode) + ExplodedAll(ts[i + 1..], shouldExplode)
  {
    assert ts[i..][0] == ts[i];
    assert ts[i..][1..] == ts[i + 1..];
  }

  // -----------------------------------------------------------------------
  // The explicit stack

  /** `ExplostionStackFrame`: a finished list of trees for the parent, or a
      node under way with its accumulated exploded children. */
  datatype ExplosionFrame<K, L> =
    | Result(trees: seq<Tree<K, L>>)
    | Current(key: K, children: seq<Tree<K, L>>, shouldExplodeResult: bool,
              accumulator: seq<Tree<K, L>>, iteratedIndex: nat)

  // `ValidFrames`, `Resume`, `ResumePush`, `StackWeight` and `StackWeightPush`
  // below play the same roles for `explode`'s frames as their namesakes in
  // module Traversal do for `iterate`'s frames.

  ghost predicate ValidFrames<K, L>(stack: seq<ExplosionFrame<K, L>>, shouldExplode: K -> bool)
  {
    forall j :: 0 <= j < |stack| && stack[j].Current? ==>
      stack[j].iteratedIndex <= |stack[j].children| &&
      stack[j].shouldExplodeResult == shouldExplode(stack[j].key)
  }

  /** The final `lastResult` once the loop has worked through `stack`,
      starting with `last`. */
  ghost function Resume<K, L>(stack: seq<ExplosionFrame<K, L>>, last: Option<seq<Tree<K, L>>>, shouldExplode: K -> bool)
    : Option<seq<Tree<K, L>>>
    requires ValidFrames(stack, shouldExplode)
    decreases |stack|
  {
    if stack == [] then last
    else
      var n := |stack| - 1;
      match stack[n]
      case Result(r) => Resume(stack[..n], Some(r), shouldExplode)
      case Current(_, _, _, _, _) => Resume(stack[..n], Some(Finished(stack[n], last, shouldExplode)), shouldExplode)
  }

  /** The trees a node under way hands to its parent: what it has
      accumulated, the pending `lastResult`, and the exploded children still
      to come; spliced in if the node explodes, wrapped in it otherwise. */
  ghost function Finished<K, L>(f: ExplosionFrame<K, L>, last: Option<seq<Tree<K, L>>>, shouldExplode: K -> bool)
    : seq<Tree<K, L>>
    requires f.Current? && f.iteratedIndex <= |f.children|
  {
    var spliced := f.accumulator + (if last.Some? then last.value else []) + ExplodedAll(f.children[f.iteratedIndex..], shouldExplode);
    if f.shouldExplodeResult then spliced else [Node(f.key, spliced)]
  }

  lemma ResumePush<K, L>(stack: seq<ExplosionFrame<K, L>>, f: ExplosionFrame<K, L>, last: Option<seq<Tree<K, L>>>, shouldExplode: K -> bool)
    requires ValidFrames(stack, shouldExplode)
    requires f.Current? ==> f.iteratedIndex <= |f.children| && f.shouldExplodeResult == shouldExplode(f.key)
    ensures ValidFrames(stack + [f], shouldExplode)
    ensures f.Result? ==> Resume(stack + [f], last, shouldExplode) == Resume(stack, Some(f.trees), shouldExplode)
    ensures f.Current? ==> Resume(stack + [f], last, shouldExplode) == Resume(stack, Some(Finished(f, last, shouldExplode)), shouldExplode)
  {
    assert (stack + [f])[..|stack|] == stack;
  }

  ghost function FrameWeight<K, L>(f: ExplosionFrame<K, L>): nat
  {
    match f
    case Result(_) => 1
    case Current(_, cs, _, _, i) => if i <= |cs| then 2 + 3 * SizeOf(cs[i..]) else 2
  }

  ghost function StackWeight<K, L>(stack: seq<ExplosionFrame<K, L>>): nat
  {
    if stack == [] then 0 else StackWeight(stack[..|stack| - 1]) + FrameWeight(stack[|stack| - 1])
  }

  lemma StackWeightPush<K, L>(stack: seq<ExplosionFrame<K, L>>, f: ExplosionFrame<K, L>)
    ensures StackWeight(stack + [f]) == StackWeight(stack) + FrameWeight(f)
  {
    assert (stack + [f])[..|stack|] == stack;
  }

  /** The frame `appendNew` pushes for a tree: a finished single-leaf list
      for a leaf, a fresh node under way for a node. */
  function Opened<K, L>(tree: Tree<K, L>, shouldExplode: K -> bool): ExplosionFrame<K, L>
  {
    match tree
    case Leaf(_) => Result([tree])
    case Node(k, cs) => Current(k, cs, shouldExplode(k), [], 0)
  }

  /** Pushing the frame of a tree schedules exactly its exploded forest. */
  lemma OpenedResumes<K, L>(stack: seq<ExplosionFrame<K, L>>, tree: Tree<K, L>, shouldExplode: K -> bool)
    requires ValidFrames(stack, shouldExplode)
    ensures ValidFrames(stack + [Opened(tree, shouldExplode)], shouldExplode)
    ensures Resume(stack + [Opened(tree, shouldExplode)], None, shouldExplode)
         == Resume(stack, Some(Exploded(tree, shouldExplode)), shouldExplode)
    ensures StackWeight(stack + [Opened(tree, shouldExplode)]) < StackWeight(stack) + 3 * Size(tree)
  {
    var f := Opened(tree, shouldExplode);
    ResumePush(stack, f, None, shouldExplode);
    StackWeightPush(stack, f);
    if tree.Node? {
      assert tree.children[0..] == tree.children;
      var spliced := ExplodedAll(tree.children, shouldExplode);
      assert f.children == tree.children;
      assert f.accumulator + [] + ExplodedAll(f.children[f.iteratedIndex..], shouldExplode) == spliced;
      assert Finished(f, None, shouldExplode) == if f.shouldExplodeResult then spliced else [Node(f.key, spliced)];
    }
  }

  /** What a node under way has gathered once the pending `lastResult` is
      appended to its accumulator. */
  function Gathered<K, L>(f: ExplosionFrame<K, L>, last: Option<seq<Tree<K, L>>>): seq<Tree<K, L>>
    requires f.Current?
  {
    f.accumulator + (if last.Some? then last.value else [])
  }

  /** `resolve` on a node whose children are all done: it is replaced by its
      finished list, spliced or wrapped. */
  lemma FinishFrameStep<K, L>(stack: seq<ExplosionFrame<K, L>>, frame: ExplosionFrame<K, L>,
                              last: Option<seq<Tree<K, L>>>, shouldExplode: K -> bool)
    requires frame.Current? && ValidFrames(stack + [frame], shouldExplode)
    requires frame.iteratedIndex >= |frame.children|
    ensures
      var acc := Gathered(frame, last);
      var done := Result(if frame.shouldExplodeResult then acc else [Node(frame.key, acc)]);
      ValidFrames(stack + [done], shouldExplode) &&
      Resume(stack + [done], None, shouldExplode) == Resume(stack + [frame], last, shouldExplode) &&
      StackWeight(stack + [done]) < StackWeight(stack + [frame])
  {
    assert frame == (stack + [frame])[|stack|];
    assert (stack + [frame])[..|stack|] == stack;
    ResumePush(stack, frame, last, shouldExplode);
    StackWeightPush(stack, frame);
    var acc := Gathered(frame, last);
    var done := Result(if frame.shouldExplodeResult then acc else [Node(frame.key, acc)]);
    assert frame.children[frame.iteratedIndex..] == [];
    assert Gathered(frame, last) + ExplodedAll(frame.children[frame.iteratedIndex..], shouldExplode) == acc;
    assert Finished(frame, last, shouldExplode) == done.trees;
    ResumePush(stack, done, None, shouldExplode);
    StackWeightPush(stack, done);
  }

  /** `resolve` on a node with a child left: the node goes back with the
      pending result in its accumulator and its index advanced, and the
      child's frame goes on top. */
  lemma AdvanceFrameStep<K, L>(stack: seq<ExplosionFrame<K, L>>, frame: ExplosionFrame<K, L>,
                               last: Option<seq<Tree<K, L>>>, shouldExplode: K -> bool)
    requires frame.Current? && ValidFrames(stack + [frame], shouldExplode)
    requires frame.iteratedIndex < |frame.children|
    ensures
      var rest := frame.(accumulator := Gathered(frame, last), iteratedIndex := frame.iteratedIndex + 1);
      var next := stack + [rest] + [Opened(frame.children[frame.iteratedIndex], shouldExplode)];
      ValidFrames(next, shouldExplode) &&
      Resume(next, None, shouldExplode) == Resume(stack + [frame], last, shouldExplode) &&
      StackWeight(next) < StackWeight(stack + [frame])
  {
    assert frame == (stack + [frame])[|stack|];
    assert (stack + [frame])[..|stack|] == stack;
    ResumePush(stack, frame, last, shouldExplode);
    StackWeightPush(stack, frame);
    var child := frame.children[frame.iteratedIndex];
    var acc := Gathered(frame, last);
    var rest := frame.(accumulator := acc, iteratedIndex := frame.iteratedIndex + 1);
    ExplodedAllSuffix(frame.children, frame.iteratedIndex, shouldExplode);
    SizeOfSuffix(frame.children, frame.iteratedIndex);
    ResumePush(stack, rest, Some(Exploded(child, shouldExplode)), shouldExplode);
    StackWeightPush(stack, rest);
    OpenedResumes(stack + [rest], child, shouldExplode);
    var spliced := acc + Exploded(child, shouldExplode)
      + ExplodedAll(frame.children[frame.iteratedIndex + 1..], shouldExplode);
    assert acc + ExplodedAll(frame.children[frame.iteratedIndex..], shouldExplode) == spliced;
    assert Finished(frame, last, shouldExplode) == if frame.shouldExplodeResult then spliced else [Node(frame.key, spliced)];
    assert Finished(rest, Some(Exploded(child, shouldExplode)), shouldExplode)
        == if frame.shouldExplodeResult then spliced else [Node(frame.key, spliced)];
  }

  /** `resolve(...)`: one step on a node under way, given the pending
      `lastResult`; returns the new stack (the caller then clears
      `lastResult`). */
  method Resolve<K, L>(stack: seq<ExplosionFrame<K, L>>, frame: ExplosionFrame<K, L>,
                       lastResult: Option<seq<Tree<K, L>>>, shouldExplode: K -> bool)
    returns (next: seq<ExplosionFrame<K, L>>)
    requires frame.Current? && ValidFrames(stack + [frame], shouldExplode)
    ensures ValidFrames(next, shouldExplode)
    ensures Resume(next, None, shouldExplode) == Resume(stack + [frame], lastResult, shouldExplode)
    ensures StackWeight(next) < StackWeight(stack + [frame])
  {
    var newAccumulator := frame.accumulator;
    if lastResult.Some? {
      newAccumulator := newAccumulator + lastResult.value;
    }
    assert newAccumulator == Gathered(frame, lastResult);
    if frame.iteratedIndex >= |frame.children| {
      FinishFrameStep(stack, frame, lastResult, shouldExplode);
      if frame.shouldExplodeResult {
        next := stack + [Result(newAccumulator)];
      } else {
        next := stack + [Result([Node(frame.key, newAccumulator)])];
      }
    } else {
      AdvanceFrameStep(stack, frame, lastResult, shouldExplode);
      var child := frame.children[frame.iteratedIndex];
      next := stack + [frame.(accumulator := newAccumulator, iteratedIndex := frame.iteratedIndex + 1)];
      // appendNew(child)
      next := next + [Opened(child, shouldExplode)];
    }
  }

  /** `explode(_:)` */
  method Explode<K, L>(t: Tree<K, L>, shouldExplode: K -> bool) returns (r: seq<Tree<K, L>>)
    ensures r == Exploded(t, shouldExplode)
  {
    var stack: seq<ExplosionFrame<K, L>> := [];
    var lastResult: Option<seq<Tree<K, L>>> := None;
    // appendNew(self)
    OpenedResumes(stack, t, shouldExplode);
    stack := stack + [Opened(t, shouldExplode)];
    while stack != []
      invariant ValidFrames(stack, shouldExplode)
      invariant Resume(stack, lastResult, shouldExplode) == Some(Exploded(t, shouldExplode))
      decreases StackWeight(stack)
    {
      var frame := stack[|stack| - 1];
      ghost var before := stack;
      stack := stack[..|stack| - 1];
      assert before == stack + [frame];
      match frame {
        case Result(result) =>
          ResumePush(stack, frame, lastResult, shouldExplode);
          StackWeightPush(stack, frame);
          lastResult := Some(result);
        case Current(_, _, _, _, _) =>
          stack := Resolve(stack, frame, lastResult, shouldExplode);
          lastResult := None;
      }
    }
    // return lastResult!
    r := lastResult.value;
  }

  // -----------------------------------------------------------------------
  // Properties of the reference meaning

  /** No node of the forest has a key the predicate accepts. */
  ghost predicate NothingToExplode<K, L>(ts: seq<Tree<K, L>>, shouldExplode: K -> bool)
  {
    forall k :: k in NodeKeysOf(ts) ==> !shouldExplode(k)
  }

  /** A tree with no node to explode comes back unchanged, as the only tree
      of the forest. */
  lemma {:induction false} ExplodeWithoutMatchIsIdentity<K, L>(t: Tree<K, L>, shouldExplode: K -> bool)
    requires forall k :: k in NodeKeys(t) ==> !shouldExplode(k)
    ensures Exploded(t, shouldExplode) == [t]
  {
    match t
    case Leaf(_) =>
    case Node(k, cs) =>
      assert k in NodeKeys(t);
      ExplodeAllWithoutMatchIsIdentity(cs, shouldExplode);
  }

  lemma {:induction false} ExplodeAllWithoutMatchIsIdentity<K, L>(ts: seq<Tree<K, L>>, shouldExplode: K -> bool)
    requires NothingToExplode(ts, shouldExplode)
    ensures ExplodedAll(ts, shouldExplode) == ts
  {
    if ts != [] {
      NodeKeysOfAppend([ts[0]], ts[1..]);
      assert [ts[0]] + ts[1..] == ts;
      assert NodeKeysOf([ts[0]]) == NodeKeys(ts[0]) + NodeKeysOf([ts[0]][1..]);
      assert [ts[0]][1..] == [];
      ExplodeWithoutMatchIsIdentity(ts[0], shouldExplode);
      ExplodeAllWithoutMatchIsIdentity(ts[1..], shouldExplode);
    }
  }

  /** No node of the result has a key the predicate accepts. */
  lemma {:induction false} ExplodeLeavesNothingToExplode<K, L>(t: Tree<K, L>, shouldExplode: K -> bool)
    ensures NothingToExplode(Exploded(t, shouldExplode), shouldExplode)
  {
    match t
    case Leaf(_) =>
      assert NodeKeysOf([t]) == NodeKeys(t) + NodeKeysOf([t][1..]);
      assert [t][1..] == [];
    case Node(k, cs) =>
      var spliced := ExplodedAll(cs, shouldExplode);
      ExplodeAllLeavesNothingToExplode(cs, shouldExplode);
      if !shouldExplode(k) {
        var u := Node(k, spliced);
        assert NodeKeysOf([u]) == NodeKeys(u) + NodeKeysOf([u][1..]);
        assert [u][1..] == [];
      }
  }

  lemma {:induction false} ExplodeAllLeavesNothingToExplode<K, L>(ts: seq<Tree<K, L>>, shouldExplode: K -> bool)
    ensures NothingToExplode(ExplodedAll(ts, shouldExplode), shouldExplode)
  {
    if ts != [] {
      ExplodeLeavesNothingToExplode(ts[0], shouldExplode);
      ExplodeAllLeavesNothingToExplode(ts[1..], shouldExplode);
      NodeKeysOfAppend(Exploded(ts[0], shouldExplode), ExplodedAll(ts[1..], shouldExplode));
    }
  }

  /** Exploding keeps every leaf, in order: the leaves of the resulting
      forest are the leaves of the tree. */
  lemma {:induction false} ExplodePreservesLeaves<K, L>(t: Tree<K, L>, shouldExplode: K -> bool)
    ensures LeavesOf(Exploded(t, shouldExplode)) == Leaves(t)
  {
    match t
    case Leaf(_) =>
      assert LeavesOf([t]) == Leaves(t) + LeavesOf([t][1..]);
      assert [t][1..] == [];
    case Node(k, cs) =>
      var spliced := ExplodedAll(cs, shouldExplode);
      ExplodeAllPreservesLeaves(cs, shouldExplode);
      if !shouldExplode(k) {
        var u := Node(k, spliced);
        assert LeavesOf([u]) == Leaves(u) + LeavesOf([u][1..]);
        assert [u][1..] == [];
      }
  }

  lemma {:induction false} ExplodeAllPreservesLeaves<K, L>(ts: seq<Tree<K, L>>, shouldExplode: K -> bool)
    ensures LeavesOf(ExplodedAll(ts, shouldExplode)) == LeavesOf(ts)
  {
    if ts != [] {
      ExplodePreservesLeaves(ts[0], shouldExplode);
      ExplodeAllPreservesLeaves(ts[1..], shouldExplode);
      LeavesOfAppend(Exploded(ts[0], shouldExplode), ExplodedAll(ts[1..], shouldExplode));
    }
  }

  /** Exploding with a predicate that accepts every key flattens the tree
      into its leaves, one single-leaf tree per leaf value, in order. */
  lemma ExplodeEverythingFlattens<K, L>(t: Tree<K, L>, shouldExplode: K -> bool)
    requires forall k :: shouldExplode(k)
    ensures |Exploded(t, shouldExplode)| == |Leaves(t)|
    ensures forall i :: 0 <= i < |Leaves(t)| ==> Exploded(t, shouldExplode)[i] == Leaf(Leaves(t)[i])
  {
    ExplodeEverythingLeavesOnlyLeaves(t, shouldExplode);
    ExplodePreservesLeaves(t, shouldExplode);
    AllLeavesFlatten(Exploded(t, shouldExplode));
  }

  lemma {:induction false} ExplodeEverythingLeavesOnlyLeaves<K, L>(t: Tree<K, L>, shouldExplode: K -> bool)
    requires forall k :: shouldExplode(k)
    ensures forall i :: 0 <= i < |Exploded(t, shouldExplode)| ==> Exploded(t, shouldExplode)[i].Leaf?
  {
    if t.Node? {
      ExplodeAllEverythingLeavesOnlyLeaves(t.children, shouldExplode);
    }
  }

  lemma {:induction false} ExplodeAllEverythingLeavesOnlyLeaves<K, L>(ts: seq<Tree<K, L>>, shouldExplode: K -> bool)
    requires forall k :: shouldExplode(k)
    ensures forall i :: 0 <= i < |ExplodedAll(ts, shouldExplode)| ==> ExplodedAll(ts, shouldExplode)[i].Leaf?
  {
    if ts != [] {
      ExplodeEverythingLeavesOnlyLeaves(ts[0], shouldExplode);
      ExplodeAllEverythingLeavesOnlyLeaves(ts[1..], shouldExplode);
    }
  }

  /** A forest of leaves is exactly its leaf sequence. */
  lemma {:induction false} AllLeavesFlatten<K, L>(ts: seq<Tree<K, L>>)
    requires forall i :: 0 <= i < |ts| ==> ts[i].Leaf?
    ensures |ts| == |LeavesOf(ts)| && forall i :: 0 <= i < |ts| ==> ts[i] == Leaf(LeavesOf(ts)[i])
  {
    if ts != [] {
      assert forall i :: 1 <= i < |ts| ==> ts[i] == ts[1..][i - 1];
      AllLeavesFlatten(ts[1..]);
    }
  }
}
