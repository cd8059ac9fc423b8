/**
 * `iterate` (SyntaxTree.swift, lines 56-106): a depth-first walk driven by
 * an explicit stack of frames. Each item is handed to `nextSubtree` with its
 * index path from the root; the callback may decline to enter a node. Once
 * all children of an entered node are done, `nodeIterarionComplete` gets the
 * node's path and key and may stop the whole walk.
 *
 * The Swift callbacks are closures over mutable captured variables. Here
 * they are total functions that thread that captured state S explicitly.
 */
module Traversal {
  import opened Trees

  /** `visit` plays `nextSubtree` and returns whether to enter the subtree;
      `complete` plays `nodeIterarionComplete` and returns whether to keep
      iterating. A missing completion closure is one that returns `true`. */
  datatype Callbacks<!K, !L, !S> = Callbacks(
    visit: (S, seq<nat>, Tree<K, L>) -> (S, bool),
    complete: (S, seq<nat>, K) -> (S, bool))

  // -----------------------------------------------------------------------
  // Reference meaning: a recursive walk returning the final state and
  // whether the walk was stopped by a completion callback.

  function Walk<K, L, S>(cb: Callbacks<K, L, S>, t: Tree<K, L>, path: seq<nat>, s: S): (S, bool)
    decreases t, 2
  {
    var (s1, enter) := cb.visit(s, path, t);
    if enter && t.Node? then Finish(cb, t, 0, path, s1) else (s1, false)
  }

  /** Walk the children of node `t` from index `i` on, then complete `t`. */
  function Finish<K, L, S>(cb: Callbacks<K, L, S>, t: Tree<K, L>, i: nat, path: seq<nat>, s: S): (S, bool)
    requires t.Node? && i <= |t.children|
    decreases t, 1
  {
    var (s1, stopped) := WalkChildren(cb, t, i, path, s);
    if stopped then (s1, true)
    else
      var (s2, cont) := cb.complete(s1, path, t.key);
      (s2, !cont)
  }

  function WalkChildren<K, L, S>(cb: Callbacks<K, L, S>, t: Tree<K, L>, i: nat, path: seq<nat>, s: S): (S, bool)
    requires t.Node? && i <= |t.children|
    decreases t, 0, |t.children| - i
  {
    if i == |t.children| then (s, false)
    else
      var (s1, stopped) := Walk(cb, t.children[i], path + [i], s);
      if stopped then (s1, true) else WalkChildren(cb, t, i + 1, path, s1)
  }

  // -----------------------------------------------------------------------
  // The explicit stack

  /** `IterateStackFrame.children(key:children:index:)`: a node under way,
      whose children from `index` on are still to be walked. */
  datatype Frame<K, L> = Frame(key: K, children: seq<Tree<K, L>>, index: nat)

  ghost predicate ValidFrames<K, L>(stack: seq<Frame<K, L>>)
  {
    forall j :: 0 <= j < |stack| ==> stack[j].index <= |stack[j].children|
  }

  /** What is left to do when `stack` holds the nodes under way, `path` has
      one entry per frame (the path of the node of frame j is path[..j]) and
      the captured state is `s`: finish the top node, then, unless stopped,
      the rest of the stack. */
  ghost function Resume<K, L, S>(cb: Callbacks<K, L, S>, stack: seq<Frame<K, L>>, path: seq<nat>, s: S): S
    requires ValidFrames(stack) && |path| == |stack|
    decreases |stack|
  {
    if stack == [] then s
    else
      var n := |stack| - 1;
      var f := stack[n];
      var (s1, stopped) := Finish(cb, Node(f.key, f.children), f.index, path[..n], s);
      if stopped then s1 else Resume(cb, stack[..n], path[..n], s1)
  }

  ghost function FrameWeight<K, L>(f: Frame<K, L>): nat
  {
    if f.index <= |f.children| then 1 + 2 * SizeOf(f.children[f.index..]) else 1
  }

  ghost function StackWeight<K, L>(stack: seq<Frame<K, L>>): nat
  {
    if stack == [] then 0 else StackWeight(stack[..|stack| - 1]) + FrameWeight(stack[|stack| - 1])
  }

  lemma StackWeightPush<K, L>(stack: seq<Frame<K, L>>, f: Frame<K, L>)
    ensures StackWeight(stack + [f]) == StackWeight(stack) + FrameWeight(f)
  {
    assert (stack + [f])[..|stack|] == stack;
  }

  /** Unfolding Resume on a stack with one more frame on top. */
  lemma ResumePush<K, L, S>(cb: Callbacks<K, L, S>, stack: seq<Frame<K, L>>, path: seq<nat>, f: Frame<K, L>, i: nat, s: S)
    requires ValidFrames(stack) && |path| == |stack| && f.index <= |f.children|
    ensures ValidFrames(stack + [f])
    ensures Resume(cb, stack + [f], path + [i], s) ==
      var (s1, stopped) := Finish(cb, Node(f.key, f.children), f.index, path, s);
      if stopped then s1 else Resume(cb, stack, path, s1)
  {
    assert (stack + [f])[..|stack|] == stack;
    assert (path + [i])[..|stack|] == path;
  }

  /** Finishing a node from child i on is walking child i, then finishing
      from child i + 1 on, unless the walk of child i stopped. */
  lemma FinishStep<K, L, S>(cb: Callbacks<K, L, S>, t: Tree<K, L>, i: nat, path: seq<nat>, s: S)
    requires t.Node? && i < |t.children|
    ensures Finish(cb, t, i, path, s) ==
      var (s1, stopped) := Walk(cb, t.children[i], path + [i], s);
      if stopped then (s1, true) else Finish(cb, t, i + 1, path, s1)
  {
  }

  /** `resolve` on a frame whose children are all done: the completion
      callback runs with the parent's path, and what is left is the rest of
      the stack, unless the callback asked to stop. */
  lemma CompleteStep<K, L, S>(cb: Callbacks<K, L, S>, stack: seq<Frame<K, L>>, path: seq<nat>, f: Frame<K, L>, i: nat, s: S)
    requires ValidFrames(stack) && |path| == |stack| && f.index == |f.children|
    ensures ValidFrames(stack + [f])
    ensures Resume(cb, stack + [f], path + [i], s) ==
      var (s1, cont) := cb.complete(s, path, f.key);
      if cont then Resume(cb, stack, path, s1) else s1
  {
    ResumePush(cb, stack, path, f, i, s);
  }

  /** `resolve` on a frame with a child left: the frame is pushed back with
      its index advanced, the child is handed to `nextSubtree` with its
      path, and, if it is an entered node, a frame for it is pushed. */
  lemma DescendStep<K, L, S>(cb: Callbacks<K, L, S>, stack: seq<Frame<K, L>>, path: seq<nat>, f: Frame<K, L>, i: nat, s: S)
    requires ValidFrames(stack) && |path| == |stack| && f.index < |f.children|
    ensures
      var child := f.children[f.index];
      var next := Frame(f.key, f.children, f.index + 1);
      var (s1, enter) := cb.visit(s, path + [f.index], child);
      var stack1 := stack + [next];
      var path1 := path + [f.index];
      ValidFrames(stack + [f]) && ValidFrames(stack1) &&
      StackWeight(stack1) < StackWeight(stack + [f]) &&
      if enter && child.Node? then
        var deeper := Frame(child.key, child.children, 0);
        ValidFrames(stack1 + [deeper]) &&
        StackWeight(stack1 + [deeper]) < StackWeight(stack + [f]) &&
        Resume(cb, stack + [f], path + [i], s) == Resume(cb, stack1 + [deeper], path1 + [0], s1)
      else
        Resume(cb, stack + [f], path + [i], s) == Resume(cb, stack1, path1, s1)
  {
    var child := f.children[f.index];
    var next := Frame(f.key, f.children, f.index + 1);
    var (s1, enter) := cb.visit(s, path + [f.index], child);
    ResumePush(cb, stack, path, f, i, s);
    FinishStep(cb, Node(f.key, f.children), f.index, path, s);
    SizeOfSuffix(f.children, f.index);
    StackWeightPush(stack, f);
    StackWeightPush(stack, next);
    ResumePush(cb, stack, path, next, f.index, s1);
    if enter && child.Node? {
      var deeper := Frame(child.key, child.children, 0);
      assert child.children[0..] == child.children;
      StackWeightPush(stack + [next], deeper);
      ResumePush(cb, stack + [next], path + [f.index], deeper, 0, s1);
    }
  }

  /** `iterate(nextSubtree:nodeIterarionComplete:)`, returning the captured
      state the two closures leave behind. */
  method Iterate<K, L, S>(t: Tree<K, L>, s0: S, cb: Callbacks<K, L, S>) returns (s: S)
    ensures s == Walk(cb, t, [], s0).0
  {
    var stack: seq<Frame<K, L>> := [];
    var indexPath: seq<nat> := [];
    s := s0;
    // appendNew(self)
    var entered := cb.visit(s, indexPath, t);
    s := entered.0;
    if entered.1 && t.Node? {
      stack := stack + [Frame(t.key, t.children, 0)];
      indexPath := indexPath + [0];
      ResumePush(cb, [], [], Frame(t.key, t.children, 0), 0, s);
    }
    while stack != []
      invariant ValidFrames(stack)
      invariant stack != [] ==> |indexPath| == |stack|
      invariant (if stack == [] then s else Resume(cb, stack, indexPath, s)) == Walk(cb, t, [], s0).0
      decreases StackWeight(stack)
    {
      var frame := stack[|stack| - 1];
      ghost var last := indexPath[|indexPath| - 1];
      assert stack == stack[..|stack| - 1] + [frame];
      assert indexPath == indexPath[..|indexPath| - 1] + [last];
      stack := stack[..|stack| - 1];
      // resolve(key:children:iteratedIndex:)
      indexPath := indexPath[..|indexPath| - 1];
      if frame.index >= |frame.children| {
        CompleteStep(cb, stack, indexPath, frame, last, s);
        StackWeightPush(stack, frame);
        var completed := cb.complete(s, indexPath, frame.key);
        s := completed.0;
        if !completed.1 {
          stack := [];
        }
      } else {
        DescendStep(cb, stack, indexPath, frame, last, s);
        var child := frame.children[frame.index];
        indexPath := indexPath + [frame.index];
        stack := stack + [Frame(frame.key, frame.children, frame.index + 1)];
        // appendNew(children[iteratedIndex])
        var visited := cb.visit(s, indexPath, child);
        s := visited.0;
        if visited.1 && child.Node? {
          stack := stack + [Frame(child.key, child.children, 0)];
          indexPath := indexPath + [0];
        }
      }
    }
  }
}
