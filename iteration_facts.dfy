/**
 * What `iterate` promises its callers, stated on a recording instance of
 * the callbacks: the captured state is the log of calls made, and the two
 * decisions (enter this subtree? keep iterating?) are arbitrary functions
 * of the path and the item or key.
 */
module IterationFacts {
  import opened Trees
  import opened Traversal

  datatype Event<K, L> = Entered(path: seq<nat>, item: Tree<K, L>) | Completed(path: seq<nat>, key: K)

  /** Closures that log every call and answer with `enter` and `cont`. */
  function Recorder<K, L>(enter: (seq<nat>, Tree<K, L>) -> bool, cont: (seq<nat>, K) -> bool)
    : Callbacks<K, L, seq<Event<K, L>>>
  {
    Callbacks(
      (log: seq<Event<K, L>>, p: seq<nat>, x: Tree<K, L>) => (log + [Entered(p, x)], enter(p, x)),
      (log: seq<Event<K, L>>, p: seq<nat>, k: K) => (log + [Completed(p, k)], cont(p, k)))
  }

  // -----------------------------------------------------------------------
  // The complete walk

  /** The calls of a walk that is never stopped, when `enter` decides which
      items to enter: each item on arrival; then, for an entered node only,
      its children's calls left to right and its completion with its own
      path. A declined item gets no further call, for itself or its
      descendants. */
  function Events<K, L>(enter: (seq<nat>, Tree<K, L>) -> bool, t: Tree<K, L>, path: seq<nat>): seq<Event<K, L>>
    decreases t, 1
  {
    [Entered(path, t)] +
    if enter(path, t) && t.Node? then ChildEvents(enter, t, 0, path) + [Completed(path, t.key)] else []
  }

  function ChildEvents<K, L>(enter: (seq<nat>, Tree<K, L>) -> bool, t: Tree<K, L>, i: nat, path: seq<nat>): seq<Event<K, L>>
    requires t.Node? && i <= |t.children|
    decreases t, 0, |t.children| - i
  {
    if i == |t.children| then [] else Events(enter, t.children[i], path + [i]) + ChildEvents(enter, t, i + 1, path)
  }

  /** When no completion asks to stop, `iterate` makes exactly the calls of
      Events and reports that it was not stopped. */
  lemma {:induction false} WalkRecordsEvents<K, L>(
    enter: (seq<nat>, Tree<K, L>) -> bool, cont: (seq<nat>, K) -> bool,
    t: Tree<K, L>, path: seq<nat>, log: seq<Event<K, L>>)
    requires forall p, k :: cont(p, k)
    ensures Walk(Recorder(enter, cont), t, path, log) == (log + Events(enter, t, path), false)
    decreases t, 1
  {
    var log1 := log + [Entered(path, t)];
    if enter(path, t) && t.Node? {
      ChildrenRecordEvents(enter, cont, t, 0, path, log1);
      assert log1 + ChildEvents(enter, t, 0, path) + [Completed(path, t.key)] == log + Events(enter, t, path);
    } else {
      assert log1 == log + Events(enter, t, path);
    }
  }

  lemma {:induction false} ChildrenRecordEvents<K, L>(
    enter: (seq<nat>, Tree<K, L>) -> bool, cont: (seq<nat>, K) -> bool,
    t: Tree<K, L>, i: nat, path: seq<nat>, log: seq<Event<K, L>>)
    requires forall p, k :: cont(p, k)
    requires t.Node? && i <= |t.children|
    ensures WalkChildren(Recorder(enter, cont), t, i, path, log) == (log + ChildEvents(enter, t, i, path), false)
    decreases t, 0, |t.children| - i
  {
    if i < |t.children| {
      var e := Events(enter, t.children[i], path + [i]);
      WalkRecordsEvents(enter, cont, t.children[i], path + [i], log);
      ChildrenRecordEvents(enter, cont, t, i + 1, path, log + e);
      assert log + e + ChildEvents(enter, t, i + 1, path) == log + ChildEvents(enter, t, i, path);
    } else {
      assert log + ChildEvents(enter, t, i, path) == log;
    }
  }

  /** The items handed to `nextSubtree`, in call order. */
  function EnteredItems<K, L>(events: seq<Event<K, L>>): seq<Tree<K, L>>
  {
    if events == [] then []
    else (if events[0].Entered? then [events[0].item] else []) + EnteredItems(events[1..])
  }

  lemma {:induction false} EnteredItemsAppend<K, L>(a: seq<Event<K, L>>, b: seq<Event<K, L>>)
    ensures EnteredItems(a + b) == EnteredItems(a) + EnteredItems(b)
  {
    if a == [] {
      assert a + b == b;
    } else {
      assert (a + b)[0] == a[0];
      assert (a + b)[1..] == a[1..] + b;
      EnteredItemsAppend(a[1..], b);
    }
  }

  /** A walk that enters everything hands every subtree to `nextSubtree`
      exactly once, in pre-order. */
  lemma {:induction false} EventsEnterPreorder<K, L>(enter: (seq<nat>, Tree<K, L>) -> bool, t: Tree<K, L>, path: seq<nat>)
    requires forall p, x :: enter(p, x)
    ensures EnteredItems(Events(enter, t, path)) == Preorder(t)
    decreases t, 1
  {
    var none: seq<Event<K, L>> := [];
    assert EnteredItems([Entered(path, t)]) == [t] + EnteredItems(none);
    assert enter(path, t);
    match t
    case Leaf(_) =>
      assert Events(enter, t, path) == [Entered(path, t)];
    case Node(k, cs) =>
      var mid := ChildEvents(enter, t, 0, path);
      assert Events(enter, t, path) == [Entered(path, t)] + (mid + [Completed(path, k)]);
      EnteredItemsAppend([Entered(path, t)], mid + [Completed(path, k)]);
      EnteredItemsAppend(mid, [Completed(path, k)]);
      var done: seq<Event<K, L>> := [Completed(path, k)];
      assert EnteredItems(done) == [] + EnteredItems(none);
      ChildEventsEnterPreorder(enter, t, 0, path);
      assert cs[0..] == cs;
  }

  lemma {:induction false} ChildEventsEnterPreorder<K, L>(enter: (seq<nat>, Tree<K, L>) -> bool, t: Tree<K, L>, i: nat, path: seq<nat>)
    requires forall p, x :: enter(p, x)
    requires t.Node? && i <= |t.children|
    ensures EnteredItems(ChildEvents(enter, t, i, path)) == PreorderOf(t.children[i..])
    decreases t, 0, |t.children| - i
  {
    var cs := t.children;
    if i < |cs| {
      EnteredItemsAppend(Events(enter, cs[i], path + [i]), ChildEvents(enter, t, i + 1, path));
      EventsEnterPreorder(enter, cs[i], path + [i]);
      ChildEventsEnterPreorder(enter, t, i + 1, path);
      assert cs[i..][0] == cs[i];
      assert cs[i..][1..] == cs[i + 1..];
    } else {
      assert cs[i..] == [];
    }
  }

  /** The keys handed to `nodeIterarionComplete`, in call order. */
  function CompletedKeys<K, L>(events: seq<Event<K, L>>): seq<K>
  {
    if events == [] then []
    else (if events[0].Completed? then [events[0].key] else []) + CompletedKeys(events[1..])
  }

  lemma {:induction false} CompletedKeysAppend<K, L>(a: seq<Event<K, L>>, b: seq<Event<K, L>>)
    ensures CompletedKeys(a + b) == CompletedKeys(a) + CompletedKeys(b)
  {
    if a == [] {
      assert a + b == b;
    } else {
      assert (a + b)[0] == a[0];
      assert (a + b)[1..] == a[1..] + b;
      CompletedKeysAppend(a[1..], b);
    }
  }

  /** All node keys in post-order: a node after all of its descendants. */
  function PostorderKeys<K, L>(t: Tree<K, L>): seq<K>
  {
    match t
    case Leaf(_) => []
    case Node(k, cs) => PostorderKeysOf(cs) + [k]
  }

  function PostorderKeysOf<K, L>(ts: seq<Tree<K, L>>): seq<K>
  {
    if ts == [] then [] else PostorderKeys(ts[0]) + PostorderKeysOf(ts[1..])
  }

  /** A walk that enters everything completes every node exactly once, in
      post-order, so each node after all of its children. */
  lemma {:induction false} EventsCompletePostorder<K, L>(enter: (seq<nat>, Tree<K, L>) -> bool, t: Tree<K, L>, path: seq<nat>)
    requires forall p, x :: enter(p, x)
    ensures CompletedKeys(Events(enter, t, path)) == PostorderKeys(t)
    decreases t, 1
  {
    var none: seq<Event<K, L>> := [];
    assert CompletedKeys([Entered(path, t)]) == [] + CompletedKeys(none);
    assert enter(path, t);
    match t
    case Leaf(_) =>
      assert Events(enter, t, path) == [Entered(path, t)];
    case Node(k, cs) =>
      var mid := ChildEvents(enter, t, 0, path);
      assert Events(enter, t, path) == [Entered(path, t)] + (mid + [Completed(path, k)]);
      CompletedKeysAppend([Entered(path, t)], mid + [Completed(path, k)]);
      CompletedKeysAppend(mid, [Completed(path, k)]);
      var done: seq<Event<K, L>> := [Completed(path, k)];
      assert CompletedKeys(done) == [k] + CompletedKeys(none);
      ChildEventsCompletePostorder(enter, t, 0, path);
      assert cs[0..] == cs;
  }

  lemma {:induction false} ChildEventsCompletePostorder<K, L>(enter: (seq<nat>, Tree<K, L>) -> bool, t: Tree<K, L>, i: nat, path: seq<nat>)
    requires forall p, x :: enter(p, x)
    requires t.Node? && i <= |t.children|
    ensures CompletedKeys(ChildEvents(enter, t, i, path)) == PostorderKeysOf(t.children[i..])
    decreases t, 0, |t.children| - i
  {
    var cs := t.children;
    if i < |cs| {
      CompletedKeysAppend(Events(enter, cs[i], path + [i]), ChildEvents(enter, t, i + 1, path));
      EventsCompletePostorder(enter, cs[i], path + [i]);
      ChildEventsCompletePostorder(enter, t, i + 1, path);
      assert cs[i..][0] == cs[i];
      assert cs[i..][1..] == cs[i + 1..];
    } else {
      assert cs[i..] == [];
    }
  }

  // -----------------------------------------------------------------------
  // Index paths, for any choice of the two decisions

  /** The path handed to a callback addresses, from the root, the item
      handed with it; for a completion, the node whose key is handed. */
  ghost predicate Addressed<K, L>(root: Tree<K, L>, e: Event<K, L>)
  {
    match e
    case Entered(p, x) => At(root, p) == Some(x)
    case Completed(p, k) => At(root, p).Some? && At(root, p).value.Node? && At(root, p).value.key == k
  }

  /** The log only grows, and every call it gains carries the path of its
      item within `root`. */
  ghost predicate GrowsAddressed<K, L>(root: Tree<K, L>, log: seq<Event<K, L>>, r: seq<Event<K, L>>)
  {
    |log| <= |r| && r[..|log|] == log && forall j :: |log| <= j < |r| ==> Addressed(root, r[j])
  }

  lemma GrowsAddressedTrans<K, L>(root: Tree<K, L>, a: seq<Event<K, L>>, b: seq<Event<K, L>>, c: seq<Event<K, L>>)
    requires GrowsAddressed(root, a, b) && GrowsAddressed(root, b, c)
    ensures GrowsAddressed(root, a, c)
  {
    assert c[..|a|] == c[..|b|][..|a|];
    forall j | |a| <= j < |c| ensures Addressed(root, c[j]) {
      if j < |b| {
        assert c[j] == c[..|b|][j];
      }
    }
  }

  /** Every call `iterate` makes carries the index path of its item (or
      completed node) from the root, whatever the callbacks decide. */
  lemma {:induction false} WalkAddressesItems<K, L>(
    enter: (seq<nat>, Tree<K, L>) -> bool, cont: (seq<nat>, K) -> bool,
    root: Tree<K, L>, t: Tree<K, L>, path: seq<nat>, log: seq<Event<K, L>>)
    requires At(root, path) == Some(t)
    ensures GrowsAddressed(root, log, Walk(Recorder(enter, cont), t, path, log).0)
    decreases t, 1
  {
    var cb := Recorder(enter, cont);
    var log1 := log + [Entered(path, t)];
    assert log1[..|log|] == log;
    assert GrowsAddressed(root, log, log1);
    if enter(path, t) && t.Node? {
      var (log2, stopped) := WalkChildren(cb, t, 0, path, log1);
      ChildrenAddressItems(enter, cont, root, t, 0, path, log1);
      GrowsAddressedTrans(root, log, log1, log2);
      if !stopped {
        var log3 := log2 + [Completed(path, t.key)];
        assert log3[..|log2|] == log2;
        assert GrowsAddressed(root, log2, log3);
        GrowsAddressedTrans(root, log, log2, log3);
      }
    }
  }

  lemma {:induction false} ChildrenAddressItems<K, L>(
    enter: (seq<nat>, Tree<K, L>) -> bool, cont: (seq<nat>, K) -> bool,
    root: Tree<K, L>, t: Tree<K, L>, i: nat, path: seq<nat>, log: seq<Event<K, L>>)
    requires t.Node? && i <= |t.children|
    requires At(root, path) == Some(t)
    ensures GrowsAddressed(root, log, WalkChildren(Recorder(enter, cont), t, i, path, log).0)
    decreases t, 0, |t.children| - i
  {
    var cb := Recorder(enter, cont);
    if i == |t.children| {
      assert log[..|log|] == log;
    } else {
      AtChild(root, path, i);
      var (log1, stopped) := Walk(cb, t.children[i], path + [i], log);
      WalkAddressesItems(enter, cont, root, t.children[i], path + [i], log);
      if !stopped {
        ChildrenAddressItems(enter, cont, root, t, i + 1, path, log1);
        GrowsAddressedTrans(root, log, log1, WalkChildren(cb, t, i + 1, path, log1).0);
      }
    }
  }

  // -----------------------------------------------------------------------
  // Stopping, for any choice of the two decisions

  /** A completion call that asked to stop iterating. */
  ghost predicate Stops<K, L>(cont: (seq<nat>, K) -> bool, e: Event<K, L>)
  {
    e.Completed? && !cont(e.path, e.key)
  }

  /** The log grows; among the calls it gains, only the last may be a
      completion that asked to stop, and the walk reports itself stopped
      exactly when it is one. */
  ghost predicate StopsOnlyAtEnd<K, L>(cont: (seq<nat>, K) -> bool, log: seq<Event<K, L>>, r: seq<Event<K, L>>, stopped: bool)
  {
    |log| <= |r| && r[..|log|] == log &&
    (forall j :: |log| <= j < |r| - 1 ==> !Stops(cont, r[j])) &&
    (stopped <==> |log| < |r| && Stops(cont, r[|r| - 1]))
  }

  lemma StopsOnlyAtEndTrans<K, L>(cont: (seq<nat>, K) -> bool, a: seq<Event<K, L>>, b: seq<Event<K, L>>, c: seq<Event<K, L>>, stopped: bool)
    requires StopsOnlyAtEnd(cont, a, b, false) && StopsOnlyAtEnd(cont, b, c, stopped)
    ensures StopsOnlyAtEnd(cont, a, c, stopped)
  {
    assert c[..|a|] == c[..|b|][..|a|];
    forall j | |a| <= j < |c| - 1 ensures !Stops(cont, c[j]) {
      if j < |b| {
        assert c[j] == c[..|b|][j] == b[j];
      }
    }
    if |a| < |b| && |b| == |c| {
      assert c == c[..|b|] == b;
    }
  }

  /** Once a completion call asks to stop, `iterate` makes no further call:
      a stopping completion can only be the last call of the walk. */
  lemma {:induction false} WalkStopsOnlyAtEnd<K, L>(
    enter: (seq<nat>, Tree<K, L>) -> bool, cont: (seq<nat>, K) -> bool,
    t: Tree<K, L>, path: seq<nat>, log: seq<Event<K, L>>)
    ensures var (r, stopped) := Walk(Recorder(enter, cont), t, path, log);
      StopsOnlyAtEnd(cont, log, r, stopped) && |log| < |r|
    decreases t, 1
  {
    var cb := Recorder(enter, cont);
    var log1 := log + [Entered(path, t)];
    assert log1[..|log|] == log;
    assert StopsOnlyAtEnd(cont, log, log1, false);
    if enter(path, t) && t.Node? {
      var (log2, stopped) := WalkChildren(cb, t, 0, path, log1);
      ChildrenStopOnlyAtEnd(enter, cont, t, 0, path, log1);
      StopsOnlyAtEndTrans(cont, log, log1, log2, stopped);
      if !stopped {
        var log3 := log2 + [Completed(path, t.key)];
        assert log3[..|log2|] == log2;
        assert StopsOnlyAtEnd(cont, log2, log3, !cont(path, t.key));
        StopsOnlyAtEndTrans(cont, log, log2, log3, !cont(path, t.key));
      }
    }
  }

  lemma {:induction false} ChildrenStopOnlyAtEnd<K, L>(
    enter: (seq<nat>, Tree<K, L>) -> bool, cont: (seq<nat>, K) -> bool,
    t: Tree<K, L>, i: nat, path: seq<nat>, log: seq<Event<K, L>>)
    requires t.Node? && i <= |t.children|
    ensures var (r, stopped) := WalkChildren(Recorder(enter, cont), t, i, path, log);
      StopsOnlyAtEnd(cont, log, r, stopped)
    decreases t, 0, |t.children| - i
  {
    var cb := Recorder(enter, cont);
    if i == |t.children| {
      assert log[..|log|] == log;
    } else {
      var (log1, stopped) := Walk(cb, t.children[i], path + [i], log);
      WalkStopsOnlyAtEnd(enter, cont, t.children[i], path + [i], log);
      if !stopped {
        var (log2, stopped2) := WalkChildren(cb, t, i + 1, path, log1);
        ChildrenStopOnlyAtEnd(enter, cont, t, i + 1, path, log1);
        StopsOnlyAtEndTrans(cont, log, log1, log2, stopped2);
      }
    }
  }
}
