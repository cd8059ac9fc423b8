/**
 * The index-path subscript (SyntaxTree.swift, lines 40-53).
 *
 * As written, the loop body ends in an unconditional `return nil`, so the
 * loop never gets past the first index: the empty path yields the tree
 * itself and every other path yields nil, after the first index has been
 * used on the root's children (which traps when it is out of range).
 * `SubscriptIntended` is the loop with that `return nil` confined to the
 * case where the path runs into a leaf, and is proved to address the
 * subtree `Trees.At` describes.
 */
module Subscripts {
  import opened Trees

  /** The outcome of the subscript as written. */
  function SubscriptAsWritten<K, L>(t: Tree<K, L>, path: seq<int>): Checked<Option<Tree<K, L>>>
  {
    if path == [] then Returned(Some(t))
    else if t.Node? && !(0 <= path[0] < |t.children|) then Trapped
    else Returned(None)
  }

  /** `subscript(_:)` as written. */
  method Subscript<K, L>(t: Tree<K, L>, path: seq<int>) returns (r: Checked<Option<Tree<K, L>>>)
    ensures r == SubscriptAsWritten(t, path)
  {
    var current := t;
    for i := 0 to |path|
      invariant i == 0 && current == t
    {
      if current.Node? {
        if !(0 <= path[i] < |current.children|) {
          return Trapped;
        }
        current := current.children[path[i]];
      }
      return Returned(None);
    }
    return Returned(Some(current));
  }

  /** A one-step path to an existing child yields nil instead of the child. */
  lemma SubscriptMissesChild()
    ensures At(Tree<int, int>.Node(0, [Leaf(1)]), [0]) == Some(Leaf(1))
    ensures SubscriptAsWritten(Tree<int, int>.Node(0, [Leaf(1)]), [0]) == Returned(None)
  {
    var t: Tree<int, int> := Node(0, [Leaf(1)]);
    assert [0][1..] == [];
    assert At(t, [0]) == At(Leaf(1), []);
  }

  /** Following a path in two parts: the second part is followed from the
      subtree the first part addresses. */
  lemma {:induction false} AtAppend<K, L>(t: Tree<K, L>, p: seq<int>, q: seq<int>)
    requires At(t, p).Some?
    ensures InBounds(t, p)
    ensures At(t, p + q) == At(At(t, p).value, q)
    ensures InBounds(t, p + q) == InBounds(At(t, p).value, q)
    decreases |p|
  {
    if p == [] {
      assert p + q == q;
    } else {
      assert (p + q)[0] == p[0];
      assert (p + q)[1..] == p[1..] + q;
      AtAppend(t.children[p[0]], p[1..], q);
    }
  }

  /** `subscript(_:)` with `return nil` only where the path meets a leaf;
      an index out of range still traps, as Swift array indexing does. */
  method SubscriptIntended<K, L>(t: Tree<K, L>, path: seq<int>) returns (r: Checked<Option<Tree<K, L>>>)
    ensures r == if InBounds(t, path) then Returned(At(t, path)) else Trapped
  {
    var current := t;
    for i := 0 to |path|
      invariant At(t, path[..i]) == Some(current)
    {
      AtAppend(t, path[..i], path[i..]);
      assert path[..i] + path[i..] == path;
      assert path[i..][0] == path[i];
      if current.Node? {
        if !(0 <= path[i] < |current.children|) {
          return Trapped;
        }
        AtChild(t, path[..i], path[i]);
        assert path[..i + 1] == path[..i] + [path[i]];
        current := current.children[path[i]];
      } else {
        return Returned(None);
      }
    }
    assert path[..|path|] == path;
    AtAppend(t, path, []);
    assert path + [] == path;
    return Returned(Some(current));
  }
}
