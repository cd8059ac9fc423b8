/**
 * The `==` operator on syntax trees (SyntaxTree.swift, lines 420-441).
 *
 * As written, two nodes compare equal when their keys and child counts
 * match and NOT every pair of children compares equal: the result of
 * `allSatisfy(==)` is negated. The pairwise comparison is the same operator,
 * so the negation applies at every level. `EqualAsWritten` models that code;
 * `Equal` is the comparison the documentation describes, and is proved to
 * be exactly structural equality.
 */
module Equality {
  import opened Trees

  /** `==` as written. */
  function EqualAsWritten<K(==), L(==)>(a: Tree<K, L>, b: Tree<K, L>): bool
  {
    if a.Leaf? && b.Leaf? then a.value == b.value
    else if a.Node? && b.Node? then
      a.key == b.key && |a.children| == |b.children| && !AllPairsAsWritten(a.children, b.children)
    else false
  }

  /** `zip(xs, ys).allSatisfy(==)` with the operator as written; `zip`
      stops at the end of the shorter list. */
  function AllPairsAsWritten<K(==), L(==)>(xs: seq<Tree<K, L>>, ys: seq<Tree<K, L>>): bool
  {
    xs == [] || ys == [] || (EqualAsWritten(xs[0], ys[0]) && AllPairsAsWritten(xs[1..], ys[1..]))
  }

  /** Two identical nodes without children compare unequal: the operator
      is not reflexive. */
  lemma ChildlessNodeUnequalToItself<K, L>(k: K)
    ensures !EqualAsWritten(Tree<K, L>.Node(k, []), Tree<K, L>.Node(k, []))
  {
  }

  /** Two nodes with the same key whose only children are different leaves
      compare equal. */
  lemma DifferentLeavesCompareEqual()
    ensures EqualAsWritten(Tree<int, int>.Node(0, [Leaf(1)]), Tree<int, int>.Node(0, [Leaf(2)]))
    ensures Tree<int, int>.Node(0, [Leaf(1)]) != Tree<int, int>.Node(0, [Leaf(2)])
  {
    var a: seq<Tree<int, int>> := [Leaf(1)];
    var b: seq<Tree<int, int>> := [Leaf(2)];
    assert !EqualAsWritten(a[0], b[0]);
    assert !AllPairsAsWritten(a, b);
  }

  /** The comparison the documentation describes: same structure, equal
      keys in corresponding nodes and equal leaves. */
  function Equal<K(==), L(==)>(a: Tree<K, L>, b: Tree<K, L>): bool
  {
    if a.Leaf? && b.Leaf? then a.value == b.value
    else if a.Node? && b.Node? then
      a.key == b.key && |a.children| == |b.children| && AllPairs(a.children, b.children)
    else false
  }

  function AllPairs<K(==), L(==)>(xs: seq<Tree<K, L>>, ys: seq<Tree<K, L>>): bool
  {
    xs == [] || ys == [] || (Equal(xs[0], ys[0]) && AllPairs(xs[1..], ys[1..]))
  }

  /** The corrected operator holds exactly for equal trees. */
  lemma {:induction false} EqualIsEquality<K, L>(a: Tree<K, L>, b: Tree<K, L>)
    ensures Equal(a, b) <==> a == b
  {
    if a.Node? && b.Node? && |a.children| == |b.children| {
      AllPairsIsEquality(a.children, b.children);
    }
  }

  lemma {:induction false} AllPairsIsEquality<K, L>(xs: seq<Tree<K, L>>, ys: seq<Tree<K, L>>)
    requires |xs| == |ys|
    ensures AllPairs(xs, ys) <==> xs == ys
  {
    if xs != [] {
      EqualIsEquality(xs[0], ys[0]);
      AllPairsIsEquality(xs[1..], ys[1..]);
      assert xs == [xs[0]] + xs[1..];
      assert ys == [ys[0]] + ys[1..];
      if xs == ys {
        assert xs[1..] == ys[1..];
      }
    }
  }
}
