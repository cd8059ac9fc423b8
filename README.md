# Covfefe syntax trees in Dafny

This project models the parse-tree algebra of the Covfefe context-free-grammar
toolkit, `Sources/Covfefe/SyntaxTree.swift`. The parser's raw output is shaped
by Chomsky normal form; the algebra turns it back into a readable tree. A
`SyntaxTree<Element, LeafElement>` is either a leaf carrying a leaf element or
a node carrying a key and an ordered list of subtrees. Here it is
`Trees.Tree<K, L> = Leaf(value) | Node(key, children)`.

Every operation of the tree algebra (everything except the two description
properties, see "## Left out") is modelled in the form the source gives it:

- **The explicit-stack loops are methods with `while` loops.** These are
  `iterate` (a frame stack plus an index path) and `explode` (a stack of result
  and under-way frames plus `lastResult`).
  - Each loop is proved equal to a recursive reference definition
    (`Traversal.Walk`, `Explosion.Exploded`).
  - The loop invariant says that finishing the frames left on the stack
    produces the reference result.
  - A weighted stack size shows that each loop terminates.
- **The closures that `iterate` calls are total functions.** Swift closures
  capture and mutate local variables. Here each closure receives that captured
  state as an argument and returns the new state together with its decision:
  enter this subtree, or keep iterating.
  - `reduce`, `leafs` and `allNodes` thread their accumulator this way.
  - `map`, `mapLeafs`, `filter`, `filterLeafs` and `compressed` thread their
    `trees` stack of child lists this way. `map` also threads its `mapped`
    stack of transformed keys.
- **Each rebuilding method is proved equal to a structural definition**
  (module `Rewrites`). That proof also shows that the forced unwraps
  `trees.first!.first!` and `popLast()!` can never fail. Any array access
  that would trap is recorded in a `trapped` flag, and the flag is proved to
  stay false.
- **The expressions are functions:** the initialisers, the accessors and
  `==`. The index-path subscript is a short `for` loop and is a method.

Two operations do not do what they evidently intend. `==` does not do what
its doc comment (Sources/Covfefe/SyntaxTree.swift:420-429) says: that comment
promises structural equality, and the code at line 436 does not deliver it.
The subscript (lines 43-53, which has no doc comment) returns nil for every
non-empty path whose first index does not trap (an index out of range of a
root node's children traps), which its loop evidently does not intend. Each is modelled as
written, a counterexample is proved, and a corrected version is proved
correct; see "## Findings". The rest of the model follows the code.

## Model

| member | source | states |
|---|---|---|
| Trees.NodeWith | Sources/Covfefe/SyntaxTree.swift:450-452 | the node built by `init(key:children:)` has that root key and those children, and no leaf value |
| Trees.NodeWithKey | Sources/Covfefe/SyntaxTree.swift:457-459 | `init(key:)` builds a node with that key and no children |
| Trees.LeafWith | Sources/Covfefe/SyntaxTree.swift:464-466 | `init(value:)` builds a leaf with that value, with no root key and no children |
| Trees.EmptyTree | Sources/Covfefe/SyntaxTree.swift:471-473 | `init()` builds the leaf holding `()` |
| Trees.AccessorsDetermineTree | Sources/Covfefe/SyntaxTree.swift:479-503 | exactly one of `root` and `leaf` is present; `children` is present exactly when `root` is; together they rebuild the tree |
| Traversal.Iterate | Sources/Covfefe/SyntaxTree.swift:61-104 | the explicit-stack loop leaves the captured state exactly as the recursive walk `Walk` does, for any callbacks |
| IterationFacts.WalkRecordsEvents | Sources/Covfefe/SyntaxTree.swift:61-104 | with no completion asking to stop, the calls are: each item on arrival; for an entered node only, its children's calls left to right, then its completion; a declined item gets no further call, for itself or its descendants; the walk reports it was not stopped |
| IterationFacts.EventsEnterPreorder | Sources/Covfefe/SyntaxTree.swift:68-78 | a walk that enters everything hands every subtree to `nextSubtree` exactly once, in pre-order |
| IterationFacts.EventsCompletePostorder | Sources/Covfefe/SyntaxTree.swift:80-96 | a walk that enters everything completes every node exactly once, in post-order, so each node after all of its children |
| IterationFacts.WalkAddressesItems | Sources/Covfefe/SyntaxTree.swift:68-96 | for any enter/continue decisions, the index path passed with each item (and with each completed key) addresses that item (that node) from the root |
| IterationFacts.WalkStopsOnlyAtEnd | Sources/Covfefe/SyntaxTree.swift:84-88 | once a completion sets `continueIterating` to false, no further callback is made, and the walk reports itself stopped exactly then |
| Explosion.Explode | Sources/Covfefe/SyntaxTree.swift:119-167 | the frame-stack loop returns exactly the reference forest `Exploded`, and `lastResult!` never fails |
| Explosion.OpenedResumes | Sources/Covfefe/SyntaxTree.swift:123-130 | pushing the frame `appendNew` builds for a tree and running it to the end yields that tree's exploded forest as the last result |
| Explosion.Resolve | Sources/Covfefe/SyntaxTree.swift:132-153 | one `resolve` step keeps the frames valid, preserves what the stack will produce and shrinks the stack's weight |
| Explosion.ExplodeWithoutMatchIsIdentity | Sources/Covfefe/SyntaxTree.swift:119-167 | if no node key satisfies the predicate, `explode` returns `[self]` unchanged |
| Explosion.ExplodeLeavesNothingToExplode | Sources/Covfefe/SyntaxTree.swift:119-167 | no node of the result has a key satisfying the predicate |
| Explosion.ExplodePreservesLeaves | Sources/Covfefe/SyntaxTree.swift:119-167 | the leaves of the resulting forest, concatenated, are the leaves of the tree in order |
| Explosion.ExplodeEverythingFlattens | Sources/Covfefe/SyntaxTree.swift:119-167 | with a predicate that accepts every key, the result is one single-leaf tree per leaf value, in order |
| Folds.Reduce | Sources/Covfefe/SyntaxTree.swift:172-180 | `reduce` returns the pre-order fold `Fold`, in which declining to descend skips that item's subtree only |
| Folds.DeclineSkipsOnlySubtree | Sources/Covfefe/SyntaxTree.swift:172-180 | a counter that declines at node 1 of node 0 [node 1 [leaf a], leaf b] counts 3 items: setting `shouldContinue` to false does not stop the whole traversal |
| Folds.FoldVisitsPreorder | Sources/Covfefe/SyntaxTree.swift:172-180 | when `next` never declines, `reduce` is a left fold over every subtree in pre-order |
| Folds.Leafs | Sources/Covfefe/SyntaxTree.swift:232-238 | `leafs` is every leaf value, left to right |
| Folds.AllNodes | Sources/Covfefe/SyntaxTree.swift:322-328 | `allNodes(where:)` is the subtrees in pre-order that are nodes with a key satisfying the predicate |
| Folds.MatchingKeys | Sources/Covfefe/SyntaxTree.swift:322-328 | the keys of the returned nodes are exactly the tree's keys that satisfy the predicate, in pre-order |
| Folds.NodesWhereMatch | Sources/Covfefe/SyntaxTree.swift:322-328 | every returned tree is a node, never a leaf, and its key satisfies the predicate |
| Rewrites.MapKeysKeepsLeavesMapsKeys | Sources/Covfefe/SyntaxTree.swift:186-206 | `map` keeps the shape and every leaf value, and replaces each key by its image, key for key in pre-order |
| Rewrites.MapKeysCompose | Sources/Covfefe/SyntaxTree.swift:186-206 | mapping by `f` and then by `g` is mapping once by their composition |
| Rewrites.MapLeavesKeepsKeysMapsLeaves | Sources/Covfefe/SyntaxTree.swift:212-229 | `mapLeafs` keeps the shape and every key, and replaces each leaf value by its image, in left-to-right order |
| Rewrites.FilterNodesKeepsPassingKeys | Sources/Covfefe/SyntaxTree.swift:244-263 | `filter` returns nil exactly when the root is a node failing the predicate; every key of a result satisfies it |
| Rewrites.FilterNodesIdentity | Sources/Covfefe/SyntaxTree.swift:244-263 | a tree whose keys all pass comes back unchanged, with all its leaves |
| Rewrites.FilterNodesIdempotent | Sources/Covfefe/SyntaxTree.swift:244-263 | filtering the result again changes nothing |
| Rewrites.FilterLeavesKeepsKeysFiltersLeaves | Sources/Covfefe/SyntaxTree.swift:269-288 | `filterLeafs` returns nil exactly when the root is a leaf failing the predicate; the leaves left are exactly the passing ones in order; every key is kept in order |
| Rewrites.CompressKeepsLeavesRemovesUnary | Sources/Covfefe/SyntaxTree.swift:294-315 | `compressed` keeps the leaf sequence and leaves no node with exactly one child |
| Rewrites.CompressIdentity | Sources/Covfefe/SyntaxTree.swift:294-315 | a tree without single-child nodes is returned unchanged |
| Rewrites.CompressIdempotent | Sources/Covfefe/SyntaxTree.swift:294-315 | compressing twice equals compressing once |
| Builders.Map | Sources/Covfefe/SyntaxTree.swift:186-206 | the closures over `mapped` and `trees` rebuild exactly `MapKeys`, and both forced unwraps succeed |
| Builders.WalkMaps | Sources/Covfefe/SyntaxTree.swift:190-203 | walking a subtree with `map`'s closures appends its mapped copy to the top child list and leaves `mapped` and the rest of `trees` as they were |
| Builders.MapLeafs | Sources/Covfefe/SyntaxTree.swift:212-229 | the closures over `trees` rebuild exactly `MapLeaves`, and both forced unwraps succeed |
| Builders.WalkBuilds | Sources/Covfefe/SyntaxTree.swift:215-226 | walking a subtree with the builder closures appends what the subtree builds to the top child list, never traps and is never stopped |
| Builders.Filter | Sources/Covfefe/SyntaxTree.swift:244-263 | the closures, which decline to enter failing nodes, rebuild exactly `FilterNodes`; `trees.first!` succeeds |
| Builders.FilterLeafs | Sources/Covfefe/SyntaxTree.swift:269-288 | the closures, which skip failing leaves, rebuild exactly `FilterLeaves`; `trees.first!` succeeds |
| Builders.Compressed | Sources/Covfefe/SyntaxTree.swift:294-315 | the closures, which append a lone child in place of its parent, rebuild exactly `Compress`, and both forced unwraps succeed |
| Equality.ChildlessNodeUnequalToItself | Sources/Covfefe/SyntaxTree.swift:430-441 | `Equality.EqualAsWritten`, the model of `==` as written, is false for a childless node compared with itself |
| Equality.DifferentLeavesCompareEqual | Sources/Covfefe/SyntaxTree.swift:430-441 | `Equality.EqualAsWritten`, the model of `==` as written, is true for two different nodes whose only children are different leaves |
| Equality.EqualIsEquality | Sources/Covfefe/SyntaxTree.swift:420-441 | the corrected operator holds exactly when the two trees are equal |
| Subscripts.Subscript | Sources/Covfefe/SyntaxTree.swift:43-53 | as written: the empty path yields the tree; a first index out of range of the root's children traps; every other path yields nil |
| Subscripts.SubscriptMissesChild | Sources/Covfefe/SyntaxTree.swift:43-53 | the path [0] into node 0 [leaf 1] addresses leaf 1, yet the subscript as written yields nil |
| Subscripts.SubscriptIntended | Sources/Covfefe/SyntaxTree.swift:43-53 | with `return nil` only where the path meets a leaf, the subscript yields the addressed subtree, or nil when the path runs past a leaf, and traps exactly when an index is out of range of a node's children |

## Left out

- `debugDescription` and `description` (Sources/Covfefe/SyntaxTree.swift:331-418) are left out. They format strings and Graphviz output with Foundation string functions and `literalEscaped`, and `literalEscaped` is not part of this model.
- `throws`/`rethrows` are not modelled. Every callback, transform and predicate is a total function that cannot throw, so error propagation out of `iterate` and the operations built on it is absent.
- Builders.Map: does not state that `transform` is called once per node in pre-order. Transforms are pure functions here, so the number and order of their calls cannot be observed. The same holds for the predicates of `filter`, `filterLeafs`, `explode` and `allNodes`.
- Rewrites.FilterNodesKeepsPassingKeys: "leaves are never tested" is not a separate contract. `FilterNodes` never applies the predicate to a leaf value, and the predicate's type is over keys only.
- `Int` is unbounded here. Index paths handed to callbacks are natural numbers, and subscript paths are unbounded integers. Swift's 64-bit `Int` and array memory limits are not modelled.
- Value semantics are modelled as Dafny sequences and datatypes. The copying of Swift arrays held in enum frames is not modelled.
- The grammar normalisation and the CYK parser, which produce the trees this algebra rewrites, are not part of this model. The same goes for the XCTest files that exercise them.

## Findings

| source | as written | input that shows it | evidently intended | confidence | as-written member | corrected member |
|---|---|---|---|---|---|---|
| Sources/Covfefe/SyntaxTree.swift:436 | two nodes compare equal when keys and child counts match and NOT all child pairs compare equal (`!zip(...).allSatisfy(==)`), recursively | `node(k, [])` compared with itself gives false; `node(0, [leaf 1])` compared with `node(0, [leaf 2])` gives true | structural equality, as the doc comment at lines 420-429 says | not executed | Equality.EqualAsWritten, Equality.ChildlessNodeUnequalToItself, Equality.DifferentLeavesCompareEqual | Equality.Equal, Equality.EqualIsEquality |
| Sources/Covfefe/SyntaxTree.swift:49 | `return nil` ends the first loop iteration whenever `children[index]` does not trap, so every non-empty path yields nil or traps | node 0 [leaf 1] with path [0] gives nil instead of leaf 1 | follow each index into the current node's children and return nil only when the path runs into a leaf | not executed | Subscripts.Subscript, Subscripts.SubscriptMissesChild | Subscripts.SubscriptIntended |
