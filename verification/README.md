# codeflow core in Dafny

This project models two pieces of the codeflow IntelliJ plugin. The plugin draws the
Spring component graph of a Java code base.

- **`Node`** (module `Nodes`, file `nodes.dfy`) is a graph node. It has a name, a fully
  qualified name, eight role flags, the list of nodes that reference it (`referencedFrom`)
  and the list of nodes it inherits from (`inheritsFrom`). The model covers its constructor,
  the three factories `newComponent`, `newClass` and `newTestClass`, and the append-once
  insertion `referencedFrom(Node)`. Nodes live in an arena and are referred to by `NodeId`,
  their index there. The Java class has no `equals` of its own, so `List.contains` compares
  object references. Distinct ids are therefore distinct referrers even when every field of
  the two nodes agrees.
- **The marker closure** (module `MarkerClosure`, file `marker_closure.dfy`) is
  `SearchAction.findAllComponentAnnotations`. It is a breadth-first walk seeded with the root
  marker `org.springframework.stereotype.Component`. Each step dequeues an annotation and
  appends it to the result. It then enqueues every search result for that annotation that is
  both a compiled class and an annotation type. The symbol index is a parameter, `Index`:
  - `targets` stands in for the annotation-targets search;
  - `isCompiledClass` stands in for the `ClsClassImpl` test;
  - `isAnnotationType` stands in for the annotation-type test on the stub.

  Breadth-first order is defined on its own, level by level, as `Levels`. The first level is
  the root. Each next level is everything the previous level enqueues, in enqueue order. The
  method is proved to return exactly this order. `Tree` counts the paths from the root in the
  graph of filtered search results, one per path end.

  The walk keeps no visited set. Duplicates stay in the result, and an endless chain of
  filtered search results from the root keeps the queue from ever emptying: a cycle reachable
  from the root, or, in an infinite index, an endless descent. The model has no memory bound,
  so "diverges" below means exactly that the queue never empties; the JVM would end such a walk
  with an `OutOfMemoryError`, since the result list grows by one element per iteration. Cycles the walk never reaches do not matter.
  The JDK's own meta-annotations such as `@Retention` mark themselves, so such cycles exist in
  every real index. The method is therefore proved under a termination hypothesis relative to
  the root, `RankedFrom`. It uses a rank in which 0 stands for "never searched by the walk":
  - the root ranks above 0;
  - every filtered search result of an annotation ranked above 0 ranks above 0, and strictly
    below that annotation.

  Annotations of rank 0 are unconstrained (`UnreachableSelfMarkerAllowed`). The walk does not
  check this hypothesis; it is an assumption. The level order and the path count are taken in
  `Cut`, the index with the searches of rank-0 annotations emptied. That index is ranked
  everywhere (`Ranked`), and `RunCut` shows that the walk from the root cannot tell it from the
  real index. The lemmas that require `Ranked` are applied to `Cut` only; no real index is
  ranked everywhere.

  `Run` is the loop cut off after `fuel` iterations.
  - `EndlessChainDiverges` shows that an endless chain from the root never empties the queue.
  - `ReachableCycleDiverges` shows the same for a reachable cycle, given as a "lasso": a path
    from the root whose last element marks an element on it.
  - `SuccessorChainDiverges` exhibits an endless chain without any cycle: the integers, each
    marking its successor.
  - `RankedFromHasNoLasso` shows that the termination hypothesis rules out every reachable
    cycle.
  - Under the hypothesis, `RankedWalkEnds` shows that `Run` empties the queue after one
    iteration per path from the root.

  For a finite index the two cases cover everything: either the part reachable from the root
  has a cycle and the queue never empties, or it is acyclic, and a rank satisfying `RankedFrom`
  exists (one plus the longest path onward). That case split itself is not proved.

The model follows the code, which behaves as follows:

- The code keeps no visited set, so an annotation reached along several paths is collected
  once per path.
- The code does not return an empty result for a missing root marker. It seeds the queue
  with whatever the class lookup returned.
- The code keeps only compiled annotation types (`ClsClassImpl`). Annotation types declared
  in the project's own sources are never enqueued.

## Model

| member | source | states |
|---|---|---|
| Nodes.Construct | src/main/java/com/raja/codelfow/Node.java:25-49 | every node starts with `pubsub` false and an empty `inheritsFrom` whatever the arguments; its roles are exactly the flags passed; name, full name and referrer list are kept as given |
| Nodes.NewComponent | src/main/java/com/raja/codelfow/Node.java:51-62 | keeps name and full name; the only role is component; both lists are empty |
| Nodes.NewClass | src/main/java/com/raja/codelfow/Node.java:64-75 | keeps name and full name; no role at all; both lists are empty |
| Nodes.NewTestClass | src/main/java/com/raja/codelfow/Node.java:77-88 | keeps name and full name; the only role is test; both lists are empty |
| Nodes.FactoriesDifferInOneFlag | src/main/java/com/raja/codelfow/Node.java:51-88 | `newClass` is `newComponent` with the component flag cleared; `newTestClass` is `newClass` with the test flag set; the three factories give different nodes |
| Nodes.AddReferrer | src/main/java/com/raja/codelfow/Node.java:90-94 | afterwards `x` is a referrer; a present `x` leaves the node unchanged; an absent `x` is appended at the end; no other field and no role changes; a duplicate-free list stays duplicate-free |
| Nodes.AddReferrerIdempotent | src/main/java/com/raja/codelfow/Node.java:90-94 | adding the same referrer twice equals adding it once |
| Nodes.AddReferrerElements | src/main/java/com/raja/codelfow/Node.java:90-94 | seen as a set, the referrers grow by exactly `x` |
| Nodes.Link | src/main/java/com/raja/codelfow/Node.java:90-94 | in the arena, only the receiving node is updated; every other node is left unchanged |
| Nodes.IdentityNotEquality | src/main/java/com/raja/codelfow/Node.java:91-92 | two distinct nodes with equal fields are both recorded as referrers, because membership is by identity (true of any two distinct ids; it documents the choice of ids for identity) |
| Nodes.AddReferrers | src/main/java/com/raja/codelfow/Node.java:90-94 | after a series of insertions, the old list is a prefix of the new one; the referrers are exactly the old ones plus the added ones; no other field changes; duplicate-freedom is kept |
| Nodes.AddPresentReferrers | src/main/java/com/raja/codelfow/Node.java:91-93 | inserting only referrers that are already present changes nothing |
| Nodes.AddReferrersIdempotent | src/main/java/com/raja/codelfow/Node.java:91-93 | repeating a whole batch of insertions is idempotent |
| Nodes.FactoryNodesStayDuplicateFree | src/main/java/com/raja/codelfow/Node.java:51-94 | a node from any of the three factories, after any insertions, has a duplicate-free referrer list holding exactly the inserted ids, and keeps its factory roles (component, none, test) |
| MarkerClosure.Init | src/main/java/com/raja/codelfow/SearchAction.java:56-58 | the result starts empty and the queue holds exactly the root marker |
| MarkerClosure.TwoFiltersAreOne | src/main/java/com/raja/codelfow/SearchAction.java:65-66 | the two stream filters in turn (compiled class, then annotation type on what survives) keep exactly what the single test `Passes` keeps, in the same order |
| MarkerClosure.KeepAppend | src/main/java/com/raja/codelfow/SearchAction.java:65-66 | one stream filter applied to two concatenated streams is the concatenation of the filtered streams |
| MarkerClosure.Filter | src/main/java/com/raja/codelfow/SearchAction.java:63-67 | a search result is enqueued exactly when it is a compiled class and an annotation type |
| MarkerClosure.Children | src/main/java/com/raja/codelfow/SearchAction.java:63-67 | what one annotation enqueues is `Filter` applied to its search results, in search order: exactly the results that pass both tests, and no more of them than the search returned |
| MarkerClosure.FilterCounts | src/main/java/com/raja/codelfow/SearchAction.java:63-67 | the filter keeps every occurrence of a passing result, so duplicates in the search survive it |
| MarkerClosure.Enqueued | src/main/java/com/raja/codelfow/SearchAction.java:63-67 | nothing that fails the filter is ever enqueued |
| MarkerClosure.CutChildren | src/main/java/com/raja/codelfow/SearchAction.java:63-67 | emptying the searches of rank-0 annotations leaves the filter unchanged, and every search of rank above 0 yields the same filtered results |
| MarkerClosure.CutRanked | src/main/java/com/raja/codelfow/SearchAction.java:60-68 | under the hypothesis relative to the root, the cut index is ranked everywhere, so the walk over it is well founded |
| MarkerClosure.StepInside | src/main/java/com/raja/codelfow/SearchAction.java:61-67 | while every queued element ranks above 0, an iteration on the real index equals one on the cut index, and every queued element still ranks above 0 |
| MarkerClosure.UnreachableSelfMarkerAllowed | src/main/java/com/raja/codelfow/SearchAction.java:60-68 | an annotation that marks itself but is not reachable from the root leaves the hypothesis relative to the root satisfiable although no rank orders the whole index, and the walk from the root ends after one iteration |
| MarkerClosure.SelfMarkerUnranked | src/main/java/com/raja/codelfow/SearchAction.java:60-68 | an annotation that passes the filter and marks itself rules out any rank of the whole index in which every filtered search result ranks below the annotation it came from |
| MarkerClosure.Step | src/main/java/com/raja/codelfow/SearchAction.java:61-67 | one iteration collects the head of the queue and appends its filtered targets at the back; nothing already queued is reordered |
| MarkerClosure.StepAdvancesLevel | src/main/java/com/raja/codelfow/SearchAction.java:61-67 | an iteration removes exactly the head of the queue and keeps the rest of the current level in order behind what was collected |
| MarkerClosure.StepExtendsNextLevel | src/main/java/com/raja/codelfow/SearchAction.java:61-67 | an iteration puts the head's filtered targets behind everything already queued, so the next level grows in enqueue order |
| MarkerClosure.StepKeepsLevelOrder | src/main/java/com/raja/codelfow/SearchAction.java:60-68 | within one level, an iteration keeps the walk on the level order from the root |
| MarkerClosure.StartLevel | src/main/java/com/raja/codelfow/SearchAction.java:60-68 | once the current level is used up, the whole queue is the next level |
| MarkerClosure.StepMovesOnePath | src/main/java/com/raja/codelfow/SearchAction.java:60-68 | each iteration moves exactly one root path from the queue to the result, so in an index ranked everywhere (applied to `Cut`) the loop ends |
| MarkerClosure.StepKeepsTraced | src/main/java/com/raja/codelfow/SearchAction.java:61-67 | every queued or collected element after the root was enqueued by an element collected before it |
| MarkerClosure.RepeatedChildCountsTwice | src/main/java/com/raja/codelfow/SearchAction.java:63-67 | an annotation that occurs twice among one annotation's filtered targets is reached along two paths; nothing is deduplicated |
| MarkerClosure.LevelsAreFirstThenEnqueued | src/main/java/com/raja/codelfow/SearchAction.java:60-68 | breadth-first order is its first level followed by everything its elements enqueue, in enqueue order; with the root as first level, the result has length one plus the number of enqueues |
| MarkerClosure.LevelsPass | src/main/java/com/raja/codelfow/SearchAction.java:63-67 | everything after the first level passed the annotation-type filter |
| MarkerClosure.FinishedWalk | src/main/java/com/raja/codelfow/SearchAction.java:60-70 | once the queue is empty, the result starts with the root, equals the level order from the root, and holds one occurrence per path from the root |
| MarkerClosure.TracedParents | src/main/java/com/raja/codelfow/SearchAction.java:61-67 | every result element after the root is a filtered target of an element earlier in the result |
| MarkerClosure.FindAllComponentAnnotations | src/main/java/com/raja/codelfow/SearchAction.java:54-71 | under the termination hypothesis relative to the root: the result's first element is the root; the result equals the level order from the root, so the FIFO queue gives breadth-first order; every later element passes the filter and is a target of an earlier element; each annotation occurs once per path from the root |
| MarkerClosure.RootThenEnqueued | src/main/java/com/raja/codelfow/SearchAction.java:54-71 | under the hypothesis relative to the root, the level order is the root followed by exactly what the real index enqueues while its elements are processed: every enqueued annotation is collected, and the result has one element more than there were enqueues |
| MarkerClosure.EnqueuedCutInside | src/main/java/com/raja/codelfow/SearchAction.java:60-68 | under the hypothesis relative to the root, everything the cut index enqueues, for any sequence of processed annotations, ranks above 0, that is, lies inside the walk |
| MarkerClosure.EnqueuedCut | src/main/java/com/raja/codelfow/SearchAction.java:60-68 | for elements all inside the walk, the cut index enqueues exactly what the real index enqueues, in the same order |
| MarkerClosure.CutWitnesses | src/main/java/com/raja/codelfow/SearchAction.java:63-67 | filter results and enqueuing parents found in the cut index are filter results and parents in the real index |
| MarkerClosure.Run | src/main/java/com/raja/codelfow/SearchAction.java:60-68 | iterating the loop only extends the result, by at most one element per iteration |
| MarkerClosure.StepReachable | src/main/java/com/raja/codelfow/SearchAction.java:60-68 | from any state of the walk, one iteration leads to a state of the walk with one root path fewer in the queue |
| MarkerClosure.ReachableDone | src/main/java/com/raja/codelfow/SearchAction.java:60-70 | a state of the walk whose queue is empty holds exactly the level order from the root |
| MarkerClosure.RunEmptiesQueue | src/main/java/com/raja/codelfow/SearchAction.java:60-68 | in an index ranked everywhere (applied to `Cut`), as many iterations as there are root paths in the queue empty it |
| MarkerClosure.RunStaysReachable | src/main/java/com/raja/codelfow/SearchAction.java:60-68 | any number of iterations from a state of the walk stays a state of the walk |
| MarkerClosure.RunCut | src/main/java/com/raja/codelfow/SearchAction.java:60-68 | while every queued element ranks above 0, running the loop on the real index and on the cut index gives the same state for every number of iterations |
| MarkerClosure.RankedWalkEnds | src/main/java/com/raja/codelfow/SearchAction.java:54-71 | under the termination hypothesis relative to the root, the loop on the real index stops after one iteration per path from the root, and what it collected is the level order from the root |
| MarkerClosure.LassoKeepsQueue | src/main/java/com/raja/codelfow/SearchAction.java:60-68 | once any element of a path that closes into a cycle is queued, the queue never empties and each iteration collects one more element |
| MarkerClosure.ReachableCycleDiverges | src/main/java/com/raja/codelfow/SearchAction.java:60-68 | a cycle reachable from the root marker through filtered search results keeps the queue non-empty after any number of iterations |
| MarkerClosure.ChainKeepsQueue | src/main/java/com/raja/codelfow/SearchAction.java:60-68 | once an element of an endless chain of filtered search results is queued, the queue never empties and each iteration collects one more element |
| MarkerClosure.EndlessChainDiverges | src/main/java/com/raja/codelfow/SearchAction.java:60-68 | an endless chain of filtered search results from the root marker, cyclic or not, keeps the queue non-empty after any number of iterations |
| MarkerClosure.SuccessorChainDiverges | src/main/java/com/raja/codelfow/SearchAction.java:60-68 | with each integer marking its successor there is no cycle (no lasso exists), yet no rank satisfies the hypothesis from 0 and the queue is non-empty after any number of iterations |
| MarkerClosure.SuccessorHasNoLasso | src/main/java/com/raja/codelfow/SearchAction.java:60-68 | when every integer's only search result is its successor, no path from any start closes into a cycle |
| MarkerClosure.SuccessorPath | src/main/java/com/raja/codelfow/SearchAction.java:60-68 | along any path of filtered search results in that index, the j-th element is the start plus j |
| MarkerClosure.PathDescends | src/main/java/com/raja/codelfow/SearchAction.java:60-68 | along filtered search results from an annotation ranked above 0, ranks stay above 0 and fall by at least one per step |
| MarkerClosure.RankedFromHasNoLasso | src/main/java/com/raja/codelfow/SearchAction.java:60-68 | the termination hypothesis rules out every cycle reachable from the root; it is `RankedWalkEnds` that shows the loop ends under it |
| MarkerClosure.SelfMarkedRootDiverges | src/main/java/com/raja/codelfow/SearchAction.java:60-68 | with a root marker annotated with itself, the queue is non-empty after any number of iterations |

## Left out

- `SearchAction.actionPerformed`: it only prints to standard output. It walks the marker
  closure, the annotated classes and the classes that reference them, and prints the
  referencing classes deduplicated per annotated class. Those searches run over IDE program
  structure objects that are not part of this model.
- `SearchAction.update`: editor and caret enablement of the menu action (user interface).
- The IDE services themselves (class lookup, annotation-targets search, reference search,
  compiled-class stubs): they appear only as the `Index` parameter.
- The missing root marker: the class lookup can return null, and the code then passes null
  into the search rather than returning an empty result. The model takes a root and does not
  claim anything for its absence.
- MarkerClosure.FindAllComponentAnnotations: proved only under the `RankedFrom` hypothesis,
  that is, when the part of the index reachable from the root is finite and acyclic. For an
  endless chain from the root the queue never empties, which `EndlessChainDiverges` states
  instead. The converse of `RankedWalkEnds` is not proved: that every index on which the loop
  ends admits a rank satisfying `RankedFrom`.
- Memory and `int` size bounds: `components` and `queue` are unbounded sequences. Where the
  model shows that the queue never empties, the JVM would instead end the walk with an
  `OutOfMemoryError` once the result list no longer fits; the model does not state that.
- Aliasing of referrer lists: the constructor keeps the caller's list object, not a copy.
  `referencedFrom(x)` therefore also changes the caller's list, and every other node built on
  that same list. The Lombok getter and setter also hand out the live list, so outside code
  can add duplicates without going through `referencedFrom`. The model holds each list by
  value. Its duplicate-freedom result only says that `referencedFrom` itself never adds a
  duplicate.
- The Lombok-generated getters and setters: these are plain field reads and updates of the
  datatype.
- Null strings and null list arguments to the constructor are not modelled.
- Role classification, reference-graph assembly, entry-point marking, edge styling and
  test/config elision are not part of this model.
