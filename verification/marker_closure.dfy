/** The marker-annotation closure: a breadth-first walk that starts at the
    root component marker and collects every annotation type annotated,
    directly or through other such annotation types, by it.

    The symbol index is abstracted as an `Index`: a search giving the
    elements annotated with a given annotation, and the two tests the
    walk applies to what the search returns. There is no visited set, so
    an annotation reached along k paths is collected k times, and a cycle
    reachable from the root keeps the queue from ever emptying. The method
    below is therefore proved under a termination hypothesis, `RankedFrom`,
    which is an assumption about the part of the index reachable from the
    root and not something the walk checks.
 */
module MarkerClosure {

  /** What the walk asks of the symbol index. */
  datatype Index<!A> = Index(
    /** The elements annotated with the given annotation, in search order. */
    targets: A -> seq<A>,
    /** Whether an element is a class read from compiled code. */
    isCompiledClass: A -> bool,
    /** Whether a compiled class is an annotation type. */
    isAnnotationType: A -> bool
  )

  /** The filter applied to search results before they are enqueued. */
  predicate Passes<A>(ix: Index<A>, t: A)
  {
    ix.isCompiledClass(t) && ix.isAnnotationType(t)
  }

  /** The search results that pass the filter, in search order. */
  function Filter<A(!new)>(ix: Index<A>, s: seq<A>): (r: seq<A>)
    ensures forall t :: t in r <==> t in s && Passes(ix, t)
    ensures |r| <= |s|
  {
    if s == [] then []
    else (if Passes(ix, s[0]) then [s[0]] else []) + Filter(ix, s[1..])
  }

  /** The filter keeps every occurrence of what passes and nothing else:
      duplicates in the search results survive it. */
  lemma {:induction false} FilterCounts<A(!new)>(ix: Index<A>, s: seq<A>, t: A)
    ensures multiset(Filter(ix, s))[t] == if Passes(ix, t) then multiset(s)[t] else 0
  {
    if s != [] {
      assert s == [s[0]] + s[1..];
      FilterCounts(ix, s[1..], t);
    }
  }

  /** The elements of `s` satisfying `p`, in order: one stream filter. */
  function Keep<A>(p: A -> bool, s: seq<A>): seq<A>
  {
    if s == [] then [] else (if p(s[0]) then [s[0]] else []) + Keep(p, s[1..])
  }

  /** The two stream filters in turn, first the compiled-class test and then
      the annotation-type test on what survives it, keep exactly what the
      single filter keeps, in the same order. */
  lemma {:induction false} TwoFiltersAreOne<A(!new)>(ix: Index<A>, s: seq<A>)
    ensures Keep(ix.isAnnotationType, Keep(ix.isCompiledClass, s)) == Filter(ix, s)
  {
    if s != [] {
      TwoFiltersAreOne(ix, s[1..]);
      KeepAppend(ix.isAnnotationType, if ix.isCompiledClass(s[0]) then [s[0]] else [], Keep(ix.isCompiledClass, s[1..]));
    }
  }

  /** One stream filter distributes over concatenation. */
  lemma {:induction false} KeepAppend<A>(p: A -> bool, u: seq<A>, v: seq<A>)
    ensures Keep(p, u + v) == Keep(p, u) + Keep(p, v)
    decreases |u|
  {
    if u != [] {
      assert (u + v)[0] == u[0] && (u + v)[1..] == u[1..] + v;
      KeepAppend(p, u[1..], v);
      var h := if p(u[0]) then [u[0]] else [];
      assert Keep(p, u + v) == h + (Keep(p, u[1..]) + Keep(p, v));
      assert h + (Keep(p, u[1..]) + Keep(p, v)) == (h + Keep(p, u[1..])) + Keep(p, v);
      assert Keep(p, u) == h + Keep(p, u[1..]);
    } else {
      assert u + v == v;
    }
  }

  /** What processing annotation `a` appends to the queue. */
  function Children<A(!new)>(ix: Index<A>, a: A): (r: seq<A>)
    ensures forall t :: t in r <==> t in ix.targets(a) && Passes(ix, t)
    ensures |r| <= |ix.targets(a)|
  {
    Filter(ix, ix.targets(a))
  }

  /** Everything enqueued while the elements of `cs` were processed, in order. */
  function Enqueued<A(!new)>(ix: Index<A>, cs: seq<A>): (r: seq<A>)
    ensures forall t :: t in r ==> Passes(ix, t)
  {
    if cs == [] then [] else Enqueued(ix, cs[..|cs| - 1]) + Children(ix, cs[|cs| - 1])
  }

  /** The two variables of the loop. */
  datatype State<A> = State(components: seq<A>, queue: seq<A>)

  /** The queue seeded with the root marker, nothing collected yet. */
  function Init<A>(root: A): (s: State<A>)
    ensures s.components == [] && s.queue == [root]
  {
    State([], [root])
  }

  /** One iteration: take the head of the queue, collect it, and append
      what it marks to the back of the queue. */
  function Step<A(!new)>(ix: Index<A>, s: State<A>): (t: State<A>)
    requires s.queue != []
    ensures t.components == s.components + [s.queue[0]]
    ensures t.components + t.queue == s.components + s.queue + Children(ix, s.queue[0])
  {
    State(s.components + [s.queue[0]], s.queue[1..] + Children(ix, s.queue[0]))
  }

  /** The termination hypothesis: every annotation type that passes the
      filter ranks strictly below the annotation it was found under. */
  ghost predicate Ranked<A(!new)>(ix: Index<A>, rank: A -> nat)
  {
    forall a, t :: t in Children(ix, a) ==> rank(t) < rank(a)
  }

  /** The termination hypothesis relative to a root: rank 0 marks what the
      walk never searches. The root ranks above 0, and every filtered
      search result of an annotation ranked above 0 ranks above 0 and
      strictly below it. Annotations of rank 0 are unconstrained, so they
      may mark themselves or each other. */
  ghost predicate RankedFrom<A(!new)>(ix: Index<A>, rank: A -> nat, root: A)
  {
    && 0 < rank(root)
    && forall a, t :: 0 < rank(a) && t in Children(ix, a) ==> 0 < rank(t) < rank(a)
  }

  /** Every element of the queue ranks above 0. */
  ghost predicate Inside<A(!new)>(rank: A -> nat, q: seq<A>)
  {
    forall x :: x in q ==> 0 < rank(x)
  }

  /** The index with the searches of annotations of rank 0 emptied. */
  function Cut<A(!new)>(ix: Index<A>, rank: A -> nat): Index<A>
  {
    Index(a => if 0 < rank(a) then ix.targets(a) else [], ix.isCompiledClass, ix.isAnnotationType)
  }

  /** The filter looks at the two tests only, never at the search. */
  lemma {:induction false} FilterAgrees<A(!new)>(ix: Index<A>, jx: Index<A>, s: seq<A>)
    requires forall t :: Passes(ix, t) == Passes(jx, t)
    ensures Filter(ix, s) == Filter(jx, s)
    decreases |s|
  {
    if s != [] {
      FilterAgrees(ix, jx, s[1..]);
    }
  }

  /** Cutting leaves the filter and every search of rank above 0 as they were. */
  lemma CutChildren<A(!new)>(ix: Index<A>, rank: A -> nat, a: A)
    ensures forall t :: Passes(Cut(ix, rank), t) == Passes(ix, t)
    ensures Children(Cut(ix, rank), a) == if 0 < rank(a) then Children(ix, a) else []
  {
    FilterAgrees(Cut(ix, rank), ix, Cut(ix, rank).targets(a));
  }

  /** Under the hypothesis relative to the root, the cut index is ranked everywhere. */
  lemma CutRanked<A(!new)>(ix: Index<A>, rank: A -> nat, root: A)
    requires RankedFrom(ix, rank, root)
    ensures Ranked(Cut(ix, rank), rank)
  {
    forall a, t | t in Children(Cut(ix, rank), a)
      ensures rank(t) < rank(a)
    {
      CutChildren(ix, rank, a);
    }
  }

  /** While every queued element ranks above 0, an iteration cannot tell the
      cut index from the real one, and the queue stays so. */
  lemma StepInside<A(!new)>(ix: Index<A>, rank: A -> nat, root: A, s: State<A>)
    requires RankedFrom(ix, rank, root) && s.queue != [] && Inside(rank, s.queue)
    ensures Step(Cut(ix, rank), s) == Step(ix, s)
    ensures Inside(rank, Step(ix, s).queue)
  {
    CutChildren(ix, rank, s.queue[0]);
  }

  /** One instance of the rank hypothesis. */
  lemma RankedAt<A(!new)>(ix: Index<A>, rank: A -> nat, a: A, t: A)
    requires Ranked(ix, rank) && t in Children(ix, a)
    ensures rank(t) < rank(a)
  {
  }

  /** An annotation that marks itself leaves no rank for the whole index. */
  lemma SelfMarkerUnranked<A(!new)>(ix: Index<A>, rank: A -> nat, a: A)
    requires a in Children(ix, a)
    ensures !Ranked(ix, rank)
  {
    if Ranked(ix, rank) {
      RankedAt(ix, rank, a, a);
    }
  }

  /** An annotation the walk never reaches may mark itself, as the JDK's own
      meta-annotations do: with such an annotation beside an unmarked root
      the hypothesis holds, although no rank makes the whole index ranked. */
  lemma UnreachableSelfMarkerAllowed()
    ensures var ix := Index((a: int) => if a == 1 then [1] else [], (a: int) => true, (a: int) => true);
      && RankedFrom(ix, (a: int) => if a == 0 then 1 else 0, 0)
      && 1 in Children(ix, 1)
      && (forall rank: int -> nat :: !Ranked(ix, rank))
      && Run(ix, Init(0), 1) == State([0], [])
  {
    var ix := Index((a: int) => if a == 1 then [1] else [], (a: int) => true, (a: int) => true);
    assert ix.targets(1) == [1];
    assert 1 in Children(ix, 1);
    forall rank: int -> nat
      ensures !Ranked(ix, rank)
    {
      SelfMarkerUnranked(ix, rank, 1);
    }
  }

  /** Every path from `a` in the graph of filtered search results, by its
      end point. Under `Ranked` this is finite. */
  ghost function Tree<A(!new)>(ix: Index<A>, rank: A -> nat, a: A): multiset<A>
    requires Ranked(ix, rank)
    decreases rank(a), 1, 0
  {
    multiset{a} + TreesBelow(ix, rank, Children(ix, a), rank(a))
  }

  ghost function TreesBelow<A(!new)>(ix: Index<A>, rank: A -> nat, q: seq<A>, bound: nat): multiset<A>
    requires Ranked(ix, rank)
    requires forall t :: t in q ==> rank(t) < bound
    decreases bound, 0, |q|
  {
    if q == [] then multiset{} else Tree(ix, rank, q[0]) + TreesBelow(ix, rank, q[1..], bound)
  }

  /** The paths still to be walked from the elements of a queue. */
  ghost function Forest<A(!new)>(ix: Index<A>, rank: A -> nat, q: seq<A>): multiset<A>
    requires Ranked(ix, rank)
  {
    if q == [] then multiset{} else Tree(ix, rank, q[0]) + Forest(ix, rank, q[1..])
  }

  lemma {:induction false} TreesBelowIsForest<A(!new)>(ix: Index<A>, rank: A -> nat, q: seq<A>, bound: nat)
    requires Ranked(ix, rank)
    requires forall t :: t in q ==> rank(t) < bound
    ensures TreesBelow(ix, rank, q, bound) == Forest(ix, rank, q)
    decreases |q|
  {
    if q != [] {
      TreesBelowIsForest(ix, rank, q[1..], bound);
    }
  }

  /** A path from `a` is `a` itself or a path from one of its children. */
  lemma TreeUnfold<A(!new)>(ix: Index<A>, rank: A -> nat, a: A)
    requires Ranked(ix, rank)
    ensures Tree(ix, rank, a) == multiset{a} + Forest(ix, rank, Children(ix, a))
  {
    TreesBelowIsForest(ix, rank, Children(ix, a), rank(a));
  }

  lemma {:induction false} ForestAppend<A(!new)>(ix: Index<A>, rank: A -> nat, p: seq<A>, q: seq<A>)
    requires Ranked(ix, rank)
    ensures Forest(ix, rank, p + q) == Forest(ix, rank, p) + Forest(ix, rank, q)
    decreases |p|
  {
    if p == [] {
      assert p + q == q;
    } else {
      assert (p + q)[0] == p[0];
      assert (p + q)[1..] == p[1..] + q;
      ForestAppend(ix, rank, p[1..], q);
      assert Forest(ix, rank, p + q) == Tree(ix, rank, p[0]) + Forest(ix, rank, p[1..] + q);
    }
  }

  /** Two occurrences of one child give two paths to it: nothing is deduplicated. */
  lemma {:induction false} RepeatedChildCountsTwice<A(!new)>(ix: Index<A>, rank: A -> nat, a: A, i: nat, j: nat)
    requires Ranked(ix, rank)
    requires i < j < |Children(ix, a)|
    requires Children(ix, a)[i] == Children(ix, a)[j]
    ensures Tree(ix, rank, a)[Children(ix, a)[i]] >= 2
  {
    var c := Children(ix, a);
    var x := c[i];
    TreeUnfold(ix, rank, a);
    ForestContains(ix, rank, c, i);
    ForestContains(ix, rank, c, j);
    assert c == c[..j] + c[j..];
    ForestAppend(ix, rank, c[..j], c[j..]);
    ForestContains(ix, rank, c[..j], i);
    ForestContains(ix, rank, c[j..], 0);
  }

  /** The forest of a queue holds a path to every element of the queue. */
  lemma {:induction false} ForestContains<A(!new)>(ix: Index<A>, rank: A -> nat, q: seq<A>, k: nat)
    requires Ranked(ix, rank)
    requires k < |q|
    ensures Forest(ix, rank, q)[q[k]] >= 1
    decreases k
  {
    if k == 0 {
      TreeUnfold(ix, rank, q[0]);
    } else {
      ForestContains(ix, rank, q[1..], k - 1);
    }
  }

  /** `Enqueued` read from the front: processing `p` and then `q`
      enqueues what `p` enqueues and then what `q` enqueues. */
  lemma {:induction false} EnqueuedAppend<A(!new)>(ix: Index<A>, p: seq<A>, q: seq<A>)
    ensures Enqueued(ix, p + q) == Enqueued(ix, p) + Enqueued(ix, q)
    decreases |q|
  {
    if q == [] {
      assert p + q == p;
    } else {
      var front := q[..|q| - 1];
      assert (p + q)[..|p + q| - 1] == p + front;
      assert (p + q)[|p + q| - 1] == q[|q| - 1];
      EnqueuedAppend(ix, p, front);
    }
  }

  /** The paths from a queue are its own elements plus the paths from
      everything it enqueues. */
  lemma {:induction false} ForestOfEnqueued<A(!new)>(ix: Index<A>, rank: A -> nat, q: seq<A>)
    requires Ranked(ix, rank)
    ensures Forest(ix, rank, q) == multiset(q) + Forest(ix, rank, Enqueued(ix, q))
    decreases |q|
  {
    if q != [] {
      var front := q[..|q| - 1];
      var x := q[|q| - 1];
      assert q == front + [x];
      ForestAppend(ix, rank, front, [x]);
      assert Forest(ix, rank, [x]) == Tree(ix, rank, x) + Forest(ix, rank, []);
      TreeUnfold(ix, rank, x);
      ForestAppend(ix, rank, Enqueued(ix, front), Children(ix, x));
      ForestOfEnqueued(ix, rank, front);
      assert multiset(q) == multiset(front) + multiset{x};
    }
  }

  /** Breadth-first order defined level by level: the elements of `q`,
      then everything they enqueue, then everything that enqueues, until
      a level is empty. Under `Ranked` every level is shorter in paths
      than the one before, so this ends. */
  ghost function Levels<A(!new)>(ix: Index<A>, rank: A -> nat, q: seq<A>): seq<A>
    requires Ranked(ix, rank)
    decreases |Forest(ix, rank, q)|
  {
    if q == [] then []
    else
      ForestOfEnqueued(ix, rank, q);
      q + Levels(ix, rank, Enqueued(ix, q))
  }

  /** Level order is its first level followed by everything its own
      elements enqueue, in the order they enqueue it. */
  lemma {:induction false} LevelsAreFirstThenEnqueued<A(!new)>(ix: Index<A>, rank: A -> nat, q: seq<A>)
    requires Ranked(ix, rank)
    ensures Levels(ix, rank, q) == q + Enqueued(ix, Levels(ix, rank, q))
    decreases |Forest(ix, rank, q)|
  {
    if q != [] {
      var e := Enqueued(ix, q);
      ForestOfEnqueued(ix, rank, q);
      LevelsAreFirstThenEnqueued(ix, rank, e);
      EnqueuedAppend(ix, q, Levels(ix, rank, e));
    }
  }

  /** Everything past the first level passed the filter. */
  lemma LevelsPass<A(!new)>(ix: Index<A>, rank: A -> nat, q: seq<A>)
    requires Ranked(ix, rank)
    ensures forall i :: |q| <= i < |Levels(ix, rank, q)| ==> Passes(ix, Levels(ix, rank, q)[i])
  {
    var l := Levels(ix, rank, q);
    LevelsAreFirstThenEnqueued(ix, rank, q);
    forall i | |q| <= i < |l|
      ensures Passes(ix, l[i])
    {
      assert l[i] == Enqueued(ix, l)[i - |q|];
    }
  }

  /** The order of the walk so far. The first `k` queued elements are
      the rest of the level being processed; behind them waits what the
      processed part of that level enqueued. Collected elements, the rest
      of the level, and the level order of what follows make up the level
      order from the root. */
  ghost predicate LevelOrder<A(!new)>(ix: Index<A>, rank: A -> nat, root: A, s: State<A>, k: nat)
    requires Ranked(ix, rank)
  {
    && k <= |s.queue|
    && s.components + s.queue[..k] + Levels(ix, rank, s.queue[k..] + Enqueued(ix, s.queue[..k]))
       == Levels(ix, rank, [root])
  }

  /** When nothing queued belongs to the current level, the whole queue
      is the next level. */
  lemma StartLevel<A(!new)>(ix: Index<A>, rank: A -> nat, root: A, s: State<A>)
    requires Ranked(ix, rank) && s.queue != [] && LevelOrder(ix, rank, root, s, 0)
    ensures LevelOrder(ix, rank, root, s, |s.queue|)
  {
    var q := s.queue;
    var e := Enqueued(ix, q);
    assert Enqueued(ix, []) == [];
    assert q[..0] == [] && q[0..] + Enqueued(ix, q[..0]) == q;
    assert s.components + q[..0] == s.components;
    assert Levels(ix, rank, q) == q + Levels(ix, rank, e);
    assert q[..|q|] == q && q[|q|..] + Enqueued(ix, q[..|q|]) == e;
  }

  /** One iteration takes the head of the current level: the part of
      the level still to come shrinks by one. */
  lemma {:induction false} StepAdvancesLevel<A(!new)>(ix: Index<A>, s: State<A>, k: nat)
    requires s.queue != [] && 0 < k <= |s.queue|
    ensures k - 1 <= |Step(ix, s).queue|
    ensures Step(ix, s).components + Step(ix, s).queue[..k - 1] == s.components + s.queue[..k]
  {
    var q := s.queue;
    var c := q[0];
    var t := Step(ix, s);
    var rest := q[1..k];
    assert t.queue == q[1..] + Children(ix, c);
    assert q[..k] == [c] + rest;
    assert t.queue[..k - 1] == rest;
    assert t.components + rest == s.components + ([c] + rest);
  }

  /** The head's targets join what waits behind the current level, after
      everything already waiting there. */
  lemma {:induction false} StepExtendsNextLevel<A(!new)>(ix: Index<A>, s: State<A>, k: nat)
    requires s.queue != [] && 0 < k <= |s.queue|
    ensures k - 1 <= |Step(ix, s).queue|
    ensures Step(ix, s).queue[k - 1..] + Enqueued(ix, Step(ix, s).queue[..k - 1])
            == s.queue[k..] + Enqueued(ix, s.queue[..k])
  {
    var q := s.queue;
    var c := q[0];
    var t := Step(ix, s);
    var rest := q[1..k];
    var kids := Children(ix, c);
    assert t.queue == q[1..] + kids;
    assert q[..k] == [c] + rest;
    EnqueuedAppend(ix, [c], rest);
    assert [c][..0] == [];
    assert Enqueued(ix, [c]) == kids;
    assert t.queue[..k - 1] == rest;
    assert t.queue[k - 1..] == q[k..] + kids;
    assert (q[k..] + kids) + Enqueued(ix, rest) == q[k..] + (kids + Enqueued(ix, rest));
  }

  /** One iteration inside the current level keeps the level order. */
  lemma StepKeepsLevelOrder<A(!new)>(ix: Index<A>, rank: A -> nat, root: A, s: State<A>, k: nat)
    requires Ranked(ix, rank) && s.queue != [] && 0 < k
    requires LevelOrder(ix, rank, root, s, k)
    ensures LevelOrder(ix, rank, root, Step(ix, s), k - 1)
  {
    StepAdvancesLevel(ix, s, k);
    StepExtendsNextLevel(ix, s, k);
  }

  /** One iteration moves exactly one path from the queue to the result. */
  lemma {:induction false} StepMovesOnePath<A(!new)>(ix: Index<A>, rank: A -> nat, s: State<A>)
    requires Ranked(ix, rank) && s.queue != []
    ensures multiset(Step(ix, s).components) + Forest(ix, rank, Step(ix, s).queue)
            == multiset(s.components) + Forest(ix, rank, s.queue)
    ensures |Forest(ix, rank, Step(ix, s).queue)| < |Forest(ix, rank, s.queue)|
  {
    var c := s.queue[0];
    var kids := Children(ix, c);
    assert Forest(ix, rank, s.queue) == Tree(ix, rank, c) + Forest(ix, rank, s.queue[1..]);
    TreeUnfold(ix, rank, c);
    ForestAppend(ix, rank, s.queue[1..], kids);
    assert multiset(s.components + [c]) == multiset(s.components) + multiset{c};
  }

  /** Every element after position 0 of the collected elements and the
      queue has a recorded parent: a collected element before it that
      enqueued it. */
  ghost predicate Traced<A(!new)>(ix: Index<A>, s: State<A>, parent: seq<nat>)
  {
    && |parent| == |s.components| + |s.queue|
    && forall p :: 0 < p < |parent| ==>
         && parent[p] < p
         && parent[p] < |s.components|
         && (s.components + s.queue)[p] in Children(ix, s.components[parent[p]])
  }

  /** The elements one iteration enqueues have as parent the element it collects. */
  lemma StepKeepsTraced<A(!new)>(ix: Index<A>, s: State<A>, parent: seq<nat>) returns (next: seq<nat>)
    requires s.queue != [] && Traced(ix, s, parent)
    ensures Traced(ix, Step(ix, s), next)
  {
    var t := Step(ix, s);
    var all := s.components + s.queue;
    var kids := Children(ix, s.queue[0]);
    next := parent + seq(|kids|, _ => |s.components|);
    forall p | 0 < p < |next|
      ensures next[p] < p && next[p] < |t.components|
      ensures (t.components + t.queue)[p] in Children(ix, t.components[next[p]])
    {
      if p < |all| {
        assert (t.components + t.queue)[p] == all[p];
        assert t.components[parent[p]] == s.components[parent[p]];
      } else {
        assert (t.components + t.queue)[p] == kids[p - |all|];
        assert t.components[|s.components|] == s.queue[0];
      }
    }
  }

  /** The element at position `i` was enqueued by an element before it. */
  ghost predicate EnqueuedEarlier<A(!new)>(ix: Index<A>, cs: seq<A>, i: nat)
    requires i < |cs|
  {
    exists j :: 0 <= j < i && cs[i] in Children(ix, cs[j])
  }

  /** The loop invariant of the walk from `root`. */
  ghost predicate Walking<A(!new)>(ix: Index<A>, rank: A -> nat, root: A, s: State<A>, parent: seq<nat>, k: nat)
  {
    && Ranked(ix, rank)
    && LevelOrder(ix, rank, root, s, k)
    && multiset(s.components) + Forest(ix, rank, s.queue) == Tree(ix, rank, root)
    && Traced(ix, s, parent)
  }

  lemma InitWalking<A(!new)>(ix: Index<A>, rank: A -> nat, root: A)
    requires Ranked(ix, rank)
    ensures Walking(ix, rank, root, Init(root), [0], 0)
  {
    assert [root][..0] == [] && [root][0..] == [root];
    assert [root] + Enqueued(ix, []) == [root];
  }

  /** One iteration keeps the invariant and leaves one path fewer to walk. */
  lemma StepWalking<A(!new)>(ix: Index<A>, rank: A -> nat, root: A, s: State<A>, parent: seq<nat>, k: nat)
    returns (next: seq<nat>, nextK: nat)
    requires s.queue != [] && Walking(ix, rank, root, s, parent, k)
    ensures Walking(ix, rank, root, Step(ix, s), next, nextK)
    ensures |Forest(ix, rank, Step(ix, s).queue)| < |Forest(ix, rank, s.queue)|
  {
    var level := k;
    if level == 0 {
      StartLevel(ix, rank, root, s);
      level := |s.queue|;
    }
    StepKeepsLevelOrder(ix, rank, root, s, level);
    nextK := level - 1;
    StepMovesOnePath(ix, rank, s);
    next := StepKeepsTraced(ix, s, parent);
  }

  /** What an empty queue means for the collected elements. */
  lemma FinishedWalk<A(!new)>(ix: Index<A>, rank: A -> nat, root: A, s: State<A>, parent: seq<nat>, k: nat)
    requires s.queue == []
    requires Walking(ix, rank, root, s, parent, k)
    ensures |s.components| >= 1 && s.components[0] == root
    ensures s.components == Levels(ix, rank, [root])
    ensures forall i :: 0 < i < |s.components| ==> Passes(ix, s.components[i])
    ensures forall i :: 0 < i < |s.components| ==> EnqueuedEarlier(ix, s.components, i)
    ensures multiset(s.components) == Tree(ix, rank, root)
  {
    assert s.queue[..k] == [] && s.queue[k..] == [];
    assert Enqueued(ix, []) == [];
    assert s.components + [] == s.components;
    assert Levels(ix, rank, [root]) == [root] + Levels(ix, rank, Enqueued(ix, [root]));
    LevelsPass(ix, rank, [root]);
    TracedParents(ix, s, parent);
  }

  /** With the queue empty, the recorded parents witness that every
      collected element but the first was enqueued by an earlier one. */
  lemma TracedParents<A(!new)>(ix: Index<A>, s: State<A>, parent: seq<nat>)
    requires s.queue == [] && Traced(ix, s, parent)
    ensures forall i :: 0 < i < |s.components| ==> EnqueuedEarlier(ix, s.components, i)
  {
    var cs := s.components;
    assert cs + s.queue == cs;
    forall i | 0 < i < |cs|
      ensures EnqueuedEarlier(ix, cs, i)
    {
      var j := parent[i];
      assert (cs + s.queue)[i] == cs[i];
      assert 0 <= j < i && cs[i] in Children(ix, cs[j]);
    }
  }

  /** `findAllComponentAnnotations`: seed the queue with the root marker and
      collect elements in dequeue order until the queue is empty.

      The result starts with the root and is exactly the level order from
      the root (breadth first); every collected element but the root
      passed the filter and was enqueued by an element collected before
      it; and each element occurs once per path from the root. The level
      order and the paths are taken in the cut index, which the walk from
      the root cannot tell from the real one (`RunCut`). `rank` is a
      proof-only argument: the code never reads it. */
  method FindAllComponentAnnotations<A(!new)>(ix: Index<A>, root: A, rank: A -> nat)
    returns (components: seq<A>)
    requires RankedFrom(ix, rank, root)
    ensures |components| >= 1 && components[0] == root
    ensures components == Levels(Cut(ix, rank), rank, [root])
    ensures forall i :: 0 < i < |components| ==> Passes(ix, components[i])
    ensures forall i :: 0 < i < |components| ==> EnqueuedEarlier(ix, components, i)
    ensures multiset(components) == Tree(Cut(ix, rank), rank, root)
  {
    ghost var cut := Cut(ix, rank);
    CutRanked(ix, rank, root);
    var s := Init(root);
    ghost var parent: seq<nat> := [0];
    ghost var k: nat := 0;
    InitWalking(cut, rank, root);
    while s.queue != []
      invariant Walking(cut, rank, root, s, parent, k)
      invariant Inside(rank, s.queue)
      decreases |Forest(cut, rank, s.queue)|
    {
      StepInside(ix, rank, root, s);
      parent, k := StepWalking(cut, rank, root, s, parent, k);
      s := Step(ix, s);
    }
    FinishedWalk(cut, rank, root, s, parent, k);
    CutWitnesses(ix, rank, s.components);
    components := s.components;
  }

  /** What the walk shows in the cut index holds in the real one. */
  lemma CutWitnesses<A(!new)>(ix: Index<A>, rank: A -> nat, cs: seq<A>)
    requires forall i :: 0 < i < |cs| ==> Passes(Cut(ix, rank), cs[i])
    requires forall i :: 0 < i < |cs| ==> EnqueuedEarlier(Cut(ix, rank), cs, i)
    ensures forall i :: 0 < i < |cs| ==> Passes(ix, cs[i])
    ensures forall i :: 0 < i < |cs| ==> EnqueuedEarlier(ix, cs, i)
  {
    forall i | 0 < i < |cs|
      ensures Passes(ix, cs[i]) && EnqueuedEarlier(ix, cs, i)
    {
      assert EnqueuedEarlier(Cut(ix, rank), cs, i);
      var j :| 0 <= j < i && cs[i] in Children(Cut(ix, rank), cs[j]);
      CutChildren(ix, rank, cs[j]);
    }
  }

  /** Everything enqueued in the cut index ranks above 0: the cut index
      searches nothing of rank 0. */
  lemma {:induction false} EnqueuedCutInside<A(!new)>(ix: Index<A>, rank: A -> nat, root: A, cs: seq<A>)
    requires RankedFrom(ix, rank, root)
    ensures Inside(rank, Enqueued(Cut(ix, rank), cs))
    decreases |cs|
  {
    if cs != [] {
      var a := cs[|cs| - 1];
      EnqueuedCutInside(ix, rank, root, cs[..|cs| - 1]);
      CutChildren(ix, rank, a);
    }
  }

  /** Over elements of rank above 0, the cut and the real index enqueue the same. */
  lemma {:induction false} EnqueuedCut<A(!new)>(ix: Index<A>, rank: A -> nat, cs: seq<A>)
    requires Inside(rank, cs)
    ensures Enqueued(Cut(ix, rank), cs) == Enqueued(ix, cs)
    decreases |cs|
  {
    if cs != [] {
      var a := cs[|cs| - 1];
      assert a in cs;
      assert forall x :: x in cs[..|cs| - 1] ==> x in cs;
      EnqueuedCut(ix, rank, cs[..|cs| - 1]);
      CutChildren(ix, rank, a);
    }
  }

  /** The result of the walk is the root followed by everything enqueued
      while its elements were processed in the real index: every enqueued
      element is collected, and the result has one element more than
      there were enqueues. */
  lemma RootThenEnqueued<A(!new)>(ix: Index<A>, rank: A -> nat, root: A)
    requires RankedFrom(ix, rank, root)
    ensures Ranked(Cut(ix, rank), rank)
    ensures Levels(Cut(ix, rank), rank, [root])
            == [root] + Enqueued(ix, Levels(Cut(ix, rank), rank, [root]))
    ensures |Levels(Cut(ix, rank), rank, [root])|
            == 1 + |Enqueued(ix, Levels(Cut(ix, rank), rank, [root]))|
  {
    var cut := Cut(ix, rank);
    CutRanked(ix, rank, root);
    var cs := Levels(cut, rank, [root]);
    LevelsAreFirstThenEnqueued(cut, rank, [root]);
    EnqueuedCutInside(ix, rank, root, cs);
    assert Inside(rank, cs);
    EnqueuedCut(ix, rank, cs);
  }


  /** The loop run for at most `fuel` iterations. */
  function Run<A(!new)>(ix: Index<A>, s: State<A>, fuel: nat): (t: State<A>)
    ensures s.components <= t.components
    ensures |t.components| <= |s.components| + fuel
    decreases fuel
  {
    if fuel == 0 || s.queue == [] then s else Run(ix, Step(ix, s), fuel - 1)
  }

  /** As many iterations as there are paths left in the queue empty it. */
  lemma {:induction false} RunEmptiesQueue<A(!new)>(ix: Index<A>, rank: A -> nat, s: State<A>, fuel: nat)
    requires Ranked(ix, rank)
    requires |Forest(ix, rank, s.queue)| <= fuel
    ensures Run(ix, s, fuel).queue == []
    decreases fuel
  {
    if s.queue != [] {
      StepMovesOnePath(ix, rank, s);
      RunEmptiesQueue(ix, rank, Step(ix, s), fuel - 1);
    }
  }

  /** Some parent trace and level split make `s` a state of the walk from `root`. */
  ghost predicate Reachable<A(!new)>(ix: Index<A>, rank: A -> nat, root: A, s: State<A>)
  {
    && Ranked(ix, rank)
    && exists parent: seq<nat>, k: nat :: Walking(ix, rank, root, s, parent, k)
  }

  /** One iteration keeps a state of the walk a state of the walk and
      uses up one root path. */
  lemma StepReachable<A(!new)>(ix: Index<A>, rank: A -> nat, root: A, s: State<A>)
    requires s.queue != [] && Reachable(ix, rank, root, s)
    ensures Reachable(ix, rank, root, Step(ix, s))
    ensures |Forest(ix, rank, Step(ix, s).queue)| < |Forest(ix, rank, s.queue)|
  {
    var parent: seq<nat>, k: nat :| Walking(ix, rank, root, s, parent, k);
    var next, nextK := StepWalking(ix, rank, root, s, parent, k);
  }

  /** A state of the walk with an empty queue holds the level order. */
  lemma ReachableDone<A(!new)>(ix: Index<A>, rank: A -> nat, root: A, s: State<A>)
    requires s.queue == [] && Reachable(ix, rank, root, s)
    ensures s.components == Levels(ix, rank, [root])
  {
    var parent: seq<nat>, k: nat :| Walking(ix, rank, root, s, parent, k);
    FinishedWalk(ix, rank, root, s, parent, k);
  }

  /** With the queue not empty, `fuel + 1` iterations are one step and then `fuel` more. */
  lemma RunUnfold<A(!new)>(ix: Index<A>, s: State<A>, fuel: nat)
    requires s.queue != []
    ensures Run(ix, s, fuel + 1) == Run(ix, Step(ix, s), fuel)
  {
  }

  /** From any point of the walk, any number of further iterations stay on the walk. */
  lemma {:induction false} RunStaysReachable<A(!new)>(ix: Index<A>, rank: A -> nat, root: A, s: State<A>, fuel: nat)
    requires Reachable(ix, rank, root, s)
    ensures Reachable(ix, rank, root, Run(ix, s, fuel))
    decreases fuel
  {
    if s.queue != [] && fuel > 0 {
      StepReachable(ix, rank, root, s);
      var t := Step(ix, s);
      var rest: nat := fuel - 1;
      RunStaysReachable(ix, rank, root, t, rest);
      RunUnfold(ix, s, rest);
    }
  }


  /** While every queued element ranks above 0, running the loop on the
      real index and on the cut index gives the same state. */
  lemma {:induction false} RunCut<A(!new)>(ix: Index<A>, rank: A -> nat, root: A, s: State<A>, fuel: nat)
    requires RankedFrom(ix, rank, root) && Inside(rank, s.queue)
    ensures Run(ix, s, fuel) == Run(Cut(ix, rank), s, fuel)
    decreases fuel
  {
    if s.queue != [] && fuel > 0 {
      StepInside(ix, rank, root, s);
      var t := Step(ix, s);
      var rest: nat := fuel - 1;
      RunCut(ix, rank, root, t, rest);
      RunUnfold(ix, s, rest);
      RunUnfold(Cut(ix, rank), s, rest);
    }
  }

  /** Under the rank hypothesis the loop ends after one iteration per
      path from the root, with the level order from the root. */
  lemma RankedWalkEnds<A(!new)>(ix: Index<A>, rank: A -> nat, root: A)
    requires RankedFrom(ix, rank, root)
    ensures Run(ix, Init(root), |Tree(Cut(ix, rank), rank, root)|).queue == []
    ensures Run(ix, Init(root), |Tree(Cut(ix, rank), rank, root)|).components
            == Levels(Cut(ix, rank), rank, [root])
  {
    var cut := Cut(ix, rank);
    CutRanked(ix, rank, root);
    var fuel := |Tree(cut, rank, root)|;
    InitWalking(cut, rank, root);
    assert Forest(cut, rank, [root]) == Tree(cut, rank, root) + Forest(cut, rank, [root][1..]);
    RunEmptiesQueue(cut, rank, Init(root), fuel);
    assert Walking(cut, rank, root, Init(root), [0], 0);
    RunStaysReachable(cut, rank, root, Init(root), fuel);
    ReachableDone(cut, rank, root, Run(cut, Init(root), fuel));
    RunCut(ix, rank, root, Init(root), fuel);
  }

  /** `l` follows filtered search results: each element after the first was
      found under the one before it. */
  ghost predicate Path<A(!new)>(ix: Index<A>, l: seq<A>)
  {
    forall j :: 0 <= j < |l| - 1 ==> l[j + 1] in Children(ix, l[j])
  }

  /** A path from `l[0]` whose last element marks `l[m]`: the walk from
      `l[0]` reaches a cycle. */
  ghost predicate Lasso<A(!new)>(ix: Index<A>, l: seq<A>, m: nat)
  {
    && m < |l|
    && Path(ix, l)
    && l[m] in Children(ix, l[|l| - 1])
  }

  /** Some element of `l` waits in the queue. */
  ghost predicate Touches<A(!new)>(l: seq<A>, q: seq<A>)
  {
    exists i :: 0 <= i < |l| && l[i] in q
  }

  /** Once an element of a lasso is queued, the queue never empties: each
      iteration collects one more element, with no end. */
  lemma {:induction false} LassoKeepsQueue<A(!new)>(ix: Index<A>, s: State<A>, l: seq<A>, m: nat, fuel: nat)
    requires Lasso(ix, l, m) && Touches(l, s.queue)
    ensures Run(ix, s, fuel).queue != []
    ensures |Run(ix, s, fuel).components| == |s.components| + fuel
    decreases fuel
  {
    var i :| 0 <= i < |l| && l[i] in s.queue;
    if fuel > 0 {
      var t := Step(ix, s);
      var rest: nat := fuel - 1;
      assert t.queue == s.queue[1..] + Children(ix, s.queue[0]);
      if s.queue[0] == l[i] {
        var n := if i + 1 < |l| then i + 1 else m;
        assert l[n] in Children(ix, l[i]);
        assert l[n] in t.queue;
      } else {
        assert s.queue == [s.queue[0]] + s.queue[1..];
        assert l[i] in t.queue;
      }
      LassoKeepsQueue(ix, t, l, m, rest);
      RunUnfold(ix, s, rest);
    }
  }

  /** A cycle reachable from the root marker never lets the walk finish. */
  lemma ReachableCycleDiverges<A(!new)>(ix: Index<A>, l: seq<A>, m: nat, fuel: nat)
    requires Lasso(ix, l, m)
    ensures Run(ix, Init(l[0]), fuel).queue != []
    ensures |Run(ix, Init(l[0]), fuel).components| == fuel
  {
    assert l[0] in Init(l[0]).queue;
    LassoKeepsQueue(ix, Init(l[0]), l, m, fuel);
  }

  /** Some element of the endless chain `p` waits in the queue. */
  ghost predicate ChainTouches<A(!new)>(p: nat -> A, q: seq<A>)
  {
    exists n: nat :: p(n) in q
  }

  /** Once an element of an endless chain of filtered search results is
      queued, the queue never empties, whether the chain cycles or not. */
  lemma {:induction false} ChainKeepsQueue<A(!new)>(ix: Index<A>, s: State<A>, p: nat -> A, fuel: nat)
    requires forall n: nat :: p(n + 1) in Children(ix, p(n))
    requires ChainTouches(p, s.queue)
    ensures Run(ix, s, fuel).queue != []
    ensures |Run(ix, s, fuel).components| == |s.components| + fuel
    decreases fuel
  {
    var n: nat :| p(n) in s.queue;
    if fuel > 0 {
      var t := Step(ix, s);
      var rest: nat := fuel - 1;
      assert t.queue == s.queue[1..] + Children(ix, s.queue[0]);
      if s.queue[0] == p(n) {
        assert p(n + 1) in Children(ix, p(n));
        assert p(n + 1) in t.queue;
      } else {
        assert s.queue == [s.queue[0]] + s.queue[1..];
        assert p(n) in t.queue;
      }
      ChainKeepsQueue(ix, t, p, rest);
      RunUnfold(ix, s, rest);
    }
  }

  /** An endless chain of filtered search results from the root marker,
      a reachable cycle or an infinite descent, never lets the walk finish. */
  lemma EndlessChainDiverges<A(!new)>(ix: Index<A>, p: nat -> A, fuel: nat)
    requires forall n: nat :: p(n + 1) in Children(ix, p(n))
    ensures Run(ix, Init(p(0)), fuel).queue != []
    ensures |Run(ix, Init(p(0)), fuel).components| == fuel
  {
    assert p(0) in Init(p(0)).queue;
    ChainKeepsQueue(ix, Init(p(0)), p, fuel);
  }

  /** In the integers, every number marking its successor is a chain without a
      cycle: no rank satisfies the hypothesis from 0, and the queue never empties. */
  lemma SuccessorChainDiverges(rank: int -> nat, fuel: nat)
    ensures var ix := Index((n: int) => [n + 1], (n: int) => true, (n: int) => true);
      && (forall l: seq<int>, m: nat :: !Lasso(ix, l, m))
      && !RankedFrom(ix, rank, 0)
      && Run(ix, Init(0), fuel).queue != []
  {
    var ix := Index((n: int) => [n + 1], (n: int) => true, (n: int) => true);
    SuccessorHasNoLasso(ix);
    var p: nat -> int := (n: nat) => n;
    forall n: nat
      ensures p(n + 1) in Children(ix, p(n))
    {
      assert ix.targets(n) == [n + 1];
    }
    EndlessChainDiverges(ix, p, fuel);
    if RankedFrom(ix, rank, 0) {
      var l := seq(rank(0) + 1, (i: int) => i);
      forall j | 0 <= j < |l| - 1
        ensures l[j + 1] in Children(ix, l[j])
      {
        assert ix.targets(j) == [j + 1];
      }
      PathDescends(ix, rank, 0, l, 0, |l| - 1);
      assert false;
    }
  }

  /** Where every number marks only its successor, a path counts up by one. */
  lemma {:induction false} SuccessorPath(ix: Index<int>, l: seq<int>, j: nat)
    requires forall n :: ix.targets(n) == [n + 1]
    requires Path(ix, l) && j < |l|
    ensures l[j] == l[0] + j
    decreases j
  {
    if j > 0 {
      SuccessorPath(ix, l, j - 1);
      assert l[j] in Children(ix, l[j - 1]);
      assert ix.targets(l[j - 1]) == [l[j - 1] + 1];
    }
  }

  /** Where every number marks only its successor, there is no cycle. */
  lemma SuccessorHasNoLasso(ix: Index<int>)
    requires forall n :: ix.targets(n) == [n + 1]
    ensures forall l: seq<int>, m: nat :: !Lasso(ix, l, m)
  {
    forall l: seq<int>, m: nat
      ensures !Lasso(ix, l, m)
    {
      if Lasso(ix, l, m) {
        var last := |l| - 1;
        SuccessorPath(ix, l, m);
        SuccessorPath(ix, l, last);
        assert false;
      }
    }
  }

  /** Along a path from an element of rank above 0, ranks stay above 0 and
      drop by at least one per step. */
  lemma {:induction false} PathDescends<A(!new)>(ix: Index<A>, rank: A -> nat, root: A, l: seq<A>, j: nat, k: nat)
    requires RankedFrom(ix, rank, root) && Path(ix, l)
    requires j <= k < |l| && 0 < rank(l[j])
    ensures 0 < rank(l[k]) && rank(l[k]) + (k - j) <= rank(l[j])
    decreases k - j
  {
    if j < k {
      PathDescends(ix, rank, root, l, j, k - 1);
      assert l[k] in Children(ix, l[k - 1]);
    }
  }

  /** The termination hypothesis and a reachable cycle exclude each other. */
  lemma RankedFromHasNoLasso<A(!new)>(ix: Index<A>, rank: A -> nat, l: seq<A>, m: nat)
    requires |l| > 0 && RankedFrom(ix, rank, l[0])
    ensures !Lasso(ix, l, m)
  {
    if Lasso(ix, l, m) {
      var last := |l| - 1;
      PathDescends(ix, rank, l[0], l, 0, m);
      PathDescends(ix, rank, l[0], l, m, last);
      assert false;
    }
  }

  /** A root marker that is annotated with itself never lets the walk finish. */
  lemma SelfMarkedRootDiverges<A(!new)>(ix: Index<A>, root: A, fuel: nat)
    requires root in Children(ix, root)
    ensures Run(ix, Init(root), fuel).queue != []
    ensures |Run(ix, Init(root), fuel).components| == fuel
  {
    assert Lasso(ix, [root], 0);
    ReachableCycleDiverges(ix, [root], 0, fuel);
  }
}
