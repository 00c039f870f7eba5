/** Nodes of the component graph.

    A node is an immutable record; other nodes are referred to by `NodeId`,
    an index into an arena of nodes. Ids stand for object identity: the
    Java class has no `equals` of its own, so two nodes whose fields agree
    are still different nodes when their ids differ.
 */
module Nodes {

  /** Identity of a node: its position in the arena. */
  type NodeId = nat

  /** All nodes of one graph build, indexed by `NodeId`. */
  type Arena = seq<Node>

  datatype Node = Node(
    name: string,
    fullName: string,
    isComponent: bool,
    referencedFrom: seq<NodeId>,
    test: bool,
    controller: bool,
    config: bool,
    interfaceImpl: bool,
    isInterface: bool,
    repository: bool,
    inheritsFrom: seq<NodeId>,
    pubsub: bool
  )

  /** The role flags of a node, seen as a set. */
  datatype Role = Component | Test | Controller | Config | InterfaceImpl | Interface | Repository | PubSub

  function Roles(n: Node): set<Role>
  {
    (if n.isComponent then {Component} else {})
    + (if n.test then {Test} else {})
    + (if n.controller then {Controller} else {})
    + (if n.config then {Config} else {})
    + (if n.interfaceImpl then {InterfaceImpl} else {})
    + (if n.isInterface then {Interface} else {})
    + (if n.repository then {Repository} else {})
    + (if n.pubsub then {PubSub} else {})
  }

  /** The referrer list seen as a set. */
  function Referrers(n: Node): set<NodeId>
  {
    set y | y in n.referencedFrom
  }

  predicate NoDuplicates<T(==)>(s: seq<T>)
  {
    forall i, j :: 0 <= i < j < |s| ==> s[i] != s[j]
  }

  /** The only constructor: every flag but `pubsub` and every field but
      `inheritsFrom` comes from the caller; those two always start out
      false and empty. The referrer list is taken as given. */
  function Construct(
    name: string,
    fullName: string,
    isComponent: bool,
    referencedFrom: seq<NodeId>,
    test: bool,
    controller: bool,
    config: bool,
    interfaceImpl: bool,
    isInterface: bool,
    repository: bool
  ): (n: Node)
    ensures PubSub !in Roles(n)
    ensures n.inheritsFrom == []
    ensures n.name == name && n.fullName == fullName && n.referencedFrom == referencedFrom
    ensures Roles(n) ==
      (if isComponent then {Component} else {})
      + (if test then {Test} else {})
      + (if controller then {Controller} else {})
      + (if config then {Config} else {})
      + (if interfaceImpl then {InterfaceImpl} else {})
      + (if isInterface then {Interface} else {})
      + (if repository then {Repository} else {})
  {
    Node(name, fullName, isComponent, referencedFrom, test, controller, config,
         interfaceImpl, isInterface, repository, [], false)
  }

  /** A node discovered through a marker annotation: a component and nothing else. */
  function NewComponent(name: string, fullName: string): (n: Node)
    ensures n.name == name && n.fullName == fullName
    ensures Roles(n) == {Component}
    ensures n.referencedFrom == [] && n.inheritsFrom == []
  {
    Construct(name, fullName, true, [], false, false, false, false, false, false)
  }

  /** A plain placeholder class: no role at all. */
  function NewClass(name: string, fullName: string): (n: Node)
    ensures n.name == name && n.fullName == fullName
    ensures Roles(n) == {}
    ensures n.referencedFrom == [] && n.inheritsFrom == []
  {
    Construct(name, fullName, false, [], false, false, false, false, false, false)
  }

  /** A placeholder for a test class: the test role and nothing else. */
  function NewTestClass(name: string, fullName: string): (n: Node)
    ensures n.name == name && n.fullName == fullName
    ensures Roles(n) == {Test}
    ensures n.referencedFrom == [] && n.inheritsFrom == []
  {
    Construct(name, fullName, false, [], true, false, false, false, false, false)
  }

  /** `NewClass` differs from `NewComponent` in the component flag only,
      and `NewTestClass` from `NewClass` in the test flag only. */
  lemma FactoriesDifferInOneFlag(name: string, fullName: string)
    ensures NewClass(name, fullName) == NewComponent(name, fullName).(isComponent := false)
    ensures NewTestClass(name, fullName) == NewClass(name, fullName).(test := true)
    ensures NewComponent(name, fullName) != NewClass(name, fullName)
    ensures NewTestClass(name, fullName) != NewComponent(name, fullName)
  {
  }

  /** Records that `x` references `n`: appended once, never twice. */
  function AddReferrer(n: Node, x: NodeId): (r: Node)
    ensures x in r.referencedFrom
    ensures x in n.referencedFrom ==> r == n
    ensures x !in n.referencedFrom ==> r.referencedFrom == n.referencedFrom + [x]
    ensures r == n.(referencedFrom := r.referencedFrom)
    ensures Roles(r) == Roles(n)
    ensures NoDuplicates(n.referencedFrom) ==> NoDuplicates(r.referencedFrom)
  {
    if x in n.referencedFrom then n
    else n.(referencedFrom := n.referencedFrom + [x])
  }

  /** Adding the same referrer twice is the same as adding it once. */
  lemma AddReferrerIdempotent(n: Node, x: NodeId)
    ensures AddReferrer(AddReferrer(n, x), x) == AddReferrer(n, x)
  {
  }

  /** Seen as a set, the referrers grow by exactly `x`. */
  lemma AddReferrerElements(n: Node, x: NodeId)
    ensures Referrers(AddReferrer(n, x)) == Referrers(n) + {x}
  {
  }

  /** The receiving node is updated and every other node of the arena is left as it was. */
  function Link(g: Arena, target: NodeId, source: NodeId): (h: Arena)
    requires target < |g|
    ensures |h| == |g|
    ensures h[target] == AddReferrer(g[target], source)
    ensures forall i :: 0 <= i < |g| && i != target ==> h[i] == g[i]
  {
    g[target := AddReferrer(g[target], source)]
  }

  /** Referrers are compared by identity: two distinct nodes whose fields
      agree are both recorded. This holds by construction of the model,
      since any two different ids are both recorded and the equal fields
      play no part in the proof; the lemma documents that choice. */
  lemma IdentityNotEquality(g: Arena, target: NodeId, a: NodeId, b: NodeId)
    requires target < |g| && a < |g| && b < |g|
    requires a != b && g[a] == g[b]
    ensures a in Link(Link(g, target, a), target, b)[target].referencedFrom
    ensures b in Link(Link(g, target, a), target, b)[target].referencedFrom
  {
  }

  /** A sequence of `AddReferrer` calls, in order. */
  function AddReferrers(n: Node, xs: seq<NodeId>): (r: Node)
    ensures r == n.(referencedFrom := r.referencedFrom)
    ensures n.referencedFrom <= r.referencedFrom
    ensures forall y :: y in r.referencedFrom <==> y in n.referencedFrom || y in xs
    ensures NoDuplicates(n.referencedFrom) ==> NoDuplicates(r.referencedFrom)
    decreases |xs|
  {
    if xs == [] then n else AddReferrers(AddReferrer(n, xs[0]), xs[1..])
  }

  /** Referrers that are all present already change nothing. */
  lemma {:induction false} AddPresentReferrers(n: Node, xs: seq<NodeId>)
    requires forall x :: x in xs ==> x in n.referencedFrom
    ensures AddReferrers(n, xs) == n
    decreases |xs|
  {
    if xs != [] {
      assert AddReferrer(n, xs[0]) == n;
      AddPresentReferrers(n, xs[1..]);
    }
  }

  /** Repeating a whole batch of referrers is idempotent. */
  lemma AddReferrersIdempotent(n: Node, xs: seq<NodeId>)
    ensures AddReferrers(AddReferrers(n, xs), xs) == AddReferrers(n, xs)
  {
    AddPresentReferrers(AddReferrers(n, xs), xs);
  }

  /** A node made by any factory and then given referrers keeps a
      duplicate-free referrer list holding exactly the referrers given,
      and keeps the roles the factory set. */
  lemma {:induction false} FactoryNodesStayDuplicateFree(name: string, fullName: string, xs: seq<NodeId>)
    ensures NoDuplicates(AddReferrers(NewComponent(name, fullName), xs).referencedFrom)
    ensures NoDuplicates(AddReferrers(NewClass(name, fullName), xs).referencedFrom)
    ensures NoDuplicates(AddReferrers(NewTestClass(name, fullName), xs).referencedFrom)
    ensures forall y :: y in AddReferrers(NewComponent(name, fullName), xs).referencedFrom <==> y in xs
    ensures forall y :: y in AddReferrers(NewClass(name, fullName), xs).referencedFrom <==> y in xs
    ensures forall y :: y in AddReferrers(NewTestClass(name, fullName), xs).referencedFrom <==> y in xs
    ensures Roles(AddReferrers(NewComponent(name, fullName), xs)) == {Component}
    ensures Roles(AddReferrers(NewClass(name, fullName), xs)) == {}
    ensures Roles(AddReferrers(NewTestClass(name, fullName), xs)) == {Test}
  {
  }
}
