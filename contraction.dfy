/*
 * Karger's contraction as functions on the observable state of UnionFind
 * (mincut.cpp): the representative of every node, the ranks, the edge list
 * and the live node count.  Step is one `collapse`, Run is one `karger`
 * trial; the random draws are parameters.
 */
module Contraction {
  import opened Sets
  import opened Edges

  datatype Option<T> = None | Some(value: T)

  /** What a trial can observe of UnionFind; the edge count is |edges|. */
  datatype Graph = Graph(sets: Partition, edges: seq<Edge>, nodeCount: int)

  predicate Ok(g: Graph) {
    WellFormed(g.sets) && InRange(g.edges, |g.sets.rep|)
  }

  /**
   * The position `collapse` picks for a draw: the draw modulo edgeCount - 1,
   * so the last edge of the list can never be picked.
   */
  function EdgeIndex(draw: nat, edgeCount: int): (k: nat)
    requires edgeCount >= 2
    ensures k <= edgeCount - 2
  {
    draw % (edgeCount - 1)
  }

  /** One `collapse`: unite the endpoints of the picked edge, normalize the edges, one node fewer. */
  function Step(g: Graph, draw: nat): (h: Graph)
    requires Ok(g) && |g.edges| >= 2
    ensures Ok(h) && |h.sets.rep| == |g.sets.rep| && h.nodeCount == g.nodeCount - 1
    ensures forall k :: 0 <= k < |h.edges| ==>
      IsRoot(h.sets.rep, h.edges[k].src) && IsRoot(h.sets.rep, h.edges[k].dest) &&
      h.edges[k].src != h.edges[k].dest
  {
    var e := g.edges[EdgeIndex(draw, |g.edges|)];
    var sets := Merge(g.sets, e.src, e.dest);
    Graph(sets, Normalize(sets.rep, g.edges), g.nodeCount - 1)
  }

  /**
   * One `karger` trial: contract until at most two super-nodes remain and
   * report the number of edges left.  A trial that still has more than two
   * super-nodes but fewer than two edges cannot draw an edge: it fails.
   */
  function Run(g: Graph, draws: seq<nat>): (r: Option<nat>)
    requires Ok(g) && |draws| >= g.nodeCount - 2
    ensures r.None? ==> g.nodeCount > 2
    ensures r.Some? ==> r.value <= |g.edges|
    decreases |draws|
  {
    if g.nodeCount <= 2 then Some(|g.edges|)
    else if |g.edges| < 2 then None
    else Run(Step(g, draws[0]), draws[1..])
  }

  /** The state a trial starts from: every node its own root, no self-loops. */
  predicate Fresh(g: Graph) {
    Ok(g) &&
    (forall j :: 0 <= j < |g.sets.rep| ==> g.sets.rep[j] == j) &&
    g.nodeCount == |g.sets.rep| && NoSelfLoops(g.edges)
  }

  /**
   * The invariant of a trial on the graph with edge list `original`: the
   * edges are the original ones lifted to their super-nodes with the
   * self-loops gone, and nodeCount counts the super-nodes.
   */
  predicate Reduced(g: Graph, original: seq<Edge>) {
    Ok(g) && InRange(original, |g.sets.rep|) &&
    g.edges == Normalize(g.sets.rep, original) &&
    g.nodeCount == |Roots(g.sets.rep)|
  }

  /** Every fresh graph is reduced with respect to its own edges. */
  lemma FreshIsReduced(g: Graph)
    requires Fresh(g)
    ensures Reduced(g, g.edges)
  {
    NormalizeSingletons(g.sets.rep, g.edges);
    AllRoots(g.sets.rep);
  }

  /**
   * A collapse keeps a trial reduced: the picked edge joins two different
   * super-nodes, so exactly one super-node disappears, matching the drop of
   * nodeCount by one.
   */
  lemma StepKeepsReduced(g: Graph, original: seq<Edge>, draw: nat)
    requires Reduced(g, original) && |g.edges| >= 2
    ensures Reduced(Step(g, draw), original)
  {
    var e := g.edges[EdgeIndex(draw, |g.edges|)];
    var sets := Merge(g.sets, e.src, e.dest);
    assert IsRoot(g.sets.rep, e.src) && IsRoot(g.sets.rep, e.dest) && e.src != e.dest;
    MergeDropsOneRoot(g.sets, e.src, e.dest);
    NormalizeTwice(g.sets.rep, sets.rep, original);
  }

  /** side is a cut of a graph with n nodes: a non-empty set of nodes that leaves some node out. */
  predicate ProperSide(side: set<int>, n: int) {
    (forall j :: j in side ==> 0 <= j < n) &&
    (exists j :: j in side) &&
    (exists j :: 0 <= j < n && j !in side)
  }

  /** Some element of a non-empty set. */
  lemma PickOne(s: set<int>) returns (y: int)
    requires |s| >= 1
    ensures y in s
  {
    if forall z :: z !in s {
      assert false;
    }
    y :| y in s;
  }

  /** A set of at least two elements has an element other than x. */
  lemma AnotherElement(s: set<int>, x: int) returns (y: int)
    requires |s| >= 2
    ensures y in s && y != x
  {
    var rest := s - {x};
    if x in s {
      assert s == rest + {x};
    } else {
      assert rest == s;
    }
    assert |rest| >= 1;
    y := PickOne(rest);
  }

  /** With exactly two super-nodes left, the edges left are exactly the cut between them. */
  lemma TwoRootsCut(g: Graph, original: seq<Edge>) returns (side: set<int>)
    requires Reduced(g, original) && g.nodeCount == 2
    ensures ProperSide(side, |g.sets.rep|) && Crossing(original, side) == |g.edges|
  {
    var rep := g.sets.rep;
    var roots := Roots(rep);
    var r1 := PickOne(roots);
    var r2 := AnotherElement(roots, r1);
    RemoveOne(roots, r1);
    RemoveOne(roots - {r1}, r2);
    assert roots - {r1} - {r2} == {};
    side := Class(rep, r1);
    assert r1 in side && r2 !in side;
    ClassCrossing(rep, original, r1);
    forall k | 0 <= k < |g.edges|
      ensures g.edges[k].src == r1 || g.edges[k].dest == r1
    {
      assert g.edges[k].src in roots && g.edges[k].dest in roots;
    }
    IncidentAll(g.edges, r1);
  }

  /**
   * With more than two super-nodes and fewer than two edges, some super-node
   * has no edge at all: its nodes form a cut of size zero.
   */
  lemma StuckCut(g: Graph, original: seq<Edge>) returns (side: set<int>)
    requires Reduced(g, original) && g.nodeCount > 2 && |g.edges| < 2
    ensures ProperSide(side, |g.sets.rep|) && Crossing(original, side) == 0
  {
    var rep := g.sets.rep;
    var roots := Roots(rep);
    var r: int;
    if |g.edges| == 0 {
      r := AnotherElement(roots, -1);
      assert Incident(g.edges, r) == 0;
    } else {
      var f := g.edges[0];
      var notSrc := roots - {f.src};
      assert f.src in roots;
      RemoveOne(roots, f.src);
      r := AnotherElement(notSrc, f.dest);
      assert g.edges[..0] == [];
      assert Incident(g.edges, r) == Incident([], r) + 0;
    }
    var other := AnotherElement(roots, r);
    side := Class(rep, r);
    assert IsRoot(rep, r) && IsRoot(rep, other);
    assert r in side && other !in side;
    ClassCrossing(rep, original, r);
  }

  /**
   * A reduced trial with at least two super-nodes reports the size of a cut of
   * the original graph: the edges crossing between the two super-nodes it ends
   * with.  A trial that fails has found a super-node with no edge leaving it,
   * that is a cut of size zero: the graph is disconnected.
   */
  lemma {:induction false} RunFindsCut(g: Graph, original: seq<Edge>, draws: seq<nat>) returns (side: set<int>)
    requires Reduced(g, original) && g.nodeCount >= 2 && |draws| >= g.nodeCount - 2
    ensures ProperSide(side, |g.sets.rep|)
    ensures Crossing(original, side) == match Run(g, draws) case Some(c) => c case None => 0
    decreases |draws|
  {
    if g.nodeCount <= 2 {
      side := TwoRootsCut(g, original);
    } else if |g.edges| < 2 {
      side := StuckCut(g, original);
    } else {
      StepKeepsReduced(g, original, draws[0]);
      side := RunFindsCut(Step(g, draws[0]), original, draws[1..]);
    }
  }

  /**
   * On a fresh graph with at least two nodes, every trial reports the size of
   * some cut of that graph, so never less than its minimum cut; a failed trial
   * reports that the graph is disconnected.
   */
  lemma TrialIsCut(g: Graph, draws: seq<nat>) returns (side: set<int>)
    requires Fresh(g) && g.nodeCount >= 2 && |draws| >= g.nodeCount - 2
    ensures ProperSide(side, g.nodeCount)
    ensures Crossing(g.edges, side) == match Run(g, draws) case Some(c) => c case None => 0
  {
    FreshIsReduced(g);
    side := RunFindsCut(g, g.edges, draws);
  }
}
