/*
 * The class UnionFind of mincut.cpp: a disjoint-set forest over the nodes
 * together with the working edge list, contracted in place by Karger's
 * algorithm.  Each method is proved against the functions of Sets,
 * Contraction and Amplifier, through View(), the state a trial can observe.
 */
module KargerMinCut {
  import opened Sets
  import opened Forest
  import opened Edges
  import opened Contraction
  import opened Amplifier

  class UnionFind {
    var parent: seq<int>
    var ranks: seq<int>
    var edges: seq<Edge>
    var nodeCount: int
    var edgeCount: int

    /** The forest is rank-ordered: every parent link climbs in rank. */
    ghost predicate Ranked()
      reads this`parent, this`ranks
    {
      RankOrdered(parent, ranks)
    }

    /** The forest is rank-ordered, every edge names real nodes, and edgeCount is the list's length. */
    ghost predicate Valid()
      reads this
    {
      Ranked() && InRange(edges, |parent|) && edgeCount == |edges|
    }

    /** The sets as `find` reports them, with their ranks. */
    ghost function Groups(): (p: Partition)
      reads this`parent, this`ranks
      requires Ranked()
      ensures WellFormed(p) && |p.rep| == |parent|
    {
      Partition(Labels(parent, ranks), ranks)
    }

    /** The state a trial observes. */
    ghost function View(): (g: Graph)
      reads this
      requires Valid()
      ensures Ok(g)
    {
      Graph(Groups(), edges, nodeCount)
    }

    /**
     * Builds the structure from a node count and the edge list the source
     * reads from its input: every node its own root of rank 1.
     */
    constructor (nodeCt: int, initial: seq<Edge>)
      requires InRange(initial, nodeCt)
      ensures Valid() && nodeCount == nodeCt && edges == initial && edgeCount == |initial|
      ensures |parent| == (if nodeCt < 0 then 0 else nodeCt)
      ensures forall i :: 0 <= i < |parent| ==> parent[i] == i && ranks[i] == 1
      ensures nodeCt >= 0 && NoSelfLoops(initial) ==> Fresh(View())
    {
      var p: seq<int>, r: seq<int> := [], [];
      var i := 0;
      while i < nodeCt
        invariant 0 <= i && (nodeCt >= 0 ==> i <= nodeCt) && (nodeCt < 0 ==> i == 0)
        invariant |p| == |r| == i
        invariant forall j :: 0 <= j < i ==> p[j] == j && r[j] == 1
      {
        p := p + [i];
        r := r + [1];
        i := i + 1;
      }
      parent, ranks, edges := p, r, initial;
      nodeCount, edgeCount := nodeCt, |initial|;
      new;
      assert RankOrdered(parent, ranks);
      forall j | 0 <= j < |parent|
        ensures Labels(parent, ranks)[j] == j
      {
      }
    }

    /** `find` with path halving: returns the root of i and changes only parent. */
    method Find(i: int) returns (r: int)
      requires Ranked() && 0 <= i < |parent|
      modifies this`parent
      ensures Ranked() && |parent| == old(|parent|)
      ensures r == old(Groups()).rep[i] && parent[r] == r
      ensures Groups() == old(Groups())
    {
      var x := i;
      while parent[x] != x
        invariant Ranked() && |parent| == old(|parent|)
        invariant 0 <= x < |parent|
        invariant Groups() == old(Groups())
        invariant Groups().rep[x] == Groups().rep[i]
        decreases MaxRank(ranks) - ranks[x]
      {
        HalvingKeepsLabels(parent, ranks, x);
        parent := parent[x := parent[parent[x]]];
        x := parent[x];
      }
      r := x;
    }

    /** `unite`: union by size of the sets holding a and b. */
    method Unite(a: int, b: int)
      requires Ranked() && 0 <= a < |parent| && 0 <= b < |parent|
      modifies this`parent, this`ranks
      ensures Ranked() && |parent| == old(|parent|)
      ensures Groups() == Merge(old(Groups()), a, b)
    {
      var rootA := Find(a);
      var rootB := Find(b);
      Link(a, b, rootA, rootB);
    }

    /**
     * The second half of `unite`, once both roots are known: the root of
     * smaller or equal rank goes under the other, which takes the sum of both
     * ranks.
     */
    method Link(a: int, b: int, rootA: int, rootB: int)
      requires Ranked() && 0 <= a < |parent| && 0 <= b < |parent|
      requires rootA == Groups().rep[a] && rootB == Groups().rep[b]
      modifies this`parent, this`ranks
      ensures Ranked() && |parent| == old(|parent|)
      ensures Groups() == Merge(old(Groups()), a, b)
    {
      var lo, hi := rootA, rootB;
      if ranks[rootA] > ranks[rootB] {
        lo, hi := rootB, rootA;
      }
      ghost var forest, sizes := parent, ranks;
      parent := parent[lo := hi];
      ranks := ranks[hi := ranks[hi] + ranks[lo]];
      LinkIsMerge(forest, sizes, a, b, lo, hi, parent, ranks);
    }

    /** `getEdge`: walks the list to its n-th edge. */
    method GetEdge(n: int) returns (e: Edge)
      requires 0 <= n < |edges|
      ensures e == edges[n]
    {
      var rest := edges;
      var i := 0;
      while i < n
        invariant 0 <= i <= n && rest == edges[i..]
      {
        rest := rest[1..];
        i := i + 1;
      }
      e := rest[0];
    }

    /**
     * `collapse`: unite the endpoints of the edge the draw picks, count one
     * node fewer, then rewrite the edge list.
     */
    method Collapse(draw: nat)
      requires Valid() && edgeCount >= 2
      modifies this
      ensures Valid() && |parent| == old(|parent|)
      ensures View() == Step(old(View()), draw)
    {
      var edge := GetEdge(EdgeIndex(draw, edgeCount));
      Contract(edge.src, edge.dest);
    }

    /** The part of `collapse` after the draw: unite a and b, one node fewer, rewrite the edges. */
    method Contract(a: int, b: int)
      requires Valid() && 0 <= a < |parent| && 0 <= b < |parent|
      modifies this
      ensures Valid() && |parent| == old(|parent|)
      ensures Groups() == Merge(old(Groups()), a, b)
      ensures edges == Normalize(Groups().rep, old(edges)) && nodeCount == old(nodeCount) - 1
    {
      Unite(a, b);
      nodeCount := nodeCount - 1;
      RelinkEdges();
    }

    /**
     * The pass at the end of `collapse`: every endpoint is replaced by what
     * `find` returns for it and every edge that became a self-loop is erased,
     * keeping the order of the others.
     */
    method RelinkEdges()
      requires Ranked() && InRange(edges, |parent|) && edgeCount == |edges|
      modifies this`parent, this`edges, this`edgeCount
      ensures Ranked() && Groups() == old(Groups()) && |parent| == old(|parent|)
      ensures edges == Normalize(Groups().rep, old(edges))
      ensures InRange(edges, |parent|) && edgeCount == |edges|
    {
      ghost var original, sets := edges, Groups();
      var i := 0;
      ghost var j := 0;
      while i < |edges|
        invariant Ranked() && Groups() == sets && |parent| == |sets.rep|
        invariant InRange(edges, |parent|) && edgeCount == |edges|
        invariant 0 <= i <= j <= |original| && |edges| - i == |original| - j
        invariant edges[..i] == Normalize(sets.rep, original[..j])
        invariant edges[i..] == original[j..]
        decreases |edges| - i
      {
        ghost var before := edges;
        assert edges[i] == edges[i..][0] == original[j];
        var kept := RelinkAt(i);
        PassStep(sets.rep, original, j, before, edges, i, kept);
        if kept {
          i := i + 1;
        }
        j := j + 1;
      }
      assert original[..j] == original;
    }

    /**
     * One step of that pass, on the edge at position i: both endpoints are
     * replaced by their roots, and the edge is erased if they coincide.
     * Reports whether the edge was kept.
     */
    method RelinkAt(i: int) returns (kept: bool)
      requires Ranked() && InRange(edges, |parent|) && edgeCount == |edges| && 0 <= i < |edges|
      modifies this`parent, this`edges, this`edgeCount
      ensures Ranked() && Groups() == old(Groups()) && |parent| == old(|parent|)
      ensures InRange(edges, |parent|) && edgeCount == |edges|
      ensures var e := Lift(Groups().rep, old(edges[i]));
        kept == (e.src != e.dest) &&
        edges == if kept then old(edges[i := e]) else old(edges[..i] + edges[i + 1..])
    {
      var src := Find(edges[i].src);
      var dest := Find(edges[i].dest);
      edges := edges[i := Edge(src, dest)];
      kept := src != dest;
      if !kept {
        edges, edgeCount := edges[..i] + edges[i + 1..], edgeCount - 1;
      }
    }

    /**
     * `karger`: one trial.  Contracts until at most two super-nodes remain,
     * sweeps `find` over all but the last node, reads the edge count and
     * restores every field from the snapshot taken on entry.  A trial that
     * cannot draw an edge (more than two super-nodes, fewer than two edges)
     * reports failure instead.
     */
    method Karger(draws: seq<nat>) returns (cut: Option<nat>)
      requires Valid() && |draws| >= nodeCount - 2
      modifies this
      ensures parent == old(parent) && ranks == old(ranks) && edges == old(edges)
      ensures nodeCount == old(nodeCount) && edgeCount == old(edgeCount)
      ensures Valid() && View() == old(View())
      ensures cut == Run(old(View()), draws)
    {
      var parentTemp, ranksTemp, edgesTemp := parent, ranks, edges;
      var nodeCountTemp, edgeCountTemp := nodeCount, edgeCount;
      cut := Contractions(draws);
      Restore(parentTemp, ranksTemp, edgesTemp, nodeCountTemp, edgeCountTemp);
    }

    /** The end of `karger`: every field is reset from the snapshot. */
    method Restore(parentTemp: seq<int>, ranksTemp: seq<int>, edgesTemp: seq<Edge>, nodeCountTemp: int, edgeCountTemp: int)
      modifies this
      ensures parent == parentTemp && ranks == ranksTemp && edges == edgesTemp
      ensures nodeCount == nodeCountTemp && edgeCount == edgeCountTemp
    {
      parent, ranks, edges := parentTemp, ranksTemp, edgesTemp;
      nodeCount, edgeCount := nodeCountTemp, edgeCountTemp;
    }

    /**
     * The body of `karger` between taking the snapshot and restoring it:
     * collapse until at most two super-nodes remain, sweep `find`, and read
     * the number of edges left.
     */
    method Contractions(draws: seq<nat>) returns (cut: Option<nat>)
      requires Valid() && |draws| >= nodeCount - 2
      modifies this
      ensures cut == Run(old(View()), draws)
    {
      var t := 0;
      while nodeCount > 2
        invariant Valid()
        invariant 0 <= t <= |draws| && |draws| - t >= nodeCount - 2
        invariant Run(View(), draws[t..]) == Run(old(View()), draws)
        decreases nodeCount
      {
        if edgeCount < 2 {
          break;
        }
        assert draws[t..][1..] == draws[t + 1..];
        Collapse(draws[t]);
        t := t + 1;
      }
      if nodeCount > 2 {
        cut := None;
      } else {
        FindAll();
        cut := Some(|edges|);
      }
    }

    /** The sweep of `karger`: `find` on every node but the last, which changes no set. */
    method FindAll()
      requires Ranked()
      modifies this`parent
      ensures Ranked() && |parent| == old(|parent|) && Groups() == old(Groups())
    {
      var i := 0;
      while i < |parent| - 1
        invariant Ranked() && |parent| == old(|parent|) && 0 <= i
        invariant Groups() == old(Groups())
      {
        var _ := Find(i);
        i := i + 1;
      }
    }

    /**
     * `minCut`: runs a trial, then one more for every i in [1, k), and keeps
     * the smallest result; the structure is unchanged afterwards.
     */
    method MinCut(k: int, trialDraws: seq<seq<nat>>) returns (best: Option<nat>)
      requires Valid() && |trialDraws| >= Runs(k)
      requires forall t :: 0 <= t < |trialDraws| ==> |trialDraws[t]| >= nodeCount - 2
      modifies this
      ensures parent == old(parent) && ranks == old(ranks) && edges == old(edges)
      ensures nodeCount == old(nodeCount) && edgeCount == old(edgeCount)
      ensures best == Best(Trials(old(View()), trialDraws[..Runs(k)]))
    {
      ghost var g := View();
      assert Ok(g) && EnoughDraws(g, trialDraws);
      best := FirstTrial(g, trialDraws);
      var i := 1;
      while i < k
        invariant 1 <= i <= Runs(k) <= |trialDraws|
        invariant Ok(g) && EnoughDraws(g, trialDraws)
        invariant Valid() && View() == g
        invariant parent == old(parent) && ranks == old(ranks) && edges == old(edges)
        invariant nodeCount == old(nodeCount) && edgeCount == old(edgeCount)
        invariant best == Best(Trials(g, trialDraws[..i]))
      {
        best := FoldTrial(g, trialDraws, i, best);
        i := i + 1;
      }
      assert i == Runs(k);
    }

    /** The first trial of `minCut`, which runs whatever the trial count. */
    method FirstTrial(ghost g: Graph, trialDraws: seq<seq<nat>>) returns (best: Option<nat>)
      requires Valid() && View() == g && EnoughDraws(g, trialDraws) && |trialDraws| >= 1
      modifies this
      ensures parent == old(parent) && ranks == old(ranks) && edges == old(edges)
      ensures nodeCount == old(nodeCount) && edgeCount == old(edgeCount)
      ensures Valid() && View() == g
      ensures best == Best(Trials(g, trialDraws[..1]))
    {
      best := Karger(trialDraws[0]);
      assert Trials(g, trialDraws[..1]) == [best];
    }

    /**
     * The body of the loop of `minCut`: one more trial, whose result is kept
     * when it is smaller than the best so far.
     */
    method FoldTrial(ghost g: Graph, trialDraws: seq<seq<nat>>, i: int, best: Option<nat>) returns (next: Option<nat>)
      requires Valid() && View() == g && Ok(g) && EnoughDraws(g, trialDraws) && 1 <= i < |trialDraws|
      requires best == Best(Trials(g, trialDraws[..i]))
      modifies this
      ensures parent == old(parent) && ranks == old(ranks) && edges == old(edges)
      ensures nodeCount == old(nodeCount) && edgeCount == old(edgeCount)
      ensures Valid() && View() == g
      ensures next == Best(Trials(g, trialDraws[..i + 1]))
    {
      var cut := Karger(trialDraws[i]);
      BestExtend(g, trialDraws, i);
      next := Smaller(best, cut);
    }
  }
}
