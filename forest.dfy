/*
 * The parent/rank arrays of UnionFind (mincut.cpp) as a forest.  Every node
 * starts as a root of rank 1, only roots ever gain rank, and a node is only
 * attached under a root of larger rank, so ranks strictly grow along every
 * parent link.  That is what makes `find` terminate, and it is the measure
 * the definitions below recurse on.
 */
module Forest {
  import opened Sets

  /** Parents are in range, ranks are positive, and every parent link climbs in rank. */
  ghost predicate RankOrdered(parent: seq<int>, ranks: seq<int>) {
    |parent| == |ranks| &&
    forall i {:trigger parent[i]} :: 0 <= i < |parent| ==>
      0 <= parent[i] < |parent| && ranks[i] >= 1 &&
      (parent[i] != i ==> ranks[parent[i]] > ranks[i])
  }

  /** An upper bound on every rank. */
  ghost function MaxRank(ranks: seq<int>): (m: int)
    ensures forall i :: 0 <= i < |ranks| ==> ranks[i] <= m
  {
    if ranks == [] then 0
    else
      var m := MaxRank(ranks[1..]);
      if ranks[0] > m then ranks[0] else m
  }

  /** The root reached from i by following parent links: what `find(i)` returns. */
  ghost function Root(parent: seq<int>, ranks: seq<int>, i: int): (r: int)
    requires RankOrdered(parent, ranks) && 0 <= i < |parent|
    ensures 0 <= r < |parent| && parent[r] == r
    ensures ranks[r] >= ranks[i]
    ensures r == i <==> parent[i] == i
    decreases MaxRank(ranks) - ranks[i]
  {
    if parent[i] == i then i else Root(parent, ranks, parent[i])
  }

  /** The representative of every node. */
  ghost function Labels(parent: seq<int>, ranks: seq<int>): (rep: seq<int>)
    requires RankOrdered(parent, ranks)
    ensures |rep| == |parent| && Canonical(rep)
    ensures forall j :: 0 <= j < |parent| ==> rep[j] == Root(parent, ranks, j)
  {
    seq(|parent|, j requires 0 <= j < |parent| => Root(parent, ranks, j))
  }

  /**
   * One path-halving step at x (parent[x] := parent[parent[x]]) keeps the
   * ranks ordered and does not change the root any node reaches.
   */
  lemma {:induction false} HalvingKeepsRoot(parent: seq<int>, ranks: seq<int>, x: int, j: int)
    requires RankOrdered(parent, ranks) && 0 <= x < |parent| && 0 <= j < |parent|
    ensures RankOrdered(parent[x := parent[parent[x]]], ranks)
    ensures Root(parent[x := parent[parent[x]]], ranks, j) == Root(parent, ranks, j)
    decreases MaxRank(ranks) - ranks[j]
  {
    var halved := parent[x := parent[parent[x]]];
    assert RankOrdered(halved, ranks) by {
      forall i | 0 <= i < |parent|
        ensures 0 <= halved[i] < |parent| && ranks[i] >= 1
        ensures halved[i] != i ==> ranks[halved[i]] > ranks[i]
      {
        if i == x && parent[x] != x && parent[parent[x]] != parent[x] {
          assert ranks[parent[parent[x]]] > ranks[parent[x]] > ranks[x];
        }
      }
    }
    if parent[j] != j {
      HalvingKeepsRoot(parent, ranks, x, parent[j]);
      if j == x {
        HalvingKeepsRoot(parent, ranks, x, parent[parent[j]]);
      }
    }
  }

  lemma HalvingKeepsLabels(parent: seq<int>, ranks: seq<int>, x: int)
    requires RankOrdered(parent, ranks) && 0 <= x < |parent|
    ensures RankOrdered(parent[x := parent[parent[x]]], ranks)
    ensures Labels(parent[x := parent[parent[x]]], ranks) == Labels(parent, ranks)
  {
    var halved := parent[x := parent[parent[x]]];
    HalvingKeepsRoot(parent, ranks, x, x);
    forall j | 0 <= j < |parent|
      ensures Root(halved, ranks, j) == Root(parent, ranks, j)
    {
      HalvingKeepsRoot(parent, ranks, x, j);
    }
  }

  /**
   * Attaching root a under root b and adding a's rank into b's keeps the ranks
   * ordered, and moves exactly the nodes that reached a so that they reach b.
   * With a == b nothing moves and the rank of a doubles.
   */
  lemma {:induction false} LinkMovesSet(parent: seq<int>, ranks: seq<int>, a: int, b: int, j: int)
    requires RankOrdered(parent, ranks)
    requires 0 <= a < |parent| && parent[a] == a && 0 <= b < |parent| && parent[b] == b
    requires 0 <= j < |parent|
    ensures RankOrdered(parent[a := b], ranks[b := ranks[b] + ranks[a]])
    ensures Root(parent[a := b], ranks[b := ranks[b] + ranks[a]], j) ==
            if Root(parent, ranks, j) == a then b else Root(parent, ranks, j)
    decreases MaxRank(ranks) - ranks[j]
  {
    var linked, grown := parent[a := b], ranks[b := ranks[b] + ranks[a]];
    assert RankOrdered(linked, grown) by {
      forall i | 0 <= i < |parent|
        ensures 0 <= linked[i] < |parent| && grown[i] >= 1
        ensures linked[i] != i ==> grown[linked[i]] > grown[i]
      {
      }
    }
    if j != a && parent[j] != j {
      LinkMovesSet(parent, ranks, a, b, parent[j]);
    }
  }

  lemma LinkMovesLabels(parent: seq<int>, ranks: seq<int>, a: int, b: int)
    requires RankOrdered(parent, ranks)
    requires 0 <= a < |parent| && parent[a] == a && 0 <= b < |parent| && parent[b] == b
    ensures RankOrdered(parent[a := b], ranks[b := ranks[b] + ranks[a]])
    ensures Labels(parent[a := b], ranks[b := ranks[b] + ranks[a]]) == Relabel(Labels(parent, ranks), a, b)
  {
    LinkMovesSet(parent, ranks, a, b, a);
    forall j | 0 <= j < |parent|
      ensures Root(parent[a := b], ranks[b := ranks[b] + ranks[a]], j) ==
              if Root(parent, ranks, j) == a then b else Root(parent, ranks, j)
    {
      LinkMovesSet(parent, ranks, a, b, j);
    }
  }

  /**
   * `unite` on the roots of a and b is Merge: the root lo of smaller or equal
   * rank goes under the other root hi, which takes the sum of both ranks.
   */
  lemma LinkIsMerge(parent: seq<int>, ranks: seq<int>, a: int, b: int, lo: int, hi: int,
                    linked: seq<int>, grown: seq<int>)
    requires RankOrdered(parent, ranks) && 0 <= a < |parent| && 0 <= b < |parent|
    requires || (lo == Root(parent, ranks, a) && hi == Root(parent, ranks, b) && ranks[lo] <= ranks[hi])
             || (lo == Root(parent, ranks, b) && hi == Root(parent, ranks, a) && ranks[lo] < ranks[hi])
    requires linked == parent[lo := hi] && grown == ranks[hi := ranks[hi] + ranks[lo]]
    ensures RankOrdered(linked, grown)
    ensures Partition(Labels(linked, grown), grown) == Merge(Partition(Labels(parent, ranks), ranks), a, b)
  {
    LinkMovesLabels(parent, ranks, lo, hi);
    MergeAttaches(Labels(parent, ranks), ranks, a, b, lo, hi, grown);
  }
}
