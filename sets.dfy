/*
 * The disjoint-set structure as its callers see it: every node is mapped to
 * the representative that `find` returns for it, and every representative
 * carries the rank (set size) that `unite` compares.
 */
module Sets {

  /** rep[j] is the representative of node j; ranks[r] is the rank of node r. */
  datatype Partition = Partition(rep: seq<int>, ranks: seq<int>)

  /** x is a node that represents its own set. */
  predicate IsRoot(rep: seq<int>, x: int) {
    0 <= x < |rep| && rep[x] == x
  }

  /** Every node names a node in range, and that node represents itself. */
  predicate Canonical(rep: seq<int>) {
    forall j :: 0 <= j < |rep| ==> 0 <= rep[j] < |rep| && rep[rep[j]] == rep[j]
  }

  predicate WellFormed(p: Partition) {
    |p.rep| == |p.ranks| && Canonical(p.rep)
  }

  /** The representatives, one per set (the super-nodes of a contraction). */
  function Roots(rep: seq<int>): set<int> {
    set j | 0 <= j < |rep| && rep[j] == j
  }

  /** The nodes whose representative is r. */
  function Class(rep: seq<int>, r: int): set<int> {
    set j | 0 <= j < |rep| && rep[j] == r
  }

  /** Every node of set `from` moves to set `to`. */
  function Relabel(rep: seq<int>, from: int, to: int): seq<int> {
    seq(|rep|, j requires 0 <= j < |rep| => if rep[j] == from then to else rep[j])
  }

  /**
   * Union by size of the sets holding a and b: the representative whose rank
   * is not larger is attached under the other, whose rank becomes the sum of
   * both.  When a and b are already together the representative is attached
   * under itself and its rank doubles.
   */
  function Merge(p: Partition, a: int, b: int): (q: Partition)
    requires WellFormed(p) && 0 <= a < |p.rep| && 0 <= b < |p.rep|
    ensures WellFormed(q) && |q.rep| == |p.rep|
    ensures q.rep[a] == q.rep[b]
    ensures q.rep[a] == (if p.ranks[p.rep[a]] <= p.ranks[p.rep[b]] then p.rep[b] else p.rep[a])
    ensures forall j :: 0 <= j < |p.rep| ==>
      q.rep[j] == if p.rep[j] == p.rep[a] || p.rep[j] == p.rep[b] then q.rep[a] else p.rep[j]
    ensures forall j :: 0 <= j < |p.rep| ==> q.rep[p.rep[j]] == q.rep[j]
    ensures q.ranks == p.ranks[q.rep[a] := p.ranks[p.rep[a]] + p.ranks[p.rep[b]]]
    ensures p.rep[a] == p.rep[b] ==> q.rep == p.rep
  {
    var ra, rb := p.rep[a], p.rep[b];
    if p.ranks[ra] <= p.ranks[rb] then
      Partition(Relabel(p.rep, ra, rb), p.ranks[rb := p.ranks[rb] + p.ranks[ra]])
    else
      Partition(Relabel(p.rep, rb, ra), p.ranks[ra := p.ranks[ra] + p.ranks[rb]])
  }

  /**
   * Merge attaches the representative lo under the representative hi exactly
   * when lo holds one of a, b and hi the other, and lo's rank is smaller, or
   * equal with lo holding a.
   */
  lemma MergeAttaches(rep: seq<int>, ranks: seq<int>, a: int, b: int, lo: int, hi: int, grown: seq<int>)
    requires WellFormed(Partition(rep, ranks)) && 0 <= a < |rep| && 0 <= b < |rep|
    requires || (lo == rep[a] && hi == rep[b] && ranks[lo] <= ranks[hi])
             || (lo == rep[b] && hi == rep[a] && ranks[lo] < ranks[hi])
    requires grown == ranks[hi := ranks[hi] + ranks[lo]]
    ensures Merge(Partition(rep, ranks), a, b) == Partition(Relabel(rep, lo, hi), grown)
  {
  }

  /** Removing an element lowers a set's size by one. */
  lemma RemoveOne(s: set<int>, x: int)
    requires x in s
    ensures |s - {x}| == |s| - 1
  {
    assert s == (s - {x}) + {x};
  }

  /** Merging two different sets leaves one representative fewer: the one attached under the other. */
  lemma MergeDropsOneRoot(p: Partition, a: int, b: int)
    requires WellFormed(p) && 0 <= a < |p.rep| && 0 <= b < |p.rep|
    requires p.rep[a] != p.rep[b]
    ensures var q := Merge(p, a, b);
      var loser := if q.rep[a] == p.rep[a] then p.rep[b] else p.rep[a];
      loser in Roots(p.rep) && Roots(q.rep) == Roots(p.rep) - {loser} &&
      |Roots(q.rep)| == |Roots(p.rep)| - 1
  {
    var q := Merge(p, a, b);
    var winner := q.rep[a];
    var loser := if winner == p.rep[a] then p.rep[b] else p.rep[a];
    forall x | 0 <= x < |p.rep|
      ensures x in Roots(q.rep) <==> x in Roots(p.rep) && x != loser
    {
      if p.rep[x] == loser {
        assert q.rep[x] == winner;
      }
    }
    assert Roots(q.rep) == Roots(p.rep) - {loser};
    RemoveOne(Roots(p.rep), loser);
  }

  /** When every node is its own representative there are as many sets as nodes. */
  lemma {:induction false} AllRoots(rep: seq<int>)
    requires forall j :: 0 <= j < |rep| ==> rep[j] == j
    ensures |Roots(rep)| == |rep|
    decreases |rep|
  {
    if rep != [] {
      var n := |rep| - 1;
      AllRoots(rep[..n]);
      assert Roots(rep) == Roots(rep[..n]) + {n};
    }
  }
}
