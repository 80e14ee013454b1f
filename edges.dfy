/*
 * The edge list of UnionFind (mincut.cpp) and the pass that `collapse` makes
 * over it: every endpoint is rewritten to its representative and every edge
 * whose endpoints now coincide is erased.
 */
module Edges {
  import opened Sets

  datatype Edge = Edge(src: int, dest: int)

  /** Both endpoints of every edge are nodes of a graph with n nodes. */
  predicate InRange(es: seq<Edge>, n: int) {
    forall k :: 0 <= k < |es| ==> 0 <= es[k].src < n && 0 <= es[k].dest < n
  }

  /** No edge joins a node to itself. */
  predicate NoSelfLoops(es: seq<Edge>) {
    forall k :: 0 <= k < |es| ==> es[k].src != es[k].dest
  }

  /** The edge between the representatives of e's endpoints. */
  function Lift(rep: seq<int>, e: Edge): Edge
    requires 0 <= e.src < |rep| && 0 <= e.dest < |rep|
  {
    Edge(rep[e.src], rep[e.dest])
  }

  /**
   * The edge list after one pass of `collapse`: each edge lifted to its
   * representatives, in the original order, the self-loops dropped.
   */
  function Normalize(rep: seq<int>, es: seq<Edge>): (r: seq<Edge>)
    requires Canonical(rep) && InRange(es, |rep|)
    ensures |r| <= |es|
    ensures forall k :: 0 <= k < |r| ==>
      IsRoot(rep, r[k].src) && IsRoot(rep, r[k].dest) && r[k].src != r[k].dest
    decreases |es|
  {
    if es == [] then []
    else
      var e := es[|es| - 1];
      var rest := Normalize(rep, es[..|es| - 1]);
      if rep[e.src] == rep[e.dest] then rest else rest + [Lift(rep, e)]
  }

  /** Normalizing one more edge of a list appends that edge, lifted, unless it became a self-loop. */
  lemma NormalizeExtend(rep: seq<int>, es: seq<Edge>, j: int)
    requires Canonical(rep) && InRange(es, |rep|) && 0 <= j < |es|
    ensures Normalize(rep, es[..j + 1]) ==
      if rep[es[j].src] == rep[es[j].dest] then Normalize(rep, es[..j])
      else Normalize(rep, es[..j]) + [Lift(rep, es[j])]
  {
    assert es[..j + 1][..j] == es[..j];
  }

  /**
   * One step of the pass of `collapse` over a list whose first i edges are
   * the normalized first j edges of `original` and whose rest is the rest of
   * `original`: the edge at i is lifted and kept, or erased if it became a
   * self-loop.  Afterwards the same holds with one more edge of `original`.
   */
  lemma PassStep(rep: seq<int>, original: seq<Edge>, j: int, before: seq<Edge>, after: seq<Edge>, i: int, kept: bool)
    requires Canonical(rep) && InRange(original, |rep|) && 0 <= i <= j < |original|
    requires |before| - i == |original| - j
    requires before[..i] == Normalize(rep, original[..j]) && before[i..] == original[j..]
    requires kept == (rep[original[j].src] != rep[original[j].dest])
    requires after == if kept then before[i := Lift(rep, original[j])] else before[..i] + before[i + 1..]
    ensures var next := if kept then i + 1 else i;
      0 <= next <= |after| && |after| - next == |original| - (j + 1) &&
      after[..next] == Normalize(rep, original[..j + 1]) && after[next..] == original[j + 1..]
  {
    NormalizeExtend(rep, original, j);
    assert before[i] == before[i..][0] == original[j];
    assert before[i + 1..] == before[i..][1..] == original[j + 1..];
    if kept {
      assert after[..i + 1] == before[..i] + [Lift(rep, original[j])];
      assert after[i + 1..] == before[i + 1..];
    } else {
      assert after[..i] == before[..i];
      assert after[i..] == before[i + 1..];
    }
  }

  /** The positions of the edges that survive Normalize. */
  function Kept(rep: seq<int>, es: seq<Edge>): seq<int>
    requires Canonical(rep) && InRange(es, |rep|)
    decreases |es|
  {
    if es == [] then []
    else
      var e := es[|es| - 1];
      var rest := Kept(rep, es[..|es| - 1]);
      if rep[e.src] == rep[e.dest] then rest else rest + [|es| - 1]
  }

  /**
   * Kept lists, in increasing order, exactly the positions of the edges whose
   * endpoints have different representatives.
   */
  lemma {:induction false} KeptPositions(rep: seq<int>, es: seq<Edge>)
    requires Canonical(rep) && InRange(es, |rep|)
    ensures var ks := Kept(rep, es);
      (forall k :: 0 <= k < |ks| ==> 0 <= ks[k] < |es|) &&
      (forall k, m :: 0 <= k < m < |ks| ==> ks[k] < ks[m]) &&
      (forall i :: 0 <= i < |es| ==> (i in ks <==> rep[es[i].src] != rep[es[i].dest]))
    decreases |es|
  {
    if es != [] {
      var n := |es| - 1;
      var prefix := es[..n];
      KeptPositions(rep, prefix);
      var ks0 := Kept(rep, prefix);
      assert forall i :: 0 <= i < n ==> prefix[i] == es[i];
      if rep[es[n].src] == rep[es[n].dest] {
        assert n !in ks0;
      } else {
        var ks := ks0 + [n];
        assert Kept(rep, es) == ks;
        forall i | 0 <= i < |es|
          ensures i in ks <==> rep[es[i].src] != rep[es[i].dest]
        {
          if i < n {
            assert i in ks <==> i in ks0;
          }
        }
      }
    }
  }

  /**
   * Normalize erases exactly the edges whose endpoints share a representative
   * and keeps the others in their order: its k-th edge is the lifted edge at
   * the k-th position of Kept.
   */
  lemma {:induction false} KeptLifts(rep: seq<int>, es: seq<Edge>)
    requires Canonical(rep) && InRange(es, |rep|)
    ensures var r, ks := Normalize(rep, es), Kept(rep, es);
      |r| == |ks| &&
      forall k :: 0 <= k < |ks| ==> 0 <= ks[k] < |es| && r[k] == Lift(rep, es[ks[k]])
    decreases |es|
  {
    if es != [] {
      var n := |es| - 1;
      var prefix, e := es[..n], es[n];
      KeptLifts(rep, prefix);
      if rep[e.src] != rep[e.dest] {
        var r0, ks0 := Normalize(rep, prefix), Kept(rep, prefix);
        var r, ks := r0 + [Lift(rep, e)], ks0 + [n];
        assert Normalize(rep, es) == r && Kept(rep, es) == ks;
        forall k | 0 <= k < |ks|
          ensures 0 <= ks[k] < |es| && r[k] == Lift(rep, es[ks[k]])
        {
          if k < |ks0| {
            assert ks[k] == ks0[k] && r[k] == r0[k] && prefix[ks0[k]] == es[ks0[k]];
          }
        }
      }
    }
  }

  /**
   * Lifting through a finer partition and then a coarser one is the same as
   * lifting through the coarser one directly.
   */
  lemma {:induction false} NormalizeTwice(fine: seq<int>, coarse: seq<int>, es: seq<Edge>)
    requires Canonical(fine) && Canonical(coarse) && |fine| == |coarse| && InRange(es, |fine|)
    requires forall j :: 0 <= j < |fine| ==> coarse[fine[j]] == coarse[j]
    ensures Normalize(coarse, Normalize(fine, es)) == Normalize(coarse, es)
    decreases |es|
  {
    if es != [] {
      var n := |es| - 1;
      NormalizeTwice(fine, coarse, es[..n]);
      var once := Normalize(fine, es[..n]);
      var e := es[n];
      if fine[e.src] != fine[e.dest] {
        assert (once + [Lift(fine, e)])[..|once|] == once;
      }
    }
  }

  /** While every node represents itself, Normalize changes a loop-free edge list not at all. */
  lemma {:induction false} NormalizeSingletons(rep: seq<int>, es: seq<Edge>)
    requires forall j :: 0 <= j < |rep| ==> rep[j] == j
    requires InRange(es, |rep|) && NoSelfLoops(es)
    ensures Normalize(rep, es) == es
    decreases |es|
  {
    if es != [] {
      var n := |es| - 1;
      NormalizeSingletons(rep, es[..n]);
      assert es[..n] + [es[n]] == es;
    }
  }

  /** The number of edges with exactly one endpoint in `side`: the size of that cut. */
  function Crossing(es: seq<Edge>, side: set<int>): nat {
    if es == [] then 0
    else
      var e := es[|es| - 1];
      Crossing(es[..|es| - 1], side) + if (e.src in side) != (e.dest in side) then 1 else 0
  }

  /** The number of edges with an endpoint equal to r. */
  function Incident(es: seq<Edge>, r: int): nat {
    if es == [] then 0
    else
      var e := es[|es| - 1];
      Incident(es[..|es| - 1], r) + if e.src == r || e.dest == r then 1 else 0
  }

  /**
   * The original edges that cross the boundary of r's set are exactly the
   * normalized edges that touch r.
   */
  lemma {:induction false} ClassCrossing(rep: seq<int>, es: seq<Edge>, r: int)
    requires Canonical(rep) && InRange(es, |rep|) && IsRoot(rep, r)
    ensures Crossing(es, Class(rep, r)) == Incident(Normalize(rep, es), r)
    decreases |es|
  {
    if es != [] {
      var n := |es| - 1;
      ClassCrossing(rep, es[..n], r);
      var rest := Normalize(rep, es[..n]);
      var e := es[n];
      assert e.src in Class(rep, r) <==> rep[e.src] == r;
      assert e.dest in Class(rep, r) <==> rep[e.dest] == r;
      if rep[e.src] != rep[e.dest] {
        assert (rest + [Lift(rep, e)])[..|rest|] == rest;
      }
    }
  }

  /** When every edge touches r, every edge counts. */
  lemma {:induction false} IncidentAll(es: seq<Edge>, r: int)
    requires forall k :: 0 <= k < |es| ==> es[k].src == r || es[k].dest == r
    ensures Incident(es, r) == |es|
    decreases |es|
  {
    if es != [] {
      IncidentAll(es[..|es| - 1], r);
    }
  }
}
