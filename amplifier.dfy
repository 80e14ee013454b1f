/*
 * The amplifier of mincut.cpp (`minCut`): run the trial at least once and
 * keep the smallest result.  The trial count, computed in floating point in
 * the source, is a parameter here.
 */
module Amplifier {
  import opened Sets
  import opened Edges
  import opened Contraction

  /** How many trials `minCut` runs for a trial count k: one, then one more for every i in [1, k). */
  function Runs(k: int): (n: nat)
    ensures n >= 1 && n >= k
    ensures k >= 1 ==> n == k
  {
    if k <= 1 then 1 else k
  }

  /**
   * `min = (cut < min) ? cut : min`, where a failed trial makes the whole
   * answer a failure.
   */
  function Smaller(min: Option<nat>, cut: Option<nat>): (r: Option<nat>)
    ensures r.Some? <==> min.Some? && cut.Some?
    ensures r.Some? ==> r.value <= min.value && r.value <= cut.value
    ensures r.Some? ==> r == min || r == cut
  {
    match (min, cut)
    case (Some(m), Some(c)) => Some(if c < m then c else m)
    case _ => None
  }

  /** The answer of `minCut` for the given sequence of trial results. */
  function Best(results: seq<Option<nat>>): Option<nat>
    requires |results| >= 1
    decreases |results|
  {
    if |results| == 1 then results[0]
    else Smaller(Best(results[..|results| - 1]), results[|results| - 1])
  }

  /**
   * The answer is defined exactly when every trial succeeded, and then it is
   * no larger than any trial's result and equal to one of them.
   */
  lemma {:induction false} BestBounds(results: seq<Option<nat>>)
    requires |results| >= 1
    ensures Best(results).Some? <==> forall t :: 0 <= t < |results| ==> results[t].Some?
    ensures Best(results).Some? ==> forall t :: 0 <= t < |results| ==> Best(results).value <= results[t].value
    ensures Best(results).Some? ==> exists t :: 0 <= t < |results| && results[t] == Best(results)
    decreases |results|
  {
    if |results| > 1 {
      var front := results[..|results| - 1];
      BestBounds(front);
      assert forall t :: 0 <= t < |front| ==> front[t] == results[t];
    }
  }

  /** Every draw sequence is long enough for a trial on g. */
  predicate EnoughDraws(g: Graph, trialDraws: seq<seq<nat>>) {
    forall t :: 0 <= t < |trialDraws| ==> |trialDraws[t]| >= g.nodeCount - 2
  }

  /** The result of one trial on g per draw sequence. */
  function Trials(g: Graph, trialDraws: seq<seq<nat>>): (results: seq<Option<nat>>)
    requires Ok(g) && EnoughDraws(g, trialDraws)
    ensures |results| == |trialDraws|
  {
    seq(|trialDraws|, t requires 0 <= t < |trialDraws| => Run(g, trialDraws[t]))
  }

  /** One more trial folds its result into the answer with Smaller. */
  lemma BestExtend(g: Graph, trialDraws: seq<seq<nat>>, i: int)
    requires Ok(g) && EnoughDraws(g, trialDraws) && 1 <= i < |trialDraws|
    ensures Best(Trials(g, trialDraws[..i + 1])) == Smaller(Best(Trials(g, trialDraws[..i])), Run(g, trialDraws[i]))
  {
    var longer := Trials(g, trialDraws[..i + 1]);
    assert longer[..i] == Trials(g, trialDraws[..i]);
  }

  /**
   * On a fresh graph with at least two nodes the amplified answer is the size
   * of a cut of the graph, and no larger than any trial's answer.
   */
  lemma BestIsCut(g: Graph, trialDraws: seq<seq<nat>>) returns (side: set<int>)
    requires Fresh(g) && g.nodeCount >= 2 && |trialDraws| >= 1 && EnoughDraws(g, trialDraws)
    requires Best(Trials(g, trialDraws)).Some?
    ensures ProperSide(side, g.nodeCount)
    ensures Crossing(g.edges, side) == Best(Trials(g, trialDraws)).value
  {
    var results := Trials(g, trialDraws);
    BestBounds(results);
    var t :| 0 <= t < |results| && results[t] == Best(results);
    side := TrialIsCut(g, trialDraws[t]);
  }

  /** The triangle 0-1-2 as the constructor leaves it. */
  function Triangle(): Graph {
    Graph(Partition([0, 1, 2], [1, 1, 1]), [Edge(0, 1), Edge(1, 2), Edge(2, 0)], 3)
  }

  /** An even draw picks edge 0-1: node 0 joins 1, and both edges to 2 survive. */
  lemma TriangleEvenDraw(draw: nat)
    requires draw % 2 == 0
    ensures Step(Triangle(), draw).edges == [Edge(1, 2), Edge(2, 1)]
  {
    var g := Triangle();
    var es := g.edges;
    var rep := Step(g, draw).sets.rep;
    assert rep == [1, 1, 2];
    assert es[..2] == [Edge(0, 1), Edge(1, 2)] && es[..2][..1] == [Edge(0, 1)] && es[..2][..1][..0] == [];
    assert Normalize(rep, es[..2][..1]) == [];
    assert Normalize(rep, es[..2]) == [Edge(1, 2)];
  }

  /** An odd draw picks edge 1-2: node 1 joins 2, and the edges from 0 survive. */
  lemma TriangleOddDraw(draw: nat)
    requires draw % 2 == 1
    ensures Step(Triangle(), draw).edges == [Edge(0, 2), Edge(2, 0)]
  {
    var g := Triangle();
    var es := g.edges;
    var rep := Step(g, draw).sets.rep;
    assert rep == [0, 2, 2];
    assert es[..2] == [Edge(0, 1), Edge(1, 2)] && es[..2][..1] == [Edge(0, 1)] && es[..2][..1][..0] == [];
    assert Normalize(rep, es[..2][..1]) == [Edge(0, 2)];
    assert Normalize(rep, es[..2]) == [Edge(0, 2)];
  }

  /** Whatever the draws, one trial on the triangle contracts one edge and leaves a cut of two. */
  lemma TriangleTrial(draws: seq<nat>)
    requires |draws| >= 1
    ensures Run(Triangle(), draws) == Some(2)
  {
    if draws[0] % 2 == 0 {
      TriangleEvenDraw(draws[0]);
    } else {
      TriangleOddDraw(draws[0]);
    }
  }

  /** The amplifier finds the triangle's minimum cut, 2, for any draws and any trial count. */
  lemma TriangleMinCut(trialDraws: seq<seq<nat>>)
    requires |trialDraws| >= 1 && forall t :: 0 <= t < |trialDraws| ==> |trialDraws[t]| >= 1
    ensures Best(Trials(Triangle(), trialDraws)) == Some(2)
  {
    var results := Trials(Triangle(), trialDraws);
    BestBounds(results);
    forall t | 0 <= t < |results|
      ensures results[t] == Some(2)
    {
      TriangleTrial(trialDraws[t]);
    }
  }
}
