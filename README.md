# Karger's minimum cut over a union-find, in Dafny

This project models `mincut.cpp`. That file holds the class `UnionFind`: a
disjoint-set forest over the nodes of a graph (`find` with path halving,
`unite` by size kept in `ranks`), together with the working edge list that
Karger's randomized contraction rewrites in place. It models:

- `getEdge` reads the n-th edge of the list.
- `collapse` unites the endpoints of one drawn edge and counts one node fewer.
  It then rewrites every endpoint to its root and erases the self-loops.
- `karger` contracts until at most two super-nodes remain, reads the edge
  count, and restores every field from a snapshot.
- `minCut` keeps the smallest result over repeated trials.

The only random input is the generator's draw in `collapse`. Here it is a
parameter:

- a `nat` per `Collapse`;
- a sequence of draws per `Karger`;
- a sequence of such sequences per `MinCut`.

Everything else is deterministic.

The modules follow the layers of the program:

- `Sets` is what `find` reports. Each node maps to its representative, and
  each representative carries its rank. `Merge` is the effect of `unite` on
  that view.
- `Forest` covers the `parent`/`ranks` vectors as a forest. Ranks strictly
  grow along parent links, and that measure makes `find` terminate. Its
  lemmas show that path halving changes no set, and that linking two roots
  is `Merge`.
- `Edges` covers the edge list. `Normalize` is the pass of `collapse`: lift
  every edge to its representatives and drop self-loops. Its lemmas cover
  order, counting, composition and cut sizes.
- `Contraction` covers one `collapse` (`Step`) and one `karger` trial
  (`Run`) as functions. Its lemmas show that every trial on a fresh graph
  reports the size of a real cut of that graph, or fails only when the graph
  is disconnected.
- `Amplifier` covers `minCut` as a function (`Best` over `Trials`), plus a
  worked three-node example.
- `KargerMinCut` holds the imperative class `UnionFind`. Its fields are
  `parent`, `ranks`, `edges`, `nodeCount` and `edgeCount`. Each method is
  proved against the functions above through `View()`.

Some parts of the source's methods are separate methods here. Each keeps the
source's effects in their order:

- `Link` is the second half of `unite`.
- `Contract` is `collapse` after the draw.
- `RelinkEdges` and `RelinkAt` are its edge loop and one turn of that loop.
- `Contractions`, `FindAll` and `Restore` are the contraction loop, the
  `find` sweep and the field reset of `karger`.
- `FirstTrial` and `FoldTrial` are the first call of `karger` in `minCut`
  and one turn of its loop.

## Model

| member | source | states |
|---|---|---|
| KargerMinCut.UnionFind.constructor | mincut.cpp:36-48 | every node starts as its own root of rank 1, the edge list is the one given, the counters are set; a graph without self-loops is a fresh trial state |
| KargerMinCut.UnionFind.Find | mincut.cpp:51-57 | returns the root of i (a node that is its own parent), changes only `parent`, keeps ranks ordered and leaves every node's root unchanged |
| KargerMinCut.UnionFind.Unite | mincut.cpp:63-75 | the sets after the call are `Merge` of the sets before, for a and b |
| KargerMinCut.UnionFind.Link | mincut.cpp:66-74 | given the roots of a and b, attaching the smaller-or-equal rank root under the other and summing ranks is `Merge` and keeps ranks ordered |
| KargerMinCut.UnionFind.GetEdge | mincut.cpp:79-85 | returns the n-th edge of the list and changes nothing |
| KargerMinCut.UnionFind.Collapse | mincut.cpp:90-109 | the new observable state is `Step` of the old one for the draw, and the structure stays valid |
| KargerMinCut.UnionFind.Contract | mincut.cpp:93-108 | the sets become `Merge` of a and b, nodeCount drops by one, the edges become the old edges normalized to the new roots |
| KargerMinCut.UnionFind.RelinkEdges | mincut.cpp:98-108 | the edge list becomes `Normalize` of the old list under the current roots, no set changes, and edgeCount stays equal to the list length |
| KargerMinCut.UnionFind.RelinkAt | mincut.cpp:99-107 | the edge at i is replaced by its lifted form and kept exactly when its endpoints' roots differ, otherwise erased with edgeCount lowered |
| KargerMinCut.UnionFind.Karger | mincut.cpp:115-137 | returns `Run` of the entry state for the draws; every field equals its value on entry, so the structure stays valid and shows the same state |
| KargerMinCut.UnionFind.Contractions | mincut.cpp:123-129 | the contraction loop, sweep and edge count read return `Run` of the entry state |
| KargerMinCut.UnionFind.FindAll | mincut.cpp:126-128 | the sweep of `find` changes no set and keeps the forest rank-ordered |
| KargerMinCut.UnionFind.Restore | mincut.cpp:131-135 | every field takes its snapshot value |
| KargerMinCut.UnionFind.MinCut | mincut.cpp:140-150 | returns `Best` of the first `Runs(k)` trial results, and leaves every field unchanged |
| KargerMinCut.UnionFind.FirstTrial | mincut.cpp:143 | the first trial's result is the answer after one trial, and every field is unchanged |
| KargerMinCut.UnionFind.FoldTrial | mincut.cpp:145-148 | given the answer after i trials, keeping the smaller of it and trial i's result gives the answer after i + 1 trials, and every field is unchanged |
| Sets.Merge | mincut.cpp:63-75 | a and b end in one set whose representative is b's unless a's rank is larger; that root's rank becomes the sum of both; only the two merged sets move; with a and b already together no node moves and the rank doubles |
| Sets.MergeAttaches | mincut.cpp:68-74 | `Merge` is the relabelling of root lo to hi with hi's rank grown by lo's, when lo holds a and has no larger rank or holds b and has a smaller one |
| Sets.MergeDropsOneRoot | mincut.cpp:63-75 | merging two different sets removes exactly one representative, the one attached under the other |
| Sets.AllRoots | mincut.cpp:42-45 | while every node is its own representative there are as many sets as nodes |
| Forest.Root | mincut.cpp:51-57 | the node `find` reaches is a root of rank at least the start's, and equals the start exactly when the start is its own parent |
| Forest.Labels | mincut.cpp:51-57 | the roots of all nodes form a canonical labelling, each entry being that node's root |
| Forest.HalvingKeepsRoot | mincut.cpp:53-54 | one halving step keeps parent links climbing in rank and changes no node's root |
| Forest.HalvingKeepsLabels | mincut.cpp:53-54 | one halving step leaves the roots of all nodes unchanged |
| Forest.LinkMovesSet | mincut.cpp:68-74 | linking root a under root b and adding a's rank to b's keeps ranks ordered and moves exactly the nodes rooted at a to b |
| Forest.LinkMovesLabels | mincut.cpp:68-74 | after such a link the roots of all nodes are the old ones with a relabelled to b |
| Forest.LinkIsMerge | mincut.cpp:66-74 | the link `unite` performs on the roots of a and b yields exactly the sets `Merge` describes |
| Edges.Normalize | mincut.cpp:98-108 | after the pass every edge joins two distinct roots and the list is no longer than before |
| Edges.Lift | mincut.cpp:100-101 | an edge rewritten so that both endpoints are the representatives `find` returns for them |
| Edges.NormalizeExtend | mincut.cpp:98-108 | one more edge of input appends its lifted form, unless it became a self-loop |
| Edges.PassStep | mincut.cpp:99-107 | one turn of the edge loop extends the normalized prefix by one input edge and leaves the unvisited suffix intact |
| Edges.KeptPositions | mincut.cpp:101-107 | the surviving positions are increasing and are exactly the edges whose endpoints' roots differ |
| Edges.KeptLifts | mincut.cpp:98-108 | the k-th surviving edge is the lifted k-th surviving position, so survivors keep their relative order and the list shrinks by the number of erased edges |
| Edges.NormalizeTwice | mincut.cpp:98-108 | normalizing under a finer partition and then a coarser one equals normalizing under the coarser one directly |
| Edges.NormalizeSingletons | mincut.cpp:98-108 | while every node is its own root, the pass leaves a loop-free edge list unchanged |
| Edges.ClassCrossing | mincut.cpp:129 | the original edges crossing a super-node's boundary are exactly the normalized edges touching that super-node |
| Edges.IncidentAll | mincut.cpp:129 | when every edge touches r, every edge is counted as incident to r |
| Contraction.EdgeIndex | mincut.cpp:92 | the picked position lies in [0, edgeCount - 2], so the last edge is never picked |
| Contraction.Run | mincut.cpp:123-129 | a trial that fails (the source's undefined case) still had more than two super-nodes, and a reported edge count is no larger than the starting edge list |
| Contraction.Step | mincut.cpp:90-109 | one collapse keeps the state consistent, lowers nodeCount by one and leaves only edges between distinct roots |
| Contraction.FreshIsReduced | mincut.cpp:36-48 | a fresh state satisfies the trial invariant with its own edges |
| Contraction.StepKeepsReduced | mincut.cpp:90-109 | a collapse keeps the edges equal to the normalized original edges and nodeCount equal to the number of super-nodes |
| Contraction.TwoRootsCut | mincut.cpp:129 | with two super-nodes left, the edge count is the size of the cut between them in the original graph |
| Contraction.StuckCut | mincut.cpp:123-125 | a trial with more than two super-nodes and fewer than two edges has a super-node with no edge leaving it, a cut of size zero |
| Contraction.RunFindsCut | mincut.cpp:123-129 | a trial from the invariant reports the size of a proper cut of the original graph, or fails on a disconnected one |
| Contraction.TrialIsCut | mincut.cpp:115-137 | on a fresh graph every trial's answer is the size of some proper cut, hence never below the minimum cut |
| Amplifier.Runs | mincut.cpp:143-145 | `minCut` runs at least one trial, and exactly k trials when k is at least 1 |
| Amplifier.Smaller | mincut.cpp:147 | the kept value is defined exactly when both inputs are, is no larger than either, and is one of them |
| Amplifier.Trials | mincut.cpp:143-148 | there is one trial result per draw sequence |
| Amplifier.Best | mincut.cpp:143-148 | the first trial's result, then `Smaller` of the answer so far and each next result |
| Amplifier.BestBounds | mincut.cpp:143-149 | the answer is no larger than any trial's result and equal to one of them, and is defined exactly when every trial succeeded |
| Amplifier.BestExtend | mincut.cpp:145-148 | one more trial folds its result into the answer by taking the smaller |
| Amplifier.BestIsCut | mincut.cpp:140-150 | the amplified answer on a fresh graph is the size of a proper cut of that graph |
| Amplifier.TriangleEvenDraw | mincut.cpp:90-108 | on the triangle an even draw contracts edge 0-1 and leaves the two edges to node 2 |
| Amplifier.TriangleOddDraw | mincut.cpp:90-108 | on the triangle an odd draw contracts edge 1-2 and leaves the two edges from node 0 |
| Amplifier.TriangleTrial | mincut.cpp:115-137 | one trial on the triangle reports 2 whatever the draw |
| Amplifier.TriangleMinCut | mincut.cpp:140-150 | the amplifier reports the triangle's minimum cut, 2, for any non-empty draws and any trial count |

## Left out

- `cinInt` and the constructor's reads from standard input (mincut.cpp:11-15, 40) are I/O. The constructor takes the edge list instead, and `edgeCount` is its length.
- The `mt19937` generator and its wall-clock seed (mincut.cpp:32, 47) are replaced by draws the caller supplies.
- The floating-point trial count of `minCut` (mincut.cpp:142) is a parameter `k`. `Runs(k)` is the number of trials the loop then performs.
- `printUF`, `printEdges` and `main` (mincut.cpp:153-187) are debug output and program glue.
- There is no probabilistic claim about how often a trial finds the minimum cut. A deterministic model over given draws cannot state one.
- Integers are unbounded. A 32-bit overflow of a rank or a counter is not modelled, nor is the unsigned conversion in the draw's modulus.
- A trial can still have more than two super-nodes but fewer than two edges. With one edge left, the modulus at mincut.cpp:92 divides by zero. With no edge left, `edgeCount - 1` converts to the generator's unsigned result type, so the modulus is defined, but `getEdge` then steps and dereferences past the end of the empty list (mincut.cpp:80-84). Both are undefined behaviour. `Karger` reports `None` there and restores the fields, and `MinCut` then reports `None`.
- `std::list` is a sequence. An erase during iteration becomes a splice of the sequence, and `getEdge`'s iterator walk becomes a walk over suffixes.
- KargerMinCut.UnionFind.Find: states every node's root and the rank order, not the exact parent links that path halving leaves behind.
- KargerMinCut.UnionFind.Unite: states the sets and ranks after the call, not the exact parent links the two inner `find` calls leave behind.
- KargerMinCut.UnionFind.RelinkEdges: states the sets after the pass, not the exact parent links its `find` calls leave behind.
- KargerMinCut.UnionFind.Collapse: states the observable state (sets, ranks, edges, nodeCount), not the exact parent links.
- KargerMinCut.UnionFind.Contractions: states the result, not the state left behind, because `Karger` overwrites all of it.
- Amplifier.Trials: its contract states only the length. That entry t is the trial run on draw sequence t is its definition.
