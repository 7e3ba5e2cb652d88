# secret-santa-pp assignment engine in Dafny

This project models the engine of secret-santa-pp, which assigns gift
recipients. A configuration lists people, each with relationship tags
mapping to ordered lists of names, and a set of constraints. Each constraint
names a relationship key, a comparator (`one-way contains`,
`two-way contains`, `either contains`, `equality`) and a limit (`exclude`,
`low-probability`, `medium-probability`).

The engine works in four steps:

1. It builds a weighted, directed *eligibility graph* over the selected
   participants. The weight of a pairing is 1, plus 4 for every
   low-probability constraint that fires and 2 for every medium-probability
   constraint that fires. A pairing for which an exclude constraint fires
   gets no edge.
2. It runs `n` rounds. In each round a tour solver proposes a tour of a
   working copy of that graph. Every consecutive pair of the tour is copied
   into the solution graph with its original weight and removed from the
   working copy.
3. It checks that the solution graph is non-empty and that every node has
   in-degree and out-degree `n`.
4. It can store a solution under a relationship key
   (`Config.update_from_graph`) and read it back (`Config.load_graph`,
   `Solution.load`).

The modules are:

- `DiGraphs` (digraph.dfy): the part of a networkx `DiGraph` the engine
  uses. It is a value with:
  - nodes in insertion order;
  - ordered successor and predecessor lists per node;
  - a weight per edge.

  It provides `add_edge`, `remove_edge` and construction from an edge list.
  The invariant `Valid` is proved to be preserved by each of them.
- `Configuration` (config.dfy): people, constraints, `meet_criterion`,
  `load_graph`, and the `Config` class with `update_from_graph`.
- `EdgeWeights` (weights.dfy): `get_edge_weight`, as a fold and as a loop
  method.
- `Eligibility` (eligibility.dfy): the graph `init_graph` builds, as a
  function of the configuration, with its edge, weight and node properties.
- `Decomposition` (decomposition.dfy): the round decomposition of
  `generate_solution` and the verdict of `_verify_solution`, as
  specification functions, with the properties they guarantee:
  - the solution holds exactly the pairs used;
  - no pair is used in two rounds;
  - closed tours give every node degree `n`.
- `Solutions` (solution.dfy): the `Solution` class. Its methods are proved
  against those functions. It also has `Solution.load`.

The tour solver (`approximation.traveling_salesman_problem` with a
simulated-annealing heuristic) is replaced by a `TourOracle` parameter. This
is a function from the round number and the working graph to an optional
node sequence, where `None` means the solver raised. Properties that depend
on what the solver returns take that promise as a precondition:

- `SoundOracle`: consecutive pairs are distinct edges of the graph it was
  given.
- `ClosedTour`: the tour visits every node once and returns to its start.

Python exceptions are modelled as results:

- `Outcome` or `Result` values carrying a `SolutionError`;
- `Infeasible` when the solver raised;
- `MissingWeight` for the `KeyError` on a weight lookup;
- `EdgeAlreadyUsed` for `remove_edge` of a missing edge;
- `EmptyGraph` and `InvalidSolution` for the two `RuntimeError`s;
- `KeyNotFound` for the `LookupError` of `Solution.load`.

Behaviour that follows the code rather than the usual reading of the
comparator names:

- "either contains" returns false whenever the source has no list, or an
  empty list, under the key. This holds even when the destination lists
  the source, so the comparator is not symmetric
  (`Configuration.EitherContainsNeedsSourceList`).
- `init_graph` adds nodes only through `add_edge`. A selected person whose
  every pairing is excluded is not a node of the graph.
- `range(n)` with a negative `n` runs no round. The model takes `n: int`,
  and `n <= 0` means zero rounds.

## Model

| member | source | states |
|---|---|---|
| DiGraphs.AddEdge | secret_santa_pp/solution.py:90-92 | `add_edge(u, v, weight=w)`: the edges are the old ones plus u→v; u and v become nodes; u's successor list gains v at its end only if the edge was absent, every other successor list is unchanged; the weight of u→v is set when one is given, every other weight is kept |
| DiGraphs.AddEdgeValid | secret_santa_pp/solution.py:90-98 | adding an edge keeps the graph well formed: node list, successor and predecessor lists stay duplicate-free and mirror each other, weights sit only on edges |
| DiGraphs.AddFreshEdgeDegrees | secret_santa_pp/solution.py:113-115 | adding an edge that was absent raises the out-degree of its source and the in-degree of its target by one and no other degree |
| DiGraphs.RemoveEdge | secret_santa_pp/solution.py:116 | `remove_edge(u, v)`: an error exactly when u→v is not an edge; otherwise the edges are the old ones without u→v and the node list is unchanged |
| DiGraphs.RemoveEdgeValid | secret_santa_pp/solution.py:116 | removing an existing edge keeps the graph well formed |
| DiGraphs.EdgeList | secret_santa_pp/solution.py:131 | `graph.edges`: a pair is listed exactly when its source is a node and it is an edge (the order of the list is not part of the contract) |
| DiGraphs.EdgeListMembership | secret_santa_pp/solution.py:131 | the listed edges (`graph.edges`) are exactly the edges of the graph |
| DiGraphs.FromEdgesValid | secret_santa_pp/config.py:31-37 | building a graph from an edge list gives a well-formed graph |
| DiGraphs.FromEdges | secret_santa_pp/config.py:31-37 | `DiGraph(edges)`: the pairs are added one by one with `add_edge` and no weight; the edges are exactly the old ones plus the listed pairs, and the weights are unchanged |
| DiGraphs.FromEdgesNodes | secret_santa_pp/config.py:31-37 | adding a list of pairs as edges gives exactly the old nodes plus the endpoints of the listed pairs |
| DiGraphs.FromEdgesOrder | secret_santa_pp/config.py:31-37 | each node's successors are its old ones followed by its targets in the order of the listed pairs, with repeats dropped |
| Configuration.MeetCriterion | secret_santa_pp/config.py:45-75 | false whenever the source has no non-empty list under the key; one-way holds iff dst is in src's list; two-way iff each is in the other's list; either iff src's list is non-empty and one of them lists the other; equality iff src's list is non-empty and both lists are equal in order |
| Configuration.TwoWayImpliesOneWayAndEither | secret_santa_pp/config.py:61-73 | a firing two-way constraint also fires as one-way and as either |
| Configuration.EqualityIsSymmetric | secret_santa_pp/config.py:58-59 | equality gives the same answer for (a, b) and (b, a) |
| Configuration.EitherContainsNeedsSourceList | secret_santa_pp/config.py:45-75 | a concrete pair for which "either contains" fires one way and not the other |
| Configuration.StoredEdgesMembership | secret_santa_pp/config.py:32-36 | the stored pairs are exactly (p.name, r) for every person p and every r in p's list under the key |
| Configuration.LoadGraph | secret_santa_pp/config.py:30-37 | `load_graph(key)`: the graph built from the stored (person, recipient) pairs; its edges are exactly those pairs and it has no weights |
| Configuration.LoadGraphSpec | secret_santa_pp/config.py:30-37 | `load_graph(key)` is well formed, its edges are exactly the stored pairs, its nodes exactly the people with a non-empty list plus every listed name, and it carries no weights |
| Configuration.LoadGraphOrder | secret_santa_pp/config.py:30-37 | with unique names, each person's successors in the loaded graph are their stored list with repeats dropped, and names of no person have no successors |
| Configuration.Refreshed | secret_santa_pp/config.py:27-28 | a person who is a node gets the node's successor list under the key, which is then present; everyone else is unchanged; name, email and every other key are kept, present or absent as before |
| Configuration.Config.UpdateFromGraph | secret_santa_pp/config.py:25-28 | every person is refreshed in place from the graph, in order, and the constraints are untouched |
| Configuration.UpdateThenLoadRoundTrip | secret_santa_pp/config.py:25-37 | storing a graph and loading it back gives every node the same successors in the same order and the same edge set, when names are unique, every node is a person and people outside the graph have no list under the key |
| EdgeWeights.Accumulate | secret_santa_pp/solution.py:29-39 | the constraint loop yields no edge iff some firing constraint excludes, otherwise the start weight plus 4 per firing low and 2 per firing medium constraint |
| EdgeWeights.NothingFiresWithoutRelationships | secret_santa_pp/solution.py:26-27 | a source without any tag triggers no constraint |
| EdgeWeights.EdgeWeight | secret_santa_pp/solution.py:21-39 | `get_edge_weight`: weight 1 for a source with no tags; None iff some firing constraint excludes, even after low or medium ones fired; otherwise 1 + 4·low + 2·medium, so at least 1 |
| EdgeWeights.GetEdgeWeight | secret_santa_pp/solution.py:21-39 | the loop with early returns computes exactly `EdgeWeight` |
| Eligibility.Select | secret_santa_pp/solution.py:75-79 | the selected people are exactly those of the configuration that the participant list names (everyone when it is None) |
| Eligibility.SelectAll | secret_santa_pp/solution.py:78 | with no participant list, everyone is selected in configuration order |
| Eligibility.SelectUnique | secret_santa_pp/solution.py:75-79 | selecting keeps names unique |
| Eligibility.RowMembership | secret_santa_pp/solution.py:84-99 | the inner loop for person p offers exactly (p, q) and (q, p) for every later q |
| Eligibility.CandidatesMembership | secret_santa_pp/solution.py:81-99 | with unique names the nested loops offer exactly the ordered pairs of selected people with different names |
| Eligibility.Offer | secret_santa_pp/solution.py:87-98 | one guarded `add_edge`: when `get_edge_weight` of the pair is None the graph is unchanged; otherwise the pair's names become an edge with that weight and every other edge and weight is kept |
| Eligibility.OfferAll | secret_santa_pp/solution.py:81-99 | the pairs offered in order: no edge is lost, and every new edge has the names of an offered pair |
| Eligibility.EligibilityGraph | secret_santa_pp/solution.py:74-99 | `init_graph` on a graph: every old edge is kept and every new edge joins the names of a candidate pair of selected people |
| Eligibility.OfferAllElsewhere | secret_santa_pp/solution.py:87-99 | a pair never offered keeps its edge and its weight |
| Eligibility.OfferAllOffered | secret_santa_pp/solution.py:87-99 | when offered pairs are determined by their names, every offered pair is an edge afterwards iff it was one or its weight is not None, and then it carries that weight |
| Eligibility.OfferAllValid | secret_santa_pp/solution.py:87-99 | offering edges keeps the graph well formed |
| Eligibility.OfferAllWeighted | secret_santa_pp/solution.py:87-98 | when every edge carries a weight, it still does after offering pairs, since each added edge is given its weight |
| Eligibility.EligibilityGraphEdges | secret_santa_pp/solution.py:74-99 | with unique names, for distinct selected a and b, a→b is an edge iff `get_edge_weight(a, b)` is not None, and it carries that weight |
| Eligibility.EligibilityGraphNodes | secret_santa_pp/solution.py:74-99 | the graph is well formed and has no node outside the selected people |
| Eligibility.EligibilityGraphNoStrangers | secret_santa_pp/solution.py:74-99 | with unique names, every edge joins two different selected people (no self-loops) and carries a weight |
| Decomposition.Pairwise | secret_santa_pp/solution.py:112 | `pairwise(t)` has one pair fewer than t (none for fewer than two nodes) and its k-th pair is (t[k], t[k+1]) |
| Decomposition.ApplyTour | secret_santa_pp/solution.py:112-116 | one round's inner loop: a failure names a consecutive pair of the tour; `MissingWeight` (the KeyError) when that pair is not a weighted edge of the eligibility graph, and `EdgeAlreadyUsed` (the `remove_edge` error) only for a pair that is weighted, since the weight is looked up before the removal; on success the working copy has lost edges and gained none |
| Decomposition.ApplyTourConsumes | secret_santa_pp/solution.py:112-116 | a round that succeeds moves exactly its consecutive pairs from the working copy into the solution, each with its original weight, adds one to the degrees of their endpoints, and no pair repeats |
| Decomposition.RoundsFromConsumes | secret_santa_pp/solution.py:104-116 | the remaining rounds keep that invariant and run until n tours were used |
| Decomposition.RoundsFrom | secret_santa_pp/solution.py:104-116 | the remaining rounds: on success the tours so far are extended to max(n, their number) tours; a solver failure names a round that had not yet run and is below n |
| Decomposition.Decompose | secret_santa_pp/solution.py:101-116 | `n` rounds from an empty solution and a copy of the eligibility graph: on success exactly max(n, 0) tours; a solver failure names a round in 0..n-1 |
| Decomposition.DecomposeSpec | secret_santa_pp/solution.py:101-118 | after n successful rounds, the solution's edges are exactly the consecutive pairs of the n tours, each with its weight in the eligibility graph; the working copy is the eligibility graph without them; degrees count the pairs; no pair repeats |
| Decomposition.RoundsAreDisjoint | secret_santa_pp/solution.py:103-116 | for any tours whose consecutive pairs never repeat, no pair is in two different rounds |
| Decomposition.DecomposeRoundsDisjoint | secret_santa_pp/solution.py:103-116 | in a successful `generate_solution`, two different rounds share no pair |
| Decomposition.ApplyTourSucceeds | secret_santa_pp/solution.py:112-116 | a tour of distinct edges of the working copy, all weighted in the eligibility graph, is applied without error |
| Decomposition.DecomposeFailsOnlyInfeasible | secret_santa_pp/solution.py:104-116 | with a solver that returns tours of distinct edges of its input, and every edge weighted, the rounds can fail only because the solver raised |
| Decomposition.ClosedTourCounts | secret_santa_pp/solution.py:105-115 | a closed tour through every node once leaves and enters each node exactly once |
| Decomposition.ClosedToursCounts | secret_santa_pp/solution.py:104-115 | r closed tours leave and enter each node exactly r times |
| Decomposition.RegularFromCounts | secret_santa_pp/solution.py:121-132 | when every node is left and entered n times, every node has in- and out-degree n and the verdict passes |
| Decomposition.Verdict | secret_santa_pp/solution.py:121-132 | `_verify_solution`: the empty-graph error exactly when there is no node; a pass exactly when there are nodes and each has in- and out-degree n, so every node of a passing graph is balanced; any other failure reports the edge list |
| Decomposition.NoRoundsRejected | secret_santa_pp/solution.py:122-124 | with no pair used, the solution is empty and is rejected as such |
| Decomposition.DecomposeRegular | secret_santa_pp/solution.py:101-132 | when every tour is closed over all nodes: for n > 0 every node has in- and out-degree n, the solution has the eligibility graph's nodes, and a non-empty one passes verification; for n ≤ 0 verification reports an empty graph |
| Solutions.LoadedEdges | secret_santa_pp/solution.py:67-68 | the loaded graph has no edge iff no person has a non-empty list under the key |
| Solutions.LoadedGraph | secret_santa_pp/solution.py:66-72 | an error naming the key iff nobody stored a non-empty list under it, otherwise the loaded graph unchanged |
| Solutions.Load | secret_santa_pp/solution.py:66-72 | a fresh solution wrapping the loaded graph, or `KeyNotFound(key)` exactly when it has no edge |
| Solutions.GenerateFailsOnlyInfeasible | secret_santa_pp/solution.py:56-63 | with a solver that keeps its promise, generating fails only when the solver raises, whatever the configuration |
| Solutions.Solution.Generate | secret_santa_pp/solution.py:56-63 | a fresh solution built by `init_graph` then `generate_solution` on an empty graph: the error of the failing round, or the decomposition's solution with its verdict |
| Solutions.Solution.InitGraph | secret_santa_pp/solution.py:74-99 | the nested loops leave the graph equal to the eligibility graph of the configuration and participants |
| Solutions.Solution.OfferRow | secret_santa_pp/solution.py:84-99 | the inner loop offers row i's pairs in order |
| Solutions.Solution.OfferEdge | secret_santa_pp/solution.py:87-99 | an edge is added with its weight exactly when it is not excluded |
| Solutions.Solution.GenerateSolution | secret_santa_pp/solution.py:101-119 | on a failing round the graph is unchanged and the round's error is returned; otherwise the graph becomes the decomposition's solution and the result is its verdict |
| Solutions.Solution.VerifySolution | secret_santa_pp/solution.py:121-132 | an empty graph is rejected whatever n is; otherwise it passes iff every node has in-degree and out-degree n, and any mismatch reports the edge list |

## Left out

- The tour search (`tsp_solver`, `approximation.traveling_salesman_problem`, secret_santa_pp/solution.py:42-48 and 105-110) is a randomised heuristic in networkx. It is a `TourOracle` parameter, and its promises are preconditions of the lemmas that need them. That the real heuristic keeps them is not modelled.
- `Solution.visualise` and `Solution.print` are rendering with matplotlib and rich.
- The command-line front ends, the email composition and delivery, and the older engine files (secret_santa_pp/models.py, secret-santa-pp/) are not part of this model.
- secret_santa_pp/wrapper.py only re-exports the networkx graph. The `DiGraphs` module stands in for it, covering only the operations the engine uses.
- pydantic validation of the email field is not modelled; an email is a plain string.
- Config.UpdateFromGraph: in the source each `Person`'s relationship dictionary is mutated in place, so other references to the same person see the change. Here `Person` is a value, and the method reassigns the sequence of people. Aliasing is not captured.
- Solutions.Solution.Generate: in the source, both kinds of failure raise out of `generate`, and no solution object reaches the caller. These are a failing round (solver error, missing weight, repeated pair) and a failed verification, whose `RuntimeError` comes from `_verify_solution` called at the end of `generate_solution`. Here the fresh solution is returned together with the error. After a failing round it holds the eligibility graph. After a failed verification it holds the rejected solution graph, with `EmptyGraph` or `InvalidSolution`.
- Unique names: the source does not check that participants' names are unique, and nothing here assumes it either. Some properties are proved only for configurations with unique names: `EligibilityGraphEdges`, `EligibilityGraphNoStrangers`, `LoadGraphOrder` and `UpdateThenLoadRoundTrip`. With two people sharing a name, `init_graph` can add a self-loop from that name to itself, and these lemmas say nothing about such a configuration.
- Error messages are reduced to the data they carry: the round, the pair, the edge list or the key.
- The solver is given a deep copy of the working graph; since graphs are values here, passing the value has the same effect.
