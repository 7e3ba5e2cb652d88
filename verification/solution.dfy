/** The Solution object: building, decomposing, verifying and loading assignments. */
module Solutions {
  import opened Wrappers
  import opened DiGraphs
  import opened Configuration
  import opened EdgeWeights
  import opened Eligibility
  import opened Decomposition

  /**
   * With the stored pairs under `key` loaded, a graph with no edge means the
   * key was never stored: the loaded graph has an edge exactly when some
   * person has a non-empty list under `key`.
   */
  lemma LoadedEdges(people: seq<Person>, key: string)
    ensures |EdgeList(LoadGraph(people, key))| == 0 <==> forall i :: 0 <= i < |people| ==> Lookup(people[i], key) == []
  {
    var g := LoadGraph(people, key);
    LoadGraphSpec(people, key);
    EdgeListMembership(g);
    if exists i :: 0 <= i < |people| && Lookup(people[i], key) != [] {
      var i :| 0 <= i < |people| && Lookup(people[i], key) != [];
      assert HasEdge(g, people[i].name, Lookup(people[i], key)[0]);
      assert (people[i].name, Lookup(people[i], key)[0]) in EdgeList(g);
    } else if |EdgeList(g)| > 0 {
      assert HasEdge(g, EdgeList(g)[0].0, EdgeList(g)[0].1);
    }
  }

  /** `Solution.load(config, key)`: the stored graph, or an error when it has no edge. */
  function LoadedGraph(people: seq<Person>, key: string): (r: Result<Graph, SolutionError>)
    ensures r.Failure? <==> forall i :: 0 <= i < |people| ==> Lookup(people[i], key) == []
    ensures r.Failure? ==> r.error == KeyNotFound(key)
    ensures r.Success? ==> r.value == LoadGraph(people, key)
  {
    LoadedEdges(people, key);
    var g := LoadGraph(people, key);
    if |EdgeList(g)| == 0 then Failure(KeyNotFound(key)) else Success(g)
  }

  /** One step of the inner loop: the pairs (p, qs[j]) and (qs[j], p) are offered in that order. */
  lemma RowStep(g: Graph, cs: seq<Constraint>, p: Person, qs: seq<Person>, j: nat, tail: seq<(Person, Person)>)
    requires j < |qs|
    ensures OfferAll(g, cs, Row(p, qs[j..]) + tail) ==
            OfferAll(Offer(Offer(g, cs, (p, qs[j])), cs, (qs[j], p)), cs, Row(p, qs[j + 1..]) + tail)
  {
    assert qs[j..][1..] == qs[j + 1..];
    var rest := Row(p, qs[j + 1..]) + tail;
    var xs := [(p, qs[j]), (qs[j], p)] + rest;
    assert Row(p, qs[j..]) + tail == xs;
    assert xs[1..] == [(qs[j], p)] + rest;
    assert xs[1..][1..] == rest;
  }

  lemma {:induction false} OfferAllAppend(g: Graph, cs: seq<Constraint>, xs: seq<(Person, Person)>, ys: seq<(Person, Person)>)
    ensures OfferAll(g, cs, xs + ys) == OfferAll(OfferAll(g, cs, xs), cs, ys)
    decreases |xs|
  {
    if xs == [] {
      assert xs + ys == ys;
    } else {
      assert (xs + ys)[1..] == xs[1..] + ys;
      OfferAllAppend(Offer(g, cs, xs[0]), cs, xs[1..], ys);
    }
  }

  /** The inner loop ends with the row used up. */
  lemma RowDone(p: Person, qs: seq<Person>, tail: seq<(Person, Person)>)
    ensures Row(p, qs[|qs|..]) + tail == tail
  {
    assert qs[|qs|..] == [];
  }

  lemma CandidatesStep(ps: seq<Person>, i: nat)
    requires i < |ps|
    ensures Candidates(ps[i..]) == Row(ps[i], ps[i + 1..]) + Candidates(ps[i + 1..])
  {
    assert ps[i..][1..] == ps[i + 1..];
  }

  /**
   * With a tour solver that keeps its promise, generating a solution can fail
   * only because the solver gives up: every edge of the eligibility graph
   * carries a weight, so no KeyError and no double removal can occur.
   */
  lemma GenerateFailsOnlyInfeasible(people: seq<Person>, cs: seq<Constraint>, participants: Option<seq<Name>>,
                                    oracle: TourOracle, n: int)
    requires SoundOracle(oracle)
    ensures Decompose(EligibilityGraph(Empty, people, cs, participants), oracle, n).Failure? ==>
              Decompose(EligibilityGraph(Empty, people, cs, participants), oracle, n).error.Infeasible?
  {
    OfferAllWeighted(Empty, cs, Candidates(Select(people, participants)));
    DecomposeFailsOnlyInfeasible(EligibilityGraph(Empty, people, cs, participants), oracle, n);
  }

  class Solution {
    var graph: Graph

    constructor (graph: Graph)
      ensures this.graph == graph
    {
      this.graph := graph;
    }

    /**
     * `generate(config, participants, n)`: a fresh solution over an empty graph,
     * `init_graph` then `generate_solution`. The outcome is the decomposition's
     * error when a round fails, otherwise the verdict on the solution graph.
     */
    static method Generate(config: Config, participants: Option<seq<Name>>, n: int, oracle: TourOracle)
      returns (s: Solution, r: Outcome<SolutionError>)
      ensures fresh(s)
      ensures Decompose(EligibilityGraph(Empty, config.people, config.constraints, participants), oracle, n).Failure? ==>
                s.graph == EligibilityGraph(Empty, config.people, config.constraints, participants) &&
                r == Fail(Decompose(EligibilityGraph(Empty, config.people, config.constraints, participants), oracle, n).error)
      ensures Decompose(EligibilityGraph(Empty, config.people, config.constraints, participants), oracle, n).Success? ==>
                s.graph == Decompose(EligibilityGraph(Empty, config.people, config.constraints, participants), oracle, n).value.final &&
                r == Verdict(s.graph, n)
    {
      s := new Solution(Empty);
      s.InitGraph(config, participants);
      r := s.GenerateSolution(n, oracle);
    }

    /**
     * `init_graph(config, participants)`: for every pair i < j of selected
     * people, offers the edge person_i -> person_j and then person_j ->
     * person_i, each added with its weight unless `get_edge_weight` excludes it.
     */
    method InitGraph(config: Config, participants: Option<seq<Name>>)
      modifies this
      ensures graph == EligibilityGraph(old(graph), config.people, config.constraints, participants)
    {
      var people := Select(config.people, participants);
      var cs := config.constraints;
      ghost var target := EligibilityGraph(graph, config.people, cs, participants);
      var i := 0;
      while i < |people|
        invariant 0 <= i <= |people|
        invariant OfferAll(graph, cs, Candidates(people[i..])) == target
      {
        CandidatesStep(people, i);
        OfferAllAppend(graph, cs, Row(people[i], people[i + 1..]), Candidates(people[i + 1..]));
        OfferRow(cs, people, i);
        i := i + 1;
      }
      assert people[i..] == [];
    }

    /** The inner loop of `init_graph` for row i: every later person j, first i -> j, then j -> i. */
    method OfferRow(cs: seq<Constraint>, people: seq<Person>, i: nat)
      requires i < |people|
      modifies this
      ensures graph == OfferAll(old(graph), cs, Row(people[i], people[i + 1..]))
    {
      var p1 := people[i];
      var j := i + 1;
      while j < |people|
        invariant i + 1 <= j <= |people|
        invariant OfferAll(graph, cs, Row(p1, people[j..])) == OfferAll(old(graph), cs, Row(p1, people[i + 1..]))
      {
        var p2 := people[j];
        RowStep(graph, cs, p1, people, j, []);
        OfferEdge(cs, p1, p2);
        OfferEdge(cs, p2, p1);
        j := j + 1;
      }
      RowDone(p1, people, []);
    }

    /** One guarded `add_edge` of `init_graph`: src -> dst with its weight, unless it is excluded. */
    method OfferEdge(cs: seq<Constraint>, src: Person, dst: Person)
      modifies this
      ensures graph == Offer(old(graph), cs, (src, dst))
    {
      var w := GetEdgeWeight(cs, src, dst);
      if w.Some? {
        graph := AddEdge(graph, src.name, dst.name, Some(w.value));
      }
    }

    /**
     * `generate_solution(n)`: n rounds over a working copy of the eligibility
     * graph, each asking the tour solver for a tour, moving its consecutive
     * pairs into the solution with their weights, and removing them from the
     * working copy; then the solution replaces the graph and is verified. When
     * a round fails the graph is left unchanged.
     */
    method GenerateSolution(n: int, oracle: TourOracle) returns (r: Outcome<SolutionError>)
      modifies this
      ensures Decompose(old(graph), oracle, n).Failure? ==>
                graph == old(graph) && r == Fail(Decompose(old(graph), oracle, n).error)
      ensures Decompose(old(graph), oracle, n).Success? ==>
                graph == Decompose(old(graph), oracle, n).value.final && r == Verdict(graph, n)
    {
      var orig := graph;
      var final := Empty;
      var work := graph;
      var round: nat := 0;
      ghost var tours: seq<seq<Name>> := [];
      while round < n
        invariant |tours| == round
        invariant graph == orig
        invariant RoundsFrom(orig, oracle, n, Run(work, final, tours)) == Decompose(orig, oracle, n)
        decreases n - round
      {
        var tour := oracle(round, work);
        if tour.None? {
          return Fail(Infeasible(round));
        }
        var t := tour.value;
        ghost var w0, f0 := work, final;
        var k := 0;
        while k + 1 < |t|
          invariant 0 <= k <= |t|
          invariant ApplyTour(orig, work, final, t[k..]) == ApplyTour(orig, w0, f0, t)
        {
          var src, dst := t[k], t[k + 1];
          assert t[k..][0] == src && t[k..][1] == dst && t[k..][1..] == t[k + 1..];
          if !HasEdge(orig, src, dst) || (src, dst) !in orig.weight {
            return Fail(MissingWeight(src, dst));
          }
          final := AddEdge(final, src, dst, Some(orig.weight[(src, dst)]));
          var removed := RemoveEdge(work, src, dst);
          if removed.None? {
            return Fail(EdgeAlreadyUsed(src, dst));
          }
          work := removed.value;
          k := k + 1;
        }
        tours := tours + [t];
        round := round + 1;
      }
      graph := final;
      r := VerifySolution(n);
    }

    /**
     * `_verify_solution(n)`: rejects an empty graph, and a graph with a node
     * whose in-degree or out-degree differs from n; passes otherwise.
     */
    method VerifySolution(n: int) returns (r: Outcome<SolutionError>)
      ensures r == Verdict(graph, n)
      ensures |graph.nodes| == 0 ==> r == Fail(EmptyGraph)
      ensures r == Pass <==> |graph.nodes| > 0 && forall x :: x in graph.nodes ==> InDegree(graph, x) == n && OutDegree(graph, x) == n
      ensures |graph.nodes| > 0 && r != Pass ==> r == Fail(InvalidSolution(EdgeList(graph)))
    {
      if |graph.nodes| == 0 {
        return Fail(EmptyGraph);
      }
      var i := 0;
      while i < |graph.nodes|
        invariant 0 <= i <= |graph.nodes|
        invariant forall k :: 0 <= k < i ==> InDegree(graph, graph.nodes[k]) == n && OutDegree(graph, graph.nodes[k]) == n
      {
        var node := graph.nodes[i];
        if InDegree(graph, node) != n || OutDegree(graph, node) != n {
          return Fail(InvalidSolution(EdgeList(graph)));
        }
        i := i + 1;
      }
      return Pass;
    }
  }

  /** `Solution.load(config, key)`: a fresh solution over the stored graph, or KeyNotFound. */
  method Load(config: Config, key: string) returns (r: Result<Solution, SolutionError>)
    ensures r.Failure? <==> LoadedGraph(config.people, key).Failure?
    ensures r.Failure? ==> r.error == KeyNotFound(key)
    ensures r.Success? ==> fresh(r.value) && r.value.graph == LoadGraph(config.people, key)
  {
    match LoadedGraph(config.people, key)
    case Failure(e) => r := Failure(e);
    case Success(g) =>
      var s := new Solution(g);
      r := Success(s);
  }
}
