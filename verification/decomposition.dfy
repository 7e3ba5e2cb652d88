/**
 * Round decomposition and solution verification (Solution.generate_solution
 * and Solution._verify_solution): the specification the Solution class is
 * proved against, and what it guarantees.
 */
module Decomposition {
  import opened Wrappers
  import opened DiGraphs

  /**
   * The tour solver, called with the number of the call and the working graph
   * it is given; None when it raises. The call number stands for the state of
   * its random generator.
   */
  type TourOracle = (nat, Graph) -> Option<seq<Name>>

  datatype SolutionError =
    | Infeasible(round: nat)                  // the tour solver raised in this round
    | MissingWeight(src: Name, dst: Name)     // KeyError: the pair has no weight in the eligibility graph
    | EdgeAlreadyUsed(src: Name, dst: Name)   // remove_edge of a pair the working graph no longer has
    | EmptyGraph                              // "Invalid solution: empty graph"
    | InvalidSolution(edges: seq<Edge>)       // "Invalid solution: <edges>"
    | KeyNotFound(key: string)                // "Solution key not found: <key>."

  /** `pairwise(t)`: the consecutive pairs of a tour. */
  function Pairwise(t: seq<Name>): (ps: seq<Edge>)
    ensures |ps| == if |t| < 2 then 0 else |t| - 1
    ensures forall k :: 0 <= k < |ps| ==> ps[k] == (t[k], t[k + 1])
  {
    if |t| < 2 then [] else seq(|t| - 1, k requires 0 <= k < |t| - 1 => (t[k], t[k + 1]))
  }

  /** The consecutive pairs of all tours, round after round. */
  function Pairs(tours: seq<seq<Name>>): seq<Edge> {
    if tours == [] then [] else Pairs(tours[..|tours| - 1]) + Pairwise(tours[|tours| - 1])
  }

  /** The state between rounds: the working copy, the solution so far and the tours used. */
  datatype Run = Run(work: Graph, final: Graph, tours: seq<seq<Name>>)

  /**
   * One round's inner loop: each consecutive pair is added to `final` with its
   * weight in `orig` (KeyError when it has none) and removed from `work`
   * (an error when `work` no longer has it).
   */
  function ApplyTour(orig: Graph, work: Graph, final: Graph, t: seq<Name>): (r: Result<(Graph, Graph), SolutionError>)
    ensures r.Failure? ==> r.error.MissingWeight? || r.error.EdgeAlreadyUsed?
    ensures r.Failure? ==> (r.error.src, r.error.dst) in Pairwise(t)
    ensures r.Failure? && r.error.MissingWeight? ==>
              !HasEdge(orig, r.error.src, r.error.dst) || (r.error.src, r.error.dst) !in orig.weight
    ensures r.Failure? && r.error.EdgeAlreadyUsed? ==>
              HasEdge(orig, r.error.src, r.error.dst) && (r.error.src, r.error.dst) in orig.weight
    ensures r.Success? ==> forall u, v :: HasEdge(r.value.0, u, v) ==> HasEdge(work, u, v)
    decreases |t|
  {
    if |t| < 2 then Success((work, final))
    else
      var src, dst := t[0], t[1];
      if !HasEdge(orig, src, dst) || (src, dst) !in orig.weight then Failure(MissingWeight(src, dst))
      else
        var final' := AddEdge(final, src, dst, Some(orig.weight[(src, dst)]));
        PairwiseUnfold(t);
        match RemoveEdge(work, src, dst)
        case None => Failure(EdgeAlreadyUsed(src, dst))
        case Some(work') => ApplyTour(orig, work', final', t[1..])
  }

  /** The rounds still to run until `n` have been run. */
  function RoundsFrom(orig: Graph, oracle: TourOracle, n: int, st: Run): (r: Result<Run, SolutionError>)
    ensures r.Success? ==> |r.value.tours| == if |st.tours| >= n then |st.tours| else n
    ensures r.Success? ==> st.tours <= r.value.tours
    ensures r.Failure? && r.error.Infeasible? ==> |st.tours| <= r.error.round < n
    decreases n - |st.tours|
  {
    if |st.tours| >= n then Success(st)
    else
      match oracle(|st.tours|, st.work)
      case None => Failure(Infeasible(|st.tours|))
      case Some(t) =>
        match ApplyTour(orig, st.work, st.final, t)
        case Failure(e) => Failure(e)
        case Success((work', final')) => RoundsFrom(orig, oracle, n, Run(work', final', st.tours + [t]))
  }

  /** `n` rounds over the eligibility graph `orig`, starting from an empty solution and a copy of `orig`. */
  function Decompose(orig: Graph, oracle: TourOracle, n: int): (r: Result<Run, SolutionError>)
    ensures r.Success? ==> |r.value.tours| == if n > 0 then n else 0
    ensures r.Failure? && r.error.Infeasible? ==> 0 <= r.error.round < n
  {
    RoundsFrom(orig, oracle, n, Run(orig, Empty, []))
  }

  predicate DegreeExact(g: Graph, n: int) {
    forall x :: x in g.nodes ==> InDegree(g, x) == n && OutDegree(g, x) == n
  }

  /** What `_verify_solution(n)` decides about graph `g`. */
  function Verdict(g: Graph, n: int): (r: Outcome<SolutionError>)
    ensures r == Fail(EmptyGraph) <==> |g.nodes| == 0
    ensures r == Pass <==> |g.nodes| > 0 && forall x :: x in g.nodes ==> InDegree(g, x) == n && OutDegree(g, x) == n
    ensures r == Pass ==> forall x :: x in g.nodes ==> InDegree(g, x) == OutDegree(g, x)
    ensures r.Fail? && r != Fail(EmptyGraph) ==> r.error == InvalidSolution(EdgeList(g))
  {
    if |g.nodes| == 0 then Fail(EmptyGraph)
    else if DegreeExact(g, n) then Pass
    else Fail(InvalidSolution(EdgeList(g)))
  }

  /** The solution has exactly the pairs of P. */
  ghost predicate SolutionEdges(final: Graph, P: seq<Edge>) {
    forall u, v :: HasEdge(final, u, v) <==> (u, v) in P
  }

  /** The working copy is the eligibility graph without the pairs of P. */
  ghost predicate WorkEdges(orig: Graph, work: Graph, P: seq<Edge>) {
    forall u, v :: HasEdge(work, u, v) <==> HasEdge(orig, u, v) && (u, v) !in P
  }

  /** Every pair of P is a weighted edge of the eligibility graph and keeps that weight in the solution. */
  ghost predicate WeightsKept(orig: Graph, final: Graph, P: seq<Edge>) {
    forall e :: e in P ==> HasEdge(orig, e.0, e.1) && e in orig.weight && e in final.weight && final.weight[e] == orig.weight[e]
  }

  /** Each node's out-degree (in-degree) is the number of pairs of P leaving (entering) it. */
  ghost predicate DegreesCounted(final: Graph, P: seq<Edge>) {
    forall x :: OutDegree(final, x) == multiset(Sources(P))[x] && InDegree(final, x) == multiset(Targets(P))[x]
  }

  /** The solution's nodes are the endpoints of the pairs of P. */
  ghost predicate NodesCounted(final: Graph, P: seq<Edge>) {
    forall x :: x in final.succ <==> x in Sources(P) || x in Targets(P)
  }

  /**
   * What the rounds so far have done, as the list P of the pairs consumed;
   * no pair of P repeats.
   */
  ghost predicate Consumed(orig: Graph, work: Graph, final: Graph, P: seq<Edge>) {
    && Valid(final)
    && SolutionEdges(final, P)
    && WorkEdges(orig, work, P)
    && WeightsKept(orig, final, P)
    && NoDup(P)
    && DegreesCounted(final, P)
    && NodesCounted(final, P)
  }

  lemma ConsumeEdges(final: Graph, P: seq<Edge>, a: Name, b: Name, w: Option<int>)
    requires SolutionEdges(final, P)
    ensures SolutionEdges(AddEdge(final, a, b, w), P + [(a, b)])
  {
    assert forall e :: e in P + [(a, b)] <==> e in P || e == (a, b);
  }

  lemma ConsumeWork(orig: Graph, work: Graph, P: seq<Edge>, a: Name, b: Name)
    requires WorkEdges(orig, work, P) && HasEdge(work, a, b)
    ensures RemoveEdge(work, a, b).Some?
    ensures WorkEdges(orig, RemoveEdge(work, a, b).value, P + [(a, b)])
  {
    assert forall e :: e in P + [(a, b)] <==> e in P || e == (a, b);
  }

  lemma ConsumeWeights(orig: Graph, final: Graph, P: seq<Edge>, a: Name, b: Name)
    requires WeightsKept(orig, final, P)
    requires HasEdge(orig, a, b) && (a, b) in orig.weight
    ensures WeightsKept(orig, AddEdge(final, a, b, Some(orig.weight[(a, b)])), P + [(a, b)])
  {
    assert forall e :: e in P + [(a, b)] <==> e in P || e == (a, b);
  }

  lemma ConsumeNoDup(P: seq<Edge>, e: Edge)
    requires NoDup(P) && e !in P
    ensures NoDup(P + [e])
  {
    var P' := P + [e];
    forall i, j | 0 <= i < j < |P'| ensures P'[i] != P'[j] {
      if j == |P| { assert P'[i] in P; }
    }
  }

  lemma SnocCounts(P: seq<Edge>, e: Edge)
    ensures forall x :: multiset(Sources(P + [e]))[x] == multiset(Sources(P))[x] + (if x == e.0 then 1 else 0)
    ensures forall x :: multiset(Targets(P + [e]))[x] == multiset(Targets(P))[x] + (if x == e.1 then 1 else 0)
  {
    assert Sources(P + [e]) == Sources(P) + [e.0];
    assert Targets(P + [e]) == Targets(P) + [e.1];
  }

  lemma ConsumeDegrees(final: Graph, r: Graph, P: seq<Edge>, a: Name, b: Name)
    requires forall x :: OutDegree(r, x) == OutDegree(final, x) + (if x == a then 1 else 0)
    requires forall x :: InDegree(r, x) == InDegree(final, x) + (if x == b then 1 else 0)
    requires DegreesCounted(final, P)
    ensures DegreesCounted(r, P + [(a, b)])
  {
    SnocCounts(P, (a, b));
  }

  lemma ConsumeNodes(final: Graph, P: seq<Edge>, a: Name, b: Name, w: Option<int>)
    requires NodesCounted(final, P)
    ensures NodesCounted(AddEdge(final, a, b, w), P + [(a, b)])
  {
    assert Sources(P + [(a, b)]) == Sources(P) + [a];
    assert Targets(P + [(a, b)]) == Targets(P) + [b];
  }

  /** Moving one fresh pair from the working copy into the solution keeps `Consumed`. */
  lemma ConsumeOne(orig: Graph, work: Graph, final: Graph, P: seq<Edge>, a: Name, b: Name)
    requires Consumed(orig, work, final, P)
    requires HasEdge(orig, a, b) && (a, b) in orig.weight && HasEdge(work, a, b)
    ensures RemoveEdge(work, a, b).Some?
    ensures Consumed(orig, RemoveEdge(work, a, b).value, AddEdge(final, a, b, Some(orig.weight[(a, b)])), P + [(a, b)])
  {
    var w := Some(orig.weight[(a, b)]);
    assert (a, b) !in P;
    AddEdgeValid(final, a, b, w);
    ConsumeEdges(final, P, a, b, w);
    ConsumeWork(orig, work, P, a, b);
    ConsumeWeights(orig, final, P, a, b);
    ConsumeNoDup(P, (a, b));
    AddFreshEdgeDegrees(final, a, b, w);
    ConsumeDegrees(final, AddEdge(final, a, b, w), P, a, b);
    ConsumeNodes(final, P, a, b, w);
  }

  lemma PairwiseUnfold(t: seq<Name>)
    requires |t| >= 2
    ensures Pairwise(t) == [(t[0], t[1])] + Pairwise(t[1..])
  {
    var rest, whole := Pairwise(t[1..]), [(t[0], t[1])] + Pairwise(t[1..]);
    forall k | 0 <= k < |whole| ensures whole[k] == Pairwise(t)[k] {
      if k > 0 {
        assert whole[k] == rest[k - 1] == (t[1..][k - 1], t[1..][k]);
      }
    }
  }

  lemma PairwiseCons(P: seq<Edge>, t: seq<Name>)
    requires |t| >= 2
    ensures P + [(t[0], t[1])] + Pairwise(t[1..]) == P + Pairwise(t)
  {
    PairwiseUnfold(t);
    SeqAssoc(P, [(t[0], t[1])], Pairwise(t[1..]));
  }

  /** A successful round consumes exactly the pairs of its tour. */
  lemma {:induction false} ApplyTourConsumes(orig: Graph, work: Graph, final: Graph, P: seq<Edge>, t: seq<Name>)
    requires Consumed(orig, work, final, P)
    requires ApplyTour(orig, work, final, t).Success?
    ensures Consumed(orig, ApplyTour(orig, work, final, t).value.0, ApplyTour(orig, work, final, t).value.1, P + Pairwise(t))
    decreases |t|
  {
    if |t| < 2 {
      assert P + Pairwise(t) == P;
    } else {
      var a, b := t[0], t[1];
      ConsumeOne(orig, work, final, P, a, b);
      var final' := AddEdge(final, a, b, Some(orig.weight[(a, b)]));
      var work' := RemoveEdge(work, a, b).value;
      assert ApplyTour(orig, work, final, t) == ApplyTour(orig, work', final', t[1..]);
      ApplyTourConsumes(orig, work', final', P + [(a, b)], t[1..]);
      PairwiseCons(P, t);
    }
  }

  lemma PairsSnoc(tours: seq<seq<Name>>, t: seq<Name>)
    ensures Pairs(tours + [t]) == Pairs(tours) + Pairwise(t)
  {
    assert (tours + [t])[..|tours|] == tours;
  }

  lemma {:induction false} RoundsFromConsumes(orig: Graph, oracle: TourOracle, n: int, st: Run)
    requires Consumed(orig, st.work, st.final, Pairs(st.tours))
    requires RoundsFrom(orig, oracle, n, st).Success?
    ensures Consumed(orig, RoundsFrom(orig, oracle, n, st).value.work, RoundsFrom(orig, oracle, n, st).value.final,
                     Pairs(RoundsFrom(orig, oracle, n, st).value.tours))
    ensures |RoundsFrom(orig, oracle, n, st).value.tours| == if |st.tours| >= n then |st.tours| else n
    decreases n - |st.tours|
  {
    if |st.tours| < n {
      var t := oracle(|st.tours|, st.work).value;
      var next := ApplyTour(orig, st.work, st.final, t).value;
      var st' := Run(next.0, next.1, st.tours + [t]);
      assert RoundsFrom(orig, oracle, n, st) == RoundsFrom(orig, oracle, n, st');
      ApplyTourConsumes(orig, st.work, st.final, Pairs(st.tours), t);
      PairsSnoc(st.tours, t);
      RoundsFromConsumes(orig, oracle, n, st');
    }
  }

  /**
   * After a successful decomposition of `n` rounds there are max(n, 0) tours
   * and `Consumed` holds of their pairs: the solution's edges are exactly the
   * consecutive pairs of the tours, each with its weight in the eligibility
   * graph; no pair is used twice; each node's out-degree (in-degree) is the
   * number of pairs leaving (entering) it; its nodes are their endpoints; and
   * the working copy is the eligibility graph without the used pairs.
   */
  lemma DecomposeSpec(orig: Graph, oracle: TourOracle, n: int)
    requires Decompose(orig, oracle, n).Success?
    ensures |Decompose(orig, oracle, n).value.tours| == if n > 0 then n else 0
    ensures Consumed(orig, Decompose(orig, oracle, n).value.work, Decompose(orig, oracle, n).value.final,
                     Pairs(Decompose(orig, oracle, n).value.tours))
  {
    EmptyValid();
    assert Consumed(orig, orig, Empty, Pairs([]));
    RoundsFromConsumes(orig, oracle, n, Run(orig, Empty, []));
  }

  lemma NoDupSplit<T>(A: seq<T>, B: seq<T>)
    requires NoDup(A + B)
    ensures NoDup(A)
    ensures forall e :: e in A ==> e !in B
  {
    assert forall i :: 0 <= i < |A| ==> (A + B)[i] == A[i];
    forall i, j | 0 <= i < |A| && 0 <= j < |B| ensures A[i] != B[j] {
      assert (A + B)[|A| + j] == B[j];
    }
  }

  lemma {:induction false} PairsHasRound(tours: seq<seq<Name>>, r: nat)
    requires r < |tours|
    ensures forall e :: e in Pairwise(tours[r]) ==> e in Pairs(tours)
    decreases |tours|
  {
    var front := tours[..|tours| - 1];
    if r < |front| {
      PairsHasRound(front, r);
      assert front[r] == tours[r];
    }
  }

  /** Different rounds never use the same pair. */
  lemma {:induction false} RoundsAreDisjoint(tours: seq<seq<Name>>, r1: nat, r2: nat)
    requires NoDup(Pairs(tours)) && r1 < r2 < |tours|
    ensures forall e :: e in Pairwise(tours[r1]) ==> e !in Pairwise(tours[r2])
    decreases |tours|
  {
    var front := tours[..|tours| - 1];
    NoDupSplit(Pairs(front), Pairwise(tours[|tours| - 1]));
    assert front[r1] == tours[r1];
    if r2 == |front| {
      PairsHasRound(front, r1);
    } else {
      assert front[r2] == tours[r2];
      RoundsAreDisjoint(front, r1, r2);
    }
  }

  /** In a successful `generate_solution`, no pair is used in two different rounds. */
  lemma DecomposeRoundsDisjoint(orig: Graph, oracle: TourOracle, n: int, r1: nat, r2: nat)
    requires Decompose(orig, oracle, n).Success?
    requires r1 < r2 < n
    ensures forall e :: e in Pairwise(Decompose(orig, oracle, n).value.tours[r1]) ==>
              e !in Pairwise(Decompose(orig, oracle, n).value.tours[r2])
  {
    DecomposeSpec(orig, oracle, n);
    RoundsAreDisjoint(Decompose(orig, oracle, n).value.tours, r1, r2);
  }

  /**
   * What the tour solver promises about a tour of graph `g`: its consecutive
   * pairs are edges of `g`, none of them twice.
   */
  ghost predicate TourFits(g: Graph, t: seq<Name>) {
    && NoDup(Pairwise(t))
    && forall k :: 0 <= k < |Pairwise(t)| ==> HasEdge(g, Pairwise(t)[k].0, Pairwise(t)[k].1)
  }

  /** An oracle that, whenever it answers, answers with a tour that fits the graph it was given. */
  ghost predicate SoundOracle(oracle: TourOracle) {
    forall r: nat, g: Graph :: oracle(r, g).Some? ==> TourFits(g, oracle(r, g).value)
  }

  /** Every edge of `work` is a weighted edge of `orig`. */
  ghost predicate WithinWeighted(orig: Graph, work: Graph) {
    forall u, v :: HasEdge(work, u, v) ==> HasEdge(orig, u, v) && (u, v) in orig.weight
  }

  lemma TourFitsTail(work: Graph, t: seq<Name>)
    requires |t| >= 2 && TourFits(work, t)
    ensures HasEdge(work, t[0], t[1])
    ensures RemoveEdge(work, t[0], t[1]).Some?
    ensures TourFits(RemoveEdge(work, t[0], t[1]).value, t[1..])
  {
    var ps, rest := Pairwise(t), Pairwise(t[1..]);
    assert ps[0] == (t[0], t[1]);
    var work' := RemoveEdge(work, t[0], t[1]).value;
    forall k | 0 <= k < |rest| ensures HasEdge(work', rest[k].0, rest[k].1) {
      assert rest[k] == ps[k + 1];
    }
    forall i, j | 0 <= i < j < |rest| ensures rest[i] != rest[j] {
      assert rest[i] == ps[i + 1] && rest[j] == ps[j + 1];
    }
  }

  /** A tour that fits the working copy, within the weighted eligibility graph, is applied without error. */
  lemma {:induction false} ApplyTourSucceeds(orig: Graph, work: Graph, final: Graph, t: seq<Name>)
    requires WithinWeighted(orig, work) && TourFits(work, t)
    ensures ApplyTour(orig, work, final, t).Success?
    ensures ApplyTour(orig, work, final, t).Success? ==> WithinWeighted(orig, ApplyTour(orig, work, final, t).value.0)
    decreases |t|
  {
    if |t| >= 2 {
      TourFitsTail(work, t);
      var work' := RemoveEdge(work, t[0], t[1]).value;
      var final' := AddEdge(final, t[0], t[1], Some(orig.weight[(t[0], t[1])]));
      ApplyTourSucceeds(orig, work', final', t[1..]);
    }
  }

  lemma {:induction false} RoundsFromFailsOnlyInfeasible(orig: Graph, oracle: TourOracle, n: int, st: Run)
    requires SoundOracle(oracle) && WithinWeighted(orig, st.work)
    ensures RoundsFrom(orig, oracle, n, st).Failure? ==> RoundsFrom(orig, oracle, n, st).error.Infeasible?
    decreases n - |st.tours|
  {
    if |st.tours| < n && oracle(|st.tours|, st.work).Some? {
      var t := oracle(|st.tours|, st.work).value;
      ApplyTourSucceeds(orig, st.work, st.final, t);
      var next := ApplyTour(orig, st.work, st.final, t).value;
      RoundsFromFailsOnlyInfeasible(orig, oracle, n, Run(next.0, next.1, st.tours + [t]));
    }
  }

  /**
   * With a tour solver that keeps its promise, over an eligibility graph whose
   * edges all carry a weight, the rounds never hit a missing weight or a pair
   * already used: the only way they can fail is the solver giving up.
   */
  lemma DecomposeFailsOnlyInfeasible(orig: Graph, oracle: TourOracle, n: int)
    requires SoundOracle(oracle)
    requires forall u, v :: HasEdge(orig, u, v) ==> (u, v) in orig.weight
    ensures Decompose(orig, oracle, n).Failure? ==> Decompose(orig, oracle, n).error.Infeasible?
  {
    RoundsFromFailsOnlyInfeasible(orig, oracle, n, Run(orig, Empty, []));
  }

  /** A closed tour visiting each node of `nodes` once and returning to its start. */
  ghost predicate ClosedTour(t: seq<Name>, nodes: seq<Name>) {
    && |t| >= 2
    && t[|t| - 1] == t[0]
    && NoDup(t[..|t| - 1])
    && (forall x :: x in t[..|t| - 1] <==> x in nodes)
  }

  lemma {:induction false} NoDupMultiset(s: seq<Name>)
    requires NoDup(s)
    ensures forall x :: multiset(s)[x] == if x in s then 1 else 0
  {
    if s != [] {
      var rest := s[1..];
      assert NoDup(rest) by {
        forall i, j | 0 <= i < j < |rest| ensures rest[i] != rest[j] { assert s[i + 1] != s[j + 1]; }
      }
      NoDupMultiset(rest);
      assert s == [s[0]] + rest;
      assert s[0] !in rest by {
        forall k | 0 <= k < |rest| ensures rest[k] != s[0] { assert s[k + 1] != s[0]; }
      }
    }
  }

  lemma PairwiseEnds(t: seq<Name>)
    requires |t| >= 2
    ensures Sources(Pairwise(t)) == t[..|t| - 1]
    ensures Targets(Pairwise(t)) == t[1..]
  {
  }

  /** A closed tour makes every node of the graph leave once and enter once. */
  lemma ClosedTourCounts(t: seq<Name>, nodes: seq<Name>)
    requires ClosedTour(t, nodes)
    ensures forall x :: multiset(Sources(Pairwise(t)))[x] == (if x in nodes then 1 else 0)
    ensures forall x :: multiset(Targets(Pairwise(t)))[x] == (if x in nodes then 1 else 0)
  {
    var body := t[..|t| - 1];
    PairwiseEnds(t);
    assert body == [t[0]] + t[1..|t| - 1];
    assert t[1..] == t[1..|t| - 1] + [t[0]];
    assert multiset(t[1..]) == multiset(body);
    NoDupMultiset(body);
  }

  lemma EndsAppend(A: seq<Edge>, B: seq<Edge>)
    ensures Sources(A + B) == Sources(A) + Sources(B)
    ensures Targets(A + B) == Targets(A) + Targets(B)
  {
  }

  lemma {:induction false} ClosedToursCounts(tours: seq<seq<Name>>, nodes: seq<Name>)
    requires forall r :: 0 <= r < |tours| ==> ClosedTour(tours[r], nodes)
    ensures forall x :: multiset(Sources(Pairs(tours)))[x] == (if x in nodes then |tours| else 0)
    ensures forall x :: multiset(Targets(Pairs(tours)))[x] == (if x in nodes then |tours| else 0)
  {
    if tours != [] {
      var front, last := tours[..|tours| - 1], tours[|tours| - 1];
      ClosedToursCounts(front, nodes);
      ClosedTourCounts(last, nodes);
      EndsAppend(Pairs(front), Pairwise(last));
    }
  }

  lemma NodesFromCounts(final: Graph, P: seq<Edge>, nodes: seq<Name>, n: nat)
    requires Valid(final) && NodesCounted(final, P)
    requires forall x :: multiset(Sources(P))[x] == (if x in nodes then n else 0)
    requires forall x :: multiset(Targets(P))[x] == (if x in nodes then n else 0)
    requires n > 0
    ensures forall x :: x in final.nodes <==> x in nodes
  {
    forall x ensures x in final.nodes <==> x in nodes {
      assert x in Sources(P) <==> multiset(Sources(P))[x] > 0;
      assert x in Targets(P) <==> multiset(Targets(P))[x] > 0;
    }
  }

  lemma RegularFromCounts(final: Graph, P: seq<Edge>, nodes: seq<Name>, n: nat)
    requires Valid(final) && DegreesCounted(final, P) && NodesCounted(final, P)
    requires forall x :: multiset(Sources(P))[x] == (if x in nodes then n else 0)
    requires forall x :: multiset(Targets(P))[x] == (if x in nodes then n else 0)
    requires n > 0
    ensures forall x :: x in nodes ==> InDegree(final, x) == n && OutDegree(final, x) == n
    ensures forall x :: x in final.nodes <==> x in nodes
    ensures |nodes| > 0 ==> Verdict(final, n) == Pass
  {
    NodesFromCounts(final, P, nodes, n);
    assert DegreeExact(final, n);
    assert nodes == [] || nodes[0] in final.nodes;
  }

  lemma NoRoundsRejected(final: Graph, P: seq<Edge>, n: int)
    requires Valid(final) && NodesCounted(final, P) && P == []
    ensures Verdict(final, n) == Fail(EmptyGraph)
  {
    forall x ensures multiset(final.nodes)[x] == 0 {
      assert x !in Sources(P) && x !in Targets(P);
    }
    assert multiset(final.nodes) == multiset{};
  }

  /**
   * When every round's tour is a closed tour over the nodes of the eligibility
   * graph, every node ends with in-degree = out-degree = n, the solution has
   * the same nodes, and (for n >= 1 and a non-empty graph) it passes
   * verification; with n <= 0 the solution is empty and is rejected.
   */
  lemma DecomposeRegular(orig: Graph, oracle: TourOracle, n: int)
    requires Decompose(orig, oracle, n).Success?
    requires forall r :: 0 <= r < |Decompose(orig, oracle, n).value.tours| ==>
               ClosedTour(Decompose(orig, oracle, n).value.tours[r], orig.nodes)
    ensures n > 0 ==> forall x :: x in orig.nodes ==>
              InDegree(Decompose(orig, oracle, n).value.final, x) == n && OutDegree(Decompose(orig, oracle, n).value.final, x) == n
    ensures n > 0 ==> forall x :: x in Decompose(orig, oracle, n).value.final.nodes <==> x in orig.nodes
    ensures n > 0 && |orig.nodes| > 0 ==> Verdict(Decompose(orig, oracle, n).value.final, n) == Pass
    ensures n <= 0 ==> Verdict(Decompose(orig, oracle, n).value.final, n) == Fail(EmptyGraph)
  {
    var R := Decompose(orig, oracle, n).value;
    DecomposeSpec(orig, oracle, n);
    if n > 0 {
      ClosedToursCounts(R.tours, orig.nodes);
      RegularFromCounts(R.final, Pairs(R.tours), orig.nodes, n);
    } else {
      NoRoundsRejected(R.final, Pairs(R.tours), n);
    }
  }
}
