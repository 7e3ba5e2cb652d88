/** The eligibility graph over the selected participants (Solution.init_graph). */
module Eligibility {
  import opened Wrappers
  import opened DiGraphs
  import opened Configuration
  import opened EdgeWeights

  /** Everyone is selected when there is no participant list; otherwise only the people it names. */
  predicate Selected(p: Person, participants: Option<seq<Name>>) {
    participants.None? || p.name in participants.value
  }

  /** The selected people, in configuration order. */
  function Select(ps: seq<Person>, participants: Option<seq<Name>>): (r: seq<Person>)
    ensures forall p :: p in r <==> p in ps && Selected(p, participants)
  {
    if ps == [] then []
    else (if Selected(ps[0], participants) then [ps[0]] else []) + Select(ps[1..], participants)
  }

  lemma {:induction false} SelectAll(ps: seq<Person>)
    ensures Select(ps, None) == ps
  {
    if ps != [] {
      SelectAll(ps[1..]);
      assert ps == [ps[0]] + ps[1..];
    }
  }

  lemma {:induction false} SelectUnique(ps: seq<Person>, participants: Option<seq<Name>>)
    requires UniqueNames(ps)
    ensures UniqueNames(Select(ps, participants))
  {
    if ps != [] {
      var rest := Select(ps[1..], participants);
      SelectUnique(ps[1..], participants);
      forall q | q in rest ensures q.name != ps[0].name {
        var k :| 0 <= k < |ps[1..]| && ps[1..][k] == q;
        assert ps[k + 1] == q;
      }
    }
  }

  /** The pairs that row `p` of the nested loop offers: (p, q) then (q, p) for every later q. */
  function Row(p: Person, qs: seq<Person>): seq<(Person, Person)> {
    if qs == [] then [] else [(p, qs[0]), (qs[0], p)] + Row(p, qs[1..])
  }

  /** Every ordered pair of distinct positions, in the order the nested loop offers them. */
  function Candidates(ps: seq<Person>): seq<(Person, Person)> {
    if ps == [] then [] else Row(ps[0], ps[1..]) + Candidates(ps[1..])
  }

  lemma {:induction false} RowMembership(p: Person, qs: seq<Person>)
    ensures forall a, b :: (a, b) in Row(p, qs) <==> (a == p && b in qs) || (b == p && a in qs)
  {
    if qs != [] {
      RowMembership(p, qs[1..]);
      assert qs == [qs[0]] + qs[1..];
    }
  }

  /** With unique names the candidates are exactly the pairs of people with different names. */
  lemma {:induction false} CandidatesMembership(ps: seq<Person>)
    requires UniqueNames(ps)
    ensures forall a, b :: (a, b) in Candidates(ps) <==> a in ps && b in ps && a.name != b.name
  {
    if ps != [] {
      CandidatesMembership(ps[1..]);
      RowMembership(ps[0], ps[1..]);
      assert ps == [ps[0]] + ps[1..];
      forall q | q in ps[1..] ensures q.name != ps[0].name {
        var k :| 0 <= k < |ps[1..]| && ps[1..][k] == q;
        assert ps[k + 1] == q;
      }
    }
  }

  /**
   * One guarded `add_edge` of the nested loop: the pair's names become an
   * edge carrying `get_edge_weight` of the pair, unless that is None, in
   * which case nothing changes.
   */
  function Offer(g: Graph, cs: seq<Constraint>, pair: (Person, Person)): (r: Graph)
    ensures EdgeWeight(cs, pair.0, pair.1).None? ==> r == g
    ensures forall u, v :: HasEdge(r, u, v) <==>
              HasEdge(g, u, v) || ((u, v) == (pair.0.name, pair.1.name) && EdgeWeight(cs, pair.0, pair.1).Some?)
    ensures EdgeWeight(cs, pair.0, pair.1).Some? ==>
              r.weight == g.weight[(pair.0.name, pair.1.name) := EdgeWeight(cs, pair.0, pair.1).value]
  {
    match EdgeWeight(cs, pair.0, pair.1)
    case None => g
    case Some(w) => AddEdge(g, pair.0.name, pair.1.name, Some(w))
  }

  /**
   * The pairs offered in order. Edges are only ever added, and every edge
   * that was not there before has the names of an offered pair.
   */
  function OfferAll(g: Graph, cs: seq<Constraint>, xs: seq<(Person, Person)>): (r: Graph)
    ensures forall u, v :: HasEdge(g, u, v) ==> HasEdge(r, u, v)
    ensures forall u, v :: HasEdge(r, u, v) ==> HasEdge(g, u, v) || (u, v) in NamePairs(xs)
    decreases |xs|
  {
    if xs == [] then g
    else
      NamePairsCons(xs);
      OfferAll(Offer(g, cs, xs[0]), cs, xs[1..])
  }

  /**
   * `init_graph(config, participants)` run on graph `g`: it keeps every edge
   * of `g`, and each edge it adds joins the names of a candidate pair of
   * selected people.
   */
  function EligibilityGraph(g: Graph, people: seq<Person>, cs: seq<Constraint>, participants: Option<seq<Name>>): (r: Graph)
    ensures forall u, v :: HasEdge(g, u, v) ==> HasEdge(r, u, v)
    ensures forall u, v :: HasEdge(r, u, v) ==> HasEdge(g, u, v) || (u, v) in NamePairs(Candidates(Select(people, participants)))
  {
    OfferAll(g, cs, Candidates(Select(people, participants)))
  }

  function NamePairs(xs: seq<(Person, Person)>): (r: seq<Edge>)
    ensures |r| == |xs| && forall k :: 0 <= k < |xs| ==> r[k] == (xs[k].0.name, xs[k].1.name)
  {
    seq(|xs|, k requires 0 <= k < |xs| => (xs[k].0.name, xs[k].1.name))
  }

  /** Two offered pairs with the same names are the same pair of people. */
  ghost predicate NamesDetermine(xs: seq<(Person, Person)>) {
    forall k, l :: 0 <= k < |xs| && 0 <= l < |xs| && NamePairs(xs)[k] == NamePairs(xs)[l] ==> xs[k] == xs[l]
  }

  lemma NamePairsCons(xs: seq<(Person, Person)>)
    requires xs != []
    ensures forall e :: e in NamePairs(xs) <==> e == (xs[0].0.name, xs[0].1.name) || e in NamePairs(xs[1..])
  {
    assert NamePairs(xs) == [(xs[0].0.name, xs[0].1.name)] + NamePairs(xs[1..]);
  }

  /** Pairs whose names are never offered keep their edge and weight. */
  lemma {:induction false} OfferAllElsewhere(g: Graph, cs: seq<Constraint>, xs: seq<(Person, Person)>)
    ensures forall u, v :: (u, v) !in NamePairs(xs) ==>
              (HasEdge(OfferAll(g, cs, xs), u, v) <==> HasEdge(g, u, v))
    ensures forall e :: e !in NamePairs(xs) ==>
              (e in OfferAll(g, cs, xs).weight <==> e in g.weight) &&
              (e in g.weight ==> OfferAll(g, cs, xs).weight[e] == g.weight[e])
    decreases |xs|
  {
    if xs != [] {
      OfferAllElsewhere(Offer(g, cs, xs[0]), cs, xs[1..]);
      NamePairsCons(xs);
    }
  }

  /** Every offered pair ends up an edge exactly when it was one already or its weight is not None, and then carries that weight. */
  lemma {:induction false} OfferAllOffered(g: Graph, cs: seq<Constraint>, xs: seq<(Person, Person)>)
    requires NamesDetermine(xs)
    ensures forall k :: 0 <= k < |xs| ==>
              (HasEdge(OfferAll(g, cs, xs), xs[k].0.name, xs[k].1.name) <==>
                 HasEdge(g, xs[k].0.name, xs[k].1.name) || EdgeWeight(cs, xs[k].0, xs[k].1).Some?)
    ensures forall k :: 0 <= k < |xs| && EdgeWeight(cs, xs[k].0, xs[k].1).Some? ==>
              (xs[k].0.name, xs[k].1.name) in OfferAll(g, cs, xs).weight &&
              OfferAll(g, cs, xs).weight[(xs[k].0.name, xs[k].1.name)] == EdgeWeight(cs, xs[k].0, xs[k].1).value
    decreases |xs|
  {
    if xs != [] {
      var g' := Offer(g, cs, xs[0]);
      var rest := xs[1..];
      assert NamesDetermine(rest) by {
        forall k, l | 0 <= k < |rest| && 0 <= l < |rest| && NamePairs(rest)[k] == NamePairs(rest)[l]
          ensures rest[k] == rest[l]
        {
          assert NamePairs(xs)[k + 1] == NamePairs(xs)[l + 1];
        }
      }
      OfferAllOffered(g', cs, rest);
      OfferAllElsewhere(g', cs, rest);
      var R := OfferAll(g, cs, xs);
      assert R == OfferAll(g', cs, rest);
      forall k | 0 <= k < |xs|
        ensures HasEdge(R, xs[k].0.name, xs[k].1.name) <==>
                HasEdge(g, xs[k].0.name, xs[k].1.name) || EdgeWeight(cs, xs[k].0, xs[k].1).Some?
        ensures EdgeWeight(cs, xs[k].0, xs[k].1).Some? ==>
                (xs[k].0.name, xs[k].1.name) in R.weight &&
                R.weight[(xs[k].0.name, xs[k].1.name)] == EdgeWeight(cs, xs[k].0, xs[k].1).value
      {
        var e := (xs[k].0.name, xs[k].1.name);
        if e == NamePairs(xs)[0] {
          assert xs[k] == xs[0];
          if e in NamePairs(rest) {
            var l :| 0 <= l < |rest| && NamePairs(rest)[l] == e;
            assert NamePairs(xs)[l + 1] == e;
            assert rest[l] == xs[0];
          }
        } else {
          assert k > 0 && xs[k] == rest[k - 1];
        }
      }
    }
  }

  /** Offering only pairs from `S` adds no node outside `S`. */
  lemma {:induction false} OfferAllNodes(g: Graph, cs: seq<Constraint>, xs: seq<(Person, Person)>, S: seq<Person>)
    requires forall k :: 0 <= k < |xs| ==> xs[k].0 in S && xs[k].1 in S
    ensures forall u :: u in OfferAll(g, cs, xs).succ ==> u in g.succ || u in Names(S)
    decreases |xs|
  {
    if xs != [] {
      var g' := Offer(g, cs, xs[0]);
      OfferAllNodes(g', cs, xs[1..], S);
      assert xs[0].0 in S && xs[0].1 in S;
      forall u | u in g'.succ ensures u in g.succ || u in Names(S) {
        if u !in g.succ {
          var a :| a in S && (a.name == u);
          var i :| 0 <= i < |S| && S[i] == a;
          assert Names(S)[i] == u;
        }
      }
    }
  }

  lemma {:induction false} OfferAllValid(g: Graph, cs: seq<Constraint>, xs: seq<(Person, Person)>)
    requires Valid(g)
    ensures Valid(OfferAll(g, cs, xs))
    decreases |xs|
  {
    if xs != [] {
      if EdgeWeight(cs, xs[0].0, xs[0].1).Some? {
        AddEdgeValid(g, xs[0].0.name, xs[0].1.name, EdgeWeight(cs, xs[0].0, xs[0].1));
      }
      OfferAllValid(Offer(g, cs, xs[0]), cs, xs[1..]);
    }
  }

  /** The candidates of a uniquely named list are determined by their names and come from the list. */
  lemma CandidatesDetermined(S: seq<Person>)
    requires UniqueNames(S)
    ensures NamesDetermine(Candidates(S))
    ensures forall k :: 0 <= k < |Candidates(S)| ==>
              Candidates(S)[k].0 in S && Candidates(S)[k].1 in S && Candidates(S)[k].0.name != Candidates(S)[k].1.name
  {
    var xs := Candidates(S);
    CandidatesMembership(S);
    assert forall k :: 0 <= k < |xs| ==> xs[k] in xs;
    forall k, l | 0 <= k < |xs| && 0 <= l < |xs| && NamePairs(xs)[k] == NamePairs(xs)[l]
      ensures xs[k] == xs[l]
    {
      assert xs[k] in xs && xs[l] in xs;
      UniqueNamesDetermine(S, xs[k].0, xs[l].0);
      UniqueNamesDetermine(S, xs[k].1, xs[l].1);
    }
  }

  /**
   * With unique names, the eligibility graph built from an empty graph has an
   * edge a -> b between two selected people exactly when get_edge_weight(a, b)
   * is not None, and the edge carries that value as its weight.
   */
  lemma EligibilityGraphEdges(people: seq<Person>, cs: seq<Constraint>, participants: Option<seq<Name>>)
    requires UniqueNames(people)
    ensures forall a, b :: a in Select(people, participants) && b in Select(people, participants) && a.name != b.name ==>
              (HasEdge(EligibilityGraph(Empty, people, cs, participants), a.name, b.name) <==> EdgeWeight(cs, a, b).Some?)
    ensures forall a, b :: a in Select(people, participants) && b in Select(people, participants) && a.name != b.name &&
                           EdgeWeight(cs, a, b).Some? ==>
              (a.name, b.name) in EligibilityGraph(Empty, people, cs, participants).weight &&
              EligibilityGraph(Empty, people, cs, participants).weight[(a.name, b.name)] == EdgeWeight(cs, a, b).value
  {
    var S := Select(people, participants);
    var xs := Candidates(S);
    var G := OfferAll(Empty, cs, xs);
    SelectUnique(people, participants);
    CandidatesMembership(S);
    CandidatesDetermined(S);
    OfferAllOffered(Empty, cs, xs);
    forall a, b | a in S && b in S && a.name != b.name
      ensures (HasEdge(G, a.name, b.name) <==> EdgeWeight(cs, a, b).Some?)
      ensures EdgeWeight(cs, a, b).Some? ==> (a.name, b.name) in G.weight && G.weight[(a.name, b.name)] == EdgeWeight(cs, a, b).value
    {
      assert (a, b) in xs;
      var k :| 0 <= k < |xs| && xs[k] == (a, b);
    }
  }

  /** Every candidate pair is drawn from the list, whether or not names repeat. */
  lemma {:induction false} CandidatesWithin(ps: seq<Person>)
    ensures forall a, b :: (a, b) in Candidates(ps) ==> a in ps && b in ps
  {
    if ps != [] {
      CandidatesWithin(ps[1..]);
      RowMembership(ps[0], ps[1..]);
      assert ps == [ps[0]] + ps[1..];
    }
  }

  /** Offering pairs keeps every edge weighted: each added edge gets its weight. */
  lemma {:induction false} OfferAllWeighted(g: Graph, cs: seq<Constraint>, xs: seq<(Person, Person)>)
    requires forall u, v :: HasEdge(g, u, v) ==> (u, v) in g.weight
    ensures forall u, v :: HasEdge(OfferAll(g, cs, xs), u, v) ==> (u, v) in OfferAll(g, cs, xs).weight
    decreases |xs|
  {
    if xs != [] {
      OfferAllWeighted(Offer(g, cs, xs[0]), cs, xs[1..]);
    }
  }

  /** The eligibility graph built from an empty graph is valid and has no node outside the selection. */
  lemma EligibilityGraphNodes(people: seq<Person>, cs: seq<Constraint>, participants: Option<seq<Name>>)
    ensures Valid(EligibilityGraph(Empty, people, cs, participants))
    ensures forall u :: u in EligibilityGraph(Empty, people, cs, participants).nodes ==> u in Names(Select(people, participants))
  {
    var S := Select(people, participants);
    var xs := Candidates(S);
    CandidatesWithin(S);
    assert forall k :: 0 <= k < |xs| ==> xs[k] in xs;
    EmptyValid();
    OfferAllValid(Empty, cs, xs);
    OfferAllNodes(Empty, cs, xs, S);
  }

  /**
   * With unique names, every edge of the eligibility graph built from an empty
   * graph joins two different selected people and carries a weight.
   */
  lemma EligibilityGraphNoStrangers(people: seq<Person>, cs: seq<Constraint>, participants: Option<seq<Name>>)
    requires UniqueNames(people)
    ensures forall u, v :: HasEdge(EligibilityGraph(Empty, people, cs, participants), u, v) ==>
              u != v && u in Names(Select(people, participants)) && v in Names(Select(people, participants)) &&
              (u, v) in EligibilityGraph(Empty, people, cs, participants).weight
  {
    var S := Select(people, participants);
    var xs := Candidates(S);
    var G := OfferAll(Empty, cs, xs);
    SelectUnique(people, participants);
    CandidatesDetermined(S);
    OfferAllOffered(Empty, cs, xs);
    OfferAllElsewhere(Empty, cs, xs);
    forall u, v | HasEdge(G, u, v)
      ensures u != v && u in Names(S) && v in Names(S) && (u, v) in G.weight
    {
      assert !HasEdge(Empty, u, v);
      var k :| 0 <= k < |xs| && NamePairs(xs)[k] == (u, v);
      NoStrangerAt(S, cs, xs, G, k);
    }
  }

  lemma NoStrangerAt(S: seq<Person>, cs: seq<Constraint>, xs: seq<(Person, Person)>, G: Graph, k: nat)
    requires k < |xs| && xs[k].0 in S && xs[k].1 in S && xs[k].0.name != xs[k].1.name
    requires HasEdge(G, xs[k].0.name, xs[k].1.name)
    requires HasEdge(G, xs[k].0.name, xs[k].1.name) <==> HasEdge(Empty, xs[k].0.name, xs[k].1.name) || EdgeWeight(cs, xs[k].0, xs[k].1).Some?
    requires EdgeWeight(cs, xs[k].0, xs[k].1).Some? ==> (xs[k].0.name, xs[k].1.name) in G.weight
    ensures xs[k].0.name in Names(S) && xs[k].1.name in Names(S) && (xs[k].0.name, xs[k].1.name) in G.weight
  {
    var i :| 0 <= i < |S| && S[i] == xs[k].0;
    var j :| 0 <= j < |S| && S[j] == xs[k].1;
    assert Names(S)[i] == xs[k].0.name && Names(S)[j] == xs[k].1.name;
  }

  lemma UniqueNamesDetermine(S: seq<Person>, a: Person, b: Person)
    requires UniqueNames(S) && a in S && b in S && a.name == b.name
    ensures a == b
  {
    var i :| 0 <= i < |S| && S[i] == a;
    var j :| 0 <= j < |S| && S[j] == b;
  }
}
