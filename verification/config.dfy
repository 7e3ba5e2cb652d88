/**
 * Participants, constraints and the stored-relationship view of a solution
 * (secret_santa_pp/config.py).
 */
module Configuration {
  import opened Wrappers
  import opened DiGraphs

  datatype Comparator = OneWayContains | TwoWayContains | EitherContains | Equality

  datatype Limit = Exclude | LowProbability | MediumProbability

  /** A participant: a relationship tag maps to an ordered list of participant names. */
  datatype Person = Person(name: Name, email: string, relationships: map<string, seq<Name>>)

  datatype Constraint = Constraint(relationshipKey: string, comparator: Comparator, limit: Limit)

  /** The person's list under `key`, or the empty list when the person has no such tag. */
  function Lookup(p: Person, key: string): seq<Name> {
    if key in p.relationships then p.relationships[key] else []
  }

  function Names(ps: seq<Person>): (r: seq<Name>)
    ensures |r| == |ps| && forall i :: 0 <= i < |ps| ==> r[i] == ps[i].name
  {
    seq(|ps|, i requires 0 <= i < |ps| => ps[i].name)
  }

  ghost predicate UniqueNames(ps: seq<Person>) {
    forall i, j :: 0 <= i < j < |ps| ==> ps[i].name != ps[j].name
  }

  /**
   * Whether constraint `c` fires for the ordered pair (src, dst). Nothing fires
   * when src has no list under the key; "either contains" therefore needs a
   * non-empty source list even when dst lists src.
   */
  function MeetCriterion(c: Constraint, src: Person, dst: Person): (r: bool)
    ensures r ==> Lookup(src, c.relationshipKey) != []
    ensures c.comparator == OneWayContains ==>
              (r <==> dst.name in Lookup(src, c.relationshipKey))
    ensures c.comparator == TwoWayContains ==>
              (r <==> dst.name in Lookup(src, c.relationshipKey) && src.name in Lookup(dst, c.relationshipKey))
    ensures c.comparator == EitherContains ==>
              (r <==> Lookup(src, c.relationshipKey) != [] &&
                      (dst.name in Lookup(src, c.relationshipKey) || src.name in Lookup(dst, c.relationshipKey)))
    ensures c.comparator == Equality ==>
              (r <==> Lookup(src, c.relationshipKey) != [] && Lookup(src, c.relationshipKey) == Lookup(dst, c.relationshipKey))
  {
    var srcRelationship := Lookup(src, c.relationshipKey);
    if |srcRelationship| == 0 then false
    else
      var dstRelationship := Lookup(dst, c.relationshipKey);
      if c.comparator == Equality then |dstRelationship| > 0 && srcRelationship == dstRelationship
      else
        var contains := dst.name in srcRelationship;
        if c.comparator == OneWayContains then contains
        else
          var oppositeContains := |dstRelationship| > 0 && src.name in dstRelationship;
          if c.comparator == EitherContains then contains || oppositeContains
          else contains && oppositeContains
  }

  /** A firing "two-way contains" constraint also fires as "one-way contains" and as "either contains". */
  lemma TwoWayImpliesOneWayAndEither(key: string, limit: Limit, src: Person, dst: Person)
    requires MeetCriterion(Constraint(key, TwoWayContains, limit), src, dst)
    ensures MeetCriterion(Constraint(key, OneWayContains, limit), src, dst)
    ensures MeetCriterion(Constraint(key, EitherContains, limit), src, dst)
  {
  }

  /** Equality does not depend on the direction of the pair. */
  lemma EqualityIsSymmetric(key: string, limit: Limit, a: Person, b: Person)
    ensures MeetCriterion(Constraint(key, Equality, limit), a, b) == MeetCriterion(Constraint(key, Equality, limit), b, a)
  {
  }

  /** "either contains" is not symmetric: with no list of its own, the source never triggers it. */
  lemma EitherContainsNeedsSourceList()
    ensures var a := Person("a", "a@example.com", map[]);
            var b := Person("b", "b@example.com", map["k" := ["a"]]);
            var c := Constraint("k", EitherContains, Exclude);
            !MeetCriterion(c, a, b) && MeetCriterion(c, b, a)
  {
  }

  /** The (person, recipient) pairs stored under `key`, person by person. */
  function StoredEdges(ps: seq<Person>, key: string): seq<Edge> {
    if ps == [] then [] else EdgesFrom(ps[0].name, Lookup(ps[0], key)) + StoredEdges(ps[1..], key)
  }

  /**
   * `Config.load_graph(key)`: the graph of the stored pairs. It has exactly
   * those pairs as edges and no weights.
   */
  function LoadGraph(ps: seq<Person>, key: string): (r: Graph)
    ensures forall u, v :: HasEdge(r, u, v) <==> (u, v) in StoredEdges(ps, key)
    ensures r.weight == map[]
  {
    FromEdges(Empty, StoredEdges(ps, key))
  }

  lemma {:induction false} StoredEdgesMembership(ps: seq<Person>, key: string)
    ensures forall u, v :: (u, v) in StoredEdges(ps, key) <==>
              exists i :: 0 <= i < |ps| && ps[i].name == u && v in Lookup(ps[i], key)
  {
    if ps != [] {
      StoredEdgesMembership(ps[1..], key);
      var head := EdgesFrom(ps[0].name, Lookup(ps[0], key));
      forall u, v ensures (u, v) in StoredEdges(ps, key) <==>
                          exists i :: 0 <= i < |ps| && ps[i].name == u && v in Lookup(ps[i], key) {
        assert (u, v) in head <==> u == ps[0].name && v in Lookup(ps[0], key) by {
          if u == ps[0].name && v in Lookup(ps[0], key) {
            var k :| 0 <= k < |Lookup(ps[0], key)| && Lookup(ps[0], key)[k] == v;
            assert head[k] == (u, v);
          }
        }
        if exists i :: 0 <= i < |ps| && ps[i].name == u && v in Lookup(ps[i], key) {
          var i :| 0 <= i < |ps| && ps[i].name == u && v in Lookup(ps[i], key);
          if i > 0 { assert ps[1..][i - 1] == ps[i]; }
        }
        if (u, v) in StoredEdges(ps[1..], key) {
          var i :| 0 <= i < |ps[1..]| && ps[1..][i].name == u && v in Lookup(ps[1..][i], key);
          assert ps[i + 1] == ps[1..][i];
        }
      }
    }
  }

  lemma StoredSources(ps: seq<Person>, key: string)
    ensures forall x :: x in Sources(StoredEdges(ps, key)) <==>
              exists i :: 0 <= i < |ps| && ps[i].name == x && Lookup(ps[i], key) != []
  {
    var es := StoredEdges(ps, key);
    StoredEdgesMembership(ps, key);
    SourcesMembership(es);
    forall x ensures x in Sources(es) <==> exists i :: 0 <= i < |ps| && ps[i].name == x && Lookup(ps[i], key) != [] {
      if exists i :: 0 <= i < |ps| && ps[i].name == x && Lookup(ps[i], key) != [] {
        var i :| 0 <= i < |ps| && ps[i].name == x && Lookup(ps[i], key) != [];
        assert (x, Lookup(ps[i], key)[0]) in es;
      }
    }
  }

  lemma StoredRecipients(ps: seq<Person>, key: string)
    ensures forall x :: x in Targets(StoredEdges(ps, key)) <==>
              exists i :: 0 <= i < |ps| && x in Lookup(ps[i], key)
  {
    var es := StoredEdges(ps, key);
    StoredEdgesMembership(ps, key);
    TargetsMembership(es);
    forall x ensures x in Targets(es) <==> exists i :: 0 <= i < |ps| && x in Lookup(ps[i], key) {
      if exists i :: 0 <= i < |ps| && x in Lookup(ps[i], key) {
        var i :| 0 <= i < |ps| && x in Lookup(ps[i], key);
        assert (ps[i].name, x) in es;
      }
    }
  }

  /**
   * `load_graph` yields a valid graph whose edges are exactly the stored
   * (person, recipient) pairs and whose nodes are exactly their endpoints, so a
   * person with no or an empty list is a node only when someone else lists them.
   */
  lemma LoadGraphSpec(ps: seq<Person>, key: string)
    ensures Valid(LoadGraph(ps, key))
    ensures forall u, v :: HasEdge(LoadGraph(ps, key), u, v) <==>
              exists i :: 0 <= i < |ps| && ps[i].name == u && v in Lookup(ps[i], key)
    ensures forall x :: x in LoadGraph(ps, key).nodes <==>
              (exists i :: 0 <= i < |ps| && ps[i].name == x && Lookup(ps[i], key) != []) ||
              (exists i :: 0 <= i < |ps| && x in Lookup(ps[i], key))
    ensures LoadGraph(ps, key).weight == map[]
  {
    var es := StoredEdges(ps, key);
    EmptyValid();
    FromEdgesValid(Empty, es);
    FromEdgesNodes(Empty, es);
    StoredEdgesMembership(ps, key);
    StoredSources(ps, key);
    StoredRecipients(ps, key);
  }

  lemma {:induction false} TargetsOfAppend(a: seq<Edge>, b: seq<Edge>, u: Name)
    ensures TargetsOf(a + b, u) == TargetsOf(a, u) + TargetsOf(b, u)
  {
    if a == [] {
      assert a + b == b;
    } else {
      var head := if a[0].0 == u then [a[0].1] else [];
      assert (a + b)[0] == a[0];
      assert (a + b)[1..] == a[1..] + b;
      calc {
        TargetsOf(a + b, u);
        head + TargetsOf(a[1..] + b, u);
        { TargetsOfAppend(a[1..], b, u); }
        head + (TargetsOf(a[1..], u) + TargetsOf(b, u));
        { SeqAssoc(head, TargetsOf(a[1..], u), TargetsOf(b, u)); }
        TargetsOf(a, u) + TargetsOf(b, u);
      }
    }
  }

  lemma {:induction false} TargetsOfEdgesFrom(x: Name, vs: seq<Name>, u: Name)
    ensures TargetsOf(EdgesFrom(x, vs), u) == if x == u then vs else []
  {
    if vs != [] {
      TargetsOfEdgesFrom(x, vs[1..], u);
      assert EdgesFrom(x, vs)[1..] == EdgesFrom(x, vs[1..]);
    }
  }

  /** The names of a non-empty list are the first person's name and the names of the rest. */
  lemma NamesCons(ps: seq<Person>)
    requires ps != []
    ensures forall x :: x in Names(ps) <==> x == ps[0].name || x in Names(ps[1..])
  {
    assert Names(ps)[1..] == Names(ps[1..]);
    ConsMembership(Names(ps));
  }

  /** With unique names, the stored pairs leaving `u` are the list of the one person called `u`. */
  lemma {:induction false} StoredTargets(ps: seq<Person>, key: string, u: Name)
    requires UniqueNames(ps)
    ensures forall i :: 0 <= i < |ps| && ps[i].name == u ==> TargetsOf(StoredEdges(ps, key), u) == Lookup(ps[i], key)
    ensures u !in Names(ps) ==> TargetsOf(StoredEdges(ps, key), u) == []
  {
    if ps != [] {
      var rest := ps[1..];
      var head := EdgesFrom(ps[0].name, Lookup(ps[0], key));
      assert UniqueNames(rest) by {
        forall i, j | 0 <= i < j < |rest| ensures rest[i].name != rest[j].name {
          assert rest[i] == ps[i + 1] && rest[j] == ps[j + 1];
        }
      }
      StoredTargets(rest, key, u);
      TargetsOfAppend(head, StoredEdges(rest, key), u);
      TargetsOfEdgesFrom(ps[0].name, Lookup(ps[0], key), u);
      NamesCons(ps);
      if ps[0].name == u {
        assert u !in Names(rest) by {
          forall k | 0 <= k < |rest| ensures Names(rest)[k] != u { assert rest[k] == ps[k + 1]; }
        }
      }
      forall i | 0 <= i < |ps| && ps[i].name == u
        ensures TargetsOf(StoredEdges(ps, key), u) == Lookup(ps[i], key)
      {
        if i > 0 { assert rest[i - 1] == ps[i]; }
      }
    }
  }

  /** With unique names, each person's successors in the loaded graph follow their stored list (repeats dropped). */
  lemma LoadGraphOrder(ps: seq<Person>, key: string)
    requires UniqueNames(ps)
    ensures forall i :: 0 <= i < |ps| ==> Successors(LoadGraph(ps, key), ps[i].name) == Dedup(Lookup(ps[i], key))
    ensures forall u :: u !in Names(ps) ==> Successors(LoadGraph(ps, key), u) == []
  {
    FromEdgesOrder(Empty, StoredEdges(ps, key));
    forall i | 0 <= i < |ps|
      ensures Successors(LoadGraph(ps, key), ps[i].name) == Dedup(Lookup(ps[i], key))
    {
      StoredTargets(ps, key, ps[i].name);
    }
    forall u | u !in Names(ps) ensures Successors(LoadGraph(ps, key), u) == [] {
      StoredTargets(ps, key, u);
    }
  }

  /** The person after `update_from_graph(graph, key)` has run over them. */
  function Refreshed(p: Person, g: Graph, key: string): (r: Person)
    ensures r.name == p.name && r.email == p.email
    ensures p.name in g.nodes ==> Lookup(r, key) == Successors(g, p.name)
    ensures p.name !in g.nodes ==> r == p
    ensures forall k :: k != key ==> Lookup(r, k) == Lookup(p, k)
    ensures p.name in g.nodes ==> key in r.relationships
    ensures forall k :: k != key ==> (k in r.relationships <==> k in p.relationships)
  {
    if p.name in g.nodes then p.(relationships := p.relationships[key := Successors(g, p.name)]) else p
  }

  function RefreshAll(ps: seq<Person>, g: Graph, key: string): (r: seq<Person>)
    ensures |r| == |ps| && forall i :: 0 <= i < |ps| ==> r[i] == Refreshed(ps[i], g, key)
  {
    seq(|ps|, i requires 0 <= i < |ps| => Refreshed(ps[i], g, key))
  }

  /**
   * Storing a graph under `key` and loading it back gives every node the same
   * successors in the same order, when names are unique, every node is a
   * person, and people outside the graph have no list under `key`.
   */
  lemma {:induction false} UpdateThenLoadRoundTrip(ps: seq<Person>, g: Graph, key: string)
    requires Valid(g) && UniqueNames(ps)
    requires forall u :: u in g.nodes ==> u in Names(ps)
    requires forall i :: 0 <= i < |ps| && ps[i].name !in g.nodes ==> Lookup(ps[i], key) == []
    ensures forall u :: Successors(LoadGraph(RefreshAll(ps, g, key), key), u) == Successors(g, u)
    ensures forall u, v :: HasEdge(LoadGraph(RefreshAll(ps, g, key), key), u, v) <==> HasEdge(g, u, v)
  {
    var after := RefreshAll(ps, g, key);
    assert UniqueNames(after);
    LoadGraphOrder(after, key);
    assert Names(after) == Names(ps);
    forall u ensures Successors(LoadGraph(after, key), u) == Successors(g, u) {
      if u in Names(ps) {
        var i :| 0 <= i < |ps| && Names(ps)[i] == u;
        assert Successors(LoadGraph(after, key), u) == Dedup(Lookup(after[i], key));
        if u in g.nodes {
          assert Lookup(after[i], key) == Successors(g, u);
          assert NoDup(Successors(g, u));
          DedupNoDup(Successors(g, u));
        } else {
          assert u !in g.succ;
        }
      } else {
        assert u !in g.succ;
      }
    }
  }

  /** The configuration: the participants and the constraint rules. */
  class Config {
    var people: seq<Person>
    var constraints: seq<Constraint>

    constructor (people: seq<Person>, constraints: seq<Constraint>)
      ensures this.people == people && this.constraints == constraints
    {
      this.people := people;
      this.constraints := constraints;
    }

    /**
     * `update_from_graph(graph, key)`: every person who is a node of the graph
     * gets the node's successor list stored under `key`; everyone else, and
     * every other key, stays as it was.
     */
    method UpdateFromGraph(graph: Graph, key: string)
      modifies this
      ensures people == RefreshAll(old(people), graph, key)
      ensures constraints == old(constraints)
    {
      var i := 0;
      while i < |people|
        invariant 0 <= i <= |people| == |old(people)|
        invariant constraints == old(constraints)
        invariant forall k :: 0 <= k < i ==> people[k] == Refreshed(old(people)[k], graph, key)
        invariant forall k :: i <= k < |people| ==> people[k] == old(people)[k]
      {
        var person := people[i];
        if person.name in graph.nodes {
          people := people[i := person.(relationships := person.relationships[key := Successors(graph, person.name)])];
        }
        i := i + 1;
      }
    }
  }
}
