/**
 * A directed graph with the observable behaviour of the networkx DiGraph the
 * engine is written against: nodes are kept in insertion order, every node has
 * an insertion-ordered list of successors and of predecessors, and an edge may
 * carry an integer `weight` attribute.
 */
module DiGraphs {
  import opened Wrappers

  type Name = string
  type Edge = (Name, Name)

  datatype Graph = Graph(
    nodes: seq<Name>,
    succ: map<Name, seq<Name>>,
    pred: map<Name, seq<Name>>,
    weight: map<Edge, int>)

  const Empty: Graph := Graph([], map[], map[], map[])

  predicate NoDup<T(==)>(s: seq<T>) {
    forall i, j :: 0 <= i < j < |s| ==> s[i] != s[j]
  }

  /** The successors of `u` in insertion order (none when `u` is not a node). */
  function Successors(g: Graph, u: Name): seq<Name> {
    if u in g.succ then g.succ[u] else []
  }

  function Predecessors(g: Graph, v: Name): seq<Name> {
    if v in g.pred then g.pred[v] else []
  }

  predicate HasEdge(g: Graph, u: Name, v: Name) {
    v in Successors(g, u)
  }

  function OutDegree(g: Graph, u: Name): nat {
    |Successors(g, u)|
  }

  function InDegree(g: Graph, v: Name): nat {
    |Predecessors(g, v)|
  }

  /** Every node has a successor and a predecessor entry, and nothing else has. */
  ghost predicate Indexed(g: Graph) {
    && NoDup(g.nodes)
    && (forall u :: u in g.succ <==> u in g.nodes)
    && (forall u :: u in g.pred <==> u in g.nodes)
  }

  ghost predicate ListsDistinct(g: Graph) {
    && (forall u :: NoDup(Successors(g, u)))
    && (forall v :: NoDup(Predecessors(g, v)))
  }

  /** Successor and predecessor lists describe the same edges. */
  ghost predicate Linked(g: Graph) {
    forall u, v :: v in Successors(g, u) <==> u in Predecessors(g, v)
  }

  ghost predicate WeightsOnEdges(g: Graph) {
    forall e :: e in g.weight ==> HasEdge(g, e.0, e.1)
  }

  /** The representation invariant networkx keeps between its node, successor and predecessor dictionaries. */
  ghost predicate Valid(g: Graph) {
    Indexed(g) && ListsDistinct(g) && Linked(g) && WeightsOnEdges(g)
  }

  lemma EmptyValid()
    ensures Valid(Empty)
  {
  }

  /** `add_node(u)`: a new node has no neighbours; an existing node is left alone. */
  function AddNode(g: Graph, u: Name): (r: Graph)
    ensures forall y :: Successors(r, y) == Successors(g, y)
    ensures forall y :: Predecessors(r, y) == if y == u && u !in g.succ then [] else Predecessors(g, y)
    ensures forall x :: x in r.succ <==> x in g.succ || x == u
    ensures r.weight == g.weight
  {
    if u in g.succ then g else Graph(g.nodes + [u], g.succ[u := []], g.pred[u := []], g.weight)
  }

  /**
   * `add_edge(u, v, weight=w)`: adds the missing endpoints (u first), appends
   * `v` to the successors of `u` unless the edge exists already (an existing
   * edge keeps its place), and sets the weight when one is given.
   */
  function AddEdge(g: Graph, u: Name, v: Name, w: Option<int>): (r: Graph)
    ensures forall x, y :: HasEdge(r, x, y) <==> HasEdge(g, x, y) || (x == u && y == v)
    ensures forall x :: x in r.succ <==> x in g.succ || x == u || x == v
    ensures forall x ::
              Successors(r, x) == if x == u && !HasEdge(g, u, v) then Successors(g, u) + [v] else Successors(g, x)
    ensures r.weight == if w.Some? then g.weight[(u, v) := w.value] else g.weight
  {
    var g1 := AddNode(AddNode(g, u), v);
    var s := Successors(g1, u);
    var p := Predecessors(g1, v);
    Graph(g1.nodes,
          g1.succ[u := if v in s then s else s + [v]],
          g1.pred[v := if u in p then p else p + [u]],
          if w.Some? then g1.weight[(u, v) := w.value] else g1.weight)
  }

  lemma AddNodeIndexed(g: Graph, u: Name)
    requires Indexed(g)
    ensures Indexed(AddNode(g, u))
    ensures forall y :: Predecessors(AddNode(g, u), y) == Predecessors(g, y)
    ensures forall y :: Successors(AddNode(g, u), y) == Successors(g, y)
    ensures u in AddNode(g, u).succ && u in AddNode(g, u).pred
  {
    if u !in g.succ {
      var r := AddNode(g, u);
      forall i, j | 0 <= i < j < |r.nodes| ensures r.nodes[i] != r.nodes[j] {
        if j == |g.nodes| { assert r.nodes[i] in g.nodes; }
      }
    }
  }

  lemma AddEdgeKeys(g: Graph, u: Name, v: Name, w: Option<int>)
    requires Indexed(g)
    ensures Indexed(AddEdge(g, u, v, w))
  {
    var g0 := AddNode(g, u);
    AddNodeIndexed(g, u);
    AddNodeIndexed(g0, v);
  }

  lemma AddNodePreds(g: Graph, u: Name)
    requires forall x :: x in g.pred ==> x in g.succ
    ensures forall x :: x in AddNode(g, u).pred ==> x in AddNode(g, u).succ
    ensures forall y :: Predecessors(AddNode(g, u), y) == Predecessors(g, y)
  {
  }

  lemma AddEdgePreds(g: Graph, u: Name, v: Name, w: Option<int>)
    requires Indexed(g)
    ensures forall y :: Predecessors(AddEdge(g, u, v, w), y) ==
              if y == v && u !in Predecessors(g, v) then Predecessors(g, v) + [u] else Predecessors(g, y)
  {
    AddNodePreds(g, u);
    var g0 := AddNode(g, u);
    AddNodePreds(g0, v);
    var g1 := AddNode(g0, v);
    var p := Predecessors(g1, v);
    var r := AddEdge(g, u, v, w);
    assert r.pred == g1.pred[v := if u in p then p else p + [u]];
  }

  lemma AddEdgeIndexed(g: Graph, u: Name, v: Name, w: Option<int>)
    requires Indexed(g)
    ensures Indexed(AddEdge(g, u, v, w))
    ensures forall y :: Predecessors(AddEdge(g, u, v, w), y) ==
              if y == v && u !in Predecessors(g, v) then Predecessors(g, v) + [u] else Predecessors(g, y)
  {
    AddEdgeKeys(g, u, v, w);
    AddEdgePreds(g, u, v, w);
  }

  lemma NoDupSnoc(s: seq<Name>, x: Name)
    requires NoDup(s) && x !in s
    ensures NoDup(s + [x])
  {
    forall i, j | 0 <= i < j < |s| + 1 ensures (s + [x])[i] != (s + [x])[j] {
      if j == |s| { assert (s + [x])[i] in s; }
    }
  }

  lemma AddEdgeDistinct(g: Graph, r: Graph, u: Name, v: Name)
    requires ListsDistinct(g)
    requires forall x :: Successors(r, x) == if x == u && !HasEdge(g, u, v) then Successors(g, u) + [v] else Successors(g, x)
    requires forall y :: Predecessors(r, y) == if y == v && u !in Predecessors(g, v) then Predecessors(g, v) + [u] else Predecessors(g, y)
    ensures ListsDistinct(r)
  {
    forall x ensures NoDup(Successors(r, x)) {
      if x == u && !HasEdge(g, u, v) { NoDupSnoc(Successors(g, u), v); }
    }
    forall y ensures NoDup(Predecessors(r, y)) {
      if y == v && u !in Predecessors(g, v) { NoDupSnoc(Predecessors(g, v), u); }
    }
  }

  lemma AddEdgeLinked(g: Graph, r: Graph, u: Name, v: Name)
    requires Linked(g)
    requires forall x :: Successors(r, x) == if x == u && !HasEdge(g, u, v) then Successors(g, u) + [v] else Successors(g, x)
    requires forall y :: Predecessors(r, y) == if y == v && u !in Predecessors(g, v) then Predecessors(g, v) + [u] else Predecessors(g, y)
    ensures Linked(r)
  {
    forall x, y ensures y in Successors(r, x) <==> x in Predecessors(r, y) {
      assert y in Successors(g, x) <==> x in Predecessors(g, y);
    }
  }

  lemma AddEdgeValid(g: Graph, u: Name, v: Name, w: Option<int>)
    requires Valid(g)
    ensures Valid(AddEdge(g, u, v, w))
    ensures forall y :: Predecessors(AddEdge(g, u, v, w), y) ==
              if y == v && u !in Predecessors(g, v) then Predecessors(g, v) + [u] else Predecessors(g, y)
  {
    var r := AddEdge(g, u, v, w);
    AddEdgeIndexed(g, u, v, w);
    AddEdgeDistinct(g, r, u, v);
    AddEdgeLinked(g, r, u, v);
  }

  /** Adding an edge that is not there yet raises the out-degree of its source and the in-degree of its target by one. */
  lemma AddFreshEdgeDegrees(g: Graph, u: Name, v: Name, w: Option<int>)
    requires Valid(g) && !HasEdge(g, u, v)
    ensures forall x :: OutDegree(AddEdge(g, u, v, w), x) == OutDegree(g, x) + (if x == u then 1 else 0)
    ensures forall x :: InDegree(AddEdge(g, u, v, w), x) == InDegree(g, x) + (if x == v then 1 else 0)
  {
  }

  lemma SeqAssoc<T>(a: seq<T>, b: seq<T>, c: seq<T>)
    ensures (a + b) + c == a + (b + c)
  {
  }

  /** `s` without any occurrence of `x`, order kept. */
  function Without(s: seq<Name>, x: Name): (r: seq<Name>)
    ensures forall y :: y in r <==> y in s && y != x
  {
    if s == [] then []
    else if s[0] == x then Without(s[1..], x)
    else [s[0]] + Without(s[1..], x)
  }

  lemma {:induction false} WithoutNoDup(s: seq<Name>, x: Name)
    requires NoDup(s)
    ensures NoDup(Without(s, x))
  {
    if s != [] {
      WithoutNoDup(s[1..], x);
      assert s[0] !in s[1..] by {
        forall k | 0 <= k < |s[1..]| ensures s[1..][k] != s[0] { assert s[1..][k] == s[k + 1]; }
      }
    }
  }

  /**
   * `remove_edge(u, v)`: None when (u, v) is not an edge (networkx raises);
   * otherwise the edge and its attributes are gone and the nodes stay.
   */
  function RemoveEdge(g: Graph, u: Name, v: Name): (r: Option<Graph>)
    ensures r.Some? <==> HasEdge(g, u, v)
    ensures r.Some? ==> r.value.nodes == g.nodes
    ensures r.Some? ==> forall x, y :: HasEdge(r.value, x, y) <==> HasEdge(g, x, y) && !(x == u && y == v)
  {
    if HasEdge(g, u, v) then
      Some(Graph(g.nodes,
                 g.succ[u := Without(g.succ[u], v)],
                 if v in g.pred then g.pred[v := Without(g.pred[v], u)] else g.pred,
                 g.weight - {(u, v)}))
    else None
  }

  lemma RemoveEdgeShape(g: Graph, u: Name, v: Name)
    requires Valid(g) && HasEdge(g, u, v)
    ensures Indexed(RemoveEdge(g, u, v).value) && WeightsOnEdges(RemoveEdge(g, u, v).value)
    ensures forall x :: Successors(RemoveEdge(g, u, v).value, x) ==
              if x == u then Without(Successors(g, u), v) else Successors(g, x)
    ensures forall y :: Predecessors(RemoveEdge(g, u, v).value, y) ==
              if y == v then Without(Predecessors(g, v), u) else Predecessors(g, y)
  {
    assert v in g.pred by { assert u in Predecessors(g, v); }
  }

  lemma RemoveEdgeDistinct(g: Graph, r: Graph, u: Name, v: Name)
    requires ListsDistinct(g)
    requires forall x :: Successors(r, x) == if x == u then Without(Successors(g, u), v) else Successors(g, x)
    requires forall y :: Predecessors(r, y) == if y == v then Without(Predecessors(g, v), u) else Predecessors(g, y)
    ensures ListsDistinct(r)
  {
    WithoutNoDup(Successors(g, u), v);
    WithoutNoDup(Predecessors(g, v), u);
  }

  lemma RemoveEdgeLinked(g: Graph, r: Graph, u: Name, v: Name)
    requires Linked(g)
    requires forall x :: Successors(r, x) == if x == u then Without(Successors(g, u), v) else Successors(g, x)
    requires forall y :: Predecessors(r, y) == if y == v then Without(Predecessors(g, v), u) else Predecessors(g, y)
    ensures Linked(r)
  {
    forall x, y ensures y in Successors(r, x) <==> x in Predecessors(r, y) {
      assert y in Successors(g, x) <==> x in Predecessors(g, y);
    }
  }

  lemma RemoveEdgeValid(g: Graph, u: Name, v: Name)
    requires Valid(g) && HasEdge(g, u, v)
    ensures Valid(RemoveEdge(g, u, v).value)
  {
    var r := RemoveEdge(g, u, v).value;
    RemoveEdgeShape(g, u, v);
    RemoveEdgeDistinct(g, r, u, v);
    RemoveEdgeLinked(g, r, u, v);
  }

  /** The pairs (u, vs[0]), (u, vs[1]), ... */
  function EdgesFrom(u: Name, vs: seq<Name>): (r: seq<Edge>)
    ensures |r| == |vs|
    ensures forall i :: 0 <= i < |vs| ==> r[i] == (u, vs[i])
  {
    seq(|vs|, i requires 0 <= i < |vs| => (u, vs[i]))
  }

  function EdgesOf(g: Graph, us: seq<Name>): seq<Edge> {
    if us == [] then [] else EdgesFrom(us[0], Successors(g, us[0])) + EdgesOf(g, us[1..])
  }

  /** `graph.edges` in networkx order: node by node, each node's successors in order. */
  function EdgeList(g: Graph): (r: seq<Edge>)
    ensures forall u, v :: (u, v) in r <==> u in g.nodes && HasEdge(g, u, v)
  {
    EdgesOfMembership(g, g.nodes);
    EdgesOf(g, g.nodes)
  }

  lemma {:induction false} EdgesOfMembership(g: Graph, us: seq<Name>)
    ensures forall u, v :: (u, v) in EdgesOf(g, us) <==> u in us && HasEdge(g, u, v)
  {
    if us != [] {
      EdgesOfMembership(g, us[1..]);
      forall u, v ensures (u, v) in EdgesOf(g, us) <==> u in us && HasEdge(g, u, v) {
        assert (u, v) in EdgesFrom(us[0], Successors(g, us[0])) <==> u == us[0] && v in Successors(g, us[0]) by {
          if u == us[0] && v in Successors(g, us[0]) {
            var i :| 0 <= i < |Successors(g, us[0])| && Successors(g, us[0])[i] == v;
            assert EdgesFrom(us[0], Successors(g, us[0]))[i] == (u, v);
          }
        }
        assert u in us <==> u == us[0] || u in us[1..];
      }
    }
  }

  /** The edge list holds exactly the edges of the graph. */
  lemma EdgeListMembership(g: Graph)
    requires Valid(g)
    ensures forall u, v :: (u, v) in EdgeList(g) <==> HasEdge(g, u, v)
  {
    forall u, v | HasEdge(g, u, v) ensures u in g.nodes {
      assert u in g.succ;
    }
  }

  /** The first components of a list of pairs. */
  function Sources(es: seq<Edge>): (r: seq<Name>)
    ensures |r| == |es| && forall i :: 0 <= i < |es| ==> r[i] == es[i].0
  {
    seq(|es|, i requires 0 <= i < |es| => es[i].0)
  }

  /** The second components of a list of pairs. */
  function Targets(es: seq<Edge>): (r: seq<Name>)
    ensures |r| == |es| && forall i :: 0 <= i < |es| ==> r[i] == es[i].1
  {
    seq(|es|, i requires 0 <= i < |es| => es[i].1)
  }

  lemma SourcesMembership(es: seq<Edge>)
    ensures forall x :: x in Sources(es) <==> exists y :: (x, y) in es
  {
    forall x ensures x in Sources(es) <==> exists y :: (x, y) in es {
      if x in Sources(es) {
        var k :| 0 <= k < |es| && Sources(es)[k] == x;
        assert es[k] == (x, es[k].1);
      }
      if exists y :: (x, y) in es {
        var y :| (x, y) in es;
        var k :| 0 <= k < |es| && es[k] == (x, y);
        assert Sources(es)[k] == x;
      }
    }
  }

  lemma TargetsMembership(es: seq<Edge>)
    ensures forall y :: y in Targets(es) <==> exists x :: (x, y) in es
  {
    forall y ensures y in Targets(es) <==> exists x :: (x, y) in es {
      if y in Targets(es) {
        var k :| 0 <= k < |es| && Targets(es)[k] == y;
        assert es[k] == (es[k].0, y);
      }
      if exists x :: (x, y) in es {
        var x :| (x, y) in es;
        var k :| 0 <= k < |es| && es[k] == (x, y);
        assert Targets(es)[k] == y;
      }
    }
  }

  /** The targets of the pairs in `es` whose source is `u`, in order. */
  function TargetsOf(es: seq<Edge>, u: Name): seq<Name> {
    if es == [] then []
    else (if es[0].0 == u then [es[0].1] else []) + TargetsOf(es[1..], u)
  }

  /** Appends the elements of `xs` not yet present, left to right. */
  function AppendNew(s: seq<Name>, xs: seq<Name>): seq<Name>
    decreases |xs|
  {
    if xs == [] then s
    else AppendNew(if xs[0] in s then s else s + [xs[0]], xs[1..])
  }

  /** First occurrences of `xs`, order kept. */
  function Dedup(xs: seq<Name>): seq<Name> {
    AppendNew([], xs)
  }

  lemma {:induction false} AppendNewFresh(s: seq<Name>, xs: seq<Name>)
    requires NoDup(xs) && forall x :: x in xs ==> x !in s
    ensures AppendNew(s, xs) == s + xs
    decreases |xs|
  {
    if xs != [] {
      forall x | x in xs[1..] ensures x !in s + [xs[0]] {
        assert x in xs;
        var k :| 1 <= k < |xs| && xs[k] == x;
      }
      AppendNewFresh(s + [xs[0]], xs[1..]);
      assert s + [xs[0]] + xs[1..] == s + xs;
    }
  }

  /** Without duplicates there is nothing for `Dedup` to drop. */
  lemma DedupNoDup(xs: seq<Name>)
    requires NoDup(xs)
    ensures Dedup(xs) == xs
  {
    AppendNewFresh([], xs);
  }

  /**
   * `DiGraph(es)` when `g` is empty: the pairs are added one by one, without
   * weights. The edges are the old ones plus the listed pairs; no weight changes.
   */
  function FromEdges(g: Graph, es: seq<Edge>): (r: Graph)
    ensures forall u, v :: HasEdge(r, u, v) <==> HasEdge(g, u, v) || (u, v) in es
    ensures r.weight == g.weight
    decreases |es|
  {
    if es == [] then g
    else
      ConsMembership(es);
      FromEdges(AddEdge(g, es[0].0, es[0].1, None), es[1..])
  }

  lemma {:induction false} FromEdgesOrder(g: Graph, es: seq<Edge>)
    ensures forall u :: Successors(FromEdges(g, es), u) == AppendNew(Successors(g, u), TargetsOf(es, u))
    decreases |es|
  {
    if es != [] {
      var g' := AddEdge(g, es[0].0, es[0].1, None);
      FromEdgesOrder(g', es[1..]);
      forall u ensures Successors(FromEdges(g, es), u) == AppendNew(Successors(g, u), TargetsOf(es, u)) {
        if es[0].0 == u {
          assert TargetsOf(es, u) == [es[0].1] + TargetsOf(es[1..], u);
        } else {
          assert TargetsOf(es, u) == TargetsOf(es[1..], u);
        }
      }
    }
  }

  lemma ConsMembership<T>(s: seq<T>)
    requires s != []
    ensures forall x :: x in s <==> x == s[0] || x in s[1..]
  {
    assert s == [s[0]] + s[1..];
  }

  lemma EndsCons(es: seq<Edge>)
    requires es != []
    ensures forall x :: x in Sources(es) <==> x == es[0].0 || x in Sources(es[1..])
    ensures forall x :: x in Targets(es) <==> x == es[0].1 || x in Targets(es[1..])
  {
    assert Sources(es)[1..] == Sources(es[1..]);
    assert Targets(es)[1..] == Targets(es[1..]);
    ConsMembership(Sources(es));
    ConsMembership(Targets(es));
  }

  lemma {:induction false} FromEdgesNodes(g: Graph, es: seq<Edge>)
    ensures forall x :: x in FromEdges(g, es).succ <==> x in g.succ || x in Sources(es) || x in Targets(es)
    decreases |es|
  {
    if es != [] {
      var g' := AddEdge(g, es[0].0, es[0].1, None);
      FromEdgesNodes(g', es[1..]);
      EndsCons(es);
    }
  }

  lemma {:induction false} FromEdgesValid(g: Graph, es: seq<Edge>)
    requires Valid(g)
    ensures Valid(FromEdges(g, es))
    decreases |es|
  {
    if es != [] {
      AddEdgeValid(g, es[0].0, es[0].1, None);
      FromEdgesValid(AddEdge(g, es[0].0, es[0].1, None), es[1..]);
    }
  }
}
