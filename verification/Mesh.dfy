/**
  The mesh the graph algorithms of core/tincd/src/graph.c run on: nodes, directed edges,
  the `reverse` link of an edge, and routes.
  */
module Mesh {

  /** A node, identified by its name; the order of the numbers is the order of the names. */
  type Node = nat

  /** A directed edge.  `indirect` and `declaredIndirect` are the option bits the search reads. */
  datatype Edge = Edge(from: Node, to: Node, weight: int, indirect: bool, declaredIndirect: bool)

  /**
    `nodes` is node_tree in order, `out[n]` the edge_tree of n (one edge per destination), `me` is
    `myself`, and the two sets hold the nodes whose no_direct and remote_no_direct flags are set.
    */
  datatype Network = Network(
    nodes: seq<Node>,
    out: map<Node, seq<Edge>>,
    me: Node,
    noDirect: set<Node>,
    remoteNoDirect: set<Node>)
  {
    ghost predicate WellFormed() {
      && me in nodes
      && (forall i, j :: 0 <= i < j < |nodes| ==> nodes[i] != nodes[j])
      && (forall n :: n in nodes <==> n in out)
      && (forall n, i :: n in out && 0 <= i < |out[n]| ==> out[n][i].from == n && out[n][i].to in nodes)
      && (forall n, i, j :: n in out && 0 <= i < j < |out[n]| ==> out[n][i].to != out[n][j].to)
    }

    ghost predicate HasEdge(e: Edge) {
      e.from in out && e in out[e.from]
    }

    /** `e->reverse` is set exactly when the opposite edge exists (edge_add in edge.c). */
    predicate HasReverse(e: Edge) {
      e.to in out && exists r :: r in out[e.to] && r.to == e.from
    }

    /** An edge the search may walk: it has a reverse, and is not our own edge to a no_direct node. */
    ghost predicate Allowed(e: Edge) {
      HasEdge(e) && HasReverse(e) && !(e.from == me && e.to in noDirect)
    }

    /** `p` walks from `me` to `v` over allowed edges. */
    ghost predicate Route(p: seq<Edge>, v: Node) {
      if p == [] then v == me
      else
        var e := p[|p| - 1];
        Allowed(e) && e.to == v && Route(p[..|p| - 1], e.from)
    }

    /** Some route of `hops` edges and total weight `w` leads to `v` and leaves through `first`. */
    ghost predicate HasRoute(v: Node, hops: int, w: int, first: Node) {
      exists p: seq<Edge> ::
        && Route(p, v) && |p| == hops && Weight(p) == w
        && first == (if p == [] then me else p[0].to)
    }
  }

  ghost function Weight(p: seq<Edge>): int {
    if p == [] then 0 else Weight(p[..|p| - 1]) + p[|p| - 1].weight
  }

  /** Extending a route by one allowed edge. */
  lemma ExtendRoute(net: Network, v: Node, hops: int, w: int, first: Node, e: Edge)
    requires net.HasRoute(v, hops, w, first)
    requires net.Allowed(e) && e.from == v
    ensures net.HasRoute(e.to, hops + 1, w + e.weight, if hops == 0 then e.to else first)
  {
    var p: seq<Edge> :| net.Route(p, v) && |p| == hops && Weight(p) == w
        && first == (if p == [] then net.me else p[0].to);
    var q := p + [e];
    assert q[..|q| - 1] == p;
    assert net.Route(q, e.to) && |q| == hops + 1 && Weight(q) == w + e.weight;
  }

  /** The first hop of a route is an allowed edge out of `me`. */
  lemma {:induction false} RouteStartsAtMe(net: Network, p: seq<Edge>, v: Node)
    requires net.Route(p, v) && p != []
    ensures net.Allowed(p[0]) && p[0].from == net.me
  {
    if |p| > 1 {
      RouteStartsAtMe(net, p[..|p| - 1], p[|p| - 1].from);
    }
  }

  ghost predicate WeightsBounded(net: Network, bound: nat) {
    forall e :: net.HasEdge(e) ==> 0 <= e.weight + bound
  }

  lemma {:induction false} RouteWeightBound(net: Network, p: seq<Edge>, v: Node, bound: nat)
    requires net.Route(p, v) && WeightsBounded(net, bound)
    ensures Weight(p) + |p| * bound >= 0
  {
    if p != [] {
      RouteWeightBound(net, p[..|p| - 1], p[|p| - 1].from, bound);
      assert |p| * bound == (|p| - 1) * bound + bound;
    }
  }

  ghost predicate WeightsWithin(net: Network, bound: nat) {
    forall e :: net.HasEdge(e) ==> 0 <= e.weight + bound && e.weight <= bound
  }

  lemma {:induction false} RouteWeightWithin(net: Network, p: seq<Edge>, v: Node, bound: nat)
    requires net.Route(p, v) && WeightsWithin(net, bound)
    ensures 0 <= Weight(p) + |p| * bound && Weight(p) <= |p| * bound
  {
    if p != [] {
      RouteWeightWithin(net, p[..|p| - 1], p[|p| - 1].from, bound);
      assert |p| * bound == (|p| - 1) * bound + bound;
    }
  }

  /** A finite network has a bound on how negative its weights are. */
  lemma WeightBoundExists(net: Network) returns (bound: nat)
    requires net.WellFormed()
    ensures WeightsBounded(net, bound)
  {
    bound := 0;
    for k := 0 to |net.nodes|
      invariant forall i, j :: 0 <= i < k && 0 <= j < |net.out[net.nodes[i]]| ==>
                  0 <= net.out[net.nodes[i]][j].weight + bound
    {
      var es := net.out[net.nodes[k]];
      for j := 0 to |es|
        invariant forall i, j :: 0 <= i < k && 0 <= j < |net.out[net.nodes[i]]| ==>
                    0 <= net.out[net.nodes[i]][j].weight + bound
        invariant forall i :: 0 <= i < j ==> 0 <= es[i].weight + bound
      {
        if es[j].weight + bound < 0 {
          bound := -es[j].weight;
        }
      }
    }
    forall e | net.HasEdge(e) ensures 0 <= e.weight + bound {
      assert e.from in net.nodes;
      var i :| 0 <= i < |net.nodes| && net.nodes[i] == e.from;
      var j :| 0 <= j < |net.out[e.from]| && net.out[e.from][j] == e;
      assert 0 <= net.out[net.nodes[i]][j].weight + bound;
    }
  }

  lemma {:induction false} SubsetSize<T>(a: set<T>, b: set<T>)
    requires a <= b
    ensures |a| <= |b|
  {
    if a != {} {
      var x :| x in a;
      SubsetSize(a - {x}, b - {x});
    }
  }
}
