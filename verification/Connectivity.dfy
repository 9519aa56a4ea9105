/**
  Undirected connectivity over a set of edges, and how many components it has.  Edges are used in
  either direction.
  */
module Connectivity {
  import opened Mesh

  ghost predicate Linked(es: set<Edge>, a: Node, b: Node) {
    exists e :: e in es && ((e.from == a && e.to == b) || (e.from == b && e.to == a))
  }

  /** `walk` leads from `a` to `b`, one linked node after the other. */
  ghost predicate Walk(es: set<Edge>, a: Node, b: Node, walk: seq<Node>)
    decreases |walk|
  {
    if walk == [] then a == b else Linked(es, a, walk[0]) && Walk(es, walk[0], b, walk[1..])
  }

  ghost predicate Connected(es: set<Edge>, a: Node, b: Node) {
    exists walk :: Walk(es, a, b, walk)
  }

  lemma Reflexive(es: set<Edge>, a: Node)
    ensures Connected(es, a, a)
  {
    assert Walk(es, a, a, []);
  }

  lemma {:induction false} WalkJoin(es: set<Edge>, a: Node, b: Node, c: Node, v: seq<Node>, w: seq<Node>)
    requires Walk(es, a, b, v) && Walk(es, b, c, w)
    ensures Walk(es, a, c, v + w)
    decreases |v|
  {
    if v == [] {
      assert v + w == w;
    } else {
      WalkJoin(es, v[0], b, c, v[1..], w);
      assert (v + w)[1..] == v[1..] + w;
    }
  }

  lemma Transitive(es: set<Edge>, a: Node, b: Node, c: Node)
    requires Connected(es, a, b) && Connected(es, b, c)
    ensures Connected(es, a, c)
  {
    var v :| Walk(es, a, b, v);
    var w :| Walk(es, b, c, w);
    WalkJoin(es, a, b, c, v, w);
  }

  lemma Step(es: set<Edge>, e: Edge)
    requires e in es
    ensures Connected(es, e.from, e.to) && Connected(es, e.to, e.from)
  {
    assert Linked(es, e.from, e.to) && Linked(es, e.to, e.from);
    assert Walk(es, e.to, e.to, []) && Walk(es, e.from, e.from, []);
    assert Walk(es, e.from, e.to, [e.to]) && Walk(es, e.to, e.from, [e.from]);
  }

  lemma {:induction false} WalkBack(es: set<Edge>, a: Node, b: Node, walk: seq<Node>)
    requires Walk(es, a, b, walk)
    ensures Connected(es, b, a)
    decreases |walk|
  {
    if walk == [] {
      Reflexive(es, a);
    } else {
      WalkBack(es, walk[0], b, walk[1..]);
      var e :| e in es && ((e.from == a && e.to == walk[0]) || (e.from == walk[0] && e.to == a));
      Step(es, e);
      Transitive(es, b, walk[0], a);
    }
  }

  lemma Symmetric(es: set<Edge>, a: Node, b: Node)
    requires Connected(es, a, b)
    ensures Connected(es, b, a)
  {
    var walk :| Walk(es, a, b, walk);
    WalkBack(es, a, b, walk);
  }

  lemma {:induction false} WalkMore(es: set<Edge>, fs: set<Edge>, a: Node, b: Node, walk: seq<Node>)
    requires es <= fs && Walk(es, a, b, walk)
    ensures Walk(fs, a, b, walk)
    decreases |walk|
  {
    if walk != [] {
      WalkMore(es, fs, walk[0], b, walk[1..]);
    }
  }

  lemma Monotone(es: set<Edge>, fs: set<Edge>, a: Node, b: Node)
    requires es <= fs && Connected(es, a, b)
    ensures Connected(fs, a, b)
  {
    var walk :| Walk(es, a, b, walk);
    WalkMore(es, fs, a, b, walk);
  }

  /** A walk that leaves a set of nodes uses an edge with one end in it. */
  lemma {:induction false} WalkCrosses(es: set<Edge>, a: Node, b: Node, walk: seq<Node>, inside: set<Node>)
    returns (e: Edge)
    requires Walk(es, a, b, walk) && a in inside && b !in inside
    ensures e in es && (e.from in inside <==> e.to !in inside)
    decreases |walk|
  {
    if walk[0] in inside {
      e := WalkCrosses(es, walk[0], b, walk[1..], inside);
    } else {
      e :| e in es && ((e.from == a && e.to == walk[0]) || (e.from == walk[0] && e.to == a));
    }
  }

  ghost predicate ThroughEdge(es: set<Edge>, e: Edge, a: Node, b: Node) {
    (Connected(es, a, e.from) && Connected(es, e.to, b)) || (Connected(es, a, e.to) && Connected(es, e.from, b))
  }

  lemma {:induction false} WalkThroughEdge(es: set<Edge>, e: Edge, a: Node, b: Node, walk: seq<Node>)
    requires Walk(es + {e}, a, b, walk)
    ensures Connected(es, a, b) || ThroughEdge(es, e, a, b)
    decreases |walk|
  {
    if walk == [] {
      Reflexive(es, a);
    } else {
      var c := walk[0];
      WalkThroughEdge(es, e, c, b, walk[1..]);
      var f :| f in es + {e} && ((f.from == a && f.to == c) || (f.from == c && f.to == a));
      Reflexive(es, a);
      Reflexive(es, c);
      if f in es {
        Step(es, f);
        assert Connected(es, a, c);
        if Connected(es, c, b) { Transitive(es, a, c, b); }
        if Connected(es, c, e.from) { Transitive(es, a, c, e.from); }
        if Connected(es, c, e.to) { Transitive(es, a, c, e.to); }
      }
    }
  }

  /** What adding one edge does to connectivity. */
  lemma AddEdge(es: set<Edge>, e: Edge, a: Node, b: Node)
    ensures Connected(es + {e}, a, b) <==> Connected(es, a, b) || ThroughEdge(es, e, a, b)
  {
    var fs := es + {e};
    if Connected(fs, a, b) {
      var walk :| Walk(fs, a, b, walk);
      WalkThroughEdge(es, e, a, b, walk);
    }
    if Connected(es, a, b) {
      Monotone(es, fs, a, b);
    }
    Step(fs, e);
    if Connected(es, a, e.from) && Connected(es, e.to, b) {
      Monotone(es, fs, a, e.from);
      Monotone(es, fs, e.to, b);
      Transitive(fs, a, e.from, e.to);
      Transitive(fs, a, e.to, b);
    }
    if Connected(es, a, e.to) && Connected(es, e.from, b) {
      Monotone(es, fs, a, e.to);
      Monotone(es, fs, e.from, b);
      Transitive(fs, a, e.to, e.from);
      Transitive(fs, a, e.from, b);
    }
  }

  // ---------- Components ----------

  /** One node for each component: its least. */
  ghost function Least(es: set<Edge>, nodes: set<Node>): set<Node> {
    set v | v in nodes && IsLeast(es, nodes, v)
  }

  ghost predicate IsLeast(es: set<Edge>, nodes: set<Node>, v: Node) {
    forall u :: u in nodes && Connected(es, v, u) ==> v <= u
  }

  lemma {:induction false} LeastOf(es: set<Edge>, nodes: set<Node>, v: Node) returns (r: Node)
    requires v in nodes
    ensures r in Least(es, nodes) && Connected(es, v, r)
    decreases v
  {
    if IsLeast(es, nodes, v) {
      r := v;
      Reflexive(es, v);
    } else {
      var u :| u in nodes && Connected(es, v, u) && u < v;
      r := LeastOf(es, nodes, u);
      Transitive(es, v, u, r);
    }
  }

  /** An edge inside a component changes nothing. */
  lemma AddInside(es: set<Edge>, e: Edge, a: Node, b: Node)
    requires Connected(es, e.from, e.to)
    ensures Connected(es + {e}, a, b) <==> Connected(es, a, b)
  {
    AddEdge(es, e, a, b);
    Symmetric(es, e.from, e.to);
    if Connected(es, a, e.from) && Connected(es, e.to, b) {
      Transitive(es, a, e.from, e.to);
      Transitive(es, a, e.to, b);
    }
    if Connected(es, a, e.to) && Connected(es, e.from, b) {
      Transitive(es, a, e.to, e.from);
      Transitive(es, a, e.from, b);
    }
  }

  lemma InsideLeast(es: set<Edge>, e: Edge, nodes: set<Node>)
    requires Connected(es, e.from, e.to)
    ensures Least(es + {e}, nodes) == Least(es, nodes)
  {
    forall a, b ensures Connected(es + {e}, a, b) <==> Connected(es, a, b) {
      AddInside(es, e, a, b);
    }
  }

  /** After a join, a component keeps its least node unless that is the larger of the two joined. */
  lemma JoinLeastAt(es: set<Edge>, e: Edge, nodes: set<Node>, keep: Node, drop: Node, v: Node)
    requires keep in Least(es, nodes) && drop in Least(es, nodes) && keep < drop && v in nodes
    requires (Connected(es, e.from, keep) && Connected(es, e.to, drop))
             || (Connected(es, e.from, drop) && Connected(es, e.to, keep))
    ensures v in Least(es + {e}, nodes) <==> v in Least(es, nodes) && v != drop
  {
    if v in Least(es + {e}, nodes) {
      forall u | u in nodes && Connected(es, v, u) ensures v <= u {
        Monotone(es, es + {e}, v, u);
      }
      if v == drop {
        Reachable(es, e, keep, drop);
        assert false;
      }
    } else if v in Least(es, nodes) && v != drop {
      var u :| u in nodes && Connected(es + {e}, v, u) && u < v;
      AddEdge(es, e, v, u);
      assert ThroughEdge(es, e, v, u);
      JoinEnds(es, e, nodes, keep, drop, v, u);
      assert false;
    }
  }

  lemma Reachable(es: set<Edge>, e: Edge, keep: Node, drop: Node)
    requires (Connected(es, e.from, keep) && Connected(es, e.to, drop))
             || (Connected(es, e.from, drop) && Connected(es, e.to, keep))
    ensures Connected(es + {e}, drop, keep)
  {
    AddEdge(es, e, drop, keep);
    if Connected(es, e.from, keep) && Connected(es, e.to, drop) {
      Symmetric(es, e.to, drop);
    } else {
      Symmetric(es, e.from, drop);
    }
  }

  /**
    A least node that reaches one end is the least node there; beyond the other end nothing is below its
    least node.
    */
  lemma JoinEnd(es: set<Edge>, nodes: set<Node>, x: Node, y: Node, rx: Node, ry: Node, v: Node, u: Node)
    requires v in Least(es, nodes) && rx in Least(es, nodes) && ry in Least(es, nodes) && u in nodes
    requires Connected(es, x, rx) && Connected(es, y, ry) && Connected(es, v, x) && Connected(es, y, u)
    ensures v == rx && ry <= u
  {
    Transitive(es, v, x, rx);
    Symmetric(es, v, rx);
    Symmetric(es, y, ry);
    Transitive(es, ry, y, u);
  }

  lemma JoinEnds(es: set<Edge>, e: Edge, nodes: set<Node>, keep: Node, drop: Node, v: Node, u: Node)
    requires keep in Least(es, nodes) && drop in Least(es, nodes) && keep < drop && v in Least(es, nodes) && u in nodes
    requires (Connected(es, e.from, keep) && Connected(es, e.to, drop))
             || (Connected(es, e.from, drop) && Connected(es, e.to, keep))
    requires ThroughEdge(es, e, v, u)
    ensures v == drop || v <= u
  {
    var rf := if Connected(es, e.from, keep) && Connected(es, e.to, drop) then keep else drop;
    var rt := if rf == keep then drop else keep;
    if Connected(es, v, e.from) && Connected(es, e.to, u) {
      JoinEnd(es, nodes, e.from, e.to, rf, rt, v, u);
    } else {
      JoinEnd(es, nodes, e.to, e.from, rt, rf, v, u);
    }
  }

  /** Joining two components leaves one fewer. */
  lemma JoinCount(es: set<Edge>, e: Edge, nodes: set<Node>)
    requires e.from in nodes && e.to in nodes && !Connected(es, e.from, e.to)
    ensures |Least(es + {e}, nodes)| == |Least(es, nodes)| - 1
  {
    var rf := LeastOf(es, nodes, e.from);
    var rt := LeastOf(es, nodes, e.to);
    if rf == rt {
      Symmetric(es, e.to, rt);
      Transitive(es, e.from, rf, e.to);
    }
    var keep, drop := if rf < rt then rf else rt, if rf < rt then rt else rf;
    forall v | v in nodes ensures v in Least(es + {e}, nodes) <==> v in Least(es, nodes) && v != drop {
      JoinLeastAt(es, e, nodes, keep, drop, v);
    }
    assert Least(es + {e}, nodes) == Least(es, nodes) - {drop};
  }

  lemma LeastEmpty(nodes: set<Node>)
    ensures Least({}, nodes) == nodes
  {
    forall v, u | Connected({}, v, u) ensures v == u {
      var walk :| Walk({}, v, u, walk);
      assert walk == [] || Linked({}, v, walk[0]);
    }
  }

  /** More edges, no more components. */
  lemma LeastShrinks(es: set<Edge>, fs: set<Edge>, nodes: set<Node>)
    requires forall a, b :: Connected(es, a, b) ==> Connected(fs, a, b)
    ensures |Least(fs, nodes)| <= |Least(es, nodes)|
  {
    assert Least(fs, nodes) <= Least(es, nodes);
    SubsetSize(Least(fs, nodes), Least(es, nodes));
  }

  /** A set of nodes all connected to one of them has one component. */
  lemma LeastOne(es: set<Edge>, nodes: set<Node>, start: Node)
    requires start in nodes && forall v :: v in nodes ==> Connected(es, start, v)
    ensures |Least(es, nodes)| == 1
  {
    var r := LeastOf(es, nodes, start);
    forall v | v in Least(es, nodes) ensures v == r {
      Symmetric(es, start, v);
      Transitive(es, v, start, r);
      Symmetric(es, v, r);
    }
    assert Least(es, nodes) == {r};
  }

  lemma LeastSome(es: set<Edge>, nodes: set<Node>)
    requires nodes != {}
    ensures |Least(es, nodes)| >= 1
  {
    var v :| v in nodes;
    var r := LeastOf(es, nodes, v);
    assert r in Least(es, nodes);
  }
}
