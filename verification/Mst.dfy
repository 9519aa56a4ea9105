/**
  mst_kruskal of core/tincd/src/graph.c: a scan of the weight-ordered edges that grows one tree from
  a starting node and goes back to the head of the list after every addition that followed a skip.
  */
module Mst {
  import opened Wrappers
  import opened Mesh
  import opened Connectivity

  /** The strict order of edge_weight_tree: weight, then the names of the two ends. */
  predicate Before(a: Edge, b: Edge) {
    a.weight < b.weight || (a.weight == b.weight && (a.from < b.from || (a.from == b.from && a.to < b.to)))
  }

  /** Subtraction of two ints, wrapping at 32 bits. */
  function Minus32(a: int, b: int): (d: int)
    ensures -0x8000_0000 <= d < 0x8000_0000
  {
    (a - b + 0x8000_0000) % 0x1_0000_0000 - 0x8000_0000
  }

  /** edge_weight_compare; the names compare as the numbers that stand for them. */
  function EdgeCompare(a: Edge, b: Edge): int {
    var result := Minus32(a.weight, b.weight);
    if result != 0 then result
    else if a.from != b.from then a.from - b.from
    else a.to - b.to
  }

  predicate IsInt(w: int) {
    -0x8000_0000 <= w < 0x8000_0000
  }

  /** The comparison is the order if and only if the difference of the weights is an int again. */
  lemma CompareExactly(a: Edge, b: Edge)
    requires IsInt(a.weight) && IsInt(b.weight)
    ensures (EdgeCompare(a, b) < 0 <==> Before(a, b)) <==> IsInt(a.weight - b.weight)
    ensures a.weight >= 0 && b.weight >= 0 ==> (EdgeCompare(a, b) < 0 <==> Before(a, b))
  {
    var d := a.weight - b.weight;
    if IsInt(d) {
      assert (d + 0x8000_0000) % 0x1_0000_0000 == d + 0x8000_0000;
    } else if d > 0 {
      assert (d + 0x8000_0000) % 0x1_0000_0000 == d - 0x8000_0000;
    } else {
      assert (d + 0x8000_0000) % 0x1_0000_0000 == d + 0x1_8000_0000;
    }
  }

  /** `list` is edge_weight_tree in order. */
  ghost predicate WeightOrdered(net: Network, list: seq<Edge>) {
    && (forall e :: e in list <==> net.HasEdge(e))
    && (forall i, j :: 0 <= i < j < |list| ==> Before(list[i], list[j]))
  }

  ghost function Usable(net: Network, list: seq<Edge>): set<Edge> {
    set e | e in list && net.HasReverse(e)
  }

  ghost function Component(net: Network, list: seq<Edge>, start: Node): set<Node> {
    set v | v in net.nodes && Connected(Usable(net, list), start, v)
  }

  /** The edges of `es` among the first `k` of the list. */
  ghost function Upto(es: set<Edge>, list: seq<Edge>, k: nat): set<Edge>
    requires k <= |list|
  {
    set j | 0 <= j < k && list[j] in es :: list[j]
  }

  /** The edges before `e` in the strict order. */
  ghost function Lighter(es: set<Edge>, e: Edge): set<Edge> {
    set f | f in es && Before(f, e)
  }

  /**
    What Kruskal's algorithm would pick in the component of `start`: the edges whose ends are not
    already connected by earlier ones.  Nothing in it depends on the order of a scan.
    */
  ghost function KruskalTree(net: Network, list: seq<Edge>, start: Node): set<Edge> {
    var us := Usable(net, list);
    set e | e in us && Connected(us, start, e.from) && !Connected(Lighter(us, e), e.from, e.to)
  }

  /** `es` connects every node of `nodes` to `start`, and no edge of it can be spared. */
  ghost predicate SpanningTree(es: set<Edge>, nodes: set<Node>, start: Node) {
    && (forall e :: e in es ==> e.from in nodes && e.to in nodes)
    && (forall v :: v in nodes ==> Connected(es, start, v))
    && (forall e :: e in es ==> !Connected(es - {e}, e.from, e.to))
  }

  ghost function TotalWeight(es: set<Edge>, list: seq<Edge>, k: nat): int
    requires k <= |list|
  {
    if k == 0 then 0 else TotalWeight(es, list, k - 1) + if list[k - 1] in es then list[k - 1].weight else 0
  }

  // ---------- Counting edges against components ----------

  lemma UptoStep(es: set<Edge>, list: seq<Edge>, k: nat)
    requires k < |list| && forall i, j :: 0 <= i < j < |list| ==> Before(list[i], list[j])
    ensures list[k] !in Upto(es, list, k)
    ensures Upto(es, list, k + 1) == if list[k] in es then Upto(es, list, k) + {list[k]} else Upto(es, list, k)
  {
  }

  lemma UptoAll(es: set<Edge>, list: seq<Edge>)
    requires forall e :: e in es ==> e in list
    ensures Upto(es, list, |list|) == es
  {
  }

  lemma UptoLighter(es: set<Edge>, list: seq<Edge>, k: nat)
    requires k < |list| && forall i, j :: 0 <= i < j < |list| ==> Before(list[i], list[j])
    requires forall e :: e in es ==> e in list
    ensures Upto(es, list, k) == Lighter(es, list[k])
  {
    forall f | f in Lighter(es, list[k]) ensures f in Upto(es, list, k) {
      var j :| 0 <= j < |list| && list[j] == f;
      assert j < k;
    }
  }

  ghost predicate Within(es: set<Edge>, nodes: set<Node>) {
    forall e :: e in es ==> e.from in nodes && e.to in nodes
  }

  /** Each edge of `es`, when the list reaches it, joins two components of the earlier ones. */
  ghost predicate Joining(es: set<Edge>, list: seq<Edge>) {
    forall k :: 0 <= k < |list| && list[k] in es ==> !Connected(Upto(es, list, k), list[k].from, list[k].to)
  }

  /** Edges plus components never fall below nodes, and equal them for a joining set. */
  lemma {:induction false} EdgesAndComponents(es: set<Edge>, list: seq<Edge>, k: nat, nodes: set<Node>)
    requires k <= |list| && Within(es, nodes)
    requires forall i, j :: 0 <= i < j < |list| ==> Before(list[i], list[j])
    ensures |Upto(es, list, k)| + |Least(Upto(es, list, k), nodes)| >= |nodes|
    ensures Joining(es, list) ==> |Upto(es, list, k)| + |Least(Upto(es, list, k), nodes)| == |nodes|
  {
    hide Connected, Least, Upto, Before;
    if k == 0 {
      UptoNone(es, list);
      LeastEmpty(nodes);
    } else {
      var part, e := Upto(es, list, k - 1), list[k - 1];
      EdgesAndComponents(es, list, k - 1, nodes);
      UptoStep(es, list, k - 1);
      if e in es {
        if Connected(part, e.from, e.to) {
          InsideLeast(part, e, nodes);
        } else {
          JoinCount(part, e, nodes);
        }
      }
    }
  }

  lemma TreeIsJoining(es: set<Edge>, list: seq<Edge>, nodes: set<Node>, start: Node)
    requires SpanningTree(es, nodes, start)
    requires forall i, j :: 0 <= i < j < |list| ==> Before(list[i], list[j])
    ensures Joining(es, list)
  {
    forall k | 0 <= k < |list| && list[k] in es ensures !Connected(Upto(es, list, k), list[k].from, list[k].to) {
      UptoStep(es, list, k);
      if Connected(Upto(es, list, k), list[k].from, list[k].to) {
        Monotone(Upto(es, list, k), es - {list[k]}, list[k].from, list[k].to);
      }
    }
  }

  /** A connecting set of |nodes| - 1 edges is a spanning tree. */
  lemma FewEdgesTree(es: set<Edge>, list: seq<Edge>, nodes: set<Node>, start: Node)
    requires Within(es, nodes) && start in nodes && |es| == |nodes| - 1
    requires forall e :: e in es ==> e in list
    requires forall i, j :: 0 <= i < j < |list| ==> Before(list[i], list[j])
    requires forall v :: v in nodes ==> Connected(es, start, v)
    ensures SpanningTree(es, nodes, start)
  {
    forall e | e in es ensures !Connected(es - {e}, e.from, e.to) {
      if Connected(es - {e}, e.from, e.to) {
        var less := es - {e};
        InsideLeast(less, e, nodes);
        assert less + {e} == es;
        LeastOne(es, nodes, start);
        EdgesAndComponents(less, list, |list|, nodes);
        UptoAll(less, list);
      }
    }
  }

  // ---------- The tree the scan builds ----------

  ghost predicate Grown(net: Network, list: seq<Edge>, start: Node, visited: set<Node>, tree: set<Edge>) {
    && start in visited
    && (forall v :: v in visited ==> v in net.nodes && Connected(tree, start, v))
    && Within(tree, visited)
    && |tree| == |visited| - 1
    && tree <= KruskalTree(net, list, start)
  }

  /** `e` is an edge the scan may take: usable, with one end visited. */
  ghost predicate Crosses(net: Network, visited: set<Node>, e: Edge) {
    net.HasReverse(e) && (e.from in visited) != (e.to in visited)
  }

  /** The edge found is the least of all that cross the cut, so its ends are not connected by lighter ones. */
  lemma LeastCrossing(net: Network, list: seq<Edge>, visited: set<Node>, k: nat)
    requires WeightOrdered(net, list) && k < |list| && Crosses(net, visited, list[k])
    requires forall j :: 0 <= j < k ==> !Crosses(net, visited, list[j])
    ensures forall f :: f in Usable(net, list) && Crosses(net, visited, f) && f != list[k] ==> Before(list[k], f)
    ensures !Connected(Lighter(Usable(net, list), list[k]), list[k].from, list[k].to)
  {
    var us, e := Usable(net, list), list[k];
    forall f | f in us && Crosses(net, visited, f) && f != e ensures Before(e, f) {
      var j :| 0 <= j < |list| && list[j] == f;
      assert j > k;
    }
    var es := Lighter(us, e);
    if Connected(es, e.from, e.to) {
      Symmetric(es, e.from, e.to);
      var a, b := if e.from in visited then e.from else e.to, if e.from in visited then e.to else e.from;
      var walk :| Walk(es, a, b, walk);
      var f := WalkCrosses(es, a, b, walk, visited);
      assert Crosses(net, visited, f);
    }
  }

  lemma GrowByOne(net: Network, list: seq<Edge>, start: Node, visited: set<Node>, tree: set<Edge>, k: nat)
    requires net.WellFormed() && WeightOrdered(net, list) && Grown(net, list, start, visited, tree)
    requires k < |list| && Crosses(net, visited, list[k])
    requires forall j :: 0 <= j < k ==> !Crosses(net, visited, list[j])
    ensures Grown(net, list, start, visited + {list[k].from, list[k].to}, tree + {list[k]})
  {
    hide Connected, Network.WellFormed, Lighter, Usable, Before;
    var e := list[k];
    EdgeEnds(net, e);
    GrowInside(net, list, start, visited, tree, k);
    var far := if e.from in visited then e.to else e.from;
    assert visited + {e.from, e.to} == visited + {far};
    forall v | v in visited + {far} ensures v in net.nodes && Connected(tree + {e}, start, v) {
      var near := if e.from in visited then e.from else e.to;
      GrowReaches(tree, e, start, near, if v == far then near else v);
    }
    assert e !in tree;
  }

  /** The edge belongs to Kruskal's tree. */
  lemma GrowInside(net: Network, list: seq<Edge>, start: Node, visited: set<Node>, tree: set<Edge>, k: nat)
    requires net.WellFormed() && WeightOrdered(net, list) && Grown(net, list, start, visited, tree)
    requires k < |list| && Crosses(net, visited, list[k])
    requires forall j :: 0 <= j < k ==> !Crosses(net, visited, list[j])
    ensures list[k] in KruskalTree(net, list, start)
  {
    hide Connected, Network.WellFormed, Lighter, Before;
    var e := list[k];
    LeastCrossing(net, list, visited, k);
    var near := if e.from in visited then e.from else e.to;
    GrowReaches(tree, e, start, near, near);
    assert tree + {e} <= Usable(net, list);
    Monotone(tree + {e}, Usable(net, list), start, e.from);
  }

  lemma GrowReaches(tree: set<Edge>, e: Edge, start: Node, near: Node, v: Node)
    requires near == e.from || near == e.to
    requires Connected(tree, start, near) && Connected(tree, start, v)
    ensures Connected(tree + {e}, start, v) && Connected(tree + {e}, start, if near == e.from then e.to else e.from)
  {
    Monotone(tree, tree + {e}, start, v);
    Monotone(tree, tree + {e}, start, near);
    Step(tree + {e}, e);
    Transitive(tree + {e}, start, near, if near == e.from then e.to else e.from);
  }

  lemma EdgeEnds(net: Network, e: Edge)
    requires net.WellFormed() && net.HasEdge(e)
    ensures e.from in net.nodes && e.to in net.nodes
  {
    var i :| 0 <= i < |net.out[e.from]| && net.out[e.from][i] == e;
    assert net.out[e.from][i].to in net.nodes;
  }

  /** When nothing crosses any more, the visited nodes are the component and the tree is Kruskal's. */
  lemma ScanComplete(net: Network, list: seq<Edge>, start: Node, visited: set<Node>, tree: set<Edge>)
    requires net.WellFormed() && WeightOrdered(net, list) && Grown(net, list, start, visited, tree)
    requires forall j :: 0 <= j < |list| ==> !Crosses(net, visited, list[j])
    ensures visited == Component(net, list, start)
    ensures tree == KruskalTree(net, list, start)
    ensures SpanningTree(tree, visited, start)
  {
    var us := Usable(net, list);
    forall v | v in visited ensures v in Component(net, list, start) {
      Monotone(tree, us, start, v);
    }
    forall v | v in Component(net, list, start) ensures v in visited {
      if v !in visited {
        var walk :| Walk(us, start, v, walk);
        var f := WalkCrosses(us, start, v, walk, visited);
        assert Crosses(net, visited, f);
      }
    }
    KruskalWithin(net, list, start);
    KruskalJoins(net, list, start);
    var kt := KruskalTree(net, list, start);
    EdgesAndComponents(kt, list, |list|, visited);
    UptoAll(kt, list);
    LeastSome(kt, visited);
    SameSize(tree, kt);
    FewEdgesTree(tree, list, visited, start);
  }

  lemma SameSize(a: set<Edge>, b: set<Edge>)
    requires a <= b && |b| <= |a|
    ensures a == b
  {
    SubsetSize(b - a, b);
    assert b == a + (b - a);
  }

  lemma KruskalWithin(net: Network, list: seq<Edge>, start: Node)
    requires net.WellFormed() && WeightOrdered(net, list)
    ensures Within(KruskalTree(net, list, start), Component(net, list, start))
  {
    var us := Usable(net, list);
    forall e | e in KruskalTree(net, list, start)
      ensures e.from in Component(net, list, start) && e.to in Component(net, list, start)
    {
      assert net.HasEdge(e);
      EdgeEnds(net, e);
      Step(us, e);
      Transitive(us, start, e.from, e.to);
    }
  }

  lemma KruskalJoins(net: Network, list: seq<Edge>, start: Node)
    requires WeightOrdered(net, list)
    ensures Joining(KruskalTree(net, list, start), list)
  {
    var kt, us := KruskalTree(net, list, start), Usable(net, list);
    forall k | 0 <= k < |list| && list[k] in kt ensures !Connected(Upto(kt, list, k), list[k].from, list[k].to) {
      UptoLighter(kt, list, k);
      if Connected(Upto(kt, list, k), list[k].from, list[k].to) {
        Monotone(Lighter(kt, list[k]), Lighter(us, list[k]), list[k].from, list[k].to);
      }
    }
  }

  /** The node the scan starts from. */
  ghost predicate StartsAt(list: seq<Edge>, reachable: set<Node>, start: Option<Node>) {
    match start
    case None => forall e :: e in list ==> e.from !in reachable
    case Some(s) =>
      exists k :: 0 <= k < |list| && list[k].from == s && s in reachable
                  && forall j :: 0 <= j < k ==> list[j].from !in reachable
  }

  /** Connections marked for broadcasting: those of a tree edge or of its reverse. */
  ghost predicate Marked(net: Network, tree: set<Edge>, connection: map<Edge, nat>, mst: set<nat>) {
    forall c :: c in mst <==> exists e, r :: e in tree && Opposite(net, e, r) && Carries(connection, e, r, c)
  }

  ghost predicate Opposite(net: Network, e: Edge, r: Edge) {
    net.HasEdge(r) && r.from == e.to && r.to == e.from
  }

  ghost predicate Carries(connection: map<Edge, nat>, e: Edge, r: Edge, c: nat) {
    (e in connection && connection[e] == c) || (r in connection && connection[r] == c)
  }

  /** All of mst_kruskal. */
  method MstKruskal(net: Network, list: seq<Edge>, reachable: set<Node>, connection: map<Edge, nat>)
    returns (start: Option<Node>, visited: set<Node>, tree: set<Edge>, mst: set<nat>)
    requires net.WellFormed() && WeightOrdered(net, list)
    ensures StartsAt(list, reachable, start)
    ensures start == None ==> visited == {} && tree == {} && mst == {}
    ensures start.Some? ==>
              && visited == Component(net, list, start.value)
              && tree == KruskalTree(net, list, start.value)
              && SpanningTree(tree, visited, start.value)
    ensures Marked(net, tree, connection, mst)
  {
    hide Grown, Marked, KruskalTree, SpanningTree, Component, Network.WellFormed, Before, Connected, Usable;
    start, visited, tree, mst := None, {}, {}, {};
    MarkNone(net, connection);
    for i := 0 to |list|
      invariant start == None && visited == {} && tree == {} && mst == {}
      invariant forall j :: 0 <= j < i ==> list[j].from !in reachable
      invariant Marked(net, tree, connection, mst)
    {
      if list[i].from in reachable {
        visited := {list[i].from};
        start := Some(list[i].from);
        GrowFirst(net, list, list[i]);
        break;
      }
    }
    var skipped, cursor := false, 0;
    while cursor < |list|
      invariant 0 <= cursor <= |list|
      invariant start == None ==> visited == {} && tree == {} && mst == {}
      invariant start.Some? ==> Grown(net, list, start.value, visited, tree)
      invariant forall j :: 0 <= j < cursor ==> !Crosses(net, visited, list[j])
      invariant !skipped ==> forall j :: 0 <= j < cursor ==> list[j].from in visited && list[j].to in visited
      invariant Marked(net, tree, connection, mst)
      decreases (set v | v in net.nodes) - visited, |list| - cursor
    {
      var e := list[cursor];
      if !net.HasReverse(e) || (e.from in visited) == (e.to in visited) {
        skipped := true;
        cursor := cursor + 1;
        continue;
      }
      assert net.HasEdge(e);
      EdgeEnds(net, e);
      GrowByOne(net, list, start.value, visited, tree, cursor);
      visited := visited + {e.from, e.to};
      mst := Mark(net, tree, connection, mst, e);
      tree := tree + {e};
      cursor := cursor + 1;
      if skipped {
        skipped := false;
        cursor := 0;
      }
    }
    if start.Some? {
      ScanComplete(net, list, start.value, visited, tree);
    }
  }

  /** The connections of the edge and of its reverse. */
  method Mark(net: Network, ghost tree: set<Edge>, connection: map<Edge, nat>, mst: set<nat>, e: Edge)
    returns (more: set<nat>)
    requires net.WellFormed() && net.HasEdge(e) && net.HasReverse(e) && e.to in net.nodes
    requires Marked(net, tree, connection, mst)
    ensures Marked(net, tree + {e}, connection, more)
  {
    hide Marked, Network.WellFormed;
    EdgeEnds(net, e);
    var reverse :| reverse in net.out[e.to] && reverse.to == e.from;
    MarkOne(net, tree, connection, mst, e, reverse);
    more := mst;
    if e in connection {
      more := more + {connection[e]};
    }
    if reverse in connection {
      more := more + {connection[reverse]};
    }
    assert more == mst + (if e in connection then {connection[e]} else {})
                   + (if reverse in connection then {connection[reverse]} else {});
  }

  lemma MarkNone(net: Network, connection: map<Edge, nat>)
    ensures Marked(net, {}, connection, {})
  {
  }

  lemma GrowFirst(net: Network, list: seq<Edge>, e: Edge)
    requires net.WellFormed() && WeightOrdered(net, list) && e in list
    ensures Grown(net, list, e.from, {e.from}, {})
  {
    Reflexive({}, e.from);
    EdgeEnds(net, e);
  }

  lemma MarkOne(net: Network, tree: set<Edge>, connection: map<Edge, nat>, mst: set<nat>, e: Edge, r: Edge)
    requires net.WellFormed() && net.HasEdge(e) && r in net.out[e.to] && r.to == e.from && e.to in net.nodes
    requires Marked(net, tree, connection, mst)
    ensures Marked(net, tree + {e}, connection,
                   mst + (if e in connection then {connection[e]} else {})
                   + (if r in connection then {connection[r]} else {}))
  {
    var mst' := mst + (if e in connection then {connection[e]} else {})
                + (if r in connection then {connection[r]} else {});
    OneReverse(net, e, r);
    hide Network.WellFormed, Network.HasEdge;
    forall c | c in mst' ensures exists f, q :: f in tree + {e} && Opposite(net, f, q) && Carries(connection, f, q, c) {
      if c in mst {
        var f, q :| f in tree && Opposite(net, f, q) && Carries(connection, f, q, c);
        assert f in tree + {e};
      } else {
        assert e in tree + {e} && Opposite(net, e, r) && Carries(connection, e, r, c);
      }
    }
    forall c, f, q | f in tree + {e} && Opposite(net, f, q) && Carries(connection, f, q, c) ensures c in mst' {
    }
  }

  lemma OneReverse(net: Network, e: Edge, r: Edge)
    requires net.WellFormed() && net.HasEdge(e) && r in net.out[e.to] && r.to == e.from && e.to in net.nodes
    ensures Opposite(net, e, r) && forall q :: Opposite(net, e, q) ==> q == r
  {
    var i :| 0 <= i < |net.out[e.to]| && net.out[e.to][i] == r;
    forall q | Opposite(net, e, q) ensures q == r {
      var k :| 0 <= k < |net.out[e.to]| && net.out[e.to][k] == q;
    }
  }

  // ---------- What the tree is worth ----------

  /** The tree does not depend on which node of the component the scan starts from. */
  lemma StartDoesNotMatter(net: Network, list: seq<Edge>, a: Node, b: Node)
    requires Connected(Usable(net, list), a, b)
    ensures KruskalTree(net, list, a) == KruskalTree(net, list, b)
    ensures Component(net, list, a) == Component(net, list, b)
  {
    var us := Usable(net, list);
    Symmetric(us, a, b);
    forall v ensures Connected(us, a, v) <==> Connected(us, b, v) {
      if Connected(us, a, v) { Transitive(us, b, a, v); }
      if Connected(us, b, v) { Transitive(us, a, b, v); }
    }
  }

  ghost function Inside(net: Network, list: seq<Edge>, start: Node): set<Edge> {
    set e | e in Usable(net, list) && Connected(Usable(net, list), start, e.from)
  }

  ghost predicate ConnectsAll(es: set<Edge>, fs: set<Edge>) {
    forall a, b :: Connected(es, a, b) ==> Connected(fs, a, b)
  }

  lemma ConnectsAfterBoth(es: set<Edge>, fs: set<Edge>, e: Edge)
    requires ConnectsAll(es, fs)
    ensures ConnectsAll(es + {e}, fs + {e})
  {
    forall a, b | Connected(es + {e}, a, b) ensures Connected(fs + {e}, a, b) {
      AddEdge(es, e, a, b);
      AddEdge(fs, e, a, b);
    }
  }

  lemma ConnectsAfterInside(es: set<Edge>, fs: set<Edge>, e: Edge)
    requires ConnectsAll(es, fs) && Connected(es, e.from, e.to)
    ensures ConnectsAll(es + {e}, fs)
  {
    forall a, b | Connected(es + {e}, a, b) ensures Connected(fs, a, b) {
      AddInside(es, e, a, b);
    }
  }

  /** Prefix by prefix, the tree connects whatever all usable edges of the component connect. */
  lemma {:induction false} TreeConnectsAsMuch(net: Network, list: seq<Edge>, start: Node, k: nat)
    requires net.WellFormed() && WeightOrdered(net, list) && k <= |list|
    ensures ConnectsAll(Upto(Inside(net, list, start), list, k), Upto(KruskalTree(net, list, start), list, k))
  {
    hide Connected, ConnectsAll, Network.WellFormed;
    var es, kt := Inside(net, list, start), KruskalTree(net, list, start);
    assert kt <= es;
    hide KruskalTree, Inside;
    if k == 0 {
      UptoNone(es, list);
      UptoNone(kt, list);
      ConnectsSelf({});
    } else {
      var e := list[k - 1];
      TreeConnectsAsMuch(net, list, start, k - 1);
      UptoStep(es, list, k - 1);
      UptoStep(kt, list, k - 1);
      if e in kt {
        ConnectsAfterBoth(Upto(es, list, k - 1), Upto(kt, list, k - 1), e);
      } else if e in es {
        InsideSuffices(net, list, start, k - 1);
        ConnectsAfterInside(Upto(es, list, k - 1), Upto(kt, list, k - 1), e);
      }
    }
  }

  lemma ConnectsSelf(es: set<Edge>)
    ensures ConnectsAll(es, es)
  {
  }

  /** A usable edge of the component that the tree leaves out is already bridged inside the component. */
  lemma InsideSuffices(net: Network, list: seq<Edge>, start: Node, k: nat)
    requires net.WellFormed() && WeightOrdered(net, list) && k < |list|
    requires list[k] in Inside(net, list, start) && list[k] !in KruskalTree(net, list, start)
    ensures Connected(Upto(Inside(net, list, start), list, k), list[k].from, list[k].to)
  {
    var us, es, e := Usable(net, list), Inside(net, list, start), list[k];
    UptoLighter(us, list, k);
    var walk :| Walk(Upto(us, list, k), e.from, e.to, walk);
    WalkInside(net, list, start, k, e.from, e.to, walk);
  }

  lemma {:induction false} WalkInside(net: Network, list: seq<Edge>, start: Node, k: nat, a: Node, b: Node,
                                      walk: seq<Node>)
    requires k <= |list|
    requires Connected(Usable(net, list), start, a) && Walk(Upto(Usable(net, list), list, k), a, b, walk)
    ensures Connected(Upto(Inside(net, list, start), list, k), a, b)
    decreases |walk|
  {
    var us, es := Usable(net, list), Inside(net, list, start);
    if walk == [] {
      Reflexive(Upto(es, list, k), a);
    } else {
      var c := walk[0];
      var f :| f in Upto(us, list, k) && ((f.from == a && f.to == c) || (f.from == c && f.to == a));
      Step(us, f);
      Transitive(us, start, a, c);
      WalkInside(net, list, start, k, c, b, walk[1..]);
      Step(Upto(es, list, k), f);
      Transitive(Upto(es, list, k), a, c, b);
    }
  }

  /** Prefix by prefix, the tree has at least as many edges as any rival. */
  lemma RivalHasNoMore(net: Network, list: seq<Edge>, start: Node, rival: set<Edge>, k: nat)
    requires net.WellFormed() && WeightOrdered(net, list) && k <= |list|
    requires rival <= Usable(net, list) && SpanningTree(rival, Component(net, list, start), start)
    ensures |Upto(rival, list, k)| <= |Upto(KruskalTree(net, list, start), list, k)|
  {
    var kt, nodes := KruskalTree(net, list, start), Component(net, list, start);
    KruskalWithin(net, list, start);
    KruskalJoins(net, list, start);
    TreeIsJoining(rival, list, nodes, start);
    EdgesAndComponents(kt, list, k, nodes);
    EdgesAndComponents(rival, list, k, nodes);
    forall a, b | Connected(Upto(rival, list, k), a, b) ensures Connected(Upto(kt, list, k), a, b) {
      Monotone(Upto(rival, list, k), Upto(Inside(net, list, start), list, k), a, b);
      TreeConnectsAsMuch(net, list, start, k);
      assert ConnectsAll(Upto(Inside(net, list, start), list, k), Upto(kt, list, k));
    }
    LeastShrinks(Upto(rival, list, k), Upto(kt, list, k), nodes);
  }

  lemma {:induction false} PrefixGain(net: Network, list: seq<Edge>, start: Node, rival: set<Edge>, k: nat)
    requires net.WellFormed() && WeightOrdered(net, list) && 0 < k <= |list|
    requires rival <= Usable(net, list) && SpanningTree(rival, Component(net, list, start), start)
    ensures var kt := KruskalTree(net, list, start);
            TotalWeight(kt, list, k) - TotalWeight(rival, list, k)
            <= list[k - 1].weight * (|Upto(kt, list, k)| - |Upto(rival, list, k)|)
  {
    hide KruskalTree, SpanningTree, Component, Usable, Network.WellFormed, Upto, TotalWeight;
    var kt := KruskalTree(net, list, start);
    var e := list[k - 1];
    GainCount(kt, list, k);
    GainCount(rival, list, k);
    var a, b := |Upto(kt, list, k - 1)|, |Upto(rival, list, k - 1)|;
    var w, v := TotalWeight(kt, list, k - 1), TotalWeight(rival, list, k - 1);
    if k == 1 {
      UptoNone(kt, list);
      UptoNone(rival, list);
      GainStep(w, v, e.weight, e.weight, a, b, e in kt, e in rival);
    } else {
      PrefixGain(net, list, start, rival, k - 1);
      RivalHasNoMore(net, list, start, rival, k - 1);
      assert list[k - 2].weight <= e.weight by { assert Before(list[k - 2], list[k - 1]); }
      GainStep(w, v, list[k - 2].weight, e.weight, a, b, e in kt, e in rival);
    }
  }

  lemma UptoNone(es: set<Edge>, list: seq<Edge>)
    ensures Upto(es, list, 0) == {} && TotalWeight(es, list, 0) == 0
  {
  }

  lemma GainCount(es: set<Edge>, list: seq<Edge>, k: nat)
    requires 0 < k <= |list| && forall i, j :: 0 <= i < j < |list| ==> Before(list[i], list[j])
    ensures |Upto(es, list, k)| == |Upto(es, list, k - 1)| + if list[k - 1] in es then 1 else 0
    ensures TotalWeight(es, list, k)
            == TotalWeight(es, list, k - 1) + if list[k - 1] in es then list[k - 1].weight else 0
  {
    hide Upto, Before;
    UptoStep(es, list, k - 1);
  }

  lemma GainStep(w: int, v: int, x: int, y: int, a: nat, b: nat, inTree: bool, inRival: bool)
    requires x <= y && b <= a && w - v <= x * (a - b)
    ensures (w + if inTree then y else 0) - (v + if inRival then y else 0)
            <= y * ((a + if inTree then 1 else 0) - (b + if inRival then 1 else 0))
  {
    var gain, step := a - b, (if inTree then 1 else 0) - (if inRival then 1 else 0);
    assert x * gain <= y * gain;
    assert y * (gain + step) == y * gain + y * step;
  }

  lemma RivalSize(net: Network, list: seq<Edge>, start: Node, rival: set<Edge>)
    requires net.WellFormed() && WeightOrdered(net, list) && start in net.nodes
    requires rival <= Usable(net, list) && SpanningTree(rival, Component(net, list, start), start)
    ensures |Upto(KruskalTree(net, list, start), list, |list|)| == |Upto(rival, list, |list|)|
  {
    var kt, nodes := KruskalTree(net, list, start), Component(net, list, start);
    assert start in nodes by { Reflexive(Usable(net, list), start); }
    assert forall e :: e in rival ==> e in list;
    RivalHasNoMore(net, list, start, rival, |list|);
    KruskalWithin(net, list, start);
    KruskalJoins(net, list, start);
    TreeIsJoining(rival, list, nodes, start);
    hide KruskalTree, Component, Usable, Network.WellFormed, Upto, Connected;
    EdgesAndComponents(kt, list, |list|, nodes);
    EdgesAndComponents(rival, list, |list|, nodes);
    UptoAll(rival, list);
    LeastOne(rival, nodes, start);
    LeastSome(Upto(kt, list, |list|), nodes);
  }

  /** No spanning tree of the component weighs less. */
  lemma MinimumWeight(net: Network, list: seq<Edge>, start: Node, rival: set<Edge>)
    requires net.WellFormed() && WeightOrdered(net, list) && start in net.nodes
    requires rival <= Usable(net, list) && SpanningTree(rival, Component(net, list, start), start)
    ensures TotalWeight(KruskalTree(net, list, start), list, |list|) <= TotalWeight(rival, list, |list|)
  {
    hide KruskalTree, Component, Usable, Network.WellFormed, Upto, SpanningTree;
    if |list| > 0 {
      PrefixGain(net, list, start, rival, |list|);
      RivalSize(net, list, start, rival);
    }
  }
}
