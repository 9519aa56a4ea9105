/**
  sssp_bfs of core/tincd/src/graph.c: a queue search that puts a node back on its work list
  whenever its weighted distance drops or it stops being indirect.
  */
module Sssp {
  import opened Wrappers
  import opened Mesh

  /** What the search writes into a node_t. */
  datatype NodeInfo = NodeInfo(
    visited: bool,
    indirect: bool,
    distance: int,
    weighted: int,
    nexthop: Node,
    prevedge: Option<Edge>,
    via: Node)

  type Table = map<Node, NodeInfo>

  /** One examination of edge `e`, whose source is the node being expanded. */
  predicate Skipped(net: Network, tab: Table, e: Edge)
    requires e.from in tab && e.to in tab
  {
    var n, t := tab[e.from], tab[e.to];
    || !net.HasReverse(e) || e.to == net.me
    || (e.from == net.me && e.to in net.noDirect)
    || (t.visited && t.distance == 1 && e.from != net.me)
    || (t.visited && (!t.indirect || IndirectOver(net, tab, e)) && !Shortens(tab, e))
  }

  predicate IndirectOver(net: Network, tab: Table, e: Edge)
    requires e.from in tab
  {
    tab[e.from].indirect || e.indirect || e.to in net.noDirect || e.to in net.remoteNoDirect
  }

  predicate Shortens(tab: Table, e: Edge)
    requires e.from in tab && e.to in tab
  {
    tab[e.to].distance == tab[e.from].distance + 1 && tab[e.to].weighted > tab[e.from].weighted + e.weight
  }

  function Improved(net: Network, tab: Table, e: Edge): Table
    requires e.from in tab && e.to in tab
  {
    var n, t := tab[e.from], tab[e.to];
    var moved :=
      if !t.visited || Shortens(tab, e) then
        t.(nexthop := if n.nexthop == net.me then e.to else n.nexthop,
           weighted := n.weighted + e.weight,
           distance := n.distance + 1)
      else t;
    var ind := IndirectOver(net, tab, e);
    tab[e.to := moved.(visited := true, indirect := ind, prevedge := Some(e), via := if ind then n.via else e.to)]
  }

  // ---------- What every step of the search keeps ----------

  /** The labels of visited nodes describe real routes. */
  ghost predicate Sound(net: Network, tab: Table) {
    && (forall v :: v in net.nodes <==> v in tab)
    && net.me in tab
    && tab[net.me].visited && tab[net.me].distance == 0 && tab[net.me].weighted == 0 && tab[net.me].nexthop == net.me
    && (forall v :: v in tab && tab[v].visited ==> net.HasRoute(v, tab[v].distance, tab[v].weighted, tab[v].nexthop))
    && (forall v :: v in tab && tab[v].visited && v != net.me ==> tab[v].distance >= 1 && tab[v].nexthop != net.me)
  }

  /** What holds of indirect, via and prevedge throughout. */
  ghost predicate Labelled(net: Network, tab: Table) {
    && net.me in tab && tab[net.me].via == net.me && !tab[net.me].indirect
    && (forall v :: v in tab && tab[v].visited ==> ViaOk(net, tab, v))
    && (forall v :: v in tab && tab[v].visited && tab[v].distance == 1 ==> FromMe(net, tab[v].prevedge, v))
  }

  ghost predicate FromMe(net: Network, prev: Option<Edge>, v: Node) {
    prev.Some? && prev.value.from == net.me && prev.value.to == v && net.Allowed(prev.value)
  }

  /** `via` is the node itself, or a strictly nearer one that is itself direct. */
  ghost predicate ViaOk(net: Network, tab: Table, v: Node)
    requires v in tab
  {
    var u := tab[v].via;
    && (u == v <==> !tab[v].indirect)
    && u in tab && tab[u].visited && !tab[u].indirect
    && (u != v ==> tab[u].distance < tab[v].distance)
    && (u != net.me ==> u !in net.noDirect && u !in net.remoteNoDirect)
  }

  /** Whoever relays for another node has been expanded, or is being expanded. */
  ghost predicate Anchored(tab: Table, anchors: set<Node>) {
    forall v :: v in tab && tab[v].visited && tab[v].via != v ==> tab[v].via in anchors
  }

  ghost function Anchors(todo: seq<Node>, expanded: set<Node>): set<Node> {
    expanded + if todo == [] then {} else {todo[0]}
  }

  /** Edge `e` offers its destination nothing better than it has. */
  ghost predicate Relaxed(net: Network, tab: Table, e: Edge) {
    net.Allowed(e) && e.to != net.me && e.from in tab && e.to in tab ==>
      && tab[e.to].visited && tab[e.to].distance <= tab[e.from].distance + 1
      && (tab[e.to].distance == tab[e.from].distance + 1 ==> tab[e.to].weighted <= tab[e.from].weighted + e.weight)
  }

  /** `expanded` are the nodes taken off the work list at least once. */
  ghost predicate Settled(net: Network, tab: Table, expanded: set<Node>) {
    forall e :: net.HasEdge(e) && e.from in expanded ==> Relaxed(net, tab, e)
  }

  /** Every visited node has been expanded or waits; nothing else waits. */
  ghost predicate Waiting(tab: Table, todo: seq<Node>, expanded: set<Node>) {
    && (forall v :: v in todo ==> v in tab && tab[v].visited)
    && (forall v :: v in expanded ==> v in tab && tab[v].visited)
    && (forall v :: v in tab && tab[v].visited && v !in expanded ==> v in todo)
  }

  /** The first waiting places of nodes not yet expanded are in order of distance. */
  ghost predicate Sorted(tab: Table, todo: seq<Node>, expanded: set<Node>) {
    forall j :: 0 <= j < |todo| && todo[j] !in expanded && todo[j] !in todo[..j] ==>
        NoneFarther(tab, todo[..j], expanded, todo[j])
  }

  ghost predicate NoneFarther(tab: Table, before: seq<Node>, expanded: set<Node>, v: Node) {
    forall u :: u in before && u in tab && v in tab && u !in expanded ==> tab[u].distance <= tab[v].distance
  }

  /** No visited node is more than one hop beyond a node not yet expanded. */
  ghost predicate Level(tab: Table, expanded: set<Node>) {
    forall u, v :: u in tab && v in tab && tab[u].visited && u !in expanded && tab[v].visited ==>
      tab[v].distance <= tab[u].distance + 1
  }

  /** Expanded nodes are no farther than those that have not been. */
  ghost predicate Behind(tab: Table, expanded: set<Node>) {
    forall u, v :: u in tab && v in tab && u in expanded && tab[v].visited && v !in expanded ==>
      tab[u].distance <= tab[v].distance
  }

  ghost predicate Ordered(tab: Table, todo: seq<Node>, expanded: set<Node>) {
    Waiting(tab, todo, expanded) && Sorted(tab, todo, expanded) && Level(tab, expanded) && Behind(tab, expanded)
  }

  ghost predicate Inv(net: Network, tab: Table, todo: seq<Node>, expanded: set<Node>) {
    && net.WellFormed()
    && Sound(net, tab)
    && Labelled(net, tab)
    && Ordered(tab, todo, expanded)
    && Settled(net, tab, expanded)
    && Anchored(tab, Anchors(todo, expanded))
    && Tiered(tab)
    && Relayed(net, tab)
    && Preferring(net, tab, todo, expanded)
  }

  // ---------- Why a node is direct or not ----------

  /** An edge that may be used directly: not declared indirect, to a node that accepts direct traffic. */
  ghost predicate Clear(net: Network, e: Edge) {
    !e.indirect && e.to !in net.noDirect && e.to !in net.remoteNoDirect
  }

  ghost predicate AllClear(net: Network, p: seq<Edge>) {
    forall i :: 0 <= i < |p| ==> Clear(net, p[i])
  }

  ghost predicate HasClearRoute(net: Network, v: Node) {
    exists p: seq<Edge> :: net.Route(p, v) && AllClear(net, p)
  }

  /** Some route to `v` is clear up to `u` and is not clear at the very next edge. */
  ghost predicate RelaysFor(net: Network, u: Node, v: Node) {
    exists a, b :: RelayRoute(net, u, v, a, b)
  }

  ghost predicate RelayRoute(net: Network, u: Node, v: Node, a: seq<Edge>, b: seq<Edge>) {
    && net.Route(a, u) && AllClear(net, a)
    && b != [] && b[0].from == u && !Clear(net, b[0]) && net.Route(a + b, v)
  }

  /**
    A direct node has a clear route; an indirect one is relayed by the last node before the first edge
    that is not clear, on some route.  At distance 1 the edge from `myself` decides.
    */
  ghost predicate Relayed(net: Network, tab: Table) {
    forall v :: v in tab && tab[v].visited ==> RelayedAt(net, tab[v], v)
  }

  ghost predicate RelayedAt(net: Network, x: NodeInfo, v: Node) {
    && (if x.indirect then RelaysFor(net, x.via, v) else HasClearRoute(net, v))
    && (v != net.me ==> x.prevedge.Some? && x.prevedge.value.to == v && net.Allowed(x.prevedge.value))
    && (x.distance == 1 && v != net.me ==> (x.indirect <==> !Clear(net, x.prevedge.value)))
  }

  /**
    A clear edge from a direct node makes its destination direct, unless that has a lighter route of the
    same length. Neighbours of `myself` keep to their own edge.
    */
  ghost predicate Upgrades(net: Network, tab: Table, e: Edge) {
    && net.Allowed(e) && e.to != net.me && e.from in tab && e.to in tab && !tab[e.from].indirect && Clear(net, e)
    && tab[e.to].indirect && (tab[e.to].distance == 1 ==> e.from == net.me) ==>
      && tab[e.to].visited && tab[e.to].distance == tab[e.from].distance + 1
      && tab[e.to].weighted < tab[e.from].weighted + e.weight
  }

  /** So it is for every edge of the nodes that do not wait to be expanded again. */
  ghost predicate Preferring(net: Network, tab: Table, todo: seq<Node>, expanded: set<Node>) {
    forall e :: net.HasEdge(e) && e.from in expanded && e.from !in todo ==> Upgrades(net, tab, e)
  }

  /** And in the end for every edge of every visited node. */
  ghost predicate DirectPreferred(net: Network, tab: Table) {
    forall e :: net.HasEdge(e) && e.from in tab && tab[e.from].visited ==> Upgrades(net, tab, e)
  }

  lemma SkippedUpgrades(net: Network, tab: Table, e: Edge)
    requires net.HasEdge(e) && e.from in tab && e.to in tab && tab[e.from].visited && Skipped(net, tab, e)
    ensures Upgrades(net, tab, e)
  {
  }

  lemma NotToItself(net: Network, tab: Table, e: Edge)
    requires e.from in tab && e.to in tab && tab[e.from].visited && !Skipped(net, tab, e)
    ensures e.to != e.from
  {
  }

  /** An update keeps it for edges to other nodes, and brings it about for its own. */
  lemma OthersUpgrade(net: Network, tab: Table, e: Edge, f: Edge)
    requires e.from in tab && e.to in tab && tab[e.from].visited && !Skipped(net, tab, e) && f.from == e.from
    requires f == e || (f.to != e.to && Upgrades(net, tab, f))
    ensures Upgrades(net, Improved(net, tab, e), f)
  {
    NotToItself(net, tab, e);
  }

  /** An edge examined before leads to a node that gets lighter: then the route found since is the lighter one. */
  lemma UpgradeStays(net: Network, tab: Table, todo: seq<Node>, expanded: set<Node>, e: Edge, f: Edge)
    requires Inv(net, tab, todo, expanded) && net.HasEdge(e) && net.HasEdge(f)
    requires todo != [] && todo[0] == e.from && !Skipped(net, tab, e)
    requires f.from in expanded && f.from !in todo && f.from != e.to && f.to == e.to
    ensures Upgrades(net, Improved(net, tab, e), f)
  {
    hide Network.HasRoute, ViaOk, FromMe, Sorted, Level, Tiered, Relayed, Labelled, Anchored;
    OnlyWaitingShorten(net, tab, todo, expanded, e);
    assert Relaxed(net, tab, f) && Upgrades(net, tab, f);
  }

  lemma ImprovePreferring(net: Network, tab: Table, todo: seq<Node>, expanded: set<Node>, e: Edge)
    requires Inv(net, tab, todo, expanded) && net.HasEdge(e)
    requires todo != [] && todo[0] == e.from && !Skipped(net, tab, e)
    ensures Preferring(net, Improved(net, tab, e), todo + [e.to], expanded)
  {
    hide Network.HasRoute, Labelled, Ordered, Tiered, Relayed, Anchored, Settled;
    forall f | net.HasEdge(f) && f.from in expanded && f.from !in todo + [e.to]
      ensures Upgrades(net, Improved(net, tab, e), f)
    {
      assert Upgrades(net, tab, f);
      if f.to == e.to {
        UpgradeStays(net, tab, todo, expanded, e, f);
      }
    }
  }

  lemma NoneWaiting(net: Network, tab: Table, expanded: set<Node>)
    requires Inv(net, tab, [], expanded)
    ensures DirectPreferred(net, tab)
  {
    hide Network.HasRoute, Labelled, Tiered, Relayed, Anchored, Settled, Upgrades;
  }

  lemma ClearMore(net: Network, e: Edge)
    requires HasClearRoute(net, e.from) && net.Allowed(e) && Clear(net, e)
    ensures HasClearRoute(net, e.to)
  {
    var p: seq<Edge> :| net.Route(p, e.from) && AllClear(net, p);
    var q := p + [e];
    assert q[..|q| - 1] == p;
    assert net.Route(q, e.to) && AllClear(net, q);
  }

  lemma RelayFirst(net: Network, e: Edge)
    requires HasClearRoute(net, e.from) && net.Allowed(e) && !Clear(net, e)
    ensures RelaysFor(net, e.from, e.to)
  {
    var p: seq<Edge> :| net.Route(p, e.from) && AllClear(net, p);
    assert (p + [e])[..|p|] == p;
    assert RelayRoute(net, e.from, e.to, p, [e]);
  }

  lemma RelayMore(net: Network, u: Node, e: Edge)
    requires RelaysFor(net, u, e.from) && net.Allowed(e)
    ensures RelaysFor(net, u, e.to)
  {
    var a, b :| RelayRoute(net, u, e.from, a, b);
    var longer := a + (b + [e]);
    assert longer[..|longer| - 1] == a + b;
    assert RelayRoute(net, u, e.to, a, b + [e]);
  }

  lemma ImproveRelayed(net: Network, tab: Table, e: Edge)
    requires net.WellFormed() && Sound(net, tab) && Labelled(net, tab) && Relayed(net, tab) && net.HasEdge(e)
    requires tab[e.from].visited && !Skipped(net, tab, e)
    ensures Relayed(net, Improved(net, tab, e))
  {
    hide Network.HasRoute, HasClearRoute, RelaysFor;
    assert net.Allowed(e);
    assert RelayedAt(net, tab[e.from], e.from) && ViaOk(net, tab, e.from);
    if tab[e.from].indirect {
      RelayMore(net, tab[e.from].via, e);
    } else if Clear(net, e) {
      ClearMore(net, e);
    } else {
      RelayFirst(net, e);
    }
    var tab' := Improved(net, tab, e);
    assert RelayedAt(net, tab'[e.to], e.to);
  }

  /** No distance is skipped: there is a node one hop nearer than any visited one. */
  ghost predicate Tiered(tab: Table) {
    forall v :: v in tab && tab[v].visited && tab[v].distance > 0 ==> HasNearer(tab, v)
  }

  ghost predicate HasNearer(tab: Table, v: Node)
    requires v in tab
  {
    exists u :: u in tab && tab[u].visited && tab[u].distance == tab[v].distance - 1
  }

  /** Only `e.to` changes; nothing visited moves to another level or gets heavier. */
  lemma ImproveSound(net: Network, tab: Table, e: Edge)
    requires net.WellFormed() && Sound(net, tab) && net.HasEdge(e)
    requires tab[e.from].visited && !Skipped(net, tab, e)
    ensures Sound(net, Improved(net, tab, e))
  {
    hide Network.HasRoute;
    var n := tab[e.from];
    assert e.to in net.nodes;
    assert net.Allowed(e);
    ExtendRoute(net, e.from, n.distance, n.weighted, n.nexthop, e);
    var tab' := Improved(net, tab, e);
    forall v | v in tab' && tab'[v].visited
      ensures net.HasRoute(v, tab'[v].distance, tab'[v].weighted, tab'[v].nexthop)
    {
      if v == e.to && (!tab[v].visited || Shortens(tab, e)) {
        assert n.nexthop == net.me <==> e.from == net.me;
        assert n.distance == 0 <==> e.from == net.me;
      }
    }
  }

  /**
    A node that has been expanded never gets lighter: all its lighter routes were found while it
    waited.  So `indirect` can only be set again on a node nobody relays through yet.
    */
  lemma OnlyWaitingShorten(net: Network, tab: Table, todo: seq<Node>, expanded: set<Node>, e: Edge)
    requires Inv(net, tab, todo, expanded) && net.HasEdge(e)
    requires todo != [] && todo[0] == e.from && !Skipped(net, tab, e)
    ensures !tab[e.to].visited || Shortens(tab, e) ==> e.from !in expanded && e.to !in Anchors(todo, expanded)
  {
    hide Network.HasRoute, ViaOk, FromMe, Sorted;
    assert net.Allowed(e);
    assert e.from in expanded ==> Relaxed(net, tab, e);
  }

  lemma ImproveLabelled(net: Network, tab: Table, e: Edge)
    requires net.WellFormed() && Sound(net, tab) && Labelled(net, tab) && net.HasEdge(e)
    requires tab[e.from].visited && !Skipped(net, tab, e)
    requires !tab[e.to].visited || Shortens(tab, e) ==>
               forall v :: v in tab && tab[v].visited && tab[v].via != v ==> tab[v].via != e.to
    ensures Labelled(net, Improved(net, tab, e))
  {
    hide Network.HasRoute;
    var tab' := Improved(net, tab, e);
    assert net.Allowed(e);
    assert ViaOk(net, tab, e.from);
    forall v | v in tab' && tab'[v].visited && v != e.to ensures ViaOk(net, tab', v) {
      assert ViaOk(net, tab, v);
    }
    assert ViaOk(net, tab', e.to);
  }

  lemma ImproveAnchored(net: Network, tab: Table, todo: seq<Node>, expanded: set<Node>, e: Edge)
    requires Inv(net, tab, todo, expanded) && net.HasEdge(e)
    requires todo != [] && todo[0] == e.from && !Skipped(net, tab, e)
    ensures Labelled(net, Improved(net, tab, e))
    ensures Anchored(Improved(net, tab, e), Anchors(todo + [e.to], expanded))
  {
    hide Network.HasRoute, ViaOk, FromMe, Sorted, Settled;
    assert tab[e.from].visited && e.to in net.nodes;
    OnlyWaitingShorten(net, tab, todo, expanded, e);
    ImproveLabelled(net, tab, e);
  }

  /** `tab'` is `tab` with `t` visited: on the next level after `n` if it is new, else where it was. */
  ghost predicate Placed(tab: Table, tab': Table, expanded: set<Node>, n: Node, t: Node) {
    && n in tab && t in tab && tab'.Keys == tab.Keys && tab'[t].visited && tab[n].visited
    && (forall v :: v in tab && v != t ==> tab'[v] == tab[v])
    && (tab[t].visited ==> tab'[t].distance == tab[t].distance)
    && (!tab[t].visited ==> n !in expanded && tab'[t].distance == tab[n].distance + 1)
  }

  lemma PlacedSorted(tab: Table, tab': Table, todo: seq<Node>, expanded: set<Node>, n: Node, t: Node)
    requires Ordered(tab, todo, expanded) && Placed(tab, tab', expanded, n, t)
    ensures Sorted(tab', todo + [t], expanded)
  {
    var todo' := todo + [t];
    forall j | 0 <= j < |todo'| && todo'[j] !in expanded && todo'[j] !in todo'[..j]
      ensures NoneFarther(tab', todo'[..j], expanded, todo'[j])
    {
      if j < |todo| {
        assert todo'[..j] == todo[..j] && todo[j] == todo'[j];
        assert NoneFarther(tab, todo[..j], expanded, todo[j]);
        assert forall u :: u in todo[..j] ==> u in todo;
      } else {
        assert todo'[..j] == todo;
      }
    }
  }

  lemma {:induction false} FirstPlace(todo: seq<Node>, v: Node) returns (j: nat)
    requires v in todo
    ensures j < |todo| && todo[j] == v && v !in todo[..j]
  {
    if todo[0] == v {
      j := 0;
    } else {
      var i := FirstPlace(todo[1..], v);
      j := i + 1;
      assert todo[..j] == [todo[0]] + todo[1..][..i];
    }
  }

  /** A head that has not been expanded is as near as any node that has not been. */
  lemma HeadNearest(tab: Table, todo: seq<Node>, expanded: set<Node>, u: Node)
    requires Ordered(tab, todo, expanded) && todo != [] && todo[0] !in expanded
    requires u in tab && tab[u].visited && u !in expanded
    ensures tab[todo[0]].distance <= tab[u].distance
  {
    var j := FirstPlace(todo, u);
    if j > 0 {
      assert todo[..j][0] == todo[0];
      assert NoneFarther(tab, todo[..j], expanded, u);
    }
  }

  lemma PlacedLevel(tab: Table, tab': Table, todo: seq<Node>, expanded: set<Node>, t: Node)
    requires Ordered(tab, todo, expanded) && todo != [] && Placed(tab, tab', expanded, todo[0], t)
    ensures Level(tab', expanded) && Behind(tab', expanded)
  {
    if !tab[t].visited {
      forall u | u in tab && tab[u].visited && u !in expanded ensures tab[todo[0]].distance <= tab[u].distance {
        HeadNearest(tab, todo, expanded, u);
      }
    }
  }

  /** A node already expanded has only visited neighbours, so a repeat never discovers anything. */
  lemma ImprovePlaced(net: Network, tab: Table, todo: seq<Node>, expanded: set<Node>, e: Edge)
    requires Inv(net, tab, todo, expanded) && net.HasEdge(e)
    requires todo != [] && todo[0] == e.from && !Skipped(net, tab, e)
    ensures Placed(tab, Improved(net, tab, e), expanded, e.from, e.to)
  {
    hide Tiered, Relayed, Labelled, Anchored;
    hide Network.HasRoute, ViaOk, FromMe, Sorted, Level, Behind;
    assert net.Allowed(e) && e.to in net.nodes;
    assert e.from in expanded ==> Relaxed(net, tab, e);
  }

  lemma ImproveOrdered(net: Network, tab: Table, todo: seq<Node>, expanded: set<Node>, e: Edge)
    requires Inv(net, tab, todo, expanded) && net.HasEdge(e)
    requires todo != [] && todo[0] == e.from && !Skipped(net, tab, e)
    ensures Ordered(Improved(net, tab, e), todo + [e.to], expanded)
  {
    hide Tiered, Relayed, Anchored, Labelled, Settled, Network.HasRoute, Improved, Sorted, Level, Behind;
    ImprovePlaced(net, tab, todo, expanded, e);
    PlacedSorted(tab, Improved(net, tab, e), todo, expanded, e.from, e.to);
    PlacedLevel(tab, Improved(net, tab, e), todo, expanded, e.to);
  }

  lemma ImproveSettled(net: Network, tab: Table, todo: seq<Node>, expanded: set<Node>, e: Edge)
    requires Inv(net, tab, todo, expanded) && net.HasEdge(e)
    requires todo != [] && todo[0] == e.from && !Skipped(net, tab, e)
    ensures Settled(net, Improved(net, tab, e), expanded)
  {
    hide Tiered, Relayed, Network.HasRoute, Labelled, Sorted, Level, Behind;
    OnlyWaitingShorten(net, tab, todo, expanded, e);
    forall f | net.HasEdge(f) && f.from in expanded ensures Relaxed(net, Improved(net, tab, e), f) {
      assert Relaxed(net, tab, f);
    }
  }

  lemma ImproveInv(net: Network, tab: Table, todo: seq<Node>, expanded: set<Node>, e: Edge)
    requires Inv(net, tab, todo, expanded) && net.HasEdge(e)
    requires todo != [] && todo[0] == e.from && !Skipped(net, tab, e)
    ensures Inv(net, Improved(net, tab, e), todo + [e.to], expanded)
    ensures tab[e.to].visited ==> tab[e.to].distance <= tab[e.from].distance + 1
  {
    assert tab[e.from].visited;
    assert net.Allowed(e);
    assert e.from in expanded ==> Relaxed(net, tab, e);
    ImproveSound(net, tab, e);
    ImproveAnchored(net, tab, todo, expanded, e);
    ImproveOrdered(net, tab, todo, expanded, e);
    ImproveSettled(net, tab, todo, expanded, e);
    ImproveTiered(net, tab, e);
    ImproveRelayed(net, tab, e);
    ImprovePreferring(net, tab, todo, expanded, e);
  }

  lemma ImproveTiered(net: Network, tab: Table, e: Edge)
    requires e.from in tab && e.to in tab && tab[e.from].visited && Tiered(tab)
    ensures Tiered(Improved(net, tab, e))
  {
    var tab' := Improved(net, tab, e);
    forall v | v in tab' && tab'[v].visited && tab'[v].distance > 0 ensures HasNearer(tab', v) {
      if v == e.to && (!tab[v].visited || Shortens(tab, e)) {
        assert tab'[e.from].visited && tab'[e.from].distance == tab'[v].distance - 1;
      } else {
        assert HasNearer(tab, v);
        var u :| u in tab && tab[u].visited && tab[u].distance == tab[v].distance - 1;
        assert tab'[u].visited && tab'[u].distance == tab'[v].distance - 1;
      }
    }
  }

  /** So there are at least as many visited nodes as hops to the farthest one. */
  lemma {:induction false} NearerNodes(net: Network, tab: Table, v: Node) returns (s: set<Node>)
    requires Sound(net, tab) && Tiered(tab) && v in tab && tab[v].visited
    ensures |s| == tab[v].distance + 1
    ensures forall u :: u in s ==> u in tab && tab[u].visited && tab[u].distance <= tab[v].distance
    decreases tab[v].distance
  {
    hide Network.HasRoute;
    if tab[v].distance <= 0 {
      s := {v};
    } else {
      assert HasNearer(tab, v);
      var u :| u in tab && tab[u].visited && tab[u].distance == tab[v].distance - 1;
      var nearer := NearerNodes(net, tab, u);
      s := nearer + {v};
    }
  }

  const INT_MAX := 0x7fff_ffff

  /**
    The sum the search computes for an edge is an int, at every point of the search, if the number of
    nodes times the largest weight is.
    */
  lemma SumFits(net: Network, tab: Table, todo: seq<Node>, expanded: set<Node>, e: Edge, bound: nat)
    requires Inv(net, tab, todo, expanded) && net.HasEdge(e) && e.from in tab && tab[e.from].visited
    requires WeightsWithin(net, bound) && |net.nodes| * bound <= INT_MAX
    ensures 0 <= tab[e.from].distance < |net.nodes|
    ensures -INT_MAX <= tab[e.from].weighted <= INT_MAX && -INT_MAX <= tab[e.from].weighted + e.weight <= INT_MAX
  {
    hide Labelled, Ordered, Settled, Anchored;
    var v := e.from;
    var s := NearerNodes(net, tab, v);
    NodesBound(net, tab, s);
    var p: seq<Edge> :| net.Route(p, v) && |p| == tab[v].distance && Weight(p) == tab[v].weighted
        && tab[v].nexthop == (if p == [] then net.me else p[0].to);
    RouteWeightWithin(net, p, v, bound);
    ManyHops(|p|, |net.nodes|, bound);
  }

  lemma {:induction false} ManyHops(hops: nat, nodes: nat, bound: nat)
    requires hops < nodes
    ensures hops * bound + bound <= nodes * bound
  {
    assert nodes * bound == (nodes - 1) * bound + bound;
    if hops < nodes - 1 {
      ManyHops(hops, nodes - 1, bound);
    }
  }

  lemma NodesBound(net: Network, tab: Table, s: set<Node>)
    requires Sound(net, tab) && forall u :: u in s ==> u in tab
    ensures |s| <= |net.nodes|
  {
    var all := set i | 0 <= i < |net.nodes| :: net.nodes[i];
    NodesCount(net.nodes, |net.nodes|);
    assert s <= all;
    SubsetSize(s, all);
  }

  lemma {:induction false} NodesCount(nodes: seq<Node>, n: nat)
    requires n <= |nodes|
    ensures |set i | 0 <= i < n :: nodes[i]| <= n
  {
    if n > 0 {
      NodesCount(nodes, n - 1);
      assert (set i | 0 <= i < n :: nodes[i]) == (set i | 0 <= i < n - 1 :: nodes[i]) + {nodes[n - 1]};
    }
  }

  /** Edges of the node being expanded, once examined, stay examined. */
  lemma ImproveKeeps(net: Network, tab: Table, e: Edge, f: Edge)
    requires net.WellFormed() && Sound(net, tab) && net.HasEdge(e) && net.HasEdge(f) && f.from == e.from
    requires tab[e.from].visited && !Skipped(net, tab, e)
    requires f == e || Relaxed(net, tab, f)
    requires tab[e.to].visited ==> tab[e.to].distance <= tab[e.from].distance + 1
    ensures Relaxed(net, Improved(net, tab, e), f)
  {
  }

  /** A skipped edge has nothing left to offer. */
  lemma SkipDone(net: Network, tab: Table, todo: seq<Node>, expanded: set<Node>, e: Edge)
    requires Inv(net, tab, todo, expanded) && net.HasEdge(e)
    requires todo != [] && todo[0] == e.from && Skipped(net, tab, e)
    ensures Relaxed(net, tab, e)
  {
    hide Network.HasRoute, ViaOk, FromMe, Sorted;
    if e.from in expanded {
      assert Relaxed(net, tab, e);
    }
  }

  lemma PopOrdered(tab: Table, todo: seq<Node>, expanded: set<Node>)
    requires Ordered(tab, todo, expanded) && todo != []
    ensures Ordered(tab, todo[1..], expanded + {todo[0]})
  {
    var n, rest, expanded' := todo[0], todo[1..], expanded + {todo[0]};
    assert todo == [n] + rest;
    forall v | v in tab && tab[v].visited && v !in expanded' && n !in expanded
      ensures tab[n].distance <= tab[v].distance
    {
      HeadNearest(tab, todo, expanded, v);
    }
    forall j | 0 <= j < |rest| && rest[j] !in expanded' && rest[j] !in rest[..j]
      ensures NoneFarther(tab, rest[..j], expanded', rest[j])
    {
      assert todo[..j + 1] == [n] + rest[..j] && todo[j + 1] == rest[j];
      assert NoneFarther(tab, todo[..j + 1], expanded, todo[j + 1]);
    }
  }

  /** Taking the head off the work list once all its edges have been examined. */
  lemma PopKeeps(net: Network, tab: Table, todo: seq<Node>, expanded: set<Node>)
    requires Inv(net, tab, todo, expanded) && todo != []
    requires forall e :: net.HasEdge(e) && e.from == todo[0] ==> Relaxed(net, tab, e) && Upgrades(net, tab, e)
    ensures Inv(net, tab, todo[1..], expanded + {todo[0]})
  {
    hide Sound, Labelled, Ordered, Tiered, Relaxed, Upgrades;
    PopOrdered(tab, todo, expanded);
  }

  // ---------- Termination ----------

  ghost function Unvisited(tab: Table, nodes: seq<Node>): nat
    requires forall v :: v in nodes ==> v in tab
  {
    if nodes == [] then 0 else (if tab[nodes[0]].visited then 0 else 1) + Unvisited(tab, nodes[1..])
  }

  ghost function IndirectCount(tab: Table, nodes: seq<Node>): nat
    requires forall v :: v in nodes ==> v in tab
  {
    if nodes == [] then 0
    else (if tab[nodes[0]].visited && tab[nodes[0]].indirect then 1 else 0) + IndirectCount(tab, nodes[1..])
  }

  /** Total weighted distance, each node's lifted by `bound` a hop so that it cannot be negative. */
  ghost function Heaviness(tab: Table, nodes: seq<Node>, bound: nat): int
    requires forall v :: v in nodes ==> v in tab
  {
    if nodes == [] then 0 else
      (if tab[nodes[0]].visited then tab[nodes[0]].weighted + tab[nodes[0]].distance * bound else 0)
      + Heaviness(tab, nodes[1..], bound)
  }

  ghost predicate Earlier(tab': Table, tab: Table, nodes: seq<Node>, bound: nat)
    requires forall v :: v in nodes ==> v in tab && v in tab'
  {
    var u', h', i' := Unvisited(tab', nodes), Heaviness(tab', nodes, bound), IndirectCount(tab', nodes);
    var u, h, i := Unvisited(tab, nodes), Heaviness(tab, nodes, bound), IndirectCount(tab, nodes);
    u' < u || (u' == u && (h' < h || (h' == h && i' < i)))
  }

  /** How one changed entry moves each of the three counts. */
  lemma {:induction false} CountsMove(tab: Table, t: Node, x: NodeInfo, nodes: seq<Node>, bound: nat)
    requires forall v :: v in nodes ==> v in tab
    requires forall i, j :: 0 <= i < j < |nodes| ==> nodes[i] != nodes[j]
    requires t in tab && x.visited && (tab[t].visited ==> x.distance == tab[t].distance)
    ensures t !in nodes ==>
              && Unvisited(tab[t := x], nodes) == Unvisited(tab, nodes)
              && Heaviness(tab[t := x], nodes, bound) == Heaviness(tab, nodes, bound)
              && IndirectCount(tab[t := x], nodes) == IndirectCount(tab, nodes)
    ensures t in nodes && !tab[t].visited ==> Unvisited(tab[t := x], nodes) == Unvisited(tab, nodes) - 1
    ensures t in nodes && tab[t].visited ==>
              && Unvisited(tab[t := x], nodes) == Unvisited(tab, nodes)
              && Heaviness(tab[t := x], nodes, bound) == Heaviness(tab, nodes, bound) + x.weighted - tab[t].weighted
              && (tab[t].indirect && !x.indirect ==> IndirectCount(tab[t := x], nodes) == IndirectCount(tab, nodes) - 1)
  {
    if nodes != [] {
      CountsMove(tab, t, x, nodes[1..], bound);
      assert nodes == [nodes[0]] + nodes[1..];
      if t == nodes[0] {
        assert t !in nodes[1..];
      }
    }
  }

  lemma {:induction false} HeavinessNonNegative(net: Network, tab: Table, nodes: seq<Node>, bound: nat)
    requires Sound(net, tab) && WeightsBounded(net, bound)
    requires forall v :: v in nodes ==> v in tab
    ensures Heaviness(tab, nodes, bound) >= 0
  {
    if nodes != [] {
      HeavinessNonNegative(net, tab, nodes[1..], bound);
      var v := nodes[0];
      if tab[v].visited {
        assert net.HasRoute(v, tab[v].distance, tab[v].weighted, tab[v].nexthop);
        var p: seq<Edge> :| net.Route(p, v) && |p| == tab[v].distance && Weight(p) == tab[v].weighted;
        RouteWeightBound(net, p, v, bound);
      }
    }
  }

  /** Every improvement makes progress, although `indirect` may flip both ways. */
  lemma ImproveEarlier(net: Network, tab: Table, e: Edge, bound: nat)
    requires net.WellFormed() && Sound(net, tab) && net.HasEdge(e)
    requires tab[e.from].visited && !Skipped(net, tab, e)
    ensures Earlier(Improved(net, tab, e), tab, net.nodes, bound)
  {
    CountsMove(tab, e.to, Improved(net, tab, e)[e.to], net.nodes, bound);
  }

  // ---------- What the search computes ----------

  /** The visited nodes are those a route leads to; their labels are those of a best route. */
  ghost predicate ShortestRoutes(net: Network, tab: Table) {
    && (forall v :: v in tab && tab[v].visited ==> net.HasRoute(v, tab[v].distance, tab[v].weighted, tab[v].nexthop))
    && (forall v, p :: v in tab && net.Route(p, v) ==>
          tab[v].visited && tab[v].distance <= |p| && (|p| == tab[v].distance ==> tab[v].weighted <= Weight(p)))
  }

  lemma {:induction false} NoBetterRoute(net: Network, tab: Table, expanded: set<Node>, v: Node, p: seq<Edge>)
    requires Inv(net, tab, [], expanded) && net.Route(p, v)
    ensures v in tab && tab[v].visited && tab[v].distance <= |p|
    ensures |p| == tab[v].distance ==> tab[v].weighted <= Weight(p)
    decreases |p|
  {
    if p != [] {
      var e := p[|p| - 1];
      NoBetterRoute(net, tab, expanded, e.from, p[..|p| - 1]);
      assert net.HasEdge(e) && e.from in expanded;
      assert Relaxed(net, tab, e);
    }
  }

  lemma EmptyListIsShortest(net: Network, tab: Table, expanded: set<Node>)
    requires Inv(net, tab, [], expanded)
    ensures ShortestRoutes(net, tab)
  {
    forall v, p | v in tab && net.Route(p, v)
      ensures tab[v].visited && tab[v].distance <= |p| && (|p| == tab[v].distance ==> tab[v].weighted <= Weight(p))
    {
      NoBetterRoute(net, tab, expanded, v, p);
    }
  }

  /** What the LocalDiscovery pass reads besides the table. */
  datatype LocalDiscovery = LocalDiscovery(enabled: bool, connected: set<Node>, sharesLan: set<Node>)

  predicate OnLocalLan(net: Network, tab: Table, local: LocalDiscovery, v: Node)
    requires v in tab
  {
    && v != net.me && tab[v].visited && v !in local.connected && v !in net.noDirect && v !in net.remoteNoDirect
    && (v in net.out ==> forall i :: 0 <= i < |net.out[v]| ==> !net.out[v][i].declaredIndirect)
    && v in local.sharesLan
  }

  /** A node says of itself, on one of its edges, that it wants no direct packets. */
  ghost predicate AsksForRelay(net: Network, v: Node) {
    exists e :: net.HasEdge(e) && e.from == v && e.declaredIndirect
  }

  /** Which nodes the LocalDiscovery pass makes direct. */
  lemma LocalisedExactly(net: Network, tab: Table, local: LocalDiscovery, v: Node)
    requires net.WellFormed() && v in tab && tab[v].indirect
    ensures !Localised(net, tab, local, v).indirect <==>
              && tab[v].visited && v in local.sharesLan && v !in local.connected
              && v !in net.noDirect + net.remoteNoDirect && v != net.me && !AsksForRelay(net, v)
  {
    if v in net.out {
      forall i | 0 <= i < |net.out[v]| ensures net.HasEdge(net.out[v][i]) && net.out[v][i].from == v {}
      if AsksForRelay(net, v) {
        var e :| net.HasEdge(e) && e.from == v && e.declaredIndirect;
      }
    }
  }

  lemma SameLan(net: Network, tab: Table, tab': Table, local: LocalDiscovery, v: Node)
    requires v in tab && v in tab' && tab[v] == tab'[v]
    ensures Localised(net, tab, local, v) == Localised(net, tab', local, v)
  {
  }

  /** The entry of `v` after the LocalDiscovery pass. */
  function Localised(net: Network, tab: Table, local: LocalDiscovery, v: Node): NodeInfo
    requires v in tab
  {
    if OnLocalLan(net, tab, local, v) then tab[v].(indirect := false, via := v) else tab[v]
  }

  /** The rules packet forwarding relies on. */
  ghost predicate RoutingRules(net: Network, tab: Table) {
    forall v :: v in tab && tab[v].visited ==>
      && (v != net.me ==> tab[v].nexthop !in net.noDirect && tab[v].nexthop != net.me)
      && (tab[v].via != net.me ==> tab[v].via !in net.noDirect && tab[v].via !in net.remoteNoDirect)
      && (tab[v].via == v <==> !tab[v].indirect)
      && (tab[v].indirect ==>
            tab[v].via in tab && tab[tab[v].via].visited && tab[tab[v].via].distance < tab[v].distance)
      && tab[v].via in tab && !tab[tab[v].via].indirect
      && (tab[v].distance == 1 ==> FromMe(net, tab[v].prevedge, v))
  }

  lemma RulesFollow(net: Network, tab: Table)
    requires Sound(net, tab) && Labelled(net, tab)
    ensures RoutingRules(net, tab)
  {
    forall v | v in tab && tab[v].visited && v != net.me ensures tab[v].nexthop !in net.noDirect {
      assert net.HasRoute(v, tab[v].distance, tab[v].weighted, tab[v].nexthop);
      var p: seq<Edge> :| net.Route(p, v) && |p| == tab[v].distance && Weight(p) == tab[v].weighted
                          && tab[v].nexthop == (if p == [] then net.me else p[0].to);
      RouteStartsAtMe(net, p, v);
    }
    forall v | v in tab && tab[v].visited ensures ViaOk(net, tab, v) {}
  }

  /** Clearing `indirect` on a LAN node keeps every label rule. */
  lemma LocaliseKeeps(net: Network, tab: Table, local: LocalDiscovery, v: Node)
    requires Sound(net, tab) && Labelled(net, tab) && ShortestRoutes(net, tab)
    requires v in tab && OnLocalLan(net, tab, local, v)
    ensures var tab' := tab[v := tab[v].(indirect := false, via := v)];
            Sound(net, tab') && Labelled(net, tab') && ShortestRoutes(net, tab')
  {
    var tab' := tab[v := tab[v].(indirect := false, via := v)];
    forall u | u in tab' && tab'[u].visited ensures ViaOk(net, tab', u) {
      assert ViaOk(net, tab, u);
    }
  }

  /** The head of the work list is being expanded, and its first `i` edges have been examined. */
  ghost predicate Expanding(net: Network, tab: Table, todo: seq<Node>, expanded: set<Node>, i: nat) {
    && Inv(net, tab, todo, expanded)
    && todo != [] && todo[0] in net.out && i <= |net.out[todo[0]]|
    && forall k :: 0 <= k < i ==> Relaxed(net, tab, net.out[todo[0]][k]) && Upgrades(net, tab, net.out[todo[0]][k])
  }

  /** What the search writes into `myself`. */
  function Start(net: Network): NodeInfo {
    NodeInfo(true, false, 0, 0, net.me, None, net.me)
  }

  lemma StartInv(net: Network, tab: Table)
    requires net.WellFormed() && tab.Keys == net.out.Keys && forall v :: v in tab ==> !tab[v].visited
    ensures Inv(net, tab[net.me := Start(net)], [net.me], {})
  {
    var todo := [net.me];
    assert net.Route([], net.me) && Weight([]) == 0;
    assert todo[..0] == [];
  }

  lemma ExamineStart(net: Network, tab: Table, todo: seq<Node>, expanded: set<Node>)
    requires Inv(net, tab, todo, expanded) && todo != []
    ensures Expanding(net, tab, todo, expanded, 0)
  {
  }

  lemma EarlierTransitive(a: Table, b: Table, c: Table, nodes: seq<Node>, bound: nat)
    requires forall v :: v in nodes ==> v in a && v in b && v in c
    requires Earlier(a, b, nodes, bound) && Earlier(b, c, nodes, bound)
    ensures Earlier(a, c, nodes, bound)
  {
  }

  lemma EdgeKnown(net: Network, tab: Table, todo: seq<Node>, expanded: set<Node>, i: nat)
    requires Expanding(net, tab, todo, expanded, i) && i < |net.out[todo[0]]|
    ensures var e := net.out[todo[0]][i];
            net.HasEdge(e) && e.from == todo[0] && e.from in tab && e.to in tab && tab[e.from].visited
  {
    assert net.out[todo[0]][i].to in net.nodes;
  }

  lemma ExaminedStay(net: Network, tab: Table, todo: seq<Node>, expanded: set<Node>, i: nat)
    requires Expanding(net, tab, todo, expanded, i) && i < |net.out[todo[0]]|
    ensures var e := net.out[todo[0]][i];
            e.from in tab && e.to in tab && (!Skipped(net, tab, e) ==>
            Expanding(net, Improved(net, tab, e), todo + [e.to], expanded, i + 1))
  {
    hide Ordered, Settled, Labelled, Sound, Preferring, Upgrades, Relaxed;
    EdgeKnown(net, tab, todo, expanded, i);
    var edges := net.out[todo[0]];
    var e := edges[i];
    if !Skipped(net, tab, e) {
      ImproveInv(net, tab, todo, expanded, e);
      forall k | 0 <= k <= i
        ensures Relaxed(net, Improved(net, tab, e), edges[k]) && Upgrades(net, Improved(net, tab, e), edges[k])
      {
        assert net.HasEdge(edges[k]);
        ImproveKeeps(net, tab, e, edges[k]);
        OthersUpgrade(net, tab, e, edges[k]);
      }
    }
  }

  lemma ExamineStep(net: Network, tab: Table, todo: seq<Node>, expanded: set<Node>, i: nat, bound: nat)
    requires Expanding(net, tab, todo, expanded, i) && i < |net.out[todo[0]]|
    ensures var e := net.out[todo[0]][i];
            && e.from in tab && e.to in tab
            && if Skipped(net, tab, e) then Expanding(net, tab, todo, expanded, i + 1)
               else Expanding(net, Improved(net, tab, e), todo + [e.to], expanded, i + 1)
                    && Earlier(Improved(net, tab, e), tab, net.nodes, bound)
  {
    hide Ordered, Settled, Labelled, Sound, Earlier, Preferring, Upgrades, Relaxed, Skipped;
    EdgeKnown(net, tab, todo, expanded, i);
    var e := net.out[todo[0]][i];
    if Skipped(net, tab, e) {
      SkipDone(net, tab, todo, expanded, e);
      SkippedUpgrades(net, tab, e);
    } else {
      ExaminedStay(net, tab, todo, expanded, i);
      ImproveEarlier(net, tab, e, bound);
    }
  }

  /** A node whose edges have all been examined may leave the work list. */
  lemma ExamineDone(net: Network, tab: Table, todo: seq<Node>, expanded: set<Node>)
    requires todo != [] && todo[0] in net.out && Expanding(net, tab, todo, expanded, |net.out[todo[0]]|)
    ensures Inv(net, tab, todo[1..], expanded + {todo[0]})
  {
    hide Inv, Relaxed, Upgrades;
    forall e | net.HasEdge(e) && e.from == todo[0] ensures Relaxed(net, tab, e) && Upgrades(net, tab, e) {
      var k :| 0 <= k < |net.out[todo[0]]| && net.out[todo[0]][k] == e;
    }
    PopKeeps(net, tab, todo, expanded);
  }

  /** The search over the node table, with the work list it extends while it walks it. */
  class Search {
    const net: Network
    var info: Table
    var todo: seq<Node>

    /** The table may hold whatever the previous run left in it. */
    constructor (net: Network, stale: Table)
      ensures this.net == net && info == stale
    {
      this.net, info, todo := net, stale, [];
    }

    method Reset()
      requires net.WellFormed() && info.Keys == net.out.Keys
      modifies this
      ensures Inv(net, info, todo, {})
    {
      hide Inv;
      ghost var stale := info;
      for i := 0 to |net.nodes|
        invariant info.Keys == stale.Keys
        invariant forall k :: 0 <= k < i ==> !info[net.nodes[k]].visited
      {
        info := info[net.nodes[i] := info[net.nodes[i]].(visited := false, indirect := true, distance := -1)];
      }
      forall v | v in info ensures !info[v].visited {
        assert v in net.nodes;
      }
      StartInv(net, info);
      info := info[net.me := Start(net)];
      todo := [net.me];
    }

    method ExamineEdge(e: Edge)
      requires e.from in info && e.to in info
      modifies this
      ensures Skipped(net, old(info), e) ==> info == old(info) && todo == old(todo)
      ensures !Skipped(net, old(info), e) ==> info == Improved(net, old(info), e) && todo == old(todo) + [e.to]
    {
      if !net.HasReverse(e) || e.to == net.me {
        return;
      }
      if e.from == net.me && e.to in net.noDirect {
        return;
      }
      var n, t := info[e.from], info[e.to];
      var indirect := n.indirect || e.indirect || e.to in net.noDirect || e.to in net.remoteNoDirect;
      if t.visited && t.distance == 1 && e.from != net.me {
        return;
      }
      if t.visited && (!t.indirect || indirect)
         && (t.distance != n.distance + 1 || t.weighted <= n.weighted + e.weight) {
        return;
      }
      if !t.visited || (t.distance == n.distance + 1 && t.weighted > n.weighted + e.weight) {
        t := t.(nexthop := if n.nexthop == net.me then e.to else n.nexthop,
                weighted := n.weighted + e.weight,
                distance := n.distance + 1);
      }
      t := t.(visited := true, indirect := indirect, prevedge := Some(e), via := if indirect then n.via else e.to);
      info := info[e.to := t];
      todo := todo + [e.to];
    }

    /** The body of the outer loop, up to the deletion of the node from the list. */
    method ExamineNode(ghost expanded: set<Node>, ghost bound: nat)
      requires Expanding(net, info, todo, expanded, 0)
      modifies this
      ensures todo != [] && todo[0] == old(todo[0]) && |net.out[todo[0]]| >= 0
      ensures Expanding(net, info, todo, expanded, |net.out[todo[0]]|)
      ensures (info == old(info) && todo == old(todo)) || Earlier(info, old(info), net.nodes, bound)
    {
      hide Ordered, Settled, Labelled, Network.HasRoute, Anchored, Tiered, Relayed, Preferring, Upgrades, Relaxed,
        Skipped, Earlier;
      var n := todo[0];
      var edges := net.out[n];
      for i := 0 to |edges|
        invariant Expanding(net, info, todo, expanded, i) && todo[0] == n
        invariant (info == old(info) && todo == old(todo)) || Earlier(info, old(info), net.nodes, bound)
      {
        ghost var before := info;
        ExamineStep(net, info, todo, expanded, i, bound);
        ExamineEdge(edges[i]);
        if !Skipped(net, before, edges[i]) && before != old(info) {
          EarlierTransitive(info, before, old(info), net.nodes, bound);
        }
      }
    }

    /** The LocalDiscovery pass. */
    method Localise(local: LocalDiscovery)
      requires net.WellFormed() && info.Keys == net.out.Keys && Sound(net, info) && Labelled(net, info)
                 && ShortestRoutes(net, info)
      modifies this`info
      ensures Sound(net, info) && Labelled(net, info) && ShortestRoutes(net, info) && info.Keys == old(info.Keys)
      ensures forall v :: v in info ==> info[v] == Localised(net, old(info), local, v)
    {
      hide Sound, Labelled, ShortestRoutes, Localised;
      for i := 0 to |net.nodes|
        invariant Sound(net, info) && Labelled(net, info) && ShortestRoutes(net, info) && info.Keys == old(info.Keys)
        invariant forall k :: 0 <= k < i ==>
                    net.nodes[k] in info && info[net.nodes[k]] == Localised(net, old(info), local, net.nodes[k])
        invariant forall k :: i <= k < |net.nodes| ==>
                    net.nodes[k] in info && info[net.nodes[k]] == old(info)[net.nodes[k]]
      {
        SameLan(net, info, old(info), local, net.nodes[i]);
        LocaliseOne(local, net.nodes[i]);
      }
    }

    method LocaliseOne(local: LocalDiscovery, v: Node)
      requires v in info && Sound(net, info) && Labelled(net, info) && ShortestRoutes(net, info)
      modifies this`info
      ensures Sound(net, info) && Labelled(net, info) && ShortestRoutes(net, info)
      ensures info == old(info)[v := Localised(net, old(info), local, v)]
    {
      hide Sound, Labelled, ShortestRoutes, OnLocalLan;
      if OnLocalLan(net, info, local, v) {
        LocaliseKeeps(net, info, local, v);
        info := info[v := info[v].(indirect := false, via := v)];
      }
    }

    /** The main loop: it ends, for every network and all weights. */
    method Exhaust() returns (ghost expanded: set<Node>)
      requires Inv(net, info, todo, {})
      modifies this
      ensures Inv(net, info, [], expanded) && info.Keys == old(info.Keys)
    {
      hide Ordered, Settled, Labelled, Anchored, Anchors, Unvisited, Heaviness, IndirectCount, Relaxed,
          Network.HasRoute, Tiered, Relayed, Preferring;
      ghost var bound := WeightBoundExists(net);
      expanded := {};
      HeavinessNonNegative(net, info, net.nodes, bound);
      while todo != []
        invariant Inv(net, info, todo, expanded)
        invariant info.Keys == old(info.Keys)
        invariant Heaviness(info, net.nodes, bound) >= 0
        decreases Unvisited(info, net.nodes), Heaviness(info, net.nodes, bound), IndirectCount(info, net.nodes), |todo|
      {
        ExamineStart(net, info, todo, expanded);
        ExamineNode(expanded, bound);
        ExamineDone(net, info, todo, expanded);
        expanded := expanded + {todo[0]};
        todo := todo[1..];
        HeavinessNonNegative(net, info, net.nodes, bound);
      }
    }

    /** The whole of sssp_bfs. */
    method SsspBfs(local: LocalDiscovery) returns (ghost searched: Table)
      requires net.WellFormed() && info.Keys == net.out.Keys
      modifies this
      ensures ShortestRoutes(net, info) && RoutingRules(net, info)
      ensures info.Keys == old(info.Keys) == searched.Keys
      ensures ShortestRoutes(net, searched) && RoutingRules(net, searched)
      ensures Relayed(net, searched) && DirectPreferred(net, searched)
      ensures forall v :: v in info ==>
                info[v] == if local.enabled then Localised(net, searched, local, v) else searched[v]
      ensures forall v :: v in info && searched[v].indirect ==>
                (!info[v].indirect <==>
                   && local.enabled && searched[v].visited && v in local.sharesLan && v !in local.connected
                   && v !in net.noDirect + net.remoteNoDirect && v != net.me && !AsksForRelay(net, v))
    {
      hide Ordered, Settled, Labelled, ShortestRoutes, RoutingRules, Relayed, Preferring, DirectPreferred,
        Anchored, Tiered, OnLocalLan, AsksForRelay;
      Reset();
      ghost var expanded := Exhaust();
      NoneWaiting(net, info, expanded);
      EmptyListIsShortest(net, info, expanded);
      searched := info;
      RulesFollow(net, info);
      if local.enabled {
        Localise(local);
        forall v | v in info && searched[v].indirect {
          LocalisedExactly(net, searched, local, v);
        }
      }
      RulesFollow(net, info);
    }
  }
}
