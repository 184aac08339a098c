/** The shortest-path computation: Dijkstra's algorithm over a list of nodes changed in place. */
module Spf {
  import opened Graphs
  import opened LinkState

  const INT_MAX := 2147483647

  datatype Node = Node(rid: Rid, cost: int, pre: Rid, visited: bool)

  ghost function Rids(nodes: seq<Node>): set<Rid> {
    set k | 0 <= k < |nodes| :: nodes[k].rid
  }

  ghost predicate UniqueNodes(nodes: seq<Node>) {
    forall a, b :: 0 <= a < b < |nodes| ==> nodes[a].rid != nodes[b].rid
  }

  // ---------- the node list before the main loop ----------

  ghost predicate FreshNode(v: View, n: Node) {
    && !n.visited
    && (n.cost == 0 <==> n.rid == v.self)
    && n.cost in {0, 1, INT_MAX}
    && (n.cost == 1 ==> n.pre == v.self && v.HasNbr(n.rid))
    && (n.cost == INT_MAX ==> n.pre == 0)
  }

  ghost predicate Fresh(v: View, nodes: seq<Node>) {
    UniqueNodes(nodes) && forall k :: 0 <= k < |nodes| ==> FreshNode(v, nodes[k])
  }

  ghost function DbRids(v: View, n: nat): set<Rid>
    requires n <= |v.lsdb|
  {
    set e | 0 <= e < n :: v.lsdb[e].rid
  }

  /** Every node with this id is at most one hop away, and there is one. */
  ghost predicate Near(nodes: seq<Node>, r: Rid) {
    r in Rids(nodes) && forall k :: 0 <= k < |nodes| && nodes[k].rid == r ==> nodes[k].cost <= 1
  }

  ghost predicate NearNbrs(nodes: seq<Node>, nbrs: seq<Nbr>) {
    forall j :: 0 <= j < |nbrs| ==> Near(nodes, nbrs[j].id)
  }

  method FindNode(nodes: seq<Node>, rid: Rid) returns (k: int)
    ensures -1 <= k < |nodes|
    ensures k == -1 ==> rid !in Rids(nodes)
    ensures k >= 0 ==> nodes[k].rid == rid && forall i :: 0 <= i < k ==> nodes[i].rid != rid
  {
    k := 0;
    while k < |nodes|
      invariant 0 <= k <= |nodes|
      invariant forall i :: 0 <= i < k ==> nodes[i].rid != rid
    {
      if nodes[k].rid == rid {
        return;
      }
      k := k + 1;
    }
    k := -1;
  }

  /** The nodes for the database entries, and one for this router if it has no entry. */
  method DatabaseNodes(v: View) returns (nodes: seq<Node>)
    requires DistinctRids(v.lsdb)
    ensures Fresh(v, nodes)
    ensures Rids(nodes) == DbRids(v, |v.lsdb|) + {v.self}
    ensures |nodes| <= |v.lsdb| + 1
  {
    nodes := [];
    for e := 0 to |v.lsdb|
      invariant |nodes| == e
      invariant forall k :: 0 <= k < e ==> nodes[k].rid == v.lsdb[k].rid
      invariant Fresh(v, nodes)
    {
      var rid := v.lsdb[e].rid;
      nodes := nodes + [Node(rid, if rid == v.self then 0 else INT_MAX, 0, false)];
    }
    assert Rids(nodes) == DbRids(v, |v.lsdb|);
    var selfAt := FindNode(nodes, v.self);
    if selfAt == -1 {
      ghost var before := nodes;
      nodes := nodes + [Node(v.self, 0, 0, false)];
      RidsAppend(before, Node(v.self, 0, 0, false));
    } else {
      assert nodes[selfAt].rid in Rids(nodes);
    }
  }

  lemma RidsAppend(nodes: seq<Node>, n: Node)
    ensures Rids(nodes + [n]) == Rids(nodes) + {n.rid}
  {
    var all := nodes + [n];
    forall r | r in Rids(nodes) + {n.rid} ensures r in Rids(all) {
      if r in Rids(nodes) {
        var k :| 0 <= k < |nodes| && nodes[k].rid == r;
        assert all[k].rid == r;
      } else {
        assert all[|nodes|].rid == r;
      }
    }
    forall r | r in Rids(all) ensures r in Rids(nodes) + {n.rid} {
      var k :| 0 <= k < |all| && all[k].rid == r;
      assert k < |nodes| ==> nodes[k].rid == r;
    }
  }

  lemma RidsUpdate(nodes: seq<Node>, k: nat, n: Node)
    requires k < |nodes| && n.rid == nodes[k].rid
    ensures Rids(nodes[k := n]) == Rids(nodes)
  {
    var all := nodes[k := n];
    assert forall i :: 0 <= i < |nodes| ==> all[i].rid == nodes[i].rid;
  }

  /** One neighbour becomes a node one hop away, unless it is this router. */
  method AddNeighbour(v: View, nodes: seq<Node>, id: Rid) returns (nodes': seq<Node>)
    requires Fresh(v, nodes) && v.self in Rids(nodes) && v.HasNbr(id)
    ensures Fresh(v, nodes')
    ensures Rids(nodes') == Rids(nodes) + {id}
    ensures |nodes'| <= |nodes| + 1
    ensures Near(nodes', id)
    ensures forall r :: Near(nodes, r) ==> Near(nodes', r)
  {
    nodes' := nodes;
    var k := FindNode(nodes, id);
    if k >= 0 {
      assert nodes[k].rid in Rids(nodes);
      if nodes[k].cost > 1 {
        nodes' := nodes[k := nodes[k].(cost := 1, pre := v.self)];
        RidsUpdate(nodes, k, nodes'[k]);
      }
    } else {
      var n := Node(id, 1, v.self, false);
      nodes' := nodes + [n];
      RidsAppend(nodes, n);
      assert forall i :: 0 <= i < |nodes| ==> nodes[i].rid in Rids(nodes);
    }
  }

  ghost function NbrCount(ifaces: seq<Iface>): nat {
    if ifaces == [] then 0 else NbrCount(ifaces[..|ifaces| - 1]) + |ifaces[|ifaces| - 1].nbrs|
  }

  /** Steps 1 to 3 of mospf_dijkstra: database entries, this router, then all neighbours. */
  method InitialNodes(v: View) returns (nodes: seq<Node>)
    requires DistinctRids(v.lsdb)
    ensures Fresh(v, nodes)
    ensures DbRids(v, |v.lsdb|) + {v.self} <= Rids(nodes)
    ensures forall r :: r in Rids(nodes) ==> r in DbRids(v, |v.lsdb|) + {v.self} || v.HasNbr(r)
    ensures forall r :: v.HasNbr(r) ==> Near(nodes, r)
    ensures |nodes| <= |v.lsdb| + 1 + NbrCount(v.ifaces)
  {
    nodes := DatabaseNodes(v);
    for i := 0 to |v.ifaces|
      invariant Fresh(v, nodes)
      invariant DbRids(v, |v.lsdb|) + {v.self} <= Rids(nodes)
      invariant forall r :: r in Rids(nodes) ==> r in DbRids(v, |v.lsdb|) + {v.self} || v.HasNbr(r)
      invariant forall a :: 0 <= a < i ==> NearNbrs(nodes, v.ifaces[a].nbrs)
      invariant |nodes| <= |v.lsdb| + 1 + NbrCount(v.ifaces[..i])
    {
      var nbrs := v.ifaces[i].nbrs;
      for j := 0 to |nbrs|
        invariant Fresh(v, nodes)
        invariant DbRids(v, |v.lsdb|) + {v.self} <= Rids(nodes)
        invariant forall r :: r in Rids(nodes) ==> r in DbRids(v, |v.lsdb|) + {v.self} || v.HasNbr(r)
        invariant forall a :: 0 <= a < i ==> NearNbrs(nodes, v.ifaces[a].nbrs)
        invariant NearNbrs(nodes, nbrs[..j])
        invariant |nodes| <= |v.lsdb| + 1 + NbrCount(v.ifaces[..i]) + j
      {
        nodes := AddNeighbour(v, nodes, nbrs[j].id);
      }
      assert nbrs[..|nbrs|] == nbrs;
      assert v.ifaces[..i + 1][..i] == v.ifaces[..i];
    }
    assert v.ifaces[..|v.ifaces|] == v.ifaces;
    forall r | v.HasNbr(r) ensures Near(nodes, r) {
      var i, j :| 0 <= i < |v.ifaces| && 0 <= j < |v.ifaces[i].nbrs| && v.ifaces[i].nbrs[j].id == r;
      assert NearNbrs(nodes, v.ifaces[i].nbrs);
    }
  }

  // ---------- the main loop ----------

  ghost predicate ParentOf(v: View, p: Node, n: Node) {
    p.rid == n.pre && p.cost + 1 == n.cost && (p.rid, n.rid) in v.Edges() && (p.visited || p.rid == v.self)
  }

  ghost predicate HasParent(v: View, nodes: seq<Node>, n: Node) {
    exists x :: 0 <= x < |nodes| && ParentOf(v, nodes[x], n)
  }

  /** A node's label is right as far as it goes: a walk of that length ends in an edge from its predecessor. */
  ghost predicate Labelled(v: View, nodes: seq<Node>, n: Node) {
    && 0 <= n.cost <= INT_MAX
    && (n.cost == 0 <==> n.rid == v.self)
    && (n.visited ==> n.cost < INT_MAX)
    && (n.cost == INT_MAX ==> n.pre == 0)
    && (n.cost < INT_MAX ==> ReachIn(v.Edges(), v.self, n.rid, n.cost))
    && (0 < n.cost < INT_MAX ==> HasParent(v, nodes, n))
  }

  ghost predicate AllLabelled(v: View, nodes: seq<Node>) {
    UniqueNodes(nodes) && forall k :: 0 <= k < |nodes| ==> Labelled(v, nodes, nodes[k])
  }

  /** Visited nodes are at most `c` hops away, the others at least `c`. */
  ghost predicate Frontier(nodes: seq<Node>, c: int) {
    forall k :: 0 <= k < |nodes| ==> if nodes[k].visited then nodes[k].cost <= c else c <= nodes[k].cost
  }

  ghost predicate Relaxed(v: View, nodes: seq<Node>, u: Node) {
    forall k :: 0 <= k < |nodes| && (u.rid, nodes[k].rid) in v.Edges() ==> nodes[k].cost <= u.cost + 1
  }

  /** All visited nodes are relaxed, but for the one at index `but`. */
  ghost predicate RelaxedBut(v: View, nodes: seq<Node>, but: int) {
    forall x :: 0 <= x < |nodes| && nodes[x].visited && x != but ==> Relaxed(v, nodes, nodes[x])
  }

  ghost predicate NbrsNear(v: View, nodes: seq<Node>) {
    forall k :: 0 <= k < |nodes| && v.HasNbr(nodes[k].rid) ==> nodes[k].cost <= 1
  }

  lemma NbrEdge(v: View, n: Rid)
    requires v.HasNbr(n) && n != v.self
    ensures (v.self, n) in v.Edges()
  {
    var i, j :| 0 <= i < |v.ifaces| && 0 <= j < |v.ifaces[i].nbrs| && v.ifaces[i].nbrs[j].id == n;
  }

  lemma LsaEdge(v: View, e: nat, k: nat)
    requires e < |v.lsdb| && k < |v.lsdb[e].lsas| && v.lsdb[e].lsas[k].rid != v.lsdb[e].rid
    ensures (v.lsdb[e].rid, v.lsdb[e].lsas[k].rid) in v.Edges()
  {
  }

  lemma FreshIsLabelled(v: View, nodes: seq<Node>)
    requires Fresh(v, nodes) && v.self in Rids(nodes)
    requires forall r :: v.HasNbr(r) ==> Near(nodes, r)
    ensures LoopInv(v, nodes, 0, -1)
  {
    var s :| 0 <= s < |nodes| && nodes[s].rid == v.self;
    assert FreshNode(v, nodes[s]);
    forall k | 0 <= k < |nodes| ensures Labelled(v, nodes, nodes[k]) {
      assert FreshNode(v, nodes[k]);
      if nodes[k].cost == 0 {
        ReachZero(v.Edges(), v.self);
      } else if nodes[k].cost == 1 {
        NbrEdge(v, nodes[k].rid);
        ReachEdge(v.Edges(), v.self, nodes[k].rid);
        assert ParentOf(v, nodes[s], nodes[k]);
      }
    }
    forall k | 0 <= k < |nodes| && v.HasNbr(nodes[k].rid) ensures nodes[k].cost <= 1 {
      assert Near(nodes, nodes[k].rid);
    }
  }

  /** The first unvisited node of least finite cost, or -1. */
  method SelectMin(nodes: seq<Node>) returns (u: int)
    ensures -1 <= u < |nodes|
    ensures u == -1 ==> forall k :: 0 <= k < |nodes| && !nodes[k].visited ==> INT_MAX <= nodes[k].cost
    ensures u >= 0 ==> !nodes[u].visited && nodes[u].cost < INT_MAX
    ensures u >= 0 ==> forall k :: 0 <= k < |nodes| && !nodes[k].visited ==> nodes[u].cost <= nodes[k].cost
  {
    u := -1;
    var minCost := INT_MAX;
    for k := 0 to |nodes|
      invariant -1 <= u < k
      invariant u == -1 ==> minCost == INT_MAX
      invariant u >= 0 ==> !nodes[u].visited && nodes[u].cost == minCost < INT_MAX
      invariant forall i :: 0 <= i < k && !nodes[i].visited ==> minCost <= nodes[i].cost
    {
      if !nodes[k].visited && nodes[k].cost < minCost {
        minCost := nodes[k].cost;
        u := k;
      }
    }
  }

  method FindEntry(lsdb: seq<DbEntry>, rid: Rid) returns (e: int)
    ensures -1 <= e < |lsdb|
    ensures e == -1 ==> forall i :: 0 <= i < |lsdb| ==> lsdb[i].rid != rid
    ensures e >= 0 ==> lsdb[e].rid == rid && forall i :: 0 <= i < e ==> lsdb[i].rid != rid
  {
    e := 0;
    while e < |lsdb|
      invariant 0 <= e <= |lsdb|
      invariant forall i :: 0 <= i < e ==> lsdb[i].rid != rid
    {
      if lsdb[e].rid == rid {
        return;
      }
      e := e + 1;
    }
    e := -1;
  }

  function Visit(nodes: seq<Node>, u: nat): (nodes': seq<Node>)
    requires u < |nodes|
    ensures |nodes'| == |nodes| && forall i :: 0 <= i < |nodes| ==>
      nodes'[i].rid == nodes[i].rid && nodes'[i].cost == nodes[i].cost && nodes'[i].pre == nodes[i].pre
  {
    nodes[u := nodes[u].(visited := true)]
  }

  lemma VisitKeepsLabels(v: View, nodes: seq<Node>, u: nat)
    requires u < |nodes| && AllLabelled(v, nodes) && nodes[u].cost < INT_MAX
    ensures AllLabelled(v, Visit(nodes, u))
  {
    var nodes' := Visit(nodes, u);
    forall k | 0 <= k < |nodes'| ensures Labelled(v, nodes', nodes'[k]) {
      assert Labelled(v, nodes, nodes[k]);
      if 0 < nodes[k].cost < INT_MAX {
        var x :| 0 <= x < |nodes| && ParentOf(v, nodes[x], nodes[k]);
        assert ParentOf(v, nodes'[x], nodes'[k]);
      }
    }
  }

  lemma VisitKeepsRelaxed(v: View, nodes: seq<Node>, u: nat)
    requires u < |nodes| && RelaxedBut(v, nodes, -1) && NbrsNear(v, nodes)
    ensures RelaxedBut(v, Visit(nodes, u), u) && NbrsNear(v, Visit(nodes, u))
  {
    var nodes' := Visit(nodes, u);
    forall x | 0 <= x < |nodes'| && nodes'[x].visited && x != u ensures Relaxed(v, nodes', nodes'[x]) {
      assert Relaxed(v, nodes, nodes[x]);
    }
  }

  lemma VisitKeeps(v: View, nodes: seq<Node>, u: nat, c: int)
    requires u < |nodes| && LoopInv(v, nodes, c, -1)
    requires !nodes[u].visited && nodes[u].cost < INT_MAX
    requires forall k :: 0 <= k < |nodes| && !nodes[k].visited ==> nodes[u].cost <= nodes[k].cost
    ensures LoopInv(v, Visit(nodes, u), nodes[u].cost, u)
    ensures Rids(Visit(nodes, u)) == Rids(nodes)
  {
    VisitKeepsLabels(v, nodes, u);
    VisitKeepsRelaxed(v, nodes, u);
    RidsUpdate(nodes, u, Visit(nodes, u)[u]);
  }

  function Lowered(nodes: seq<Node>, u: nat, w: nat): (nodes': seq<Node>)
    requires u < |nodes| && w < |nodes|
    ensures |nodes'| == |nodes| && forall i :: 0 <= i < |nodes| ==>
      nodes'[i].rid == nodes[i].rid && nodes'[i].visited == nodes[i].visited
  {
    nodes[w := nodes[w].(cost := nodes[u].cost + 1, pre := nodes[u].rid)]
  }

  lemma LoweredLabel(v: View, nodes: seq<Node>, u: nat, w: nat)
    requires u < |nodes| && w < |nodes| && u != w
    requires Labelled(v, nodes, nodes[u]) && Labelled(v, nodes, nodes[w])
    requires nodes[u].visited && !nodes[w].visited && nodes[u].cost + 1 < nodes[w].cost
    requires (nodes[u].rid, nodes[w].rid) in v.Edges()
    ensures Labelled(v, Lowered(nodes, u, w), Lowered(nodes, u, w)[w])
  {
    var nodes' := Lowered(nodes, u, w);
    ReachAfter(v.Edges(), v.self, nodes[u].rid, nodes[w].rid, nodes[u].cost);
    assert ParentOf(v, nodes'[u], nodes'[w]);
  }

  lemma LoweredOthers(v: View, nodes: seq<Node>, u: nat, w: nat, k: nat)
    requires u < |nodes| && w < |nodes| && k < |nodes| && k != w
    requires !nodes[w].visited && nodes[w].rid != v.self
    requires Labelled(v, nodes, nodes[k])
    ensures Labelled(v, Lowered(nodes, u, w), Lowered(nodes, u, w)[k])
  {
    var nodes' := Lowered(nodes, u, w);
    if 0 < nodes[k].cost < INT_MAX {
      var x :| 0 <= x < |nodes| && ParentOf(v, nodes[x], nodes[k]);
      assert ParentOf(v, nodes'[x], nodes'[k]);
    }
  }

  ghost predicate LoopInv(v: View, nodes: seq<Node>, c: int, but: int) {
    AllLabelled(v, nodes) && Frontier(nodes, c) && RelaxedBut(v, nodes, but) && NbrsNear(v, nodes)
  }

  lemma LoweredLabels(v: View, nodes: seq<Node>, u: nat, w: nat)
    requires u < |nodes| && w < |nodes| && AllLabelled(v, nodes)
    requires nodes[u].visited && !nodes[w].visited && nodes[u].cost + 1 < nodes[w].cost
    requires (nodes[u].rid, nodes[w].rid) in v.Edges()
    ensures AllLabelled(v, Lowered(nodes, u, w))
  {
    var nodes' := Lowered(nodes, u, w);
    assert Labelled(v, nodes, nodes[u]) && Labelled(v, nodes, nodes[w]);
    forall k | 0 <= k < |nodes'| ensures Labelled(v, nodes', nodes'[k]) {
      assert Labelled(v, nodes, nodes[k]);
      if k == w {
        LoweredLabel(v, nodes, u, w);
      } else {
        LoweredOthers(v, nodes, u, w, k);
      }
    }
  }

  lemma LoweredRelaxed(v: View, nodes: seq<Node>, u: nat, w: nat)
    requires u < |nodes| && w < |nodes| && RelaxedBut(v, nodes, u) && NbrsNear(v, nodes)
    requires nodes[u].cost + 1 < nodes[w].cost && !nodes[w].visited
    ensures RelaxedBut(v, Lowered(nodes, u, w), u) && NbrsNear(v, Lowered(nodes, u, w))
  {
    var nodes' := Lowered(nodes, u, w);
    assert forall i :: 0 <= i < |nodes| ==> nodes'[i].cost <= nodes[i].cost;
    forall x | 0 <= x < |nodes'| && nodes'[x].visited && x != u ensures Relaxed(v, nodes', nodes'[x]) {
      assert Relaxed(v, nodes, nodes[x]);
    }
  }

  /** Lowering one unvisited node from the node being processed keeps all labels right. */
  lemma RelaxKeeps(v: View, nodes: seq<Node>, u: nat, w: nat)
    requires u < |nodes| && w < |nodes| && LoopInv(v, nodes, nodes[u].cost, u)
    requires nodes[u].visited && !nodes[w].visited && nodes[u].cost + 1 < nodes[w].cost
    requires (nodes[u].rid, nodes[w].rid) in v.Edges()
    ensures LoopInv(v, Lowered(nodes, u, w), nodes[u].cost, u)
    ensures Rids(Lowered(nodes, u, w)) == Rids(nodes)
  {
    LoweredLabels(v, nodes, u, w);
    LoweredRelaxed(v, nodes, u, w);
    RidsUpdate(nodes, w, Lowered(nodes, u, w)[w]);
  }

  /** Same nodes in the same places, none further away. */
  ghost predicate NoWorse(nodes: seq<Node>, nodes': seq<Node>) {
    |nodes'| == |nodes| && forall k :: 0 <= k < |nodes| ==>
      nodes'[k].rid == nodes[k].rid && nodes'[k].visited == nodes[k].visited && nodes'[k].cost <= nodes[k].cost
  }

  /** Every node with this id is at most `c` hops away. */
  ghost predicate Within(nodes: seq<Node>, r: Rid, c: int) {
    forall k :: 0 <= k < |nodes| && nodes[k].rid == r ==> nodes[k].cost <= c
  }

  ghost predicate WithinUpTo(nodes: seq<Node>, lsas: seq<Lsa>, n: nat, c: int) {
    n <= |lsas| && forall a :: 0 <= a < n ==> Within(nodes, lsas[a].rid, c)
  }

  lemma WithinNext(nodes: seq<Node>, nodes': seq<Node>, lsas: seq<Lsa>, n: nat, c: int)
    requires NoWorse(nodes, nodes') && n < |lsas|
    requires WithinUpTo(nodes, lsas, n, c) && Within(nodes', lsas[n].rid, c)
    ensures WithinUpTo(nodes', lsas, n + 1, c)
  {
    forall a | 0 <= a < n + 1 ensures Within(nodes', lsas[a].rid, c) {
      assert a < n ==> Within(nodes, lsas[a].rid, c);
    }
  }

  lemma NoWorseChain(a: seq<Node>, b: seq<Node>, c: seq<Node>)
    requires NoWorse(a, b) && NoWorse(b, c)
    ensures NoWorse(a, c)
  {
  }

  method RelaxOne(v: View, nodes: seq<Node>, u: nat, e: nat, i: nat) returns (nodes': seq<Node>)
    requires u < |nodes| && LoopInv(v, nodes, nodes[u].cost, u) && nodes[u].visited
    requires e < |v.lsdb| && v.lsdb[e].rid == nodes[u].rid && i < |v.lsdb[e].lsas|
    ensures NoWorse(nodes, nodes') && nodes'[u] == nodes[u] && Rids(nodes') == Rids(nodes)
    ensures LoopInv(v, nodes', nodes[u].cost, u)
    ensures Within(nodes', v.lsdb[e].lsas[i].rid, nodes[u].cost + 1)
  {
    nodes' := nodes;
    var w := FindNode(nodes, v.lsdb[e].lsas[i].rid);
    if w >= 0 {
      assert forall k :: 0 <= k < |nodes| && nodes[k].rid == nodes[w].rid ==> k == w;
      if !nodes[w].visited && nodes[u].cost + 1 < nodes[w].cost {
        assert Labelled(v, nodes, nodes[u]);
        LsaEdge(v, e, i);
        RelaxKeeps(v, nodes, u, w);
        nodes' := Lowered(nodes, u, w);
      }
    } else {
      assert forall k :: 0 <= k < |nodes| ==> nodes[k].rid in Rids(nodes);
    }
  }

  /** The inner loop over the advertisements of the node just visited. */
  method RelaxAll(v: View, nodes: seq<Node>, u: nat, e: nat) returns (nodes': seq<Node>)
    requires DistinctRids(v.lsdb)
    requires u < |nodes| && LoopInv(v, nodes, nodes[u].cost, u) && nodes[u].visited
    requires e < |v.lsdb| && v.lsdb[e].rid == nodes[u].rid
    ensures NoWorse(nodes, nodes') && Rids(nodes') == Rids(nodes)
    ensures LoopInv(v, nodes', nodes[u].cost, -1)
  {
    nodes' := nodes;
    for i := 0 to |v.lsdb[e].lsas|
      invariant NoWorse(nodes, nodes') && Rids(nodes') == Rids(nodes)
      invariant nodes'[u] == nodes[u]
      invariant LoopInv(v, nodes', nodes[u].cost, u)
      invariant WithinUpTo(nodes', v.lsdb[e].lsas, i, nodes[u].cost + 1)
    {
      ghost var before := nodes';
      nodes' := RelaxOne(v, nodes', u, e, i);
      WithinNext(before, nodes', v.lsdb[e].lsas, i, nodes[u].cost + 1);
      NoWorseChain(nodes, before, nodes');
    }
    DoneRelaxing(v, nodes', u, e);
  }

  /** Edges out of a node are those of its database entry, and for this router also those to neighbours. */
  lemma EdgesFrom(v: View, a: Rid, b: Rid)
    requires (a, b) in v.Edges()
    ensures a != b
    ensures (a == v.self && v.HasNbr(b))
      || exists e, k :: 0 <= e < |v.lsdb| && v.lsdb[e].rid == a
           && 0 <= k < |v.lsdb[e].lsas| && v.lsdb[e].lsas[k].rid == b
  {
  }

  lemma DoneRelaxing(v: View, nodes: seq<Node>, u: nat, e: nat)
    requires DistinctRids(v.lsdb)
    requires u < |nodes| && LoopInv(v, nodes, nodes[u].cost, u)
    requires e < |v.lsdb| && v.lsdb[e].rid == nodes[u].rid
    requires WithinUpTo(nodes, v.lsdb[e].lsas, |v.lsdb[e].lsas|, nodes[u].cost + 1)
    ensures LoopInv(v, nodes, nodes[u].cost, -1)
  {
    forall k | 0 <= k < |nodes| && (nodes[u].rid, nodes[k].rid) in v.Edges()
      ensures nodes[k].cost <= nodes[u].cost + 1
    {
      assert Labelled(v, nodes, nodes[u]);
      EdgesFrom(v, nodes[u].rid, nodes[k].rid);
      if !(nodes[u].rid == v.self && v.HasNbr(nodes[k].rid)) {
        var d, i :| 0 <= d < |v.lsdb| && v.lsdb[d].rid == nodes[u].rid && 0 <= i < |v.lsdb[d].lsas|
          && v.lsdb[d].lsas[i].rid == nodes[k].rid;
        assert d == e;
        assert Within(nodes, v.lsdb[e].lsas[i].rid, nodes[u].cost + 1);
      }
    }
  }

  lemma NothingToRelax(v: View, nodes: seq<Node>, u: nat)
    requires u < |nodes| && LoopInv(v, nodes, nodes[u].cost, u)
    requires forall e :: 0 <= e < |v.lsdb| ==> v.lsdb[e].rid != nodes[u].rid
    ensures LoopInv(v, nodes, nodes[u].cost, -1)
  {
    forall k | 0 <= k < |nodes| && (nodes[u].rid, nodes[k].rid) in v.Edges()
      ensures nodes[k].cost <= nodes[u].cost + 1
    {
      EdgesFrom(v, nodes[u].rid, nodes[k].rid);
      assert Labelled(v, nodes, nodes[u]);
    }
  }

  // ---------- the result ----------

  /** What the main loop leaves: labels, relaxed everywhere, and only unreached nodes unvisited. */
  ghost predicate Solved(v: View, nodes: seq<Node>) {
    && AllLabelled(v, nodes)
    && RelaxedBut(v, nodes, -1)
    && DbRids(v, |v.lsdb|) + {v.self} <= Rids(nodes)
    && (forall r :: r in Rids(nodes) ==> r in DbRids(v, |v.lsdb|) + {v.self} || v.HasNbr(r))
    && (forall r :: v.HasNbr(r) ==> r in Rids(nodes))
    && (forall k :: 0 <= k < |nodes| ==> (nodes[k].visited <==> nodes[k].cost < INT_MAX))
  }

  ghost function Unvisited(nodes: seq<Node>): set<int> {
    set k | 0 <= k < |nodes| && !nodes[k].visited
  }

  /** Each visit leaves fewer nodes unvisited. */
  lemma VisitShrinks(nodes: seq<Node>, u: nat)
    requires u < |nodes| && !nodes[u].visited
    ensures Unvisited(Visit(nodes, u)) < Unvisited(nodes)
  {
    assert u in Unvisited(nodes) && u !in Unvisited(Visit(nodes, u));
  }

  lemma NoWorseUnvisited(nodes: seq<Node>, nodes': seq<Node>)
    requires NoWorse(nodes, nodes')
    ensures Unvisited(nodes') == Unvisited(nodes)
  {
  }

  method Dijkstra(v: View) returns (nodes: seq<Node>)
    requires DistinctRids(v.lsdb)
    ensures Solved(v, nodes)
    ensures |nodes| <= |v.lsdb| + 1 + NbrCount(v.ifaces)
  {
    nodes := InitialNodes(v);
    FreshIsLabelled(v, nodes);
    ghost var rids, size := Rids(nodes), |nodes|;
    assert forall r :: v.HasNbr(r) ==> Near(nodes, r);
    ghost var c := 0;
    while true
      invariant LoopInv(v, nodes, c, -1) && Rids(nodes) == rids && |nodes| == size
      decreases Unvisited(nodes)
    {
      var u := SelectMin(nodes);
      if u == -1 {
        break;
      }
      VisitKeeps(v, nodes, u, c);
      VisitShrinks(nodes, u);
      nodes := Visit(nodes, u);
      c := nodes[u].cost;
      var e := FindEntry(v.lsdb, nodes[u].rid);
      if e == -1 {
        NothingToRelax(v, nodes, u);
      } else {
        ghost var before := nodes;
        nodes := RelaxAll(v, nodes, u, e);
        NoWorseUnvisited(before, nodes);
      }
    }
    assert forall k :: 0 <= k < |nodes| ==> Labelled(v, nodes, nodes[k]);
  }
}
