/** The labels left by the main loop are exact hop counts, and the predecessors lead back to a neighbour. */
module SpfCorrect {
  import opened Graphs
  import opened LinkState
  import opened Spf

  lemma NodeOf(nodes: seq<Node>, r: Rid) returns (k: nat)
    requires r in Rids(nodes)
    ensures k < |nodes| && nodes[k].rid == r
  {
    k :| 0 <= k < |nodes| && nodes[k].rid == r;
  }

  /** Where an edge starts there is a node. */
  lemma EdgeSource(v: View, nodes: seq<Node>, a: Rid, b: Rid)
    requires Solved(v, nodes) && (a, b) in v.Edges()
    ensures a in Rids(nodes)
  {
    EdgesFrom(v, a, b);
    if !(a == v.self && v.HasNbr(b)) {
      var e, k :| 0 <= e < |v.lsdb| && v.lsdb[e].rid == a && 0 <= k < |v.lsdb[e].lsas| && v.lsdb[e].lsas[k].rid == b;
      assert v.lsdb[e].rid in DbRids(v, |v.lsdb|);
    }
  }

  /** One relaxed edge. */
  lemma EdgeStep(v: View, nodes: seq<Node>, a: nat, b: nat)
    requires Solved(v, nodes) && a < |nodes| && b < |nodes|
    requires (nodes[a].rid, nodes[b].rid) in v.Edges()
    ensures nodes[b].cost <= nodes[a].cost + 1
  {
    assert Labelled(v, nodes, nodes[a]) && Labelled(v, nodes, nodes[b]);
    if nodes[a].cost < INT_MAX {
      assert Relaxed(v, nodes, nodes[a]);
    }
  }

  /** No label exceeds the length of any walk to its node. */
  lemma {:induction false} CostIsLeast(v: View, nodes: seq<Node>, k: nat, n: nat)
    requires Solved(v, nodes) && k < |nodes|
    requires ReachIn(v.Edges(), v.self, nodes[k].rid, n)
    ensures nodes[k].cost <= n
    decreases n
  {
    if n == 0 {
      ReachZeroOnly(v.Edges(), v.self, nodes[k].rid);
      assert Labelled(v, nodes, nodes[k]);
    } else {
      var b := ReachLast(v.Edges(), v.self, nodes[k].rid, n - 1);
      EdgeSource(v, nodes, b, nodes[k].rid);
      var x := NodeOf(nodes, b);
      CostIsLeast(v, nodes, x, n - 1);
      EdgeStep(v, nodes, x, k);
    }
  }

  /**
   Dijkstra is right: a finite cost is the least hop count, and a cost of INT_MAX means
   that no walk shorter than INT_MAX leads there.
   */
  lemma CostsAreHopCounts(v: View, nodes: seq<Node>, k: nat)
    requires Solved(v, nodes) && k < |nodes|
    ensures 0 <= nodes[k].cost <= INT_MAX
    ensures nodes[k].cost < INT_MAX ==> Dist(v.Edges(), v.self, nodes[k].rid, nodes[k].cost)
    ensures nodes[k].cost == INT_MAX ==>
      forall n: nat :: ReachIn(v.Edges(), v.self, nodes[k].rid, n) ==> INT_MAX <= n
  {
    assert Labelled(v, nodes, nodes[k]);
    forall n: nat | ReachIn(v.Edges(), v.self, nodes[k].rid, n) ensures nodes[k].cost <= n {
      CostIsLeast(v, nodes, k, n);
    }
  }

  // ---------- finite costs are below the number of nodes ----------

  /** A node at cost c has c nodes at smaller costs behind it. */
  lemma {:induction false} NodesBehind(v: View, nodes: seq<Node>, k: nat) returns (s: set<nat>)
    requires AllLabelled(v, nodes) && k < |nodes| && nodes[k].cost < INT_MAX
    ensures |s| == nodes[k].cost + 1
    ensures forall i :: i in s ==> i < |nodes| && nodes[i].cost <= nodes[k].cost
    decreases nodes[k].cost
  {
    assert Labelled(v, nodes, nodes[k]);
    if nodes[k].cost == 0 {
      s := {k};
    } else {
      var x :| 0 <= x < |nodes| && ParentOf(v, nodes[x], nodes[k]);
      assert Labelled(v, nodes, nodes[x]);
      var t := NodesBehind(v, nodes, x);
      s := t + {k};
    }
  }

  lemma {:induction false} SubsetOfRange(s: set<nat>, n: nat)
    requires forall i :: i in s ==> i < n
    ensures |s| <= n
  {
    if n == 0 {
      assert s == {};
    } else {
      SubsetOfRange(s - {n - 1}, n - 1);
    }
  }

  lemma CostBelowCount(v: View, nodes: seq<Node>, k: nat)
    requires AllLabelled(v, nodes) && k < |nodes| && nodes[k].cost < INT_MAX
    ensures nodes[k].cost < |nodes|
  {
    var s := NodesBehind(v, nodes, k);
    SubsetOfRange(s, |nodes|);
  }

  lemma {:induction false} ReachableIsFinite(v: View, nodes: seq<Node>, k: nat, n: nat)
    requires Solved(v, nodes) && k < |nodes| && |nodes| < INT_MAX
    requires ReachIn(v.Edges(), v.self, nodes[k].rid, n)
    ensures nodes[k].cost < INT_MAX
    decreases n
  {
    if n == 0 {
      ReachZeroOnly(v.Edges(), v.self, nodes[k].rid);
      assert Labelled(v, nodes, nodes[k]);
    } else {
      var b := ReachLast(v.Edges(), v.self, nodes[k].rid, n - 1);
      EdgeSource(v, nodes, b, nodes[k].rid);
      var x := NodeOf(nodes, b);
      ReachableIsFinite(v, nodes, x, n - 1);
      CostBelowCount(v, nodes, x);
      EdgeStep(v, nodes, x, k);
    }
  }

  /** With fewer than INT_MAX nodes, INT_MAX marks exactly the unreachable ones. */
  lemma IntMaxIsUnreachable(v: View, nodes: seq<Node>, k: nat)
    requires Solved(v, nodes) && k < |nodes| && |nodes| < INT_MAX
    ensures nodes[k].cost == INT_MAX <==> !exists n: nat :: ReachIn(v.Edges(), v.self, nodes[k].rid, n)
  {
    assert Labelled(v, nodes, nodes[k]);
    if n: nat :| ReachIn(v.Edges(), v.self, nodes[k].rid, n) {
      ReachableIsFinite(v, nodes, k, n);
    }
  }

  // ---------- following the predecessors back ----------

  /** `h` is the first hop of a shortest path of `n + 1` hops from this router to `r`. */
  ghost predicate FirstHopIn(v: View, r: Rid, h: Rid, n: nat) {
    Dist(v.Edges(), v.self, r, n + 1) && (v.self, h) in v.Edges() && ReachIn(v.Edges(), h, r, n)
  }

  ghost predicate FirstHop(v: View, r: Rid, h: Rid) {
    exists n: nat :: FirstHopIn(v, r, h, n)
  }

  /** The index a search for `r` finds in the node list, or -1. */
  ghost function Place(nodes: seq<Node>, r: Rid): (k: int)
    ensures -1 <= k < |nodes|
    ensures k == -1 <==> r !in Rids(nodes)
    ensures k >= 0 ==> nodes[k].rid == r
  {
    if r in Rids(nodes) then
      var k :| 0 <= k < |nodes| && nodes[k].rid == r; k
    else -1
  }

  /** How many steps back are left: at most the cost, plus one. */
  ghost function Behind(nodes: seq<Node>, r: Rid): int {
    if Place(nodes, r) == -1 then 0 else nodes[Place(nodes, r)].cost + 1
  }

  lemma NodesAreReal(v: View, nodes: seq<Node>, r: Rid)
    requires Solved(v, nodes) && v.RealIds() && r in Rids(nodes) && r != v.self
    ensures RealId(r)
  {
    if r in DbRids(v, |v.lsdb|) {
      var e :| 0 <= e < |v.lsdb| && v.lsdb[e].rid == r;
    } else {
      assert v.HasNbr(r);
      var i, j :| 0 <= i < |v.ifaces| && 0 <= j < |v.ifaces[i].nbrs| && v.ifaces[i].nbrs[j].id == r;
    }
  }

  /** The walk back has come from node `s` to node `x`. */
  ghost predicate CameTo(v: View, nodes: seq<Node>, s: nat, x: nat)
    requires s < |nodes|
  {
    && x < |nodes|
    && 1 <= nodes[x].cost <= nodes[s].cost
    && ReachIn(v.Edges(), nodes[x].rid, nodes[s].rid, nodes[s].cost - nodes[x].cost)
  }

  /** Where the walk back stands: on the way from `s`, or off the list when that is unreached. */
  ghost predicate OnTheWay(v: View, nodes: seq<Node>, s: nat, curr: Rid)
    requires s < |nodes|
  {
    if nodes[s].cost == INT_MAX then curr == nodes[s].rid || curr == 0
    else curr in Rids(nodes) && CameTo(v, nodes, s, Place(nodes, curr))
  }

  lemma PlaceOf(nodes: seq<Node>, k: nat)
    requires UniqueNodes(nodes) && k < |nodes|
    ensures nodes[k].rid in Rids(nodes) && Place(nodes, nodes[k].rid) == k
  {
    assert nodes[k].rid in Rids(nodes);
  }

  lemma ParentCameTo(v: View, nodes: seq<Node>, s: nat, k: nat, p: nat)
    requires s < |nodes| && k < |nodes| && p < |nodes| && CameTo(v, nodes, s, k)
    requires ParentOf(v, nodes[p], nodes[k]) && 0 < nodes[p].cost
    ensures CameTo(v, nodes, s, p)
  {
    var n := nodes[s].cost - nodes[k].cost;
    ReachBefore(v.Edges(), nodes[p].rid, nodes[k].rid, nodes[s].rid, n);
    assert n + 1 == nodes[s].cost - nodes[p].cost;
  }

  lemma StepBack(v: View, nodes: seq<Node>, s: nat, k: nat)
    requires Solved(v, nodes) && v.RealIds() && s < |nodes| && nodes[s].cost < INT_MAX && CameTo(v, nodes, s, k)
    ensures nodes[k].pre == v.self ==> nodes[k].cost == 1 && (v.self, nodes[k].rid) in v.Edges()
    ensures nodes[k].pre != v.self ==>
      nodes[k].pre != 0xFFFF_FFFF && OnTheWay(v, nodes, s, nodes[k].pre)
      && Behind(nodes, nodes[k].pre) == nodes[k].cost
  {
    assert Labelled(v, nodes, nodes[k]);
    var p :| 0 <= p < |nodes| && ParentOf(v, nodes[p], nodes[k]);
    assert Labelled(v, nodes, nodes[p]);
    PlaceOf(nodes, p);
    if nodes[k].pre != v.self {
      ParentCameTo(v, nodes, s, k, p);
      NodesAreReal(v, nodes, nodes[p].rid);
    }
  }

  /** The search back for the router next to this one on the way to `start`; 0 when there is none. */
  method Backtrace(v: View, nodes: seq<Node>, start: Rid) returns (prev: Rid)
    requires Solved(v, nodes) && v.RealIds() && start in Rids(nodes) && start != v.self
    ensures var c := nodes[Place(nodes, start)].cost;
      if c < INT_MAX then 1 <= c && FirstHopIn(v, start, prev, c - 1) else prev == 0
  {
    ghost var s: nat := Place(nodes, start);
    assert UniqueNodes(nodes);
    assert Labelled(v, nodes, nodes[s]);
    CostsAreHopCounts(v, nodes, s);
    var curr := start;
    ReachZero(v.Edges(), start);
    assert OnTheWay(v, nodes, s, curr);
    while true
      invariant curr != v.self
      invariant OnTheWay(v, nodes, s, curr)
      decreases Behind(nodes, curr)
    {
      var k := FindNode(nodes, curr);
      if k == -1 {
        return curr;
      }
      PlaceOf(nodes, k);
      if nodes[s].cost < INT_MAX {
        StepBack(v, nodes, s, k);
      } else {
        UnreachedEnds(v, nodes, s, k);
      }
      if nodes[k].pre == v.self || nodes[k].pre == 0xFFFF_FFFF {
        return curr;
      }
      curr := nodes[k].pre;
    }
  }

  lemma UnreachedEnds(v: View, nodes: seq<Node>, s: nat, k: nat)
    requires Solved(v, nodes) && v.RealIds() && s < |nodes| && k < |nodes|
    requires nodes[s].cost == INT_MAX && nodes[k].rid != v.self && OnTheWay(v, nodes, s, nodes[k].rid)
    ensures k == s && nodes[k].pre == 0 && 0 !in Rids(nodes)
    ensures Behind(nodes, 0) < Behind(nodes, nodes[k].rid)
  {
    assert Labelled(v, nodes, nodes[s]) && UniqueNodes(nodes);
    if 0 in Rids(nodes) {
      NodesAreReal(v, nodes, 0);
    }
    assert nodes[k].rid in Rids(nodes);
  }
}
