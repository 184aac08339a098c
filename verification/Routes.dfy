/** From the shortest-path labels to routing table entries. */
module Routes {
  import opened Graphs
  import opened LinkState
  import opened Spf
  import opened SpfCorrect

  /** `gw` is the next hop's address; `iface` the index of the interface it lies behind. */
  datatype RtEntry = RtEntry(dest: Ip, mask: Ip, gw: Ip, iface: nat)

  ghost predicate InReach(v: View, r: Rid) {
    exists n: nat :: n < INT_MAX && ReachIn(v.Edges(), v.self, r, n)
  }

  ghost predicate Offers(lsas: seq<Lsa>, network: Ip, mask: Ip) {
    exists k :: 0 <= k < |lsas| && lsas[k].network == network && lsas[k].mask == mask
  }

  ghost predicate Advertises(e: DbEntry, dest: Ip, mask: Ip) {
    Offers(e.lsas, dest, mask)
  }

  /** A database entry that routes are made for: another router, within reach. */
  ghost predicate Usable(v: View, e: int) {
    0 <= e < |v.lsdb| && v.lsdb[e].rid != v.self && InReach(v, v.lsdb[e].rid)
  }

  /** The first usable router in database order that advertises the subnet. */
  ghost predicate FirstAdvertiser(v: View, e: int, dest: Ip, mask: Ip) {
    && Usable(v, e) && Advertises(v.lsdb[e], dest, mask)
    && forall d :: 0 <= d < e && Usable(v, d) ==> !Advertises(v.lsdb[d], dest, mask)
  }

  /** Position (i, j) is where a search of the neighbour lists, interface by interface, finds `id`. */
  ghost predicate FirstNbrAt(ifaces: seq<Iface>, i: int, j: int, id: Rid) {
    && 0 <= i < |ifaces| && 0 <= j < |ifaces[i].nbrs| && ifaces[i].nbrs[j].id == id
    && (forall b :: 0 <= b < j ==> ifaces[i].nbrs[b].id != id)
    && (forall a, b :: 0 <= a < i && 0 <= b < |ifaces[a].nbrs| ==> ifaces[a].nbrs[b].id != id)
  }

  /** The entry leads over the neighbour with router id `h`. */
  ghost predicate Via(v: View, t: RtEntry, h: Rid) {
    exists j :: FirstNbrAt(v.ifaces, t.iface, j, h) && v.ifaces[t.iface].nbrs[j].ip == t.gw
  }

  /** The entry names the first hop of a shortest path to the first router that advertises its subnet. */
  ghost predicate ShortestRoute(v: View, t: RtEntry) {
    exists e, h :: FirstAdvertiser(v, e, t.dest, t.mask) && FirstHop(v, v.lsdb[e].rid, h) && Via(v, t, h)
  }

  ghost predicate SameSubnet(t: RtEntry, dest: Ip, mask: Ip) {
    t.dest == dest && t.mask == mask
  }

  ghost predicate HasRoute(table: seq<RtEntry>, dest: Ip, mask: Ip) {
    exists i :: 0 <= i < |table| && SameSubnet(table[i], dest, mask)
  }

  /** The first `n` subnets of database entry `e` have routes. */
  ghost predicate Covered(v: View, table: seq<RtEntry>, e: nat, n: nat) {
    e < |v.lsdb| && n <= |v.lsdb[e].lsas| && forall k :: 0 <= k < n ==>
      HasRoute(table, v.lsdb[e].lsas[k].network, v.lsdb[e].lsas[k].mask)
  }

  /** What was added to the kernel's routes: only right entries, none for a subnet that had one. */
  ghost predicate GoodTable(v: View, kernel: seq<RtEntry>, table: seq<RtEntry>) {
    && kernel <= table
    && (forall i :: |kernel| <= i < |table| ==> ShortestRoute(v, table[i]))
    && (forall i, j :: 0 <= i < j < |table| && |kernel| <= j ==>
          !SameSubnet(table[i], table[j].dest, table[j].mask))
  }

  ghost predicate AllCovered(v: View, table: seq<RtEntry>, n: int) {
    forall e: nat :: e < n && Usable(v, e) ==> Covered(v, table, e, |v.lsdb[e].lsas|)
  }

  method FindNbr(ifaces: seq<Iface>, id: Rid) returns (i: int, j: int)
    ensures i == -1 ==> forall a, b :: 0 <= a < |ifaces| && 0 <= b < |ifaces[a].nbrs| ==> ifaces[a].nbrs[b].id != id
    ensures i != -1 ==> FirstNbrAt(ifaces, i, j, id)
  {
    i, j := 0, 0;
    while i < |ifaces|
      invariant 0 <= i <= |ifaces|
      invariant forall a, b :: 0 <= a < i && 0 <= b < |ifaces[a].nbrs| ==> ifaces[a].nbrs[b].id != id
    {
      j := 0;
      while j < |ifaces[i].nbrs|
        invariant 0 <= j <= |ifaces[i].nbrs|
        invariant forall b :: 0 <= b < j ==> ifaces[i].nbrs[b].id != id
      {
        if ifaces[i].nbrs[j].id == id {
          return;
        }
        j := j + 1;
      }
      i := i + 1;
    }
    i := -1;
  }

  method FindRoute(table: seq<RtEntry>, dest: Ip, mask: Ip) returns (found: bool)
    ensures found <==> HasRoute(table, dest, mask)
  {
    found := false;
    for i := 0 to |table|
      invariant !found && forall k :: 0 <= k < i ==> !SameSubnet(table[k], dest, mask)
    {
      if table[i].dest == dest && table[i].mask == mask {
        return true;
      }
    }
  }

  /** A node's cost says whether its router is within reach. */
  lemma CostTellsReach(v: View, nodes: seq<Node>, r: Rid)
    requires Solved(v, nodes) && r in Rids(nodes)
    ensures nodes[Place(nodes, r)].cost < INT_MAX <==> InReach(v, r)
  {
    var k := Place(nodes, r);
    assert Labelled(v, nodes, nodes[k]);
    if n: nat :| n < INT_MAX && ReachIn(v.Edges(), v.self, r, n) {
      CostIsLeast(v, nodes, k, n);
    }
  }

  lemma HopIsNbr(v: View, h: Rid)
    requires v.NoSelfEntry() && (v.self, h) in v.Edges()
    ensures v.HasNbr(h)
  {
    EdgesFrom(v, v.self, h);
  }

  /** The next hop towards a database entry's router: its place in the neighbour lists, or -1. */
  method NextHop(v: View, nodes: seq<Node>, e: nat) returns (i: int, j: int)
    requires Solved(v, nodes) && v.RealIds() && v.NoSelfEntry() && e < |v.lsdb|
    ensures i == -1 <==> !InReach(v, v.lsdb[e].rid)
    ensures i != -1 ==> exists h :: FirstHop(v, v.lsdb[e].rid, h) && FirstNbrAt(v.ifaces, i, j, h)
  {
    var rid := v.lsdb[e].rid;
    assert rid in DbRids(v, |v.lsdb|);
    var prev := Backtrace(v, nodes, rid);
    CostTellsReach(v, nodes, rid);
    i, j := FindNbr(v.ifaces, prev);
    if InReach(v, rid) {
      HopIsNbr(v, prev);
      assert FirstHop(v, rid, prev);
    }
  }

  lemma AppendRoute(v: View, kernel: seq<RtEntry>, table: seq<RtEntry>, t: RtEntry)
    requires GoodTable(v, kernel, table) && ShortestRoute(v, t) && !HasRoute(table, t.dest, t.mask)
    ensures GoodTable(v, kernel, table + [t])
    ensures HasRoute(table + [t], t.dest, t.mask)
  {
    var table' := table + [t];
    assert SameSubnet(table'[|table|], t.dest, t.mask);
    forall i | |kernel| <= i < |table'| ensures ShortestRoute(v, table'[i]) {
      assert i < |table| ==> table'[i] == table[i];
    }
  }

  lemma CoveredGrows(v: View, table: seq<RtEntry>, t: RtEntry, e: nat, n: nat)
    requires Covered(v, table, e, n)
    ensures Covered(v, table + [t], e, n)
  {
    forall k | 0 <= k < n ensures HasRoute(table + [t], v.lsdb[e].lsas[k].network, v.lsdb[e].lsas[k].mask) {
      var i :| 0 <= i < |table| && SameSubnet(table[i], v.lsdb[e].lsas[k].network, v.lsdb[e].lsas[k].mask);
      assert (table + [t])[i] == table[i];
    }
  }

  lemma AllCoveredGrows(v: View, table: seq<RtEntry>, t: RtEntry, n: nat)
    requires AllCovered(v, table, n)
    ensures AllCovered(v, table + [t], n)
  {
    forall e: nat | e < n && Usable(v, e) ensures Covered(v, table + [t], e, |v.lsdb[e].lsas|) {
      CoveredGrows(v, table, t, e, |v.lsdb[e].lsas|);
    }
  }

  /** A subnet without a route so far was advertised by none of the routers already covered. */
  lemma UncoveredIsFirst(v: View, table: seq<RtEntry>, e: nat, k: nat)
    requires Usable(v, e) && k < |v.lsdb[e].lsas| && AllCovered(v, table, e)
    requires !HasRoute(table, v.lsdb[e].lsas[k].network, v.lsdb[e].lsas[k].mask)
    ensures FirstAdvertiser(v, e, v.lsdb[e].lsas[k].network, v.lsdb[e].lsas[k].mask)
  {
    var dest, mask := v.lsdb[e].lsas[k].network, v.lsdb[e].lsas[k].mask;
    forall d: int | 0 <= d < e && Usable(v, d) ensures !Advertises(v.lsdb[d], dest, mask) {
      assert Covered(v, table, d, |v.lsdb[d].lsas|);
    }
  }

  /** One subnet of one database entry. */
  method AddRoute(v: View, nodes: seq<Node>, kernel: seq<RtEntry>, table: seq<RtEntry>, e: nat, k: nat)
    returns (table': seq<RtEntry>)
    requires Solved(v, nodes) && v.RealIds() && v.NoSelfEntry()
    requires e < |v.lsdb| && k < |v.lsdb[e].lsas|
    requires GoodTable(v, kernel, table) && AllCovered(v, table, e) && (Usable(v, e) ==> Covered(v, table, e, k))
    ensures GoodTable(v, kernel, table') && AllCovered(v, table', e) && (Usable(v, e) ==> Covered(v, table', e, k + 1))
  {
    table' := table;
    var dest, mask := v.lsdb[e].lsas[k].network, v.lsdb[e].lsas[k].mask;
    var i, j := NextHop(v, nodes, e);
    if i != -1 {
      var found := FindRoute(table, dest, mask);
      if !found {
        var t := RtEntry(dest, mask, v.ifaces[i].nbrs[j].ip, i);
        UncoveredIsFirst(v, table, e, k);
        ghost var h :| FirstHop(v, v.lsdb[e].rid, h) && FirstNbrAt(v.ifaces, i, j, h);
        assert Via(v, t, h);
        AppendRoute(v, kernel, table, t);
        AllCoveredGrows(v, table, t, e);
        CoveredGrows(v, table, t, e, k);
        table' := table + [t];
      }
    }
  }

  /** Step 5 of mospf_dijkstra. */
  method BuildRoutes(v: View, nodes: seq<Node>, kernel: seq<RtEntry>) returns (table: seq<RtEntry>)
    requires Solved(v, nodes) && v.RealIds() && v.NoSelfEntry()
    ensures GoodTable(v, kernel, table)
    ensures AllCovered(v, table, |v.lsdb|)
  {
    table := kernel;
    for e := 0 to |v.lsdb|
      invariant GoodTable(v, kernel, table) && AllCovered(v, table, e)
    {
      if v.lsdb[e].rid != v.self {
        for k := 0 to |v.lsdb[e].lsas|
          invariant GoodTable(v, kernel, table) && AllCovered(v, table, e)
          invariant Usable(v, e) ==> Covered(v, table, e, k)
        {
          table := AddRoute(v, nodes, kernel, table, e, k);
        }
      }
    }
  }

  /** mospf_dijkstra: the kernel's routes, and a shortest-path route for every other subnet within reach. */
  method ComputeRoutes(v: View, kernel: seq<RtEntry>) returns (table: seq<RtEntry>)
    requires DistinctRids(v.lsdb) && v.RealIds() && v.NoSelfEntry()
    ensures GoodTable(v, kernel, table)
    ensures AllCovered(v, table, |v.lsdb|)
  {
    var nodes := Dijkstra(v);
    table := BuildRoutes(v, nodes, kernel);
  }
}
