/** Forwarding hop by hop, each router by its own table, when all routers hold the same graph. */
module HopByHop {
  import opened Graphs
  import opened LinkState
  import opened Spf
  import opened SpfCorrect
  import opened Routes

  /** Every router computes on the graph `g`. */
  ghost predicate SameGraph(views: map<Rid, View>, g: Graph) {
    forall x :: x in views ==> views[x].self == x && views[x].Edges() == g
  }

  /** Each router of the trace hands on to a first hop that it could itself have computed towards `r`. */
  ghost predicate FollowsHops(views: map<Rid, View>, r: Rid, trace: seq<Rid>) {
    && trace != []
    && forall i :: 0 <= i < |trace| - 1 ==> trace[i] in views && FirstHop(views[trace[i]], r, trace[i + 1])
  }

  /** However ties are broken, each hop brings a packet one hop nearer, so no trace is longer than the distance. */
  lemma {:induction false} EachHopIsNearer(views: map<Rid, View>, g: Graph, r: Rid, trace: seq<Rid>, d: nat)
    requires SameGraph(views, g) && FollowsHops(views, r, trace) && Dist(g, trace[0], r, d)
    ensures |trace| <= d + 1
    ensures forall i :: 0 <= i < |trace| ==> Dist(g, trace[i], r, d - i)
    ensures |trace| == d + 1 ==> trace[d] == r
    decreases |trace|
  {
    if |trace| == 1 {
      if d == 0 {
        ReachZeroOnly(g, trace[0], r);
      }
    } else {
      var h := trace[1];
      var n: nat :| FirstHopIn(views[trace[0]], r, h, n);
      DistUnique(g, trace[0], r, d, n + 1);
      FirstHopIsNearer(g, trace[0], h, r, n);
      EachHopIsNearer(views, g, r, trace[1..], n);
      forall i | 0 <= i < |trace| ensures Dist(g, trace[i], r, d - i) {
        if i > 0 {
          assert trace[i] == trace[1..][i - 1];
        }
      }
      assert |trace| == d + 1 ==> trace[d] == trace[1..][n];
    }
  }

  lemma NoRepeats(views: map<Rid, View>, g: Graph, r: Rid, trace: seq<Rid>, d: nat, i: nat, j: nat)
    requires SameGraph(views, g) && FollowsHops(views, r, trace) && Dist(g, trace[0], r, d)
    requires i < j < |trace|
    ensures trace[i] != trace[j]
  {
    EachHopIsNearer(views, g, r, trace, d);
    DistDiffers(g, trace[i], trace[j], r, d - i, d - j);
  }

  /** Whom a router of `views` knows as a neighbour is a router of `views` itself. */
  ghost predicate Closed(views: map<Rid, View>, g: Graph) {
    forall e :: e in g && e.0 in views ==> e.1 in views
  }

  /** The trace has come to `r`, by `d` hops. */
  ghost predicate Arrived(trace: seq<Rid>, r: Rid, d: nat) {
    |trace| == d + 1 && trace[d] == r
  }

  ghost function Last(trace: seq<Rid>): Rid
    requires trace != []
  {
    trace[|trace| - 1]
  }

  lemma LastIsRouter(views: map<Rid, View>, g: Graph, r: Rid, trace: seq<Rid>)
    requires SameGraph(views, g) && Closed(views, g) && FollowsHops(views, r, trace) && trace[0] in views
    ensures Last(trace) in views
  {
    if |trace| > 1 {
      var x := trace[|trace| - 2];
      assert FirstHop(views[x], r, trace[|trace| - 2 + 1]);
      assert (x, Last(trace)) in g;
    }
  }

  lemma FirstHopExists(v: View, r: Rid, n: nat) returns (h: Rid)
    requires Dist(v.Edges(), v.self, r, n + 1)
    ensures FirstHop(v, r, h)
  {
    h := ReachFirst(v.Edges(), v.self, r, n);
    assert FirstHopIn(v, r, h, n);
  }

  /** A router has no first hop towards itself. */
  lemma NoHopHome(v: View, h: Rid)
    ensures !FirstHop(v, v.self, h)
  {
    ReachZero(v.Edges(), v.self);
  }

  lemma AppendHop(views: map<Rid, View>, r: Rid, trace: seq<Rid>, h: Rid)
    requires FollowsHops(views, r, trace)
    ensures FollowsHops(views, r, trace + [h]) <==> Last(trace) in views && FirstHop(views[Last(trace)], r, h)
  {
    var more, n := trace + [h], |trace| - 1;
    assert more[n] == Last(trace) && more[n + 1] == h;
    assert more[..n + 1] == trace;
  }

  lemma HopsLeft(views: map<Rid, View>, g: Graph, r: Rid, trace: seq<Rid>, d: nat) returns (n: nat)
    requires SameGraph(views, g) && FollowsHops(views, r, trace) && Dist(g, trace[0], r, d)
    ensures n == d + 1 - |trace| && Dist(g, Last(trace), r, n)
    ensures n == 0 <==> Arrived(trace, r, d)
    ensures n == 0 ==> Last(trace) == r
  {
    EachHopIsNearer(views, g, r, trace, d);
    n := d + 1 - |trace|;
  }

  /** A trace can be continued until it has arrived, and no further. */
  lemma HopsEndAtDestination(views: map<Rid, View>, g: Graph, r: Rid, trace: seq<Rid>, d: nat)
    requires SameGraph(views, g) && Closed(views, g) && FollowsHops(views, r, trace)
    requires trace[0] in views && Dist(g, trace[0], r, d)
    ensures (forall h :: !FollowsHops(views, r, trace + [h])) <==> Arrived(trace, r, d)
  {
    var n := HopsLeft(views, g, r, trace, d);
    LastIsRouter(views, g, r, trace);
    var v := views[Last(trace)];
    if n > 0 {
      var h := FirstHopExists(v, r, n - 1);
      AppendHop(views, r, trace, h);
    } else {
      forall h ensures !FollowsHops(views, r, trace + [h]) {
        NoHopHome(v, h);
        AppendHop(views, r, trace, h);
      }
    }
  }

  lemma PrependHop(views: map<Rid, View>, r: Rid, x: Rid, rest: seq<Rid>)
    requires x in views && FollowsHops(views, r, rest) && FirstHop(views[x], r, rest[0])
    ensures FollowsHops(views, r, [x] + rest)
  {
    var trace := [x] + rest;
    forall i | 0 <= i < |trace| - 1 ensures trace[i] in views && FirstHop(views[trace[i]], r, trace[i + 1]) {
      assert i > 0 ==> trace[i] == rest[i - 1] && trace[i + 1] == rest[i - 1 + 1];
    }
  }

  /** From every router that a walk joins to `r`, packets arrive in the least number of hops. */
  lemma {:induction false} HopsArrive(views: map<Rid, View>, g: Graph, r: Rid, x: Rid, d: nat)
    returns (trace: seq<Rid>)
    requires SameGraph(views, g) && Closed(views, g) && x in views && Dist(g, x, r, d)
    ensures FollowsHops(views, r, trace) && trace[0] == x && Arrived(trace, r, d)
    decreases d
  {
    if d == 0 {
      ReachZeroOnly(g, x, r);
      trace := [x];
    } else {
      var h := FirstHopExists(views[x], r, d - 1);
      var n: nat :| FirstHopIn(views[x], r, h, n);
      DistUnique(g, x, r, d, n + 1);
      FirstHopIsNearer(g, x, h, r, n);
      var rest := HopsArrive(views, g, r, h, n);
      PrependHop(views, r, x, rest);
      trace := [x] + rest;
    }
  }

  // ---------- by routing table entries ----------

  /** Neighbours on one interface that share an address are the same router. */
  ghost predicate AddressesTell(v: View) {
    forall i, a, b ::
      0 <= i < |v.ifaces| && 0 <= a < |v.ifaces[i].nbrs| && 0 <= b < |v.ifaces[i].nbrs| ==>
        v.ifaces[i].nbrs[a].ip == v.ifaces[i].nbrs[b].ip ==> v.ifaces[i].nbrs[a].id == v.ifaces[i].nbrs[b].id
  }

  /** Only router `r` advertises the subnet in this view. */
  ghost predicate OnlyFrom(v: View, r: Rid, dest: Ip, mask: Ip) {
    forall e :: 0 <= e < |v.lsdb| && Advertises(v.lsdb[e], dest, mask) ==> v.lsdb[e].rid == r
  }

  /** Some entry for the subnet leads over neighbour `h`. */
  ghost predicate TableHop(v: View, table: seq<RtEntry>, dest: Ip, mask: Ip, h: Rid) {
    exists i :: 0 <= i < |table| && SameSubnet(table[i], dest, mask) && Via(v, table[i], h)
  }

  lemma NotFromKernel(kernel: seq<RtEntry>, table: seq<RtEntry>, i: nat, dest: Ip, mask: Ip)
    requires kernel <= table && i < |table| && SameSubnet(table[i], dest, mask) && !HasRoute(kernel, dest, mask)
    ensures |kernel| <= i
  {
    assert forall k :: 0 <= k < |kernel| ==> table[k] == kernel[k];
  }

  /** A table entry for a subnet that only `r` advertises leads over a first hop towards `r`. */
  lemma TableHopIsFirstHop(v: View, kernel: seq<RtEntry>, table: seq<RtEntry>, r: Rid, dest: Ip, mask: Ip, h: Rid)
    requires GoodTable(v, kernel, table) && !HasRoute(kernel, dest, mask)
    requires AddressesTell(v) && OnlyFrom(v, r, dest, mask) && TableHop(v, table, dest, mask, h)
    ensures FirstHop(v, r, h)
  {
    var i :| 0 <= i < |table| && SameSubnet(table[i], dest, mask) && Via(v, table[i], h);
    NotFromKernel(kernel, table, i, dest, mask);
    assert ShortestRoute(v, table[i]);
    var e, f :| FirstAdvertiser(v, e, table[i].dest, table[i].mask)
      && FirstHop(v, v.lsdb[e].rid, f) && Via(v, table[i], f);
    assert v.lsdb[e].rid == r;
    var a :| FirstNbrAt(v.ifaces, table[i].iface, a, f) && v.ifaces[table[i].iface].nbrs[a].ip == table[i].gw;
    var b :| FirstNbrAt(v.ifaces, table[i].iface, b, h) && v.ifaces[table[i].iface].nbrs[b].ip == table[i].gw;
    assert f == h;
  }

  /** Each router forwards by its own table until the packet is at `r`. */
  ghost predicate FollowsTables(views: map<Rid, View>, tables: map<Rid, seq<RtEntry>>,
                                r: Rid, dest: Ip, mask: Ip, trace: seq<Rid>)
  {
    && trace != []
    && forall i :: 0 <= i < |trace| - 1 ==>
         && trace[i] != r && trace[i] in views && trace[i] in tables
         && TableHop(views[trace[i]], tables[trace[i]], dest, mask, trace[i + 1])
  }

  /** A table that mospf_dijkstra adds to kernel routes without the subnet, which only `r` advertises. */
  ghost predicate Computed(v: View, table: seq<RtEntry>, r: Rid, dest: Ip, mask: Ip) {
    && AddressesTell(v) && OnlyFrom(v, r, dest, mask)
    && exists kernel :: GoodTable(v, kernel, table) && !HasRoute(kernel, dest, mask)
  }

  /** Every router has such a table but `r`, which is attached to the subnet. */
  ghost predicate TablesComputed(views: map<Rid, View>, tables: map<Rid, seq<RtEntry>>, r: Rid, dest: Ip, mask: Ip) {
    forall x :: x in views && x != r ==> x in tables && Computed(views[x], tables[x], r, dest, mask)
  }

  lemma ComputedHop(v: View, table: seq<RtEntry>, r: Rid, dest: Ip, mask: Ip, h: Rid)
    requires Computed(v, table, r, dest, mask) && TableHop(v, table, dest, mask, h)
    ensures FirstHop(v, r, h)
  {
    var kernel :| GoodTable(v, kernel, table) && !HasRoute(kernel, dest, mask);
    TableHopIsFirstHop(v, kernel, table, r, dest, mask, h);
  }

  lemma TablesGiveHops(views: map<Rid, View>, tables: map<Rid, seq<RtEntry>>,
                       r: Rid, dest: Ip, mask: Ip, trace: seq<Rid>)
    requires TablesComputed(views, tables, r, dest, mask) && FollowsTables(views, tables, r, dest, mask, trace)
    ensures FollowsHops(views, r, trace)
  {
    forall i | 0 <= i < |trace| - 1 ensures FirstHop(views[trace[i]], r, trace[i + 1]) {
      ComputedHop(views[trace[i]], tables[trace[i]], r, dest, mask, trace[i + 1]);
    }
  }

  /** Each hop by the tables brings packets for a subnet that only `r` advertises one hop nearer to `r`. */
  lemma TablesLeadToAdvertiser(views: map<Rid, View>, g: Graph, tables: map<Rid, seq<RtEntry>>,
                               r: Rid, dest: Ip, mask: Ip, trace: seq<Rid>, d: nat)
    requires SameGraph(views, g) && TablesComputed(views, tables, r, dest, mask)
    requires FollowsTables(views, tables, r, dest, mask, trace) && Dist(g, trace[0], r, d)
    ensures |trace| <= d + 1
    ensures forall i :: 0 <= i < |trace| ==> Dist(g, trace[i], r, d - i)
    ensures |trace| == d + 1 ==> trace[d] == r
  {
    TablesGiveHops(views, tables, r, dest, mask, trace);
    EachHopIsNearer(views, g, r, trace, d);
  }

  // ---------- arrival ----------

  /** Until it is there, a packet never gets stuck: every router on the way has an entry to follow. */
  lemma HopExists(v: View, kernel: seq<RtEntry>, table: seq<RtEntry>, r: Rid, e: nat, k: nat, n: nat)
    requires GoodTable(v, kernel, table) && AllCovered(v, table, |v.lsdb|)
    requires e < |v.lsdb| && v.lsdb[e].rid == r && r != v.self && k < |v.lsdb[e].lsas|
    requires Dist(v.Edges(), v.self, r, n) && n < INT_MAX
    requires !HasRoute(kernel, v.lsdb[e].lsas[k].network, v.lsdb[e].lsas[k].mask)
    ensures exists h :: TableHop(v, table, v.lsdb[e].lsas[k].network, v.lsdb[e].lsas[k].mask, h)
  {
    var dest, mask := v.lsdb[e].lsas[k].network, v.lsdb[e].lsas[k].mask;
    assert Usable(v, e);
    assert Covered(v, table, e, |v.lsdb[e].lsas|);
    var i :| 0 <= i < |table| && SameSubnet(table[i], dest, mask);
    NotFromKernel(kernel, table, i, dest, mask);
    assert ShortestRoute(v, table[i]);
    var d, h :| FirstAdvertiser(v, d, table[i].dest, table[i].mask)
      && FirstHop(v, v.lsdb[d].rid, h) && Via(v, table[i], h);
    assert TableHop(v, table, dest, mask, h);
  }

  /** The database holds an advertisement of the subnet by `r`, and the table covers the whole database. */
  ghost predicate Complete(v: View, table: seq<RtEntry>, r: Rid, dest: Ip, mask: Ip) {
    && (exists e :: 0 <= e < |v.lsdb| && v.lsdb[e].rid == r && Advertises(v.lsdb[e], dest, mask))
    && AllCovered(v, table, |v.lsdb|)
  }

  ghost predicate TablesComplete(views: map<Rid, View>, tables: map<Rid, seq<RtEntry>>, r: Rid, dest: Ip, mask: Ip) {
    forall x :: x in views && x != r ==> x in tables && Complete(views[x], tables[x], r, dest, mask)
  }

  lemma CompleteHop(v: View, table: seq<RtEntry>, r: Rid, dest: Ip, mask: Ip, n: nat) returns (h: Rid)
    requires Computed(v, table, r, dest, mask) && Complete(v, table, r, dest, mask)
    requires v.self != r && Dist(v.Edges(), v.self, r, n) && n < INT_MAX
    ensures TableHop(v, table, dest, mask, h) && FirstHop(v, r, h)
  {
    var kernel :| GoodTable(v, kernel, table) && !HasRoute(kernel, dest, mask);
    var e :| 0 <= e < |v.lsdb| && v.lsdb[e].rid == r && Advertises(v.lsdb[e], dest, mask);
    var k :| 0 <= k < |v.lsdb[e].lsas| && v.lsdb[e].lsas[k].network == dest && v.lsdb[e].lsas[k].mask == mask;
    HopExists(v, kernel, table, r, e, k, n);
    h :| TableHop(v, table, dest, mask, h);
    ComputedHop(v, table, r, dest, mask, h);
  }

  lemma AppendTableHop(views: map<Rid, View>, tables: map<Rid, seq<RtEntry>>, r: Rid, dest: Ip, mask: Ip,
                       trace: seq<Rid>, h: Rid)
    requires FollowsTables(views, tables, r, dest, mask, trace)
    ensures var x := Last(trace);
      FollowsTables(views, tables, r, dest, mask, trace + [h])
      <==> x != r && x in views && x in tables && TableHop(views[x], tables[x], dest, mask, h)
  {
    var more, n := trace + [h], |trace| - 1;
    assert more[n] == Last(trace) && more[n + 1] == h;
    assert more[..n + 1] == trace;
  }

  /** A packet moves on until it has arrived, and no further: no trace gets stuck on the way. */
  lemma TablesEndAtAdvertiser(views: map<Rid, View>, g: Graph, tables: map<Rid, seq<RtEntry>>,
                              r: Rid, dest: Ip, mask: Ip, trace: seq<Rid>, d: nat)
    requires SameGraph(views, g) && Closed(views, g)
    requires TablesComputed(views, tables, r, dest, mask) && TablesComplete(views, tables, r, dest, mask)
    requires FollowsTables(views, tables, r, dest, mask, trace) && trace[0] in views
    requires Dist(g, trace[0], r, d) && d < INT_MAX
    ensures (forall h :: !FollowsTables(views, tables, r, dest, mask, trace + [h])) <==> Arrived(trace, r, d)
  {
    TablesGiveHops(views, tables, r, dest, mask, trace);
    var n := HopsLeft(views, g, r, trace, d);
    LastIsRouter(views, g, r, trace);
    var x := Last(trace);
    if n > 0 {
      ReachZero(g, r);
      var h := CompleteHop(views[x], tables[x], r, dest, mask, n);
      AppendTableHop(views, tables, r, dest, mask, trace, h);
    } else {
      forall h ensures !FollowsTables(views, tables, r, dest, mask, trace + [h]) {
        AppendTableHop(views, tables, r, dest, mask, trace, h);
      }
    }
  }

  lemma PrependTableHop(views: map<Rid, View>, tables: map<Rid, seq<RtEntry>>, r: Rid, dest: Ip, mask: Ip,
                        x: Rid, rest: seq<Rid>)
    requires x != r && x in views && x in tables && FollowsTables(views, tables, r, dest, mask, rest)
    requires TableHop(views[x], tables[x], dest, mask, rest[0])
    ensures FollowsTables(views, tables, r, dest, mask, [x] + rest)
  {
    var trace := [x] + rest;
    forall i | 0 <= i < |trace| - 1
      ensures trace[i] != r && trace[i] in views && trace[i] in tables
        && TableHop(views[trace[i]], tables[trace[i]], dest, mask, trace[i + 1])
    {
      assert i > 0 ==> trace[i] == rest[i - 1] && trace[i + 1] == rest[i - 1 + 1];
    }
  }

  /** From every router within reach, packets for the subnet arrive at `r` in the least number of hops. */
  lemma {:induction false} TablesArrive(views: map<Rid, View>, g: Graph, tables: map<Rid, seq<RtEntry>>,
                                        r: Rid, dest: Ip, mask: Ip, x: Rid, d: nat)
    returns (trace: seq<Rid>)
    requires SameGraph(views, g) && Closed(views, g)
    requires TablesComputed(views, tables, r, dest, mask) && TablesComplete(views, tables, r, dest, mask)
    requires x in views && Dist(g, x, r, d) && d < INT_MAX
    ensures FollowsTables(views, tables, r, dest, mask, trace) && trace[0] == x && Arrived(trace, r, d)
    decreases d
  {
    if d == 0 {
      ReachZeroOnly(g, x, r);
      trace := [x];
    } else {
      ReachZero(g, r);
      var h := CompleteHop(views[x], tables[x], r, dest, mask, d);
      var n: nat :| FirstHopIn(views[x], r, h, n);
      DistUnique(g, x, r, d, n + 1);
      FirstHopIsNearer(g, x, h, r, n);
      var rest := TablesArrive(views, g, tables, r, dest, mask, h, n);
      PrependTableHop(views, tables, r, dest, mask, x, rest);
      trace := [x] + rest;
    }
  }
}
