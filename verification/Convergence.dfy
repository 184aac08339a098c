/**
 The whole protocol: once every router has originated and flooding has died out, all
 routers compute on the same graph, the true one, and forwarding follows shortest paths.
 */
module Convergence {
  import opened Graphs
  import opened LinkState
  import opened Spf
  import opened SpfCorrect
  import opened Routes
  import opened Routers
  import opened RouterDaemon
  import opened Network
  import opened FloodCoverage
  import Agreement
  import HopByHop
  import Delivery

  /** Any two routers are joined by a simple path of at most 255 links. */
  ghost predicate Joined(net: Net) {
    forall a, b :: a in net.routers && b in net.routers && a != b ==> HasPath(net, a, b)
  }

  ghost predicate HasPath(net: Net, a: Rid, b: Rid) {
    exists p :: PathFromTo(net, p, a, b)
  }

  ghost predicate PathFromTo(net: Net, p: seq<Rid>, a: Rid, b: Rid) {
    SimplePath(net, p) && p[0] == a && p[|p| - 1] == b && |p| - 1 <= MAX_LSU_TTL
  }

  ghost predicate AllOriginate(net: Net, steps: seq<Step>) {
    forall r :: r in net.routers ==> Originate(r) in steps
  }

  /** Since `net0` no neighbour changed, so whatever was originated since describes the present neighbours. */
  ghost predicate Current(net0: Net, net: Net) {
    && SameWiring(net0, net)
    && (forall r :: r in net0.routers ==> net0.routers[r].seqNum <= net.routers[r].seqNum)
    && (forall o :: o in net.origins && o.rid in net0.routers && net0.routers[o.rid].seqNum <= o.seqNo ==>
          o.lsas == LsaArray(o.rid, net0.routers[o.rid].ifaces))
  }

  lemma StartIsCurrent(net: Net)
    requires Agreement.Inv(net)
    ensures Current(net, net)
  {
    assert forall o :: o in net.origins ==> Agreement.Genuine(net, o);
  }

  lemma StepKeepsCurrent(net0: Net, net: Net, step: Step)
    requires Agreement.Inv(net) && Current(net0, net)
    requires Enabled(net, step) && LosesNothing(step)
    ensures Current(net0, Apply(net, step))
  {
    var net' := Apply(net, step);
    StepKeepsWiring(net, step);
    if step.Originate? {
      assert Agreement.SoundRouter(net, step.r);
    }
  }

  lemma StepKeepsSetting(net0: Net, net: Net, step: Step, p: seq<Rid>)
    requires Agreement.Inv(net) && Current(net0, net) && PointToPoint(net) && SimplePath(net, p)
    requires Enabled(net, step) && LosesNothing(step)
    ensures var next := Apply(net, step);
      Agreement.Inv(next) && Current(net0, next) && PointToPoint(next) && SimplePath(next, p)
  {
    Agreement.StepKeepsInv(net, step);
    StepKeepsCurrent(net0, net, step);
    StepKeepsWiring(net, step);
    WiringKept(net, Apply(net, step), p);
  }

  lemma FirstOriginationCourse(net: Net, steps: seq<Step>, net': Net, p: seq<Rid>)
    requires Agreement.Inv(net) && PointToPoint(net) && SimplePath(net, p) && |p| - 1 <= MAX_LSU_TTL
    requires Enabled(net, Originate(p[0])) && Run(AfterOriginate(net, p[0]), steps, net') && Lossless(steps)
    ensures SimplePath(net', p) && OnCourse(net', p, net.routers[p[0]].seqNum)
  {
    var next := AfterOriginate(net, p[0]);
    Agreement.StepKeepsInv(net, Originate(p[0]));
    StepKeepsWiring(net, Originate(p[0]));
    WiringKept(net, next, p);
    OriginationStarts(net, p[0], p);
    RunKeepsCourse(next, steps, net', p, net.routers[p[0]].seqNum);
  }

  /** An update originated during the run is, at its end, on course along every path from its origin. */
  lemma {:induction false} OriginatedIsOnCourse(net0: Net, net: Net, steps: seq<Step>, net': Net, p: seq<Rid>)
    returns (s: int)
    requires Agreement.Inv(net) && Current(net0, net) && PointToPoint(net)
    requires Run(net, steps, net') && Lossless(steps)
    requires SimplePath(net, p) && |p| - 1 <= MAX_LSU_TTL && Originate(p[0]) in steps
    ensures p[0] in net0.routers && net0.routers[p[0]].seqNum <= s
    ensures SimplePath(net', p) && OnCourse(net', p, s)
    decreases |steps|
  {
    if steps[0] == Originate(p[0]) {
      s := net.routers[p[0]].seqNum;
      FirstOriginationCourse(net, steps[1..], net', p);
    } else {
      StepKeepsSetting(net0, net, steps[0], p);
      s := OriginatedIsOnCourse(net0, Apply(net, steps[0]), steps[1..], net', p);
    }
  }

  lemma {:induction false} RunKeepsCurrent(net0: Net, net: Net, steps: seq<Step>, net': Net)
    requires Agreement.Inv(net) && Current(net0, net) && Run(net, steps, net') && Lossless(steps)
    ensures Agreement.Inv(net') && Current(net0, net')
    decreases |steps|
  {
    if steps != [] {
      Agreement.StepKeepsInv(net, steps[0]);
      StepKeepsCurrent(net0, net, steps[0]);
      RunKeepsCurrent(net0, Apply(net, steps[0]), steps[1..], net');
    }
  }

  /** Router x holds router r's present array. */
  ghost predicate HoldsPresent(net: Net, x: Rid, r: Rid)
    requires x in net.routers && r in net.routers
  {
    exists e :: e in net.routers[x].lsdb && e.rid == r && e.lsas == LsaArray(r, net.routers[r].ifaces)
  }

  ghost predicate AllPresent(net: Net) {
    forall x, r :: x in net.routers && r in net.routers && x != r ==> HoldsPresent(net, x, r)
  }

  lemma QuietHolds(net0: Net, steps: seq<Step>, net: Net, x: Rid, r: Rid, p: seq<Rid>)
    requires Agreement.Inv(net0) && PointToPoint(net0) && Run(net0, steps, net) && Lossless(steps)
    requires net.flight == [] && Originate(r) in steps
    requires PathFromTo(net0, p, r, x)
    ensures x in net.routers && r in net.routers && HoldsPresent(net, x, r)
  {
    StartIsCurrent(net0);
    var s := OriginatedIsOnCourse(net0, net0, steps, net, p);
    RunKeepsCurrent(net0, net0, steps, net);
    assert !Pending(net, p, s);
    var e := NumberPresent(net.routers[x].lsdb, r);
    assert Agreement.SoundRouter(net, x);
    assert EntryOrigin(e) in net.origins;
  }

  /** Databases converge: everyone holds everyone else's present array. */
  lemma DatabasesConverge(net0: Net, steps: seq<Step>, net: Net)
    requires Agreement.Inv(net0) && PointToPoint(net0) && Joined(net0)
    requires Run(net0, steps, net) && Lossless(steps) && AllOriginate(net0, steps) && net.flight == []
    ensures Agreement.Inv(net) && SameWiring(net0, net) && AllPresent(net)
  {
    StartIsCurrent(net0);
    RunKeepsCurrent(net0, net0, steps, net);
    forall x, r | x in net.routers && r in net.routers && x != r ensures HoldsPresent(net, x, r) {
      assert HasPath(net0, r, x);
      var p :| PathFromTo(net0, p, r, x);
      QuietHolds(net0, steps, net, x, r, p);
    }
  }

  // ---------- the graph everyone computes on ----------

  /** The true graph: an edge from each router to each of its neighbours. */
  ghost function NetGraph(net: Net): Graph {
    set a, i, j | a in net.routers && 0 <= i < |net.routers[a].ifaces| && 0 <= j < |net.routers[a].ifaces[i].nbrs|
      && net.routers[a].ifaces[i].nbrs[j].id != a :: (a, net.routers[a].ifaces[i].nbrs[j].id)
  }

  ghost predicate HasNeighbour(net: Net, a: Rid, b: Rid) {
    a in net.routers && net.routers[a].View().HasNbr(b)
  }

  lemma GraphIsNeighbours(net: Net, a: Rid, b: Rid)
    ensures (a, b) in NetGraph(net) <==> a != b && HasNeighbour(net, a, b)
  {
    if a != b && HasNeighbour(net, a, b) {
      var ifaces := net.routers[a].ifaces;
      var i, j :| 0 <= i < |ifaces| && 0 <= j < |ifaces[i].nbrs| && ifaces[i].nbrs[j].id == b;
    }
  }

  /** A present array names exactly the neighbours. */
  lemma ArrayIsNeighbours(net: Net, a: Rid, b: Rid)
    requires a in net.routers && Counted(net.routers[a].ifaces) && a != b
    ensures Names(LsaArray(a, net.routers[a].ifaces), b) <==> HasNeighbour(net, a, b)
  {
    var ifaces := net.routers[a].ifaces;
    LsaArrayRids(a, ifaces, b);
    if i :| 0 <= i < |ifaces| && Knows(ifaces[i].nbrs, b) {
      var j :| 0 <= j < |ifaces[i].nbrs| && ifaces[i].nbrs[j].id == b;
    }
    if i, j :| 0 <= i < |ifaces| && 0 <= j < |ifaces[i].nbrs| && ifaces[i].nbrs[j].id == b {
      assert Knows(ifaces[i].nbrs, b);
    }
  }

  /** The entry for router a, which is its present array. */
  lemma PresentEntry(net: Net, x: Rid, a: Rid) returns (e: nat)
    requires x in net.routers && a in net.routers && HoldsPresent(net, x, a)
    ensures e < |net.routers[x].lsdb| && net.routers[x].lsdb[e].rid == a
    ensures net.routers[x].lsdb[e].lsas == LsaArray(a, net.routers[a].ifaces)
  {
    var d :| d in net.routers[x].lsdb && d.rid == a && d.lsas == LsaArray(a, net.routers[a].ifaces);
    e :| 0 <= e < |net.routers[x].lsdb| && net.routers[x].lsdb[e] == d;
  }

  lemma ViewEdgeIsTrue(net: Net, x: Rid, a: Rid, b: Rid)
    requires Agreement.Inv(net) && AllPresent(net) && x in net.routers
    requires forall r :: r in net.routers ==> Counted(net.routers[r].ifaces)
    requires (a, b) in net.routers[x].View().Edges()
    ensures a != b && HasNeighbour(net, a, b)
  {
    var v := net.routers[x].View();
    EdgesFrom(v, a, b);
    assert Agreement.SoundRouter(net, x);
    if !(a == x && v.HasNbr(b)) {
      var e, k :| 0 <= e < |v.lsdb| && v.lsdb[e].rid == a && 0 <= k < |v.lsdb[e].lsas| && v.lsdb[e].lsas[k].rid == b;
      assert v.lsdb[e] in net.routers[x].lsdb;
      assert Agreement.Genuine(net, EntryOrigin(v.lsdb[e]));
      var d := PresentEntry(net, x, a);
      assert d == e;
      ArrayIsNeighbours(net, a, b);
    }
  }

  lemma TrueEdgeIsViewed(net: Net, x: Rid, a: Rid, b: Rid)
    requires Agreement.Inv(net) && AllPresent(net) && x in net.routers
    requires forall r :: r in net.routers ==> Counted(net.routers[r].ifaces)
    requires a != b && HasNeighbour(net, a, b)
    ensures (a, b) in net.routers[x].View().Edges()
  {
    var v := net.routers[x].View();
    assert Agreement.SoundRouter(net, x);
    if a == x {
      NbrEdge(v, b);
    } else {
      var e := PresentEntry(net, x, a);
      ArrayIsNeighbours(net, a, b);
      var k :| 0 <= k < |v.lsdb[e].lsas| && v.lsdb[e].lsas[k].rid == b;
      LsaEdge(v, e, k);
    }
  }

  ghost function Views(net: Net): map<Rid, View> {
    map x | x in net.routers :: net.routers[x].View()
  }

  /** Every router's view of the network is the true graph. */
  lemma GraphsConverge(net: Net)
    requires Agreement.Inv(net) && AllPresent(net)
    requires forall r :: r in net.routers ==> Counted(net.routers[r].ifaces)
    ensures HopByHop.SameGraph(Views(net), NetGraph(net))
  {
    forall x | x in net.routers ensures net.routers[x].self == x && net.routers[x].View().Edges() == NetGraph(net) {
      assert Agreement.SoundRouter(net, x);
      forall a: Rid, b: Rid ensures (a, b) in net.routers[x].View().Edges() <==> (a, b) in NetGraph(net) {
        GraphIsNeighbours(net, a, b);
        if (a, b) in net.routers[x].View().Edges() {
          ViewEdgeIsTrue(net, x, a, b);
        }
        if a != b && HasNeighbour(net, a, b) {
          TrueEdgeIsViewed(net, x, a, b);
        }
      }
    }
  }

  // ---------- forwarding ----------

  /** Neighbours are routers of the network. */
  lemma NetIsClosed(net: Net)
    requires PointToPoint(net)
    ensures HopByHop.Closed(Views(net), NetGraph(net))
  {
    forall e | e in NetGraph(net) && e.0 in net.routers ensures e.1 in net.routers {
      GraphIsNeighbours(net, e.0, e.1);
      var ifaces := net.routers[e.0].ifaces;
      var i, j :| 0 <= i < |ifaces| && 0 <= j < |ifaces[i].nbrs| && ifaces[i].nbrs[j].id == e.1;
      assert GoodPort(net, e.0, i);
    }
  }

  lemma PathIsWalk(net: Net, p: seq<Rid>)
    requires SimplePath(net, p)
    ensures ReachIn(NetGraph(net), p[0], p[|p| - 1], |p| - 1)
  {
    forall i | 0 <= i < |p| - 1 ensures (p[i], p[i + 1]) in NetGraph(net) {
      assert Linked(net, p[i], p[i + 1]);
      GraphIsNeighbours(net, p[i], p[i + 1]);
    }
    assert Walk(NetGraph(net), p[0], p[|p| - 1], |p| - 1, p);
  }

  /** No two routers are more than 255 hops apart. */
  lemma JoinedIsNear(net0: Net, net: Net, x: Rid, r: Rid) returns (d: nat)
    requires SameWiring(net0, net) && PointToPoint(net0) && Joined(net0) && x in net.routers && r in net.routers
    ensures Dist(NetGraph(net), x, r, d) && d <= MAX_LSU_TTL
  {
    if x == r {
      ReachZero(NetGraph(net), x);
      d := 0;
    } else {
      assert HasPath(net0, x, r);
      var p :| PathFromTo(net0, p, x, r);
      WiringKept(net0, net, p);
      PathIsWalk(net, p);
      d := DistExists(NetGraph(net), x, r, |p| - 1);
    }
  }

  /** The end of a run as the convergence theorems ask for. */
  ghost predicate Converged(net0: Net, steps: seq<Step>, net: Net) {
    && Agreement.Inv(net0) && PointToPoint(net0) && Joined(net0)
    && (forall x :: x in net0.routers ==> Counted(net0.routers[x].ifaces))
    && Run(net0, steps, net) && Lossless(steps) && AllOriginate(net0, steps) && net.flight == []
  }

  lemma ConvergedSetting(net0: Net, steps: seq<Step>, net: Net)
    requires Converged(net0, steps, net)
    ensures SameWiring(net0, net) && PointToPoint(net) && AllPresent(net) && Agreement.Inv(net)
    ensures HopByHop.SameGraph(Views(net), NetGraph(net)) && HopByHop.Closed(Views(net), NetGraph(net))
  {
    DatabasesConverge(net0, steps, net);
    PortsKept(net0, net);
    GraphsConverge(net);
    NetIsClosed(net);
  }

  /**
   From any reachable state, over point-to-point links that lose nothing: after a run in which
   every router originates and flooding dies out, a packet handed from router to router, each
   by a first hop computed from its own database, comes one hop nearer to its destination
   each time. It stops there and nowhere else, after exactly the least number of hops.
   */
  lemma RoutingConverges(net0: Net, steps: seq<Step>, net: Net, r: Rid, trace: seq<Rid>)
    returns (d: nat)
    requires Converged(net0, steps, net) && r in net.routers
    requires HopByHop.FollowsHops(Views(net), r, trace) && trace[0] in net.routers
    ensures HopByHop.SameGraph(Views(net), NetGraph(net))
    ensures Dist(NetGraph(net), trace[0], r, d) && |trace| <= d + 1
    ensures forall i :: 0 <= i < |trace| ==> Dist(NetGraph(net), trace[i], r, d - i)
    ensures (forall h :: !HopByHop.FollowsHops(Views(net), r, trace + [h])) <==> HopByHop.Arrived(trace, r, d)
  {
    ConvergedSetting(net0, steps, net);
    d := JoinedIsNear(net0, net, trace[0], r);
    HopByHop.EachHopIsNearer(Views(net), NetGraph(net), r, trace, d);
    HopByHop.HopsEndAtDestination(Views(net), NetGraph(net), r, trace, d);
  }

  /** Every router's packets arrive at every other router. */
  lemma EveryoneReached(net0: Net, steps: seq<Step>, net: Net, x: Rid, r: Rid)
    returns (trace: seq<Rid>, d: nat)
    requires Converged(net0, steps, net) && x in net.routers && r in net.routers
    ensures HopByHop.FollowsHops(Views(net), r, trace) && trace[0] == x
    ensures Dist(NetGraph(net), x, r, d) && HopByHop.Arrived(trace, r, d)
  {
    ConvergedSetting(net0, steps, net);
    d := JoinedIsNear(net0, net, x, r);
    trace := HopByHop.HopsArrive(Views(net), NetGraph(net), r, x, d);
  }

  // ---------- by routing tables ----------

  /** Only router `r` has advertisements for the subnet. */
  ghost predicate SoleAdvertiser(net: Net, r: Rid, dest: Ip, mask: Ip) {
    && r in net.routers
    && forall x :: x in net.routers ==> (Offers(LsaArray(x, net.routers[x].ifaces), dest, mask) <==> x == r)
  }

  /** What mospf_dijkstra computes from the router's present state, the kernel having no route for the subnet. */
  ghost predicate SpfTable(s: RouterState, table: seq<RtEntry>, dest: Ip, mask: Ip) {
    && AllCovered(s.View(), table, |s.lsdb|)
    && exists kernel :: GoodTable(s.View(), kernel, table) && !HasRoute(kernel, dest, mask)
  }

  /** Every router but `r`, which is attached to the subnet, has run it. */
  ghost predicate SpfTables(net: Net, tables: map<Rid, seq<RtEntry>>, r: Rid, dest: Ip, mask: Ip) {
    forall x :: x in net.routers && x != r ==> x in tables && SpfTable(net.routers[x], tables[x], dest, mask)
  }

  /** With one neighbour behind an interface, its address tells which. */
  lemma PortsTell(net: Net, x: Rid)
    requires PointToPoint(net) && x in net.routers
    ensures HopByHop.AddressesTell(net.routers[x].View())
  {
    var ifaces := net.routers[x].ifaces;
    forall i | 0 <= i < |ifaces| ensures |ifaces[i].nbrs| <= 1 {
      assert GoodPort(net, x, i);
    }
  }

  /** In everyone's database only `r` advertises the subnet. */
  lemma SoleInView(net: Net, x: Rid, r: Rid, dest: Ip, mask: Ip)
    requires Agreement.Inv(net) && AllPresent(net) && SoleAdvertiser(net, r, dest, mask) && x in net.routers
    ensures HopByHop.OnlyFrom(net.routers[x].View(), r, dest, mask)
  {
    var lsdb := net.routers[x].lsdb;
    assert Agreement.SoundRouter(net, x);
    forall e | 0 <= e < |lsdb| && Advertises(lsdb[e], dest, mask) ensures lsdb[e].rid == r {
      assert lsdb[e] in lsdb;
      assert Agreement.Genuine(net, EntryOrigin(lsdb[e]));
      var a := PresentEntry(net, x, lsdb[e].rid);
      assert a == e;
    }
  }

  lemma TablesAreGood(net: Net, tables: map<Rid, seq<RtEntry>>, r: Rid, dest: Ip, mask: Ip)
    requires Agreement.Inv(net) && AllPresent(net) && PointToPoint(net)
    requires SoleAdvertiser(net, r, dest, mask) && SpfTables(net, tables, r, dest, mask)
    ensures HopByHop.TablesComputed(Views(net), tables, r, dest, mask)
    ensures HopByHop.TablesComplete(Views(net), tables, r, dest, mask)
  {
    forall x | x in net.routers && x != r
      ensures HopByHop.Computed(net.routers[x].View(), tables[x], r, dest, mask)
      ensures HopByHop.Complete(net.routers[x].View(), tables[x], r, dest, mask)
    {
      assert SpfTable(net.routers[x], tables[x], dest, mask);
      PortsTell(net, x);
      SoleInView(net, x, r, dest, mask);
      var e := PresentEntry(net, x, r);
      assert Advertises(net.routers[x].View().lsdb[e], dest, mask);
    }
  }

  /** The same by the tables that mospf_dijkstra computes, for a subnet that only router `r` advertises. */
  lemma TablesConverge(net0: Net, steps: seq<Step>, net: Net, tables: map<Rid, seq<RtEntry>>,
                       r: Rid, dest: Ip, mask: Ip, trace: seq<Rid>)
    returns (d: nat)
    requires Converged(net0, steps, net)
    requires SoleAdvertiser(net, r, dest, mask) && SpfTables(net, tables, r, dest, mask)
    requires HopByHop.FollowsTables(Views(net), tables, r, dest, mask, trace) && trace[0] in net.routers
    ensures Dist(NetGraph(net), trace[0], r, d) && |trace| <= d + 1
    ensures forall i :: 0 <= i < |trace| ==> Dist(NetGraph(net), trace[i], r, d - i)
    ensures (forall h :: !HopByHop.FollowsTables(Views(net), tables, r, dest, mask, trace + [h]))
      <==> HopByHop.Arrived(trace, r, d)
  {
    ConvergedSetting(net0, steps, net);
    d := JoinedIsNear(net0, net, trace[0], r);
    TablesAreGood(net, tables, r, dest, mask);
    HopByHop.TablesLeadToAdvertiser(Views(net), NetGraph(net), tables, r, dest, mask, trace, d);
    HopByHop.TablesEndAtAdvertiser(Views(net), NetGraph(net), tables, r, dest, mask, trace, d);
  }

  /**
   After convergence a packet for any address of the subnet, looked up at each router by
   longest prefix match, gets from every router to the one attached to the subnet, in the
   least number of hops.
   */
  lemma PacketsArrive(net0: Net, steps: seq<Step>, net: Net, tables: map<Rid, seq<RtEntry>>,
                      r: Rid, dst: Ip, dest: Ip, mask: Ip, x: Rid)
    returns (trace: seq<Rid>, d: nat)
    requires Converged(net0, steps, net) && x in net.routers
    requires SoleAdvertiser(net, r, dest, mask) && SpfTables(net, tables, r, dest, mask)
    requires Delivery.SubnetDecides(Views(net), tables, r, dst, dest, mask)
    ensures Delivery.FollowsLookups(Views(net), tables, r, dst, trace) && trace[0] == x
    ensures Dist(NetGraph(net), x, r, d) && HopByHop.Arrived(trace, r, d)
  {
    ConvergedSetting(net0, steps, net);
    d := JoinedIsNear(net0, net, x, r);
    TablesAreGood(net, tables, r, dest, mask);
    trace := Delivery.LookupsArrive(Views(net), NetGraph(net), tables, r, dst, dest, mask, x, d);
  }

  /** And however it was looked up on the way, such a packet never stops anywhere else. */
  lemma PacketsStopNowhereElse(net0: Net, steps: seq<Step>, net: Net, tables: map<Rid, seq<RtEntry>>,
                               r: Rid, dst: Ip, dest: Ip, mask: Ip, trace: seq<Rid>)
    returns (d: nat)
    requires Converged(net0, steps, net)
    requires SoleAdvertiser(net, r, dest, mask) && SpfTables(net, tables, r, dest, mask)
    requires Delivery.SubnetDecides(Views(net), tables, r, dst, dest, mask)
    requires Delivery.FollowsLookups(Views(net), tables, r, dst, trace) && trace[0] in net.routers
    ensures Dist(NetGraph(net), trace[0], r, d)
    ensures (forall h :: !Delivery.FollowsLookups(Views(net), tables, r, dst, trace + [h]))
      <==> HopByHop.Arrived(trace, r, d)
  {
    ConvergedSetting(net0, steps, net);
    d := JoinedIsNear(net0, net, trace[0], r);
    TablesAreGood(net, tables, r, dest, mask);
    Delivery.LookupsEndAtAdvertiser(Views(net), NetGraph(net), tables, r, dst, dest, mask, trace, d);
  }

  /** Once databases have converged, every subnet of every router within reach has a route everywhere else. */
  lemma EverySubnetRouted(net: Net, x: Rid, r: Rid, i: nat, table: seq<RtEntry>, n: nat)
    requires AllPresent(net) && x in net.routers && r in net.routers && x != r && net.routers[x].self == x
    requires Counted(net.routers[r].ifaces)
    requires forall k :: 0 <= k < |net.routers[r].ifaces| ==> OnSubnet(net.routers[r].ifaces[k])
    requires i < |net.routers[r].ifaces|
    requires ReachIn(net.routers[x].View().Edges(), x, r, n) && n < INT_MAX
    requires AllCovered(net.routers[x].View(), table, |net.routers[x].lsdb|)
    ensures var f := net.routers[r].ifaces[i]; HasRoute(table, And(f.ip, f.mask), f.mask)
  {
    var v, f := net.routers[x].View(), net.routers[r].ifaces[i];
    var e := PresentEntry(net, x, r);
    assert IsSubnet(f, And(f.ip, f.mask), f.mask);
    LsaArraySubnets(r, net.routers[r].ifaces, And(f.ip, f.mask), f.mask);
    assert Usable(v, e);
    assert Covered(v, table, e, |v.lsdb[e].lsas|);
  }
}
