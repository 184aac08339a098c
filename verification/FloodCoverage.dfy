/** On point-to-point links that lose nothing, flooding reaches every router within 255 links. */
module FloodCoverage {
  import opened Graphs
  import opened LinkState
  import opened Routers
  import opened Network
  import Agreement

  /** Behind interface `i` of router `a` there is exactly router `b`. */
  ghost predicate Wired(net: Net, a: Rid, i: int, b: Rid) {
    && a in net.routers
    && 0 <= i < |net.routers[a].ifaces|
    && |net.routers[a].ifaces[i].nbrs| == 1
    && net.routers[a].ifaces[i].nbrs[0].id == b
  }

  /** What `a` sends over interface `i` arrives where `b` sees `a`. */
  ghost predicate GoodCable(net: Net, a: Rid, i: nat, b: Rid) {
    b in net.routers && (a, i, b) in net.cables && Wired(net, b, net.cables[(a, i, b)], a)
  }

  /** An interface with neighbours is one end of a cable. */
  ghost predicate GoodPort(net: Net, a: Rid, i: nat) {
    a in net.routers && i < |net.routers[a].ifaces| && net.routers[a].ifaces[i].nbrs != [] ==>
      var b := net.routers[a].ifaces[i].nbrs[0].id; Wired(net, a, i, b) && GoodCable(net, a, i, b)
  }

  ghost predicate PointToPoint(net: Net) {
    forall a, i :: GoodPort(net, a, i)
  }

  ghost predicate Linked(net: Net, a: Rid, b: Rid) {
    exists i :: Wired(net, a, i, b)
  }

  /** A path of links that visits no router twice. */
  ghost predicate SimplePath(net: Net, p: seq<Rid>) {
    && 2 <= |p|
    && (forall i, j :: 0 <= i < j < |p| ==> p[i] != p[j])
    && (forall i :: 0 <= i < |p| ==> p[i] in net.routers)
    && (forall i :: 0 <= i < |p| - 1 ==> Linked(net, p[i], p[i + 1]))
  }

  /** A copy of p[0]'s update number `s` that has come i links along the path. */
  ghost predicate CopyAt(net: Net, p: seq<Rid>, i: int, s: int, c: Copy) {
    && 1 <= i < |p|
    && c.dst == p[i] && c.lsu.rid == p[0] && c.lsu.seqNo == s
    && c.lsu.ttl == MAX_LSU_TTL + 1 - i
    && Wired(net, p[i], c.inIface, p[i - 1])
  }

  ghost predicate Pending(net: Net, p: seq<Rid>, s: int) {
    exists i, c :: c in net.flight && CopyAt(net, p, i, s, c)
  }

  ghost predicate Reached(net: Net, p: seq<Rid>, s: int)
    requires p != [] && p[|p| - 1] in net.routers
  {
    s <= NumberOf(net.routers[p[|p| - 1]].lsdb, p[0])
  }

  /** The update has come to the end of the path or is still on its way along it. */
  ghost predicate OnCourse(net: Net, p: seq<Rid>, s: int)
    requires p != [] && p[|p| - 1] in net.routers
  {
    Reached(net, p, s) || Pending(net, p, s)
  }

  ghost predicate SameWiring(net: Net, net': Net) {
    && net'.routers.Keys == net.routers.Keys && net'.cables == net.cables
    && forall r :: r in net.routers ==>
         net'.routers[r].ifaces == net.routers[r].ifaces && net'.routers[r].self == net.routers[r].self
  }

  lemma PortsKept(net: Net, net': Net)
    requires SameWiring(net, net') && PointToPoint(net)
    ensures PointToPoint(net')
  {
    forall a, i ensures GoodPort(net', a, i) {
      assert GoodPort(net, a, i);
    }
  }

  lemma WiringKept(net: Net, net': Net, p: seq<Rid>)
    requires SameWiring(net, net') && PointToPoint(net) && SimplePath(net, p)
    ensures PointToPoint(net') && SimplePath(net', p)
  {
    PortsKept(net, net');
    forall i | 0 <= i < |p| - 1 ensures Linked(net', p[i], p[i + 1]) {
      var k :| Wired(net, p[i], k, p[i + 1]);
      assert Wired(net', p[i], k, p[i + 1]);
    }
  }

  /** A copy for the next router on the path is among those sent. */
  lemma SentAlong(net: Net, a: Rid, b: Rid, skip: int, lsu: Lsu) returns (c: Copy)
    requires PointToPoint(net) && Linked(net, a, b) && !Wired(net, a, skip, b)
    ensures c in Sent(net.cables, a, Copies(net.routers[a].ifaces, |net.routers[a].ifaces|, skip, lsu))
    ensures c.dst == b && c.lsu == lsu && Wired(net, b, c.inIface, a)
  {
    var i :| Wired(net, a, i, b);
    var ifaces := net.routers[a].ifaces;
    assert GoodPort(net, a, i);
    var o := Out(i, b, lsu);
    assert NbrBehind(ifaces, i, b);
    CopiesExactly(ifaces, |ifaces|, skip, lsu, o);
    SentIn(net.cables, a, Copies(ifaces, |ifaces|, skip, lsu), o);
    c := Arrival(net.cables, a, o);
  }

  /** Origination puts a first copy on every path. */
  lemma OriginationStarts(net: Net, r: Rid, p: seq<Rid>)
    requires Agreement.Inv(net) && PointToPoint(net) && SimplePath(net, p) && p[0] == r
    ensures Pending(AfterOriginate(net, r), p, net.routers[r].seqNum)
  {
    var net', s := AfterOriginate(net, r), net.routers[r];
    assert Agreement.SoundRouter(net, r);
    assert Linked(net, p[0], p[1]);
    var c := SentAlong(net, r, p[1], -1, Generated(s));
    assert c in net'.flight;
    assert Wired(net', p[1], c.inIface, p[0]);
    assert CopyAt(net', p, 1, s.seqNum, c);
  }

  /** At the end of the path the number is stored. */
  lemma DeliveryStores(net: Net, k: nat, p: seq<Rid>, s: int)
    requires SimplePath(net, p) && k < |net.flight| && CopyAt(net, p, |p| - 1, s, net.flight[k])
    requires net.routers[p[|p| - 1]].self == p[|p| - 1]
    ensures Reached(AfterDeliver(net, k), p, s)
  {
    StoredNumber(net.routers[p[|p| - 1]].lsdb, net.flight[k].lsu, p[0]);
  }

  lemma ForwardsAll(s: RouterState, inIface: int, lsu: Lsu)
    requires lsu.rid != s.self && 2 <= lsu.ttl
    ensures Forwarded(s, inIface, lsu) == Copies(s.ifaces, |s.ifaces|, inIface, lsu.(ttl := lsu.ttl - 1))
  {
    assert Decremented(lsu.ttl) == lsu.ttl - 1;
  }

  /** A router sends a copy on to every linked router but the one it came from. */
  lemma CopyForwarded(net: Net, k: nat, b: Rid) returns (d: Copy)
    requires PointToPoint(net) && k < |net.flight|
    requires var c := net.flight[k];
      && c.dst in net.routers && net.routers[c.dst].self == c.dst && c.lsu.rid != c.dst && 2 <= c.lsu.ttl
      && Linked(net, c.dst, b) && !Wired(net, c.dst, c.inIface, b)
    ensures var c := net.flight[k];
      && d in AfterDeliver(net, k).flight
      && d.dst == b && d.lsu == c.lsu.(ttl := c.lsu.ttl - 1) && Wired(net, b, d.inIface, c.dst)
  {
    var c := net.flight[k];
    ForwardsAll(net.routers[c.dst], c.inIface, c.lsu);
    d := SentAlong(net, c.dst, b, c.inIface, c.lsu.(ttl := c.lsu.ttl - 1));
    InNewFlight(net, k, d);
  }

  lemma InNewFlight(net: Net, k: nat, d: Copy)
    requires k < |net.flight| && net.flight[k].dst in net.routers
    requires var c := net.flight[k]; d in Sent(net.cables, c.dst, Forwarded(net.routers[c.dst], c.inIface, c.lsu))
    ensures d in AfterDeliver(net, k).flight
  {
  }

  /** Before that, the next router on the path is sent a copy one hop older. */
  lemma DeliveryForwards(net: Net, k: nat, p: seq<Rid>, i: int, s: int) returns (d: Copy)
    requires PointToPoint(net) && SimplePath(net, p) && |p| <= MAX_LSU_TTL + 1 && i < |p| - 1
    requires k < |net.flight| && CopyAt(net, p, i, s, net.flight[k])
    requires net.routers[p[i]].self == p[i]
    ensures d in AfterDeliver(net, k).flight && CopyAt(net, p, i + 1, s, d)
  {
    assert Linked(net, p[i], p[i + 1]);
    assert p[i - 1] != p[i + 1] && p[i] != p[0];
    d := CopyForwarded(net, k, p[i + 1]);
  }

  /** Delivery of the copy at step i leaves the update at the end of the path or at step i + 1. */
  lemma DeliveryAdvances(net: Net, k: nat, p: seq<Rid>, i: int, s: int)
    requires Agreement.Inv(net) && PointToPoint(net) && SimplePath(net, p) && |p| <= MAX_LSU_TTL + 1
    requires Enabled(net, Deliver(k)) && CopyAt(net, p, i, s, net.flight[k])
    ensures OnCourse(AfterDeliver(net, k), p, s)
  {
    assert Agreement.SoundRouter(net, p[i]);
    if i == |p| - 1 {
      DeliveryStores(net, k, p, s);
    } else {
      var d := DeliveryForwards(net, k, p, i, s);
      StepKeepsWiring(net, Deliver(k));
      PendingKept(net, AfterDeliver(net, k), p, i + 1, s, d);
    }
  }

  lemma StillInFlight(flight: seq<Copy>, k: nat, c: Copy)
    requires k < |flight| && c in flight && flight[k] != c
    ensures c in Without(flight, k)
  {
    var j :| 0 <= j < |flight| && flight[j] == c;
    assert j < k ==> Without(flight, k)[j] == c;
    assert j > k ==> Without(flight, k)[j - 1] == c;
  }

  lemma PendingKept(net: Net, net': Net, p: seq<Rid>, i: int, s: int, c: Copy)
    requires SameWiring(net, net') && CopyAt(net, p, i, s, c) && c in net'.flight
    ensures Pending(net', p, s)
  {
    assert CopyAt(net', p, i, s, c);
  }

  /** Steps of a network in which nothing is lost or forgotten and no neighbour changes. */
  predicate LosesNothing(step: Step) {
    step.Deliver? || step.Originate? || step.Duplicate?
  }

  lemma StepKeepsWiring(net: Net, step: Step)
    requires Enabled(net, step) && LosesNothing(step)
    ensures SameWiring(net, Apply(net, step))
  {
  }

  /** Deliveries, duplications and further originations keep every path on course. */
  lemma StepKeepsCourse(net: Net, step: Step, p: seq<Rid>, s: int)
    requires Agreement.Inv(net) && Enabled(net, step) && LosesNothing(step)
    requires PointToPoint(net) && SimplePath(net, p) && |p| <= MAX_LSU_TTL + 1 && OnCourse(net, p, s)
    ensures SimplePath(Apply(net, step), p)
    ensures OnCourse(Apply(net, step), p, s)
  {
    var net' := Apply(net, step);
    StepKeepsWiring(net, step);
    WiringKept(net, net', p);
    Agreement.NumbersRise(net, step, p[|p| - 1], p[0]);
    if !Reached(net, p, s) {
      var i, c :| c in net.flight && CopyAt(net, p, i, s, c);
      if !step.Deliver? {
        PendingKept(net, net', p, i, s, c);
      } else if net.flight[step.i] == c {
        DeliveryAdvances(net, step.i, p, i, s);
      } else {
        StillInFlight(net.flight, step.i, c);
        PendingKept(net, net', p, i, s, c);
      }
    }
  }

  ghost predicate Lossless(steps: seq<Step>) {
    forall k :: 0 <= k < |steps| ==> LosesNothing(steps[k])
  }

  lemma {:induction false} RunKeepsCourse(net: Net, steps: seq<Step>, net': Net, p: seq<Rid>, s: int)
    requires Agreement.Inv(net) && Run(net, steps, net') && Lossless(steps)
    requires PointToPoint(net) && SimplePath(net, p) && |p| <= MAX_LSU_TTL + 1 && OnCourse(net, p, s)
    ensures SimplePath(net', p) && OnCourse(net', p, s)
    decreases |steps|
  {
    if steps != [] {
      var next := Apply(net, steps[0]);
      Agreement.StepKeepsInv(net, steps[0]);
      StepKeepsCourse(net, steps[0], p, s);
      StepKeepsWiring(net, steps[0]);
      WiringKept(net, next, p);
      RunKeepsCourse(next, steps[1..], net', p, s);
    }
  }

  ghost predicate NoneInFlight(net: Net, r: Rid, s: int) {
    forall c :: c in net.flight ==> !(c.lsu.rid == r && c.lsu.seqNo == s)
  }

  /**
   Once no copy of the update that r originated as number s is left, every router that a
   simple path of at most 255 links joins to r has stored that number or a later one.
   */
  lemma FloodingCovers(net: Net, r: Rid, steps: seq<Step>, net': Net, p: seq<Rid>)
    requires Agreement.Inv(net) && PointToPoint(net) && Enabled(net, Originate(r))
    requires Run(AfterOriginate(net, r), steps, net') && Lossless(steps)
    requires NoneInFlight(net', r, net.routers[r].seqNum)
    requires SimplePath(net, p) && p[0] == r && |p| - 1 <= MAX_LSU_TTL
    ensures p[|p| - 1] in net'.routers
    ensures net.routers[r].seqNum <= NumberOf(net'.routers[p[|p| - 1]].lsdb, r)
  {
    var mid, s := AfterOriginate(net, r), net.routers[r].seqNum;
    Agreement.StepKeepsInv(net, Originate(r));
    StepKeepsWiring(net, Originate(r));
    WiringKept(net, mid, p);
    OriginationStarts(net, r, p);
    RunKeepsCourse(mid, steps, net', p, s);
    assert forall i, c :: c in net'.flight ==> !CopyAt(net', p, i, s, c);
  }
}
