/** Convergence is not an idle promise: from every state the run it asks for exists. */
module Quiescence {
  import opened Graphs
  import opened LinkState
  import opened Routers
  import opened Network
  import opened FloodCoverage
  import opened Convergence
  import Agreement
  import FloodTermination

  /** Every update in flight is on its way to a router of the network. */
  ghost predicate Deliverable(net: Net) {
    forall c :: c in net.flight ==> c.dst in net.routers
  }

  /** No router is about to run out of sequence numbers. */
  ghost predicate HasRoom(net: Net, r: Rid)
    requires r in net.routers
  {
    net.routers[r].seqNum + |OriginationCopies(net.routers[r])| < 0x1_0000
  }

  lemma NbrIsRouter(net: Net, r: Rid, o: Out)
    requires PointToPoint(net) && r in net.routers && NbrBehind(net.routers[r].ifaces, o.iface, o.to)
    ensures o.to in net.routers
  {
    assert GoodPort(net, r, o.iface);
  }

  lemma SentAreDeliverable(net: Net, r: Rid, skip: int, lsu: Lsu, c: Copy)
    requires PointToPoint(net) && r in net.routers
    requires c in Sent(net.cables, r, Copies(net.routers[r].ifaces, |net.routers[r].ifaces|, skip, lsu))
    ensures c.dst in net.routers
  {
    var ifaces := net.routers[r].ifaces;
    var out := Copies(ifaces, |ifaces|, skip, lsu);
    SentFrom(net.cables, r, out, c);
    var o :| o in out && c == Arrival(net.cables, r, o);
    CopiesExactly(ifaces, |ifaces|, skip, lsu, o);
    NbrIsRouter(net, r, o);
  }

  lemma StepKeepsDeliverable(net: Net, step: Step)
    requires PointToPoint(net) && Deliverable(net) && Enabled(net, step) && LosesNothing(step)
    ensures Deliverable(Apply(net, step))
  {
    var net' := Apply(net, step);
    forall c | c in net'.flight ensures c.dst in net'.routers {
      match step
      case Originate(r) =>
        if c !in net.flight {
          SentAreDeliverable(net, r, -1, Generated(net.routers[r]), c);
        }
      case Deliver(i) =>
        var d := net.flight[i];
        if c in Without(net.flight, i) {
          Agreement.WithoutSubset(net.flight, i, c);
        } else {
          SentAreDeliverable(net, d.dst, d.inIface, d.lsu.(ttl := Decremented(d.lsu.ttl)), c);
        }
      case Duplicate(_) =>
        assert c in net.flight;
    }
  }

  lemma StepKeepsPorts(net: Net, step: Step)
    requires PointToPoint(net) && Enabled(net, step) && LosesNothing(step)
    ensures PointToPoint(Apply(net, step)) && SameWiring(net, Apply(net, step))
  {
    StepKeepsWiring(net, step);
    PortsKept(net, Apply(net, step));
  }

  lemma RunCons(net: Net, step: Step, more: seq<Step>, net': Net)
    requires Enabled(net, step) && Run(Apply(net, step), more, net')
    ensures Run(net, [step] + more, net')
  {
    assert ([step] + more)[1..] == more;
  }

  lemma {:induction false} RunAppend(net: Net, a: seq<Step>, mid: Net, b: seq<Step>, net': Net)
    requires Run(net, a, mid) && Run(mid, b, net')
    ensures Run(net, a + b, net')
    decreases |a|
  {
    if a == [] {
      assert a + b == b;
    } else {
      RunAppend(Apply(net, a[0]), a[1..], mid, b, net');
      RunCons(net, a[0], a[1..] + b, net');
      assert [a[0]] + (a[1..] + b) == a + b;
    }
  }

  lemma LosslessAppend(a: seq<Step>, b: seq<Step>)
    requires Lossless(a) && Lossless(b)
    ensures Lossless(a + b) && forall x :: x in a ==> x in a + b
  {
  }

  /** Deliveries alone empty the network, within the bound that FloodingEnds gives. */
  lemma {:induction false} Drain(net: Net, f: nat) returns (steps: seq<Step>, net': Net)
    requires Agreement.Inv(net) && PointToPoint(net) && Deliverable(net) && FloodTermination.NbrBound(net, f)
    ensures Run(net, steps, net') && Lossless(steps) && net'.flight == []
    decreases FloodTermination.Weight(net.flight, f)
  {
    if net.flight == [] {
      steps, net' := [], net;
    } else {
      assert net.flight[0] in net.flight;
      var first := Deliver(0);
      FloodTermination.DeliveryLowersWeight(net, 0, f);
      Agreement.StepKeepsInv(net, first);
      StepKeepsPorts(net, first);
      StepKeepsDeliverable(net, first);
      var rest;
      rest, net' := Drain(Apply(net, first), f);
      RunCons(net, first, rest, net');
      steps := [first] + rest;
    }
  }

  /** A bound on the neighbours of finitely many routers. */
  lemma {:induction false} SomeBound(net: Net, rs: set<Rid>) returns (f: nat)
    requires rs <= net.routers.Keys
    ensures forall r :: r in rs ==> |OriginationCopies(net.routers[r])| <= f
    decreases |rs|
  {
    if rs == {} {
      f := 0;
    } else {
      var r :| r in rs;
      f := SomeBound(net, rs - {r});
      if f < |OriginationCopies(net.routers[r])| {
        f := |OriginationCopies(net.routers[r])|;
      }
    }
  }

  /** All routers of a set originate, one after the other. */
  lemma {:induction false} OriginateAll(net: Net, todo: set<Rid>) returns (steps: seq<Step>, net': Net)
    requires Agreement.Inv(net) && PointToPoint(net) && Deliverable(net)
    requires todo <= net.routers.Keys && forall r :: r in todo ==> HasRoom(net, r)
    ensures Run(net, steps, net') && Lossless(steps)
    ensures Agreement.Inv(net') && PointToPoint(net') && Deliverable(net') && SameWiring(net, net')
    ensures forall r :: r in todo ==> Originate(r) in steps
    decreases |todo|
  {
    if todo == {} {
      steps, net' := [], net;
    } else {
      var r :| r in todo;
      var first := Originate(r);
      Agreement.StepKeepsInv(net, first);
      StepKeepsPorts(net, first);
      StepKeepsDeliverable(net, first);
      var next := Apply(net, first);
      assert forall q :: q in todo - {r} ==> next.routers[q] == net.routers[q];
      var rest;
      rest, net' := OriginateAll(next, todo - {r});
      RunCons(net, first, rest, net');
      steps := [first] + rest;
      assert steps[0] == first;
    }
  }

  /** From every sound state whose counters have room there is a run as the convergence theorems ask for. */
  lemma ConvergenceIsReachable(net: Net) returns (steps: seq<Step>, net': Net)
    requires Agreement.Inv(net) && PointToPoint(net) && Deliverable(net)
    requires forall r :: r in net.routers ==> HasRoom(net, r)
    ensures Run(net, steps, net') && Lossless(steps) && AllOriginate(net, steps) && net'.flight == []
  {
    var first, mid := OriginateAll(net, net.routers.Keys);
    var f := SomeBound(mid, mid.routers.Keys);
    var rest;
    rest, net' := Drain(mid, f);
    RunAppend(net, first, mid, rest, net');
    LosslessAppend(first, rest);
    steps := first + rest;
  }

  // ---------- a network to which all of this applies ----------

  function EndRouter(self: Rid, other: Rid): RouterState {
    RouterState(self, [Iface(self, 0xFFFF_FF00, 1, [Nbr(other, other, 0xFFFF_FF00, 40)])], 0, [])
  }

  lemma OneCopy(self: Rid, other: Rid)
    ensures |OriginationCopies(EndRouter(self, other))| == 1
  {
    var s := EndRouter(self, other);
    assert Copies(s.ifaces, 0, -1, Generated(s)) == [];
    assert OriginationCopies(s) == [] + IfaceCopies(0, s.ifaces[0].nbrs, Generated(s));
  }

  lemma PathOfTwo(net: Net, a: Rid, b: Rid)
    requires a in net.routers && b in net.routers && a != b && Wired(net, a, 0, b)
    ensures HasPath(net, a, b)
  {
    assert Linked(net, [a, b][0], [a, b][1]);
    assert PathFromTo(net, [a, b], a, b);
  }

  function TwoRouters(a: Rid, b: Rid): Net {
    Net(map[a := EndRouter(a, b), b := EndRouter(b, a)], map[(a, 0, b) := 0, (b, 0, a) := 0], [], {})
  }

  lemma TwoRoutersPorts(a: Rid, b: Rid)
    requires a != b
    ensures Wired(TwoRouters(a, b), a, 0, b) && Wired(TwoRouters(a, b), b, 0, a) && PointToPoint(TwoRouters(a, b))
  {
    var net := TwoRouters(a, b);
    assert net.routers.Keys == {a, b};
    forall x, i ensures GoodPort(net, x, i) {
      assert GoodCable(net, a, 0, b) && GoodCable(net, b, 0, a);
    }
  }

  /** Two routers joined by one cable, before anything was sent, qualify for ConvergenceIsReachable and Converged. */
  lemma TwoRoutersQualify(a: Rid, b: Rid)
    requires a != b
    ensures var net := TwoRouters(a, b);
      && Agreement.Init(net) && Agreement.Inv(net)
      && PointToPoint(net) && Joined(net) && Deliverable(net)
      && forall r :: r in net.routers ==> Counted(net.routers[r].ifaces) && HasRoom(net, r)
  {
    var net := TwoRouters(a, b);
    assert net.routers.Keys == {a, b};
    TwoRoutersPorts(a, b);
    OneCopy(a, b);
    OneCopy(b, a);
    PathOfTwo(net, a, b);
    PathOfTwo(net, b, a);
  }

  /** So there is a run of theirs at whose end all that Convergence promises holds. */
  lemma TwoRoutersConverge(a: Rid, b: Rid) returns (steps: seq<Step>, net: Net)
    requires a != b
    ensures Converged(TwoRouters(a, b), steps, net)
    ensures AllPresent(net)
  {
    TwoRoutersQualify(a, b);
    steps, net := ConvergenceIsReachable(TwoRouters(a, b));
    DatabasesConverge(TwoRouters(a, b), steps, net);
  }
}
