/** Link-state databases agree: what is stored was really originated, over every run with any loss. */
module Agreement {
  import opened Graphs
  import opened LinkState
  import opened Routers
  import opened RouterDaemon
  import opened Network

  ghost predicate Genuine(net: Net, o: Origin) {
    o in net.origins && o.rid in net.routers && o.seqNo < net.routers[o.rid].seqNum
  }

  ghost predicate SoundRouter(net: Net, r: Rid)
    requires r in net.routers
  {
    && net.routers[r].self == r
    && DistinctRids(net.routers[r].lsdb)
    && forall x :: x in net.routers[r].lsdb ==> x.rid != r && EntryOrigin(x) in net.origins
  }

  ghost predicate SoundCopy(net: Net, c: Copy) {
    LsuOrigin(c.lsu) in net.origins && 1 <= c.lsu.ttl <= MAX_LSU_TTL
  }

  ghost predicate SoundOrigins(net: Net) {
    && (forall o :: o in net.origins ==> Genuine(net, o))
    && (forall o, p :: o in net.origins && p in net.origins && o.rid == p.rid && o.seqNo == p.seqNo ==> o == p)
  }

  ghost predicate Inv(net: Net) {
    && (forall r :: r in net.routers ==> SoundRouter(net, r))
    && (forall c :: c in net.flight ==> SoundCopy(net, c))
    && SoundOrigins(net)
  }

  /** Routers that have sent nothing yet. */
  ghost predicate Init(net: Net) {
    && net.flight == [] && net.origins == {}
    && forall r :: r in net.routers ==> net.routers[r].self == r && net.routers[r].lsdb == []
  }

  /** More origins, and routers that kept their databases: still sound. */
  lemma GrowKeepsSound(net: Net, net': Net)
    requires Inv(net) && net.origins <= net'.origins && net'.routers.Keys == net.routers.Keys
    requires forall r :: r in net.routers ==>
      net'.routers[r].self == net.routers[r].self && net'.routers[r].lsdb == net.routers[r].lsdb
    ensures forall r :: r in net'.routers ==> SoundRouter(net', r)
    ensures forall c :: c in net.flight ==> SoundCopy(net', c)
  {
    forall r | r in net'.routers ensures SoundRouter(net', r) {
      assert SoundRouter(net, r);
    }
    forall c | c in net.flight ensures SoundCopy(net', c) {
      assert SoundCopy(net, c);
    }
  }

  lemma OriginateKeepsInv(net: Net, r: Rid)
    requires Inv(net) && Enabled(net, Originate(r))
    ensures Inv(AfterOriginate(net, r))
  {
    var net', s := AfterOriginate(net, r), net.routers[r];
    assert SoundRouter(net, r);
    GrowKeepsSound(net, net');
    forall c | c in net'.flight ensures SoundCopy(net', c) {
      if c !in net.flight {
        assert c in Sent(net.cables, r, OriginationCopies(s));
        OriginationCarries(s, net.cables, c);
      }
    }
    forall o | o in net'.origins ensures Genuine(net', o) {
      assert o in net.origins ==> Genuine(net, o);
    }
    forall o, p | o in net'.origins && p in net'.origins && o.rid == p.rid && o.seqNo == p.seqNo ensures o == p {
      assert o in net.origins ==> Genuine(net, o);
      assert p in net.origins ==> Genuine(net, p);
    }
  }

  lemma WithoutSubset(flight: seq<Copy>, i: nat, c: Copy)
    requires i < |flight| && c in Without(flight, i)
    ensures c in flight
  {
  }

  lemma StoreKeepsSound(net: Net, s: RouterState, lsu: Lsu)
    requires s.self in net.routers && net.routers[s.self] == s && SoundRouter(net, s.self)
    requires LsuOrigin(lsu) in net.origins
    ensures SoundRouter(net.(routers := net.routers[s.self := Handled(s, lsu)]), s.self)
  {
    if lsu.rid != s.self {
      var lsdb' := Stored(s.lsdb, lsu);
      StoredHolds(s.lsdb, lsu);
      StoredElements(s.lsdb, lsu);
      StoredDistinct(s.lsdb, lsu);
      forall x | x in lsdb' ensures x.rid != s.self && EntryOrigin(x) in net.origins {
        assert EntryOrigin(x) in Held(lsdb');
      }
    }
  }

  lemma DeliverKeepsInv(net: Net, i: nat)
    requires Inv(net) && Enabled(net, Deliver(i))
    ensures Inv(AfterDeliver(net, i))
  {
    var net', c := AfterDeliver(net, i), net.flight[i];
    var s := net.routers[c.dst];
    assert SoundCopy(net, c) && SoundRouter(net, c.dst);
    StoreKeepsSound(net, s, c.lsu);
    forall r | r in net'.routers ensures SoundRouter(net', r) {
      assert r != c.dst ==> SoundRouter(net, r);
    }
    forall d | d in net'.flight ensures SoundCopy(net', d) {
      if d in Without(net.flight, i) {
        WithoutSubset(net.flight, i, d);
        assert SoundCopy(net, d);
      } else {
        ForwardingCarries(s, c.dst, net.cables, c.inIface, c.lsu, d);
      }
    }
    forall o | o in net'.origins ensures Genuine(net', o) {
      assert Genuine(net, o);
    }
  }

  lemma ExpireKeepsInv(net: Net, r: Rid)
    requires Inv(net) && r in net.routers
    ensures Inv(Apply(net, Expire(r)))
  {
    var net', s := Apply(net, Expire(r)), net.routers[r];
    assert SoundRouter(net, r);
    AgedHolds(s.lsdb);
    AgedKeepsRids(s.lsdb);
    forall q | q in net'.routers ensures SoundRouter(net', q) {
      assert SoundRouter(net, q);
      if q == r {
        forall x | x in Aged(s.lsdb) ensures x.rid != r && EntryOrigin(x) in net.origins {
          assert EntryOrigin(x) in Held(Aged(s.lsdb));
        }
      }
    }
    forall c | c in net'.flight ensures SoundCopy(net', c) {
      assert SoundCopy(net, c);
    }
    forall o | o in net'.origins ensures Genuine(net', o) {
      assert Genuine(net, o);
    }
  }

  lemma QuietKeepsInv(net: Net, step: Step)
    requires Inv(net) && Enabled(net, step) && (step.Lose? || step.Duplicate? || step.SetIfaces?)
    ensures Inv(Apply(net, step))
  {
    var net' := Apply(net, step);
    GrowKeepsSound(net, net');
    forall c | c in net'.flight ensures SoundCopy(net', c) {
      if step.Lose? {
        WithoutSubset(net.flight, step.i, c);
      }
    }
    forall o | o in net'.origins ensures Genuine(net', o) {
      assert Genuine(net, o);
    }
  }

  lemma StepKeepsInv(net: Net, step: Step)
    requires Inv(net) && Enabled(net, step)
    ensures Inv(Apply(net, step))
  {
    match step
    case Originate(r) => OriginateKeepsInv(net, r);
    case Deliver(i) => DeliverKeepsInv(net, i);
    case Expire(r) => ExpireKeepsInv(net, r);
    case Lose(_) => QuietKeepsInv(net, step);
    case Duplicate(_) => QuietKeepsInv(net, step);
    case SetIfaces(_, _) => QuietKeepsInv(net, step);
  }

  lemma {:induction false} RunKeepsInv(net: Net, steps: seq<Step>, net': Net)
    requires Inv(net) && Run(net, steps, net')
    ensures Inv(net')
    decreases |steps|
  {
    if steps != [] {
      StepKeepsInv(net, steps[0]);
      RunKeepsInv(Apply(net, steps[0]), steps[1..], net');
    }
  }

  /**
   In every state of every run: two routers that hold the same router's update under the same
   number hold the same array, which that router originated under that number; and the
   number lies below the router's own counter.
   */
  lemma DatabasesAgree(net0: Net, steps: seq<Step>, net: Net, a: Rid, b: Rid, x: DbEntry, y: DbEntry)
    requires Init(net0) && Run(net0, steps, net)
    requires a in net.routers && b in net.routers && x in net.routers[a].lsdb && y in net.routers[b].lsdb
    ensures EntryOrigin(x) in net.origins && x.rid in net.routers && x.seqNo < net.routers[x.rid].seqNum
    ensures x.rid == y.rid && x.seqNo == y.seqNo ==> x.lsas == y.lsas
    ensures a == b && x.rid == y.rid ==> x == y
  {
    assert Inv(net0);
    RunKeepsInv(net0, steps, net);
    assert SoundRouter(net, a) && SoundRouter(net, b);
    assert Genuine(net, EntryOrigin(x)) && Genuine(net, EntryOrigin(y));
  }

  /** In-flight updates always have 1 to 255 hops to live, so the 8-bit decrement never wraps. */
  lemma TtlNeverWraps(net0: Net, steps: seq<Step>, net: Net, c: Copy)
    requires Init(net0) && Run(net0, steps, net) && c in net.flight
    ensures 1 <= c.lsu.ttl <= MAX_LSU_TTL && Decremented(c.lsu.ttl) == c.lsu.ttl - 1
  {
    assert Inv(net0);
    RunKeepsInv(net0, steps, net);
    assert SoundCopy(net, c);
  }

  /** A stored number never falls; only the database timer can forget it. */
  lemma NumbersRise(net: Net, step: Step, a: Rid, r: Rid)
    requires Inv(net) && Enabled(net, step) && a in net.routers
    ensures a in Apply(net, step).routers
    ensures var before, after := NumberOf(net.routers[a].lsdb, r), NumberOf(Apply(net, step).routers[a].lsdb, r);
      before <= after || (step == Expire(a) && after == -1)
  {
    match step
    case Deliver(i) =>
      StoredNumber(net.routers[a].lsdb, net.flight[i].lsu, r);
    case Expire(q) =>
      assert SoundRouter(net, a);
      AgedNumber(net.routers[a].lsdb, r);
    case _ =>
  }
}
