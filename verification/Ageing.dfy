/** How long database entries and neighbours are remembered, over every run. */
module Ageing {
  import opened Graphs
  import opened LinkState
  import opened Routers
  import opened RouterDaemon
  import opened Network
  import Agreement

  // ---------- database entries ----------

  ghost predicate Known(lsdb: seq<DbEntry>, r: Rid) {
    exists x :: x in lsdb && x.rid == r
  }

  /** The entry of router `r` has `k` seconds left; with none left there is no entry. */
  ghost predicate Left(lsdb: seq<DbEntry>, r: Rid, k: nat) {
    if k == 0 then !Known(lsdb, r) else exists x :: x in lsdb && x.rid == r && x.alive == k
  }

  lemma SameEntry(lsdb: seq<DbEntry>, x: DbEntry, y: DbEntry)
    requires DistinctRids(lsdb) && x in lsdb && y in lsdb && x.rid == y.rid
    ensures x == y
  {
    var a :| 0 <= a < |lsdb| && lsdb[a] == x;
    var b :| 0 <= b < |lsdb| && lsdb[b] == y;
    assert a == b;
  }

  /** A second passes. */
  lemma AgedLeft(lsdb: seq<DbEntry>, r: Rid, k: nat)
    requires DistinctRids(lsdb) && Left(lsdb, r, k)
    ensures Left(Aged(lsdb), r, if k == 0 then 0 else k - 1)
  {
    if k <= 1 {
      forall x | x in Aged(lsdb) ensures x.rid != r {
        AgedExactly(lsdb, x);
        var y :| y in lsdb && y.alive > 1 && x == y.(alive := y.alive - 1);
        assert forall z :: z in lsdb && z.rid == y.rid ==> z == y by {
          forall z | z in lsdb && z.rid == y.rid ensures z == y {
            SameEntry(lsdb, y, z);
          }
        }
      }
    } else {
      var y :| y in lsdb && y.rid == r && y.alive == k;
      AgedExactly(lsdb, y.(alive := k - 1));
    }
  }

  /** An update of router `r`, new or old, starts its time again. */
  lemma StoredLeft(lsdb: seq<DbEntry>, lsu: Lsu)
    requires DistinctRids(lsdb)
    ensures Left(Stored(lsdb, lsu), lsu.rid, 40)
  {
    StoredExactly(lsdb, lsu);
    if IsNews(lsdb, lsu) {
      assert StoredFrom(lsdb, lsu, DbEntry(lsu.rid, lsu.seqNo, 40, lsu.lsas));
    } else {
      var y :| y in lsdb && y.rid == lsu.rid && !(y.seqNo < lsu.seqNo);
      assert StoredFrom(lsdb, lsu, y.(alive := 40));
    }
  }

  lemma OthersLeft(lsdb: seq<DbEntry>, lsu: Lsu, r: Rid, k: nat)
    requires DistinctRids(lsdb) && r != lsu.rid && Left(lsdb, r, k)
    ensures Left(Stored(lsdb, lsu), r, k)
  {
    StoredExactly(lsdb, lsu);
    if k == 0 {
      assert forall x :: x in Stored(lsdb, lsu) && x.rid == r ==> StoredFrom(lsdb, lsu, x);
    } else {
      var y :| y in lsdb && y.rid == r && y.alive == k;
      assert StoredFrom(lsdb, lsu, y);
    }
  }

  /** The step delivers an update of router `r` to router `a`. */
  ghost predicate Hears(net: Net, step: Step, a: Rid, r: Rid)
    requires Enabled(net, step)
  {
    step.Deliver? && net.flight[step.i].dst == a && net.flight[step.i].lsu.rid == r
  }

  /** During the run nothing of router `r` reaches router `a`. */
  ghost predicate Unheard(net: Net, steps: seq<Step>, a: Rid, r: Rid)
    decreases |steps|
  {
    steps == []
    || (Enabled(net, steps[0]) && !Hears(net, steps[0], a, r) && Unheard(Apply(net, steps[0]), steps[1..], a, r))
  }

  /** How often the database timer of router `a` runs. */
  ghost function Seconds(steps: seq<Step>, a: Rid): nat {
    if steps == [] then 0 else (if steps[0] == Expire(a) then 1 else 0) + Seconds(steps[1..], a)
  }

  lemma StepLeft(net: Net, step: Step, a: Rid, r: Rid, k: nat)
    requires Agreement.Inv(net) && Enabled(net, step) && a in net.routers && !Hears(net, step, a, r)
    requires Left(net.routers[a].lsdb, r, k)
    ensures a in Apply(net, step).routers
    ensures Left(Apply(net, step).routers[a].lsdb, r, if step == Expire(a) && k > 0 then k - 1 else k)
  {
    assert Agreement.SoundRouter(net, a);
    if step == Expire(a) {
      AgedLeft(net.routers[a].lsdb, r, k);
    } else if step.Deliver? && net.flight[step.i].dst == a {
      OthersLeft(net.routers[a].lsdb, net.flight[step.i].lsu, r, k);
    }
  }

  /** Without news of its router, an entry's time runs down by one with every second, and at the end it is gone. */
  lemma {:induction false} RunLeft(net: Net, steps: seq<Step>, net': Net, a: Rid, r: Rid, k: nat)
    requires Agreement.Inv(net) && Run(net, steps, net') && Unheard(net, steps, a, r)
    requires a in net.routers && Left(net.routers[a].lsdb, r, k)
    ensures a in net'.routers
    ensures Left(net'.routers[a].lsdb, r, if Seconds(steps, a) < k then k - Seconds(steps, a) else 0)
    decreases |steps|
  {
    if steps != [] {
      StepLeft(net, steps[0], a, r, k);
      Agreement.StepKeepsInv(net, steps[0]);
      RunLeft(Apply(net, steps[0]), steps[1..], net', a, r, if steps[0] == Expire(a) && k > 0 then k - 1 else k);
    }
  }

  /**
   After an update of router `r` has come to router `a`, and until the next one comes, `r` is in the
   database of `a` if and only if its timer has run fewer than forty times.
   */
  lemma EntriesLiveFortySeconds(net: Net, i: nat, steps: seq<Step>, net': Net)
    requires Agreement.Inv(net) && Enabled(net, Deliver(i)) && net.flight[i].lsu.rid != net.flight[i].dst
    requires Run(AfterDeliver(net, i), steps, net')
    requires Unheard(AfterDeliver(net, i), steps, net.flight[i].dst, net.flight[i].lsu.rid)
    ensures var a, r := net.flight[i].dst, net.flight[i].lsu.rid;
      a in net'.routers && (Known(net'.routers[a].lsdb, r) <==> Seconds(steps, a) < 40)
  {
    var a, lsu := net.flight[i].dst, net.flight[i].lsu;
    assert Agreement.SoundRouter(net, a);
    StoredLeft(net.routers[a].lsdb, lsu);
    Agreement.StepKeepsInv(net, Deliver(i));
    RunLeft(AfterDeliver(net, i), steps, net', a, lsu.rid, 40);
  }

  // ---------- neighbours ----------

  /** What happens to one interface's neighbour list: a hello, or a second of the neighbour timer. */
  datatype IfaceEvent = Hello(rid: Rid, ip: Ip, mask: Ip) | Tick

  function IfaceStep(f: Iface, ev: IfaceEvent): Iface {
    match ev
    case Hello(rid, ip, mask) => AfterHello(f, rid, ip, mask)
    case Tick => AgedIface(f)
  }

  function IfaceAfter(f: Iface, events: seq<IfaceEvent>): Iface
    decreases |events|
  {
    if events == [] then f else IfaceAfter(IfaceStep(f, events[0]), events[1..])
  }

  ghost function Ticks(events: seq<IfaceEvent>): nat {
    if events == [] then 0 else (if events[0].Tick? then 1 else 0) + Ticks(events[1..])
  }

  /** The neighbour has `k` seconds left; below zero it is not there. */
  ghost predicate NbrLeft(nbrs: seq<Nbr>, r: Rid, k: int) {
    if k < 0 then !Knows(nbrs, r) else exists j :: 0 <= j < |nbrs| && nbrs[j].id == r && nbrs[j].alive == k
  }

  lemma TickLeft(f: Iface, r: Rid, k: int)
    requires DistinctNbrs(f) && NbrLeft(f.nbrs, r, k)
    ensures NbrLeft(AgedIface(f).nbrs, r, if k < 0 then k else k - 1) && DistinctNbrs(AgedIface(f))
  {
    AgedNbrsDistinct(f);
    var nbrs := AgedNbrs(f.nbrs);
    if k <= 0 {
      forall j | 0 <= j < |nbrs| ensures nbrs[j].id != r {
        AgedNbrsExactly(f.nbrs, nbrs[j]);
        var m :| m in f.nbrs && m.alive > 0 && nbrs[j] == m.(alive := m.alive - 1);
        var b :| 0 <= b < |f.nbrs| && f.nbrs[b] == m;
      }
    } else {
      var j :| 0 <= j < |f.nbrs| && f.nbrs[j].id == r && f.nbrs[j].alive == k;
      var n := f.nbrs[j].(alive := k - 1);
      assert f.nbrs[j] in f.nbrs;
      AgedNbrsExactly(f.nbrs, n);
      var b :| 0 <= b < |nbrs| && nbrs[b] == n;
    }
  }

  lemma OtherHelloLeft(f: Iface, r: Rid, k: int, rid: Rid, ip: Ip, mask: Ip)
    requires DistinctNbrs(f) && NbrLeft(f.nbrs, r, k) && rid != r
    ensures NbrLeft(AfterHello(f, rid, ip, mask).nbrs, r, k) && DistinctNbrs(AfterHello(f, rid, ip, mask))
  {
    HelloHasEffect(f, rid, ip, mask);
    var nbrs := AfterHello(f, rid, ip, mask).nbrs;
    assert forall j :: 0 <= j < |f.nbrs| && f.nbrs[j].id != rid ==> nbrs[j] == f.nbrs[j];
    if k >= 0 {
      var j :| 0 <= j < |f.nbrs| && f.nbrs[j].id == r && f.nbrs[j].alive == k;
      assert nbrs[j] == f.nbrs[j];
    } else {
      assert forall j :: 0 <= j < |f.nbrs| ==> f.nbrs[j].id != r && nbrs[j].id == f.nbrs[j].id;
    }
  }

  lemma {:induction false} EventsLeft(f: Iface, events: seq<IfaceEvent>, r: Rid, k: int)
    requires DistinctNbrs(f) && NbrLeft(f.nbrs, r, k) && -1 <= k
    requires forall i :: 0 <= i < |events| && events[i].Hello? ==> events[i].rid != r
    ensures NbrLeft(IfaceAfter(f, events).nbrs, r, if Ticks(events) <= k then k - Ticks(events) else -1)
    decreases |events|
  {
    if events != [] {
      match events[0] {
        case Hello(rid, ip, mask) =>
          OtherHelloLeft(f, r, k, rid, ip, mask);
          EventsLeft(IfaceStep(f, events[0]), events[1..], r, k);
        case Tick =>
          TickLeft(f, r, k);
          EventsLeft(IfaceStep(f, events[0]), events[1..], r, if k < 0 then k else k - 1);
      }
    }
  }

  /**
   After a hello that was not ignored, and until the next one, its sender is a neighbour if and only
   if the neighbour timer has run at most forty times: it goes with the forty-first.
   */
  lemma NeighboursLiveFortySeconds(f: Iface, rid: Rid, ip: Ip, mask: Ip, events: seq<IfaceEvent>)
    requires DistinctNbrs(f) && (Knows(f.nbrs, rid) || SameNetwork(f, ip, mask))
    requires forall i :: 0 <= i < |events| && events[i].Hello? ==> events[i].rid != rid
    ensures Knows(IfaceAfter(AfterHello(f, rid, ip, mask), events).nbrs, rid) <==> Ticks(events) <= 40
  {
    HelloHasEffect(f, rid, ip, mask);
    var g := AfterHello(f, rid, ip, mask);
    if Knows(f.nbrs, rid) {
      var j :| 0 <= j < |f.nbrs| && f.nbrs[j].id == rid;
      assert g.nbrs[j] == f.nbrs[j].(alive := 40);
    } else {
      assert g.nbrs[|f.nbrs|] == Nbr(rid, ip, mask, 40);
    }
    EventsLeft(g, events, rid, 40);
  }
}
