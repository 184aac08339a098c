/** Many routers and the link-state updates in flight between them, as one step system. */
module Network {
  import opened Graphs
  import opened LinkState
  import opened Routers
  import opened RouterDaemon

  /** An update on its way to router `dst`, where it will arrive on interface `inIface`. */
  datatype Copy = Copy(dst: Rid, inIface: int, lsu: Lsu)

  datatype Origin = Origin(rid: Rid, seqNo: u16, lsas: seq<Lsa>)

  /** From a router, one of its interfaces and a neighbour behind it to the interface that neighbour receives on. */
  type Cabling = map<(Rid, nat, Rid), nat>

  datatype Net = Net(routers: map<Rid, RouterState>, cables: Cabling, flight: seq<Copy>,
                     origins: set<Origin>)   // every update ever originated

  datatype Step =
    | Originate(r: Rid)
    | Deliver(i: nat)
    | Lose(i: nat)
    | Duplicate(i: nat)
    | Expire(r: Rid)                            // one second of a router's database timer
    | SetIfaces(r: Rid, ifaces: seq<Iface>)     // hellos and neighbour timeouts

  function Arrival(cables: Cabling, from: Rid, o: Out): Copy {
    Copy(o.to, if (from, o.iface, o.to) in cables then cables[(from, o.iface, o.to)] else -1, o.lsu)
  }

  function Sent(cables: Cabling, from: Rid, out: seq<Out>): seq<Copy> {
    seq(|out|, k requires 0 <= k < |out| => Arrival(cables, from, out[k]))
  }

  function Without(flight: seq<Copy>, i: nat): seq<Copy>
    requires i < |flight|
  {
    flight[..i] + flight[i + 1..]
  }

  /** Sequence numbers do not wrap: fewer than 65536 increments per router. */
  ghost predicate Enabled(net: Net, step: Step) {
    match step
    case Originate(r) =>
      r in net.routers && net.routers[r].seqNum + |OriginationCopies(net.routers[r])| < 0x1_0000
    case Deliver(i) => i < |net.flight| && net.flight[i].dst in net.routers
    case Lose(i) => i < |net.flight|
    case Duplicate(i) => i < |net.flight|
    case Expire(r) => r in net.routers
    case SetIfaces(r, ifaces) => r in net.routers
  }

  function OriginOf(s: RouterState): Origin {
    Origin(s.self, s.seqNum, LsaArray(s.self, s.ifaces))
  }

  function AfterOriginate(net: Net, r: Rid): Net
    requires r in net.routers
  {
    var s := net.routers[r];
    var out := OriginationCopies(s);
    net.(routers := net.routers[r := Originated(s)],
         flight := net.flight + Sent(net.cables, r, out),
         origins := net.origins + if out == [] then {} else {OriginOf(s)})
  }

  function AfterDeliver(net: Net, i: nat): Net
    requires i < |net.flight| && net.flight[i].dst in net.routers
  {
    var c := net.flight[i];
    var s := net.routers[c.dst];
    net.(routers := net.routers[c.dst := Handled(s, c.lsu)],
         flight := Without(net.flight, i) + Sent(net.cables, c.dst, Forwarded(s, c.inIface, c.lsu)))
  }

  ghost function Apply(net: Net, step: Step): Net
    requires Enabled(net, step)
  {
    match step
    case Originate(r) => AfterOriginate(net, r)
    case Deliver(i) => AfterDeliver(net, i)
    case Lose(i) => net.(flight := Without(net.flight, i))
    case Duplicate(i) => net.(flight := net.flight + [net.flight[i]])
    case Expire(r) => net.(routers := net.routers[r := net.routers[r].(lsdb := Aged(net.routers[r].lsdb))])
    case SetIfaces(r, ifaces) => net.(routers := net.routers[r := net.routers[r].(ifaces := ifaces)])
  }

  ghost predicate Run(net: Net, steps: seq<Step>, net': Net)
    decreases |steps|
  {
    if steps == [] then net' == net
    else Enabled(net, steps[0]) && Run(Apply(net, steps[0]), steps[1..], net')
  }

  // ---------- copies ----------

  lemma SentIn(cables: Cabling, from: Rid, out: seq<Out>, o: Out)
    requires o in out
    ensures Arrival(cables, from, o) in Sent(cables, from, out)
  {
    var k :| 0 <= k < |out| && out[k] == o;
    assert Sent(cables, from, out)[k] == Arrival(cables, from, o);
  }

  lemma SentFrom(cables: Cabling, from: Rid, out: seq<Out>, c: Copy)
    requires c in Sent(cables, from, out)
    ensures exists o :: o in out && c == Arrival(cables, from, o)
  {
    var k :| 0 <= k < |out| && Sent(cables, from, out)[k] == c;
    assert out[k] in out;
  }

  /** What origination sends: this router's own update, with a full time to live. */
  lemma OriginationCarries(s: RouterState, cables: Cabling, c: Copy)
    requires c in Sent(cables, s.self, OriginationCopies(s))
    ensures c.lsu == Generated(s) && OriginationCopies(s) != []
  {
    SentFrom(cables, s.self, OriginationCopies(s), c);
    var o :| o in OriginationCopies(s) && c == Arrival(cables, s.self, o);
    CopiesExactly(s.ifaces, |s.ifaces|, -1, Generated(s), o);
  }

  /** What forwarding sends: the update received, one hop older. */
  lemma ForwardingCarries(s: RouterState, from: Rid, cables: Cabling, inIface: int, lsu: Lsu, c: Copy)
    requires c in Sent(cables, from, Forwarded(s, inIface, lsu))
    ensures c.lsu == lsu.(ttl := Decremented(lsu.ttl)) && c.lsu.ttl != 0
  {
    SentFrom(cables, from, Forwarded(s, inIface, lsu), c);
    var o :| o in Forwarded(s, inIface, lsu) && c == Arrival(cables, from, o);
    CopiesExactly(s.ifaces, |s.ifaces|, inIface, lsu.(ttl := Decremented(lsu.ttl)), o);
  }

  // ---------- what a database holds ----------

  function EntryOrigin(x: DbEntry): Origin {
    Origin(x.rid, x.seqNo, x.lsas)
  }

  function LsuOrigin(lsu: Lsu): Origin {
    Origin(lsu.rid, lsu.seqNo, lsu.lsas)
  }

  ghost function Held(lsdb: seq<DbEntry>): set<Origin> {
    set x | x in lsdb :: EntryOrigin(x)
  }

  lemma {:induction false} StoredHolds(lsdb: seq<DbEntry>, lsu: Lsu)
    ensures Held(Stored(lsdb, lsu)) <= Held(lsdb) + {LsuOrigin(lsu)}
  {
    if lsdb != [] {
      if lsdb[0].rid != lsu.rid {
        StoredHolds(lsdb[1..], lsu);
      }
      HeldCons(lsdb[0], lsdb[1..]);
      assert lsdb == [lsdb[0]] + lsdb[1..];
      HeldCons(Stored(lsdb, lsu)[0], Stored(lsdb, lsu)[1..]);
      assert Stored(lsdb, lsu) == [Stored(lsdb, lsu)[0]] + Stored(lsdb, lsu)[1..];
    }
  }

  lemma HeldCons(x: DbEntry, rest: seq<DbEntry>)
    ensures Held([x] + rest) == Held(rest) + {EntryOrigin(x)}
  {
    var all := [x] + rest;
    assert forall y :: y in all <==> y == x || y in rest;
  }

  lemma {:induction false} AgedHolds(lsdb: seq<DbEntry>)
    ensures Held(Aged(lsdb)) <= Held(lsdb)
  {
    if lsdb != [] {
      AgedHolds(lsdb[1..]);
      HeldCons(lsdb[0], lsdb[1..]);
      assert lsdb == [lsdb[0]] + lsdb[1..];
      if lsdb[0].alive - 1 > 0 {
        HeldCons(lsdb[0].(alive := lsdb[0].alive - 1), Aged(lsdb[1..]));
      }
    }
  }

  /** The number stored for a router, or -1. */
  function NumberOf(lsdb: seq<DbEntry>, r: Rid): (n: int)
    ensures n >= -1
  {
    if lsdb == [] then -1 else if lsdb[0].rid == r then lsdb[0].seqNo else NumberOf(lsdb[1..], r)
  }

  /** Storing an update leaves the greater of the old number and its own, and other numbers alone. */
  lemma {:induction false} StoredNumber(lsdb: seq<DbEntry>, lsu: Lsu, r: Rid)
    ensures NumberOf(Stored(lsdb, lsu), r) ==
      if r == lsu.rid && NumberOf(lsdb, r) < lsu.seqNo then lsu.seqNo else NumberOf(lsdb, r)
  {
    if lsdb != [] && lsdb[0].rid != lsu.rid {
      StoredNumber(lsdb[1..], lsu, r);
    }
  }

  /**
   An update is taken in exactly when its number exceeds the stored one, or it is what is stored
   already. One whose 16-bit number has wrapped is therefore lost.
   */
  lemma {:induction false} StoredIffNewer(lsdb: seq<DbEntry>, lsu: Lsu)
    requires DistinctRids(lsdb)
    ensures LsuOrigin(lsu) in Held(Stored(lsdb, lsu)) <==>
      NumberOf(lsdb, lsu.rid) < lsu.seqNo || LsuOrigin(lsu) in Held(lsdb)
  {
    if lsdb == [] {
      HeldCons(Stored(lsdb, lsu)[0], []);
      assert Stored(lsdb, lsu) == [Stored(lsdb, lsu)[0]] + [];
    } else {
      var all := Stored(lsdb, lsu);
      HeldCons(lsdb[0], lsdb[1..]);
      assert lsdb == [lsdb[0]] + lsdb[1..];
      HeldCons(all[0], all[1..]);
      assert all == [all[0]] + all[1..];
      if lsdb[0].rid == lsu.rid {
        RidAbsent(lsdb[1..], LsuOrigin(lsu));
      } else {
        StoredIffNewer(lsdb[1..], lsu);
      }
    }
  }

  lemma RidAbsent(lsdb: seq<DbEntry>, o: Origin)
    requires forall x :: x in lsdb ==> x.rid != o.rid
    ensures o !in Held(lsdb)
  {
  }

  /** Ageing keeps a number or forgets it. */
  lemma {:induction false} AgedNumber(lsdb: seq<DbEntry>, r: Rid)
    requires DistinctRids(lsdb)
    ensures NumberOf(Aged(lsdb), r) in {-1, NumberOf(lsdb, r)}
  {
    if lsdb != [] {
      AgedNumber(lsdb[1..], r);
      assert [] + Aged(lsdb[1..]) == Aged(lsdb[1..]);
      if lsdb[0].rid == r {
        AgedKeepsRids(lsdb[1..]);
        forall x | x in Aged(lsdb[1..]) ensures x.rid != r {
          var y :| y in lsdb[1..] && y.rid == x.rid;
          var b :| 0 <= b < |lsdb[1..]| && lsdb[1..][b] == y;
          assert lsdb[b + 1].rid != lsdb[0].rid;
        }
        NumberAbsent(Aged(lsdb[1..]), r);
      }
    }
  }

  lemma {:induction false} NumberAbsent(lsdb: seq<DbEntry>, r: Rid)
    requires forall x :: x in lsdb ==> x.rid != r
    ensures NumberOf(lsdb, r) == -1
  {
    if lsdb != [] {
      assert lsdb[0] in lsdb;
      NumberAbsent(lsdb[1..], r);
    }
  }

  lemma {:induction false} NumberPresent(lsdb: seq<DbEntry>, r: Rid) returns (x: DbEntry)
    requires NumberOf(lsdb, r) >= 0
    ensures x in lsdb && x.rid == r && x.seqNo == NumberOf(lsdb, r)
  {
    if lsdb[0].rid == r {
      x := lsdb[0];
    } else {
      x := NumberPresent(lsdb[1..], r);
    }
  }
}
