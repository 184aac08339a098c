/** The daemon's state as it is changed in place by its packet handlers and timers. */
module RouterDaemon {
  import opened Graphs
  import opened LinkState
  import opened Spf
  import opened Routes
  import opened Routers
  import opened Forwarding

  /** A search through a list stopped at its first hit, or ran through it all. */
  lemma {:induction false} StoredSplit(lsdb: seq<DbEntry>, e: nat, lsu: Lsu)
    requires e <= |lsdb| && forall k :: 0 <= k < e ==> lsdb[k].rid != lsu.rid
    ensures Stored(lsdb, lsu) == lsdb[..e] + Stored(lsdb[e..], lsu)
  {
    if e == 0 {
      assert lsdb[0..] == lsdb;
    } else {
      StoredSplit(lsdb[1..], e - 1, lsu);
      assert lsdb[1..][e - 1..] == lsdb[e..];
      var rest := Stored(lsdb[e..], lsu);
      assert Stored(lsdb, lsu) == [lsdb[0]] + (lsdb[1..][..e - 1] + rest);
      assert lsdb[..e] == [lsdb[0]] + lsdb[1..][..e - 1];
    }
  }

  lemma {:induction false} RefreshedSplit(nbrs: seq<Nbr>, j: nat, rid: Rid)
    requires j < |nbrs| && nbrs[j].id == rid && forall k :: 0 <= k < j ==> nbrs[k].id != rid
    ensures Refreshed(nbrs, rid) == nbrs[j := nbrs[j].(alive := DATABASE_TIMEOUT)]
  {
    if j != 0 {
      RefreshedSplit(nbrs[1..], j - 1, rid);
      assert nbrs == [nbrs[0]] + nbrs[1..];
    }
  }

  lemma {:induction false} AgedAppend(a: seq<DbEntry>, e: DbEntry)
    ensures Aged(a + [e]) == Aged(a) + Aged([e])
  {
    if a == [] {
      assert a + [e] == [e];
    } else {
      AgedAppend(a[1..], e);
      assert (a + [e])[1..] == a[1..] + [e];
    }
  }

  lemma {:induction false} AgedNbrsAppend(a: seq<Nbr>, n: Nbr)
    ensures AgedNbrs(a + [n]) == AgedNbrs(a) + AgedNbrs([n])
    ensures |AgedNbrs(a)| <= |a|
  {
    if a == [] {
      assert a + [n] == [n];
    } else {
      AgedNbrsAppend(a[1..], n);
      assert (a + [n])[1..] == a[1..] + [n];
    }
  }

  lemma {:induction false} StoredElements(lsdb: seq<DbEntry>, lsu: Lsu)
    ensures forall x :: x in Stored(lsdb, lsu) ==> x.rid == lsu.rid || x in lsdb
  {
    if lsdb != [] && lsdb[0].rid != lsu.rid {
      StoredElements(lsdb[1..], lsu);
      assert forall x :: x in lsdb[1..] ==> x in lsdb;
    }
  }

  lemma {:induction false} StoredDistinct(lsdb: seq<DbEntry>, lsu: Lsu)
    requires DistinctRids(lsdb)
    ensures DistinctRids(Stored(lsdb, lsu))
  {
    if lsdb != [] && lsdb[0].rid != lsu.rid {
      StoredDistinct(lsdb[1..], lsu);
      var rest := Stored(lsdb[1..], lsu);
      StoredElements(lsdb[1..], lsu);
      forall b | 0 <= b < |rest| ensures rest[b].rid != lsdb[0].rid {
        assert rest[b] in rest;
      }
    }
  }

  /**
   The invariant: counters match lists, neighbours share their interface's subnet and are listed once,
   and there is one database entry per other router.
   */
  ghost predicate WellFormed(s: RouterState) {
    && Counted(s.ifaces) && (forall i :: 0 <= i < |s.ifaces| ==> OnSubnet(s.ifaces[i])) && AllDistinct(s.ifaces)
    && DistinctRids(s.lsdb) && s.View().NoSelfEntry() && s.View().RealIds()
  }

  /** The router had no entry, or an older one. */
  ghost predicate IsNews(lsdb: seq<DbEntry>, lsu: Lsu) {
    forall y :: y in lsdb && y.rid == lsu.rid ==> y.seqNo < lsu.seqNo
  }

  /** Entries of other routers, and one of this router: the update if it is news, else the old one refreshed. */
  ghost predicate StoredFrom(lsdb: seq<DbEntry>, lsu: Lsu, x: DbEntry) {
    if x.rid != lsu.rid then x in lsdb
    else if IsNews(lsdb, lsu) then x == DbEntry(lsu.rid, lsu.seqNo, 40, lsu.lsas)
    else exists y :: y in lsdb && x == y.(alive := 40)
  }

  ghost predicate StoredAs(lsdb: seq<DbEntry>, lsu: Lsu, lsdb': seq<DbEntry>) {
    forall x :: x in lsdb' <==> StoredFrom(lsdb, lsu, x)
  }

  lemma {:induction false} StoredExactly(lsdb: seq<DbEntry>, lsu: Lsu)
    ensures DistinctRids(lsdb) ==> StoredAs(lsdb, lsu, Stored(lsdb, lsu))
  {
    if lsdb != [] && DistinctRids(lsdb) {
      assert lsdb == [lsdb[0]] + lsdb[1..];
      StoredExactly(lsdb[1..], lsu);
      assert lsdb[0] in lsdb;
      forall x ensures x in Stored(lsdb, lsu) <==> StoredFrom(lsdb, lsu, x) {
        assert lsdb[0].rid != lsu.rid ==> (IsNews(lsdb, lsu) <==> IsNews(lsdb[1..], lsu));
      }
    }
  }

  /** Exactly one copy for each neighbour behind each interface but the skipped one. */
  ghost predicate OneEach(ifaces: seq<Iface>, skip: int, lsu: Lsu, out: seq<Out>) {
    && (forall o :: o in out <==> o.iface != skip && NbrBehind(ifaces, o.iface, o.to) && o.lsu == lsu)
    && (AllDistinct(ifaces) ==> NoTwice(out))
  }

  ghost predicate AllDistinct(ifaces: seq<Iface>) {
    forall i :: 0 <= i < |ifaces| ==> DistinctNbrs(ifaces[i])
  }

  /** With hops left, one copy with a hop less for each neighbour on the other interfaces; an 8-bit 0 counts as 256. */
  ghost predicate Passed(ifaces: seq<Iface>, inIface: int, lsu: Lsu, out: seq<Out>) {
    if lsu.ttl == 1 then out == []
    else OneEach(ifaces, inIface, lsu.(ttl := if lsu.ttl == 0 then 255 else lsu.ttl - 1), out)
  }

  lemma CopiesAre(ifaces: seq<Iface>, skip: int, lsu: Lsu)
    ensures OneEach(ifaces, skip, lsu, Copies(ifaces, |ifaces|, skip, lsu))
  {
    var out := Copies(ifaces, |ifaces|, skip, lsu);
    forall o ensures o in out <==> o.iface != skip && NbrBehind(ifaces, o.iface, o.to) && o.lsu == lsu {
      CopiesExactly(ifaces, |ifaces|, skip, lsu, o);
    }
    if AllDistinct(ifaces) {
      CopiesOnce(ifaces, |ifaces|, skip, lsu);
    }
  }

  lemma ForwardedPasses(s: RouterState, inIface: int, lsu: Lsu)
    requires lsu.rid != s.self
    ensures Passed(s.ifaces, inIface, lsu, Forwarded(s, inIface, lsu))
  {
    var ttl := Decremented(lsu.ttl);
    assert ttl == if lsu.ttl == 0 then 255 else lsu.ttl - 1;
    CopiesAre(s.ifaces, inIface, lsu.(ttl := ttl));
  }

  lemma HandledWellFormed(s: RouterState, lsu: Lsu)
    requires WellFormed(s) && RealId(lsu.rid)
    ensures WellFormed(Handled(s, lsu))
  {
    if lsu.rid != s.self {
      var lsdb' := Stored(s.lsdb, lsu);
      StoredElements(s.lsdb, lsu);
      StoredDistinct(s.lsdb, lsu);
      forall a | 0 <= a < |lsdb'| ensures lsdb'[a].rid != s.self && RealId(lsdb'[a].rid) {
        assert lsdb'[a] in lsdb';
      }
    }
  }

  /**
   A known neighbour's time starts again and nothing else changes; an unknown router of the same network is
   added at the end, as it said it is; one of another network is ignored.
   */
  ghost predicate HelloEffect(f: Iface, rid: Rid, ip: Ip, mask: Ip, f': Iface) {
    && f'.ip == f.ip && f'.mask == f.mask
    && if exists j :: 0 <= j < |f.nbrs| && f.nbrs[j].id == rid then
         && |f'.nbrs| == |f.nbrs| && f'.numNbr == f.numNbr
         && forall j :: 0 <= j < |f.nbrs| ==>
              f'.nbrs[j] == if f.nbrs[j].id == rid then f.nbrs[j].(alive := 40) else f.nbrs[j]
       else if f.mask == mask && And(f.ip, f.mask) == And(ip, mask) then
         f'.nbrs == f.nbrs + [Nbr(rid, ip, mask, 40)] && f'.numNbr == f.numNbr + 1
       else f' == f
  }

  lemma {:induction false} RefreshedAt(nbrs: seq<Nbr>, rid: Rid)
    requires forall a, b :: 0 <= a < b < |nbrs| ==> nbrs[a].id != nbrs[b].id
    ensures |Refreshed(nbrs, rid)| == |nbrs|
    ensures forall j :: 0 <= j < |nbrs| ==>
      Refreshed(nbrs, rid)[j] == if nbrs[j].id == rid then nbrs[j].(alive := 40) else nbrs[j]
  {
    if nbrs != [] {
      RefreshedAt(nbrs[1..], rid);
    }
  }

  lemma HelloHasEffect(f: Iface, rid: Rid, ip: Ip, mask: Ip)
    requires DistinctNbrs(f)
    ensures HelloEffect(f, rid, ip, mask, AfterHello(f, rid, ip, mask))
    ensures DistinctNbrs(AfterHello(f, rid, ip, mask))
  {
    RefreshedAt(f.nbrs, rid);
  }

  lemma {:induction false} PrefixFits(self: Rid, ifaces: seq<Iface>, n: nat)
    requires n <= |ifaces|
    ensures |LsaArray(self, ifaces[..n])| <= |LsaArray(self, ifaces)|
    decreases |ifaces| - n
  {
    if n == |ifaces| {
      assert ifaces[..n] == ifaces;
    } else {
      PrefixFits(self, ifaces, n + 1);
      assert ifaces[..n + 1][..n] == ifaces[..n];
    }
  }

  class Router {
    const self: Rid
    var ifaces: seq<Iface>
    var seqNum: u16
    var lsdb: seq<DbEntry>
    const rtable: RoutingTable

    ghost function State(): RouterState
      reads this
    {
      RouterState(self, ifaces, seqNum, lsdb)
    }

    ghost predicate Valid()
      reads this
    {
      WellFormed(State())
    }

    constructor (id: Rid, ports: seq<Iface>)
      requires RealId(id) && forall i :: 0 <= i < |ports| ==> ports[i].nbrs == [] && ports[i].numNbr == 0
      ensures Valid() && State() == RouterState(id, ports, 0, []) && fresh(rtable) && rtable.entries == []
    {
      self, ifaces, seqNum, lsdb := id, ports, 0, [];
      rtable := new RoutingTable();
    }

    method CountLsas() returns (lsaNum: nat)
      ensures lsaNum == |LsaArray(self, ifaces)|
    {
      lsaNum := 0;
      for i := 0 to |ifaces|
        invariant lsaNum == |LsaArray(self, ifaces[..i])|
      {
        assert ifaces[..i + 1][..i] == ifaces[..i];
        lsaNum := lsaNum + if ifaces[i].numNbr == 0 then 1 else |ifaces[i].nbrs|;
      }
      assert ifaces[..|ifaces|] == ifaces;
    }

    /** Writes the advertisements of one interface from `pos` on. */
    method FillIface(f: Iface, buffer: array<Lsa>, pos: nat) returns (end: nat)
      requires pos + |IfaceLsas(self, f)| <= buffer.Length
      modifies buffer
      ensures end == pos + |IfaceLsas(self, f)|
      ensures buffer[..end] == old(buffer[..pos]) + IfaceLsas(self, f)
    {
      end := pos;
      ghost var more := IfaceLsas(self, f);
      if f.numNbr == 0 {
        buffer[end] := Lsa(And(f.ip, f.mask), f.mask, self);
        end := end + 1;
      } else {
        for j := 0 to |f.nbrs|
          invariant end == pos + j
          invariant buffer[..end] == old(buffer[..pos]) + more[..j]
        {
          buffer[end] := NbrLsa(f.nbrs[j]);
          end := end + 1;
          assert more[..j + 1] == more[..j] + [more[j]];
        }
        assert more[..|more|] == more;
      }
    }

    /** generate_mospf_lsu: one pass counts the advertisements, a second fills a buffer of that size. */
    method GenerateLsu() returns (lsu: Lsu)
      ensures lsu == Generated(State())
    {
      var lsaNum := CountLsas();
      var buffer := new Lsa[lsaNum](_ => Lsa(0, 0, 0));
      var pos := 0;
      for i := 0 to |ifaces|
        invariant pos == |LsaArray(self, ifaces[..i])| <= lsaNum
        invariant buffer[..pos] == LsaArray(self, ifaces[..i])
      {
        assert ifaces[..i + 1][..i] == ifaces[..i];
        PrefixFits(self, ifaces, i + 1);
        pos := FillIface(ifaces[i], buffer, pos);
      }
      assert ifaces[..|ifaces|] == ifaces;
      lsu := Lsu(self, seqNum, MAX_LSU_TTL, buffer[..pos]);
    }

    /** One copy for each neighbour on interface `i`. */
    method CopiesOn(i: nat, lsu: Lsu) returns (out: seq<Out>)
      requires i < |ifaces|
      ensures out == IfaceCopies(i, ifaces[i].nbrs, lsu)
    {
      out := [];
      for j := 0 to |ifaces[i].nbrs|
        invariant out == IfaceCopies(i, ifaces[i].nbrs, lsu)[..j]
      {
        out := out + [Out(i, ifaces[i].nbrs[j].id, lsu)];
      }
    }

    /** The same update to every neighbour; the number rises with each copy. */
    method SendCopies(lsu: Lsu) returns (out: seq<Out>)
      modifies `seqNum
      ensures out == Copies(ifaces, |ifaces|, -1, lsu)
      ensures seqNum == (old(seqNum) + |out|) % 0x1_0000
    {
      out := [];
      for i := 0 to |ifaces|
        invariant out == Copies(ifaces, i, -1, lsu)
        invariant seqNum == (old(seqNum) + |out|) % 0x1_0000
      {
        var more := CopiesOn(i, lsu);
        for j := 0 to |more|
          invariant seqNum == (old(seqNum) + |out| + j) % 0x1_0000
        {
          seqNum := (seqNum + 1) % 0x1_0000;
        }
        out := out + more;
      }
    }

    /** send_mospf_lsu: this router's update, once to each neighbour. */
    method SendLsu() returns (out: seq<Out>)
      modifies `seqNum
      ensures out == OriginationCopies(old(State()))
      ensures State() == Originated(old(State()))
      ensures OneEach(ifaces, -1, Lsu(self, old(seqNum), 255, LsaArray(self, ifaces)), out)
      ensures seqNum == (old(seqNum) + |out|) % 0x1_0000
    {
      var lsu := GenerateLsu();
      out := SendCopies(lsu);
      CopiesAre(ifaces, -1, lsu);
    }

    /** spf_run, with the routes the kernel reports as an input. */
    method SpfRun(kernel: seq<RtEntry>)
      requires Valid()
      modifies rtable
      ensures GoodTable(State().View(), kernel, rtable.entries)
      ensures AllCovered(State().View(), rtable.entries, |lsdb|)
    {
      rtable.Replace(View.View(self, ifaces, lsdb), kernel);
    }

    /** The database part of handle_mospf_lsu; true when the entry is new or newer. */
    method StoreLsu(lsu: Lsu) returns (updated: bool)
      modifies `lsdb
      ensures lsdb == Stored(old(lsdb), lsu)
      ensures DistinctRids(old(lsdb)) ==>
        (updated <==> forall x :: x in old(lsdb) && x.rid == lsu.rid ==> x.seqNo < lsu.seqNo)
      ensures DistinctRids(old(lsdb)) ==> StoredAs(old(lsdb), lsu, lsdb)
    {
      StoredExactly(lsdb, lsu);
      var e := FindEntry(lsdb, lsu.rid);
      if e == -1 {
        StoredSplit(lsdb, |lsdb|, lsu);
        assert lsdb[..|lsdb|] == lsdb && lsdb[|lsdb|..] == [];
        lsdb := lsdb + [DbEntry(lsu.rid, lsu.seqNo, DATABASE_TIMEOUT, lsu.lsas)];
        return true;
      }
      StoredSplit(lsdb, e, lsu);
      assert lsdb[e] in lsdb;
      assert lsdb[e..][1..] == lsdb[e + 1..];
      updated := lsu.seqNo > lsdb[e].seqNo;
      if updated {
        lsdb := lsdb[e := DbEntry(lsu.rid, lsu.seqNo, DATABASE_TIMEOUT, lsu.lsas)];
      } else {
        lsdb := lsdb[e := lsdb[e].(alive := DATABASE_TIMEOUT)];
      }
    }

    method ForwardCopies(inIface: nat, lsu: Lsu) returns (out: seq<Out>)
      ensures out == Copies(ifaces, |ifaces|, inIface, lsu)
    {
      out := [];
      for i := 0 to |ifaces|
        invariant out == Copies(ifaces, i, inIface, lsu)
      {
        if i != inIface {
          var more := CopiesOn(i, lsu);
          out := out + more;
        }
      }
    }

    /** Step 6 of handle_mospf_lsu: one hop less to go, and on to everyone else. */
    method ForwardLsu(inIface: nat, lsu: Lsu) returns (out: seq<Out>)
      requires lsu.rid != self
      ensures out == Forwarded(State(), inIface, lsu)
      ensures Passed(ifaces, inIface, lsu, out)
    {
      var ttl := Decremented(lsu.ttl);
      out := [];
      if ttl > 0 {
        out := ForwardCopies(inIface, lsu.(ttl := ttl));
      }
      ForwardedPasses(State(), inIface, lsu);
    }

    /** handle_mospf_lsu, for an update that passed its checksum. */
    method HandleLsu(inIface: nat, lsu: Lsu, kernel: seq<RtEntry>) returns (out: seq<Out>)
      requires Valid() && RealId(lsu.rid)
      modifies `lsdb, rtable
      ensures Valid()
      ensures State() == Handled(old(State()), lsu)
      ensures out == Forwarded(old(State()), inIface, lsu)
      ensures if lsu.rid == self then out == [] && lsdb == old(lsdb)
        else Passed(ifaces, inIface, lsu, out) && StoredAs(old(lsdb), lsu, lsdb)
      ensures if lsu.rid != self && forall x :: x in old(lsdb) && x.rid == lsu.rid ==> x.seqNo < lsu.seqNo
        then GoodTable(State().View(), kernel, rtable.entries) && AllCovered(State().View(), rtable.entries, |lsdb|)
        else rtable.entries == old(rtable.entries)
    {
      if lsu.rid == self {
        return [];
      }
      HandledWellFormed(State(), lsu);
      assert DistinctRids(lsdb);
      var updated := StoreLsu(lsu);
      if updated {
        SpfRun(kernel);
      }
      out := ForwardLsu(inIface, lsu);
    }

    /** update_nbr_list_via_hello: refresh, ignore, or add a neighbour and tell everyone. */
    method UpdateNbrViaHello(i: nat, rid: Rid, ip: Ip, mask: Ip) returns (out: seq<Out>)
      requires Valid() && i < |ifaces| && RealId(rid)
      modifies `ifaces, `seqNum
      ensures Valid()
      ensures ifaces == old(ifaces[i := AfterHello(ifaces[i], rid, ip, mask)])
      ensures var s := old(State()).(ifaces := ifaces);
        if |ifaces[i].nbrs| > |old(ifaces[i].nbrs)|
        then State() == Originated(s) && out == OriginationCopies(s)
        else State() == s && out == []
      ensures HelloEffect(old(ifaces[i]), rid, ip, mask, ifaces[i])
      ensures |ifaces| == |old(ifaces)| && forall k :: 0 <= k < |ifaces| && k != i ==> ifaces[k] == old(ifaces[k])
    {
      var f, added := HelloOn(ifaces[i], rid, ip, mask);
      HelloWellFormed(State(), i, rid, ip, mask);
      ifaces := ifaces[i := f];
      out := [];
      if added {
        out := SendLsu();
      }
    }

    /** One second of the database timer: entries that ran out go, and the routes are computed anew. */
    method CheckDatabase(kernel: seq<RtEntry>)
      requires Valid()
      modifies `lsdb, rtable
      ensures Valid()
      ensures lsdb == Aged(old(lsdb))
      ensures forall x :: x in lsdb <==> AgedFrom(old(lsdb), x)
      ensures if |lsdb| < |old(lsdb)|
        then GoodTable(State().View(), kernel, rtable.entries) && AllCovered(State().View(), rtable.entries, |lsdb|)
        else rtable.entries == old(rtable.entries)
    {
      forall x ensures x in Aged(lsdb) <==> AgedFrom(lsdb, x) {
        AgedExactly(lsdb, x);
      }
      var kept: seq<DbEntry> := [];
      for e := 0 to |lsdb|
        invariant lsdb == old(lsdb) && rtable.entries == old(rtable.entries) && kept == Aged(lsdb[..e]) && |kept| <= e
      {
        assert lsdb[..e + 1] == lsdb[..e] + [lsdb[e]];
        AgedAppend(lsdb[..e], lsdb[e]);
        var left := lsdb[e].alive - 1;
        if left > 0 {
          kept := kept + [lsdb[e].(alive := left)];
        }
      }
      assert lsdb[..|lsdb|] == lsdb;
      var changed := |kept| < |lsdb|;
      AgedWellFormed(State());
      lsdb := kept;
      if changed {
        SpfRun(kernel);
      }
    }

    /** One second of the neighbour timer: neighbours that ran out go, and everyone is told. */
    method CheckNbrs() returns (out: seq<Out>)
      requires Valid()
      modifies `ifaces, `seqNum
      ensures Valid()
      ensures ifaces == seq(|old(ifaces)|, i requires 0 <= i < |old(ifaces)| => AgedIface(old(ifaces)[i]))
      ensures forall i :: 0 <= i < |ifaces| ==> NbrsAged(old(ifaces)[i].nbrs, ifaces[i].nbrs)
      ensures var s := old(State()).(ifaces := ifaces);
        if exists i :: 0 <= i < |ifaces| && |ifaces[i].nbrs| < |old(ifaces)[i].nbrs|
        then State() == Originated(s) && out == OriginationCopies(s)
        else State() == s && out == []
    {
      var updated := false;
      ghost var was := ifaces;
      for i := 0 to |ifaces|
        invariant |ifaces| == |was| && seqNum == old(seqNum)
        invariant forall k :: 0 <= k < i ==> ifaces[k] == AgedIface(was[k]) && NbrsAged(was[k].nbrs, ifaces[k].nbrs)
        invariant forall k :: i <= k < |was| ==> ifaces[k] == was[k]
        invariant updated <==> exists k :: 0 <= k < i && |ifaces[k].nbrs| < |was[k].nbrs|
      {
        var kept := AgeList(ifaces[i].nbrs);
        if |kept| < |ifaces[i].nbrs| {
          updated := true;
        }
        ifaces := ifaces[i := ifaces[i].(nbrs := kept, numNbr := ifaces[i].numNbr - (|ifaces[i].nbrs| - |kept|))];
      }
      AgedNbrsWellFormed(old(State()), ifaces);
      out := [];
      if updated {
        out := SendLsu();
      }
    }
  }

  /** The interface's neighbours after a hello, and whether there is a new one. */
  method HelloOn(f: Iface, rid: Rid, ip: Ip, mask: Ip) returns (f': Iface, added: bool)
    requires DistinctNbrs(f)
    ensures f' == AfterHello(f, rid, ip, mask)
    ensures HelloEffect(f, rid, ip, mask, f')
    ensures added <==> |f.nbrs| < |f'.nbrs|
  {
    HelloHasEffect(f, rid, ip, mask);
    for j := 0 to |f.nbrs|
      invariant forall k :: 0 <= k < j ==> f.nbrs[k].id != rid
    {
      if f.nbrs[j].id == rid {
        RefreshedSplit(f.nbrs, j, rid);
        return f.(nbrs := f.nbrs[j := f.nbrs[j].(alive := DATABASE_TIMEOUT)]), false;
      }
    }
    if f.mask != mask || And(f.ip, f.mask) != And(ip, mask) {
      return f, false;
    }
    return f.(nbrs := f.nbrs + [Nbr(rid, ip, mask, DATABASE_TIMEOUT)], numNbr := f.numNbr + 1), true;
  }

  lemma HelloWellFormed(s: RouterState, i: nat, rid: Rid, ip: Ip, mask: Ip)
    requires WellFormed(s) && i < |s.ifaces| && RealId(rid)
    ensures WellFormed(s.(ifaces := s.ifaces[i := AfterHello(s.ifaces[i], rid, ip, mask)]))
  {
    var f := s.ifaces[i];
    assert OnSubnet(f) && DistinctNbrs(f);
    HelloHasEffect(f, rid, ip, mask);
    var f' := AfterHello(f, rid, ip, mask);
    assert forall j :: 0 <= j < |f'.nbrs| ==> SameNetwork(f', f'.nbrs[j].ip, f'.nbrs[j].mask) && RealId(f'.nbrs[j].id);
  }

  /** Those with time left, each a second older. */
  ghost predicate NbrsAged(nbrs: seq<Nbr>, kept: seq<Nbr>) {
    forall n :: n in kept <==> AgedNbrFrom(nbrs, n)
  }

  lemma AllNbrsAged(nbrs: seq<Nbr>)
    ensures NbrsAged(nbrs, AgedNbrs(nbrs))
  {
    forall n ensures n in AgedNbrs(nbrs) <==> AgedNbrFrom(nbrs, n) {
      AgedNbrsExactly(nbrs, n);
    }
  }

  method AgeList(nbrs: seq<Nbr>) returns (kept: seq<Nbr>)
    ensures kept == AgedNbrs(nbrs) && |kept| <= |nbrs|
    ensures NbrsAged(nbrs, kept)
  {
    AllNbrsAged(nbrs);
    kept := [];
    for j := 0 to |nbrs|
      invariant kept == AgedNbrs(nbrs[..j]) && |kept| <= j
    {
      assert nbrs[..j + 1] == nbrs[..j] + [nbrs[j]];
      AgedNbrsAppend(nbrs[..j], nbrs[j]);
      if nbrs[j].alive > 0 {
        kept := kept + [nbrs[j].(alive := nbrs[j].alive - 1)];
      }
    }
    assert nbrs[..|nbrs|] == nbrs;
  }

  lemma {:induction false} AgedKeepsRids(lsdb: seq<DbEntry>)
    ensures forall x :: x in Aged(lsdb) ==>
      exists y :: y in lsdb && y.rid == x.rid && y.seqNo == x.seqNo && y.lsas == x.lsas
    ensures DistinctRids(lsdb) ==> DistinctRids(Aged(lsdb))
  {
    if lsdb != [] {
      AgedKeepsRids(lsdb[1..]);
      var rest := Aged(lsdb[1..]);
      forall x | x in Aged(lsdb)
        ensures exists y :: y in lsdb && y.rid == x.rid && y.seqNo == x.seqNo && y.lsas == x.lsas
      {
        if x in rest {
          var y :| y in lsdb[1..] && y.rid == x.rid && y.seqNo == x.seqNo && y.lsas == x.lsas;
          assert y in lsdb;
        } else {
          assert lsdb[0] in lsdb;
        }
      }
      if DistinctRids(lsdb) {
        forall b | 0 <= b < |rest| ensures rest[b].rid != lsdb[0].rid {
          assert rest[b] in rest;
        }
      }
    }
  }

  lemma AgedWellFormed(s: RouterState)
    requires WellFormed(s)
    ensures WellFormed(s.(lsdb := Aged(s.lsdb)))
  {
    AgedKeepsRids(s.lsdb);
    assert DistinctRids(s.lsdb);
    var lsdb' := Aged(s.lsdb);
    forall a | 0 <= a < |lsdb'| ensures lsdb'[a].rid != s.self && RealId(lsdb'[a].rid) {
      assert lsdb'[a] in lsdb';
    }
  }

  ghost predicate WasIn(nbrs: seq<Nbr>, n: Nbr) {
    exists m :: m in nbrs && m.id == n.id && m.ip == n.ip && m.mask == n.mask
  }

  lemma {:induction false} AgedNbrsKeepIds(nbrs: seq<Nbr>)
    ensures |AgedNbrs(nbrs)| <= |nbrs|
    ensures forall n :: n in AgedNbrs(nbrs) ==> WasIn(nbrs, n)
  {
    if nbrs != [] {
      AgedNbrsKeepIds(nbrs[1..]);
      forall n | n in AgedNbrs(nbrs) ensures WasIn(nbrs, n) {
        if n in AgedNbrs(nbrs[1..]) {
          var m :| m in nbrs[1..] && m.id == n.id && m.ip == n.ip && m.mask == n.mask;
          assert m in nbrs;
        } else {
          assert nbrs[0] in nbrs;
        }
      }
    }
  }

  lemma AgedNbrsWellFormed(s: RouterState, ifaces: seq<Iface>)
    requires WellFormed(s)
    requires |ifaces| == |s.ifaces| && forall i :: 0 <= i < |ifaces| ==> ifaces[i] == AgedIface(s.ifaces[i])
    ensures WellFormed(s.(ifaces := ifaces))
  {
    forall i, j | 0 <= i < |ifaces| && 0 <= j < |ifaces[i].nbrs|
      ensures RealId(ifaces[i].nbrs[j].id) && SameNetwork(ifaces[i], ifaces[i].nbrs[j].ip, ifaces[i].nbrs[j].mask)
    {
      AgedNbrsKeepIds(s.ifaces[i].nbrs);
      assert WasIn(s.ifaces[i].nbrs, ifaces[i].nbrs[j]);
      var m :| m in s.ifaces[i].nbrs && m.id == ifaces[i].nbrs[j].id
        && m.ip == ifaces[i].nbrs[j].ip && m.mask == ifaces[i].nbrs[j].mask;
      assert OnSubnet(s.ifaces[i]);
    }
    forall i | 0 <= i < |ifaces| ensures DistinctNbrs(ifaces[i]) {
      assert DistinctNbrs(s.ifaces[i]);
      AgedNbrsDistinct(s.ifaces[i]);
    }
  }
}
