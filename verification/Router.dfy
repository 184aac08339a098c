/** One mOSPF router: neighbours, origination of link-state updates, and the database they fill. */
module Routers {
  import opened Graphs
  import opened LinkState
  import opened Routes

  const DATABASE_TIMEOUT := 40
  const MAX_LSU_TTL := 255

  datatype Lsu = Lsu(rid: Rid, seqNo: u16, ttl: u8, lsas: seq<Lsa>)

  /** A copy handed to the IP layer, for the neighbour `to` behind interface `iface`. */
  datatype Out = Out(iface: nat, to: Rid, lsu: Lsu)

  datatype RouterState = RouterState(self: Rid, ifaces: seq<Iface>, seqNum: u16, lsdb: seq<DbEntry>) {
    function View(): View {
      LinkState.View.View(self, ifaces, lsdb)
    }
  }

  // ---------- origination ----------

  function NbrLsa(n: Nbr): Lsa {
    Lsa(And(n.ip, n.mask), n.mask, n.id)
  }

  /** One advertisement per neighbour, or one naming this router where there is none. */
  function IfaceLsas(self: Rid, f: Iface): seq<Lsa> {
    if f.numNbr == 0 then [Lsa(And(f.ip, f.mask), f.mask, self)]
    else seq(|f.nbrs|, j requires 0 <= j < |f.nbrs| => NbrLsa(f.nbrs[j]))
  }

  function LsaArray(self: Rid, ifaces: seq<Iface>): seq<Lsa> {
    if ifaces == [] then []
    else LsaArray(self, ifaces[..|ifaces| - 1]) + IfaceLsas(self, ifaces[|ifaces| - 1])
  }

  function Generated(s: RouterState): Lsu {
    Lsu(s.self, s.seqNum, MAX_LSU_TTL, LsaArray(s.self, s.ifaces))
  }

  function IfaceCopies(i: nat, nbrs: seq<Nbr>, lsu: Lsu): seq<Out> {
    seq(|nbrs|, j requires 0 <= j < |nbrs| => Out(i, nbrs[j].id, lsu))
  }

  /** One copy for every neighbour on the first `n` interfaces, but for interface `skip`. */
  function Copies(ifaces: seq<Iface>, n: nat, skip: int, lsu: Lsu): seq<Out>
    requires n <= |ifaces|
  {
    if n == 0 then []
    else Copies(ifaces, n - 1, skip, lsu)
         + (if n - 1 == skip then [] else IfaceCopies(n - 1, ifaces[n - 1].nbrs, lsu))
  }

  function OriginationCopies(s: RouterState): seq<Out> {
    Copies(s.ifaces, |s.ifaces|, -1, Generated(s))
  }

  /** The sequence number goes up once per copy sent, in 16 bits. */
  function Originated(s: RouterState): RouterState {
    s.(seqNum := (s.seqNum + |OriginationCopies(s)|) % 0x1_0000)
  }

  // ---------- the database ----------

  function Stored(lsdb: seq<DbEntry>, lsu: Lsu): seq<DbEntry> {
    if lsdb == [] then [DbEntry(lsu.rid, lsu.seqNo, DATABASE_TIMEOUT, lsu.lsas)]
    else if lsdb[0].rid == lsu.rid then
      [if lsu.seqNo > lsdb[0].seqNo then DbEntry(lsu.rid, lsu.seqNo, DATABASE_TIMEOUT, lsu.lsas)
       else lsdb[0].(alive := DATABASE_TIMEOUT)] + lsdb[1..]
    else [lsdb[0]] + Stored(lsdb[1..], lsu)
  }

  function Decremented(ttl: u8): u8 {
    (ttl - 1) % 0x100
  }

  function Handled(s: RouterState, lsu: Lsu): RouterState {
    if lsu.rid == s.self then s else s.(lsdb := Stored(s.lsdb, lsu))
  }

  function Forwarded(s: RouterState, inIface: int, lsu: Lsu): seq<Out> {
    var ttl := Decremented(lsu.ttl);
    if lsu.rid == s.self || ttl == 0 then []
    else Copies(s.ifaces, |s.ifaces|, inIface, lsu.(ttl := ttl))
  }

  function Aged(lsdb: seq<DbEntry>): seq<DbEntry> {
    if lsdb == [] then []
    else (if lsdb[0].alive - 1 <= 0 then [] else [lsdb[0].(alive := lsdb[0].alive - 1)]) + Aged(lsdb[1..])
  }

  // ---------- neighbours ----------

  function Refreshed(nbrs: seq<Nbr>, rid: Rid): seq<Nbr> {
    if nbrs == [] then []
    else if nbrs[0].id == rid then [nbrs[0].(alive := DATABASE_TIMEOUT)] + nbrs[1..]
    else [nbrs[0]] + Refreshed(nbrs[1..], rid)
  }

  predicate Knows(nbrs: seq<Nbr>, rid: Rid) {
    exists j :: 0 <= j < |nbrs| && nbrs[j].id == rid
  }

  predicate SameNetwork(f: Iface, ip: Ip, mask: Ip) {
    f.mask == mask && And(f.ip, f.mask) == And(ip, mask)
  }

  function AfterHello(f: Iface, rid: Rid, ip: Ip, mask: Ip): Iface {
    if Knows(f.nbrs, rid) then f.(nbrs := Refreshed(f.nbrs, rid))
    else if SameNetwork(f, ip, mask) then
      f.(nbrs := f.nbrs + [Nbr(rid, ip, mask, DATABASE_TIMEOUT)], numNbr := f.numNbr + 1)
    else f
  }

  function AgedNbrs(nbrs: seq<Nbr>): seq<Nbr> {
    if nbrs == [] then []
    else (if nbrs[0].alive <= 0 then [] else [nbrs[0].(alive := nbrs[0].alive - 1)]) + AgedNbrs(nbrs[1..])
  }

  function AgedIface(f: Iface): Iface {
    f.(nbrs := AgedNbrs(f.nbrs), numNbr := f.numNbr - (|f.nbrs| - |AgedNbrs(f.nbrs)|))
  }

  /** The neighbour counter of every interface is the length of its list. */
  ghost predicate Counted(ifaces: seq<Iface>) {
    forall i :: 0 <= i < |ifaces| ==> ifaces[i].numNbr == |ifaces[i].nbrs|
  }

  /** All neighbours on an interface lie in its subnet. */
  ghost predicate OnSubnet(f: Iface) {
    forall j :: 0 <= j < |f.nbrs| ==> SameNetwork(f, f.nbrs[j].ip, f.nbrs[j].mask)
  }

  /** No router is listed twice behind an interface. */
  ghost predicate DistinctNbrs(f: Iface) {
    forall a, b :: 0 <= a < b < |f.nbrs| ==> f.nbrs[a].id != f.nbrs[b].id
  }

  // ---------- copies ----------

  ghost predicate NbrBehind(ifaces: seq<Iface>, i: nat, to: Rid) {
    i < |ifaces| && Knows(ifaces[i].nbrs, to)
  }

  lemma IfaceCopiesExactly(i: nat, nbrs: seq<Nbr>, lsu: Lsu, o: Out)
    ensures o in IfaceCopies(i, nbrs, lsu) <==> o.iface == i && o.lsu == lsu && Knows(nbrs, o.to)
  {
    if o.iface == i && o.lsu == lsu && Knows(nbrs, o.to) {
      var j :| 0 <= j < |nbrs| && nbrs[j].id == o.to;
      assert IfaceCopies(i, nbrs, lsu)[j] == o;
    }
  }

  /** The update goes to every neighbour behind every interface but the skipped one, and to nobody else. */
  lemma {:induction false} CopiesExactly(ifaces: seq<Iface>, n: nat, skip: int, lsu: Lsu, o: Out)
    requires n <= |ifaces|
    ensures o in Copies(ifaces, n, skip, lsu) <==>
      o.iface < n && o.iface != skip && NbrBehind(ifaces, o.iface, o.to) && o.lsu == lsu
  {
    if n > 0 {
      CopiesExactly(ifaces, n - 1, skip, lsu, o);
      IfaceCopiesExactly(n - 1, ifaces[n - 1].nbrs, lsu, o);
    }
  }

  ghost predicate NoTwice(out: seq<Out>) {
    forall a, b :: 0 <= a < b < |out| ==> out[a] != out[b]
  }

  /** Nobody gets two over the same interface. */
  lemma {:induction false} CopiesOnce(ifaces: seq<Iface>, n: nat, skip: int, lsu: Lsu)
    requires n <= |ifaces| && forall i :: 0 <= i < |ifaces| ==> DistinctNbrs(ifaces[i])
    ensures NoTwice(Copies(ifaces, n, skip, lsu))
  {
    if n > 0 {
      CopiesOnce(ifaces, n - 1, skip, lsu);
      var before := Copies(ifaces, n - 1, skip, lsu);
      forall a | 0 <= a < |before| ensures before[a].iface != n - 1 {
        CopiesExactly(ifaces, n - 1, skip, lsu, before[a]);
      }
      assert DistinctNbrs(ifaces[n - 1]);
    }
  }

  // ---------- ageing ----------

  ghost predicate AgedFrom(lsdb: seq<DbEntry>, x: DbEntry) {
    exists y :: y in lsdb && y.alive > 1 && x == y.(alive := y.alive - 1)
  }

  /** The entries left are those with more than a second to live, each a second older. */
  lemma {:induction false} AgedExactly(lsdb: seq<DbEntry>, x: DbEntry)
    ensures x in Aged(lsdb) <==> AgedFrom(lsdb, x)
  {
    if lsdb != [] {
      AgedExactly(lsdb[1..], x);
      assert forall y :: y in lsdb <==> y == lsdb[0] || y in lsdb[1..];
    }
  }

  ghost predicate AgedNbrFrom(nbrs: seq<Nbr>, n: Nbr) {
    exists m :: m in nbrs && m.alive > 0 && n == m.(alive := m.alive - 1)
  }

  /** The neighbours left are those with time left, each a second older. */
  lemma {:induction false} AgedNbrsExactly(nbrs: seq<Nbr>, n: Nbr)
    ensures n in AgedNbrs(nbrs) <==> AgedNbrFrom(nbrs, n)
  {
    if nbrs != [] {
      AgedNbrsExactly(nbrs[1..], n);
      assert forall m :: m in nbrs <==> m == nbrs[0] || m in nbrs[1..];
    }
  }

  lemma {:induction false} AgedNbrsDistinct(f: Iface)
    requires DistinctNbrs(f)
    ensures DistinctNbrs(f.(nbrs := AgedNbrs(f.nbrs)))
    decreases |f.nbrs|
  {
    if f.nbrs != [] {
      var rest := f.(nbrs := f.nbrs[1..]);
      AgedNbrsDistinct(rest);
      var aged := AgedNbrs(rest.nbrs);
      forall a | 0 <= a < |aged| ensures aged[a].id != f.nbrs[0].id {
        AgedNbrsExactly(rest.nbrs, aged[a]);
      }
    }
  }

  // ---------- advertisements ----------

  /** The interface's own subnet where it has no neighbour, else the subnet and router id of one of them. */
  ghost predicate LsaFor(self: Rid, f: Iface, l: Lsa) {
    || (|f.nbrs| == 0 && l == Lsa(And(f.ip, f.mask), f.mask, self))
    || (exists j :: 0 <= j < |f.nbrs| && l == Lsa(And(f.nbrs[j].ip, f.nbrs[j].mask), f.nbrs[j].mask, f.nbrs[j].id))
  }

  ghost predicate SomeLsa(self: Rid, ifaces: seq<Iface>, l: Lsa) {
    exists i :: 0 <= i < |ifaces| && LsaFor(self, ifaces[i], l)
  }

  lemma IfaceLsasExactly(self: Rid, f: Iface, l: Lsa)
    requires f.numNbr == |f.nbrs|
    ensures l in IfaceLsas(self, f) <==> LsaFor(self, f, l)
  {
    var lsas := IfaceLsas(self, f);
    if j :| 0 <= j < |f.nbrs| && l == Lsa(And(f.nbrs[j].ip, f.nbrs[j].mask), f.nbrs[j].mask, f.nbrs[j].id) {
      assert lsas[j] == l;
    }
  }

  /** What an update says of each neighbour: its subnet and its router id together. */
  lemma {:induction false} LsaArrayExactly(self: Rid, ifaces: seq<Iface>, l: Lsa)
    requires Counted(ifaces)
    ensures l in LsaArray(self, ifaces) <==> SomeLsa(self, ifaces, l)
  {
    if ifaces != [] {
      var n := |ifaces| - 1;
      LsaArrayExactly(self, ifaces[..n], l);
      IfaceLsasExactly(self, ifaces[n], l);
      assert forall i :: 0 <= i < n ==> ifaces[..n][i] == ifaces[i];
    }
  }

  // ---------- facts about the above ----------

  ghost function LsaCount(ifaces: seq<Iface>): nat {
    if ifaces == [] then 0
    else LsaCount(ifaces[..|ifaces| - 1])
         + (if |ifaces[|ifaces| - 1].nbrs| == 0 then 1 else |ifaces[|ifaces| - 1].nbrs|)
  }

  /** Exactly one advertisement per neighbour, or one for an interface without any. */
  lemma {:induction false} LsaArraySize(self: Rid, ifaces: seq<Iface>)
    requires Counted(ifaces)
    ensures |LsaArray(self, ifaces)| == LsaCount(ifaces)
  {
    if ifaces != [] {
      LsaArraySize(self, ifaces[..|ifaces| - 1]);
      assert ifaces[|ifaces| - 1].numNbr == |ifaces[|ifaces| - 1].nbrs|;
    }
  }

  ghost predicate Names(lsas: seq<Lsa>, r: Rid) {
    exists k :: 0 <= k < |lsas| && lsas[k].rid == r
  }

  ghost predicate SomeKnows(ifaces: seq<Iface>, r: Rid) {
    exists i :: 0 <= i < |ifaces| && Knows(ifaces[i].nbrs, r)
  }

  lemma NamesAppend(a: seq<Lsa>, b: seq<Lsa>, r: Rid)
    ensures Names(a + b, r) <==> Names(a, r) || Names(b, r)
  {
    if k :| 0 <= k < |a| && a[k].rid == r {
      assert (a + b)[k].rid == r;
    }
    if k :| 0 <= k < |b| && b[k].rid == r {
      assert (a + b)[|a| + k].rid == r;
    }
  }

  lemma IfaceNames(self: Rid, f: Iface, r: Rid)
    requires f.numNbr == |f.nbrs| && r != self
    ensures Names(IfaceLsas(self, f), r) <==> Knows(f.nbrs, r)
  {
    var lsas := IfaceLsas(self, f);
    if j :| 0 <= j < |f.nbrs| && f.nbrs[j].id == r {
      assert lsas[j].rid == r;
    }
    if k :| 0 <= k < |lsas| && lsas[k].rid == r {
      assert f.nbrs[k].id == r;
    }
  }

  lemma SomeKnowsAppend(ifaces: seq<Iface>, f: Iface, r: Rid)
    ensures SomeKnows(ifaces + [f], r) <==> SomeKnows(ifaces, r) || Knows(f.nbrs, r)
  {
    var all := ifaces + [f];
    if i :| 0 <= i < |ifaces| && Knows(ifaces[i].nbrs, r) {
      assert Knows(all[i].nbrs, r);
    }
    if Knows(f.nbrs, r) {
      assert Knows(all[|ifaces|].nbrs, r);
    }
  }

  /** The routers an array names are the neighbours, and this one where an interface has none. */
  lemma {:induction false} LsaArrayRids(self: Rid, ifaces: seq<Iface>, r: Rid)
    requires Counted(ifaces) && r != self
    ensures Names(LsaArray(self, ifaces), r) <==> SomeKnows(ifaces, r)
  {
    if ifaces != [] {
      var n := |ifaces| - 1;
      LsaArrayRids(self, ifaces[..n], r);
      NamesAppend(LsaArray(self, ifaces[..n]), IfaceLsas(self, ifaces[n]), r);
      IfaceNames(self, ifaces[n], r);
      SomeKnowsAppend(ifaces[..n], ifaces[n], r);
      assert ifaces[..n] + [ifaces[n]] == ifaces;
    }
  }

  ghost predicate IsSubnet(f: Iface, network: Ip, mask: Ip) {
    And(f.ip, f.mask) == network && f.mask == mask
  }

  ghost predicate SomeSubnet(ifaces: seq<Iface>, network: Ip, mask: Ip) {
    exists i :: 0 <= i < |ifaces| && IsSubnet(ifaces[i], network, mask)
  }

  lemma OffersAppend(a: seq<Lsa>, b: seq<Lsa>, network: Ip, mask: Ip)
    ensures Offers(a + b, network, mask) <==> Offers(a, network, mask) || Offers(b, network, mask)
  {
    if k :| 0 <= k < |a| && a[k].network == network && a[k].mask == mask {
      assert (a + b)[k] == a[k];
    }
    if k :| 0 <= k < |b| && b[k].network == network && b[k].mask == mask {
      assert (a + b)[|a| + k] == b[k];
    }
  }

  lemma IfaceOffers(self: Rid, f: Iface, network: Ip, mask: Ip)
    requires f.numNbr == |f.nbrs| && OnSubnet(f)
    ensures Offers(IfaceLsas(self, f), network, mask) <==> IsSubnet(f, network, mask)
  {
    var lsas := IfaceLsas(self, f);
    assert |lsas| > 0;
    assert forall k :: 0 <= k < |lsas| ==> IsSubnet(f, lsas[k].network, lsas[k].mask);
    assert IsSubnet(f, lsas[0].network, lsas[0].mask);
  }

  lemma SomeSubnetAppend(ifaces: seq<Iface>, f: Iface, network: Ip, mask: Ip)
    ensures SomeSubnet(ifaces + [f], network, mask) <==> SomeSubnet(ifaces, network, mask) || IsSubnet(f, network, mask)
  {
    var all := ifaces + [f];
    if i :| 0 <= i < |ifaces| && IsSubnet(ifaces[i], network, mask) {
      assert IsSubnet(all[i], network, mask);
    }
    assert all[|ifaces|] == f;
  }

  /** The subnets an update advertises are exactly those of the router's interfaces. */
  lemma {:induction false} LsaArraySubnets(self: Rid, ifaces: seq<Iface>, network: Ip, mask: Ip)
    requires Counted(ifaces) && forall i :: 0 <= i < |ifaces| ==> OnSubnet(ifaces[i])
    ensures Offers(LsaArray(self, ifaces), network, mask) <==> SomeSubnet(ifaces, network, mask)
  {
    if ifaces != [] {
      var n := |ifaces| - 1;
      LsaArraySubnets(self, ifaces[..n], network, mask);
      OffersAppend(LsaArray(self, ifaces[..n]), IfaceLsas(self, ifaces[n]), network, mask);
      IfaceOffers(self, ifaces[n], network, mask);
      SomeSubnetAppend(ifaces[..n], ifaces[n], network, mask);
      assert ifaces[..n] + [ifaces[n]] == ifaces;
    }
  }
}
