/** The ARP cache and the packets that wait in it for an answer. */
module ArpQueue {
  type Ip = x: int | 0 <= x < 0x1_0000_0000
  type Mac = x: int | 0 <= x < 0x1_0000_0000_0000

  /** A packet buffer, by its address. */
  type Packet = nat

  const MAX_ARP_SIZE := 32
  const ENTRY_TIMEOUT := 15
  const MAX_RETRIES := 5

  datatype Entry = Entry(ip: Ip, mac: Mac, added: int, valid: bool)

  /** Packets wait per interface and address. */
  datatype Key = Key(iface: nat, ip: Ip)
  datatype Req = Req(key: Key, sent: int, retries: int, pkts: seq<Packet>)

  /** How a packet left the queue: sent to a learned address, or reported unreachable. */
  datatype Departure = Transmitted(key: Key, pkt: Packet, mac: Mac) | Unreachable(key: Key, pkt: Packet)

  // ---------- the queue ----------

  function Appended(reqs: seq<Req>, key: Key, pkt: Packet, now: int): seq<Req> {
    if reqs == [] then [Req(key, now, 1, [pkt])]
    else if reqs[0].key == key then [reqs[0].(pkts := reqs[0].pkts + [pkt])] + reqs[1..]
    else [reqs[0]] + Appended(reqs[1..], key, pkt, now)
  }

  /** The first request with the key is at `a`. */
  ghost predicate FirstFor(reqs: seq<Req>, key: Key, a: int) {
    0 <= a < |reqs| && reqs[a].key == key && forall k :: 0 <= k < a ==> reqs[k].key != key
  }

  lemma {:induction false} AppendedNew(reqs: seq<Req>, key: Key, pkt: Packet, now: int)
    requires forall k :: 0 <= k < |reqs| ==> reqs[k].key != key
    ensures Appended(reqs, key, pkt, now) == reqs + [Req(key, now, 1, [pkt])]
  {
    if reqs != [] {
      AppendedNew(reqs[1..], key, pkt, now);
      assert reqs == [reqs[0]] + reqs[1..];
    }
  }

  lemma {:induction false} AppendedAt(reqs: seq<Req>, key: Key, pkt: Packet, now: int, a: int)
    requires FirstFor(reqs, key, a)
    ensures Appended(reqs, key, pkt, now) == reqs[a := reqs[a].(pkts := reqs[a].pkts + [pkt])]
  {
    if a > 0 {
      AppendedAt(reqs[1..], key, pkt, now, a - 1);
      assert reqs == [reqs[0]] + reqs[1..];
    }
  }

  /** What makes requests go: an answer for their address, or a sweep that finds them tried too often. */
  datatype Cause = Learned(ip: Ip, mac: Mac) | Swept(now: int)

  predicate Due(r: Req, now: int) {
    now - r.sent >= 1
  }

  predicate Goes(c: Cause, r: Req) {
    match c
    case Learned(ip, _) => r.key.ip == ip
    case Swept(now) => Due(r, now) && r.retries >= MAX_RETRIES
  }

  /** A request that stays may have been sent out once more. */
  function Stays(c: Cause, r: Req): Req {
    match c
    case Learned(_, _) => r
    case Swept(now) => if Due(r, now) then r.(sent := now, retries := r.retries + 1) else r
  }

  function Departs(c: Cause, key: Key, pkt: Packet): Departure {
    match c
    case Learned(_, mac) => Transmitted(key, pkt, mac)
    case Swept(_) => Unreachable(key, pkt)
  }

  function Departures(c: Cause, r: Req): seq<Departure> {
    seq(|r.pkts|, i requires 0 <= i < |r.pkts| => Departs(c, r.key, r.pkts[i]))
  }

  function Remaining(c: Cause, reqs: seq<Req>): seq<Req> {
    if reqs == [] then []
    else Remaining(c, reqs[..|reqs| - 1])
         + (if Goes(c, reqs[|reqs| - 1]) then [] else [Stays(c, reqs[|reqs| - 1])])
  }

  function Leaving(c: Cause, reqs: seq<Req>): seq<Departure> {
    if reqs == [] then []
    else Leaving(c, reqs[..|reqs| - 1])
         + (if Goes(c, reqs[|reqs| - 1]) then Departures(c, reqs[|reqs| - 1]) else [])
  }

  // ---------- which requests go and which stay ----------

  /** On an answer, the requests for its address go and the others stay as they are. */
  lemma {:induction false} AnsweredRequests(ip: Ip, mac: Mac, reqs: seq<Req>)
    ensures forall r :: r in Remaining(Learned(ip, mac), reqs) <==> r in reqs && r.key.ip != ip
    ensures forall d :: d in Leaving(Learned(ip, mac), reqs) <==>
      d.Transmitted? && d.mac == mac && d.key.ip == ip && Waits(reqs, d.key, d.pkt)
  {
    if reqs != [] {
      var n := |reqs| - 1;
      AnsweredRequests(ip, mac, reqs[..n]);
      assert reqs == reqs[..n] + [reqs[n]];
      DeparturesOf(Learned(ip, mac), reqs[n]);
      forall key: Key, pkt: Packet
        ensures Waits(reqs, key, pkt) <==> Waits(reqs[..n], key, pkt) || (reqs[n].key == key && pkt in reqs[n].pkts)
      {
        WaitsLast(reqs[..n], reqs[n], key, pkt);
      }
    }
  }

  ghost predicate Waits(reqs: seq<Req>, key: Key, pkt: Packet) {
    exists r :: r in reqs && r.key == key && pkt in r.pkts
  }

  lemma WaitsLast(init: seq<Req>, last: Req, key: Key, pkt: Packet)
    ensures Waits(init + [last], key, pkt) <==> Waits(init, key, pkt) || (last.key == key && pkt in last.pkts)
  {
    assert last in init + [last];
    assert forall r :: r in init ==> r in init + [last];
  }

  lemma DeparturesOf(c: Cause, r: Req)
    ensures forall d :: d in Departures(c, r) <==> d.key == r.key && d.pkt in r.pkts && d == Departs(c, d.key, d.pkt)
  {
    forall d: Departure | d.key == r.key && d.pkt in r.pkts && d == Departs(c, d.key, d.pkt)
      ensures d in Departures(c, r)
    {
      var i :| 0 <= i < |r.pkts| && r.pkts[i] == d.pkt;
      assert Departures(c, r)[i] == d;
    }
  }

  /** Sent five times and due once more. */
  ghost predicate GivenUp(r: Req, now: int) {
    now - r.sent >= 1 && r.retries >= 5
  }

  /** The request before a sweep that leaves it as `r`: not due, or due and tried fewer than five times. */
  ghost predicate SweptInto(q: Req, r: Req, now: int) {
    || (now - q.sent < 1 && r == q)
    || (now - q.sent >= 1 && q.retries < 5 && r == q.(sent := now, retries := q.retries + 1))
  }

  ghost predicate LeftBySweep(reqs: seq<Req>, r: Req, now: int) {
    exists q :: q in reqs && SweptInto(q, r, now)
  }

  ghost predicate ReportedBySweep(reqs: seq<Req>, d: Departure, now: int) {
    d.Unreachable? && exists q :: q in reqs && GivenUp(q, now) && q.key == d.key && d.pkt in q.pkts
  }

  lemma SweepLast(init: seq<Req>, last: Req, now: int)
    ensures forall r :: LeftBySweep(init + [last], r, now) <==> LeftBySweep(init, r, now) || SweptInto(last, r, now)
    ensures forall d :: ReportedBySweep(init + [last], d, now) <==>
      ReportedBySweep(init, d, now) || (d.Unreachable? && GivenUp(last, now) && last.key == d.key && d.pkt in last.pkts)
  {
    var all := init + [last];
    assert last in all && forall q :: q in all <==> q in init || q == last;
  }

  /** A sweep reports exactly the packets of requests given up, and sends out due ones once more. */
  lemma {:induction false} SweptRequests(now: int, reqs: seq<Req>)
    ensures forall r :: r in Remaining(Swept(now), reqs) <==> LeftBySweep(reqs, r, now)
    ensures forall d :: d in Leaving(Swept(now), reqs) <==> ReportedBySweep(reqs, d, now)
  {
    if reqs != [] {
      var n := |reqs| - 1;
      SweptRequests(now, reqs[..n]);
      assert reqs == reqs[..n] + [reqs[n]];
      SweepLast(reqs[..n], reqs[n], now);
      DeparturesOf(Swept(now), reqs[n]);
    }
  }

  // ---------- the table ----------

  /** The first slot that is not valid, or the one the random number picks. */
  function Slot(entries: seq<Entry>, random: nat): nat
    requires |entries| > 0
  {
    if exists i :: 0 <= i < |entries| && !entries[i].valid then FirstFree(entries, 0) else random % |entries|
  }

  function FirstFree(entries: seq<Entry>, from: nat): (k: nat)
    requires exists i :: from <= i < |entries| && !entries[i].valid
    ensures from <= k < |entries| && !entries[k].valid && forall i :: from <= i < k ==> entries[i].valid
    decreases |entries| - from
  {
    if !entries[from].valid then from else FirstFree(entries, from + 1)
  }

  /** Slot k is the first that is not valid. */
  ghost predicate FreeAt(entries: seq<Entry>, k: int) {
    0 <= k < |entries| && !entries[k].valid && forall i :: 0 <= i < k ==> entries[i].valid
  }

  ghost predicate FoundAt(entries: seq<Entry>, ip: Ip, k: int) {
    && 0 <= k < |entries| && entries[k].valid && entries[k].ip == ip
    && forall i :: 0 <= i < k ==> !(entries[i].valid && entries[i].ip == ip)
  }

  function Expired(e: Entry, now: int): Entry {
    if e.valid && now - e.added > ENTRY_TIMEOUT then e.(valid := false) else e
  }

  /** A lookup right after an insertion finds the new address exactly when no older valid entry precedes its slot. */
  lemma LookupAfterInsert(entries: seq<Entry>, ip: Ip, mac: Mac, now: int, random: nat)
    requires |entries| > 0
    ensures var k := Slot(entries, random);
      k < |entries| && (FoundAt(entries[k := Entry(ip, mac, now, true)], ip, k)
        <==> forall i :: 0 <= i < k ==> !(entries[i].valid && entries[i].ip == ip))
  {
    var k := Slot(entries, random);
    var after := entries[k := Entry(ip, mac, now, true)];
    assert forall i :: 0 <= i < k ==> after[i] == entries[i];
  }

  class ArpCache {
    const entries: array<Entry>
    var reqs: seq<Req>

    ghost predicate Valid()
      reads this
    {
      entries.Length == MAX_ARP_SIZE
    }

    constructor ()
      ensures Valid() && fresh(entries) && reqs == []
      ensures forall i :: 0 <= i < entries.Length ==> !entries[i].valid
    {
      entries := new Entry[MAX_ARP_SIZE](_ => Entry(0, 0, 0, false));
      reqs := [];
    }

    method Lookup(ip: Ip) returns (found: bool, mac: Mac)
      requires Valid()
      ensures found <==> exists k :: FoundAt(entries[..], ip, k)
      ensures found ==> exists k :: FoundAt(entries[..], ip, k) && entries[k].mac == mac
    {
      found, mac := false, 0;
      for i := 0 to entries.Length
        invariant !found && forall k :: 0 <= k < i ==> !(entries[k].valid && entries[k].ip == ip)
      {
        if entries[i].valid && entries[i].ip == ip {
          assert FoundAt(entries[..], ip, i);
          return true, entries[i].mac;
        }
      }
    }

    /** Releases all requests that go for the given cause, in list order. */
    method Release(c: Cause) returns (out: seq<Departure>)
      modifies `reqs
      ensures reqs == Remaining(c, old(reqs))
      ensures out == Leaving(c, old(reqs))
    {
      out := [];
      var kept: seq<Req> := [];
      for i := 0 to |reqs|
        invariant reqs == old(reqs)
        invariant kept == Remaining(c, reqs[..i]) && out == Leaving(c, reqs[..i])
      {
        assert reqs[..i + 1][..i] == reqs[..i];
        if Goes(c, reqs[i]) {
          var sent := Drain(c, reqs[i]);
          out := out + sent;
        } else {
          kept := kept + [Stays(c, reqs[i])];
        }
      }
      assert reqs[..|reqs|] == reqs;
      reqs := kept;
    }

    /** Sends off the packets of one request one by one. */
    method Drain(c: Cause, r: Req) returns (out: seq<Departure>)
      ensures out == Departures(c, r)
    {
      out := [];
      for i := 0 to |r.pkts|
        invariant out == Departures(c, r)[..i]
      {
        out := out + [Departs(c, r.key, r.pkts[i])];
      }
    }

    /** Learns an address and sends what waited for it. `random` is used when no slot is free. */
    method Insert(ip: Ip, mac: Mac, now: int, random: nat) returns (out: seq<Departure>)
      requires Valid()
      modifies entries, `reqs
      ensures entries[..] == old(entries[..])[Slot(old(entries[..]), random) := Entry(ip, mac, now, true)]
      ensures reqs == Remaining(Learned(ip, mac), old(reqs))
      ensures out == Leaving(Learned(ip, mac), old(reqs))
      ensures forall r :: r in reqs <==> r in old(reqs) && r.key.ip != ip
      ensures forall d :: d in out <==>
        d.Transmitted? && d.mac == mac && d.key.ip == ip && Waits(old(reqs), d.key, d.pkt)
      ensures forall k :: FreeAt(old(entries[..]), k) ==>
        entries[..] == old(entries[..])[k := Entry(ip, mac, now, true)]
      ensures (forall k :: 0 <= k < 32 ==> old(entries[k]).valid) ==>
        entries[..] == old(entries[..])[random % 32 := Entry(ip, mac, now, true)]
    {
      AnsweredRequests(ip, mac, reqs);
      var index := 0;
      while index < entries.Length && entries[index].valid
        invariant 0 <= index <= entries.Length
        invariant forall i :: 0 <= i < index ==> entries[i].valid
      {
        index := index + 1;
      }
      if index == entries.Length {
        index := random % entries.Length;
      }
      assert index == Slot(entries[..], random);
      entries[index] := Entry(ip, mac, now, true);
      out := Release(Learned(ip, mac));
    }

    method AppendPacket(key: Key, pkt: Packet, now: int)
      modifies `reqs
      ensures reqs == Appended(old(reqs), key, pkt, now)
      ensures (forall k :: 0 <= k < |old(reqs)| ==> old(reqs)[k].key != key) ==>
        reqs == old(reqs) + [Req(key, now, 1, [pkt])]
      ensures forall a :: FirstFor(old(reqs), key, a) ==>
        reqs == old(reqs)[a := old(reqs)[a].(pkts := old(reqs)[a].pkts + [pkt])]
    {
      var i := 0;
      while i < |reqs|
        invariant 0 <= i <= |reqs| && reqs == old(reqs)
        invariant forall k :: 0 <= k < i ==> reqs[k].key != key
      {
        if reqs[i].key == key {
          AppendedAt(reqs, key, pkt, now, i);
          reqs := reqs[i := reqs[i].(pkts := reqs[i].pkts + [pkt])];
          return;
        }
        i := i + 1;
      }
      AppendedNew(reqs, key, pkt, now);
      reqs := reqs + [Req(key, now, 1, [pkt])];
    }

    /** One second of the sweeping thread, taken as one step. */
    method Sweep(now: int) returns (out: seq<Departure>)
      requires Valid()
      modifies entries, `reqs
      ensures forall i :: 0 <= i < entries.Length ==> entries[i] == Expired(old(entries[i]), now)
      ensures reqs == Remaining(Swept(now), old(reqs))
      ensures out == Leaving(Swept(now), old(reqs))
      ensures forall i :: 0 <= i < entries.Length ==>
        && (entries[i].valid <==> old(entries[i]).valid && now - old(entries[i]).added <= 15)
        && entries[i].(valid := true) == old(entries[i]).(valid := true)
      ensures forall r :: r in reqs <==> LeftBySweep(old(reqs), r, now)
      ensures forall d :: d in out <==> ReportedBySweep(old(reqs), d, now)
    {
      SweptRequests(now, reqs);
      for i := 0 to entries.Length
        invariant reqs == old(reqs)
        invariant forall k :: 0 <= k < i ==> entries[k] == Expired(old(entries[k]), now)
        invariant forall k :: i <= k < entries.Length ==> entries[k] == old(entries[k])
      {
        if entries[i].valid && now - entries[i].added > ENTRY_TIMEOUT {
          entries[i] := entries[i].(valid := false);
        }
      }
      out := Release(Swept(now));
    }
  }
}
