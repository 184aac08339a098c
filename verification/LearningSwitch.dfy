/** The learning switch: a hash table of MAC addresses, and forwarding by it. */
module LearningSwitch {
  type u8 = x: int | 0 <= x < 0x100

  datatype Mac = Mac(b0: u8, b1: u8, b2: u8, b3: u8, b4: u8, b5: u8)
  datatype Option<T> = None | Some(value: T)

  /** Where a station was last seen, and when. */
  datatype Seen = Seen(port: nat, visited: int)
  datatype MacEntry = MacEntry(mac: Mac, seen: Seen)

  const HASH_8BITS := 256
  const MAC_PORT_TIMEOUT := 30
  const BROADCAST := Mac(0xff, 0xff, 0xff, 0xff, 0xff, 0xff)

  // ---------- the hash ----------

  ghost function Two(n: nat): nat {
    if n == 0 then 1 else 2 * Two(n - 1)
  }

  function XorBits(a: nat, b: nat, n: nat): (r: nat)
    ensures r < Two(n)
  {
    if n == 0 then 0 else 2 * XorBits(a / 2, b / 2, n - 1) + (a % 2 + b % 2) % 2
  }

  function Xor(a: u8, b: u8): u8 {
    assert Two(8) == 256 by {
      assert Two(2) == 4 && Two(4) == 16 && Two(6) == 64;
    }
    XorBits(a, b, 8)
  }

  /** hash8: the exclusive or of the six bytes. */
  function Hash(m: Mac): u8 {
    Xor(Xor(Xor(Xor(Xor(Xor(0, m.b0), m.b1), m.b2), m.b3), m.b4), m.b5)
  }

  // ---------- one bucket ----------

  ghost predicate UniqueMacs(bucket: seq<MacEntry>) {
    forall i, j :: 0 <= i < j < |bucket| ==> bucket[i].mac != bucket[j].mac
  }

  /** Bucket `h` holds exactly the table's stations with that hash, each once. */
  ghost predicate Holds(bucket: seq<MacEntry>, h: int, table: map<Mac, Seen>) {
    && UniqueMacs(bucket)
    && (forall i :: 0 <= i < |bucket| ==>
          Hash(bucket[i].mac) == h && bucket[i].mac in table && table[bucket[i].mac] == bucket[i].seen)
    && (forall m :: m in table && Hash(m) == h ==> exists i :: 0 <= i < |bucket| && bucket[i].mac == m)
  }

  /** The stations a sweep at time `now` leaves. */
  ghost function Recent(table: map<Mac, Seen>, now: int): map<Mac, Seen> {
    map m | m in table && now - table[m].visited <= MAC_PORT_TIMEOUT :: table[m]
  }

  method FindMac(bucket: seq<MacEntry>, mac: Mac) returns (i: int)
    ensures -1 <= i < |bucket|
    ensures i == -1 ==> forall k :: 0 <= k < |bucket| ==> bucket[k].mac != mac
    ensures i != -1 ==> bucket[i].mac == mac
  {
    i := 0;
    while i < |bucket|
      invariant 0 <= i <= |bucket|
      invariant forall k :: 0 <= k < i ==> bucket[k].mac != mac
    {
      if bucket[i].mac == mac {
        return;
      }
      i := i + 1;
    }
    i := -1;
  }

  lemma HoldsOther(bucket: seq<MacEntry>, h: int, table: map<Mac, Seen>, mac: Mac, seen: Seen)
    requires Holds(bucket, h, table) && Hash(mac) != h
    ensures Holds(bucket, h, table[mac := seen])
  {
  }

  lemma HoldsUpdated(bucket: seq<MacEntry>, table: map<Mac, Seen>, i: nat, seen: Seen)
    requires i < |bucket| && Holds(bucket, Hash(bucket[i].mac), table)
    ensures Holds(bucket[i := MacEntry(bucket[i].mac, seen)], Hash(bucket[i].mac), table[bucket[i].mac := seen])
  {
    var mac := bucket[i].mac;
    var after := bucket[i := MacEntry(mac, seen)];
    assert forall k :: 0 <= k < |bucket| ==> after[k].mac == bucket[k].mac;
    forall m | m in table[mac := seen] && Hash(m) == Hash(mac)
      ensures exists k :: 0 <= k < |after| && after[k].mac == m
    {
      if m == mac {
        assert after[i].mac == m;
      } else {
        var k :| 0 <= k < |bucket| && bucket[k].mac == m;
        assert after[k].mac == m;
      }
    }
  }

  lemma HoldsAppended(bucket: seq<MacEntry>, table: map<Mac, Seen>, mac: Mac, seen: Seen)
    requires Holds(bucket, Hash(mac), table) && forall k :: 0 <= k < |bucket| ==> bucket[k].mac != mac
    ensures Holds(bucket + [MacEntry(mac, seen)], Hash(mac), table[mac := seen])
  {
    var after := bucket + [MacEntry(mac, seen)];
    forall m | m in table[mac := seen] && Hash(m) == Hash(mac)
      ensures exists k :: 0 <= k < |after| && after[k].mac == m
    {
      if m == mac {
        assert after[|bucket|].mac == m;
      } else {
        var k :| 0 <= k < |bucket| && bucket[k].mac == m;
        assert after[k].mac == m;
      }
    }
  }

  // ---------- forwarding ----------

  /** Every port but the one a frame came from. */
  function Flood(ports: seq<nat>, from: nat): seq<nat> {
    if ports == [] then []
    else Flood(ports[..|ports| - 1], from) + (if ports[|ports| - 1] != from then [ports[|ports| - 1]] else [])
  }

  /** The ports a frame is sent to, by the table that already knows its sender. */
  ghost function SentTo(table: map<Mac, Seen>, ports: seq<nat>, from: nat, dst: Mac): seq<nat> {
    if dst != BROADCAST && dst in table && table[dst].port != from then [table[dst].port] else Flood(ports, from)
  }

  ghost predicate NoRepeats(s: seq<nat>) {
    forall i, j :: 0 <= i < j < |s| ==> s[i] != s[j]
  }

  /** Port `p` comes before port `q` in the list. */
  ghost predicate Precedes(ports: seq<nat>, p: nat, q: nat) {
    exists a, b :: 0 <= a < b < |ports| && ports[a] == p && ports[b] == q
  }

  ghost predicate InOrderOf(ports: seq<nat>, s: seq<nat>) {
    forall i, j :: 0 <= i < j < |s| ==> Precedes(ports, s[i], s[j])
  }

  lemma PrecedesMore(ports: seq<nat>, p: nat, q: nat, last: nat)
    requires Precedes(ports, p, q) || (p in ports && q == last)
    ensures Precedes(ports + [last], p, q)
  {
    var all := ports + [last];
    assert all[|ports|] == last;
    if Precedes(ports, p, q) {
      var a, b :| 0 <= a < b < |ports| && ports[a] == p && ports[b] == q;
      assert all[a] == p && all[b] == q;
    } else {
      var a :| 0 <= a < |ports| && ports[a] == p;
      assert all[a] == p;
    }
  }

  lemma {:induction false} FloodOrder(ports: seq<nat>, from: nat)
    ensures InOrderOf(ports, Flood(ports, from))
  {
    if ports != [] {
      var n := |ports| - 1;
      var out, init := Flood(ports, from), Flood(ports[..n], from);
      FloodOrder(ports[..n], from);
      FloodPorts(ports[..n], from);
      assert ports == ports[..n] + [ports[n]];
      forall i, j | 0 <= i < j < |out| ensures Precedes(ports, out[i], out[j]) {
        assert out[i] == init[i] && init[i] in init;
        assert j < |init| ==> out[j] == init[j];
        PrecedesMore(ports[..n], out[i], out[j], ports[n]);
      }
    }
  }

  lemma {:induction false} FloodPorts(ports: seq<nat>, from: nat)
    ensures forall p :: p in Flood(ports, from) <==> p in ports && p != from
    ensures NoRepeats(ports) ==> NoRepeats(Flood(ports, from))
  {
    if ports != [] {
      var n := |ports| - 1;
      FloodPorts(ports[..n], from);
      assert ports == ports[..n] + [ports[n]];
      if NoRepeats(ports) {
        assert ports[n] !in ports[..n];
      }
    }
  }

  /** No frame goes back where it came from, no port gets two, and all get one unless the receiver's port is known. */
  lemma FramesNeverReturn(table: map<Mac, Seen>, ports: seq<nat>, from: nat, dst: Mac)
    requires NoRepeats(ports)
    ensures from !in SentTo(table, ports, from, dst) && NoRepeats(SentTo(table, ports, from, dst))
    ensures (dst == BROADCAST || dst !in table || table[dst].port == from) ==>
      forall p :: p in ports && p != from ==> p in SentTo(table, ports, from, dst)
  {
    FloodPorts(ports, from);
  }

  class Switch {
    const buckets: array<seq<MacEntry>>
    const ports: seq<nat>
    ghost var table: map<Mac, Seen>

    ghost predicate Valid()
      reads this, buckets
    {
      buckets.Length == HASH_8BITS && forall h :: 0 <= h < HASH_8BITS ==> Holds(buckets[h], h, table)
    }

    constructor (all: seq<nat>)
      ensures Valid() && fresh(buckets) && ports == all && table == map[]
    {
      buckets := new seq<MacEntry>[HASH_8BITS](_ => []);
      ports := all;
      table := map[];
    }

    method LookupPort(mac: Mac) returns (port: Option<nat>)
      requires Valid()
      ensures port == if mac in table then Some(table[mac].port) else None
    {
      var bucket := buckets[Hash(mac)];
      assert Holds(bucket, Hash(mac), table);
      var i := FindMac(bucket, mac);
      port := if i == -1 then None else Some(bucket[i].seen.port);
    }

    method InsertMacPort(mac: Mac, port: nat, now: int)
      requires Valid()
      modifies `table, buckets
      ensures Valid()
      ensures table == old(table)[mac := Seen(port, now)]
    {
      var h := Hash(mac);
      var seen := Seen(port, now);
      var bucket := buckets[h];
      assert Holds(bucket, h, table);
      var i := FindMac(bucket, mac);
      if i != -1 {
        HoldsUpdated(bucket, table, i, seen);
        bucket := bucket[i := MacEntry(mac, seen)];
      } else {
        HoldsAppended(bucket, table, mac, seen);
        bucket := bucket + [MacEntry(mac, seen)];
      }
      forall k | 0 <= k < HASH_8BITS && k != h ensures Holds(buckets[k], k, table[mac := seen]) {
        HoldsOther(buckets[k], k, table, mac, seen);
      }
      buckets[h] := bucket;
      table := table[mac := seen];
    }

    /** Learn the sender's port, then send to the receiver's port if it is known and another one, else flood. */
    method HandlePacket(from: nat, src: Mac, dst: Mac, now: int) returns (out: seq<nat>)
      requires Valid()
      modifies `table, buckets
      ensures Valid()
      ensures table == old(table)[src := Seen(from, now)]
      ensures out == SentTo(table, ports, from, dst)
      ensures if dst != BROADCAST && dst in table && table[dst].port != from
        then out == [table[dst].port]
        else InOrderOf(ports, out) && forall p :: p in out <==> p in ports && p != from
    {
      InsertMacPort(src, from, now);
      if dst == BROADCAST {
        out := Broadcast(from);
      } else {
        var tx := LookupPort(dst);
        if tx.Some? && tx.value != from {
          out := [tx.value];
        } else {
          out := Broadcast(from);
        }
      }
    }

    method Broadcast(from: nat) returns (out: seq<nat>)
      ensures out == Flood(ports, from)
      ensures InOrderOf(ports, out) && forall p :: p in out <==> p in ports && p != from
    {
      FloodOrder(ports, from);
      FloodPorts(ports, from);
      out := [];
      for i := 0 to |ports|
        invariant out == Flood(ports[..i], from)
      {
        assert ports[..i + 1][..i] == ports[..i];
        if ports[i] != from {
          out := out + [ports[i]];
        }
      }
      assert ports[..|ports|] == ports;
    }

    /** Removes exactly the stations not seen for more than 30 seconds, and says how many. */
    method SweepAged(now: int) returns (count: nat)
      requires Valid()
      modifies `table, buckets
      ensures Valid()
      ensures table == Recent(old(table), now)
      ensures count == |old(table)| - |table|
    {
      count := 0;
      ghost var before := table;
      for h := 0 to HASH_8BITS
        invariant Valid()
        invariant table == SweptBelow(before, h, now)
        invariant count + |table| == |before|
      {
        var removed := SweepBucket(h, now);
        count := count + removed;
        assert SweptAt(SweptBelow(before, h, now), h, now) == SweptBelow(before, h + 1, now);
      }
      assert table == Recent(before, now);
    }

    method SweepBucket(h: nat, now: int) returns (count: nat)
      requires Valid() && h < HASH_8BITS
      modifies `table, buckets
      ensures Valid()
      ensures table == SweptAt(old(table), h, now)
      ensures count + |table| == |old(table)|
    {
      var bucket := buckets[h];
      var kept := KeepRecent(bucket, now);
      count := |bucket| - |kept|;
      assert Holds(bucket, h, table);
      RecentHolds(bucket, h, table, now);
      forall k | 0 <= k < HASH_8BITS && k != h ensures Holds(buckets[k], k, SweptAt(table, h, now)) {
        HoldsFewer(buckets[k], k, table, SweptAt(table, h, now));
      }
      buckets[h] := kept;
      table := SweptAt(table, h, now);
    }
  }

  method KeepRecent(bucket: seq<MacEntry>, now: int) returns (kept: seq<MacEntry>)
    ensures kept == RecentEntries(bucket, now) && |kept| <= |bucket|
  {
    kept := [];
    for i := 0 to |bucket|
      invariant kept == RecentEntries(bucket[..i], now) && |kept| <= i
    {
      assert bucket[..i + 1][..i] == bucket[..i];
      if now - bucket[i].seen.visited <= MAC_PORT_TIMEOUT {
        kept := kept + [bucket[i]];
      }
    }
    assert bucket[..|bucket|] == bucket;
  }

  function RecentEntries(bucket: seq<MacEntry>, now: int): seq<MacEntry> {
    if bucket == [] then []
    else
      var last := bucket[|bucket| - 1];
      RecentEntries(bucket[..|bucket| - 1], now)
        + (if now - last.seen.visited > MAC_PORT_TIMEOUT then [] else [last])
  }

  /** The table after the sweep of bucket `h` alone. */
  ghost function SweptAt(table: map<Mac, Seen>, h: int, now: int): map<Mac, Seen> {
    map m | m in table && (Hash(m) == h ==> now - table[m].visited <= MAC_PORT_TIMEOUT) :: table[m]
  }

  /** The table after the sweep of the buckets before `h`. */
  ghost function SweptBelow(table: map<Mac, Seen>, h: int, now: int): map<Mac, Seen> {
    map m | m in table && (Hash(m) < h ==> now - table[m].visited <= MAC_PORT_TIMEOUT) :: table[m]
  }

  /** Without its last entry a bucket holds the table without that station. */
  lemma HoldsInit(init: seq<MacEntry>, e: MacEntry, h: int, table: map<Mac, Seen>)
    requires Holds(init + [e], h, table)
    ensures e.mac in table && table[e.mac] == e.seen && Hash(e.mac) == h && Holds(init, h, table - {e.mac})
    ensures forall i :: 0 <= i < |init| ==> init[i].mac != e.mac
  {
    var all := init + [e];
    var n := |init|;
    assert all[n] == e;
    assert forall i :: 0 <= i < n ==> all[i] == init[i];
    forall m | m in table - {e.mac} && Hash(m) == h ensures exists i :: 0 <= i < n && init[i].mac == m {
      var k :| 0 <= k < |all| && all[k].mac == m;
      assert k != n;
    }
  }

  lemma SweptStale(table: map<Mac, Seen>, mac: Mac, h: int, now: int)
    requires mac in table && Hash(mac) == h && now - table[mac].visited > MAC_PORT_TIMEOUT
    ensures SweptAt(table, h, now) == SweptAt(table - {mac}, h, now)
  {
  }

  lemma SweptRecent(table: map<Mac, Seen>, mac: Mac, h: int, now: int)
    requires mac in table && now - table[mac].visited <= MAC_PORT_TIMEOUT
    ensures var swept := SweptAt(table - {mac}, h, now);
      && mac !in swept
      && SweptAt(table, h, now) == swept[mac := table[mac]]
      && |SweptAt(table, h, now)| == |swept| + 1
  {
    var swept := SweptAt(table - {mac}, h, now);
    assert SweptAt(table, h, now) == swept[mac := table[mac]];
    assert swept[mac := table[mac]].Keys == swept.Keys + {mac};
  }

  lemma {:induction false} RecentHolds(bucket: seq<MacEntry>, h: int, table: map<Mac, Seen>, now: int)
    requires Holds(bucket, h, table)
    ensures Holds(RecentEntries(bucket, now), h, SweptAt(table, h, now))
    ensures |table| - |SweptAt(table, h, now)| == |bucket| - |RecentEntries(bucket, now)|
  {
    if bucket == [] {
      assert SweptAt(table, h, now) == table;
    } else {
      var n := |bucket| - 1;
      var init, e := bucket[..n], bucket[n];
      assert bucket == init + [e];
      HoldsInit(init, e, h, table);
      RecentHolds(init, h, table - {e.mac}, now);
      DropOne(table, e.mac);
      if now - e.seen.visited > MAC_PORT_TIMEOUT {
        SweptStale(table, e.mac, h, now);
        assert RecentEntries(bucket, now) == RecentEntries(init, now);
      } else {
        SweptRecent(table, e.mac, h, now);
        HoldsAppended(RecentEntries(init, now), SweptAt(table - {e.mac}, h, now), e.mac, e.seen);
      }
    }
  }

  lemma DropOne(table: map<Mac, Seen>, mac: Mac)
    requires mac in table
    ensures |table - {mac}| == |table| - 1
  {
    assert (table - {mac}).Keys == table.Keys - {mac};
  }

  lemma HoldsFewer(bucket: seq<MacEntry>, h: int, table: map<Mac, Seen>, fewer: map<Mac, Seen>)
    requires Holds(bucket, h, table)
    requires fewer.Keys <= table.Keys && (forall m :: m in fewer ==> fewer[m] == table[m])
    requires forall m :: m in table && Hash(m) == h ==> m in fewer
    ensures Holds(bucket, h, fewer)
  {
  }

  // ---------- over whole runs ----------

  datatype Event = Frame(src: Mac, port: nat, at: int) | Sweep(now: int)

  /** The table after a run of frames and sweeps. */
  ghost function TableAfter(events: seq<Event>): map<Mac, Seen> {
    if events == [] then map[]
    else
      var t := TableAfter(events[..|events| - 1]);
      match events[|events| - 1]
      case Frame(src, port, at) => t[src := Seen(port, at)]
      case Sweep(now) => Recent(t, now)
  }

  /** Event i is the last frame from the station. */
  ghost predicate LastFrame(events: seq<Event>, m: Mac, i: int) {
    && 0 <= i < |events| && events[i].Frame? && events[i].src == m
    && forall j :: i < j < |events| && events[j].Frame? ==> events[j].src != m
  }

  ghost predicate NotSwept(events: seq<Event>, i: int)
    requires 0 <= i < |events| && events[i].Frame?
  {
    forall j :: i < j < |events| && events[j].Sweep? ==> events[j].now - events[i].at <= 30
  }

  /** A station is known exactly when no sweep came too late after its last frame, and then at that frame's port. */
  lemma {:induction false} KnowsLastPort(events: seq<Event>, m: Mac)
    ensures m in TableAfter(events) <==> exists i :: LastFrame(events, m, i) && NotSwept(events, i)
    ensures forall i :: LastFrame(events, m, i) && m in TableAfter(events) ==>
      TableAfter(events)[m] == Seen(events[i].port, events[i].at)
  {
    if events != [] {
      var n := |events| - 1;
      var init, last := events[..n], events[n];
      KnowsLastPort(init, m);
      if last.Frame? && last.src == m {
        assert LastFrame(events, m, n) && NotSwept(events, n);
      } else {
        forall i | 0 <= i < n ensures LastFrame(events, m, i) <==> LastFrame(init, m, i) {
          assert forall j :: 0 <= j < n ==> events[j] == init[j];
        }
        forall i | LastFrame(init, m, i)
          ensures NotSwept(events, i) <==>
            NotSwept(init, i) && (last.Sweep? ==> last.now - events[i].at <= 30)
        {
          assert forall j :: 0 <= j < n ==> events[j] == init[j];
        }
      }
    }
  }

  /**
   Over any run: a frame for a station whose own last frame came in by another port, with no late
   sweep since, leaves by that port alone; any other frame leaves by every port but its own.
   */
  lemma FramesFollowStations(events: seq<Event>, ports: seq<nat>, from: nat, src: Mac, at: int, dst: Mac, p: nat)
    ensures var all := events + [Frame(src, from, at)];
      dst != BROADCAST && LastSeenAt(all, dst, p) && p != from ==>
        SentTo(TableAfter(all), ports, from, dst) == [p]
    ensures var all := events + [Frame(src, from, at)];
      (dst == BROADCAST || forall q :: LastSeenAt(all, dst, q) ==> q == from) ==>
        forall q :: q in SentTo(TableAfter(all), ports, from, dst) <==> q in ports && q != from
  {
    var all := events + [Frame(src, from, at)];
    KnowsLastPort(all, dst);
    FloodPorts(ports, from);
    if dst in TableAfter(all) {
      var i :| LastFrame(all, dst, i) && NotSwept(all, i);
      assert LastSeenAt(all, dst, all[i].port);
    }
  }

  /** The station's last frame came in by port `p`, and no sweep since then was too late. */
  ghost predicate LastSeenAt(events: seq<Event>, m: Mac, p: nat) {
    exists i :: LastFrame(events, m, i) && NotSwept(events, i) && events[i].port == p
  }
}
