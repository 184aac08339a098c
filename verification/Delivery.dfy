/** Delivery by address: each router looks it up in its own table by longest prefix match. */
module Delivery {
  import opened Graphs
  import opened LinkState
  import opened Spf
  import opened SpfCorrect
  import opened Routes
  import opened Forwarding
  import opened HopByHop

  /** The entry found for the address leads over neighbour `h`. */
  ghost predicate LookupHop(v: View, table: seq<RtEntry>, dst: Ip, h: Rid) {
    exists best :: IsBest(table, dst, best, |table|) && Via(v, table[best], h)
  }

  /** Each router looks the address up until the packet is at `r`. */
  ghost predicate FollowsLookups(views: map<Rid, View>, tables: map<Rid, seq<RtEntry>>,
                                 r: Rid, dst: Ip, trace: seq<Rid>)
  {
    && trace != []
    && forall i :: 0 <= i < |trace| - 1 ==>
         && trace[i] != r && trace[i] in views && trace[i] in tables
         && LookupHop(views[trace[i]], tables[trace[i]], dst, trace[i + 1])
  }

  /** The address lies in the subnet, and no entry for another subnet matches it with as many mask bits. */
  ghost predicate Decides(table: seq<RtEntry>, dst: Ip, dest: Ip, mask: Ip) {
    && And(dst, mask) == And(dest, mask)
    && forall i :: 0 <= i < |table| && Matches(table[i], dst) && PrefixLen(mask) <= PrefixLen(table[i].mask) ==>
         SameSubnet(table[i], dest, mask)
  }

  ghost predicate SubnetDecides(views: map<Rid, View>, tables: map<Rid, seq<RtEntry>>,
                                r: Rid, dst: Ip, dest: Ip, mask: Ip)
  {
    forall x :: x in views && x != r ==> x in tables && Decides(tables[x], dst, dest, mask)
  }

  /** The lookup finds the subnet's entry. */
  lemma BestIsSubnet(table: seq<RtEntry>, dst: Ip, dest: Ip, mask: Ip, best: int)
    requires Decides(table, dst, dest, mask) && HasRoute(table, dest, mask) && IsBest(table, dst, best, |table|)
    ensures SameSubnet(table[best], dest, mask)
  {
    var i :| 0 <= i < |table| && SameSubnet(table[i], dest, mask);
    assert Matches(table[i], dst);
  }

  /** The subnet's only entry is the one the lookup finds. */
  lemma SubnetIsBest(table: seq<RtEntry>, dst: Ip, dest: Ip, mask: Ip, i: nat)
    requires Decides(table, dst, dest, mask) && i < |table| && SameSubnet(table[i], dest, mask)
    requires forall k :: 0 <= k < |table| && SameSubnet(table[k], dest, mask) ==> k == i
    ensures IsBest(table, dst, i, |table|)
  {
    assert Matches(table[i], dst);
  }

  lemma OnlyEntry(v: View, table: seq<RtEntry>, r: Rid, dest: Ip, mask: Ip, i: nat, k: nat)
    requires Computed(v, table, r, dest, mask) && i < |table| && k < |table|
    requires SameSubnet(table[i], dest, mask) && SameSubnet(table[k], dest, mask)
    ensures i == k
  {
    var kernel :| GoodTable(v, kernel, table) && !HasRoute(kernel, dest, mask);
    NotFromKernel(kernel, table, i, dest, mask);
    NotFromKernel(kernel, table, k, dest, mask);
  }

  /** A lookup takes the same hop as the subnet's own entry. */
  lemma LookupIsTableHop(v: View, table: seq<RtEntry>, r: Rid, dst: Ip, dest: Ip, mask: Ip, h: Rid)
    requires Computed(v, table, r, dest, mask) && Decides(table, dst, dest, mask) && HasRoute(table, dest, mask)
    ensures LookupHop(v, table, dst, h) <==> TableHop(v, table, dest, mask, h)
  {
    if best :| IsBest(table, dst, best, |table|) && Via(v, table[best], h) {
      BestIsSubnet(table, dst, dest, mask, best);
    }
    if i :| 0 <= i < |table| && SameSubnet(table[i], dest, mask) && Via(v, table[i], h) {
      forall k | 0 <= k < |table| && SameSubnet(table[k], dest, mask) ensures k == i {
        OnlyEntry(v, table, r, dest, mask, i, k);
      }
      SubnetIsBest(table, dst, dest, mask, i);
    }
  }

  /** A trace is its first hop and the rest. */
  lemma SplitTrace(views: map<Rid, View>, tables: map<Rid, seq<RtEntry>>,
                   r: Rid, dst: Ip, dest: Ip, mask: Ip, trace: seq<Rid>)
    requires |trace| > 1
    ensures FollowsTables(views, tables, r, dest, mask, trace) <==>
      && trace[0] != r && trace[0] in views && trace[0] in tables
      && TableHop(views[trace[0]], tables[trace[0]], dest, mask, trace[1])
      && FollowsTables(views, tables, r, dest, mask, trace[1..])
    ensures FollowsLookups(views, tables, r, dst, trace) <==>
      && trace[0] != r && trace[0] in views && trace[0] in tables
      && LookupHop(views[trace[0]], tables[trace[0]], dst, trace[1])
      && FollowsLookups(views, tables, r, dst, trace[1..])
  {
    assert [trace[0]] + trace[1..] == trace;
  }

  /** Traces by lookup are traces by the subnet's entries. */
  lemma {:induction false} LookupsFollowTables(views: map<Rid, View>, g: Graph, tables: map<Rid, seq<RtEntry>>,
                                               r: Rid, dst: Ip, dest: Ip, mask: Ip, trace: seq<Rid>, d: nat)
    requires SameGraph(views, g) && Closed(views, g) && SubnetDecides(views, tables, r, dst, dest, mask)
    requires TablesComputed(views, tables, r, dest, mask) && TablesComplete(views, tables, r, dest, mask)
    requires trace != [] && trace[0] in views && Dist(g, trace[0], r, d) && d < INT_MAX
    ensures FollowsLookups(views, tables, r, dst, trace) <==> FollowsTables(views, tables, r, dest, mask, trace)
    decreases |trace|
  {
    if |trace| > 1 {
      var x, h := trace[0], trace[1];
      SplitTrace(views, tables, r, dst, dest, mask, trace);
      if x != r {
        var _ := CompleteHop(views[x], tables[x], r, dest, mask, d);
        LookupIsTableHop(views[x], tables[x], r, dst, dest, mask, h);
        if TableHop(views[x], tables[x], dest, mask, h) {
          var n := NearerByTable(views, g, tables, r, dest, mask, x, h, d);
          LookupsFollowTables(views, g, tables, r, dst, dest, mask, trace[1..], n);
        }
      }
    }
  }

  lemma NearerByTable(views: map<Rid, View>, g: Graph, tables: map<Rid, seq<RtEntry>>,
                      r: Rid, dest: Ip, mask: Ip, x: Rid, h: Rid, d: nat) returns (n: nat)
    requires SameGraph(views, g) && Closed(views, g) && TablesComputed(views, tables, r, dest, mask)
    requires x in views && x != r && Dist(g, x, r, d) && TableHop(views[x], tables[x], dest, mask, h)
    ensures h in views && d == n + 1 && Dist(g, h, r, n)
  {
    ComputedHop(views[x], tables[x], r, dest, mask, h);
    n :| FirstHopIn(views[x], r, h, n);
    DistUnique(g, x, r, d, n + 1);
    FirstHopIsNearer(g, x, h, r, n);
    assert (x, h).1 in views;
  }

  /** However it is looked up on the way, a packet moves on until it is at the router attached to its subnet. */
  lemma LookupsEndAtAdvertiser(views: map<Rid, View>, g: Graph, tables: map<Rid, seq<RtEntry>>,
                               r: Rid, dst: Ip, dest: Ip, mask: Ip, trace: seq<Rid>, d: nat)
    requires SameGraph(views, g) && Closed(views, g) && SubnetDecides(views, tables, r, dst, dest, mask)
    requires TablesComputed(views, tables, r, dest, mask) && TablesComplete(views, tables, r, dest, mask)
    requires FollowsLookups(views, tables, r, dst, trace) && trace[0] in views
    requires Dist(g, trace[0], r, d) && d < INT_MAX
    ensures (forall h :: !FollowsLookups(views, tables, r, dst, trace + [h])) <==> Arrived(trace, r, d)
  {
    LookupsFollowTables(views, g, tables, r, dst, dest, mask, trace, d);
    TablesEndAtAdvertiser(views, g, tables, r, dest, mask, trace, d);
    forall h
      ensures FollowsLookups(views, tables, r, dst, trace + [h]) <==>
        FollowsTables(views, tables, r, dest, mask, trace + [h])
    {
      LookupsFollowTables(views, g, tables, r, dst, dest, mask, trace + [h], d);
    }
  }

  /** From every router within reach, a packet for an address of the subnet arrives in the least number of hops. */
  lemma LookupsArrive(views: map<Rid, View>, g: Graph, tables: map<Rid, seq<RtEntry>>,
                      r: Rid, dst: Ip, dest: Ip, mask: Ip, x: Rid, d: nat)
    returns (trace: seq<Rid>)
    requires SameGraph(views, g) && Closed(views, g) && SubnetDecides(views, tables, r, dst, dest, mask)
    requires TablesComputed(views, tables, r, dest, mask) && TablesComplete(views, tables, r, dest, mask)
    requires x in views && Dist(g, x, r, d) && d < INT_MAX
    ensures FollowsLookups(views, tables, r, dst, trace) && trace[0] == x && Arrived(trace, r, d)
  {
    trace := TablesArrive(views, g, tables, r, dest, mask, x, d);
    LookupsFollowTables(views, g, tables, r, dst, dest, mask, trace, d);
  }
}
