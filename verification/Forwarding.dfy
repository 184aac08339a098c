/** Longest prefix match over the routing table. */
module Forwarding {
  import opened LinkState
  import opened Routes

  /** How many bits of the mask are set. */
  function PrefixLen(mask: nat): nat {
    if mask == 0 then 0 else mask % 2 + PrefixLen(mask / 2)
  }

  predicate Matches(e: RtEntry, dst: Ip) {
    And(dst, e.mask) == And(e.dest, e.mask)
  }

  method CountBits(mask: Ip) returns (n: nat)
    ensures n == PrefixLen(mask)
  {
    n := 0;
    var rest: nat := mask;
    while rest != 0
      invariant n + PrefixLen(rest) == PrefixLen(mask)
    {
      n := n + rest % 2;
      rest := rest / 2;
    }
  }

  /** The index of the entry found, or -1: the first of those with the most mask bits among all that match. */
  method LongestPrefixMatch(rtable: seq<RtEntry>, dst: Ip) returns (best: int)
    ensures best == -1 <==> forall i :: 0 <= i < |rtable| ==> !Matches(rtable[i], dst)
    ensures best != -1 ==> IsBest(rtable, dst, best, |rtable|)
  {
    best := -1;
    var maxLen: int := -1;
    for i := 0 to |rtable|
      invariant best == -1 ==> maxLen == -1 && forall k :: 0 <= k < i ==> !Matches(rtable[k], dst)
      invariant best != -1 ==> IsBest(rtable, dst, best, i) && maxLen == PrefixLen(rtable[best].mask)
    {
      if And(dst, rtable[i].mask) == And(rtable[i].dest, rtable[i].mask) {
        var len := CountBits(rtable[i].mask);
        if len > maxLen {
          maxLen := len;
          best := i;
        }
      }
    }
  }

  ghost predicate IsBest(rtable: seq<RtEntry>, dst: Ip, best: int, n: nat) {
    && 0 <= best < n <= |rtable| && Matches(rtable[best], dst)
    && var longest := PrefixLen(rtable[best].mask);
    && (forall k :: 0 <= k < n && Matches(rtable[k], dst) ==> PrefixLen(rtable[k].mask) <= longest)
    && (forall k :: 0 <= k < best && Matches(rtable[k], dst) ==> PrefixLen(rtable[k].mask) < longest)
  }

  // ---------- contiguous masks ----------

  /** The n low bits are set and no others. */
  ghost predicate AllOnes(m: nat, n: nat) {
    if n == 0 then m == 0 else m % 2 == 1 && AllOnes(m / 2, n - 1)
  }

  /** Read as an n-bit number: ones, then zeros. */
  ghost predicate Contiguous(m: nat, n: nat) {
    if n == 0 then m == 0 else if m % 2 == 1 then AllOnes(m, n) else Contiguous(m / 2, n - 1)
  }

  lemma {:induction false} OnesLength(m: nat, n: nat)
    requires AllOnes(m, n)
    ensures PrefixLen(m) == n && Contiguous(m, n)
  {
    if n > 0 {
      OnesLength(m / 2, n - 1);
    }
  }

  lemma {:induction false} ContiguousLength(m: nat, n: nat)
    requires Contiguous(m, n)
    ensures PrefixLen(m) <= n && (PrefixLen(m) == n ==> AllOnes(m, n))
  {
    if n > 0 {
      if m % 2 == 1 {
        OnesLength(m, n);
      } else {
        ContiguousLength(m / 2, n - 1);
      }
    }
  }

  lemma {:induction false} OnesUnique(a: nat, b: nat, n: nat)
    requires AllOnes(a, n) && AllOnes(b, n)
    ensures a == b
  {
    if n > 0 {
      OnesUnique(a / 2, b / 2, n - 1);
    }
  }

  lemma AndHalves(x: nat, m: nat)
    ensures And(x, m) / 2 == And(x / 2, m / 2)
    ensures And(x, m) % 2 == if x % 2 == 1 && m % 2 == 1 then 1 else 0
  {
  }

  lemma AndEven(x: nat, m: nat)
    requires m % 2 == 0
    ensures And(x, m) == 2 * And(x / 2, m / 2)
  {
    AndHalves(x, m);
  }

  /** Addresses that agree under the longer of two contiguous masks agree under the shorter. */
  lemma {:induction false} LongerMaskDecides(a: nat, b: nat, x: nat, y: nat, n: nat)
    requires Contiguous(a, n) && Contiguous(b, n) && PrefixLen(a) <= PrefixLen(b)
    requires And(x, b) == And(y, b)
    ensures And(x, a) == And(y, a)
  {
    if n > 0 {
      AndHalves(x, b);
      AndHalves(y, b);
      if a % 2 == 1 {
        OnesLength(a, n);
        ContiguousLength(b, n);
        OnesUnique(a, b, n);
      } else {
        ContiguousLength(a / 2, n - 1);
        if b % 2 == 1 {
          OnesLength(b / 2, n - 1);
        }
        LongerMaskDecides(a / 2, b / 2, x / 2, y / 2, n - 1);
        AndEven(x, a);
        AndEven(y, a);
      }
    }
  }

  /** With contiguous masks, the prefix found lies inside every other prefix that matches. */
  lemma BestIsMostSpecific(rtable: seq<RtEntry>, dst: Ip, best: nat, k: nat, x: Ip)
    requires IsBest(rtable, dst, best, |rtable|) && k < |rtable|
    requires Contiguous(rtable[best].mask, 32) && Contiguous(rtable[k].mask, 32)
    requires Matches(rtable[k], dst) && Matches(rtable[best], x)
    ensures Matches(rtable[k], x)
  {
    LongerMaskDecides(rtable[k].mask, rtable[best].mask, x, dst, 32);
  }

  /** The global table: emptied and filled again entry by entry. */
  class RoutingTable {
    var entries: seq<RtEntry>

    constructor ()
      ensures entries == []
    {
      entries := [];
    }

    method Clear()
      modifies this
      ensures entries == []
    {
      while entries != []
        decreases |entries|
      {
        entries := entries[1..];
      }
    }

    /** Moves every entry of the new list to the end of the table. */
    method Load(added: seq<RtEntry>)
      modifies this
      ensures entries == old(entries) + added
    {
      for i := 0 to |added|
        invariant entries == old(entries) + added[..i]
      {
        entries := entries + [added[i]];
        assert added[..i + 1] == added[..i] + [added[i]];
      }
      assert added[..|added|] == added;
    }

    /** spf_run: afterwards lookups see exactly the table just computed. */
    method Replace(v: View, kernel: seq<RtEntry>)
      requires DistinctRids(v.lsdb) && v.RealIds() && v.NoSelfEntry()
      modifies this
      ensures GoodTable(v, kernel, entries) && AllCovered(v, entries, |v.lsdb|)
    {
      var table := ComputeRoutes(v, kernel);
      Clear();
      Load(table);
      assert [] + table == table;
    }

    method Lookup(dst: Ip) returns (best: int)
      ensures best == -1 <==> forall i :: 0 <= i < |entries| ==> !Matches(entries[i], dst)
      ensures best != -1 ==> IsBest(entries, dst, best, |entries|)
    {
      best := LongestPrefixMatch(entries, dst);
    }
  }
}
