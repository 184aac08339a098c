/** What one mOSPF router knows: its interfaces with their neighbours, and its link-state database. */
module LinkState {
  import opened Graphs

  type u8 = x: int | 0 <= x < 0x100
  type u16 = x: int | 0 <= x < 0x1_0000

  /** An IPv4 address or mask. */
  type Ip = x: int | 0 <= x < 0x1_0000_0000

  /** The bitwise and of C, on non-negative numbers. */
  function And(a: nat, b: nat): (r: nat)
    ensures r <= a && r <= b
  {
    if a == 0 || b == 0 then 0
    else 2 * And(a / 2, b / 2) + (if a % 2 == 1 && b % 2 == 1 then 1 else 0)
  }

  /** One link-state advertisement: a subnet, and the router behind it. */
  datatype Lsa = Lsa(network: Ip, mask: Ip, rid: Rid)

  datatype Nbr = Nbr(id: Rid, ip: Ip, mask: Ip, alive: int)

  datatype Iface = Iface(ip: Ip, mask: Ip, numNbr: int, nbrs: seq<Nbr>)

  datatype DbEntry = DbEntry(rid: Rid, seqNo: u16, alive: int, lsas: seq<Lsa>)

  /** One entry per router: kept by every handler, see WellFormed in RouterDaemon. */
  ghost predicate DistinctRids(lsdb: seq<DbEntry>) {
    forall a, b :: 0 <= a < b < |lsdb| ==> lsdb[a].rid != lsdb[b].rid
  }

  /** The part of a router's state that the shortest-path computation reads. */
  datatype View = View(self: Rid, ifaces: seq<Iface>, lsdb: seq<DbEntry>) {
    ghost predicate HasNbr(n: Rid) {
      exists i, j :: 0 <= i < |ifaces| && 0 <= j < |ifaces[i].nbrs| && ifaces[i].nbrs[j].id == n
    }

    /** Neighbour edges of this router, and an edge for each advertisement in the database. */
    ghost function Edges(): Graph {
      (set i, j | 0 <= i < |ifaces| && 0 <= j < |ifaces[i].nbrs| && ifaces[i].nbrs[j].id != self
         :: (self, ifaces[i].nbrs[j].id))
      + (set e, k | 0 <= e < |lsdb| && 0 <= k < |lsdb[e].lsas| && lsdb[e].lsas[k].rid != lsdb[e].rid
         :: (lsdb[e].rid, lsdb[e].lsas[k].rid))
    }

    ghost predicate NoSelfEntry() {
      forall a :: 0 <= a < |lsdb| ==> lsdb[a].rid != self
    }

    /** 0 and 0xFFFFFFFF stand for "no predecessor" and are not router ids. */
    ghost predicate RealIds() {
      && self != 0
      && (forall i, j :: 0 <= i < |ifaces| && 0 <= j < |ifaces[i].nbrs| ==> RealId(ifaces[i].nbrs[j].id))
      && (forall a :: 0 <= a < |lsdb| ==> RealId(lsdb[a].rid))
    }
  }

  ghost predicate RealId(r: Rid) {
    r != 0 && r != 0xFFFF_FFFF
  }
}
