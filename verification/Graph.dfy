/** Directed graphs over router ids, walks in them, and hop counts. */
module Graphs {
  type Rid = x: int | 0 <= x < 0x1_0000_0000

  /** The graph of who names whom as a neighbour; no edge leads from a router to itself. */
  type Graph = set<(Rid, Rid)>

  ghost predicate IsWalk(g: Graph, p: seq<Rid>) {
    p != [] && forall i :: 0 <= i < |p| - 1 ==> (p[i], p[i + 1]) in g
  }

  /** A walk from `a` to `b` over `n` edges. */
  ghost predicate Walk(g: Graph, a: Rid, b: Rid, n: nat, p: seq<Rid>) {
    IsWalk(g, p) && |p| == n + 1 && p[0] == a && p[n] == b
  }

  ghost predicate ReachIn(g: Graph, a: Rid, b: Rid, n: nat) {
    exists p :: Walk(g, a, b, n, p)
  }

  /** `n` is the least number of hops from `a` to `b`. */
  ghost predicate Dist(g: Graph, a: Rid, b: Rid, n: nat) {
    ReachIn(g, a, b, n) && forall m: nat :: ReachIn(g, a, b, m) ==> n <= m
  }

  lemma ReachZero(g: Graph, a: Rid)
    ensures ReachIn(g, a, a, 0)
  {
    assert Walk(g, a, a, 0, [a]);
  }

  lemma ReachZeroOnly(g: Graph, a: Rid, b: Rid)
    requires ReachIn(g, a, b, 0)
    ensures a == b
  {
  }

  lemma ReachEdge(g: Graph, a: Rid, b: Rid)
    requires (a, b) in g
    ensures ReachIn(g, a, b, 1)
  {
    assert Walk(g, a, b, 1, [a, b]);
  }

  lemma ReachJoin(g: Graph, a: Rid, b: Rid, c: Rid, m: nat, n: nat)
    requires ReachIn(g, a, b, m) && ReachIn(g, b, c, n)
    ensures ReachIn(g, a, c, m + n)
  {
    var p :| Walk(g, a, b, m, p);
    var q :| Walk(g, b, c, n, q);
    var r := p + q[1..];
    forall i | 0 <= i < |r| - 1 ensures (r[i], r[i + 1]) in g {
      if i < m {
        assert r[i] == p[i] && r[i + 1] == p[i + 1];
      } else {
        assert r[i] == q[i - m] && r[i + 1] == q[i - m + 1];
      }
    }
    assert Walk(g, a, c, m + n, r);
  }

  lemma ReachBefore(g: Graph, a: Rid, b: Rid, c: Rid, n: nat)
    requires (a, b) in g && ReachIn(g, b, c, n)
    ensures ReachIn(g, a, c, n + 1)
  {
    ReachEdge(g, a, b);
    ReachJoin(g, a, b, c, 1, n);
  }

  lemma ReachAfter(g: Graph, a: Rid, b: Rid, c: Rid, n: nat)
    requires ReachIn(g, a, b, n) && (b, c) in g
    ensures ReachIn(g, a, c, n + 1)
  {
    ReachEdge(g, b, c);
    ReachJoin(g, a, b, c, n, 1);
  }

  /** The last edge of a walk. */
  lemma ReachLast(g: Graph, a: Rid, c: Rid, n: nat) returns (b: Rid)
    requires ReachIn(g, a, c, n + 1)
    ensures ReachIn(g, a, b, n) && (b, c) in g
  {
    var p :| Walk(g, a, c, n + 1, p);
    b := p[n];
    assert Walk(g, a, b, n, p[..n + 1]);
    assert (p[n], p[n + 1]) in g;
  }

  /** The first edge of a walk. */
  lemma ReachFirst(g: Graph, a: Rid, c: Rid, n: nat) returns (b: Rid)
    requires ReachIn(g, a, c, n + 1)
    ensures (a, b) in g && ReachIn(g, b, c, n)
  {
    var p :| Walk(g, a, c, n + 1, p);
    b := p[1];
    assert (p[0], p[1]) in g;
    var q := p[1..];
    forall i | 0 <= i < |q| - 1 ensures (q[i], q[i + 1]) in g {
      assert (p[i + 1], p[i + 1 + 1]) in g;
    }
    assert Walk(g, b, c, n, q);
  }

  lemma {:induction false} DistExists(g: Graph, a: Rid, b: Rid, n: nat) returns (d: nat)
    requires ReachIn(g, a, b, n)
    ensures Dist(g, a, b, d) && d <= n
  {
    if m: nat :| m < n && ReachIn(g, a, b, m) {
      d := DistExists(g, a, b, m);
    } else {
      d := n;
    }
  }

  lemma DistUnique(g: Graph, a: Rid, b: Rid, m: nat, n: nat)
    requires Dist(g, a, b, m) && Dist(g, a, b, n)
    ensures m == n
  {
  }

  lemma DistDiffers(g: Graph, a: Rid, b: Rid, c: Rid, m: nat, n: nat)
    requires Dist(g, a, c, m) && Dist(g, b, c, n) && m != n
    ensures a != b
  {
  }

  /** The first hop of a shortest path is one hop nearer to the end of it. */
  lemma FirstHopIsNearer(g: Graph, a: Rid, h: Rid, b: Rid, n: nat)
    requires Dist(g, a, b, n + 1) && (a, h) in g && ReachIn(g, h, b, n)
    ensures Dist(g, h, b, n)
  {
    ReachEdge(g, a, h);
    forall m: nat | ReachIn(g, h, b, m) ensures n <= m {
      ReachJoin(g, a, h, b, 1, m);
    }
  }
}
