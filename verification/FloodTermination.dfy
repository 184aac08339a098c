/** Flooding dies out although every update, old or new, is forwarded. */
module FloodTermination {
  import opened Graphs
  import opened LinkState
  import opened Routers
  import opened Network
  import Agreement

  ghost function Pow(b: nat, n: nat): nat {
    if n == 0 then 1 else b * Pow(b, n - 1)
  }

  /** How much forwarding the copies in flight can still cause, with at most `f` neighbours per router. */
  ghost function Weight(flight: seq<Copy>, f: nat): nat {
    if flight == [] then 0 else Pow(f + 1, flight[0].lsu.ttl) + Weight(flight[1..], f)
  }

  ghost predicate NbrBound(net: Net, f: nat) {
    forall r :: r in net.routers ==> |OriginationCopies(net.routers[r])| <= f
  }

  lemma {:induction false} PowPositive(b: nat, n: nat)
    requires b > 0
    ensures Pow(b, n) > 0
  {
    if n > 0 {
      PowPositive(b, n - 1);
      assert b * Pow(b, n - 1) > 0;
    }
  }

  lemma {:induction false} WeightAppend(a: seq<Copy>, b: seq<Copy>, f: nat)
    ensures Weight(a + b, f) == Weight(a, f) + Weight(b, f)
  {
    if a == [] {
      assert a + b == b;
    } else {
      WeightAppend(a[1..], b, f);
      assert (a + b)[1..] == a[1..] + b;
    }
  }

  lemma WeightWithout(flight: seq<Copy>, i: nat, f: nat)
    requires i < |flight|
    ensures Weight(flight, f) == Weight(Without(flight, i), f) + Pow(f + 1, flight[i].lsu.ttl)
  {
    var rest := flight[i + 1..];
    assert flight == flight[..i] + ([flight[i]] + rest);
    WeightAppend(flight[..i], [flight[i]] + rest, f);
    WeightAppend([flight[i]], rest, f);
    WeightAppend(flight[..i], rest, f);
  }

  lemma OneMore(k: nat, p: nat)
    ensures (k + 1) * p == k * p + p
  {
  }

  lemma {:induction false} WeightUniform(flight: seq<Copy>, f: nat, t: nat)
    requires forall c :: c in flight ==> c.lsu.ttl == t
    ensures Weight(flight, f) == |flight| * Pow(f + 1, t)
  {
    if flight != [] {
      WeightUniform(flight[1..], f, t);
      assert flight[0] in flight;
      OneMore(|flight| - 1, Pow(f + 1, t));
    }
  }

  /** Leaving out an interface, or changing what is copied, makes no more copies. */
  lemma {:induction false} CopiesBound(ifaces: seq<Iface>, n: nat, skip: int, lsu: Lsu, other: Lsu)
    requires n <= |ifaces|
    ensures |Copies(ifaces, n, skip, lsu)| <= |Copies(ifaces, n, -1, other)|
  {
    if n > 0 {
      CopiesBound(ifaces, n - 1, skip, lsu, other);
    }
  }

  lemma ProductGap(k: nat, f: nat, p: nat)
    requires k <= f && p > 0
    ensures k * p < (f + 1) * p
  {
    assert (f + 1) * p == k * p + (f + 1 - k) * p;
    assert (f + 1 - k) * p > 0;
  }

  lemma ForwardedWeight(s: RouterState, from: Rid, cables: Cabling, inIface: int, lsu: Lsu, f: nat)
    requires |OriginationCopies(s)| <= f && 1 <= lsu.ttl
    ensures Weight(Sent(cables, from, Forwarded(s, inIface, lsu)), f) < Pow(f + 1, lsu.ttl)
  {
    var out := Forwarded(s, inIface, lsu);
    var sent := Sent(cables, from, out);
    CopiesBound(s.ifaces, |s.ifaces|, inIface, lsu.(ttl := Decremented(lsu.ttl)), Generated(s));
    forall c | c in sent ensures c.lsu.ttl == lsu.ttl - 1 {
      ForwardingCarries(s, from, cables, inIface, lsu, c);
    }
    WeightUniform(sent, f, lsu.ttl - 1);
    PowPositive(f + 1, lsu.ttl - 1);
    ProductGap(|sent|, f, Pow(f + 1, lsu.ttl - 1));
  }

  /** Each delivery strictly lowers the weight, whether or not the update was new. */
  lemma DeliveryLowersWeight(net: Net, i: nat, f: nat)
    requires Agreement.Inv(net) && NbrBound(net, f) && Enabled(net, Deliver(i))
    ensures Weight(AfterDeliver(net, i).flight, f) < Weight(net.flight, f)
    ensures NbrBound(AfterDeliver(net, i), f)
  {
    var c := net.flight[i];
    var s := net.routers[c.dst];
    assert Agreement.SoundCopy(net, c);
    WeightWithout(net.flight, i, f);
    ForwardedWeight(s, c.dst, net.cables, c.inIface, c.lsu, f);
    WeightAppend(Without(net.flight, i), Sent(net.cables, c.dst, Forwarded(s, c.inIface, c.lsu)), f);
    assert Handled(s, c.lsu).ifaces == s.ifaces;
    forall r | r in AfterDeliver(net, i).routers ensures |OriginationCopies(AfterDeliver(net, i).routers[r])| <= f {
      CopiesBound(net.routers[r].ifaces, |net.routers[r].ifaces|, -1,
                  Generated(AfterDeliver(net, i).routers[r]), Generated(net.routers[r]));
    }
  }

  lemma LossLowersWeight(net: Net, i: nat, f: nat)
    requires i < |net.flight|
    ensures Weight(Without(net.flight, i), f) < Weight(net.flight, f)
  {
    WeightWithout(net.flight, i, f);
    PowPositive(f + 1, net.flight[i].lsu.ttl);
  }

  /** When nothing is originated or duplicated any more, flooding ends: the weight bounds every run. */
  lemma {:induction false} FloodingEnds(net: Net, steps: seq<Step>, net': Net, f: nat)
    requires Agreement.Inv(net) && NbrBound(net, f) && Run(net, steps, net')
    requires forall k :: 0 <= k < |steps| ==> steps[k].Deliver? || steps[k].Lose?
    ensures |steps| + Weight(net'.flight, f) <= Weight(net.flight, f)
    decreases |steps|
  {
    if steps != [] {
      var next := Apply(net, steps[0]);
      Agreement.StepKeepsInv(net, steps[0]);
      if steps[0].Deliver? {
        DeliveryLowersWeight(net, steps[0].i, f);
      } else {
        LossLowersWeight(net, steps[0].i, f);
      }
      FloodingEnds(next, steps[1..], net', f);
    }
  }
}
