/** The congestion window as acknowledgements and retransmission timeouts drive it. */
module Congestion {
  import opened Seq32
  import opened TcpSenders

  datatype CcState = SlowStart | CongestionAvoidance | FastRecover

  /** The congestion fields of a socket; `cwnd` is a C float, taken as a real number. */
  datatype Cc = Cc(state: CcState, cwnd: real, ssthresh: u32, dupAcks: nat, recoveryPoint: u32)

  /** An acknowledgement number with the sender's sndUna and sndNxt when it arrives, or a timeout. */
  datatype Event = AckArrives(ackNo: u32, sndUna: u32, sndNxt: u32) | Timeout

  /** A non-negative float assigned to an unsigned integer loses its fraction, and what exceeds 32 bits. */
  function Truncated(x: real): u32
    requires x >= 0.0
  {
    x.Floor % 0x1_0000_0000
  }

  /** After the handshake. */
  const FRESH := Cc(SlowStart, MSS as real, 65536, 0, 0)

  class Controller {
    var state: CcState
    var cwnd: real
    var ssthresh: u32
    var dupAcks: nat
    var recoveryPoint: u32

    ghost function Value(): Cc
      reads this
    {
      Cc(state, cwnd, ssthresh, dupAcks, recoveryPoint)
    }

    constructor ()
      ensures Value() == FRESH
    {
      state, cwnd, ssthresh, dupAcks, recoveryPoint := SlowStart, MSS as real, 65536, 0, 0;
    }

    /** tcp_congestion_control; returns whether the oldest segment is retransmitted. */
    method OnAck(ackNo: u32, sndUna: u32, sndNxt: u32) returns (retransmit: bool)
      requires Inv(Value())
      modifies this
      ensures Value() == Next(old(Value()), AckArrives(ackNo, sndUna, sndNxt))
      ensures Inv(Value())
      ensures retransmit <==> old(state) != FastRecover && state == FastRecover
      ensures AckEffect(old(Value()), ackNo, sndUna, sndNxt, Value())
    {
      AckKeepsInv(Value(), ackNo, sndUna, sndNxt);
      AckHasEffect(Value(), ackNo, sndUna, sndNxt);
      retransmit := false;
      if state == FastRecover {
        if ackNo >= recoveryPoint {
          state := SlowStart;
          cwnd := ssthresh as real;
        } else {
          cwnd := cwnd + MSS as real;
        }
      } else if state == SlowStart {
        if ackNo < sndUna {
          dupAcks := dupAcks + 1;
        } else {
          cwnd := cwnd + MSS as real;
          dupAcks := 0;
        }
        if cwnd > ssthresh as real {
          state := CongestionAvoidance;
        }
      } else {
        if ackNo > sndUna {
          cwnd := cwnd + (MSS * MSS) as real / cwnd;
          dupAcks := 0;
        } else {
          dupAcks := dupAcks + 1;
        }
      }
      if dupAcks >= 3 {
        state := FastRecover;
        ssthresh := Truncated(cwnd / 2.0);
        cwnd := (ssthresh + 3 * MSS) as real;
        dupAcks := 0;
        recoveryPoint := sndNxt;
        retransmit := true;
      }
    }

    /** The retransmission timeout of tcp_scan_timer_list, short of giving the connection up. */
    method OnTimeout()
      requires Inv(Value())
      modifies this
      ensures Value() == Next(old(Value()), Timeout)
      ensures Inv(Value())
      ensures state == SlowStart && cwnd == 1460.0 && dupAcks == 0
      ensures old(cwnd) < 8589934592.0 ==> Halved(ssthresh, old(cwnd))
    {
      if cwnd < 8589934592.0 {
        TruncatedHalves(cwnd);
      }
      ssthresh := Truncated(cwnd / 2.0);
      cwnd := MSS as real;
      dupAcks := 0;
      state := SlowStart;
    }
  }

  // ---------- the same as a function ----------

  function RecoverStep(c: Cc, ackNo: u32): Cc {
    if ackNo >= c.recoveryPoint then c.(state := SlowStart, cwnd := c.ssthresh as real)
    else c.(cwnd := c.cwnd + MSS as real)
  }

  function SlowStartStep(c: Cc, ackNo: u32, sndUna: u32): Cc {
    var d := if ackNo < sndUna then c.(dupAcks := c.dupAcks + 1)
             else c.(cwnd := c.cwnd + MSS as real, dupAcks := 0);
    if d.cwnd > d.ssthresh as real then d.(state := CongestionAvoidance) else d
  }

  function AvoidanceStep(c: Cc, ackNo: u32, sndUna: u32): Cc
    requires c.cwnd > 0.0
  {
    if ackNo > sndUna then c.(cwnd := c.cwnd + (MSS * MSS) as real / c.cwnd, dupAcks := 0)
    else c.(dupAcks := c.dupAcks + 1)
  }

  function FastRetransmit(c: Cc, sndNxt: u32): Cc
    requires c.cwnd >= 0.0
  {
    if c.dupAcks >= 3 then
      var half := Truncated(c.cwnd / 2.0);
      Cc(FastRecover, (half + 3 * MSS) as real, half, 0, sndNxt)
    else c
  }

  function Next(c: Cc, ev: Event): Cc
    requires Inv(c)
  {
    match ev
    case AckArrives(ackNo, sndUna, sndNxt) =>
      FastRetransmit(match c.state
                     case FastRecover => RecoverStep(c, ackNo)
                     case SlowStart => SlowStartStep(c, ackNo, sndUna)
                     case CongestionAvoidance => AvoidanceStep(c, ackNo, sndUna), sndNxt)
    case Timeout =>
      Cc(SlowStart, MSS as real, Truncated(c.cwnd / 2.0), 0, c.recoveryPoint)
  }

  /**
   Over every mix of acknowledgements and timeouts: fewer than three duplicates are
   outstanding; in avoidance the window exceeds the threshold and holds a segment; in
   recovery it is at least the threshold and three segments; and a window smaller than a
   segment occurs only in slow start, below the threshold.
   */
  predicate Inv(c: Cc) {
    && c.dupAcks <= 2 && c.cwnd >= 0.0
    && (c.state == SlowStart ==> c.cwnd >= MSS as real || c.cwnd <= c.ssthresh as real)
    && (c.state == CongestionAvoidance ==> c.cwnd > c.ssthresh as real && c.cwnd >= MSS as real)
    && (c.state == FastRecover ==> c.cwnd >= (c.ssthresh + 3 * MSS) as real && c.dupAcks == 0)
  }

  lemma SharePositive(w: real)
    requires w > 0.0
    ensures (MSS * MSS) as real / w > 0.0
  {
  }

  lemma AckKeepsInv(c: Cc, ackNo: u32, sndUna: u32, sndNxt: u32)
    requires Inv(c)
    ensures Inv(Next(c, AckArrives(ackNo, sndUna, sndNxt)))
  {
    if c.state == CongestionAvoidance {
      SharePositive(c.cwnd);
    }
  }

  ghost function After(c: Cc, events: seq<Event>): (d: Cc)
    requires Inv(c)
    ensures Inv(d)
  {
    if events == [] then c
    else
      var d := After(c, events[..|events| - 1]);
      match events[|events| - 1] {
        case AckArrives(ackNo, sndUna, sndNxt) =>
          AckKeepsInv(d, ackNo, sndUna, sndNxt);
          Next(d, AckArrives(ackNo, sndUna, sndNxt))
        case Timeout => Next(d, Timeout)
      }
  }

  /** The invariant holds after every sequence of events. */
  lemma EveryRunIsSafe(events: seq<Event>)
    ensures var c := After(FRESH, events);
      && c.dupAcks <= 2
      && (c.state == CongestionAvoidance ==> c.cwnd > c.ssthresh as real && c.cwnd >= MSS as real)
      && (c.state == FastRecover ==> c.cwnd >= (c.ssthresh + 3 * MSS) as real)
  {
    assert Inv(FRESH);
    assert Inv(After(FRESH, events));
  }

  // ---------- what one event does to the fields ----------

  /** `t` is half of `w`, rounded down to a whole number of bytes. */
  ghost predicate Halved(t: u32, w: real) {
    2.0 * t as real <= w < 2.0 * t as real + 2.0
  }

  lemma TruncatedHalves(w: real)
    requires 0.0 <= w < 8589934592.0
    ensures Halved(Truncated(w / 2.0), w)
  {
    var f := (w / 2.0).Floor;
    assert f as real <= w / 2.0 < f as real + 1.0;
    assert 0 <= f < 0x1_0000_0000;
  }

  /** An acknowledgement is a duplicate from below sndUna on, in avoidance from sndUna on. */
  ghost predicate Duplicate(c: Cc, ackNo: u32, sndUna: u32) {
    ackNo < sndUna || (c.state == CongestionAvoidance && ackNo == sndUna)
  }

  /** In recovery: the end of it at the recovery point, or one segment more. */
  ghost predicate RecoveryEffect(c: Cc, ackNo: u32, d: Cc) {
    && d.ssthresh == c.ssthresh && d.recoveryPoint == c.recoveryPoint
    && (d.state == SlowStart <==> c.recoveryPoint <= ackNo) && (d.state == FastRecover <==> ackNo < c.recoveryPoint)
    && d.cwnd == if c.recoveryPoint <= ackNo then c.ssthresh as real else c.cwnd + 1460.0
  }

  /** The third duplicate: the threshold is halved, and recovery lasts until what was sent by now is acknowledged. */
  ghost predicate EntryEffect(c: Cc, sndNxt: u32, d: Cc) {
    && d.state == FastRecover && d.dupAcks == 0 && d.recoveryPoint == sndNxt
    && d.cwnd == d.ssthresh as real + 4380.0
    && (c.cwnd < 8589934592.0 ==> Halved(d.ssthresh, c.cwnd))
  }

  /** Otherwise: duplicates are counted, new ones open the window, and crossing the threshold ends slow start. */
  ghost predicate GrowthEffect(c: Cc, ackNo: u32, sndUna: u32, d: Cc) {
    && d.ssthresh == c.ssthresh && d.recoveryPoint == c.recoveryPoint
    && (Duplicate(c, ackNo, sndUna) ==> d.cwnd == c.cwnd && d.dupAcks == c.dupAcks + 1)
    && (!Duplicate(c, ackNo, sndUna) ==> d.dupAcks == 0)
    && (!Duplicate(c, ackNo, sndUna) && c.state == SlowStart ==> d.cwnd == c.cwnd + 1460.0)
    && (!Duplicate(c, ackNo, sndUna) && c.state == CongestionAvoidance ==> (d.cwnd - c.cwnd) * c.cwnd == 2131600.0)
    && d.state == if c.state == SlowStart && d.cwnd <= c.ssthresh as real then SlowStart else CongestionAvoidance
  }

  ghost predicate AckEffect(c: Cc, ackNo: u32, sndUna: u32, sndNxt: u32, d: Cc) {
    if c.state == FastRecover then RecoveryEffect(c, ackNo, d)
    else if c.dupAcks == 2 && Duplicate(c, ackNo, sndUna) then EntryEffect(c, sndNxt, d)
    else GrowthEffect(c, ackNo, sndUna, d)
  }

  lemma AckHasEffect(c: Cc, ackNo: u32, sndUna: u32, sndNxt: u32)
    requires Inv(c)
    ensures AckEffect(c, ackNo, sndUna, sndNxt, Next(c, AckArrives(ackNo, sndUna, sndNxt)))
  {
    if c.cwnd < 8589934592.0 {
      TruncatedHalves(c.cwnd);
    }
  }

  // ---------- an episode of recovery ----------

  /** Acknowledgements below `p`. */
  ghost predicate AllBelow(events: seq<Event>, p: u32) {
    forall k :: 0 <= k < |events| ==> events[k].AckArrives? && events[k].ackNo < p
  }

  /**
   Recovery that the acknowledgement `entry` starts: the threshold is half the window there was, and
   through any run of acknowledgements below the sndNxt of then the window is the
   threshold, three segments, and one segment for each of them.
   */
  lemma {:induction false} DuringRecovery(c: Cc, entry: Event, events: seq<Event>)
    requires Inv(c) && c.state != FastRecover
    requires entry.AckArrives? && After(c, [entry]).state == FastRecover
    requires AllBelow(events, entry.sndNxt)
    ensures var d := After(c, [entry] + events);
      && d.state == FastRecover && d.recoveryPoint == entry.sndNxt && d.ssthresh == After(c, [entry]).ssthresh
      && d.cwnd == d.ssthresh as real + (3 + |events|) as real * 1460.0
      && (c.cwnd < 8589934592.0 ==> Halved(d.ssthresh, c.cwnd))
    decreases |events|
  {
    if events == [] {
      assert [entry] + events == [entry];
      EntryStarts(c, entry);
    } else {
      var n := |events| - 1;
      DuringRecovery(c, entry, events[..n]);
      assert ([entry] + events)[..n + 1] == [entry] + events[..n];
      assert ([entry] + events)[n + 1] == events[n];
      AckHasEffect(After(c, [entry] + events[..n]), events[n].ackNo, events[n].sndUna, events[n].sndNxt);
    }
  }

  lemma EntryStarts(c: Cc, entry: Event)
    requires Inv(c) && c.state != FastRecover
    requires entry.AckArrives? && After(c, [entry]).state == FastRecover
    ensures EntryEffect(c, entry.sndNxt, After(c, [entry]))
  {
    assert [entry][..0] == [];
    AckHasEffect(c, entry.ackNo, entry.sndUna, entry.sndNxt);
  }

  /** The next acknowledgement ends recovery if and only if it reaches that sndNxt, and then cwnd is the threshold. */
  lemma RecoveryEnds(c: Cc, entry: Event, events: seq<Event>, last: Event)
    requires Inv(c) && c.state != FastRecover
    requires entry.AckArrives? && After(c, [entry]).state == FastRecover
    requires AllBelow(events, entry.sndNxt) && last.AckArrives?
    ensures var d := After(c, [entry] + events + [last]);
      && (d.state != FastRecover <==> entry.sndNxt <= last.ackNo)
      && d.ssthresh == After(c, [entry]).ssthresh
      && (d.state != FastRecover ==> d.state == SlowStart && d.cwnd == d.ssthresh as real)
  {
    var all := [entry] + events;
    DuringRecovery(c, entry, events);
    assert (all + [last])[..|all|] == all;
    AckHasEffect(After(c, all), last.ackNo, last.sndUna, last.sndNxt);
  }

  /** After every timeout of every run: one segment, in slow start, with the threshold at half the window there was. */
  lemma TimeoutResets(events: seq<Event>)
    ensures var c, d := After(FRESH, events), After(FRESH, events + [Timeout]);
      && d.state == SlowStart && d.cwnd == 1460.0 && d.dupAcks == 0
      && (c.cwnd < 8589934592.0 ==> Halved(d.ssthresh, c.cwnd))
  {
    assert (events + [Timeout])[..|events|] == events;
    if After(FRESH, events).cwnd < 8589934592.0 {
      TruncatedHalves(After(FRESH, events).cwnd);
    }
  }

  // ---------- additive increase ----------

  /** New acknowledgements in avoidance, one after the other. */
  ghost function Grown(w: real, n: nat): (r: real)
    requires w >= MSS as real
    ensures r >= w
  {
    if n == 0 then w
    else
      var g := Grown(w, n - 1);
      SharePositive(g);
      g + (MSS * MSS) as real / g
  }

  lemma {:induction false} GrowsByNewAcks(c: Cc, events: seq<Event>)
    requires Inv(c) && c.state == CongestionAvoidance
    requires forall k :: 0 <= k < |events| ==> events[k].AckArrives? && events[k].ackNo > events[k].sndUna
    ensures After(c, events).state == CongestionAvoidance
    ensures After(c, events).cwnd == Grown(c.cwnd, |events|)
  {
    if events != [] {
      GrowsByNewAcks(c, events[..|events| - 1]);
    }
  }

  /** The square of the window has grown by between 2n and 3n times the square of a segment. */
  ghost predicate SquareGrew(w: real, w': real, n: nat) {
    w * w + 2.0 * (n as real * 2131600.0) <= w' * w' <= w * w + 3.0 * (n as real * 2131600.0)
  }

  lemma ShareOfWindow(g: real, q: real)
    requires g >= 1460.0 && q * g == 2131600.0
    ensures 0.0 < q <= 1460.0
  {
    assert q <= 0.0 ==> q * g <= 0.0;
    assert q > 1460.0 ==> q * g > 1460.0 * g;
  }

  lemma SquareStep(g: real)
    requires g >= 1460.0
    ensures SquareGrew(g, g + 2131600.0 / g, 1)
  {
    var q := 2131600.0 / g;
    ShareOfWindow(g, q);
    assert (g + q) * (g + q) == g * g + 2.0 * (q * g) + q * q;
    assert 0.0 <= q * q <= q * 1460.0;
  }

  lemma SquareSum(w: real, g: real, h: real, n: nat)
    requires SquareGrew(w, g, n) && SquareGrew(g, h, 1)
    ensures SquareGrew(w, h, n + 1)
  {
  }

  lemma {:induction false} GrownSquare(w: real, n: nat)
    requires w >= MSS as real
    ensures SquareGrew(w, Grown(w, n), n)
  {
    if n > 0 {
      var g := Grown(w, n - 1);
      GrownSquare(w, n - 1);
      SquareStep(g);
      SquareSum(w, g, Grown(w, n), n - 1);
    }
  }

  /** n new acknowledgements in avoidance raise the square of the window by between 2n and 3n MSS squared. */
  lemma AdditiveIncrease(c: Cc, events: seq<Event>)
    requires Inv(c) && c.state == CongestionAvoidance
    requires forall k :: 0 <= k < |events| ==> events[k].AckArrives? && events[k].ackNo > events[k].sndUna
    ensures SquareGrew(c.cwnd, After(c, events).cwnd, |events|)
  {
    GrowsByNewAcks(c, events);
    GrownSquare(c.cwnd, |events|);
  }

  // ---------- repeated acknowledgements ----------

  /** Acknowledgements that repeat sndUna. */
  ghost predicate Repeats(events: seq<Event>) {
    forall k :: 0 <= k < |events| ==> events[k].AckArrives? && events[k].ackNo == events[k].sndUna
  }

  /** In slow start, the m-th acknowledgement from here is the first to lift the window above the threshold. */
  ghost predicate LeavesAfter(c: Cc, m: nat) {
    && 1 <= m && c.ssthresh as real < c.cwnd + m as real * 1460.0
    && (1 < m ==> c.cwnd + (m - 1) as real * 1460.0 <= c.ssthresh as real)
  }

  /** Where n repeated acknowledgements lead. */
  ghost predicate AfterRepeats(c: Cc, m: nat, n: nat, d: Cc) {
    && (n < m + 3 ==> d.ssthresh == c.ssthresh)
    && (n < m ==> d.state == SlowStart && d.cwnd == c.cwnd + n as real * 1460.0)
    && (m <= n < m + 3 ==>
          d.state == CongestionAvoidance && d.cwnd == c.cwnd + m as real * 1460.0 && d.dupAcks == n - m)
    && (n == m + 3 ==> d.state == FastRecover)
  }

  lemma BelowThreshold(c: Cc, m: nat, n: nat)
    requires LeavesAfter(c, m) && 1 <= n < m
    ensures c.cwnd + n as real * 1460.0 <= c.ssthresh as real
  {
    assert n as real <= (m - 1) as real;
  }

  lemma RepeatStep(c: Cc, m: nat, n: nat, d: Cc, a: u32, sndNxt: u32)
    requires Inv(c) && c.state == SlowStart && LeavesAfter(c, m) && n < m + 3
    requires Inv(d) && AfterRepeats(c, m, n, d)
    ensures AfterRepeats(c, m, n + 1, Next(d, AckArrives(a, a, sndNxt)))
  {
    if n + 1 < m {
      BelowThreshold(c, m, n + 1);
    }
  }

  /**
   An acknowledgement that repeats sndUna counts as new in slow start: a run of them opens the
   window by a segment each until it exceeds the threshold, at the m-th, and fast retransmit
   comes only with the third after that.
   */
  lemma {:induction false} RepeatsInSlowStart(c: Cc, m: nat, events: seq<Event>)
    requires Inv(c) && c.state == SlowStart && LeavesAfter(c, m)
    requires Repeats(events) && |events| <= m + 3
    ensures AfterRepeats(c, m, |events|, After(c, events))
    ensures After(c, events).state == FastRecover <==> |events| == m + 3
  {
    if events != [] {
      var n := |events| - 1;
      RepeatsInSlowStart(c, m, events[..n]);
      RepeatStep(c, m, n, After(c, events[..n]), events[n].ackNo, events[n].sndNxt);
    }
  }

  /** In avoidance the third of them in a row starts recovery, and no earlier one. */
  lemma {:induction false} RepeatsInAvoidance(c: Cc, events: seq<Event>)
    requires Inv(c) && c.state == CongestionAvoidance && c.dupAcks == 0
    requires Repeats(events) && |events| <= 3
    ensures After(c, events).state == FastRecover <==> |events| == 3
    ensures |events| < 3 ==> After(c, events) == c.(dupAcks := |events|)
  {
    if events != [] {
      RepeatsInAvoidance(c, events[..|events| - 1]);
    }
  }
}
