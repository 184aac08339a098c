/** What every run of the transfer system guarantees, from the two applications' point of view. */
module TcpGuarantees {
  import opened Seq32
  import opened TcpReceivers
  import opened TcpSenders
  import opened TcpTransfer
  import opened TcpSystem

  ghost predicate Run(s: Sys, steps: seq<Step>, s': Sys)
    decreases |steps|
  {
    if steps == [] then s' == s
    else Enabled(s, steps[0]) && Run(Apply(s, steps[0]), steps[1..], s')
  }

  lemma {:induction false} RunKeepsInv(s: Sys, steps: seq<Step>, s': Sys)
    requires Inv(s) && Run(s, steps, s')
    ensures Inv(s') && Grows(s, s')
    decreases |steps|
  {
    if steps != [] {
      StepKeepsInv(s, steps[0]);
      RunKeepsInv(Apply(s, steps[0]), steps[1..], s');
    }
  }

  ghost predicate Reachable(s: Sys) {
    exists s0, steps :: Init(s0) && Run(s0, steps, s)
  }

  lemma ReachableInv(s: Sys)
    requires Reachable(s)
    ensures Inv(s)
  {
    var s0, steps :| Init(s0) && Run(s0, steps, s);
    InitInv(s0);
    RunKeepsInv(s0, steps, s);
  }

  // ---------- end to end ----------

  /** Byte k of the stream is in some kept segment, under its right number. */
  ghost predicate Resendable(st: Stream, sendBuf: seq<Segment>, k: int) {
    exists i, p :: 0 <= i < |sendBuf| && st.HasSegment(p, sendBuf[i]) && p <= k < p + |sendBuf[i].data|
  }

  lemma {:induction false} KeptCovers(st: Stream, sendBuf: seq<Segment>, o: nat, k: nat)
    requires Kept(st, sendBuf, o) && o <= k < |st.written|
    ensures Resendable(st, sendBuf, k)
    decreases |sendBuf|
  {
    assert st.HasSegment(o, sendBuf[0]);
    if o + st.segs[o] <= k {
      KeptCovers(st, sendBuf[1..], o + st.segs[o], k);
      var i, p :| 0 <= i < |sendBuf[1..]| && st.HasSegment(p, sendBuf[1..][i]) && p <= k < p + |sendBuf[1..][i].data|;
      assert sendBuf[i + 1] == sendBuf[1..][i];
    }
  }

  /**
   Whatever the network does: the bytes read are a prefix of the bytes written, both ends
   agree on their order in the stream, and every byte the receiver has not yet put in its
   ring is still kept, with its right number, for retransmission.
   */
  lemma EndToEnd(s: Sys)
    requires Reachable(s)
    ensures s.una <= s.rnxt <= |s.st.written|
    ensures s.read + s.rcv.ring == s.st.written[..s.rnxt]
    ensures s.read <= s.st.written
    ensures s.snd.sndUna == Wrap(s.st.isn + s.una)
    ensures s.rcv.rcvNxt == Wrap(s.st.isn + s.rnxt)
    ensures s.snd.sndNxt == Wrap(s.st.isn + |s.st.written|)
    ensures forall k :: s.rnxt <= k < |s.st.written| ==> Resendable(s.st, s.snd.sendBuf, k)
  {
    ReachableInv(s);
    PrefixOfPrefix(s.read, s.rcv.ring, s.st.written, s.rnxt);
    forall k | s.rnxt <= k < |s.st.written| ensures Resendable(s.st, s.snd.sendBuf, k) {
      KeptCovers(s.st, s.snd.sendBuf, s.una, k);
    }
  }

  lemma PrefixOfPrefix(a: seq<byte>, b: seq<byte>, c: seq<byte>, n: nat)
    requires n <= |c| && a + b == c[..n]
    ensures a <= c
  {
    assert a == (a + b)[..|a|];
  }

  /**
   The advertised window is the ring's free space, every segment on the wire ends inside an
   edge once advertised, and no arrival ever finds the ring full.
   */
  lemma FlowControl(s: Sys)
    requires Reachable(s)
    ensures s.rcv.rcvWnd == DEFAULT_WINDOW - |s.rcv.ring|
    ensures Edge(s) == |s.read| + DEFAULT_WINDOW
    ensures forall m :: m in s.data ==> Advertised(s, m.off + |m.seg.data|)
    ensures forall a :: a in s.acks ==> a.off + a.ack.rwnd <= Edge(s)
    ensures forall m :: Enabled(s, DeliverData(m)) ==> !StopsFull(Added(s.rcv, m.seg))
  {
    ReachableInv(s);
    assert |s.read + s.rcv.ring| == s.rnxt;
    forall m | m in s.data ensures Advertised(s, m.off + |m.seg.data|) {
      assert GenuineData(s, m);
      assert Advertised(s, |s.st.written|);
    }
    forall a | a in s.acks ensures a.off + a.ack.rwnd <= Edge(s) {
      assert GenuineAck(s, a);
    }
    forall m | Enabled(s, DeliverData(m)) ensures !StopsFull(Added(s.rcv, m.seg)) {
      StepKeepsInv(s, DeliverData(m));
    }
  }

  /** Along any run the receiver's right edge never moves back. */
  lemma EdgeNeverShrinks(s: Sys, steps: seq<Step>, s': Sys)
    requires Reachable(s) && Run(s, steps, s')
    ensures Edge(s) <= Edge(s') && s.rnxt <= s'.rnxt && s.una <= s'.una
  {
    ReachableInv(s);
    RunKeepsInv(s, steps, s');
  }

  ghost predicate InQueue(st: Stream, ofo: seq<Segment>, o: nat) {
    exists i :: 0 <= i < |ofo| && st.HasSegment(o, ofo[i])
  }

  ghost predicate StrictlySorted(ofo: seq<Segment>) {
    forall i, j :: 0 <= i < j < |ofo| ==> LessThan32(ofo[i].seqNo, ofo[j].seqNo)
  }

  lemma QueuedIsSorted(st: Stream, ofo: seq<Segment>, offs: seq<nat>, from: nat)
    requires Queued(st, ofo, offs, from) && |st.written| - from < 0x8000_0000
    ensures StrictlySorted(ofo)
  {
    forall i, j | 0 <= i < j < |ofo| ensures LessThan32(ofo[i].seqNo, ofo[j].seqNo) {
      assert st.HasSegment(offs[i], ofo[i]) && st.HasSegment(offs[j], ofo[j]);
      CompareNear(st.isn + offs[i], st.isn + offs[j]);
    }
  }

  lemma QueuedIsInQueue(st: Stream, ofo: seq<Segment>, offs: seq<nat>, from: nat, o: nat)
    requires Queued(st, ofo, offs, from) && o in offs
    ensures from <= o && InQueue(st, ofo, o)
  {
    var i :| 0 <= i < |offs| && offs[i] == o;
    assert st.HasSegment(offs[i], ofo[i]);
  }

  /**
   The out-of-order list is strictly sorted by wrapped number, and the number expected next
   is that of the first byte never received.
   */
  lemma ReassemblyIsMaximal(s: Sys)
    requires Reachable(s)
    ensures StrictlySorted(s.rcv.ofo)
    ensures forall o :: o in s.st.segs && o < s.rnxt ==> o in s.arrived
    ensures s.rnxt < |s.st.written| ==> s.rnxt in s.st.segs && s.rnxt !in s.arrived
    ensures forall o :: o in s.st.segs && s.rnxt < o && o in s.arrived ==> InQueue(s.st, s.rcv.ofo, o)
  {
    ReachableInv(s);
    QueuedIsSorted(s.st, s.rcv.ofo, s.offs, s.rnxt);
    assert s.rnxt !in s.offs;
    forall o | o in s.st.segs && s.rnxt < o && o in s.arrived ensures InQueue(s.st, s.rcv.ofo, o) {
      QueuedIsInQueue(s.st, s.rcv.ofo, s.offs, s.rnxt, o);
    }
  }

  // ---------- nothing is ever lost for good ----------

  lemma RunCons(s: Sys, step: Step, more: seq<Step>, s': Sys)
    requires Enabled(s, step) && Run(Apply(s, step), more, s')
    ensures Run(s, [step] + more, s')
  {
    assert ([step] + more)[1..] == more;
  }

  lemma {:induction false} RunAppend(s: Sys, steps: seq<Step>, t: Sys, more: seq<Step>, u: Sys)
    requires Run(s, steps, t) && Run(t, more, u)
    ensures Run(s, steps + more, u)
    decreases |steps|
  {
    if steps == [] {
      assert steps + more == more;
    } else {
      RunAppend(Apply(s, steps[0]), steps[1..], t, more, u);
      RunCons(s, steps[0], steps[1..] + more, u);
      assert [steps[0]] + (steps[1..] + more) == steps + more;
    }
  }

  /** The oldest kept segment, once delivered, carries rnxt past it. */
  lemma OldestArrives(s: Sys)
    requires Inv(s) && s.una in s.st.segs && s.una in s.arrived
    ensures s.una < s.rnxt
  {
    assert forall i :: 0 <= i < |s.offs| ==> s.rnxt < s.offs[i];
  }

  lemma AnswerSent(s: Sys, m: DataMsg)
    requires Inv(s) && Enabled(s, DeliverData(m))
    ensures CurrentAckMsg(AfterData(s, m)) in AfterData(s, m).acks
  {
    assert GenuineData(s, m);
    DataKeepsEnds(s, m);
    ArrivalAnswered(s, m);
  }

  /** Retransmitting and delivering the oldest kept segment makes the receiver acknowledge beyond it. */
  lemma OldestDelivered(s: Sys) returns (steps: seq<Step>, s': Sys)
    requires Inv(s) && s.una < |s.st.written|
    ensures Run(s, steps, s') && Inv(s')
    ensures s'.st == s.st && s'.read == s.read && s'.una == s.una < s'.rnxt
    ensures CurrentAckMsg(s') in s'.acks
  {
    assert s.snd.sendBuf != [] && s.st.HasSegment(s.una, s.snd.sendBuf[0]);
    StepKeepsInv(s, Retransmit);
    var s1 := Apply(s, Retransmit);
    var m := DataMsg(s.snd.sendBuf[0], s.una);
    assert m in s1.data;
    StepKeepsInv(s1, DeliverData(m));
    s' := AfterData(s1, m);
    AnswerSent(s1, m);
    OldestArrives(s');
    steps := [Retransmit] + ([DeliverData(m)] + []);
    RunCons(s1, DeliverData(m), [], s');
    RunCons(s, Retransmit, [DeliverData(m)] + [], s');
  }

  /** One retransmission, its delivery and the acknowledgement: the sender has advanced. */
  lemma ResendOldest(s: Sys) returns (steps: seq<Step>, s': Sys)
    requires Inv(s) && s.una < |s.st.written|
    ensures Run(s, steps, s') && Inv(s')
    ensures s'.st == s.st && s'.read == s.read && s.una < s'.una
  {
    var first, t := OldestDelivered(s);
    var a := CurrentAckMsg(t);
    StepKeepsInv(t, DeliverAck(a, 0));
    s' := AfterAckMsg(t, a, 0);
    RunCons(t, DeliverAck(a, 0), [], s');
    RunAppend(s, first, t, [DeliverAck(a, 0)] + [], s');
    steps := first + ([DeliverAck(a, 0)] + []);
  }

  lemma {:induction false} ResendAll(s: Sys) returns (steps: seq<Step>, s': Sys)
    requires Inv(s)
    ensures Run(s, steps, s') && Inv(s')
    ensures s'.st == s.st && s'.read == s.read && s'.una == |s.st.written|
    decreases |s.st.written| - s.una
  {
    if s.una == |s.st.written| {
      steps, s' := [], s;
    } else {
      var first, mid := ResendOldest(s);
      var rest, last := ResendAll(mid);
      RunAppend(s, first, mid, rest, last);
      steps, s' := first + rest, last;
    }
  }

  /**
   However much was lost so far, the run can be continued, without writing again, until the
   reader has read exactly what was written and the sender keeps nothing.
   */
  lemma DeliveryStaysPossible(s: Sys) returns (steps: seq<Step>, s': Sys)
    requires Reachable(s)
    ensures Run(s, steps, s')
    ensures s'.st == s.st && s'.read == s.st.written
    ensures s'.snd.sendBuf == []
  {
    ReachableInv(s);
    var first, t := ResendAll(s);
    assert t.rnxt == |t.st.written| && t.st.written[..t.rnxt] == t.st.written;
    AllAcked(t);
    if t.rcv.ring == [] {
      steps, s' := first, t;
      assert t.read + t.rcv.ring == t.read;
    } else {
      var n := |t.rcv.ring|;
      s' := Apply(t, Read(n));
      assert t.rcv.ring[..n] == t.rcv.ring;
      assert Run(t, [Read(n)], s');
      RunAppend(s, first, t, [Read(n)], s');
      steps := first + [Read(n)];
    }
  }

  lemma AllAcked(s: Sys)
    requires Inv(s) && s.una == |s.st.written|
    ensures s.snd.sendBuf == []
  {
    assert |s.st.written| !in s.st.segs;
  }

  // ---------- the window opens again ----------

  /** Everything written has been read and acknowledged. */
  ghost predicate Finished(s: Sys) {
    s.una == |s.st.written| && s.rcv.ring == [] && s.read == s.st.written
  }

  lemma FinishedWhenRead(s: Sys)
    requires Inv(s) && s.read == s.st.written && s.snd.sendBuf == []
    ensures Finished(s)
  {
    assert |s.read + s.rcv.ring| == s.rnxt;
  }

  /** The receiver answers a probe with the window it has by now. */
  lemma ProbeAnswered(s: Sys) returns (steps: seq<Step>, s': Sys)
    requires Inv(s) && Finished(s)
    ensures Run(s, steps, s') && Inv(s') && Finished(s') && s'.st == s.st
    ensures CurrentAckMsg(s') in s'.acks && CurrentAckMsg(s').ack.rwnd == DEFAULT_WINDOW
  {
    var m := DataMsg(Probe(s.snd), s.una - 1);
    StepKeepsInv(s, SendProbe);
    var s1 := Apply(s, SendProbe);
    assert m in s1.data;
    StepKeepsInv(s1, DeliverData(m));
    s' := AfterData(s1, m);
    AnswerSent(s1, m);
    assert |s'.read + s'.rcv.ring| == s'.rnxt;
    RunCons(s1, DeliverData(m), [], s');
    RunCons(s, SendProbe, [DeliverData(m)] + [], s');
    steps := [SendProbe] + ([DeliverData(m)] + []);
  }

  lemma AnswerOpens(s: Sys, cwnd: nat) returns (s': Sys)
    requires Inv(s) && Finished(s) && CurrentAckMsg(s) in s.acks && MSS <= cwnd
    requires CurrentAckMsg(s).ack.rwnd == DEFAULT_WINDOW
    ensures Run(s, [DeliverAck(CurrentAckMsg(s), cwnd)], s')
    ensures s'.st == s.st && WindowTest(s'.snd)
  {
    var a := CurrentAckMsg(s);
    s' := AfterAckMsg(s, a, cwnd);
    assert GenuineAck(s, a);
    AckKeepsSends(s.st, s.snd, s.una, a.ack, a.off, cwnd);
    WindowTestMeans(s'.st, s'.snd, s'.una);
    RunCons(s, DeliverAck(a, cwnd), [], s');
    assert [DeliverAck(a, cwnd)] + [] == [DeliverAck(a, cwnd)];
  }

  /**
   Reading sends no acknowledgement, so a window once closed opens only by a probe and its
   answer. From every reachable state, with nothing written meanwhile, the run can be
   continued until a write would be let through, whatever congestion window of a segment
   or more applies.
   */
  lemma WritingStaysPossible(s: Sys, cwnd: nat) returns (steps: seq<Step>, s': Sys)
    requires Reachable(s) && MSS <= cwnd
    ensures Run(s, steps, s') && s'.st == s.st
    ensures WindowTest(s'.snd)
  {
    ReachableInv(s);
    var first, t := DeliveryStaysPossible(s);
    RunKeepsInv(s, first, t);
    FinishedWhenRead(t);
    var probe, u := ProbeAnswered(t);
    s' := AnswerOpens(u, cwnd);
    RunAppend(t, probe, u, [DeliverAck(CurrentAckMsg(u), cwnd)], s');
    RunAppend(s, first, t, probe + [DeliverAck(CurrentAckMsg(u), cwnd)], s');
    steps := first + (probe + [DeliverAck(CurrentAckMsg(u), cwnd)]);
  }
}
