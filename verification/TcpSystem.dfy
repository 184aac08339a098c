/**
 Sender, receiver and network as one step system, and what holds in every
 state of every run.
 */
module TcpSystem {
  import opened Seq32
  import opened TcpReceivers
  import opened TcpSenders
  import opened TcpTransfer

  /** A message with the stream offset it is about; deliveries look at the message alone. */
  datatype DataMsg = DataMsg(seg: Segment, off: int)
  datatype AckMsg = AckMsg(ack: Ack, off: int)

  datatype Sys = Sys(
    st: Stream, snd: SndState, rcv: RcvState, read: seq<byte>,
    data: set<DataMsg>, acks: set<AckMsg>,   // everything ever sent
    una: nat, rnxt: nat, offs: seq<nat>,     // true offsets of sndUna, rcvNxt and the queue
    arrived: set<int>                        // offsets of all data messages delivered
  )

  datatype Step =
    | Write(buf: seq<byte>)
    | Retransmit
    | SendProbe
    | DeliverData(msg: DataMsg)
    | DeliverAck(ackMsg: AckMsg, cwnd: nat)
    | Read(count: nat)

  ghost predicate Init(s: Sys) {
    && var w := Wrap(s.st.isn);
    && s.st.written == [] && s.st.segs == map[]
    && s.snd.sndUna == w && s.snd.sndNxt == w && s.snd.sndWnd <= DEFAULT_WINDOW && s.snd.sendBuf == []
    && s.rcv == RcvState(w, DEFAULT_WINDOW, [], [])
    && s.read == [] && s.data == {} && s.acks == {AckMsg(Ack(w, DEFAULT_WINDOW), 0)}
    && s.una == 0 && s.rnxt == 0 && s.offs == [] && s.arrived == {}
  }

  /**
   Segments and acknowledgements older than half the number space never arrive.
   A write is at most one segment and waits for the window.
   */
  ghost predicate Enabled(s: Sys, step: Step) {
    match step
    case Write(buf) => 1 <= |buf| <= MSS && WindowTest(s.snd)
    case Retransmit => s.snd.sendBuf != []
    case SendProbe => true
    case DeliverData(m) => m in s.data && s.rnxt - (m.off + |m.seg.data|) < 0x8000_0000
    case DeliverAck(a, _) => a in s.acks && |s.st.written| - a.off < 0x8000_0000
    case Read(n) => 1 <= n <= |s.rcv.ring|
  }

  ghost function LastOf(offs: seq<nat>, n: nat): seq<nat> {
    if n <= |offs| then offs[|offs| - n..] else offs
  }

  ghost function AfterWrite(s: Sys, buf: seq<byte>): Sys {
    var seg := ChunkSent(s.snd, buf, 0);
    s.(st := Extended(s.st, seg.data), snd := AfterChunk(s.snd, buf, 0),
       data := s.data + {DataMsg(seg, |s.st.written|)})
  }

  /** What the receiver sends on an arrival: the last acknowledgement is for where it then is, others for before. */
  ghost function Tagged(acks: seq<Ack>, before: int, after: int): set<AckMsg> {
    set i | 0 <= i < |acks| :: AckMsg(acks[i], if i == |acks| - 1 then after else before)
  }

  ghost function AfterData(s: Sys, m: DataMsg): Sys {
    var rcv' := Processed(s.rcv, m.seg);
    var rnxt' := s.rnxt + |rcv'.ring| - |s.rcv.ring|;
    var queue := QueueAfterAdd(s.offs, s.rnxt, m.off, |m.seg.data|);
    s.(rcv := rcv', rnxt := if rnxt' < 0 then 0 else rnxt', offs := LastOf(queue, |rcv'.ofo|),
       acks := s.acks + Tagged(AcksFor(s.rcv, m.seg), s.rnxt, rnxt'),
       arrived := s.arrived + {m.off})
  }

  ghost function AfterAckMsg(s: Sys, a: AckMsg, cwnd: nat): Sys {
    s.(snd := AfterAck(s.snd, a.ack, cwnd), una := if s.una <= a.off then a.off else s.una)
  }

  ghost function Apply(s: Sys, step: Step): Sys
    requires Enabled(s, step)
  {
    match step
    case Write(buf) => AfterWrite(s, buf)
    case Retransmit => s.(data := s.data + {DataMsg(s.snd.sendBuf[0], s.una)})
    case SendProbe => s.(data := s.data + {DataMsg(Probe(s.snd), s.una - 1)})
    case DeliverData(m) => AfterData(s, m)
    case DeliverAck(a, cwnd) => AfterAckMsg(s, a, cwnd)
    case Read(n) => s.(rcv := AfterRead(s.rcv, n), read := s.read + s.rcv.ring[..n])
  }

  // ---------- the invariant ----------

  /** The receiver's right edge: what it expects next plus the window it advertises. */
  ghost function Edge(s: Sys): int {
    s.rnxt + s.rcv.rcvWnd
  }

  ghost predicate Advertised(s: Sys, end: int) {
    exists a :: a in s.acks && end <= a.off + a.ack.rwnd
  }

  ghost predicate GenuineAck(s: Sys, a: AckMsg) {
    && 0 <= a.off <= s.rnxt && s.st.Boundary(a.off)
    && a.ack.ackNo == Wrap(s.st.isn + a.off)
    && a.off + a.ack.rwnd <= Edge(s)
  }

  ghost predicate GenuineData(s: Sys, m: DataMsg) {
    || s.st.HasSegment(m.off, m.seg)
    || (m.off + 1 <= s.una && m.off >= -1 && m.seg.seqNo == Wrap(s.st.isn + m.off) && |m.seg.data| == 1)
  }

  /** The sender's window is one advertised for the very number it has seen acknowledged. */
  ghost predicate Flow(s: Sys) {
    && Advertised(s, |s.st.written|)
    && exists a :: a in s.acks && a.off == s.una && s.snd.sndWnd <= a.ack.rwnd
  }

  ghost predicate Arrivals(s: Sys) {
    && (forall x :: x in s.arrived ==> x < |s.st.written|)
    && forall o :: o in s.st.segs ==> (o in s.arrived <==> o < s.rnxt || o in s.offs)
  }

  ghost predicate Messages(s: Sys) {
    && Flow(s)
    && (forall a :: a in s.acks ==> GenuineAck(s, a))
    && (forall m :: m in s.data ==> GenuineData(s, m))
  }

  ghost predicate Ends(s: Sys) {
    && s.st.Valid()
    && Sends(s.st, s.snd, s.una)
    && Receives(s.st, s.rcv, s.offs, s.rnxt, s.read)
    && s.una <= s.rnxt
    && |s.st.written| <= Edge(s)
    && (s.offs != [] ==> s.rnxt < s.offs[0])
  }

  ghost predicate Inv(s: Sys) {
    Ends(s) && Messages(s) && Arrivals(s)
  }

  lemma InitInv(s: Sys)
    requires Init(s)
    ensures Inv(s)
  {
    var a := AckMsg(Ack(Wrap(s.st.isn), DEFAULT_WINDOW), 0);
    assert a in s.acks && a.off == s.una;
    assert s.read + s.rcv.ring == s.st.written[..s.rnxt];
  }

  ghost predicate SegmentsKept(st: Stream, st': Stream) {
    && st'.isn == st.isn
    && (forall o, e :: st.HasSegment(o, e) ==> st'.HasSegment(o, e))
    && (forall x :: st.Boundary(x) ==> st'.Boundary(x))
  }

  /** What no step undoes: both ends only advance, and so does the receiver's right edge. */
  ghost predicate Grows(s: Sys, s': Sys) {
    s.una <= s'.una && s.rnxt <= s'.rnxt && Edge(s) <= Edge(s') && s.acks <= s'.acks
  }

  lemma MessagesGrow(s: Sys, s': Sys)
    requires Messages(s) && Grows(s, s')
    requires s'.st == s.st || SegmentsKept(s.st, s'.st)
    ensures forall a :: a in s.acks ==> GenuineAck(s', a)
    ensures forall m :: m in s.data ==> GenuineData(s', m)
    ensures Advertised(s', |s.st.written|)
  {
    forall a | a in s.acks ensures GenuineAck(s', a) {
      assert GenuineAck(s, a);
    }
    forall m | m in s.data ensures GenuineData(s', m) {
      assert GenuineData(s, m);
    }
  }

  // ---------- every step keeps it ----------

  lemma RoomToWrite(s: Sys, buf: seq<byte>)
    requires Ends(s) && Messages(s) && Enabled(s, Write(buf))
    ensures ChunkSent(s.snd, buf, 0) == Segment(Wrap(s.st.isn + |s.st.written|), buf)
    ensures |s.st.written| + |buf| <= s.una + DEFAULT_WINDOW
    ensures |s.st.written| + |buf| <= Edge(s)
    ensures Advertised(s, |s.st.written| + |buf|)
  {
    WindowTestMeans(s.st, s.snd, s.una);
    var a :| a in s.acks && a.off == s.una && s.snd.sndWnd <= a.ack.rwnd;
    assert GenuineAck(s, a);
    assert buf[0..|buf|] == buf;
  }

  lemma WriteKeepsEnds(s: Sys, buf: seq<byte>)
    requires Ends(s) && Messages(s) && Enabled(s, Write(buf))
    ensures AfterWrite(s, buf).st == Extended(s.st, buf)
    ensures Ends(AfterWrite(s, buf))
  {
    RoomToWrite(s, buf);
    ExtendKeepsTiling(s.st, buf);
    SendsExtends(s.st, s.snd, s.una, buf);
    ReceivesExtends(s.st, s.rcv, s.offs, s.rnxt, s.read, buf);
  }

  lemma ExtendSegmentsKept(st: Stream, chunk: seq<byte>)
    requires st.Valid() && chunk != []
    ensures SegmentsKept(st, Extended(st, chunk))
  {
    ExtendKeepsSegments(st, chunk);
  }

  lemma WriteKeepsMessages(s: Sys, buf: seq<byte>)
    requires Messages(s) && SegmentsKept(s.st, Extended(s.st, buf))
    requires AfterWrite(s, buf).st == Extended(s.st, buf)
    requires Advertised(s, |s.st.written| + |buf|)
    requires GenuineData(AfterWrite(s, buf), DataMsg(ChunkSent(s.snd, buf, 0), |s.st.written|))
    ensures Messages(AfterWrite(s, buf))
  {
    var s' := AfterWrite(s, buf);
    MessagesGrow(s, s');
    assert s'.acks == s.acks && s'.una == s.una && s'.snd.sndWnd == s.snd.sndWnd;
    assert |s'.st.written| == |s.st.written| + |buf|;
    assert Advertised(s', |s'.st.written|);
  }

  lemma WriteKeepsArrivals(s: Sys, buf: seq<byte>)
    requires Ends(s) && Arrivals(s) && Enabled(s, Write(buf)) && AfterWrite(s, buf).st == Extended(s.st, buf)
    ensures Arrivals(AfterWrite(s, buf))
  {
    forall i | 0 <= i < |s.offs| ensures s.offs[i] < |s.st.written| {
      assert s.st.HasSegment(s.offs[i], s.rcv.ofo[i]);
    }
  }

  lemma SendKeepsMessages(s: Sys, step: Step)
    requires Messages(s) && Sends(s.st, s.snd, s.una)
    requires Enabled(s, step) && (step.Retransmit? || step.SendProbe?)
    ensures Messages(Apply(s, step))
  {
    var s' := Apply(s, step);
    MessagesGrow(s, s');
    assert s'.acks == s.acks;
    WrapAdd(s.st.isn + s.una, -1);
  }

  lemma AckKeepsEnds(s: Sys, a: AckMsg, cwnd: nat)
    requires Ends(s) && GenuineAck(s, a) && |s.st.written| - a.off < 0x8000_0000
    ensures Ends(AfterAckMsg(s, a, cwnd))
    ensures s.una <= a.off ==> AfterAckMsg(s, a, cwnd).snd.sndWnd <= a.ack.rwnd
    ensures a.off < s.una ==> AfterAckMsg(s, a, cwnd).snd.sndWnd == s.snd.sndWnd
  {
    AckKeepsSends(s.st, s.snd, s.una, a.ack, a.off, cwnd);
  }

  lemma AckKeepsMessages(s: Sys, a: AckMsg, cwnd: nat)
    requires Messages(s) && a in s.acks
    requires var wnd := AfterAckMsg(s, a, cwnd).snd.sndWnd;
      if s.una <= a.off then wnd <= a.ack.rwnd else wnd == s.snd.sndWnd
    ensures Messages(AfterAckMsg(s, a, cwnd))
  {
    var s' := AfterAckMsg(s, a, cwnd);
    MessagesGrow(s, s');
    assert s'.acks == s.acks;
  }

  lemma ReadKeepsEnds(s: Sys, n: nat)
    requires Ends(s) && Enabled(s, Read(n))
    ensures Ends(Apply(s, Read(n))) && Edge(Apply(s, Read(n))) == Edge(s) + n
  {
    ReadKeepsReceives(s.st, s.rcv, s.offs, s.rnxt, s.read, n);
  }

  lemma ReadKeepsMessages(s: Sys, n: nat)
    requires Messages(s) && Enabled(s, Read(n))
    requires Edge(Apply(s, Read(n))) == Edge(s) + n
    ensures Messages(Apply(s, Read(n)))
  {
    var s' := Apply(s, Read(n));
    MessagesGrow(s, s');
    assert s'.acks == s.acks;
  }

  lemma DataKeepsEnds(s: Sys, m: DataMsg)
    requires Ends(s) && GenuineData(s, m) && s.rnxt - (m.off + |m.seg.data|) < 0x8000_0000
    ensures var s' := AfterData(s, m);
      && Ends(s')
      && s.rnxt <= s'.rnxt == s.rnxt + |s'.rcv.ring| - |s.rcv.ring| && Edge(s') == Edge(s)
      && !StopsFull(Added(s.rcv, m.seg))
      && (forall x :: x in s.st.segs ==>
          (x < s'.rnxt || x in s'.offs <==> x < s.rnxt || x in s.offs || x == m.off))
  {
    assert |s.read| + |s.rcv.ring| == s.rnxt;
    var offs', rnxt' := ProcessArrival(s.st, s.rcv, s.offs, s.rnxt, s.read, m.off, m.seg);
    var s' := AfterData(s, m);
    assert s'.offs == offs' && s'.rnxt == rnxt';
  }

  ghost function CurrentAckMsg(s: Sys): AckMsg {
    AckMsg(CurrentAck(s.rcv), s.rnxt)
  }

  lemma CurrentAckGenuine(s: Sys)
    requires Receives(s.st, s.rcv, s.offs, s.rnxt, s.read)
    ensures GenuineAck(s, CurrentAckMsg(s))
  {
  }

  /** Every arrival is answered with the receiver's position and window after it. */
  lemma ArrivalAnswered(s: Sys, m: DataMsg)
    requires s.rnxt + |AfterData(s, m).rcv.ring| - |s.rcv.ring| >= 0
    ensures var s' := AfterData(s, m);
      && CurrentAckMsg(s') in s'.acks && s.acks <= s'.acks
      && forall b :: b in s'.acks ==> b in s.acks || b == CurrentAckMsg(s) || b == CurrentAckMsg(s')
  {
    var s', acks := AfterData(s, m), AcksFor(s.rcv, m.seg);
    assert acks[|acks| - 1] == CurrentAck(s'.rcv);
    assert |acks| == 2 ==> acks[0] == CurrentAck(s.rcv);
    assert CurrentAckMsg(s') in Tagged(acks, s.rnxt, s'.rnxt);
  }

  lemma DataKeepsMessages(s: Sys, m: DataMsg)
    requires Messages(s) && GenuineAck(s, CurrentAckMsg(s))
    requires var s' := AfterData(s, m);
      GenuineAck(s', CurrentAckMsg(s')) && s.rnxt <= s'.rnxt && Edge(s') == Edge(s)
      && s'.rnxt == s.rnxt + |s'.rcv.ring| - |s.rcv.ring|
    ensures Messages(AfterData(s, m))
  {
    var s' := AfterData(s, m);
    ArrivalAnswered(s, m);
    MessagesGrow(s, s');
    assert GenuineAck(s', CurrentAckMsg(s));
    var a :| a in s.acks && a.off == s.una && s.snd.sndWnd <= a.ack.rwnd;
    assert a in s'.acks;
    forall b | b in s'.acks ensures GenuineAck(s', b) {
      assert b in s.acks || b == CurrentAckMsg(s) || b == CurrentAckMsg(s');
    }
  }

  lemma DataKeepsArrivals(s: Sys, m: DataMsg)
    requires Arrivals(s) && GenuineData(s, m) && s.st.Valid() && s.una <= |s.st.written|
    requires var s' := AfterData(s, m); forall x :: x in s.st.segs ==>
      (x < s'.rnxt || x in s'.offs <==> x < s.rnxt || x in s.offs || x == m.off)
    ensures Arrivals(AfterData(s, m))
  {
    var s' := AfterData(s, m);
    forall o | o in s'.st.segs ensures o in s'.arrived <==> o < s'.rnxt || o in s'.offs {
      assert o in s.arrived <==> o < s.rnxt || o in s.offs;
    }
  }

  lemma WrittenIsGenuine(s: Sys, buf: seq<byte>)
    requires s.st.Valid() && buf != [] && AfterWrite(s, buf).st == Extended(s.st, buf)
    requires ChunkSent(s.snd, buf, 0) == Segment(Wrap(s.st.isn + |s.st.written|), buf)
    ensures GenuineData(AfterWrite(s, buf), DataMsg(ChunkSent(s.snd, buf, 0), |s.st.written|))
  {
    ExtendKeepsSegments(s.st, buf);
  }

  lemma WriteKeepsInv(s: Sys, buf: seq<byte>)
    requires Inv(s) && Enabled(s, Write(buf))
    ensures Inv(AfterWrite(s, buf))
  {
    WriteKeepsEnds(s, buf);
    RoomToWrite(s, buf);
    ExtendSegmentsKept(s.st, buf);
    WrittenIsGenuine(s, buf);
    WriteKeepsMessages(s, buf);
    WriteKeepsArrivals(s, buf);
  }

  lemma DataKeepsInv(s: Sys, m: DataMsg)
    requires Inv(s) && Enabled(s, DeliverData(m))
    ensures Inv(AfterData(s, m)) && Grows(s, AfterData(s, m))
    ensures !StopsFull(Added(s.rcv, m.seg))
  {
    assert GenuineData(s, m);
    DataKeepsEnds(s, m);
    CurrentAckGenuine(s);
    CurrentAckGenuine(AfterData(s, m));
    DataKeepsMessages(s, m);
    DataKeepsArrivals(s, m);
  }

  lemma AckKeepsInv(s: Sys, a: AckMsg, cwnd: nat)
    requires Inv(s) && Enabled(s, DeliverAck(a, cwnd))
    ensures Inv(AfterAckMsg(s, a, cwnd))
  {
    assert GenuineAck(s, a);
    AckKeepsEnds(s, a, cwnd);
    AckKeepsMessages(s, a, cwnd);
  }

  /** The invariant holds after every step; no step finds the ring full, and the edge never moves back. */
  lemma StepKeepsInv(s: Sys, step: Step)
    requires Inv(s) && Enabled(s, step)
    ensures Inv(Apply(s, step))
    ensures Grows(s, Apply(s, step))
    ensures step.DeliverData? ==> !StopsFull(Added(s.rcv, step.msg.seg))
  {
    match step
    case Write(buf) =>
      WriteKeepsInv(s, buf);
    case Retransmit =>
      SendKeepsMessages(s, step);
    case SendProbe =>
      SendKeepsMessages(s, step);
    case DeliverData(m) =>
      DataKeepsInv(s, m);
    case DeliverAck(a, cwnd) =>
      AckKeepsInv(s, a, cwnd);
    case Read(n) =>
      ReadKeepsEnds(s, n);
      ReadKeepsMessages(s, n);
  }
}
