/**
 One-way data transfer between the two halves over a network that loses,
 duplicates and reorders. Every message ever sent may be delivered any number
 of times, or never. Messages and the two ends are also tagged with true stream
 offsets; the steps decide on 32-bit numbers only, the tags are history.
 */
module TcpTransfer {
  import opened Seq32
  import opened TcpReceivers
  import opened TcpSenders

  /** The written bytes, their first sequence number, and where each segment starts (with its length). */
  datatype Stream = Stream(isn: u32, written: seq<byte>, segs: map<nat, nat>) {
    ghost predicate Boundary(x: int) {
      x == |written| || (0 <= x && x in segs)
    }

    ghost predicate Covered(k: nat) {
      exists o :: o in segs && o <= k < o + segs[o]
    }

    /** The segments tile the written bytes. */
    ghost predicate Valid() {
      && (forall o :: o in segs ==> 1 <= segs[o] <= MSS && o + segs[o] <= |written|)
      && (forall a, b :: a in segs && b in segs && a < b ==> a + segs[a] <= b)
      && (forall k {:trigger Covered(k)} :: 0 <= k < |written| ==> Covered(k))
    }

    lemma EndIsBoundary(o: nat)
      requires Valid() && o in segs
      ensures Boundary(o + segs[o])
    {
      assert o + segs[o] < |written| ==> Covered(o + segs[o]);
    }

    ghost function SegmentAt(o: nat): Segment
      requires o in segs && o + segs[o] <= |written|
    {
      Segment(Wrap(isn + o), written[o..o + segs[o]])
    }

    ghost predicate HasSegment(o: int, e: Segment) {
      0 <= o && o in segs && o + segs[o] <= |written| && e == SegmentAt(o)
    }
  }

  // ---------- the receiver against the stream ----------

  function InsertedOffset(offs: seq<nat>, o: nat): seq<nat> {
    if offs == [] then [o]
    else if o == offs[0] then offs
    else if o < offs[0] then [o] + offs
    else [offs[0]] + InsertedOffset(offs[1..], o)
  }

  lemma {:induction false} InsertedOffsetElements(offs: seq<nat>, o: nat)
    ensures forall x :: x in InsertedOffset(offs, o) <==> x in offs || x == o
  {
    if offs != [] && offs[0] < o {
      InsertedOffsetElements(offs[1..], o);
      assert offs == [offs[0]] + offs[1..];
    }
  }

  ghost predicate Queued(st: Stream, ofo: seq<Segment>, offs: seq<nat>, from: nat) {
    && |ofo| == |offs|
    && (forall i :: 0 <= i < |offs| ==> from <= offs[i] && st.HasSegment(offs[i], ofo[i]))
    && (forall i, j :: 0 <= i < j < |offs| ==> offs[i] < offs[j])
  }

  ghost predicate Receives(st: Stream, rcv: RcvState, offs: seq<nat>, rnxt: nat, read: seq<byte>) {
    && rcv.rcvNxt == Wrap(st.isn + rnxt)
    && st.Boundary(rnxt) && rnxt <= |st.written|
    && read + rcv.ring == st.written[..rnxt]
    && |rcv.ring| <= DEFAULT_WINDOW
    && rcv.rcvWnd == DEFAULT_WINDOW - |rcv.ring|
    && Queued(st, rcv.ofo, offs, rnxt)
  }

  lemma QueuedCons(st: Stream, e: Segment, o: nat, ofo: seq<Segment>, offs: seq<nat>, from: nat)
    requires st.HasSegment(o, e) && from <= o
    requires Queued(st, ofo, offs, o + 1)
    ensures Queued(st, [e] + ofo, [o] + offs, from)
  {
  }

  lemma QueuedTail(st: Stream, ofo: seq<Segment>, offs: seq<nat>, from: nat)
    requires Queued(st, ofo, offs, from) && offs != []
    ensures Queued(st, ofo[1..], offs[1..], offs[0] + 1)
  {
  }

  /** The scan compares with the head as the true offsets do. */
  lemma InsertDecides(st: Stream, ofo: seq<Segment>, offs: seq<nat>, from: nat, o: nat, e: Segment)
    requires st.HasSegment(o, e) && from <= o
    requires Queued(st, ofo, offs, from) && offs != []
    requires |st.written| - from < 0x8000_0000
    ensures e.seqNo == ofo[0].seqNo <==> o == offs[0]
    ensures LessThan32(e.seqNo, ofo[0].seqNo) <==> o < offs[0]
    ensures st.HasSegment(offs[0], ofo[0]) && from <= offs[0]
  {
    assert st.HasSegment(offs[0], ofo[0]);
    CompareNear(st.isn + o, st.isn + offs[0]);
  }

  lemma {:induction false} InsertKeepsOrder(st: Stream, ofo: seq<Segment>, offs: seq<nat>, from: nat,
                                            o: nat, e: Segment)
    requires st.HasSegment(o, e) && from <= o
    requires Queued(st, ofo, offs, from)
    requires |st.written| - from < 0x8000_0000
    ensures Queued(st, Inserted(ofo, e), InsertedOffset(offs, o), from)
    decreases |offs|
  {
    if offs == [] {
    } else {
      InsertDecides(st, ofo, offs, from, o, e);
      if o < offs[0] {
        QueuedCons(st, e, o, ofo, offs, from);
      } else if o > offs[0] {
        QueuedTail(st, ofo, offs, from);
        InsertKeepsOrder(st, ofo[1..], offs[1..], offs[0] + 1, o, e);
        QueuedCons(st, ofo[0], offs[0], Inserted(ofo[1..], e), InsertedOffset(offs[1..], o), from);
      }
    }
  }

  lemma HeadIsNext(st: Stream, rcv: RcvState, offs: seq<nat>, rnxt: nat, read: seq<byte>)
    requires Receives(st, rcv, offs, rnxt, read)
    requires |st.written| <= |read| + DEFAULT_WINDOW
    requires HeadInOrder(rcv)
    ensures offs != [] && offs[0] == rnxt && st.HasSegment(rnxt, rcv.ofo[0])
    ensures HeadFits(rcv)
  {
    assert st.HasSegment(offs[0], rcv.ofo[0]);
    assert |read| + |rcv.ring| == rnxt;
    CompareNear(st.isn + offs[0], st.isn + rnxt);
  }

  /** Segments after the one at `o` start no earlier than it ends. */
  lemma LaterSegments(st: Stream, ofo: seq<Segment>, offs: seq<nat>, o: nat)
    requires st.Valid() && o in st.segs
    requires Queued(st, ofo, offs, o + 1)
    ensures Queued(st, ofo, offs, o + st.segs[o])
  {
    forall i | 0 <= i < |offs| ensures o + st.segs[o] <= offs[i] && st.HasSegment(offs[i], ofo[i]) {
      assert st.HasSegment(offs[i], ofo[i]);
    }
  }

  /** Moving one in-order entry: it fits, and the receiver then waits for the end of it. */
  lemma MoveOne(st: Stream, rcv: RcvState, offs: seq<nat>, rnxt: nat, read: seq<byte>)
    requires Receives(st, rcv, offs, rnxt, read)
    requires HeadInOrder(rcv) && HeadFits(rcv)
    requires offs != [] && offs[0] == rnxt && st.HasSegment(rnxt, rcv.ofo[0])
    requires st.Boundary(rnxt + st.segs[rnxt])
    requires Queued(st, rcv.ofo[1..], offs[1..], rnxt + st.segs[rnxt])
    ensures Receives(st, MoveHead(rcv), offs[1..], rnxt + st.segs[rnxt], read)
  {
    var n := st.segs[rnxt];
    WrapAdd(st.isn + rnxt, n);
    assert read + MoveHead(rcv).ring == (read + rcv.ring) + rcv.ofo[0].data == st.written[..rnxt + n];
  }

  /** The queue that is left is a suffix of the old one, and what left it is what lies before the new rnxt. */
  ghost predicate Drained(st: Stream, offs: seq<nat>, rnxt: nat, offs': seq<nat>, rnxt': nat) {
    && |offs'| <= |offs| && offs' == offs[|offs| - |offs'|..]
    && (offs' != [] ==> rnxt' < offs'[0])
    && (forall x :: x in offs <==> x in offs' || (x in st.segs && rnxt <= x < rnxt'))
  }

  lemma DrainedStep(st: Stream, offs: seq<nat>, rnxt: nat, offs': seq<nat>, rnxt': nat)
    requires st.Valid() && rnxt in st.segs
    requires offs != [] && offs[0] == rnxt && rnxt + st.segs[rnxt] <= rnxt'
    requires Drained(st, offs[1..], rnxt + st.segs[rnxt], offs', rnxt')
    ensures Drained(st, offs, rnxt, offs', rnxt')
  {
    assert offs == [rnxt] + offs[1..];
    assert offs[1..][|offs| - 1 - |offs'|..] == offs[|offs| - |offs'|..];
    assert forall x :: x in st.segs && rnxt <= x < rnxt + st.segs[rnxt] ==> x == rnxt;
  }

  lemma {:induction false} MoveDrains(st: Stream, rcv: RcvState, offs: seq<nat>, rnxt: nat, read: seq<byte>)
    returns (offs': seq<nat>, rnxt': nat)
    requires st.Valid() && Receives(st, rcv, offs, rnxt, read)
    requires |st.written| <= |read| + DEFAULT_WINDOW
    ensures !StopsFull(rcv)
    ensures Receives(st, Moved(rcv), offs', rnxt', read)
    ensures |Moved(rcv).ring| - |rcv.ring| == rnxt' - rnxt >= 0
    ensures Drained(st, offs, rnxt, offs', rnxt')
    decreases |rcv.ofo|
  {
    if HeadInOrder(rcv) {
      HeadIsNext(st, rcv, offs, rnxt, read);
      st.EndIsBoundary(rnxt);
      QueuedTail(st, rcv.ofo, offs, rnxt);
      LaterSegments(st, rcv.ofo[1..], offs[1..], rnxt);
      MoveOne(st, rcv, offs, rnxt, read);
      offs', rnxt' := MoveDrains(st, MoveHead(rcv), offs[1..], rnxt + st.segs[rnxt], read);
      DrainedStep(st, offs, rnxt, offs', rnxt');
    } else {
      offs', rnxt' := offs, rnxt;
      if offs != [] {
        assert st.HasSegment(offs[0], rcv.ofo[0]);
      }
    }
  }

  /** A segment that does not end before rnxt starts at rnxt or later: there is no partial overlap. */
  lemma NoPartialOverlap(st: Stream, o: nat, rnxt: nat)
    requires st.Valid() && st.Boundary(rnxt) && o in st.segs && rnxt < o + st.segs[o]
    ensures rnxt <= o
  {
  }

  /** The duplicate test decides by true position. */
  lemma DuplicateTest(st: Stream, rcv: RcvState, rnxt: nat, o: int, e: Segment)
    requires rcv.rcvNxt == Wrap(st.isn + rnxt) && e.seqNo == Wrap(st.isn + o)
    requires -0x8000_0000 < o + |e.data| - rnxt < 0x8000_0000
    ensures LessOrEqual32(SeqEnd(e), rcv.rcvNxt) <==> o + |e.data| <= rnxt
  {
    WrapAdd(st.isn + o, |e.data|);
    CompareNear(st.isn + o + |e.data|, st.isn + rnxt);
  }

  ghost function QueueAfterAdd(offs: seq<nat>, rnxt: nat, o: int, len: nat): seq<nat> {
    if o + len <= rnxt || o < 0 then offs else InsertedOffset(offs, o)
  }

  lemma AddKeepsReceives(st: Stream, rcv: RcvState, offs: seq<nat>, rnxt: nat, read: seq<byte>, o: int, e: Segment)
    requires st.Valid() && Receives(st, rcv, offs, rnxt, read)
    requires |st.written| - rnxt < 0x8000_0000 && rnxt - (o + |e.data|) < 0x8000_0000
    requires st.HasSegment(o, e) || (o + |e.data| <= rnxt && e.seqNo == Wrap(st.isn + o))
    ensures Receives(st, Added(rcv, e), QueueAfterAdd(offs, rnxt, o, |e.data|), rnxt, read)
    ensures forall x :: x in QueueAfterAdd(offs, rnxt, o, |e.data|) <==>
      x in offs || (x == o && rnxt < o + |e.data|)
  {
    DuplicateTest(st, rcv, rnxt, o, e);
    if rnxt < o + |e.data| {
      NoPartialOverlap(st, o, rnxt);
      InsertKeepsOrder(st, rcv.ofo, offs, rnxt, o, e);
      InsertedOffsetElements(offs, o);
    }
  }

  lemma NowBeyond(st: Stream, offs: seq<nat>, rnxt: nat, queue: seq<nat>, offs': seq<nat>, rnxt': nat, o: int, end: int)
    requires forall x :: x in queue <==> x in offs || (x == o && rnxt < end)
    requires Drained(st, queue, rnxt, offs', rnxt') && rnxt <= rnxt' && (end <= rnxt ==> o < rnxt)
    ensures forall x :: x in st.segs ==>
      (x < rnxt' || x in offs' <==> x < rnxt || x in offs || x == o)
  {
    forall x | x in st.segs ensures x < rnxt' || x in offs' <==> x < rnxt || x in offs || x == o {
      assert x in queue <==> x in offs' || (x in st.segs && rnxt <= x < rnxt');
    }
  }

  /**
   Reassembly of one arrival: still in order, the ring never found full, and afterwards
   what lies before rnxt or in the queue is what did before, and the arrival.
   */
  lemma ProcessArrival(st: Stream, rcv: RcvState, offs: seq<nat>, rnxt: nat, read: seq<byte>, o: int, e: Segment)
    returns (offs': seq<nat>, rnxt': nat)
    requires st.Valid() && Receives(st, rcv, offs, rnxt, read) && |st.written| <= |read| + DEFAULT_WINDOW
    requires rnxt - (o + |e.data|) < 0x8000_0000 && e.data != []
    requires st.HasSegment(o, e) || (o + |e.data| <= rnxt && e.seqNo == Wrap(st.isn + o))
    ensures Receives(st, Processed(rcv, e), offs', rnxt', read)
    ensures rnxt' - rnxt == |Processed(rcv, e).ring| - |rcv.ring| >= 0
    ensures var queue := QueueAfterAdd(offs, rnxt, o, |e.data|);
      |offs'| <= |queue| && offs' == queue[|queue| - |offs'|..]
    ensures offs' != [] ==> rnxt' < offs'[0]
    ensures forall x :: x in st.segs ==>
      (x < rnxt' || x in offs' <==> x < rnxt || x in offs || x == o)
    ensures !StopsFull(Added(rcv, e))
  {
    var queue := QueueAfterAdd(offs, rnxt, o, |e.data|);
    assert |read| + |rcv.ring| == rnxt;
    AddKeepsReceives(st, rcv, offs, rnxt, read, o, e);
    offs', rnxt' := MoveDrains(st, Added(rcv, e), queue, rnxt, read);
    NowBeyond(st, offs, rnxt, queue, offs', rnxt', o, o + |e.data|);
  }

  lemma ReadKeepsReceives(st: Stream, rcv: RcvState, offs: seq<nat>, rnxt: nat, read: seq<byte>, n: nat)
    requires Receives(st, rcv, offs, rnxt, read) && n <= |rcv.ring|
    ensures Receives(st, AfterRead(rcv, n), offs, rnxt, read + rcv.ring[..n])
    ensures AfterRead(rcv, n).rcvWnd == rcv.rcvWnd + n
  {
    assert read + rcv.ring[..n] + rcv.ring[n..] == read + rcv.ring;
  }

  // ---------- the sender against the stream ----------

  /** The kept entries are exactly the segments from `o` to the end of what was written. */
  ghost predicate Kept(st: Stream, sendBuf: seq<Segment>, o: nat)
    decreases |sendBuf|
  {
    if sendBuf == [] then o == |st.written|
    else st.HasSegment(o, sendBuf[0]) && Kept(st, sendBuf[1..], o + st.segs[o])
  }

  ghost predicate Sends(st: Stream, snd: SndState, una: nat) {
    && snd.sndUna == Wrap(st.isn + una)
    && snd.sndNxt == Wrap(st.isn + |st.written|)
    && snd.sndWnd <= DEFAULT_WINDOW
    && st.Boundary(una) && una <= |st.written| <= una + DEFAULT_WINDOW
    && Kept(st, snd.sendBuf, una)
  }

  ghost function Extended(st: Stream, chunk: seq<byte>): Stream {
    Stream(st.isn, st.written + chunk, st.segs[|st.written| := |chunk|])
  }

  lemma ExtendKeepsSegments(st: Stream, chunk: seq<byte>)
    requires st.Valid()
    ensures forall o, e :: st.HasSegment(o, e) ==> Extended(st, chunk).HasSegment(o, e)
    ensures forall x :: chunk != [] && st.Boundary(x) ==> Extended(st, chunk).Boundary(x)
    ensures chunk != [] ==>
      Extended(st, chunk).HasSegment(|st.written|, Segment(Wrap(st.isn + |st.written|), chunk))
  {
    var st' := Extended(st, chunk);
    forall o, e | st.HasSegment(o, e) ensures st'.HasSegment(o, e) {
      assert st'.segs[o] == st.segs[o];
      assert st'.written[o..o + st.segs[o]] == st.written[o..o + st.segs[o]];
    }
    assert st'.written[|st.written|..|st.written| + |chunk|] == chunk;
  }

  lemma ExtendKeepsTiling(st: Stream, chunk: seq<byte>)
    requires st.Valid() && 1 <= |chunk| <= MSS
    ensures Extended(st, chunk).Valid()
  {
    var st' := Extended(st, chunk);
    forall k: nat | k < |st'.written| ensures st'.Covered(k) {
      if k < |st.written| {
        assert st.Covered(k);
        var o :| o in st.segs && o <= k < o + st.segs[o];
        assert o in st'.segs && st'.segs[o] == st.segs[o];
      } else {
        assert |st.written| in st'.segs;
      }
    }
  }

  lemma {:induction false} KeptExtends(st: Stream, sendBuf: seq<Segment>, o: nat, chunk: seq<byte>)
    requires st.Valid() && Kept(st, sendBuf, o) && chunk != []
    ensures Kept(Extended(st, chunk), sendBuf + [Segment(Wrap(st.isn + |st.written|), chunk)], o)
    decreases |sendBuf|
  {
    ExtendKeepsSegments(st, chunk);
    var st', last := Extended(st, chunk), Segment(Wrap(st.isn + |st.written|), chunk);
    var all := sendBuf + [last];
    if sendBuf == [] {
      assert all[1..] == [] && all[0] == last && st'.HasSegment(o, last);
    } else {
      KeptExtends(st, sendBuf[1..], o + st.segs[o], chunk);
      assert all[1..] == sendBuf[1..] + [last];
      assert st'.HasSegment(o, sendBuf[0]) && st'.segs[o] == st.segs[o];
    }
  }

  lemma ReceivesExtends(st: Stream, rcv: RcvState, offs: seq<nat>, rnxt: nat, read: seq<byte>, chunk: seq<byte>)
    requires st.Valid() && Receives(st, rcv, offs, rnxt, read) && chunk != []
    ensures Receives(Extended(st, chunk), rcv, offs, rnxt, read)
  {
    ExtendKeepsSegments(st, chunk);
    var st' := Extended(st, chunk);
    assert st'.written[..rnxt] == st.written[..rnxt];
    forall i | 0 <= i < |offs| ensures rnxt <= offs[i] && st'.HasSegment(offs[i], rcv.ofo[i]) {
      assert st.HasSegment(offs[i], rcv.ofo[i]);
    }
  }

  lemma SendsExtends(st: Stream, snd: SndState, una: nat, buf: seq<byte>)
    requires st.Valid() && Sends(st, snd, una) && buf != []
    requires |st.written| + |buf| <= una + DEFAULT_WINDOW
    requires ChunkSent(snd, buf, 0).data == buf
    ensures Sends(Extended(st, buf), AfterChunk(snd, buf, 0), una)
  {
    ExtendKeepsSegments(st, buf);
    KeptExtends(st, snd.sendBuf, una, buf);
    WrapAdd(st.isn + |st.written|, |buf|);
    assert ChunkLength(snd, |buf|) == |buf|;
  }

  /** Cumulative trimming leaves exactly the segments from the acknowledged boundary on. */
  lemma {:induction false} KeptTrims(st: Stream, sendBuf: seq<Segment>, o: nat, ackOff: nat)
    requires st.Valid() && Kept(st, sendBuf, o)
    requires st.Boundary(ackOff) && ackOff <= |st.written|
    requires |st.written| - o < 0x8000_0000 && |st.written| - ackOff < 0x8000_0000
    ensures Kept(st, Trimmed(sendBuf, Wrap(st.isn + ackOff)), if o <= ackOff then ackOff else o)
    decreases |sendBuf|
  {
    if sendBuf != [] {
      assert st.HasSegment(o, sendBuf[0]);
      CompareNear(st.isn + o, st.isn + ackOff);
      if o < ackOff {
        KeptTrims(st, sendBuf[1..], o + st.segs[o], ackOff);
      }
    }
  }

  /** A genuine acknowledgement moves the sender to it, or, when an older one, changes nothing. */
  lemma AckKeepsSends(st: Stream, snd: SndState, una: nat, ack: Ack, ackOff: nat, cwnd: nat)
    requires st.Valid() && Sends(st, snd, una)
    requires ack.ackNo == Wrap(st.isn + ackOff) && st.Boundary(ackOff) && ackOff <= |st.written|
    requires |st.written| - ackOff < 0x8000_0000
    ensures Sends(st, AfterAck(snd, ack, cwnd), if una <= ackOff then ackOff else una)
    ensures AfterAck(snd, ack, cwnd).sndWnd == if una <= ackOff then Min(ack.rwnd, cwnd) else snd.sndWnd
  {
    KeptTrims(st, snd.sendBuf, una, ackOff);
    CompareNear(st.isn + una, st.isn + ackOff);
    assert LessOrEqual32(snd.sndUna, ack.ackNo) <==> una <= ackOff;
    CompareNear(st.isn + ackOff, st.isn + |st.written|);
    assert LessOrEqual32(ack.ackNo, snd.sndNxt);
  }

  /**
   The window update is for acknowledgements of what is in flight and for no others: one below
   sndUna, or beyond sndNxt, changes neither position nor windows.
   */
  lemma UpdateIsGuarded(st: Stream, snd: SndState, una: nat, ack: Ack, ackOff: int, cwnd: nat)
    requires Sends(st, snd, una) && ack.ackNo == Wrap(st.isn + ackOff)
    requires -0x8000_0000 < ackOff - una < 0x8000_0000 && -0x8000_0000 < ackOff - |st.written| < 0x8000_0000
    ensures var s := AfterAck(snd, ack, cwnd);
      && s.sndNxt == snd.sndNxt
      && if una <= ackOff <= |st.written|
         then s.sndUna == Wrap(st.isn + ackOff) && s.advWnd == ack.rwnd && s.sndWnd == Min(ack.rwnd, cwnd)
         else s.sndUna == snd.sndUna && s.advWnd == snd.advWnd && s.sndWnd == snd.sndWnd
  {
    CompareNear(st.isn + una, st.isn + ackOff);
    assert LessOrEqual32(snd.sndUna, ack.ackNo) <==> una <= ackOff;
    CompareNear(st.isn + ackOff, st.isn + |st.written|);
    assert LessOrEqual32(ack.ackNo, snd.sndNxt) <==> ackOff <= |st.written|;
  }

  lemma {:induction false} KeptAbove(st: Stream, sendBuf: seq<Segment>, o: nat, i: nat) returns (p: nat)
    requires st.Valid() && Kept(st, sendBuf, o) && i < |sendBuf|
    ensures st.HasSegment(p, sendBuf[i]) && o <= p < |st.written| && (i == 0 ==> p == o)
    decreases |sendBuf|
  {
    p := o;
    if i > 0 {
      p := KeptAbove(st, sendBuf[1..], o + st.segs[o], i - 1);
    }
  }

  /**
   What a retransmission sends, when anything is unacknowledged, is the segment of the stream
   at sndUna, and no kept entry is older by wrapped comparison.
   */
  lemma RetransmitsOldest(st: Stream, snd: SndState, una: nat)
    requires st.Valid() && Sends(st, snd, una)
    ensures snd.sendBuf == [] <==> una == |st.written|
    ensures snd.sendBuf != [] ==> st.HasSegment(una, snd.sendBuf[0]) && snd.sendBuf[0].seqNo == snd.sndUna
    ensures forall i :: 0 <= i < |snd.sendBuf| ==> LessOrEqual32(snd.sendBuf[0].seqNo, snd.sendBuf[i].seqNo)
  {
    forall i | 0 <= i < |snd.sendBuf|
      ensures LessOrEqual32(snd.sendBuf[0].seqNo, snd.sendBuf[i].seqNo)
    {
      var p := KeptAbove(st, snd.sendBuf, una, i);
      CompareNear(st.isn + una, st.isn + p);
    }
  }

  /** The window test passes only when a whole segment still fits under the sender's edge. */
  lemma WindowTestMeans(st: Stream, snd: SndState, una: nat)
    requires Sends(st, snd, una)
    ensures WindowTest(snd) <==> |st.written| + MSS <= una + snd.sndWnd
  {
    var x := snd.sndWnd - |st.written| + una;
    WrapWindow(snd.sndWnd, st.isn + |st.written|, st.isn + una);
    assert Wrap(snd.sndWnd - snd.sndNxt + snd.sndUna) == Wrap(x);
    WrapAdd(x, -1460);
    assert Wrap(Wrap(x) - 1460) == Wrap(x - 1460);
    SmallInt32(x - 1460);
  }
}
