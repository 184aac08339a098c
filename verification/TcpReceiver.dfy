/**
 The receiving half of a connection in the established phase: the out-of-order
 list, the ring buffer and the advertised window.
 */
module TcpReceivers {
  import opened Seq32
  import opened RingBuffers

  /** TCP_DEFAULT_WINDOW: the first advertised window and the ring's capacity. */
  const DEFAULT_WINDOW := 65535

  datatype RcvState = RcvState(rcvNxt: u32, rcvWnd: u16, ofo: seq<Segment>, ring: seq<byte>)

  /** Insertion before the first later entry; an entry with the same number wins over the newcomer. */
  function Inserted(ofo: seq<Segment>, e: Segment): seq<Segment> {
    if ofo == [] then [e]
    else if e.seqNo == ofo[0].seqNo then ofo
    else if LessThan32(e.seqNo, ofo[0].seqNo) then [e] + ofo
    else [ofo[0]] + Inserted(ofo[1..], e)
  }

  function Added(s: RcvState, e: Segment): RcvState {
    if LessOrEqual32(SeqEnd(e), s.rcvNxt) then s
    else s.(ofo := Inserted(s.ofo, e))
  }

  predicate HeadInOrder(s: RcvState) {
    s.ofo != [] && s.ofo[0].seqNo == s.rcvNxt
  }

  predicate HeadFits(s: RcvState)
    requires s.ofo != []
  {
    |s.ofo[0].data| <= DEFAULT_WINDOW - |s.ring|
  }

  function MoveHead(s: RcvState): RcvState
    requires s.ofo != []
  {
    var d := s.ofo[0].data;
    RcvState(Wrap(s.rcvNxt + |d|), Wrap16(s.rcvWnd - |d|), s.ofo[1..], s.ring + d)
  }

  /** Entries move to the ring as long as the head is the next one expected and fits. */
  function Moved(s: RcvState): RcvState
    decreases |s.ofo|
  {
    if HeadInOrder(s) && HeadFits(s) then Moved(MoveHead(s)) else s
  }

  /** The move loop ends in its "recv buffer is full" branch. */
  predicate StopsFull(s: RcvState)
    decreases |s.ofo|
  {
    HeadInOrder(s) && (HeadFits(s) ==> StopsFull(MoveHead(s)))
  }

  function CurrentAck(s: RcvState): Ack {
    Ack(s.rcvNxt, s.rcvWnd)
  }

  /** A data segment in the established state, after any early acknowledgement. */
  function Processed(s: RcvState, e: Segment): RcvState {
    Moved(Added(s, e))
  }

  /** Numerically smaller segments, compared without wrap-around, get an extra acknowledgement first. */
  function AcksFor(s: RcvState, e: Segment): seq<Ack> {
    (if e.seqNo < s.rcvNxt then [CurrentAck(s)] else []) + [CurrentAck(Processed(s, e))]
  }

  function AfterRead(s: RcvState, n: nat): RcvState
    requires n <= |s.ring|
  {
    s.(ring := s.ring[n..], rcvWnd := Wrap16(s.rcvWnd + n))
  }

  lemma {:induction false} InsertedSplit(ofo: seq<Segment>, i: nat, e: Segment)
    requires i <= |ofo|
    requires forall k :: 0 <= k < i ==> ofo[k].seqNo != e.seqNo && !LessThan32(e.seqNo, ofo[k].seqNo)
    ensures Inserted(ofo, e) == ofo[..i] + Inserted(ofo[i..], e)
  {
    if i == 0 {
      assert ofo[0..] == ofo;
    } else {
      InsertedSplit(ofo[1..], i - 1, e);
      assert ofo[1..][i - 1..] == ofo[i..];
      assert ofo[..i] == [ofo[0]] + ofo[1..][..i - 1];
    }
  }

  ghost predicate AllBefore(ofo: seq<Segment>, i: nat, e: Segment)
    requires i <= |ofo|
  {
    forall k :: 0 <= k < i ==> ofo[k].seqNo != e.seqNo && !LessThan32(e.seqNo, ofo[k].seqNo)
  }

  /** Where a scan of the list stops, and what insertion then amounts to. */
  lemma InsertedAt(ofo: seq<Segment>, i: nat, e: Segment)
    requires i <= |ofo| && AllBefore(ofo, i, e)
    ensures i == |ofo| ==> Inserted(ofo, e) == ofo + [e]
    ensures i < |ofo| && ofo[i].seqNo == e.seqNo ==> Inserted(ofo, e) == ofo
    ensures i < |ofo| && ofo[i].seqNo != e.seqNo && LessThan32(e.seqNo, ofo[i].seqNo) ==>
      Inserted(ofo, e) == ofo[..i] + [e] + ofo[i..]
  {
    InsertedSplit(ofo, i, e);
    assert ofo[..i] + ofo[i..] == ofo;
  }

  class Receiver {
    var rcvNxt: u32
    var rcvWnd: u16
    var ofo: seq<Segment>
    const ring: RingBuffer

    ghost predicate Valid()
      reads this, ring
    {
      && ring.Valid()
      && ring.buf.Length == DEFAULT_WINDOW + 1
      && forall e :: e in ofo ==> e.data != []
    }

    ghost function State(): RcvState
      reads this, ring, ring.buf
      requires Valid()
    {
      RcvState(rcvNxt, rcvWnd, ofo, ring.Contents())
    }

    constructor (next: u32)
      ensures Valid() && fresh(ring) && fresh(ring.buf)
      ensures State() == RcvState(next, DEFAULT_WINDOW, [], [])
    {
      rcvNxt, rcvWnd, ofo := next, DEFAULT_WINDOW, [];
      ring := new RingBuffer(DEFAULT_WINDOW);
    }

    /** Returns -1 for a duplicate and 0 for a segment that was queued. */
    method AddPacket(e: Segment) returns (r: int)
      requires Valid() && e.data != []
      modifies `ofo
      ensures Valid()
      ensures State() == Added(old(State()), e)
      ensures r == if ofo == old(ofo) then -1 else 0
    {
      if LessOrEqual32(SeqEnd(e), rcvNxt) {
        return -1;
      }
      var i := 0;
      while i < |ofo|
        invariant 0 <= i <= |ofo| && ofo == old(ofo)
        invariant AllBefore(ofo, i, e)
      {
        InsertedAt(ofo, i, e);
        if e.seqNo == ofo[i].seqNo {
          return -1;
        }
        if LessThan32(e.seqNo, ofo[i].seqNo) {
          ofo := ofo[..i] + [e] + ofo[i..];
          assert |ofo| == |old(ofo)| + 1;
          return 0;
        }
        i := i + 1;
      }
      InsertedAt(ofo, i, e);
      ofo := ofo + [e];
      assert |ofo| == |old(ofo)| + 1;
      return 0;
    }

    /** Returns how many bytes were moved, and the acknowledgement sent afterwards. */
    method MoveOfo() returns (moved: nat, ack: Ack)
      requires Valid()
      modifies `ofo, `rcvNxt, `rcvWnd, ring`tail, ring.buf
      ensures Valid()
      ensures State() == Moved(old(State()))
      ensures old(ring.Contents()) <= ring.Contents()
      ensures moved == |ring.Contents()| - |old(ring.Contents())|
      ensures ack == Ack(rcvNxt, rcvWnd)
    {
      moved := 0;
      while ofo != []
        invariant Valid()
        invariant Moved(State()) == Moved(old(State()))
        invariant old(ring.Contents()) <= ring.Contents()
        invariant moved == |ring.Contents()| - |old(ring.Contents())|
        decreases |ofo|
      {
        var entry := ofo[0];
        if entry.seqNo != rcvNxt {
          break;
        }
        if ring.Free() < |entry.data| {
          break;
        }
        ghost var before := State();
        assert entry in ofo;
        ring.Write(entry.data);
        rcvNxt := Wrap(rcvNxt + |entry.data|);
        rcvWnd := Wrap16(rcvWnd - |entry.data|);
        moved := moved + |entry.data|;
        ofo := ofo[1..];
        assert State() == MoveHead(before);
      }
      assert Moved(State()) == State();
      ack := Ack(rcvNxt, rcvWnd);
    }

    /**
     The established branch of tcp_process for a segment with data. The position and window reached
     are always acknowledged; a numerically smaller segment has those of before acknowledged first.
     */
    method ProcessData(e: Segment) returns (acks: seq<Ack>)
      requires Valid() && e.data != []
      modifies `ofo, `rcvNxt, `rcvWnd, ring`tail, ring.buf
      ensures Valid()
      ensures State() == Processed(old(State()), e)
      ensures acks == AcksFor(old(State()), e)
      ensures |acks| == if e.seqNo < old(rcvNxt) then 2 else 1
      ensures acks[|acks| - 1] == Ack(rcvNxt, rcvWnd)
      ensures |acks| == 2 ==> acks[0] == Ack(old(rcvNxt), old(rcvWnd))
    {
      acks := [];
      if e.seqNo < rcvNxt {
        acks := [Ack(rcvNxt, rcvWnd)];
      }
      var _ := AddPacket(e);
      var _, ack := MoveOfo();
      acks := acks + [ack];
    }

    /** tcp_sock_read once the ring is not empty (until then the caller sleeps). */
    method SockRead(len: int) returns (data: seq<byte>)
      requires Valid() && ring.Contents() != []
      modifies `rcvWnd, ring`head
      ensures Valid()
      ensures len <= 0 ==> data == [] && State() == old(State())
      ensures 0 < len ==>
        && data == old(ring.Contents())[..Min(len, |old(ring.Contents())|)]
        && data != []
        && State() == AfterRead(old(State()), |data|)
    {
      data := [];
      if 0 < len {
        var avail := Min(len, ring.Used());
        var chunk, n := ring.Read(avail);
        data := chunk;
        rcvWnd := Wrap16(rcvWnd + avail);
      }
    }
  }
}
