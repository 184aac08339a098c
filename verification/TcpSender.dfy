/**
 The sending half of a connection in the established phase: the window test,
 the send buffer, retransmission and the zero-window probe.
 */
module TcpSenders {
  import opened Seq32

  /** ETH_FRAME_LEN less the Ethernet, IP and TCP headers. */
  const MSS := 1460

  datatype SndState = SndState(sndUna: u32, sndNxt: u32, sndWnd: u32, advWnd: u16, sendBuf: seq<Segment>)

  /** At least one full segment of window is left beyond what is in flight. */
  predicate WindowTest(s: SndState) {
    !LessThan32(Wrap(s.sndWnd - s.sndNxt + s.sndUna), MSS)
  }

  function ChunkLength(s: SndState, remaining: nat): nat {
    Min(remaining, Min(s.sndWnd, MSS))
  }

  /** What one turn of the write loop puts on the wire. */
  function ChunkSent(s: SndState, buf: seq<byte>, sent: nat): Segment
    requires sent <= |buf|
  {
    Segment(s.sndNxt, buf[sent..sent + ChunkLength(s, |buf| - sent)])
  }

  /** What the same turn keeps for retransmission: always the caller's whole buffer. */
  function ChunkKept(s: SndState, buf: seq<byte>): Segment {
    Segment(s.sndNxt, buf)
  }

  function AfterChunk(s: SndState, buf: seq<byte>, sent: nat): SndState
    requires sent <= |buf|
  {
    s.(sndNxt := Wrap(s.sndNxt + ChunkLength(s, |buf| - sent)),
       sendBuf := s.sendBuf + [ChunkKept(s, buf)])
  }

  /** Entries that start below the acknowledged number go, from the front. */
  function Trimmed(sendBuf: seq<Segment>, ackNo: u32): seq<Segment> {
    if sendBuf != [] && LessThan32(sendBuf[0].seqNo, ackNo) then Trimmed(sendBuf[1..], ackNo)
    else sendBuf
  }

  /** tcp_update_window_safe; `cwnd` is the congestion window in whole bytes. */
  function AfterWindow(s: SndState, ack: Ack, cwnd: nat): SndState {
    if LessOrEqual32(s.sndUna, ack.ackNo) && LessOrEqual32(ack.ackNo, s.sndNxt)
    then s.(sndUna := ack.ackNo, advWnd := ack.rwnd, sndWnd := Min(ack.rwnd, cwnd))
    else s
  }

  function AfterAck(s: SndState, ack: Ack, cwnd: nat): SndState {
    AfterWindow(s.(sendBuf := Trimmed(s.sendBuf, ack.ackNo)), ack, cwnd)
  }

  /** The zero-window probe: one byte, numbered below everything unacknowledged. */
  function Probe(s: SndState): Segment {
    Segment(Wrap(s.sndUna - 1), [88])
  }

  /**
   What is kept for retransmission is what was sent exactly when the chunk is the
   whole write: the first one, of a write no longer than a segment and the window.
   */
  lemma KeptAsSent(s: SndState, buf: seq<byte>, sent: nat)
    requires sent < |buf|
    ensures ChunkKept(s, buf) == ChunkSent(s, buf, sent)
      <==> sent == 0 && |buf| <= Min(s.sndWnd, MSS)
  {
    if sent == 0 && |buf| <= Min(s.sndWnd, MSS) {
      assert buf[0..|buf|] == buf;
    } else {
      assert |ChunkSent(s, buf, sent).data| < |buf|;
    }
  }

  /** A two-segment write: the retransmission of its second segment carries the wrong bytes. */
  lemma LongWriteIsCorrupted()
    ensures exists s: SndState, buf: seq<byte> ::
      && WindowTest(s)
      && |buf| == MSS + 1
      && var s1 := AfterChunk(s, buf, 0);
         var second := ChunkSent(s1, buf, MSS);
         && WindowTest(s1)
         && second.seqNo == ChunkKept(s1, buf).seqNo
         && |second.data| == 1
         && second.data[0] != ChunkKept(s1, buf).data[0]
  {
    var s := SndState(0, 0, 4000, 4000, []);
    var buf: seq<byte> := seq(MSS + 1, i => if i == 0 then 1 else 0);
    assert |ChunkSent(s, buf, 0).data| == MSS;
    var s1 := AfterChunk(s, buf, 0);
    assert ChunkSent(s1, buf, MSS).data[0] == buf[MSS];
    assert WindowTest(s) && WindowTest(s1);
  }

  class Sender {
    var sndUna: u32
    var sndNxt: u32
    var sndWnd: u32
    var advWnd: u16
    var sendBuf: seq<Segment>

    ghost function State(): SndState
      reads this
    {
      SndState(sndUna, sndNxt, sndWnd, advWnd, sendBuf)
    }

    constructor (next: u32)
      ensures State() == SndState(next, next, 0, 0, [])
    {
      sndUna, sndNxt, sndWnd, advWnd, sendBuf := next, next, 0, 0, [];
    }

    /** One turn of the loop in tcp_sock_write; nothing is sent when the caller has to sleep on the window. */
    method WriteChunk(buf: seq<byte>, sent: nat) returns (out: seq<Segment>)
      requires sent < |buf|
      modifies `sndNxt, `sendBuf
      ensures if old(WindowTest(State()))
              then out == [ChunkSent(old(State()), buf, sent)] && State() == AfterChunk(old(State()), buf, sent)
              else out == [] && State() == old(State())
    {
      if LessThan32(Wrap(sndWnd - sndNxt + sndUna), MSS) {
        return [];
      }
      var sendLen := Min(|buf| - sent, Min(sndWnd, MSS));
      var payload := buf[sent..sent + sendLen];
      sendBuf := sendBuf + [Segment(sndNxt, buf)];
      out := [Segment(sndNxt, payload)];
      sndNxt := Wrap(sndNxt + sendLen);
    }

    method UpdateSendBuffer(ackNo: u32) returns (updated: bool)
      modifies `sendBuf
      ensures sendBuf == Trimmed(old(sendBuf), ackNo)
      ensures updated <==> sendBuf != old(sendBuf)
    {
      updated := false;
      while sendBuf != [] && LessThan32(sendBuf[0].seqNo, ackNo)
        invariant Trimmed(sendBuf, ackNo) == Trimmed(old(sendBuf), ackNo)
        invariant |sendBuf| <= |old(sendBuf)|
        invariant updated <==> |sendBuf| < |old(sendBuf)|
        invariant !updated ==> sendBuf == old(sendBuf)
        decreases |sendBuf|
      {
        sendBuf := sendBuf[1..];
        updated := true;
      }
    }

    /** The established branch of tcp_process for a segment without data, congestion control aside. */
    method ProcessAck(ack: Ack, cwnd: nat)
      modifies this
      ensures State() == AfterAck(old(State()), ack, cwnd)
    {
      var _ := UpdateSendBuffer(ack.ackNo);
      if LessOrEqual32(sndUna, ack.ackNo) && LessOrEqual32(ack.ackNo, sndNxt) {
        sndUna := ack.ackNo;
        advWnd := ack.rwnd;
        sndWnd := Min(ack.rwnd, cwnd);
      }
    }

    /** The oldest kept segment, or nothing when the buffer is empty. */
    method Retransmit() returns (out: seq<Segment>)
      ensures out == if sendBuf == [] then [] else [sendBuf[0]]
    {
      if sendBuf == [] {
        return [];
      }
      return [sendBuf[0]];
    }
  }
}
