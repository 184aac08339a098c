/**
 32-bit TCP sequence numbers: the comparison macros, and what they mean for
 unbounded stream positions.
 */
module Seq32 {
  type u16 = x: int | 0 <= x < 0x1_0000
  type u32 = x: int | 0 <= x < 0x1_0000_0000
  newtype byte = x: int | 0 <= x < 256

  /** A data segment, on the wire or queued at either end. */
  datatype Segment = Segment(seqNo: u32, data: seq<byte>)

  /** A segment without data: the next number expected and the window open beyond it. */
  datatype Ack = Ack(ackNo: u32, rwnd: u16)

  function Wrap(x: int): u32 {
    x % 0x1_0000_0000
  }

  function Wrap16(x: int): u16 {
    x % 0x1_0000
  }

  /** The value of a C `int32_t` that holds `x` reduced to 32 bits, in two's complement. */
  function AsInt32(x: int): int {
    var w := Wrap(x);
    if w < 0x8000_0000 then w else w - 0x1_0000_0000
  }

  predicate LessThan32(a: u32, b: u32) {
    AsInt32(a - b) < 0
  }

  predicate LessOrEqual32(a: u32, b: u32) {
    AsInt32(a - b) <= 0
  }

  function SeqEnd(e: Segment): u32 {
    Wrap(e.seqNo + |e.data|)
  }

  function Min(x: int, y: int): int {
    if x < y then x else y
  }

  lemma WrapDifference(x: int, y: int)
    ensures Wrap(Wrap(x) - Wrap(y)) == Wrap(x - y)
  {
    var qx, qy := x / 0x1_0000_0000, y / 0x1_0000_0000;
    assert Wrap(x) - Wrap(y) == x - y - (qx - qy) * 0x1_0000_0000;
    WrapShift(x - y, -(qx - qy));
  }

  lemma WrapShift(x: int, k: int)
    ensures Wrap(x + k * 0x1_0000_0000) == Wrap(x)
  {
    var q, r := x / 0x1_0000_0000, x % 0x1_0000_0000;
    assert x + k * 0x1_0000_0000 == (q + k) * 0x1_0000_0000 + r;
  }

  lemma WrapAdd(x: int, n: int)
    ensures Wrap(Wrap(x) + n) == Wrap(x + n)
  {
    WrapShift(x + n, -(x / 0x1_0000_0000));
  }

  lemma WrapWindow(a: int, x: int, y: int)
    ensures Wrap(a - Wrap(x) + Wrap(y)) == Wrap(a - x + y)
  {
    WrapShift(a - x + y, x / 0x1_0000_0000 - y / 0x1_0000_0000);
  }

  lemma SmallInt32(x: int)
    requires -0x8000_0000 <= x < 0x8000_0000
    ensures AsInt32(x) == x
  {
    assert x < 0 ==> Wrap(x) == x + 0x1_0000_0000;
  }

  /**
   The macros decide the order of two positions correctly whenever these lie
   less than 2^31 apart, wherever the 32-bit counter wraps.
   */
  lemma CompareNear(x: int, y: int)
    requires -0x8000_0000 < x - y < 0x8000_0000
    ensures LessThan32(Wrap(x), Wrap(y)) <==> x < y
    ensures LessOrEqual32(Wrap(x), Wrap(y)) <==> x <= y
    ensures Wrap(x) == Wrap(y) <==> x == y
  {
    WrapDifference(x, y);
    if x < y {
      assert Wrap(x - y) == x - y + 0x1_0000_0000;
    } else {
      assert Wrap(x - y) == x - y;
    }
  }

  /**
   Less than a whole turn apart, the macros are right exactly for differences from -2^31 to
   2^31 - 1: beyond, they answer the wrong way round.
   */
  lemma CompareFar(x: int, y: int)
    requires -0x1_0000_0000 < x - y < 0x1_0000_0000
    ensures (LessThan32(Wrap(x), Wrap(y)) <==> x < y) <==> -0x8000_0000 <= x - y < 0x8000_0000
    ensures (LessOrEqual32(Wrap(x), Wrap(y)) <==> x <= y) <==> -0x8000_0000 <= x - y < 0x8000_0000
  {
    WrapDifference(x, y);
    if x < y {
      assert Wrap(x - y) == x - y + 0x1_0000_0000;
    } else {
      assert Wrap(x - y) == x - y;
    }
  }

  /**
   Comparing the 32-bit numbers themselves, as the congestion and acknowledgement code does, gives
   the order of near positions exactly when no wrap of the counter lies between them.
   */
  lemma RawCompare(x: int, y: int)
    requires -0x8000_0000 < x - y < 0x8000_0000
    ensures (Wrap(x) < Wrap(y) <==> x < y) <==> x / 0x1_0000_0000 == y / 0x1_0000_0000
  {
    var qx, qy := x / 0x1_0000_0000, y / 0x1_0000_0000;
    assert x == qx * 0x1_0000_0000 + Wrap(x) && y == qy * 0x1_0000_0000 + Wrap(y);
    assert -1 <= qx - qy <= 1;
  }
}
