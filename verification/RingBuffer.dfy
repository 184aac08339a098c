/** The receive ring buffer: an array whose used part may wrap around its end. */
module RingBuffers {
  import opened Seq32

  /** The cells from head up to tail, across the end of the array if need be. */
  ghost function Cyclic(buf: seq<byte>, head: nat, tail: nat): (s: seq<byte>)
    requires head < |buf| && tail < |buf|
    ensures |s| == if head <= tail then tail - head else tail - head + |buf|
  {
    if head <= tail then buf[head..tail] else buf[head..] + buf[..tail]
  }

  lemma ModTurn(x: int, n: int)
    requires 0 <= x < 2 * n
    ensures x % n == if x < n then x else x - n
  {
    if n <= x {
      var q := x / n;
      assert x == q * n + x % n;
      assert q <= 0 ==> q * n <= 0;
      assert q >= 2 ==> q * n >= 2 * n;
    }
  }

  /** The index k cells after head. */
  ghost function At(size: nat, head: nat, k: nat): nat {
    if head + k < size then head + k else head + k - size
  }

  lemma CyclicAt(buf: seq<byte>, head: nat, tail: nat, k: nat)
    requires head < |buf| && tail < |buf| && k < |Cyclic(buf, head, tail)|
    ensures At(|buf|, head, k) < |buf| && Cyclic(buf, head, tail)[k] == buf[At(|buf|, head, k)]
  {
  }

  /** An index moved on by n, modulo the size. */
  function Advance(size: nat, at: nat, n: nat): (r: nat)
    requires at < size && n <= size
    ensures r == At(size, at, n) < size
  {
    ModTurn(at + n, size);
    (at + n) % size
  }

  /** Cell i after `data` has been written from `tail` on, around the end if need be. */
  ghost function Overwritten(buf: seq<byte>, tail: nat, data: seq<byte>, i: nat): byte
    requires i < |buf| && tail < |buf| && |data| <= |buf|
  {
    if tail <= i < tail + |data| then data[i - tail]
    else if i < tail + |data| - |buf| && i < tail then data[i + |buf| - tail]
    else buf[i]
  }

  /** Cells written from tail on follow what was there. */
  lemma CyclicWrite(buf: seq<byte>, buf': seq<byte>, head: nat, tail: nat, tail': nat, data: seq<byte>)
    requires head < |buf| && tail < |buf| && |buf'| == |buf|
    requires |data| + |Cyclic(buf, head, tail)| < |buf|
    requires tail' == At(|buf|, tail, |data|)
    requires forall i :: 0 <= i < |buf| ==> buf'[i] == Overwritten(buf, tail, data, i)
    ensures tail' < |buf| && Cyclic(buf', head, tail') == Cyclic(buf, head, tail) + data
  {
    var was := Cyclic(buf, head, tail);
    assert |Cyclic(buf', head, tail')| == |was| + |data|;
    forall k | 0 <= k < |was| + |data| ensures Cyclic(buf', head, tail')[k] == (was + data)[k] {
      CyclicAt(buf', head, tail', k);
      if k < |was| {
        CyclicAt(buf, head, tail, k);
      }
    }
  }

  /** Reading n cells and moving head past them takes them off the front. */
  lemma CyclicRead(buf: seq<byte>, head: nat, tail: nat, n: nat)
    requires head < |buf| && tail < |buf| && n <= |Cyclic(buf, head, tail)|
    ensures var head' := At(|buf|, head, n);
      && head' < |buf|
      && Cyclic(buf, head', tail) == Cyclic(buf, head, tail)[n..]
      && Cyclic(buf, head, tail)[..n] ==
           if head + n > |buf| then buf[head..] + buf[..head + n - |buf|] else buf[head..head + n]
  {
    var was, head' := Cyclic(buf, head, tail), At(|buf|, head, n);
    forall k | 0 <= k < |was| - n ensures Cyclic(buf, head', tail)[k] == was[n..][k] {
      CyclicAt(buf, head', tail, k);
      CyclicAt(buf, head, tail, n + k);
    }
  }

  class RingBuffer {
    const buf: array<byte>
    var head: nat   // next index to read
    var tail: nat   // next index to write

    ghost predicate Valid()
      reads this
    {
      0 < buf.Length && head < buf.Length && tail < buf.Length
    }

    ghost function Contents(): seq<byte>
      reads this, buf
      requires Valid()
    {
      Cyclic(buf[..], head, tail)
    }

    /** A buffer that can hold `size` bytes; one more cell is never filled. */
    constructor (size: nat)
      ensures Valid() && fresh(buf) && buf.Length == size + 1
      ensures Contents() == []
    {
      buf := new byte[size + 1];
      head, tail := 0, 0;
    }

    function Used(): (n: nat)
      reads this, buf
      requires Valid()
      ensures n == |Contents()| < buf.Length
    {
      ModTurn(tail - head + buf.Length, buf.Length);
      (tail - head + buf.Length) % buf.Length
    }

    function Free(): (n: nat)
      reads this, buf
      requires Valid()
      ensures n + |Contents()| + 1 == buf.Length
    {
      buf.Length - Used() - 1
    }

    /** memcpy of `data` into the buffer from index `at` on. */
    method CopyIn(at: nat, data: seq<byte>)
      requires at + |data| <= buf.Length
      modifies buf
      ensures forall i :: 0 <= i < buf.Length ==>
        buf[i] == if at <= i < at + |data| then data[i - at] else old(buf[i])
    {
      forall i | 0 <= i < |data| {
        buf[at + i] := data[i];
      }
    }

    /** memcpy of `len` bytes from head on, in two parts when they cross the end. */
    method CopyOut(len: nat) returns (data: seq<byte>)
      requires Valid() && len <= |Contents()|
      ensures data == if head + len > buf.Length then buf[..][head..] + buf[..][..head + len - buf.Length]
                      else buf[..][head..head + len]
    {
      if head + len > buf.Length {
        var right := buf.Length - head;
        var left := len - right;
        data := buf[head..head + right] + buf[..left];
        assert buf[head..head + right] == buf[..][head..];
      } else {
        data := buf[head..head + len];
      }
    }

    method Write(data: seq<byte>)
      requires Valid()
      requires 0 < |data| <= Free()
      modifies buf, `tail
      ensures Valid()
      ensures Contents() == old(Contents()) + data
    {
      ghost var before, last := buf[..], tail;
      var len := |data|;
      if tail + len > buf.Length {
        var right := buf.Length - tail;
        CopyIn(tail, data[..right]);
        CopyIn(0, data[right..]);
      } else {
        CopyIn(tail, data);
      }
      tail := Advance(buf.Length, tail, len);
      CyclicWrite(before, buf[..], head, last, tail, data);
    }

    /** Reads at most `size` bytes; a size of zero or less reads nothing. */
    method Read(size: int) returns (data: seq<byte>, len: int)
      requires Valid()
      modifies `head
      ensures Valid()
      ensures len == Min(|old(Contents())|, size)
      ensures size >= 0 ==> data == old(Contents())[..len] && Contents() == old(Contents())[len..]
      ensures size < 0 ==> data == [] && Contents() == old(Contents())
    {
      len := Min(Used(), size);
      data := [];
      if len > 0 {
        data := CopyOut(len);
        CyclicRead(buf[..], head, tail, len);
        head := Advance(buf.Length, head, len);
      }
    }
  }
}
