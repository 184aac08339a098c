/** The Internet checksum in the three forms the stacks use. */
module Checksum {
  type u8 = x: int | 0 <= x < 0x100
  type u16 = x: int | 0 <= x < 0x1_0000
  type u32 = x: int | 0 <= x < 0x1_0000_0000

  function Word(lo: u8, hi: u8): u16 {
    lo as int + 256 * (hi as int)
  }

  /** 16-bit words as a little-endian host reads them; an odd last byte is left out. */
  function Words(bytes: seq<u8>): seq<u16> {
    if |bytes| < 2 then [] else [Word(bytes[0], bytes[1])] + Words(bytes[2..])
  }

  function Sum(words: seq<u16>): nat {
    if words == [] then 0 else Sum(words[..|words| - 1]) + words[|words| - 1]
  }

  function OddByte(bytes: seq<u8>): u8 {
    if |bytes| % 2 == 1 then bytes[|bytes| - 1] else 0
  }

  /** What is to be folded: the initial sum, all words, and an odd last byte. */
  function Total(bytes: seq<u8>, initial: u32): nat {
    initial + Sum(Words(bytes)) + OddByte(bytes)
  }

  /** The 16-bit ones' complement value of a sum: its residue modulo 65535, zero only for zero. */
  function OnesSum(n: nat): u16 {
    if n == 0 then 0 else if n % 65535 == 0 then 65535 else n % 65535
  }

  function Complement(w: u16): u16 {
    65535 - w
  }

  function FoldOnce(n: nat): nat {
    n / 0x1_0000 + n % 0x1_0000
  }

  lemma FoldKeepsValue(n: nat)
    ensures OnesSum(FoldOnce(n)) == OnesSum(n)
    ensures 0x1_0000 <= n ==> FoldOnce(n) < n
    ensures n < 0x1_0000 ==> FoldOnce(n) == n && OnesSum(n) == n
  {
    var q, r := n / 0x1_0000, n % 0x1_0000;
    assert n == 65535 * q + (q + r);
    ModShift(q + r, q);
  }

  lemma ModShift(x: nat, k: int)
    requires x + 65535 * k >= 0
    ensures (x + 65535 * k) % 65535 == x % 65535
  {
  }

  /** Two folds suffice for a 32-bit sum, the carry of the second being dropped by the cast. */
  lemma TwoFolds(n: u32)
    ensures var s := FoldOnce(n); (s + s / 0x1_0000) % 0x1_0000 == OnesSum(n)
  {
    var s := FoldOnce(n);
    FoldKeepsValue(n);
    if s < 0x1_0000 {
      FoldKeepsValue(s);
    } else {
      assert s / 0x1_0000 == 1;
      assert (s + 1) % 0x1_0000 == s - 65535;
      ModShift(s - 65535, 1);
    }
  }

  lemma {:induction false} WordsPrefix(bytes: seq<u8>, i: nat)
    requires 2 * i + 2 <= |bytes|
    ensures |Words(bytes)| == |bytes| / 2
    ensures i < |Words(bytes)| && Words(bytes)[i] == Word(bytes[2 * i], bytes[2 * i + 1])
  {
    if i > 0 {
      WordsPrefix(bytes[2..], i - 1);
    } else if |bytes| >= 4 {
      WordsPrefix(bytes[2..], 0);
    }
  }

  lemma WordCount(bytes: seq<u8>)
    ensures |Words(bytes)| == |bytes| / 2
  {
    if |bytes| >= 2 {
      WordsPrefix(bytes, 0);
    }
  }

  lemma {:induction false} SumPrefix(words: seq<u16>, i: nat)
    requires i <= |words|
    ensures Sum(words[..i]) <= Sum(words)
    decreases |words| - i
  {
    if i == |words| {
      assert words[..i] == words;
    } else {
      SumPrefix(words, i + 1);
      assert words[..i + 1][..i] == words[..i];
    }
  }

  /** Adds up the words from the front, in 32 bits. */
  method AddWords(bytes: seq<u8>, initial: u32) returns (sum: u32)
    requires initial + Sum(Words(bytes)) < 0x1_0000_0000
    ensures sum == initial + Sum(Words(bytes))
  {
    sum := initial;
    ghost var words := Words(bytes);
    WordCount(bytes);
    for i := 0 to |bytes| / 2
      invariant sum == initial + Sum(words[..i])
    {
      WordsPrefix(bytes, i);
      assert words[..i + 1][..i] == words[..i];
      SumPrefix(words, i + 1);
      sum := (sum + Word(bytes[2 * i], bytes[2 * i + 1])) % 0x1_0000_0000;
    }
    assert words[..|words|] == words;
  }

  method FoldLoop(total: u32) returns (sum: u16)
    ensures sum == OnesSum(total)
  {
    var acc: nat := total;
    while acc / 0x1_0000 != 0
      invariant OnesSum(acc) == OnesSum(total)
      decreases acc
    {
      FoldKeepsValue(acc);
      acc := acc / 0x1_0000 + acc % 0x1_0000;
    }
    FoldKeepsValue(acc);
    sum := acc;
  }

  /** The second step leaves a carry in place, for the cast to 16 bits to drop. */
  method FoldTwice(total: u32) returns (sum: nat)
    ensures sum % 0x1_0000 == OnesSum(total)
  {
    TwoFolds(total);
    sum := total / 0x1_0000 + total % 0x1_0000;
    sum := sum + sum / 0x1_0000;
  }

  /** code-exp2: an odd byte is added before folding, and folding repeats until nothing carries. */
  method ChecksumLoop(bytes: seq<u8>, initial: u32) returns (c: u16)
    requires Total(bytes, initial) < 0x1_0000_0000
    ensures c == Complement(OnesSum(Total(bytes, initial)))
  {
    var sum: int := AddWords(bytes, initial);
    if |bytes| % 2 == 1 {
      sum := (sum + bytes[|bytes| - 1]) % 0x1_0000_0000;
    }
    var folded := FoldLoop(sum);
    c := 65535 - folded;
  }

  /** code-exp5: an odd byte is added first, and folding takes two steps. */
  method ChecksumTwoStep(bytes: seq<u8>, initial: u32) returns (c: u16)
    requires Total(bytes, initial) < 0x1_0000_0000
    ensures c == Complement(OnesSum(Total(bytes, initial)))
  {
    var sum: int := initial;
    var nbytes := |bytes|;
    if nbytes % 2 == 1 {
      nbytes := nbytes - 1;
      sum := (sum + bytes[nbytes]) % 0x1_0000_0000;
    }
    sum := AddWords(bytes, sum);
    var folded := FoldTwice(sum);
    c := 65535 - folded % 0x1_0000;
  }

  lemma DropCarries(a: nat, b: nat)
    ensures (a + b) % 0x1_0000 == (a % 0x1_0000 + b) % 0x1_0000
  {
  }

  /** code-exp7: an odd byte is added after folding, and its carry is lost. */
  method ChecksumLate(bytes: seq<u8>, initial: u32) returns (c: u16)
    requires Total(bytes, initial) < 0x1_0000_0000
    ensures c == Complement((OnesSum(initial + Sum(Words(bytes))) + OddByte(bytes)) % 0x1_0000)
    ensures |bytes| % 2 == 0 ==> c == Complement(OnesSum(Total(bytes, initial)))
  {
    var sum: int := AddWords(bytes, initial);
    var folded: int := FoldTwice(sum);
    DropCarries(folded, OddByte(bytes));
    if |bytes| % 2 == 1 {
      folded := folded + bytes[|bytes| - 1];
    }
    c := 65535 - folded % 0x1_0000;
  }

  /** Dropping a carry instead of adding it back changes the value. */
  lemma CarryMatters(t: nat)
    requires t < 0x1_0000 + 0x100
    ensures t % 0x1_0000 == OnesSum(t) <==> t < 0x1_0000
  {
    if 0x1_0000 <= t {
      ModShift(t - 65535, 1);
    }
  }

  /** The late form is the Internet checksum of an odd-length message exactly when the odd byte causes no carry. */
  lemma LateAgreesWithoutCarry(bytes: seq<u8>, initial: u32)
    ensures var folded := OnesSum(initial + Sum(Words(bytes)));
      Complement((folded + OddByte(bytes)) % 0x1_0000) == Complement(OnesSum(Total(bytes, initial)))
      <==> folded + OddByte(bytes) < 0x1_0000
  {
    var n: int, b: int := initial + Sum(Words(bytes)), OddByte(bytes);
    OnesSumAdds(n, b);
    CarryMatters(OnesSum(n) + b);
  }

  /** Three bytes on which the late form is wrong. */
  lemma LateLosesCarry()
    ensures var bytes: seq<u8> := [0xFF, 0xFF, 1];
      Complement((OnesSum(Sum(Words(bytes))) + OddByte(bytes)) % 0x1_0000) == 0xFFFF
      && Complement(OnesSum(Total(bytes, 0))) == 0xFFFE
  {
    var bytes: seq<u8> := [0xFF, 0xFF, 1];
    assert bytes[2..] == [1];
    assert Words(bytes) == [0xFFFF];
    assert Sum([0xFFFF]) == Sum([]) + 0xFFFF;
  }

  /** Folding part of a sum early does not change its value. */
  lemma OnesSumAdds(n: nat, b: nat)
    ensures OnesSum(OnesSum(n) + b) == OnesSum(n + b)
  {
    var k := n / 65535;
    assert n == 65535 * k + n % 65535;
    if n != 0 {
      if n % 65535 == 0 {
        ModShift(65535 + b, k - 1);
      } else {
        ModShift(n % 65535 + b, k);
      }
    }
  }

  // ---------- verification by the receiver ----------

  lemma {:induction false} SumUpdate(words: seq<u16>, k: nat, w: u16)
    requires k < |words|
    ensures Sum(words[k := w]) == Sum(words) - words[k] + w
  {
    var n := |words| - 1;
    if k == n {
      assert words[k := w][..n] == words[..n];
    } else {
      SumUpdate(words[..n], k, w);
      assert words[k := w][..n] == words[..n][k := w];
    }
  }

  /** A message with its checksum filled in, where there was zero, sums to 0xffff: its checksum is zero. */
  lemma ReceiverAccepts(words: seq<u16>, k: nat, initial: u32)
    requires k < |words| && words[k] == 0
    ensures var c := Complement(OnesSum(initial + Sum(words)));
      OnesSum(initial + Sum(words[k := c])) == 65535
  {
    var n := initial + Sum(words);
    var c := Complement(OnesSum(n));
    SumUpdate(words, k, c);
    var q := n / 65535;
    assert n == 65535 * q + n % 65535;
    if n % 65535 == 0 {
      assert n + c == 65535 * q || n + c == 65535 * (q + 1);
    } else {
      assert n + c == 65535 * (q + 1);
    }
    if n + c == 65535 * q {
      ModShift(0, q);
    } else {
      ModShift(0, q + 1);
    }
  }

  /** No other word in that place would do, but for the two forms of zero. */
  lemma ChecksumIsUnique(words: seq<u16>, k: nat, initial: u32, c: u16, d: u16)
    requires k < |words|
    requires OnesSum(initial + Sum(words[k := c])) == 65535 && OnesSum(initial + Sum(words[k := d])) == 65535
    ensures c == d || (c % 65535 == 0 && d % 65535 == 0)
  {
    SumUpdate(words, k, c);
    SumUpdate(words, k, d);
    var n := initial + Sum(words) - words[k];
    assert (n + c) % 65535 == 0 && (n + d) % 65535 == 0;
    var a, b := (n + c) / 65535, (n + d) / 65535;
    assert c - d == 65535 * (a - b);
  }

  // ---------- the TCP pseudo header ----------

  /** The addresses as 32-bit numbers, the protocol and the length, before any truncation. */
  function PseudoSum(saddr: u32, daddr: u32, proto: u16, len: u16): nat {
    saddr as int + daddr as int + proto as int + len as int
  }

  /**
   tcp_checksum adds these up in 32 bits and starts from there. That is the pseudo header's value
   exactly when the addition does not overflow; otherwise a carry is lost.
   */
  lemma PseudoHeaderCarry(saddr: u32, daddr: u32, proto: u16, len: u16)
    ensures var n := PseudoSum(saddr, daddr, proto, len);
      OnesSum(n % 0x1_0000_0000) == OnesSum(n) <==> n < 0x1_0000_0000
  {
    var n := PseudoSum(saddr, daddr, proto, len);
    var k, m := n / 0x1_0000_0000, n % 0x1_0000_0000;
    assert n == m + k + 65535 * (65537 * k);
    ModShift(m + k, 65537 * k);
  }

  /** Two addresses whose sum overflows. */
  lemma PseudoHeaderLosesCarry()
    ensures var n := PseudoSum(0x8000_0000, 0x8000_0000, 6, 20);
      OnesSum(n % 0x1_0000_0000) == 26 && OnesSum(n) == 27
  {
    ModShift(27, 65537);
  }

  // ---------- byte order ----------

  function Swapped(w: u16): u16 {
    (w % 256) * 256 + w / 256
  }

  function AllSwapped(words: seq<u16>): seq<u16> {
    seq(|words|, i requires 0 <= i < |words| => Swapped(words[i]))
  }

  /** Swapping a word's bytes is multiplication by 256 modulo 65535. */
  lemma SwapIsTimes256(w: u16)
    ensures 256 * w == Swapped(w) + 65535 * (w / 256)
  {
  }

  lemma {:induction false} SumSwapped(words: seq<u16>) returns (k: nat)
    ensures 256 * Sum(words) == Sum(AllSwapped(words)) + 65535 * k
    ensures Sum(AllSwapped(words)) == 0 <==> Sum(words) == 0
  {
    if words == [] {
      k := 0;
    } else {
      var n := |words| - 1;
      var j := SumSwapped(words[..n]);
      assert AllSwapped(words)[..n] == AllSwapped(words[..n]);
      SwapIsTimes256(words[n]);
      k := j + words[n] / 256;
    }
  }

  lemma SwapResidue(n: nat, m: nat, k: nat)
    requires 256 * n == m + 65535 * k && (m == 0 <==> n == 0)
    ensures OnesSum(m) == Swapped(OnesSum(n))
  {
    if n != 0 {
      var r := OnesSum(n);
      var q := (n - r) / 65535;
      assert n - r == 65535 * q by {
        assert n == 65535 * (n / 65535) + n % 65535;
      }
      SwapIsTimes256(r);
      var t := Swapped(r);
      var d := 256 * q + r / 256 - k;
      assert m == t + 65535 * d;
      ModShift(t, d);
      assert 1 <= t <= 65535;
      assert OnesSum(t) == t;
    }
  }

  lemma SwapComplement(w: u16)
    ensures Swapped(Complement(w)) == Complement(Swapped(w))
  {
    var h, l := w / 256, w % 256;
    assert Complement(w) == 256 * (255 - h) + (255 - l);
    assert Complement(w) / 256 == 255 - h && Complement(w) % 256 == 255 - l;
  }

  /** The checksum of byte-swapped words is the byte-swapped checksum: hosts of either byte order agree. */
  lemma ByteOrderIndependence(words: seq<u16>)
    ensures Complement(OnesSum(Sum(AllSwapped(words)))) == Swapped(Complement(OnesSum(Sum(words))))
  {
    var k := SumSwapped(words);
    SwapResidue(Sum(words), Sum(AllSwapped(words)), k);
    SwapComplement(OnesSum(Sum(words)));
  }

  /** The sum of RFC 1071: words with the first byte in front, an odd last byte followed by a zero. */
  ghost function NetworkSum(bytes: seq<u8>): nat {
    if |bytes| == 0 then 0
    else if |bytes| == 1 then 256 * bytes[0]
    else 256 * bytes[0] + bytes[1] + NetworkSum(bytes[2..])
  }

  lemma {:induction false} SumCons(w: u16, rest: seq<u16>)
    ensures Sum([w] + rest) == w + Sum(rest)
  {
    var all := [w] + rest;
    if rest == [] {
      assert all[..0] == [];
    } else {
      SumCons(w, rest[..|rest| - 1]);
      assert all[..|all| - 1] == [w] + rest[..|rest| - 1];
    }
  }

  lemma TotalStep(bytes: seq<u8>)
    requires |bytes| >= 2
    ensures Total(bytes, 0) == Word(bytes[0], bytes[1]) + Total(bytes[2..], 0)
  {
    SumCons(Word(bytes[0], bytes[1]), Words(bytes[2..]));
    assert OddByte(bytes[2..]) == OddByte(bytes);
  }

  lemma OneWord(b0: u8, b1: u8, n: nat, t: nat, j: nat)
    requires 256 * n == t + 65535 * j
    ensures 256 * (256 * b0 + b1 + n) == Word(b0, b1) + t + 65535 * (j + b0)
  {
  }

  /** Modulo 65535 the host's sum is the network's times 256. */
  lemma {:induction false} HostSumIsTimes256(bytes: seq<u8>) returns (k: nat)
    ensures 256 * NetworkSum(bytes) == Total(bytes, 0) + 65535 * k
    ensures Total(bytes, 0) == 0 <==> NetworkSum(bytes) == 0
    decreases |bytes|
  {
    if |bytes| == 0 {
      k := 0;
    } else if |bytes| == 1 {
      k := bytes[0];
    } else {
      var j := HostSumIsTimes256(bytes[2..]);
      TotalStep(bytes);
      OneWord(bytes[0], bytes[1], NetworkSum(bytes[2..]), Total(bytes[2..], 0), j);
      k := j + bytes[0];
    }
  }

  /**
   Computed on a little-endian host and stored by it, the value is the Internet checksum of RFC 1071 in
   network byte order, for messages of even and odd length.
   */
  lemma NetworkOrder(bytes: seq<u8>)
    ensures Complement(OnesSum(Total(bytes, 0))) == Swapped(Complement(OnesSum(NetworkSum(bytes))))
  {
    var k := HostSumIsTimes256(bytes);
    SwapResidue(NetworkSum(bytes), Total(bytes, 0), k);
    SwapComplement(OnesSum(NetworkSum(bytes)));
  }
}
