/**
 The Internet checksum over byte buffers: the server proxy's routine, the client
 proxy's routine, and the laws both must meet. Buffers are read on a little-endian
 host, so the byte at the lower address is the low half of a word.
 */
module InternetChecksum {
  import opened Base
  import opened OnesComplement

  /** The longest buffer, in bytes, whose words cannot overflow a 32-bit sum. */
  const SAFE_LENGTH := 131074

  /** The word whose lower-addressed byte is `lo`. */
  function Word(lo: Byte, hi: Byte): U16 { lo as int + 0x100 * hi as int }

  /** Sum of the little-endian words; an odd last byte counts as a low half. */
  function Sum(s: seq<Byte>): nat {
    if |s| == 0 then 0
    else if |s| == 1 then s[0]
    else Word(s[0], s[1]) + Sum(s[2..])
  }

  /** The checksum of section 1 of RFC 1071: complement of the one's complement sum. */
  function Checksum(s: seq<Byte>): U16 { Not16(Fold(Sum(s))) }

  /** A buffer that carries its own checksum verifies when its checksum is zero. */
  ghost predicate Verifies(s: seq<Byte>) { Checksum(s) == 0 }

  /** The word at byte offset `off` stored in host order. */
  function Store(s: seq<Byte>, off: nat, w: U16): (t: seq<Byte>)
    requires off + 1 < |s|
    ensures |t| == |s|
  {
    s[off := w % 0x100][off + 1 := w / 0x100]
  }

  // ---- the two implementations ----

  /** The server proxy's routine: a wide accumulator, folded until nothing is left above bit 15. */
  method ServerChecksum(buf: seq<Byte>) returns (answer: U16)
    ensures answer == Checksum(buf)
  {
    var cksum: nat := 0;
    var p := 0;
    var size := |buf|;
    while size > 1
      invariant 0 <= p && 0 <= size && p + size == |buf|
      invariant cksum + Sum(buf[p..]) == Sum(buf)
    {
      assert buf[p..][2..] == buf[p + 2..];
      cksum := cksum + Word(buf[p], buf[p + 1]);
      p := p + 2;
      size := size - 2;
    }
    if size != 0 {
      cksum := cksum + buf[p];
    }
    assert cksum == Sum(buf);
    while cksum / 0x1_0000 != 0
      invariant Fold(cksum) == Fold(Sum(buf))
      decreases cksum
    {
      assert cksum == cksum / 0x1_0000 * 0x1_0000 + cksum % 0x1_0000;
      cksum := cksum / 0x1_0000 + cksum % 0x1_0000;
    }
    answer := Not16(cksum % 0x1_0000);
  }

  /** The client proxy's routine: a 32-bit accumulator and exactly two folds. */
  method ClientChecksum(buf: seq<Byte>) returns (answer: U16)
    ensures answer == Not16(Fold(Sum(buf) % 0x1_0000_0000))
    ensures |buf| <= SAFE_LENGTH ==> answer == Checksum(buf)
  {
    hide Fold;
    var nleft := |buf|;
    var sum: nat := 0;
    var w := 0;
    ghost var carry: nat := 0;
    while nleft > 1
      invariant 0 <= w && 0 <= nleft && w + nleft == |buf|
      invariant sum < 0x1_0000_0000
      invariant sum + carry * 0x1_0000_0000 + Sum(buf[w..]) == Sum(buf)
    {
      assert buf[w..][2..] == buf[w + 2..];
      var word: nat := Word(buf[w], buf[w + 1]);
      carry := carry + if sum + word < 0x1_0000_0000 then 0 else 1;
      sum := Add32(sum, word);
      w := w + 2;
      nleft := nleft - 2;
    }
    if nleft == 1 {
      carry := carry + if sum + buf[w] < 0x1_0000_0000 then 0 else 1;
      sum := Add32(sum, buf[w]);
    }
    WrappedSum(Sum(buf), sum, carry);
    answer := TwoFolds(sum);
    SumBound(buf);
  }

  /** Addition in a 32-bit register. */
  function Add32(a: nat, b: nat): (c: nat)
    requires a < 0x1_0000_0000 && b < 0x1_0000
    ensures c == if a + b < 0x1_0000_0000 then a + b else a + b - 0x1_0000_0000
  {
    (a + b) % 0x1_0000_0000
  }

  lemma WrappedSum(total: nat, sum: nat, carry: nat)
    requires total == sum + carry * 0x1_0000_0000 && sum < 0x1_0000_0000
    ensures sum == total % 0x1_0000_0000
  {}

  /** A 32-bit number folds in two steps. */
  lemma FoldSteps(x: nat, y: nat)
    requires x < 0x1_0000_0000 && y == x / 0x1_0000 + x % 0x1_0000
    ensures y < 0x1_ffff
    ensures Fold(x) == if y < 0x1_0000 then y else y - 0xffff
  {
    assert x >= 0x1_0000 ==> Fold(x) == Fold(y);
    if y >= 0x1_0000 {
      Residue(y, 1, y - 0x1_0000, 0x1_0000);
    }
  }

  /** Two folds and a truncation reach the same word as folding to the end. */
  method TwoFolds(x: nat) returns (answer: U16)
    requires x < 0x1_0000_0000
    ensures answer == Not16(Fold(x))
  {
    hide Fold;
    var y := x / 0x1_0000 + x % 0x1_0000;
    FoldSteps(x, y);
    if y < 0x1_0000 {
      Residue(y, 0, y, 0x1_0000);
      Residue(0xffff_ffff - y, 0xffff, 0xffff - y, 0x1_0000);
    } else {
      Residue(y, 1, y - 0x1_0000, 0x1_0000);
      Residue(0xffff_ffff - (y + 1), 0xfffe, 0x1_fffe - y, 0x1_0000);
    }
    var z := y + y / 0x1_0000;
    answer := (0xffff_ffff - z) % 0x1_0000;
  }

  /** Every word is at most 65535, so 65537 of them still fit in 32 bits. */
  lemma {:induction false} SumBound(s: seq<Byte>)
    ensures Sum(s) <= (|s| + 1) / 2 * 0xffff
    ensures |s| <= SAFE_LENGTH ==> Sum(s) < 0x1_0000_0000
  {
    if |s| > 1 {
      SumBound(s[2..]);
    }
  }

  /** A buffer of `n` words and a byte, all bits set. */
  function AllOnes(n: nat): (s: seq<Byte>)
    ensures |s| == 2 * n + 1
  {
    if n == 0 then [0xff] else [0xff, 0xff] + AllOnes(n - 1)
  }

  lemma {:induction false} AllOnesSum(n: nat)
    ensures Sum(AllOnes(n)) == n * 0xffff + 0xff
  {
    if n > 0 {
      AllOnesSum(n - 1);
      assert AllOnes(n)[2..] == AllOnes(n - 1);
    }
  }

  function Zeros(n: nat): (s: seq<Byte>)
    ensures |s| == n
  {
    seq(n, _ => 0)
  }

  /** Zeros behind a buffer add nothing to its sum. */
  lemma {:induction false} ZerosSum(s: seq<Byte>, n: nat)
    ensures Sum(s + Zeros(n)) == Sum(s)
    decreases |s| + n
  {
    var t := s + Zeros(n);
    if |s| > 1 {
      ZerosSum(s[2..], n);
      assert t[2..] == s[2..] + Zeros(n);
    } else if |s| == 1 && n > 0 {
      ZerosSum([], n - 1);
      assert t[2..] == [] + Zeros(n - 1);
    } else if n > 1 {
      ZerosSum([], n - 2);
      assert t[2..] == [] + Zeros(n - 2);
    }
  }

  /** At every greater length the 32-bit sum may wrap, and the client's answer is then wrong. */
  lemma SafeLengthIsSharp(n: nat)
    requires n > SAFE_LENGTH
    ensures exists s: seq<Byte> :: |s| == n && Not16(Fold(Sum(s) % 0x1_0000_0000)) != Checksum(s)
  {
    hide Sum;
    var s := AllOnes(65537) + Zeros(n - 131075);
    AllOnesSum(65537);
    ZerosSum(AllOnes(65537), n - 131075);
    assert Sum(s) == 0x1_0000_00fe;
    assert Fold(0x1_0000_00fe) == Fold(0x1_00fe) == Fold(0xff);
    assert Fold(Sum(s)) == 0xff && Fold(Sum(s) % 0x1_0000_0000) == 0xfe;
  }

  // ---- a stored checksum verifies ----

  /** Storing a word changes the sum by the difference of the words. */
  lemma {:induction false} SumStore(s: seq<Byte>, off: nat, w: U16)
    requires off % 2 == 0 && off + 1 < |s|
    ensures Sum(Store(s, off, w)) == Sum(s) - Word(s[off], s[off + 1]) + w
  {
    var t := Store(s, off, w);
    if off == 0 {
      assert t[2..] == s[2..];
    } else {
      SumStore(s[2..], off - 2, w);
      assert t[2..] == Store(s[2..], off - 2, w);
    }
  }

  /** Zero the field, compute, store: the buffer then verifies, whatever it held. */
  lemma StoredVerifies(s: seq<Byte>, off: nat)
    requires off % 2 == 0 && off + 1 < |s|
    ensures var z := Store(s, off, 0);
            Verifies(Store(z, off, Checksum(z)))
  {
    var z := Store(s, off, 0);
    SumStore(z, off, Checksum(z));
    FoldComplement(Sum(z));
  }

  /** No other value of the field verifies, up to the two forms of zero. */
  lemma OnlyStoredVerifies(s: seq<Byte>, off: nat, w: U16)
    requires off % 2 == 0 && off + 1 < |s|
    requires Verifies(Store(s, off, w))
    ensures var c := Checksum(Store(s, off, 0));
            w == c || (c == 0 && w == 0xffff) || (c == 0xffff && w == 0)
  {
    SumStore(s, off, 0);
    SumStore(s, off, w);
    ComplementUnique(Sum(Store(s, off, 0)), w);
  }

  lemma ComplementUnique(x: nat, w: U16)
    requires Fold(x + w) == 0xffff
    ensures var c := Not16(Fold(x));
            w == c || (c == 0 && w == 0xffff) || (c == 0xffff && w == 0)
  {
    hide Fold, Mod;
    FoldMod(x);
    FoldMod(x + w);
    ModShift(Fold(x), x, w);
    TwoWords(Fold(x), w);
  }

  lemma TwoWords(f: U16, w: U16)
    requires Mod(f as int + w as int) == Mod(0xffff)
    ensures f as int + w as int in {0, 0xffff, 0x1_fffe}
  {
    var k := (f as int + w as int) / 0xffff;
    assert f as int + w as int == k * 0xffff;
  }

  // ---- byte order ----

  /** Every word of an even-length buffer with its bytes exchanged. */
  function SwapBytes(s: seq<Byte>): (t: seq<Byte>)
    requires |s| % 2 == 0
    ensures |t| == |s|
  {
    if |s| == 0 then [] else [s[1], s[0]] + SwapBytes(s[2..])
  }

  lemma {:induction false} SumSwapBytes(s: seq<Byte>)
    requires |s| % 2 == 0
    ensures Sum(SwapBytes(s)) % 0xffff == (0x100 * Sum(s)) % 0xffff
    ensures Sum(SwapBytes(s)) == 0 <==> Sum(s) == 0
  {
    if |s| > 0 {
      SumSwapBytes(s[2..]);
      var x, y := Sum(SwapBytes(s[2..])), 0x100 * Sum(s[2..]);
      assert SwapBytes(s)[2..] == SwapBytes(s[2..]);
      var k := x / 0xffff - y / 0xffff - s[1];
      assert x == x / 0xffff * 0xffff + x % 0xffff && y == y / 0xffff * 0xffff + x % 0xffff;
      assert Word(s[1], s[0]) + x == 0x100 * Word(s[0], s[1]) + y + k * 0xffff;
      Congruent(Word(s[1], s[0]) + x, 0x100 * Word(s[0], s[1]) + y, k);
    }
  }

  lemma SwapFold(x: nat, y: nat)
    requires y % 0xffff == (0x100 * x) % 0xffff && (y == 0 <==> x == 0)
    ensures Fold(y) == Swap16(Fold(x))
  {
    FoldValue(x);
    FoldValue(y);
    var f := Fold(x);
    var k := x / 0xffff - f / 0xffff;
    assert x == x / 0xffff * 0xffff + x % 0xffff && f == f / 0xffff * 0xffff + x % 0xffff;
    assert 0x100 * x == 0x100 * f + 0x100 * k * 0xffff;
    Congruent(0x100 * x, 0x100 * f, 0x100 * k);
    assert 0x100 * f == Swap16(f) + f / 0x100 * 0xffff;
    Congruent(0x100 * f, Swap16(f), f / 0x100);
    SameWord(Fold(y), Swap16(f));
  }

  lemma SwapHalves(w: U16)
    ensures Swap16(w) / 0x100 == w % 0x100 && Swap16(w) % 0x100 == w / 0x100
    ensures Swap16(Not16(w)) == Not16(Swap16(w))
  {
    var q, r := w / 0x100, w % 0x100;
    assert w == q * 0x100 + r && 0 <= q < 0x100;
    Residue(Swap16(w), r, q, 0x100);
    Residue(Not16(w), 0xff - q, 0xff - r, 0x100);
  }

  /** Byte-swapping every word byte-swaps the checksum (section 2 (B) of RFC 1071). */
  lemma ByteOrderIndependent(s: seq<Byte>)
    requires |s| % 2 == 0
    ensures Checksum(SwapBytes(s)) == Swap16(Checksum(s))
  {
    SumSwapBytes(s);
    SwapFold(Sum(s), Sum(SwapBytes(s)));
    SwapHalves(Fold(Sum(s)));
  }

  /** A big-endian host reads the swapped words and stores its result high byte first. */
  function StoreBigEndian(s: seq<Byte>, off: nat, w: U16): (t: seq<Byte>)
    requires off + 1 < |s|
    ensures |t| == |s|
  {
    s[off := w / 0x100][off + 1 := w % 0x100]
  }

  /** So both hosts put the same two bytes in the packet without converting anything. */
  lemma NativeStoreIsPortable(s: seq<Byte>, off: nat)
    requires |s| % 2 == 0 && off + 1 < |s|
    ensures Store(s, off, Checksum(s)) == StoreBigEndian(s, off, Checksum(SwapBytes(s)))
  {
    ByteOrderIndependent(s);
    SwapHalves(Checksum(s));
  }

  // ---- the checksum in network order ----

  /** Sum of the words in network order, an odd last byte being a high half (RFC 768 and RFC 1071). */
  function BigSum(s: seq<Byte>): nat {
    if |s| == 0 then 0
    else if |s| == 1 then 0x100 * s[0] as int
    else 0x100 * s[0] as int + s[1] as int + BigSum(s[2..])
  }

  lemma {:induction false} BigSumIs(s: seq<Byte>)
    ensures BigSum(s) % 0xffff == (0x100 * Sum(s)) % 0xffff
    ensures BigSum(s) == 0 <==> Sum(s) == 0
  {
    if |s| > 1 {
      BigSumIs(s[2..]);
      var x, y := BigSum(s[2..]), 0x100 * Sum(s[2..]);
      var k := x / 0xffff - y / 0xffff - s[1];
      assert x == x / 0xffff * 0xffff + x % 0xffff && y == y / 0xffff * 0xffff + x % 0xffff;
      assert Word(s[1], s[0]) + x == 0x100 * Word(s[0], s[1]) + y + k * 0xffff;
      Congruent(Word(s[1], s[0]) + x, 0x100 * Word(s[0], s[1]) + y, k);
    }
  }

  /** On a buffer of any length the routines' answer is, byte-swapped, that of the words in network order. */
  lemma BigEndianChecksum(s: seq<Byte>)
    ensures Swap16(Checksum(s)) == 0xffff - Fold(BigSum(s))
    ensures Verifies(s) <==> Fold(BigSum(s)) == 0xffff
  {
    BigSumIs(s);
    SwapFold(Sum(s), BigSum(s));
    SwapHalves(Fold(Sum(s)));
    SwapHalves(Checksum(s));
  }

  /** The words of the buffer from `k` on. */
  lemma BigSumFrom(s: seq<Byte>, k: nat)
    requires k + 1 < |s|
    ensures BigSum(s[k..]) == 0x100 * s[k] as int + s[k + 1] as int + BigSum(s[k + 2..])
  {
    assert s[k..][2..] == s[k + 2..];
  }

  /** The example of section 3 of RFC 1071. */
  lemma KnownSum()
    ensures Fold(BigSum([0x00, 0x01, 0xf2, 0x03, 0xf4, 0xf5, 0xf6, 0xf7])) == 0xddf2
  {
    hide Fold, BigSum;
    var s: seq<Byte> := [0x00, 0x01, 0xf2, 0x03, 0xf4, 0xf5, 0xf6, 0xf7];
    BigSumFrom(s, 0);
    BigSumFrom(s, 2);
    BigSumFrom(s, 4);
    BigSumFrom(s, 6);
    BigSumNone();
    assert s[0..] == s && s[8..] == [];
    FoldOnce(0x2_ddf0, 0xddf2);
  }

  lemma BigSumNone()
    ensures BigSum([]) == 0
  {}

  lemma FoldOnce(x: nat, f: U16)
    requires x >= 0x1_0000 && x / 0x1_0000 + x % 0x1_0000 == f
    ensures Fold(x) == f
  {}
}
