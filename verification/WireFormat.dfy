/**
 One packet in both of its forms: as the bytes the userland proxy reads and as the fields
 the kernel hooks work on. The checksums of the two mean the same.
 */
module WireFormat {
  import opened Base
  import opened OnesComplement
  import opened InternetChecksum
  import opened Datagram
  import opened PacketRewrite

  /** The words of a text in network order, an odd last byte being a high half. */
  function Words(s: seq<Byte>): seq<U16> {
    if |s| == 0 then []
    else if |s| == 1 then [0x100 * s[0] as int]
    else [0x100 * s[0] as int + s[1] as int] + Words(s[2..])
  }

  lemma {:induction false} WordsAddUp(s: seq<Byte>)
    ensures SumWords(Words(s)) == BigSum(s)
  {
    if |s| > 1 {
      WordsAddUp(s[2..]);
    }
  }

  /** The address at `off`, most significant byte first. */
  function Address(b: seq<Byte>, off: nat): Ip
    requires off + 3 < |b|
  {
    0x1_0000 * Field16(b, off) as int + Field16(b, off + 2) as int
  }

  lemma AddressHalves(b: seq<Byte>, off: nat)
    requires off + 3 < |b|
    ensures AddressSum(Address(b, off)) == Field16(b, off) as int + Field16(b, off + 2) as int
  {
    Residue(Address(b, off), Field16(b, off), Field16(b, off + 2), 0x1_0000);
  }

  function DecodeHeader(b: seq<Byte>): IpHeader
    requires HasHeader(b)
  {
    IpHeader(b[0], b[1], Field16(b, 2), Field16(b, 4), Field16(b, 6), b[8], b[9], Field16(b, 10),
             Address(b, 12), Address(b, 16), Words(b[20..4 * (b[0] % 0x10)]))
  }

  /** The packet that the bytes are. */
  function Decode(b: seq<Byte>): (p: Packet)
    requires HasUdp(b) && UdpLength(b) >= 8
    ensures p.udp.Some?
  {
    var h: nat := 4 * (b[0] % 0x10);
    var u := UdpHeader(Field16(b, h), Field16(b, h + 2), Field16(b, h + 4), Field16(b, h + 6));
    Packet(DecodeHeader(b), Some(u), Words(b[h + 8..h + u.length]))
  }

  /** The ten words every header has, and its options. */
  lemma HeaderWords(b: seq<Byte>, h: nat)
    requires 20 <= h <= |b|
    ensures BigSum(b[..h]) == Field16(b, 0) as int + Field16(b, 2) as int + Field16(b, 4) as int + Field16(b, 6) as int
                              + Field16(b, 8) as int + Field16(b, 10) as int + Field16(b, 12) as int
                              + Field16(b, 14) as int + Field16(b, 16) as int + Field16(b, 18) as int + BigSum(b[20..h])
  {
    hide BigSum;
    var s := b[..h];
    BigSumPseudo(b[..12], b[12..h]);
    assert b[..12] + b[12..h] == s;
    BigSumFrom(s, 12);
    BigSumFrom(s, 14);
    BigSumFrom(s, 16);
    BigSumFrom(s, 18);
    assert s[12..] == b[12..h] && s[20..] == b[20..h];
  }

  /** The words of the bytes are those the header's fields add up to. */
  lemma HeaderSum(b: seq<Byte>)
    requires HasHeader(b)
    ensures var p := DecodeHeader(b);
            BigSum(b[..HeaderLength(b)]) == RestOfHeader(p) + AddressSum(p.dest) + p.check as int
  {
    hide BigSum, AddressSum, SumWords;
    HeaderWords(b, HeaderLength(b));
    AddressHalves(b, 12);
    AddressHalves(b, 16);
    WordsAddUp(b[20..HeaderLength(b)]);
  }

  /** A word completes a nonzero sum to all ones exactly when it is the complement or the second form of zero. */
  lemma Completes(x: nat, w: U16)
    requires x > 0
    ensures Fold(x + w) == 0xffff && w != 0xffff <==> w == Not16(Fold(x))
  {
    hide Fold, Mod;
    FoldMod(x);
    FoldComplement(x);
    if Fold(x + w) == 0xffff {
      ComplementUnique(x, w);
    }
  }

  /**
   The kernel hooks' header checksum and the proxy's are one: a header is good exactly when
   its bytes verify, but for the second form of zero, which verifies and is never computed.
   */
  lemma GoodHeaderVerifies(b: seq<Byte>)
    requires HasHeader(b)
    ensures GoodHeader(DecodeHeader(b)) <==> Verifies(b[..4 * (b[0] % 0x10)]) && Field16(b, 10) != 0xffff
  {
    hide Fold, Verifies, AddressSum, SumWords;
    var p := DecodeHeader(b);
    HeaderSum(b);
    BigEndianChecksum(b[..HeaderLength(b)]);
    assert p.version != 0 by {
      assert b[0] != 0;
    }
    Completes(RestOfHeader(p) + AddressSum(p.dest), p.check);
  }

  lemma UdpHeaderWords(s: seq<Byte>)
    requires |s| >= 8
    ensures BigSum(s) == Field16(s, 0) as int + Field16(s, 2) as int + Field16(s, 4) as int + Field16(s, 6) as int
                         + BigSum(s[8..])
  {
    hide BigSum;
    BigSumFrom(s, 0);
    BigSumFrom(s, 2);
    BigSumFrom(s, 4);
    BigSumFrom(s, 6);
    assert s[0..] == s;
  }

  /** The words the proxy's UDP checksum covers are those the datagram's fields add up to. */
  lemma UdpSum(b: seq<Byte>)
    requires HasUdp(b) && UdpLength(b) >= 8
    ensures var p := Decode(b);
            UdpWords(b) == RestOfUdp(p, p.udp.value) + AddressSum(p.ip.dest) + p.udp.value.check as int
  {
    hide BigSum, AddressSum, SumWords;
    var h, len: nat := HeaderLength(b), UdpLength(b);
    var s := b[h..h + len];
    AddressHalves(b, 12);
    AddressHalves(b, 16);
    UdpHeaderWords(s);
    assert s[8..] == b[h + 8..h + len];
    WordsAddUp(b[h + 8..h + len]);
  }

  /** A datagram with a checksum is good exactly when what the proxy sums up verifies. */
  lemma GoodUdpVerifies(b: seq<Byte>)
    requires HasUdp(b) && UdpLength(b) >= 8
    ensures GoodUdp(Decode(b)) <==> Decode(b).udp.value.check == 0 || Verifies(UdpCovered(b))
  {
    hide Fold, Verifies, UdpWords, UdpCovered, RestOfUdp, AddressSum;
    UdpSum(b);
    UdpCoversIs(b);
  }

  /** The proxy never stores the second form of zero in a header. */
  lemma StoresFirstZero(b: seq<Byte>, dest: Ip)
    requires HasHeader(b)
    ensures Field16(RewriteIp(b, dest), 10) != 0xffff
  {
    hide Fold, BigSum, Sum, Verifies;
    var z := PrepareIp(b, dest);
    var s := z[..HeaderLength(b)];
    SumPositive(s);
    BigSumIs(s);
    FoldMod(Sum(s));
  }

  lemma SumPositive(s: seq<Byte>)
    requires |s| >= 2 && s[0] != 0
    ensures BigSum(s) > 0
  {}

  /**
   So what the proxy sends to a member is a good packet in the kernel's sense as well:
   addressed to the member, TTL 127, the member's port, and the payload as it was.
   */
  lemma RewriteIsGood(b: seq<Byte>, dest: Ip, port: U16)
    requires HasUdp(b) && UdpLength(b) >= 8
    ensures var p, q := Decode(b), Decode(Rewrite(b, dest, port));
            && q == p.(ip := p.ip.(ttl := 127, check := q.ip.check, dest := q.ip.dest),
                       udp := Some(p.udp.value.(dport := port, check := q.udp.value.check)))
            && GoodUdp(q) && GoodHeader(q.ip)
  {
    hide Rewrite, Verifies, UdpCovered, GoodUdp, GoodHeader, Fold, BigSum, UdpWords, Words;
    var t := Rewrite(b, dest, port);
    RewriteReaddresses(b, dest, port);
    var h: nat := 4 * (b[0] % 0x10);
    assert t[20..h] == b[20..h];
    assert t[h + 8..h + UdpLength(b)] == b[h + 8..h + UdpLength(b)];
    BigEndianChecksum(t[..h]);
    UdpCoversIs(t);
    GoodHeaderVerifies(t);
    GoodUdpVerifies(t);
    RewriteCheck(b, dest, port);
  }

  lemma RewriteCheck(b: seq<Byte>, dest: Ip, port: U16)
    requires HasUdp(b)
    ensures Field16(Rewrite(b, dest, port), 10) != 0xffff
  {
    hide RewriteIp, RewriteUdp, UdpWords, Fold;
    var r := RewriteIp(b, dest);
    StoresFirstZero(b, dest);
    RewriteUdpVerifies(r, port);
  }
}
