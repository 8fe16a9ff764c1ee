/**
 A received IPv4 packet as bytes, and what the userland server makes of it for one
 member: new destination, TTL 127, new UDP port, both checksums recomputed.
 */
module Datagram {
  import opened Base
  import opened OnesComplement
  import opened InternetChecksum

  const TTL := 8
  const PROTOCOL := 9
  const IP_CHECKSUM := 10
  const IP_SOURCE := 12
  const IP_DEST := 16
  const IPPROTO_VRRF := 112

  /** The 16-bit network-order field at `off`. */
  function Field16(b: seq<Byte>, off: nat): U16
    requires off + 1 < |b|
  {
    0x100 * b[off] as int + b[off + 1] as int
  }

  /** The four bytes at `off` as a little-endian host loads them. */
  function Load32(b: seq<Byte>, off: nat): Ip
    requires off + 3 < |b|
  {
    b[off] as int + 0x100 * b[off + 1] as int + 0x1_0000 * b[off + 2] as int + 0x100_0000 * b[off + 3] as int
  }

  function Store32(b: seq<Byte>, off: nat, a: Ip): (t: seq<Byte>)
    requires off + 3 < |b|
    ensures |t| == |b|
    ensures Load32(t, off) == a
    ensures forall i | 0 <= i < |b| && !(off <= i < off + 4) :: t[i] == b[i]
  {
    var a1 := a / 0x100;
    var a2 := a1 / 0x100;
    b[off := a % 0x100][off + 1 := a1 % 0x100][off + 2 := a2 % 0x100][off + 3 := a2 / 0x100]
  }

  /** Header length in bytes, from the low half of the first byte. */
  function HeaderLength(b: seq<Byte>): nat
    requires |b| > 0
  {
    4 * (b[0] % 0x10)
  }

  /** A header of at least 20 bytes that lies inside the buffer. */
  ghost predicate HasHeader(b: seq<Byte>) {
    |b| > 0 && 20 <= HeaderLength(b) <= |b| && Field16(b, 2) <= |b|
  }

  function UdpLength(b: seq<Byte>): U16
    requires |b| > 0 && HeaderLength(b) + 8 <= |b|
  {
    Field16(b, HeaderLength(b) + 4)
  }

  /** A header followed by a UDP header and the number of UDP bytes it announces. */
  ghost predicate HasUdp(b: seq<Byte>) {
    HasHeader(b) && HeaderLength(b) + 8 <= |b| && HeaderLength(b) + UdpLength(b) <= |b|
  }

  /** The pseudo header of RFC 768 for UDP bytes of length `len`. */
  function Pseudo(b: seq<Byte>, len: U16): (p: seq<Byte>)
    requires |b| >= 20
    ensures |p| == 12
  {
    b[IP_SOURCE..20] + [0, IPPROTO_UDP, len / 0x100, len % 0x100]
  }

  /** What the UDP checksum covers. */
  function UdpCovered(b: seq<Byte>): seq<Byte>
    requires HasUdp(b)
  {
    var h := HeaderLength(b);
    Pseudo(b, UdpLength(b)) + b[h..h + UdpLength(b)]
  }

  // ---- the rewrite of one packet for one member ----

  function PrepareIp(b: seq<Byte>, dest: Ip): (t: seq<Byte>)
    requires HasHeader(b)
    ensures |t| == |b| && HasHeader(t) && HeaderLength(t) == HeaderLength(b)
    ensures HasUdp(b) ==> HasUdp(t) && UdpLength(t) == UdpLength(b)
  {
    Store(Store32(b, IP_DEST, dest), IP_CHECKSUM, 0)[TTL := 127]
  }

  function RewriteIp(b: seq<Byte>, dest: Ip): (t: seq<Byte>)
    requires HasHeader(b)
    ensures |t| == |b| && HasHeader(t) && HeaderLength(t) == HeaderLength(b)
    ensures HasUdp(b) ==> HasUdp(t) && UdpLength(t) == UdpLength(b)
  {
    var z := PrepareIp(b, dest);
    Store(z, IP_CHECKSUM, Checksum(z[..HeaderLength(b)]))
  }

  function PrepareUdp(b: seq<Byte>, port: U16): (t: seq<Byte>)
    requires HasUdp(b)
    ensures |t| == |b| && HasUdp(t) && HeaderLength(t) == HeaderLength(b) && UdpLength(t) == UdpLength(b)
  {
    var h := HeaderLength(b);
    Store(StoreBigEndian(b, h + 2, port), h + 6, 0)
  }

  /** Storing the UDP checksum changes no length. */
  lemma StoreKeepsUdp(b: seq<Byte>, w: U16)
    requires HasUdp(b)
    ensures var t := Store(b, HeaderLength(b) + 6, w);
            HasUdp(t) && HeaderLength(t) == HeaderLength(b) && UdpLength(t) == UdpLength(b)
  {}

  function RewriteUdp(b: seq<Byte>, port: U16): (t: seq<Byte>)
    requires HasUdp(b)
    ensures |t| == |b| && HasUdp(t) && HeaderLength(t) == HeaderLength(b) && UdpLength(t) == UdpLength(b)
  {
    var z := PrepareUdp(b, port);
    StoreKeepsUdp(z, Checksum(UdpCovered(z)));
    Store(z, HeaderLength(b) + 6, Checksum(UdpCovered(z)))
  }

  function Rewrite(b: seq<Byte>, dest: Ip, port: U16): (t: seq<Byte>)
    requires HasUdp(b)
    ensures |t| == |b| && HasUdp(t) && HeaderLength(t) == HeaderLength(b)
  {
    RewriteUdp(RewriteIp(b, dest), port)
  }

  // ---- what the UDP checksum covers ----

  /** Twelve bytes before a text, word by word. */
  lemma BigSumPseudo(p: seq<Byte>, u: seq<Byte>)
    requires |p| == 12
    ensures BigSum(p + u) == Field16(p, 0) as int + Field16(p, 2) as int + Field16(p, 4) as int + Field16(p, 6) as int
                             + Field16(p, 8) as int + Field16(p, 10) as int + BigSum(u)
  {
    hide BigSum;
    var s := p + u;
    BigSumFrom(s, 0);
    BigSumFrom(s, 2);
    BigSumFrom(s, 4);
    BigSumFrom(s, 6);
    BigSumFrom(s, 8);
    BigSumFrom(s, 10);
    assert s[0..] == s && s[12..] == u;
  }

  /**
   The covered bytes verify exactly when the sum of RFC 768 is all ones: both addresses,
   protocol 17, the UDP length, and the UDP header and data, as words in network order.
   */
  lemma UdpCoversIs(b: seq<Byte>)
    requires HasUdp(b)
    ensures var h: nat := 4 * (b[0] % 0x10);
            var len: nat := Field16(b, h + 4);
            BigSum(UdpCovered(b)) ==
            Field16(b, 12) as int + Field16(b, 14) as int + Field16(b, 16) as int + Field16(b, 18) as int
            + 17 + len + BigSum(b[h..h + len])
    ensures Verifies(UdpCovered(b)) <==> Fold(UdpWords(b)) == 0xffff
    ensures Swap16(Checksum(UdpCovered(b))) == 0xffff - Fold(UdpWords(b))
  {
    hide BigSum, Fold, Verifies, Checksum;
    var h, len: nat := HeaderLength(b), UdpLength(b);
    var p := Pseudo(b, len);
    BigSumPseudo(p, b[h..h + len]);
    assert 0x100 * (len / 0x100) + len % 0x100 == len;
    BigEndianChecksum(UdpCovered(b));
  }

  /** The sum of RFC 768 over a datagram's own fields. */
  function UdpWords(b: seq<Byte>): nat
    requires HasUdp(b)
  {
    var h: nat := 4 * (b[0] % 0x10);
    var len: nat := Field16(b, h + 4);
    Field16(b, 12) as int + Field16(b, 14) as int + Field16(b, 16) as int + Field16(b, 18) as int
    + 17 + len + BigSum(b[h..h + len])
  }

  // ---- what a receiver may rely on ----

  /** `out` is `b` readdressed to `dest`, with a header whose words add up to all ones. */
  ghost predicate ReaddressedIp(b: seq<Byte>, out: seq<Byte>, dest: Ip)
    requires HasHeader(b)
  {
    && |out| == |b| && HasHeader(out) && out[0] == b[0] && out[8] == 127
    && dest == out[16] as int + 0x100 * out[17] as int + 0x1_0000 * out[18] as int + 0x100_0000 * out[19] as int
    && Fold(BigSum(out[..4 * (b[0] % 0x10)])) == 0xffff
  }

  /** The bytes the UDP rewrite may touch, beyond those of the IP rewrite. */
  predicate UdpField(h: nat, i: nat) { h + 2 <= i < h + 4 || h + 6 <= i < h + 8 }

  predicate IpField(i: nat) { i == TTL || 10 <= i < 12 || 16 <= i < 20 }

  /** `out` is `b` readdressed to `dest`:`port`, every other byte kept, both checksums good. */
  ghost predicate Readdressed(b: seq<Byte>, out: seq<Byte>, dest: Ip, port: U16)
    requires HasUdp(b)
  {
    var h: nat := 4 * (b[0] % 0x10);
    && ReaddressedIp(b, out, dest)
    && HasUdp(out) && 0x100 * out[h + 2] as int + out[h + 3] as int == port
    && (Field16(b, h + 4) >= 8 ==> Fold(UdpWords(out)) == 0xffff)
    && forall i | 0 <= i < |b| && i != 8 && !(10 <= i < 12) && !(16 <= i < 20)
                  && !(h + 2 <= i < h + 4) && !(h + 6 <= i < h + 8) :: out[i] == b[i]
  }

  lemma RewriteIpReaddresses(b: seq<Byte>, dest: Ip)
    requires HasHeader(b)
    ensures ReaddressedIp(b, RewriteIp(b, dest), dest)
    ensures Load32(RewriteIp(b, dest), IP_DEST) == dest
    ensures forall i | 0 <= i < |b| && !IpField(i) :: RewriteIp(b, dest)[i] == b[i]
  {
    hide Fold, BigSum, Verifies, Checksum;
    var h := HeaderLength(b);
    var z := PrepareIp(b, dest);
    var t := RewriteIp(b, dest);
    assert t[..h] == Store(z[..h], IP_CHECKSUM, Checksum(z[..h]));
    assert Store(z[..h], IP_CHECKSUM, 0) == z[..h];
    StoredVerifies(z[..h], IP_CHECKSUM);
    Load32Kept(Store32(b, IP_DEST, dest), t);
    BigEndianChecksum(t[..h]);
  }

  lemma Load32Kept(b: seq<Byte>, t: seq<Byte>)
    requires |b| == |t| >= 20 && t[16] == b[16] && t[17] == b[17] && t[18] == b[18] && t[19] == b[19]
    ensures Load32(t, IP_DEST) == Load32(b, IP_DEST)
  {}

  /** The UDP rewrite leaves a datagram whose checksum verifies, and touches only its own fields. */
  lemma RewriteUdpVerifies(r: seq<Byte>, port: U16)
    requires HasUdp(r)
    ensures var h, t := HeaderLength(r), RewriteUdp(r, port);
            && t[..h] == r[..h] && Field16(t, h + 2) == port
            && (UdpLength(r) >= 8 ==> Fold(UdpWords(t)) == 0xffff)
            && forall i | 0 <= i < |r| && !UdpField(h, i) :: t[i] == r[i]
  {
    hide Fold, UdpWords, Verifies, Checksum;
    var z, t := PrepareUdp(r, port), RewriteUdp(r, port);
    if UdpLength(r) >= 8 {
      var c := UdpCovered(z);
      assert UdpCovered(t) == Store(c, 18, Checksum(c));
      assert Store(c, 18, 0) == c;
      StoredVerifies(c, 18);
      UdpCoversIs(t);
    }
  }

  /** The rewrite changes exactly the addressing fields, and both checksums verify. */
  lemma RewriteReaddresses(b: seq<Byte>, dest: Ip, port: U16)
    requires HasUdp(b)
    ensures Readdressed(b, Rewrite(b, dest, port), dest, port)
    ensures Load32(Rewrite(b, dest, port), IP_DEST) == dest
  {
    hide RewriteIp, RewriteUdp, Fold, BigSum, UdpWords;
    var r := RewriteIp(b, dest);
    RewriteIpReaddresses(b, dest);
    RewriteUdpVerifies(r, port);
    TakesHeader(r, Rewrite(b, dest, port), HeaderLength(b));
    Load32Kept(r, Rewrite(b, dest, port));
  }

  lemma TakesHeader(r: seq<Byte>, t: seq<Byte>, h: nat)
    requires h <= |r| == |t| && t[..h] == r[..h]
    ensures forall i | 0 <= i < h :: t[i] == r[i]
  {
    assert forall i | 0 <= i < h :: t[..h][i] == r[..h][i];
  }

  /** The rewritten header depends only on the header bytes the rewrite leaves alone. */
  lemma RewriteIpOver(r: seq<Byte>, b: seq<Byte>, dest: Ip)
    requires HasHeader(b) && HasHeader(r) && |r| == |b| && HeaderLength(r) == HeaderLength(b)
    requires forall i | 0 <= i < HeaderLength(b) && !IpField(i) :: r[i] == b[i]
    ensures RewriteIp(r, dest)[..HeaderLength(b)] == RewriteIp(b, dest)[..HeaderLength(b)]
    ensures RewriteIp(r, dest)[HeaderLength(b)..] == r[HeaderLength(b)..]
  {
    var p, q := PrepareIp(r, dest), PrepareIp(b, dest);
    assert p[..HeaderLength(b)] == q[..HeaderLength(b)];
  }

  lemma RewriteUdpOver(x: seq<Byte>, y: seq<Byte>, port: U16)
    requires HasUdp(x) && HasUdp(y) && |x| == |y|
    requires HeaderLength(x) == HeaderLength(y)
    requires forall i | 0 <= i < |x| && !UdpField(HeaderLength(x), i) :: x[i] == y[i]
    ensures RewriteUdp(x, port) == RewriteUdp(y, port)
  {
    assert PrepareUdp(x, port) == PrepareUdp(y, port);
  }

  /** Rewriting an already rewritten packet forgets the earlier member. */
  lemma RewriteIpAgain(b: seq<Byte>, d: Ip, dest: Ip)
    requires HasHeader(b)
    ensures RewriteIp(RewriteIp(b, d), dest) == RewriteIp(b, dest)
  {
    var r, h := RewriteIp(b, d), HeaderLength(b);
    RewriteIpReaddresses(b, d);
    RewriteIpReaddresses(b, dest);
    RewriteIpOver(r, b, dest);
    JoinAt(RewriteIp(r, dest), RewriteIp(b, dest), h);
  }

  lemma JoinAt(x: seq<Byte>, y: seq<Byte>, h: nat)
    requires h <= |x| == |y| && x[..h] == y[..h] && x[h..] == y[h..]
    ensures x == y
  {
    assert x == x[..h] + x[h..] && y == y[..h] + y[h..];
  }

  /** Two rewritten headers that agree, before bytes that agree but for two UDP fields. */
  lemma AgreeBut(x: seq<Byte>, y: seq<Byte>, r: seq<Byte>, b: seq<Byte>, h: nat)
    requires h <= |x| == |y| == |r| == |b| && x[..h] == y[..h] && x[h..] == r[h..]
    requires forall i | h <= i < |b| && !UdpField(h, i) :: r[i] == b[i] && y[i] == b[i]
    ensures forall i | 0 <= i < |b| && !UdpField(h, i) :: x[i] == y[i]
  {
    forall i | 0 <= i < |b| && !UdpField(h, i)
      ensures x[i] == y[i]
    {
      if i < h {
        assert x[..h][i] == y[..h][i];
      } else {
        assert x[h..][i - h] == r[h..][i - h];
      }
    }
  }

  lemma RewriteAgain(b: seq<Byte>, d: Ip, dest: Ip, port: U16)
    requires HasUdp(b)
    ensures Rewrite(Rewrite(b, d, port), dest, port) == Rewrite(b, dest, port)
  {
    hide RewriteUdp, Verifies, UdpCovered;
    var h := HeaderLength(b);
    var r := Rewrite(b, d, port);
    RewriteReaddresses(b, d, port);
    RewriteIpReaddresses(b, dest);
    RewriteIpOver(r, b, dest);
    hide RewriteIp, Rewrite;
    var x, y := RewriteIp(r, dest), RewriteIp(b, dest);
    AgreeBut(x, y, r, b, h);
    RewriteUdpOver(x, y, port);
    RewriteIs(r, dest, port);
    RewriteIs(b, dest, port);
  }

  lemma RewriteIs(b: seq<Byte>, dest: Ip, port: U16)
    requires HasUdp(b)
    ensures Rewrite(b, dest, port) == RewriteUdp(RewriteIp(b, dest), port)
  {}

  // ---- what is sent is only as long as the packet says ----

  lemma RewriteIpTake(b: seq<Byte>, n: nat, dest: Ip)
    requires HasHeader(b) && n <= |b| && HasHeader(b[..n])
    ensures RewriteIp(b, dest)[..n] == RewriteIp(b[..n], dest)
  {
    var h := HeaderLength(b);
    var z, y := PrepareIp(b, dest), PrepareIp(b[..n], dest);
    assert z[..n] == y;
    assert z[..h] == y[..h];
  }

  lemma StoreTake(b: seq<Byte>, n: nat, off: nat, w: U16)
    requires off + 1 < n <= |b|
    ensures Store(b, off, w)[..n] == Store(b[..n], off, w)
    ensures StoreBigEndian(b, off, w)[..n] == StoreBigEndian(b[..n], off, w)
  {}

  lemma HasUdpRoom(b: seq<Byte>)
    requires HasUdp(b)
    ensures HasHeader(b) && HeaderLength(b) + 8 <= |b|
  {}

  lemma CoveredTake(b: seq<Byte>, n: nat)
    requires HasUdp(b) && n <= |b| && HasUdp(b[..n])
    ensures UdpCovered(b) == UdpCovered(b[..n])
  {}

  lemma RewriteUdpTake(b: seq<Byte>, n: nat, port: U16)
    requires HasUdp(b) && n <= |b| && HasUdp(b[..n])
    ensures RewriteUdp(b, port)[..n] == RewriteUdp(b[..n], port)
  {
    hide Store, StoreBigEndian, UdpCovered, Checksum, HasUdp;
    HasUdpRoom(b[..n]);
    var h := HeaderLength(b);
    var z := PrepareUdp(b, port);
    StoreTake(b, n, h + 2, port);
    StoreTake(StoreBigEndian(b, h + 2, port), n, h + 6, 0);
    assert z[..n] == PrepareUdp(b[..n], port);
    CoveredTake(z, n);
    StoreTake(z, n, h + 6, Checksum(UdpCovered(z)));
  }

  /** Cutting a packet behind its datagram and rewriting it commute. */
  lemma RewriteTake(b: seq<Byte>, n: nat, dest: Ip, port: U16)
    requires HasUdp(b) && n <= |b| && HasUdp(b[..n])
    ensures Rewrite(b, dest, port)[..n] == Rewrite(b[..n], dest, port)
  {
    hide RewriteIp, RewriteUdp;
    RewriteIpTake(b, n, dest);
    RewriteUdpTake(RewriteIp(b, dest), n, port);
  }
}
