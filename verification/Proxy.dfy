/**
 The userland server's packet handler: one buffer is rewritten in place for each member of
 the group and sent again.
 */
module Proxy {
  import opened Base
  import opened OnesComplement
  import opened InternetChecksum
  import opened Datagram
  import opened GroupTable
  import opened Userland

  const BUFSIZE := 4096

  /** The server's UDP checksum: build the pseudo header and the datagram in a new buffer and sum it. */
  method UdpChecksum(b: seq<Byte>) returns (c: U16)
    requires HasUdp(b)
    ensures c == Checksum(UdpCovered(b)) && Swap16(c) == 0xffff - Fold(UdpWords(b))
  {
    hide Fold, UdpWords;
    UdpCoversIs(b);
    var buf := FillPseudo(b);
    c := ServerChecksum(buf);
  }

  /** The client's, which sums the same buffer with its own routine. */
  method ClientUdpChecksum(b: seq<Byte>) returns (c: U16)
    requires HasUdp(b)
    ensures c == Checksum(UdpCovered(b)) && Swap16(c) == 0xffff - Fold(UdpWords(b))
  {
    hide Fold, UdpWords;
    UdpCoversIs(b);
    var buf := FillPseudo(b);
    c := ClientChecksum(buf);
  }

  method FillPseudo(b: seq<Byte>) returns (filled: seq<Byte>)
    requires HasUdp(b)
    ensures filled == UdpCovered(b)
  {
    hide Field16;
    var h, len: nat := HeaderLength(b), UdpLength(b);
    var buf := new Byte[12 + len](_ => 0);
    forall i | 0 <= i < 8 {
      buf[i] := b[IP_SOURCE + i];
    }
    buf[9] := IPPROTO_UDP;
    buf[10] := len / 0x100;
    buf[11] := len % 0x100;
    forall i | 0 <= i < len {
      buf[12 + i] := b[h + i];
    }
    filled := buf[..];
    assert filled[..12] == Pseudo(b, len);
    assert filled[12..] == b[h..h + len] by {
      assert forall i | 0 <= i < len :: filled[12..][i] == buf[12 + i];
    }
    assert filled == filled[..12] + filled[12..];
  }

  /** A word stored in host order, in place. */
  method Put16(buf: array<Byte>, off: nat, w: U16)
    requires off + 1 < buf.Length
    modifies buf
    ensures buf[..] == Store(old(buf[..]), off, w)
  {
    buf[off] := w % 0x100;
    buf[off + 1] := w / 0x100;
  }

  /** A word stored with `htons`, in place. */
  method PutNetwork16(buf: array<Byte>, off: nat, w: U16)
    requires off + 1 < buf.Length
    modifies buf
    ensures buf[..] == StoreBigEndian(old(buf[..]), off, w)
  {
    buf[off] := w / 0x100;
    buf[off + 1] := w % 0x100;
  }

  method Put32(buf: array<Byte>, off: nat, a: Ip)
    requires off + 3 < buf.Length
    modifies buf
    ensures buf[..] == Store32(old(buf[..]), off, a)
  {
    buf[off] := a % 0x100;
    buf[off + 1] := a / 0x100 % 0x100;
    buf[off + 2] := a / 0x100 / 0x100 % 0x100;
    buf[off + 3] := a / 0x100 / 0x100 / 0x100;
  }

  /** The IP half of the loop body. */
  method RewriteIpInPlace(buf: array<Byte>, dest: Ip, len: U16)
    requires HasHeader(buf[..]) && len == Field16(buf[..], 2)
    modifies buf
    ensures buf[..] == RewriteIp(old(buf[..]), dest)
  {
    ghost var b := buf[..];
    Put32(buf, IP_DEST, dest);
    Put16(buf, IP_CHECKSUM, 0);
    buf[TTL] := 127;
    PutNetwork16(buf, 2, len);
    assert buf[..] == PrepareIp(b, dest);
    var c := ServerChecksum(buf[..HeaderLength(buf[..])]);
    Put16(buf, IP_CHECKSUM, c);
  }

  /** The UDP half of the loop body. */
  method RewriteUdpInPlace(buf: array<Byte>, port: U16, udpLen: U16)
    requires HasUdp(buf[..]) && udpLen == UdpLength(buf[..])
    modifies buf
    ensures buf[..] == RewriteUdp(old(buf[..]), port)
  {
    ghost var b := buf[..];
    var h := HeaderLength(buf[..]);
    Put16(buf, h + 6, 0);
    PutNetwork16(buf, h + 2, port);
    PutNetwork16(buf, h + 4, udpLen);
    assert buf[..] == PrepareUdp(b, port);
    var c := UdpChecksum(buf[..]);
    Put16(buf, h + 6, c);
  }

  /** The loop body: readdress the packet in the buffer. */
  method RewriteInPlace(buf: array<Byte>, dest: Ip, port: U16, len: U16, udpLen: U16)
    requires HasUdp(buf[..]) && len == Field16(buf[..], 2) && udpLen == UdpLength(buf[..])
    modifies buf
    ensures buf[..] == Rewrite(old(buf[..]), dest, port)
  {
    hide RewriteIp, RewriteUdp, UdpLength;
    RewriteIpInPlace(buf, dest, len);
    RewriteUdpInPlace(buf, port, udpLen);
  }

  /** What the next turn finds in the buffer: the same lengths, and no mark. */
  lemma NextTurn(b: seq<Byte>, dest: Ip, port: U16)
    requires HasUdp(b)
    ensures var r := Rewrite(b, dest, port);
            Field16(r, 2) == Field16(b, 2) && UdpLength(r) == UdpLength(b) && r[TTL] == 127
  {
    hide Rewrite;
    RewriteReaddresses(b, dest, port);
  }

  /**
   Move the packet out of the receive buffer, zeroing it there, to the front of a buffer of
   4096 bytes, whose other bytes are what they happened to be.
   */
  method TakePacket(pBuf: array<Byte>, bufLen: nat, junk: seq<Byte>) returns (buf: array<Byte>)
    requires bufLen <= pBuf.Length && bufLen + |junk| == BUFSIZE
    modifies pBuf
    ensures fresh(buf) && buf[..] == old(pBuf[..bufLen]) + junk
    ensures forall i | 0 <= i < bufLen :: pBuf[i] == 0
    ensures forall i | bufLen <= i < pBuf.Length :: pBuf[i] == old(pBuf[i])
  {
    buf := new Byte[BUFSIZE](i requires 0 <= i < BUFSIZE => if i < bufLen then 0 else junk[i - bufLen]);
    forall i | 0 <= i < bufLen {
      buf[i] := pBuf[i];
    }
    forall i | 0 <= i < bufLen {
      pBuf[i] := 0;
    }
  }

  lemma NextIpTurn(b: seq<Byte>, dest: Ip)
    requires HasHeader(b)
    ensures var r := RewriteIp(b, dest);
            Field16(r, 2) == Field16(b, 2) && r[TTL] == 127
  {
    hide RewriteIp;
    RewriteIpReaddresses(b, dest);
  }

  /** The first member whose send fails, or the number of members. */
  function FirstFailure(ok: nat -> bool, i: nat, n: nat): (f: nat)
    requires i <= n
    ensures i <= f <= n && (forall k: nat | i <= k < f :: ok(k)) && (f < n ==> !ok(f))
    decreases n - i
  {
    if i == n || !ok(i) then i else FirstFailure(ok, i + 1, n)
  }

  /** The datagrams for the first `n` members: each is the rewrite of the packet as it came in. */
  function UdpCopies(b: seq<Byte>, members: seq<Ip>, port: U16, n: nat): (out: seq<seq<Byte>>)
    requires HasUdp(b) && n <= |members|
    ensures |out| == n
  {
    seq(n, i requires 0 <= i < n => Rewrite(b, members[i], port)[..Field16(b, 2)])
  }

  function VrrpCopies(b: seq<Byte>, members: seq<Ip>, n: nat): (out: seq<seq<Byte>>)
    requires HasHeader(b) && n <= |members|
    ensures |out| == n
  {
    seq(n, i requires 0 <= i < n => RewriteIp(b, members[i])[..Field16(b, 2)])
  }

  /** The mark of a packet the proxy itself sent: TTL 128 and identification 0x1000. */
  predicate Marked(b: seq<Byte>)
    requires |b| >= 20
  {
    b[TTL] == 0x80 && Field16(b, 4) == 0x1000
  }

  /** Counters of the packet handler. */
  datatype Counts = Counts(received: nat, dropped: nat, forwarded: nat, copies: nat)

  class Handler {
    const table: Groups<Ports>
    var counts: Counts

    constructor (table: Groups<Ports>)
      ensures this.table == table && counts == Counts(0, 0, 0, 0)
    {
      this.table, counts := table, Counts(0, 0, 0, 0);
    }

    /** Fan a UDP packet out: rewrite the one buffer for each member and send it. */
    method FanOutUdp(buf: array<Byte>, members: seq<Ip>, port: U16, ok: nat -> bool) returns (sent: seq<seq<Byte>>)
      requires buf.Length == BUFSIZE
      requires members != [] && !Marked(buf[..]) ==> HasUdp(buf[..])
      modifies this`counts, buf
      ensures var b := old(buf[..]);
              var f := FirstFailure(ok, 0, |members|);
              if members == [] || Marked(b) then sent == [] && counts == old(counts)
              else
                && sent == UdpCopies(b, members, port, f)
                && counts == old(counts).(copies := old(counts).copies + if f < |members| then f + 1 else f)
    {
      hide Rewrite, UdpLength, Field16, FirstFailure, HasUdp, HasHeader;
      ghost var b := buf[..];
      var udpLen := UdpLength(buf[..]);
      var sendLen := Field16(buf[..], 2);
      sent := [];
      var i := 0;
      while i < |members|
        invariant 0 <= i <= FirstFailure(ok, 0, |members|)
        invariant i == 0 ==> buf[..] == b && sent == []
        invariant i > 0 ==> !Marked(b) && InTurn(b, buf[..], members[i - 1], port)
        invariant i > 0 ==> sent == UdpCopies(b, members, port, i)
        invariant counts == old(counts).(copies := old(counts).copies + i)
      {
        if buf[TTL] == 0x80 && Field16(buf[..], 4) == 0x1000 {
          return;
        }
        counts := counts.(copies := counts.copies + 1);
        RewriteInPlace(buf, members[i], port, sendLen, udpLen);
        if i > 0 {
          RewriteAgain(b, members[i - 1], members[i], port);
        }
        NextTurn(b, members[i], port);
        if !ok(i) {
          return;
        }
        SentLength(b, members[i], port);
        sent := sent + [buf[..sendLen]];
        i := i + 1;
      }
    }

    /** Fan a VRRP packet out: only the header is rewritten, and a copy is counted once it is sent. */
    method FanOutVrrp(buf: array<Byte>, members: seq<Ip>, ok: nat -> bool) returns (sent: seq<seq<Byte>>)
      requires buf.Length == BUFSIZE
      requires members != [] && !Marked(buf[..]) ==> HasHeader(buf[..])
      modifies this`counts, buf
      ensures var b := old(buf[..]);
              var f := FirstFailure(ok, 0, |members|);
              if members == [] || Marked(b) then sent == [] && counts == old(counts)
              else sent == VrrpCopies(b, members, f) && counts == old(counts).(copies := old(counts).copies + f)
    {
      hide RewriteIp, Field16, FirstFailure, HasHeader;
      ghost var b := buf[..];
      var sendLen := Field16(buf[..], 2);
      sent := [];
      var i := 0;
      while i < |members|
        invariant 0 <= i <= FirstFailure(ok, 0, |members|)
        invariant i == 0 ==> buf[..] == b && sent == []
        invariant i > 0 ==> !Marked(b) && InIpTurn(b, buf[..], members[i - 1]) && sent == VrrpCopies(b, members, i)
        invariant counts == old(counts).(copies := old(counts).copies + i)
      {
        if buf[TTL] == 0x80 && Field16(buf[..], 4) == 0x1000 {
          return;
        }
        RewriteIpInPlace(buf, members[i], sendLen);
        if i > 0 {
          RewriteIpAgain(b, members[i - 1], members[i]);
        }
        NextIpTurn(b, members[i]);
        if !ok(i) {
          return;
        }
        SentIpLength(b, members[i]);
        sent := sent + [buf[..sendLen]];
        counts := counts.(copies := counts.copies + 1);
        i := i + 1;
      }
    }

    /** The packet is to be fanned out: its group is known and has members, and it is not marked. */
    ghost predicate Fanned(b: seq<Byte>)
      requires |b| == BUFSIZE
      reads table
    {
      var dest := Load32(b, IP_DEST);
      dest in table.groups && table.groups[dest].members != [] && !Marked(b)
    }

    /** The lengths that a packet to be fanned out states stay within the buffer. */
    ghost predicate Contained(b: seq<Byte>)
      requires |b| == BUFSIZE
      reads table
    {
      Fanned(b) ==> (b[PROTOCOL] == IPPROTO_UDP ==> HasUdp(b)) && (b[PROTOCOL] == IPPROTO_VRRF ==> HasHeader(b))
    }

    /**
     Handle one received packet of `bufLen` bytes: take it out of the receive buffer, look its
     destination up, and fan it out to the members. `ok` says which sends succeed, and `junk`
     what stands behind the packet in the handler's own buffer, to which nothing but that
     buffer's size confines the lengths the packet states.
     */
    method HandleIncomingData(pBuf: array<Byte>, bufLen: nat, junk: seq<Byte>, ok: nat -> bool)
      returns (sent: seq<seq<Byte>>)
      requires table.Valid() && this !in table.Repr() && pBuf !in table.Repr()
      requires bufLen <= pBuf.Length && bufLen + |junk| == BUFSIZE && Contained(pBuf[..bufLen] + junk)
      modifies this`counts, pBuf
      ensures table.Valid()
      ensures forall i | 0 <= i < pBuf.Length :: pBuf[i] == if i < bufLen then 0 else old(pBuf[i])
      ensures Contained(old(pBuf[..bufLen]) + junk)
      ensures Answered(old(pBuf[..bufLen]) + junk, ok, sent, old(counts).(received := old(counts).received + 1))
    {
      hide Groups.Valid, Fanned, Contained, Answered, Load32;
      counts := counts.(received := counts.received + 1);
      var buf := TakePacket(pBuf, bufLen, junk);
      sent := Forward(buf, ok);
    }

    /** Look a packet's destination up and send it on. */
    method Forward(buf: array<Byte>, ok: nat -> bool) returns (sent: seq<seq<Byte>>)
      requires table.Valid() && this !in table.Repr() && buf !in table.Repr()
      requires buf.Length == BUFSIZE && Contained(buf[..])
      modifies this`counts, buf
      ensures table.Valid()
      ensures Contained(old(buf[..])) && Answered(old(buf[..]), ok, sent, old(counts))
    {
      hide Groups.Valid, FirstFailure, UdpCopies, VrrpCopies, Marked, HasUdp, HasHeader, Load32;
      sent := [];
      var node, members := table.LookupMultiNode(Load32(buf[..], IP_DEST));
      if node.None? {
        counts := counts.(dropped := counts.dropped + 1);
        return;
      }
      counts := counts.(forwarded := counts.forwarded + 1);
      if buf[PROTOCOL] == IPPROTO_UDP {
        sent := FanOutUdp(buf, members, node.value.tag.server, ok);
      } else if buf[PROTOCOL] == IPPROTO_VRRF {
        sent := FanOutVrrp(buf, members, ok);
      }
    }

    /** What the handler does with packet `b` once it is counted as received, case by case. */
    ghost predicate Answered(b: seq<Byte>, ok: nat -> bool, sent: seq<seq<Byte>>, was: Counts)
      requires |b| == BUFSIZE && Contained(b)
      reads this, table
    {
      var dest := Load32(b, IP_DEST);
      if dest !in table.groups then
        sent == [] && counts == was.(dropped := was.dropped + 1)
      else
        var g := table.groups[dest];
        var f := FirstFailure(ok, 0, |g.members|);
        var passed := was.(forwarded := was.forwarded + 1);
        if !Fanned(b) || (b[PROTOCOL] != IPPROTO_UDP && b[PROTOCOL] != IPPROTO_VRRF) then
          sent == [] && counts == passed
        else if b[PROTOCOL] == IPPROTO_UDP then
          && sent == UdpCopies(b, g.members, g.tag.server, f)
          && counts == passed.(copies := was.copies + if f < |g.members| then f + 1 else f)
        else
          sent == VrrpCopies(b, g.members, f) && counts == passed.(copies := was.copies + f)
    }

    /**
     The answer in the packet's own bytes and the group's own fields. An unknown destination
     is a drop; a group without members, a marked packet (TTL 128, identification 0x1000) and
     every protocol but UDP (17) and VRRP (112) are forwarded to nobody; all others go to the
     members in order, up to the first send that fails, which counts as a copy for UDP only.
     */
    lemma AnswerIs(b: seq<Byte>, ok: nat -> bool, sent: seq<seq<Byte>>, was: Counts)
      requires |b| == BUFSIZE && Contained(b) && Answered(b, ok, sent, was)
      ensures var dest := b[16] as int + 0x100 * b[17] as int + 0x1_0000 * b[18] as int + 0x100_0000 * b[19] as int;
              if dest !in table.groups then
                sent == [] && counts == was.(dropped := was.dropped + 1)
              else
                var members, len := table.groups[dest].members, 0x100 * b[2] as int + b[3] as int;
                if members == [] || (b[8] == 128 && b[4] == 0x10 && b[5] == 0) || (b[9] != 17 && b[9] != 112) then
                  sent == [] && counts == was.(forwarded := was.forwarded + 1)
                else
                  && HasHeader(b) && len <= |b| && (b[9] == 17 ==> HasUdp(b))
                  && |sent| <= |members| && (|sent| < |members| ==> !ok(|sent|))
                  && (forall i :: 0 <= i < |sent| ==>
                        && ok(i)
                        && sent[i] == (if b[9] == 17 then Rewrite(b, members[i], table.groups[dest].tag.server)
                                       else RewriteIp(b, members[i]))[..len])
                  && counts == was.(forwarded := was.forwarded + 1,
                                    copies := was.copies + |sent| + if b[9] == 17 && |sent| < |members| then 1 else 0)
    {
      hide Rewrite, RewriteIp;
    }
  }

  /** The buffer after the turn for `member`: the same lengths as the packet, and no mark. */
  ghost predicate InTurn(b: seq<Byte>, now: seq<Byte>, member: Ip, port: U16)
    requires |b| == BUFSIZE
  {
    && HasUdp(b) && now == Rewrite(b, member, port) && HasUdp(now) && now[TTL] == 127
    && Field16(now, 2) == Field16(b, 2) && UdpLength(now) == UdpLength(b)
  }

  ghost predicate InIpTurn(b: seq<Byte>, now: seq<Byte>, member: Ip)
    requires |b| == BUFSIZE
  {
    && HasHeader(b) && now == RewriteIp(b, member) && HasHeader(now) && now[TTL] == 127
    && Field16(now, 2) == Field16(b, 2)
  }

  lemma SentLength(b: seq<Byte>, member: Ip, port: U16)
    requires HasUdp(b)
    ensures Field16(b, 2) <= |Rewrite(b, member, port)|
  {}

  lemma SentIpLength(b: seq<Byte>, member: Ip)
    requires HasHeader(b)
    ensures Field16(b, 2) <= |RewriteIp(b, member)|
  {}

  /**
   Each datagram of a fan-out is the packet, as long as it says it is, readdressed to its own
   member, with checksums that verify, provided the stated length covers the datagram.
   */
  lemma CopiesAreReaddressed(b: seq<Byte>, members: seq<Ip>, port: U16, n: nat, i: nat)
    requires HasUdp(b) && i < n <= |members|
    requires HasUdp(b[..Field16(b, 2)])
    ensures Readdressed(b[..Field16(b, 2)], UdpCopies(b, members, port, n)[i], members[i], port)
  {
    hide Rewrite;
    RewriteTake(b, Field16(b, 2), members[i], port);
    RewriteReaddresses(b[..Field16(b, 2)], members[i], port);
  }

  /** The same for a VRRP packet, whose header alone is rewritten. */
  lemma VrrpCopiesAreReaddressed(b: seq<Byte>, members: seq<Ip>, n: nat, i: nat)
    requires HasHeader(b) && i < n <= |members|
    requires HasHeader(b[..Field16(b, 2)])
    ensures ReaddressedIp(b[..Field16(b, 2)], VrrpCopies(b, members, n)[i], members[i])
  {
    hide RewriteIp;
    RewriteIpTake(b, Field16(b, 2), members[i]);
    RewriteIpReaddresses(b[..Field16(b, 2)], members[i]);
  }
}
