/**
 What the two kernel hooks do to one packet: the destination is replaced and both
 checksums are updated incrementally (section 3 of RFC 1624). All 16-bit quantities are in
 network order.
 */
module PacketRewrite {
  import opened Base
  import opened OnesComplement

  const TOS_MARK := 0xE0
  const MANGLED_ZERO := 0xffff

  datatype IpHeader = IpHeader(version: Byte, tos: Byte, length: U16, id: U16, fragment: U16,
                               ttl: Byte, protocol: Byte, check: U16, source: Ip, dest: Ip, options: seq<U16>)

  datatype UdpHeader = UdpHeader(sport: U16, dport: U16, length: U16, check: U16)

  /** A packet; its UDP header may be unreadable, and `payload` is what follows it. */
  datatype Packet = Packet(ip: IpHeader, udp: Option<UdpHeader>, payload: seq<U16>)

  function High(a: Ip): U16 { a / 0x1_0000 }

  function Low(a: Ip): U16 { a % 0x1_0000 }

  function SumWords(s: seq<U16>): nat {
    if s == [] then 0 else s[0] as int + SumWords(s[1..])
  }

  /** The words of an address, added up. */
  function AddressSum(a: Ip): nat { High(a) as int + Low(a) as int }

  /** The sum of the header's words without its checksum and its destination. */
  function RestOfHeader(h: IpHeader): nat {
    0x100 * h.version as int + h.tos as int + h.length as int + h.id as int + h.fragment as int
    + 0x100 * h.ttl as int + h.protocol as int + AddressSum(h.source) + SumWords(h.options)
  }

  /** The header checksum of section 3.1 of RFC 791, computed in full. */
  function FullHeaderChecksum(h: IpHeader): U16 {
    Not16(Fold(RestOfHeader(h) + AddressSum(h.dest)))
  }

  /** A header from the wire: version 4 and a checksum that is right. */
  ghost predicate GoodHeader(h: IpHeader) {
    h.version != 0 && h.check == FullHeaderChecksum(h)
  }

  /** The sum the UDP checksum covers (RFC 768), without the checksum and the destination. */
  function RestOfUdp(p: Packet, u: UdpHeader): nat {
    AddressSum(p.ip.source) + IPPROTO_UDP + u.length as int
    + u.sport as int + u.dport as int + u.length as int + SumWords(p.payload)
  }

  /** A datagram without a checksum, or one whose checksum verifies. */
  ghost predicate GoodUdp(p: Packet) {
    p.udp.Some? && (var u := p.udp.value;
                    u.check == 0 || Fold(RestOfUdp(p, u) + AddressSum(p.ip.dest) + u.check) == 0xffff)
  }

  // ---- the incremental update ----

  /** Equation 3 of section 3 of RFC 1624 for a replaced 32-bit address. */
  function Replace4(check: U16, was: Ip, now: Ip): U16 {
    Not16(Fold(Not16(check) as int + (Not16(High(was)) as int + Not16(Low(was)) as int) + AddressSum(now)))
  }

  function ReplaceUdp(check: U16, was: Ip, now: Ip): U16 {
    if check == 0 then 0
    else var c := Replace4(check, was, now);
         if c == 0 then MANGLED_ZERO else c
  }

  /** The packet carries a first or only fragment, so the UDP header is really there. */
  predicate Unfragmented(h: IpHeader) { h.fragment % 0x2000 == 0 }

  /** Replace the destination; both hooks share these lines. */
  function Redirect(p: Packet, dest: Ip): (q: Packet)
    requires p.udp.Some?
    ensures q.udp.Some?
  {
    var h := p.ip.(dest := dest);
    var u := p.udp.value;
    if Unfragmented(p.ip) then
      p.(ip := h.(check := Replace4(h.check, p.ip.dest, dest)),
         udp := Some(u.(check := ReplaceUdp(u.check, p.ip.dest, dest))))
    else p.(ip := h)
  }

  /** What the server sends to one member: TTL at least 64, the TOS mark, the new destination. */
  function ServerRewrite(p: Packet, member: Ip): (q: Packet)
    requires p.udp.Some?
    ensures q.udp.Some?
  {
    Redirect(p.(ip := p.ip.(ttl := if p.ip.ttl < 64 then 64 else p.ip.ttl, tos := TOS_MARK)), member)
  }

  // ---- laws ----

  lemma AddressWords(a: Ip)
    ensures a == High(a) as int * 0x1_0000 + Low(a) as int
  {}

  /** What the update folds. */
  function UpdateSum(check: U16, was: Ip, now: Ip): (x: nat)
    ensures Replace4(check, was, now) == Not16(Fold(x))
  {
    Not16(check) as int + (Not16(High(was)) as int + Not16(Low(was)) as int) + AddressSum(now)
  }

  lemma UpdateSumValue(check: U16, was: Ip, now: Ip)
    ensures UpdateSum(check, was, now) == 3 * 0xffff - (check as int + AddressSum(was) - AddressSum(now))
    ensures UpdateSum(check, was, now) == 0 <==> check == 0xffff && was == 0xffff_ffff && now == 0
  {
    hide High, Low;
    AddressWords(was);
    AddressWords(now);
  }

  /** The update moves the checksum, modulo 65535, by the difference of the addresses. */
  lemma Replace4Value(check: U16, was: Ip, now: Ip)
    ensures Mod(Replace4(check, was, now)) == Mod(check as int + AddressSum(was) - AddressSum(now))
    ensures Replace4(check, was, now) == 0xffff <==> check == 0xffff && was == 0xffff_ffff && now == 0
  {
    hide Fold, Mod, Replace4, UpdateSum, AddressSum;
    var x: int := UpdateSum(check, was, now);
    var target: int := check as int + AddressSum(was) - AddressSum(now);
    UpdateSumValue(check, was, now);
    FoldMod(x);
    ModMinus(Fold(x), x, 0xffff);
    assert 0xffff - x == target + (-2) * 0xffff;
    ModAround(target, -2);
  }

  /** Moving there and back again. */
  lemma ThereAndBack(a: U16, c: U16, b: U16, d: int)
    requires Mod(c) == Mod(a as int + d) && Mod(b) == Mod(c as int - d)
    ensures Mod(b) == Mod(a)
  {
    hide Mod;
    ModShift(c, a as int + d, -d);
  }

  /** Updating there and back restores every checksum but the second form of zero. */
  lemma Replace4Back(check: U16, was: Ip, now: Ip)
    ensures Replace4(Replace4(check, was, now), now, was) == check <==> check != 0xffff
  {
    hide Mod, Fold, Replace4, AddressSum;
    var c := Replace4(check, was, now);
    var b := Replace4(c, now, was);
    Replace4Value(check, was, now);
    Replace4Value(c, now, was);
    ThereAndBack(check, c, b, AddressSum(was) - AddressSum(now));
    if check != 0xffff {
      ModWord(b, check);
    }
  }

  lemma ReplaceUdpValue(check: U16, was: Ip, now: Ip)
    requires check != 0
    ensures ReplaceUdp(check, was, now) != 0
    ensures Mod(ReplaceUdp(check, was, now)) == Mod(check as int + AddressSum(was) - AddressSum(now))
  {
    hide AddressSum, Replace4;
    Replace4Value(check, was, now);
  }

  /** A nonzero UDP checksum survives the round trip exactly, zero stays zero. */
  lemma ReplaceUdpBack(check: U16, was: Ip, now: Ip)
    ensures ReplaceUdp(ReplaceUdp(check, was, now), now, was) == check
  {
    if check != 0 {
      ReplaceUdpBackNonzero(check, was, now);
    }
  }

  lemma ReplaceUdpBackNonzero(check: U16, was: Ip, now: Ip)
    requires check != 0
    ensures ReplaceUdp(ReplaceUdp(check, was, now), now, was) == check
  {
    hide Mod, Fold, Replace4, ReplaceUdp, AddressSum;
    var c := ReplaceUdp(check, was, now);
    var b := ReplaceUdp(c, now, was);
    ReplaceUdpValue(check, was, now);
    ReplaceUdpValue(c, now, was);
    ThereAndBack(check, c, b, AddressSum(was) - AddressSum(now));
    ModWord(b, check);
  }

  /** Rewritten for a member and then back to the group, a packet is what it was but for TTL and TOS;
      the header checksum field returns too, unless it held the second form of zero. */
  lemma RewriteRoundTrip(p: Packet, member: Ip)
    requires p.udp.Some?
    ensures var q := Redirect(ServerRewrite(p, member), p.ip.dest);
            && q.ip.dest == p.ip.dest && q.udp == p.udp && q.payload == p.payload
            && q.ip == p.ip.(ttl := q.ip.ttl, tos := TOS_MARK, check := q.ip.check)
            && (q.ip.check == p.ip.check <==> p.ip.check != 0xffff || !Unfragmented(p.ip))
  {
    Replace4Back(p.ip.check, p.ip.dest, member);
    ReplaceUdpBack(p.udp.value.check, p.ip.dest, member);
  }

  /** A right checksum is never the second form of zero, because some header word is not zero. */
  lemma GoodIsFirstZero(h: IpHeader)
    requires GoodHeader(h)
    ensures h.check != 0xffff
  {
    FoldMod(RestOfHeader(h) + AddressSum(h.dest));
  }

  /** On a header that was right, the update is the checksum computed in full. */
  lemma RedirectIsRecompute(p: Packet, dest: Ip)
    requires p.udp.Some? && GoodHeader(p.ip) && Unfragmented(p.ip)
    ensures GoodHeader(Redirect(p, dest).ip)
  {
    var s := RestOfHeader(p.ip);
    UpdateIsFull(s, p.ip.dest, dest);
    assert RestOfHeader(Redirect(p, dest).ip) == s;
  }

  lemma UpdateIsFull(s: nat, was: Ip, now: Ip)
    requires s > 0
    ensures Replace4(Not16(Fold(s + AddressSum(was))), was, now) == Not16(Fold(s + AddressSum(now)))
  {
    hide Mod, Fold, Replace4, AddressSum;
    var a, b := AddressSum(was), AddressSum(now);
    var f, g := Fold(s + a), Fold(s + b);
    FoldMod(s + a);
    FoldMod(s + b);
    var r := Replace4(Not16(f), was, now);
    Replace4Value(Not16(f), was, now);
    assert Mod(r) == Mod((0xffff + a - b) - f);
    ModMinus(f, s + a, 0xffff + a - b);
    assert (0xffff + a - b) - (s + a) == 0xffff - (s + b);
    ModMinus(g, s + b, 0xffff);
    ModWord(r, Not16(g));
  }

  /** Two sums that are not zero give one checksum exactly when they agree modulo 65535. */
  lemma SameChecksumIff(x: nat, y: nat)
    requires x > 0 && y > 0
    ensures Not16(Fold(x)) == Not16(Fold(y)) <==> Mod(x) == Mod(y)
  {
    hide Mod, Fold;
    FoldMod(x);
    FoldMod(y);
    if Mod(x) == Mod(y) {
      ModWord(Fold(x), Fold(y));
    }
  }

  /** A later fragment keeps its old header checksum, which is right only if the addresses weigh the same. */
  lemma RedirectGoodIff(p: Packet, dest: Ip)
    requires p.udp.Some? && GoodHeader(p.ip)
    ensures GoodHeader(Redirect(p, dest).ip)
            <==> Unfragmented(p.ip) || Mod(AddressSum(dest)) == Mod(AddressSum(p.ip.dest))
  {
    if Unfragmented(p.ip) {
      RedirectIsRecompute(p, dest);
    } else {
      var s := RestOfHeader(p.ip);
      assert RestOfHeader(Redirect(p, dest).ip) == s;
      SameChecksumIff(s + AddressSum(p.ip.dest), s + AddressSum(dest));
      ModShiftIff(AddressSum(dest), AddressSum(p.ip.dest), s);
    }
  }

  lemma ModShiftIff(x: int, y: int, c: int)
    ensures Mod(x + c) == Mod(y + c) <==> Mod(x) == Mod(y)
  {
    hide Mod;
    if Mod(x) == Mod(y) {
      ModShift(x, y, c);
    }
    if Mod(x + c) == Mod(y + c) {
      ModShift(x + c, y + c, -c);
    }
  }

  /** The UDP checksum of a readable datagram stays good under either hook. */
  lemma RedirectKeepsUdp(p: Packet, dest: Ip)
    requires GoodUdp(p) && Unfragmented(p.ip)
    ensures GoodUdp(Redirect(p, dest))
  {
    var u := p.udp.value;
    if u.check != 0 {
      var q := Redirect(p, dest);
      assert RestOfUdp(q, q.udp.value) == RestOfUdp(p, u);
      KeepsUdp(RestOfUdp(p, u), u.check, p.ip.dest, dest);
    }
  }

  lemma KeepsUdp(s: nat, check: U16, was: Ip, now: Ip)
    requires check != 0 && Fold(s + AddressSum(was) + check) == 0xffff
    ensures var c := ReplaceUdp(check, was, now);
            c != 0 && Fold(s + AddressSum(now) + c) == 0xffff
  {
    hide Mod, Fold, Replace4, ReplaceUdp, AddressSum;
    var a, b := AddressSum(was), AddressSum(now);
    var c := ReplaceUdp(check, was, now);
    ReplaceUdpValue(check, was, now);
    ModShift(c, check as int + a - b, s + b);
    assert (check as int + a - b) + (s + b) == s + a + check;
    FoldMod(s + a + check);
    FoldMod(s + b + c);
    ModWord(Fold(s + b + c), 0xffff);
  }

  /** How much the edits of TTL and TOS add to the sum of the header's words. */
  function TtlTosDelta(h: IpHeader): int {
    0x100 * ((if h.ttl < 64 then 64 else h.ttl as int) - h.ttl as int) + (TOS_MARK - h.tos as int)
  }

  lemma ServerHeader(p: Packet, member: Ip)
    requires p.udp.Some?
    ensures var h := ServerRewrite(p, member).ip;
            && h.version == p.ip.version && h.dest == member
            && RestOfHeader(h) == RestOfHeader(p.ip) + TtlTosDelta(p.ip)
            && h.check == if Unfragmented(p.ip) then Replace4(p.ip.check, p.ip.dest, member) else p.ip.check
  {
    hide Replace4, AddressSum;
  }

  lemma DeltaBounds(h: IpHeader)
    ensures -0xffff < TtlTosDelta(h) < 0xffff
    ensures TtlTosDelta(h) == 0 <==> h.tos == TOS_MARK && h.ttl >= 64
    ensures h.version != 0 ==> RestOfHeader(h) > 0 && RestOfHeader(h) + TtlTosDelta(h) > 0
  {
    hide AddressSum, SumWords;
  }

  /**
   The server edits TTL and TOS outside the update, so its header checksum is right exactly
   when neither edit changed anything; on a later fragment, exactly when all three edits
   together happen to leave the sum as it was.
   */
  lemma ServerHeaderGoodIff(p: Packet, member: Ip)
    requires p.udp.Some? && GoodHeader(p.ip)
    ensures GoodHeader(ServerRewrite(p, member).ip) <==>
            if Unfragmented(p.ip) then p.ip.tos == TOS_MARK && p.ip.ttl >= 64
            else Mod(AddressSum(member) + TtlTosDelta(p.ip)) == Mod(AddressSum(p.ip.dest))
  {
    hide ServerRewrite, RestOfHeader, AddressSum, Replace4, TtlTosDelta, Fold, Mod;
    ServerHeader(p, member);
    DeltaBounds(p.ip);
    var s, d := RestOfHeader(p.ip), TtlTosDelta(p.ip);
    if Unfragmented(p.ip) {
      UpdateIsFull(s, p.ip.dest, member);
      SameChecksum(s + AddressSum(member), s + d + AddressSum(member));
    } else {
      SameChecksumIff(s + AddressSum(p.ip.dest), s + d + AddressSum(member));
      ModShiftIff(AddressSum(member) + d, AddressSum(p.ip.dest), s);
      assert AddressSum(member) + d + s == s + d + AddressSum(member);
      assert AddressSum(p.ip.dest) + s == s + AddressSum(p.ip.dest);
    }
  }

  lemma SameChecksum(x: nat, y: nat)
    requires x > 0 && y > 0 && -0xffff < y - x < 0xffff
    ensures Not16(Fold(x)) == Not16(Fold(y)) <==> x == y
  {
    hide Fold;
    SameChecksumIff(x, y);
    if Mod(x) == Mod(y) {
      var k := y / 0xffff - x / 0xffff;
      assert y - x == k * 0xffff;
    }
  }

  // ---- the same laws read off the packet's own fields ----

  /** The fragment field holds three flags above a 13-bit offset (section 3.1 of RFC 791). */
  ghost predicate Fragment(h: IpHeader, flags: nat, offset: nat) {
    flags < 8 && offset < 0x2000 && h.fragment == flags * 0x2000 + offset
  }

  /** Whatever the flags say, the update is made for offset zero and for no other. */
  lemma OffsetDecides(h: IpHeader, flags: nat, offset: nat)
    requires Fragment(h, flags, offset)
    ensures Unfragmented(h) <==> offset == 0
  {
    Residue(h.fragment, flags, offset, 0x2000);
  }

  /**
   The rewrite touches the destination and the two checksums alone. With offset zero a right
   header stays right and a good UDP checksum good; with any other offset both are left as
   they were, and the header is right only if both destinations weigh the same.
   */
  lemma RedirectByOffset(p: Packet, dest: Ip, flags: nat, offset: nat)
    requires p.udp.Some? && Fragment(p.ip, flags, offset)
    ensures var q := Redirect(p, dest);
            && q == p.(ip := p.ip.(dest := dest, check := q.ip.check),
                       udp := Some(p.udp.value.(check := q.udp.value.check)))
            && (offset != 0 ==> q.ip.check == p.ip.check && q.udp == p.udp)
            && (offset == 0 && GoodUdp(p) ==> GoodUdp(q))
            && (p.udp.value.check == 0 <==> q.udp.value.check == 0)
    ensures GoodHeader(p.ip) ==>
              (GoodHeader(Redirect(p, dest).ip)
               <==> offset == 0 || Mod(AddressSum(dest)) == Mod(AddressSum(p.ip.dest)))
  {
    hide GoodHeader, GoodUdp, Unfragmented, Replace4, AddressSum, Mod;
    OffsetDecides(p.ip, flags, offset);
    if GoodHeader(p.ip) {
      RedirectGoodIff(p, dest);
    }
    if offset == 0 && GoodUdp(p) {
      RedirectKeepsUdp(p, dest);
    }
  }

  /**
   The server's copy in full: TTL raised to 64, the mark, the member, the checksums, and
   nothing else. Its header is right exactly when the update was made and neither edit
   changed anything or, on a later fragment, when all edits together weigh nothing.
   */
  lemma ServerRewriteByOffset(p: Packet, member: Ip, flags: nat, offset: nat)
    requires p.udp.Some? && Fragment(p.ip, flags, offset)
    ensures var q := ServerRewrite(p, member);
            && q == p.(ip := p.ip.(dest := member, ttl := if p.ip.ttl < 64 then 64 else p.ip.ttl, tos := 0xE0,
                                   check := q.ip.check),
                       udp := Some(p.udp.value.(check := q.udp.value.check)))
            && (offset != 0 ==> q.ip.check == p.ip.check && q.udp == p.udp)
            && (offset == 0 && GoodUdp(p) ==> GoodUdp(q))
    ensures GoodHeader(p.ip) ==>
              var q := ServerRewrite(p, member);
              (GoodHeader(q.ip)
               <==> if offset == 0 then p.ip.tos == 0xE0 && p.ip.ttl >= 64
                    else Mod(AddressSum(member)
                             + (0x100 * (q.ip.ttl as int - p.ip.ttl as int) + (0xE0 - p.ip.tos as int)))
                         == Mod(AddressSum(p.ip.dest)))
  {
    hide GoodHeader, GoodUdp, Redirect, Unfragmented, AddressSum, Mod;
    var edited := p.(ip := p.ip.(ttl := if p.ip.ttl < 64 then 64 else p.ip.ttl, tos := TOS_MARK));
    RedirectByOffset(edited, member, flags, offset);
    SameUdp(p, edited);
    OffsetDecides(p.ip, flags, offset);
    if GoodHeader(p.ip) {
      ServerHeaderGoodIff(p, member);
    }
  }

  /** The UDP checksum does not cover TTL and TOS. */
  lemma SameUdp(p: Packet, q: Packet)
    requires q.udp == p.udp && q.payload == p.payload && q.ip.source == p.ip.source && q.ip.dest == p.ip.dest
    ensures GoodUdp(q) <==> GoodUdp(p)
  {
    hide Fold, AddressSum;
  }
}
