/**
 The client's hook on incoming packets: a marked packet from a known server and port gets
 its group address back. Together with the server's hook it restores the packet.
 */
module ClientHook {
  import opened Base
  import opened GroupModel
  import opened OnesComplement
  import opened PacketRewrite
  import opened ClientTable

  /** A UDP packet with a readable header and the server's mark. */
  predicate Ours(p: Packet) {
    p.ip.protocol == 17 && p.udp.Some? && p.ip.tos == 0xE0
  }

  /** The entry for the packet's own server and port. */
  function Exact(p: Packet): Source
    requires p.udp.Some?
  {
    Source(p.ip.source, p.udp.value.dport)
  }

  /** The entry for any port of the packet's server. */
  function AnyPort(p: Packet): Source { Source(p.ip.source, 0) }

  /** The table maps the packet back to a group: by its own port, or by any when its own has no entry. */
  ghost predicate MapsTo(view: map<Source, Ip>, p: Packet, group: Ip)
    requires p.udp.Some?
  {
    || (Exact(p) in view && view[Exact(p)] == group)
    || (Exact(p) !in view && AnyPort(p) in view && view[AnyPort(p)] == group)
  }

  class Hook {
    var rx: Stats

    constructor ()
      ensures rx == ZERO
    {
      rx := ZERO;
    }

    /** Handle one incoming packet in place. */
    method LocalIn(kernel: Nodes, p: Packet) returns (q: Packet)
      requires kernel.Valid() && this !in kernel.Repr()
      modifies this
      ensures kernel.Valid()
      ensures Ours(p) && Source(p.ip.source, p.udp.value.dport) in kernel.tab.view ==>
        q == Redirect(p, kernel.tab.view[Source(p.ip.source, p.udp.value.dport)])
      ensures Ours(p) && Source(p.ip.source, p.udp.value.dport) !in kernel.tab.view
              && Source(p.ip.source, 0) in kernel.tab.view ==>
        q == Redirect(p, kernel.tab.view[Source(p.ip.source, 0)])
      ensures Ours(p) && (Source(p.ip.source, p.udp.value.dport) in kernel.tab.view
                          || Source(p.ip.source, 0) in kernel.tab.view) ==>
        rx.packets == old(rx.packets) + 1 && rx.bytes == old(rx.bytes) + p.ip.length
      ensures !Ours(p) || (Source(p.ip.source, p.udp.value.dport) !in kernel.tab.view
                           && Source(p.ip.source, 0) !in kernel.tab.view) ==>
        q == p && rx == old(rx)
    {
      hide Nodes.Valid, Redirect;
      q := p;
      if p.ip.protocol != IPPROTO_UDP || p.udp.None? {
        return;
      }
      var group := kernel.LookupIpPortNode(Source(p.ip.source, p.udp.value.dport));
      if group.None? {
        group := kernel.LookupIpPortNode(Source(p.ip.source, 0));
        if group.None? {
          return;
        }
      }
      if p.ip.tos != TOS_MARK {
        return;
      }
      q := Redirect(p, group.value);
      rx := Stats(rx.packets + 1, rx.bytes + p.ip.length);
    }
  }

  /**
   A packet to a group, sent to a member by the server's hook, its TTL and header checksum
   changed on the way, and taken in by the client's hook, whose table maps the server and port
   back to the group: destination, UDP header and payload are those of the original, and TTL,
   TOS and checksum are all that the header shows of the journey.
   */
  lemma EndToEnd(view: map<Source, Ip>, p: Packet, member: Ip, ttl: Byte, check: U16)
    requires p.ip.protocol == IPPROTO_UDP && p.udp.Some? && MapsTo(view, p, p.ip.dest)
    ensures var sent := ServerRewrite(p, member);
            var arrived := sent.(ip := sent.ip.(ttl := ttl, check := check));
            && Ours(arrived) && MapsTo(view, arrived, p.ip.dest)
            && (var q := Redirect(arrived, p.ip.dest);
                && q.ip.dest == p.ip.dest && q.udp == p.udp && q.payload == p.payload
                && q.ip == p.ip.(ttl := ttl, tos := TOS_MARK, check := q.ip.check)
                && (GoodHeader(arrived.ip) && Unfragmented(p.ip) ==> GoodHeader(q.ip)))
  {
    hide Replace4, ReplaceUdp, FullHeaderChecksum;
    RewriteRoundTrip(p, member);
    var sent := ServerRewrite(p, member);
    var arrived := sent.(ip := sent.ip.(ttl := ttl, check := check));
    if GoodHeader(arrived.ip) {
      RedirectGoodIff(arrived, p.ip.dest);
    }
  }

  /** With nothing changed on the way the header checksum field, if it was right, returns as well. */
  lemma CheckReturns(p: Packet, member: Ip)
    requires p.udp.Some? && GoodHeader(p.ip)
    ensures Redirect(ServerRewrite(p, member), p.ip.dest).ip.check == p.ip.check
  {
    hide Replace4, ReplaceUdp, FullHeaderChecksum;
    RewriteRoundTrip(p, member);
    GoodIsFirstZero(p.ip);
  }

  /**
   What the client makes of a packet with a right header: right again unless it is a later
   fragment, whose checksum the hook leaves alone. A good UDP checksum stays good.
   */
  lemma ClientHeaderGood(p: Packet, group: Ip)
    requires p.udp.Some? && GoodHeader(p.ip)
    ensures GoodHeader(Redirect(p, group).ip)
            <==> Unfragmented(p.ip) || Mod(AddressSum(group)) == Mod(AddressSum(p.ip.dest))
    ensures Unfragmented(p.ip) && GoodUdp(p) ==> GoodUdp(Redirect(p, group))
  {
    hide Replace4, ReplaceUdp, GoodHeader, GoodUdp, Redirect;
    RedirectGoodIff(p, group);
    if Unfragmented(p.ip) && GoodUdp(p) {
      RedirectKeepsUdp(p, group);
    }
  }

  /** The journey through both hooks: what the client's hook hands up is the packet to the group again. */
  method Journey(kernel: Nodes, hook: Hook, p: Packet, member: Ip, ttl: Byte, check: U16) returns (q: Packet)
    requires kernel.Valid() && hook !in kernel.Repr()
    requires p.ip.protocol == IPPROTO_UDP && p.udp.Some? && MapsTo(kernel.tab.view, p, p.ip.dest)
    modifies hook
    ensures kernel.Valid()
    ensures q.ip.dest == p.ip.dest && q.udp == p.udp && q.payload == p.payload && q.ip.source == p.ip.source
    ensures hook.rx.packets == old(hook.rx.packets) + 1
  {
    hide Nodes.Valid, ServerRewrite, Redirect;
    var sent := ServerRewrite(p, member);
    var arrived := sent.(ip := sent.ip.(ttl := ttl, check := check));
    EndToEnd(kernel.tab.view, p, member, ttl, check);
    q := hook.LocalIn(kernel, arrived);
  }
}
