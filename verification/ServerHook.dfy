/**
 The server's hook on outgoing packets: a packet to a known group is copied, rewritten and
 sent once for each member, and everything that happens is counted. On kernels after 2.6.18
 a copy is sent through the chain the hook is registered on, so it passes the hook again.
 */
module ServerHook {
  import opened Base
  import opened GroupModel
  import opened GroupTable
  import opened PacketRewrite

  /** What becomes of one member's copy: the copy fails, routing it fails, or it is sent. */
  datatype Fate = NoMemory | RouteFail | Sent

  /** Fates by the positions of the copies that led to a copy: `[2]` is the third copy, `[2, 0]` its first. */
  type Fates = seq<nat> -> Fate

  datatype Drops = Drops(noGroup: nat, noMember: nat, noMemory: nat, routeFail: nat)

  /** All that the hook counts, for groups and altogether, and what has left the host. */
  datatype Books = Books(counters: map<Ip, Stats>, drops: Drops, tx: Stats, sent: seq<Packet>)

  /** How deep groups nest below an address: it is no group, or its members nest less deep. */
  ghost predicate NestsWithin(t: map<Ip, seq<Ip>>, ip: Ip, n: nat)
    decreases n
  {
    ip !in t || (n > 0 && forall x | x in t[ip] :: NestsWithin(t, x, n - 1))
  }

  /** A group that is its own member nests without end. */
  lemma {:induction false} OwnMemberNestsForever(t: map<Ip, seq<Ip>>, ip: Ip, n: nat)
    requires ip in t && ip in t[ip]
    ensures !NestsWithin(t, ip, n)
  {
    if n > 0 {
      OwnMemberNestsForever(t, ip, n - 1);
    }
  }

  /** Where no member is a group, groups nest one deep. */
  lemma FlatNestsOnce(t: map<Ip, seq<Ip>>, ip: Ip, n: nat)
    requires n > 0 && (ip in t ==> forall x | x in t[ip] :: x !in t)
    ensures NestsWithin(t, ip, n)
  {}

  /** A copy has been sent on behalf of a group. */
  ghost function CountSent(b: Books, group: Ip, q: Packet): (r: Books)
    ensures r.counters.Keys == b.counters.Keys
  {
    var s := Stats(1, q.ip.length);
    b.(sent := b.sent + [q], tx := Plus(b.tx, s),
       counters := if group in b.counters then b.counters[group := Plus(b.counters[group], s)] else b.counters)
  }

  /** What the hook does with one packet, with groups nesting up to `n` deep below its destination. */
  ghost function Pass(t: map<Ip, seq<Ip>>, b: Books, p: Packet, fates: Fates, path: seq<nat>, again: bool, n: nat)
    : (r: Books)
    ensures r.counters.Keys == b.counters.Keys
    decreases n, 2
  {
    if p.ip.protocol != IPPROTO_UDP then b
    else if p.ip.dest !in t then b.(drops := b.drops.(noGroup := b.drops.noGroup + 1))
    else if t[p.ip.dest] == [] then b.(drops := b.drops.(noMember := b.drops.noMember + 1))
    else PassAll(t, b, p, t[p.ip.dest], fates, path, again, n)
  }

  /** The copies for the members in turn. */
  ghost function PassAll(t: map<Ip, seq<Ip>>, b: Books, p: Packet, members: seq<Ip>, fates: Fates, path: seq<nat>,
                         again: bool, n: nat): (r: Books)
    ensures r.counters.Keys == b.counters.Keys
    decreases n, 1, |members|
  {
    if members == [] then b
    else var k := |members| - 1;
         PassOne(t, PassAll(t, b, p, members[..k], fates, path, again, n), p, members[k], fates, path + [k], again, n)
  }

  /** One copy; where it passes the hook again, that comes before it is counted. */
  ghost function PassOne(t: map<Ip, seq<Ip>>, b: Books, p: Packet, member: Ip, fates: Fates, path: seq<nat>,
                         again: bool, n: nat): (r: Books)
    ensures r.counters.Keys == b.counters.Keys
    decreases n, 0
  {
    match fates(path)
    case NoMemory => b.(drops := b.drops.(noMemory := b.drops.noMemory + 1))
    case RouteFail => if p.udp.None? then b else b.(drops := b.drops.(routeFail := b.drops.routeFail + 1))
    case Sent =>
      if p.udp.None? then b
      else var q := ServerRewrite(p, member);
           CountSent(if again && n > 0 then Pass(t, b, q, fates, path, again, n - 1) else b, p.ip.dest, q)
  }

  class Hook {
    /** The kernel is later than 2.6.18. */
    const again: bool
    var drops: Drops
    var tx: Stats
    /** What has left the host, in order. */
    var sent: seq<Packet>

    constructor (again: bool)
      ensures this.again == again && drops == Drops(0, 0, 0, 0) && tx == ZERO && sent == []
    {
      this.again, drops, tx, sent := again, Drops(0, 0, 0, 0), ZERO, [];
    }

    /** The books as the kernel table and the hook keep them. */
    ghost function Now<T>(kernel: Groups<T>): Books
      reads this, kernel
    {
      Books(CountersOf(kernel.groups), drops, tx, sent)
    }

    /** Handle one outgoing packet. `fates` says what copying and routing would do for each copy. */
    method LocalOut<T>(kernel: Groups<T>, p: Packet, fates: Fates, path: seq<nat>, ghost n: nat)
      requires kernel.Valid() && this !in kernel.Repr()
      requires again ==> NestsWithin(MembersOf(kernel.groups), p.ip.dest, n)
      modifies this, kernel`groups, kernel.stats
      ensures kernel.Valid() && MembersOf(kernel.groups) == old(MembersOf(kernel.groups))
      ensures Now(kernel) == Pass(old(MembersOf(kernel.groups)), old(Now(kernel)), p, fates, path, again, n)
      ensures p.ip.protocol != 17 ==> Now(kernel) == old(Now(kernel))
      ensures p.ip.protocol == 17 && p.ip.dest !in old(kernel.groups) ==>
        Now(kernel) == old(Now(kernel)).(drops := old(drops).(noGroup := old(drops.noGroup) + 1))
      ensures p.ip.protocol == 17 && p.ip.dest in old(kernel.groups) && old(kernel.groups)[p.ip.dest].members == [] ==>
        Now(kernel) == old(Now(kernel)).(drops := old(drops).(noMember := old(drops.noMember) + 1))
      decreases n, 2
    {
      hide Groups.Valid, MembersOf, CountersOf, PassAll;
      if p.ip.protocol != IPPROTO_UDP {
        return;
      }
      PartsAt(kernel.groups, p.ip.dest);
      var node, list := kernel.LookupMultiNode(p.ip.dest);
      if node.None? {
        drops := drops.(noGroup := drops.noGroup + 1);
        return;
      }
      if node.value.cnt == 0 {
        drops := drops.(noMember := drops.noMember + 1);
        return;
      }
      kernel.OwnerOf(p.ip.dest);
      SendAll(kernel, p, node.value.idx, list, fates, path, n);
    }

    /** The member loop. */
    method SendAll<T>(kernel: Groups<T>, p: Packet, idx: nat, list: seq<Ip>, fates: Fates, path: seq<nat>, ghost n: nat)
      requires kernel.Valid() && this !in kernel.Repr()
      requires idx in kernel.owner && kernel.owner[idx] == p.ip.dest
      requires again ==> n > 0 && forall x | x in list :: NestsWithin(MembersOf(kernel.groups), x, n - 1)
      modifies this, kernel`groups, kernel.stats
      ensures kernel.Valid() && MembersOf(kernel.groups) == old(MembersOf(kernel.groups))
      ensures Now(kernel) == PassAll(old(MembersOf(kernel.groups)), old(Now(kernel)), p, list, fates, path, again, n)
      decreases n, 1
    {
      hide Groups.Valid, MembersOf, CountersOf, PassOne, NestsWithin, PassAll;
      ghost var t, b := MembersOf(kernel.groups), Now(kernel);
      PassNone(t, b, p, fates, path, again, n);
      assert list[..0] == [];
      var i := 0;
      while i < |list|
        invariant 0 <= i <= |list|
        invariant kernel.Valid() && MembersOf(kernel.groups) == t
        invariant Now(kernel) == PassAll(t, b, p, list[..i], fates, path, again, n)
      {
        PassStep(t, b, p, list, fates, path, again, n, i);
        assert list[i] in list;
        SendOne(kernel, p, idx, list[i], fates, path + [i], n);
        i := i + 1;
      }
      assert list[..i] == list;
    }

    /** One turn of the member loop. */
    method SendOne<T>(kernel: Groups<T>, p: Packet, idx: nat, member: Ip, fates: Fates, path: seq<nat>, ghost n: nat)
      requires kernel.Valid() && this !in kernel.Repr()
      requires idx in kernel.owner && kernel.owner[idx] == p.ip.dest
      requires again ==> n > 0 && NestsWithin(MembersOf(kernel.groups), member, n - 1)
      modifies this, kernel`groups, kernel.stats
      ensures kernel.Valid() && MembersOf(kernel.groups) == old(MembersOf(kernel.groups))
      ensures Now(kernel) == PassOne(old(MembersOf(kernel.groups)), old(Now(kernel)), p, member, fates, path, again, n)
      decreases n, 0
    {
      hide Groups.Valid, ServerRewrite, MembersOf, CountersOf, Pass, NestsWithin, CountSent;
      if fates(path) == NoMemory {
        drops := drops.(noMemory := drops.noMemory + 1);
        return;
      }
      if p.udp.None? {
        return;
      }
      if fates(path) == RouteFail {
        drops := drops.(routeFail := drops.routeFail + 1);
        return;
      }
      var copy := ServerRewrite(p, member);
      ServerRewriteFacts(p, member);
      if again {
        LocalOut(kernel, copy, fates, path, n - 1);
      }
      Emit(kernel, idx, copy);
    }

    /** A copy leaves, and is counted. */
    method Emit<T>(kernel: Groups<T>, idx: nat, copy: Packet)
      requires kernel.Valid() && this !in kernel.Repr() && idx in kernel.owner
      modifies this, kernel`groups, kernel.stats
      ensures kernel.Valid() && MembersOf(kernel.groups) == old(MembersOf(kernel.groups))
      ensures Now(kernel) == CountSent(old(Now(kernel)), kernel.owner[idx], copy)
    {
      hide Groups.Valid, MembersOf, CountersOf;
      sent := sent + [copy];
      tx := Stats(tx.packets + 1, tx.bytes + copy.ip.length);
      CountOne(kernel, idx, copy.ip.length);
    }

    /** Count a packet for a group: its counter grows and no member list changes. */
    method CountOne<T>(kernel: Groups<T>, idx: nat, len: nat)
      requires kernel.Valid() && this !in kernel.Repr() && idx in kernel.owner
      modifies kernel`groups, kernel.stats
      ensures kernel.Valid() && MembersOf(kernel.groups) == old(MembersOf(kernel.groups))
      ensures var c, g := old(CountersOf(kernel.groups)), kernel.owner[idx];
              g in c && CountersOf(kernel.groups) == c[g := Plus(c[g], Stats(1, len))]
    {
      hide Groups.Valid, MembersOf, CountersOf;
      ghost var was, g := kernel.groups, kernel.owner[idx];
      kernel.OwnerLives(idx);
      PartsAt(was, g);
      kernel.MultiGrpStats(idx, len);
      PartsChange(was, g, was[g].(stats := Plus(was[g].stats, Stats(1, len))));
      SameUpdate(MembersOf(was), g);
    }
  }

  lemma SameUpdate(t: map<Ip, seq<Ip>>, g: Ip)
    requires g in t
    ensures t[g := t[g]] == t
  {}

  lemma ServerRewriteFacts(p: Packet, member: Ip)
    requires p.udp.Some?
    ensures var q := ServerRewrite(p, member);
            q.ip.dest == member && q.ip.length == p.ip.length && q.ip.protocol == p.ip.protocol
  {}

  lemma PassNone(t: map<Ip, seq<Ip>>, b: Books, p: Packet, fates: Fates, path: seq<nat>, again: bool, n: nat)
    ensures PassAll(t, b, p, [], fates, path, again, n) == b
  {}

  lemma PassStep(t: map<Ip, seq<Ip>>, b: Books, p: Packet, list: seq<Ip>, fates: Fates, path: seq<nat>,
                 again: bool, n: nat, i: nat)
    requires i < |list|
    ensures PassAll(t, b, p, list[..i + 1], fates, path, again, n)
         == PassOne(t, PassAll(t, b, p, list[..i], fates, path, again, n), p, list[i], fates, path + [i], again, n)
  {
    hide PassOne;
    assert list[..i + 1][..i] == list[..i];
  }

  // ---- conservation: what is sent is counted twice over ----

  /** Packets and bytes of a list of packets. */
  function Weight(s: seq<Packet>): Stats {
    if s == [] then ZERO else Plus(Weight(s[..|s| - 1]), Stats(1, s[|s| - 1].ip.length))
  }

  /** The stated lengths of a list of packets, added up. */
  function Bytes(s: seq<Packet>): nat {
    if s == [] then 0 else s[0].ip.length as int + Bytes(s[1..])
  }

  lemma {:induction false} BytesPush(s: seq<Packet>, q: Packet)
    ensures Bytes(s + [q]) == Bytes(s) + q.ip.length as int
  {
    if s != [] {
      BytesPush(s[1..], q);
      assert (s + [q])[1..] == s[1..] + [q];
    }
  }

  /** A list weighs one packet for each of its packets, and the bytes they state. */
  lemma {:induction false} WeightIs(s: seq<Packet>)
    ensures Weight(s).packets == |s| && Weight(s).bytes == Bytes(s)
  {
    hide Bytes;
    if s == [] {
      BytesNothing();
    } else {
      var rest, q := s[..|s| - 1], s[|s| - 1];
      WeightIs(rest);
      BytesPush(rest, q);
      assert rest + [q] == s;
    }
  }

  lemma BytesNothing()
    ensures Bytes([]) == 0
  {}

  /** More was sent, and both the global counter and the groups' counters grew by just that. */
  ghost predicate Grew(b: Books, r: Books) {
    && b.sent <= r.sent
    && r.tx == Plus(b.tx, Weight(r.sent[|b.sent|..]))
    && Total(r.counters) == Plus(Total(b.counters), Weight(r.sent[|b.sent|..]))
  }

  lemma WeightNothing()
    ensures Weight([]) == ZERO
  {}

  lemma WeightPush(s: seq<Packet>, q: Packet)
    ensures Weight(s + [q]) == Plus(Weight(s), Stats(1, q.ip.length))
  {
    assert (s + [q])[..|s|] == s;
  }

  lemma {:induction false} WeightAppend(s: seq<Packet>, u: seq<Packet>)
    ensures Weight(s + u) == Plus(Weight(s), Weight(u))
  {
    hide Weight;
    if u == [] {
      assert s + u == s;
      WeightNothing();
    } else {
      var rest, q := u[..|u| - 1], u[|u| - 1];
      WeightAppend(s, rest);
      WeightPush(s + rest, q);
      WeightPush(rest, q);
      assert rest + [q] == u && s + rest + [q] == s + u;
    }
  }

  lemma GrewTrans(a: Books, b: Books, c: Books)
    requires Grew(a, b) && Grew(b, c)
    ensures Grew(a, c)
  {
    hide Total, Weight;
    var u, v := b.sent[|a.sent|..], c.sent[|b.sent|..];
    WeightAppend(u, v);
    assert c.sent[|a.sent|..] == u + v by {
      assert b.sent == c.sent[..|b.sent|];
    }
  }

  lemma GrewNothing(b: Books, drops: Drops)
    ensures Grew(b, b.(drops := drops))
  {
    hide Total;
    var r := b.(drops := drops);
    assert r.sent[|b.sent|..] == [];
  }

  lemma GrewOne(b: Books, group: Ip, q: Packet)
    requires group in b.counters
    ensures Grew(b, CountSent(b, group, q))
  {
    hide Total;
    TotalGrows(b.counters, group, Stats(1, q.ip.length));
    var r := CountSent(b, group, q);
    assert r.sent[|b.sent|..] == [q];
    assert Weight([q]) == Plus(Weight([]), Stats(1, q.ip.length)) by {
      assert [q][..0] == [];
    }
  }

  /** Every copy that leaves, however it came about, is counted for a group and for the host. */
  lemma {:induction false} PassGrew(t: map<Ip, seq<Ip>>, b: Books, p: Packet, fates: Fates, path: seq<nat>,
                                    again: bool, n: nat)
    requires t.Keys <= b.counters.Keys
    ensures Grew(b, Pass(t, b, p, fates, path, again, n))
    decreases n, 2
  {
    hide Grew, PassAll;
    GrewNothing(b, b.drops);
    GrewNothing(b, b.drops.(noGroup := b.drops.noGroup + 1));
    GrewNothing(b, b.drops.(noMember := b.drops.noMember + 1));
    if p.ip.dest in t {
      PassAllGrew(t, b, p, t[p.ip.dest], fates, path, again, n);
    }
  }

  lemma {:induction false} PassAllGrew(t: map<Ip, seq<Ip>>, b: Books, p: Packet, members: seq<Ip>, fates: Fates,
                                       path: seq<nat>, again: bool, n: nat)
    requires t.Keys <= b.counters.Keys && p.ip.dest in t
    ensures Grew(b, PassAll(t, b, p, members, fates, path, again, n))
    decreases n, 1, |members|
  {
    hide Grew, PassOne;
    if members == [] {
      GrewNothing(b, b.drops);
    } else {
      var k := |members| - 1;
      var mid := PassAll(t, b, p, members[..k], fates, path, again, n);
      PassAllGrew(t, b, p, members[..k], fates, path, again, n);
      PassOneGrew(t, mid, p, members[k], fates, path + [k], again, n);
      GrewTrans(b, mid, PassOne(t, mid, p, members[k], fates, path + [k], again, n));
    }
  }

  lemma {:induction false} PassOneGrew(t: map<Ip, seq<Ip>>, b: Books, p: Packet, member: Ip, fates: Fates,
                                       path: seq<nat>, again: bool, n: nat)
    requires t.Keys <= b.counters.Keys && p.ip.dest in t
    ensures Grew(b, PassOne(t, b, p, member, fates, path, again, n))
    decreases n, 0
  {
    hide Grew, Pass, ServerRewrite, CountSent;
    GrewNothing(b, b.drops);
    GrewNothing(b, b.drops.(noMemory := b.drops.noMemory + 1));
    GrewNothing(b, b.drops.(routeFail := b.drops.routeFail + 1));
    if fates(path) == Sent && p.udp.Some? {
      var q := ServerRewrite(p, member);
      var mid := if again && n > 0 then Pass(t, b, q, fates, path, again, n - 1) else b;
      if again && n > 0 {
        PassGrew(t, b, q, fates, path, again, n - 1);
      }
      GrewOne(mid, p.ip.dest, q);
      GrewTrans(b, mid, CountSent(mid, p.ip.dest, q));
    }
  }

  // ---- one pass in closed form ----

  function CountFate(fates: seq<Fate>, f: Fate): nat {
    if fates == [] then 0
    else CountFate(fates[..|fates| - 1], f) + if fates[|fates| - 1] == f then 1 else 0
  }

  /** Every copy has exactly one fate. */
  lemma {:induction false} FatesPartition(fates: seq<Fate>)
    ensures CountFate(fates, NoMemory) + CountFate(fates, RouteFail) + CountFate(fates, Sent) == |fates|
  {
    if fates != [] {
      FatesPartition(fates[..|fates| - 1]);
    }
  }

  /** The copies that leave, in member order. */
  function Outgoing(p: Packet, members: seq<Ip>, fates: seq<Fate>): (out: seq<Packet>)
    requires p.udp.Some? && |members| == |fates|
    ensures |out| == CountFate(fates, Sent)
  {
    if members == [] then []
    else Outgoing(p, members[..|members| - 1], fates[..|members| - 1])
         + if fates[|members| - 1] == Sent then [ServerRewrite(p, members[|members| - 1])] else []
  }

  /** The fates of the members' own copies. */
  function OwnFates(fates: Fates, path: seq<nat>, k: nat): (fs: seq<Fate>)
    ensures |fs| == k
  {
    seq(k, i requires 0 <= i < k => fates(path + [i]))
  }

  /**
   The drop counters after all copies. An unreadable packet reaches the copying only; a copy
   that passes the hook again finds no group of its own.
   */
  function AllDropped(p: Packet, fates: seq<Fate>, again: bool, d: Drops): Drops {
    d.(noGroup := d.noGroup + if again && p.udp.Some? then CountFate(fates, Sent) else 0,
       noMemory := d.noMemory + CountFate(fates, NoMemory),
       routeFail := d.routeFail + if p.udp.Some? then CountFate(fates, RouteFail) else 0)
  }

  function Times(n: nat, len: nat): Stats { Stats(n, n * len) }

  /** The books after one copy for each member, none of which is a group. */
  ghost function Once(b: Books, p: Packet, members: seq<Ip>, fates: seq<Fate>, again: bool): Books
    requires |members| == |fates|
  {
    var sent := if p.udp.None? then [] else Outgoing(p, members, fates);
    var s := Times(|sent|, p.ip.length);
    b.(drops := AllDropped(p, fates, again, b.drops), sent := b.sent + sent, tx := Plus(b.tx, s),
       counters := if p.ip.dest in b.counters then b.counters[p.ip.dest := Plus(b.counters[p.ip.dest], s)]
                   else b.counters)
  }

  lemma OnceNothing(b: Books, p: Packet, again: bool)
    ensures Once(b, p, [], [], again) == b
  {
    assert Times(0, p.ip.length) == ZERO;
    assert p.ip.dest in b.counters ==> b.counters[p.ip.dest := b.counters[p.ip.dest]] == b.counters;
  }

  lemma TimesStep(n: nat, len: nat, s: Stats)
    ensures Plus(Plus(s, Times(n, len)), Stats(1, len)) == Plus(s, Times(n + 1, len))
  {
    assert (n + 1) * len == n * len + len;
  }

  /** The books after one copy whose member is no group. */
  ghost function CopyOnce(b: Books, p: Packet, member: Ip, fate: Fate, again: bool): Books {
    match fate
    case NoMemory => b.(drops := b.drops.(noMemory := b.drops.noMemory + 1))
    case RouteFail => if p.udp.None? then b else b.(drops := b.drops.(routeFail := b.drops.routeFail + 1))
    case Sent =>
      if p.udp.None? then b
      else CountSent(if again then b.(drops := b.drops.(noGroup := b.drops.noGroup + 1)) else b,
                     p.ip.dest, ServerRewrite(p, member))
  }

  lemma OnceStep(b: Books, p: Packet, members: seq<Ip>, fates: seq<Fate>, again: bool)
    requires |members| == |fates| > 0
    ensures var k := |members| - 1;
            Once(b, p, members, fates, again)
            == CopyOnce(Once(b, p, members[..k], fates[..k], again), p, members[k], fates[k], again)
  {
    hide ServerRewrite, Times;
    var k := |members| - 1;
    if p.udp.Some? {
      var out := Outgoing(p, members[..k], fates[..k]);
      ServerRewriteFacts(p, members[k]);
      TimesStep(|out|, p.ip.length, b.tx);
      if p.ip.dest in b.counters {
        TimesStep(|out|, p.ip.length, b.counters[p.ip.dest]);
      }
    }
  }

  /** When nothing passes the hook again, or no member is a group, a pass is that closed form. */
  lemma {:induction false} PassAllIsOnce(t: map<Ip, seq<Ip>>, b: Books, p: Packet, members: seq<Ip>, fates: Fates,
                                         path: seq<nat>, again: bool, n: nat)
    requires p.ip.protocol == IPPROTO_UDP
    requires again ==> n > 0 && forall x | x in members :: x !in t
    ensures PassAll(t, b, p, members, fates, path, again, n)
         == Once(b, p, members, OwnFates(fates, path, |members|), again)
  {
    hide Once, PassOne, CopyOnce;
    var fs := OwnFates(fates, path, |members|);
    if members == [] {
      OnceNothing(b, p, again);
    } else {
      var k := |members| - 1;
      PassAllIsOnce(t, b, p, members[..k], fates, path, again, n);
      assert fs[..k] == OwnFates(fates, path, k);
      OnceStep(b, p, members, fs, again);
      PassOneIsCopy(t, Once(b, p, members[..k], fs[..k], again), p, members[k], fates, path + [k], again, n);
    }
  }

  lemma PassOneIsCopy(t: map<Ip, seq<Ip>>, b: Books, p: Packet, member: Ip, fates: Fates, path: seq<nat>,
                      again: bool, n: nat)
    requires p.ip.protocol == IPPROTO_UDP && (again ==> n > 0 && member !in t)
    ensures PassOne(t, b, p, member, fates, path, again, n) == CopyOnce(b, p, member, fates(path), again)
  {
    hide ServerRewrite, CountSent;
    if p.udp.Some? {
      ServerRewriteFacts(p, member);
    }
  }

  /** Every member of a matched group with a readable packet is counted exactly once. */
  lemma EveryMemberCounted(t: map<Ip, seq<Ip>>, b: Books, p: Packet, fates: Fates, path: seq<nat>, again: bool, n: nat)
    requires p.ip.protocol == IPPROTO_UDP && p.udp.Some? && p.ip.dest in t && t[p.ip.dest] != []
    requires again ==> n > 0 && forall x | x in t[p.ip.dest] :: x !in t
    ensures var r := Pass(t, b, p, fates, path, again, n);
            && (r.tx.packets - b.tx.packets) + (r.drops.noMemory - b.drops.noMemory)
               + (r.drops.routeFail - b.drops.routeFail) == |t[p.ip.dest]|
            && r.sent == b.sent + Outgoing(p, t[p.ip.dest], OwnFates(fates, path, |t[p.ip.dest]|))
            && r.drops.noGroup - b.drops.noGroup == if again then |r.sent| - |b.sent| else 0
  {
    var members := t[p.ip.dest];
    var fs := OwnFates(fates, path, |members|);
    hide PassAll, Outgoing, CountFate;
    PassAllIsOnce(t, b, p, members, fates, path, again, n);
    FatesPartition(fs);
  }

  // ---- what a pass does, from the table, the packet and the fates alone ----

  lemma {:induction false} CountIs(fates: seq<Fate>, f: Fate)
    ensures CountFate(fates, f) == multiset(fates)[f]
  {
    if fates != [] {
      var k := |fates| - 1;
      CountIs(fates[..k], f);
      assert fates == fates[..k] + [fates[k]];
    }
  }

  lemma CountPush(fates: seq<Fate>, f: Fate)
    requires fates != []
    ensures var k := |fates| - 1; multiset(fates)[f] == multiset(fates[..k])[f] + if fates[k] == f then 1 else 0
  {
    var k := |fates| - 1;
    assert fates == fates[..k] + [fates[k]];
  }

  /** The copies that leave stand in member order: before each stand just those sent before it. */
  lemma {:induction false} OutgoingAt(p: Packet, members: seq<Ip>, fates: seq<Fate>, k: nat)
    requires p.udp.Some? && k < |members| == |fates| && fates[k] == Sent
    ensures |Outgoing(p, members, fates)| == multiset(fates)[Sent]
    ensures var i := multiset(fates[..k])[Sent];
            i < |Outgoing(p, members, fates)| && Outgoing(p, members, fates)[i] == ServerRewrite(p, members[k])
  {
    hide ServerRewrite;
    var last := |members| - 1;
    CountIs(fates, Sent);
    CountIs(fates[..last], Sent);
    if k < last {
      OutgoingAt(p, members[..last], fates[..last], k);
      assert fates[..last][..k] == fates[..k];
    }
  }

  /** When every copy is sent, each member gets one. */
  lemma {:induction false} OutgoingAll(p: Packet, members: seq<Ip>, fates: seq<Fate>)
    requires p.udp.Some? && |members| == |fates| && forall i | 0 <= i < |fates| :: fates[i] == Sent
    ensures Outgoing(p, members, fates) == seq(|members|, i requires 0 <= i < |members| => ServerRewrite(p, members[i]))
    ensures multiset(fates)[Sent] == |members|
  {
    hide ServerRewrite;
    if members != [] {
      var k := |members| - 1;
      OutgoingAll(p, members[..k], fates[..k]);
      CountPush(fates, Sent);
    }
  }

  /** A packet without copies changes one counter at most, and nothing else. */
  lemma WithoutCopies(t: map<Ip, seq<Ip>>, b: Books, p: Packet, fates: Fates, path: seq<nat>, again: bool, n: nat)
    requires p.ip.protocol != 17 || p.ip.dest !in t || t[p.ip.dest] == []
    ensures var d := b.drops;
            Pass(t, b, p, fates, path, again, n) ==
            if p.ip.protocol != 17 then b
            else if p.ip.dest !in t then b.(drops := Drops(d.noGroup + 1, d.noMember, d.noMemory, d.routeFail))
            else b.(drops := Drops(d.noGroup, d.noMember + 1, d.noMemory, d.routeFail))
  {}

  /** A readable packet to a group whose members are no groups: all the hook's books afterwards. */
  lemma FlatPass(t: map<Ip, seq<Ip>>, b: Books, p: Packet, fates: Fates, path: seq<nat>, again: bool, n: nat)
    requires p.ip.protocol == 17 && p.udp.Some? && p.ip.dest in t && t[p.ip.dest] != []
    requires again ==> n > 0 && forall x | x in t[p.ip.dest] :: x !in t
    requires p.ip.dest in b.counters
    ensures var members, d, c := t[p.ip.dest], b.drops, b.counters[p.ip.dest];
            var fs := OwnFates(fates, path, |members|);
            var m := multiset(fs)[Sent];
            Pass(t, b, p, fates, path, again, n) ==
            Books(b.counters[p.ip.dest := Stats(c.packets + m, c.bytes + m * p.ip.length)],
                  Drops(d.noGroup + if again then m else 0, d.noMember,
                        d.noMemory + multiset(fs)[NoMemory], d.routeFail + multiset(fs)[RouteFail]),
                  Stats(b.tx.packets + m, b.tx.bytes + m * p.ip.length),
                  b.sent + Outgoing(p, members, fs))
  {
    hide PassAll, Outgoing, CountFate;
    var members := t[p.ip.dest];
    var fs := OwnFates(fates, path, |members|);
    PassAllIsOnce(t, b, p, members, fates, path, again, n);
    CountIs(fs, Sent);
    CountIs(fs, NoMemory);
    CountIs(fs, RouteFail);
  }

  /** An unreadable packet is only copied: nothing leaves, and only failed copies are counted. */
  lemma UnreadablePass(t: map<Ip, seq<Ip>>, b: Books, p: Packet, fates: Fates, path: seq<nat>, again: bool, n: nat)
    requires p.ip.protocol == 17 && p.udp.None? && p.ip.dest in t && t[p.ip.dest] != []
    ensures var d, k := b.drops, |t[p.ip.dest]|;
            Pass(t, b, p, fates, path, again, n) ==
            b.(drops := d.(noMemory := d.noMemory + multiset(OwnFates(fates, path, k))[NoMemory]))
  {
    hide PassAll;
    UnreadableAll(t, b, p, t[p.ip.dest], fates, path, again, n);
  }

  lemma {:induction false} UnreadableAll(t: map<Ip, seq<Ip>>, b: Books, p: Packet, members: seq<Ip>, fates: Fates,
                                         path: seq<nat>, again: bool, n: nat)
    requires p.udp.None?
    ensures var d, k := b.drops, |members|;
            PassAll(t, b, p, members, fates, path, again, n) ==
            b.(drops := d.(noMemory := d.noMemory + multiset(OwnFates(fates, path, k))[NoMemory]))
  {
    if members != [] {
      var k := |members| - 1;
      UnreadableAll(t, b, p, members[..k], fates, path, again, n);
      CountPush(OwnFates(fates, path, k + 1), NoMemory);
      assert OwnFates(fates, path, k + 1)[..k] == OwnFates(fates, path, k);
    }
  }

  /**
   A group whose one member is a group of addresses that are none, on a kernel where copies
   pass the hook again: the inner group's copies leave first, each rewritten twice, then the
   outer group's one. Either group counts its own, and each inner copy finds no group.
   */
  lemma NestedPass(t: map<Ip, seq<Ip>>, b: Books, p: Packet, g: Ip, fates: Fates, path: seq<nat>, n: nat)
    requires p.ip.protocol == 17 && p.udp.Some? && p.ip.dest in t && t[p.ip.dest] == [g]
    requires g in t && t[g] != [] && forall x | x in t[g] :: x !in t
    requires n >= 2 && fates(path + [0]) == Sent
    requires p.ip.dest in b.counters && g in b.counters
    ensures var fs, r := OwnFates(fates, path + [0], |t[g]|), Pass(t, b, p, fates, path, true, n);
            && r.sent == b.sent + Outgoing(ServerRewrite(p, g), t[g], fs) + [ServerRewrite(p, g)]
            && r.drops == Drops(b.drops.noGroup + multiset(fs)[Sent], b.drops.noMember,
                                b.drops.noMemory + multiset(fs)[NoMemory], b.drops.routeFail + multiset(fs)[RouteFail])
    ensures var r, m := Pass(t, b, p, fates, path, true, n), multiset(OwnFates(fates, path + [0], |t[g]|))[Sent];
            var outer, inner, len := b.counters[p.ip.dest], b.counters[g], p.ip.length;
            && r.tx == Stats(b.tx.packets + m + 1, b.tx.bytes + m * len + len)
            && r.counters == b.counters[g := Stats(inner.packets + m, inner.bytes + m * len)]
                                       [p.ip.dest := Stats(outer.packets + 1, outer.bytes + len)]
  {
    hide ServerRewrite, Outgoing, PassAll, Pass;
    var q := ServerRewrite(p, g);
    ServerRewriteFacts(p, g);
    PassIsOne(t, b, p, g, fates, path, n);
    FlatPass(t, b, q, fates, path + [0], true, n - 1);
  }

  lemma PassIsOne(t: map<Ip, seq<Ip>>, b: Books, p: Packet, g: Ip, fates: Fates, path: seq<nat>, n: nat)
    requires p.ip.protocol == IPPROTO_UDP && p.ip.dest in t && t[p.ip.dest] == [g]
    ensures Pass(t, b, p, fates, path, true, n) == PassOne(t, b, p, g, fates, path + [0], true, n)
  {
    hide PassOne;
    PassNone(t, b, p, fates, path, true, n);
    PassStep(t, b, p, [g], fates, path, true, n, 0);
    assert [g][..0] == [] && [g][..1] == [g];
  }

  /** With every copy sent, in full: the inner group's members in order, then the inner group. */
  lemma NestedSent(t: map<Ip, seq<Ip>>, b: Books, p: Packet, g: Ip, fates: Fates, path: seq<nat>, n: nat)
    requires p.ip.protocol == 17 && p.udp.Some? && p.ip.dest in t && t[p.ip.dest] == [g]
    requires g in t && t[g] != [] && forall x | x in t[g] :: x !in t
    requires n >= 2 && fates(path + [0]) == Sent && forall i: nat | i < |t[g]| :: fates(path + [0] + [i]) == Sent
    requires p.ip.dest in b.counters && g in b.counters
    ensures var q := ServerRewrite(p, g);
            Pass(t, b, p, fates, path, true, n).sent ==
            b.sent + seq(|t[g]|, i requires 0 <= i < |t[g]| => ServerRewrite(q, t[g][i])) + [q]
  {
    hide ServerRewrite, Outgoing, Pass;
    NestedPass(t, b, p, g, fates, path, n);
    var fs := OwnFates(fates, path + [0], |t[g]|);
    assert forall i: nat | i < |t[g]| :: fs[i] == fates(path + [0] + [i]);
    OutgoingAll(ServerRewrite(p, g), t[g], fs);
  }

  /** A member that is an empty group: its copy is dropped there, and still leaves. */
  lemma NestedEmpty(t: map<Ip, seq<Ip>>, b: Books, p: Packet, g: Ip, fates: Fates, path: seq<nat>, n: nat)
    requires p.ip.protocol == 17 && p.udp.Some? && p.ip.dest in t && t[p.ip.dest] == [g]
    requires g in t && t[g] == [] && n >= 2 && fates(path + [0]) == Sent && p.ip.dest in b.counters
    ensures var q, d, c := ServerRewrite(p, g), b.drops, b.counters[p.ip.dest];
            Pass(t, b, p, fates, path, true, n) ==
            Books(b.counters[p.ip.dest := Stats(c.packets + 1, c.bytes + p.ip.length)],
                  Drops(d.noGroup, d.noMember + 1, d.noMemory, d.routeFail),
                  Stats(b.tx.packets + 1, b.tx.bytes + p.ip.length), b.sent + [q])
  {
    hide ServerRewrite, PassAll, Pass;
    ServerRewriteFacts(p, g);
    PassIsOne(t, b, p, g, fates, path, n);
    WithoutCopies(t, b, ServerRewrite(p, g), fates, path + [0], true, n - 1);
  }
}
