/** The userland server's table: its sizes, its hash, and loading it from the configuration file. */
module Userland {
  import opened Base
  import opened Members
  import opened GroupModel
  import opened GroupTable
  import opened Buckets

  const BUCKETS := 2048
  const DEPTH := 1024
  const GROUP_MAX := 256
  const MEMBER_MAX := 128
  const BITMAP_SIZE := 32

  /** What a node carries besides: the group's port and the port members listen on. */
  datatype Ports = Ports(multi: U16, server: U16)

  /** `multi_ip * 1023 % maxnum` in 32-bit arithmetic. */
  function HashKey(ip: Ip): (b: nat)
    ensures b < BUCKETS
  {
    ip * 1023 % 0x1_0000_0000 % BUCKETS
  }

  /** One group of the configuration file. */
  datatype Record = Record(group: Ip, groupPort: nat, serverPort: nat, members: seq<Ip>)

  function PortsOf(r: Record): Ports {
    Ports(r.groupPort % 0x1_0000, r.serverPort % 0x1_0000)
  }

  /** The table has the proxy's sizes. */
  ghost predicate ProxySized(t: Groups<Ports>)
    reads t, t.tab
  {
    t.max == GROUP_MAX && t.vm.Length1 == MEMBER_MAX && t.tab.slots.Length1 == DEPTH
  }

  method NewTable() returns (t: Groups<Ports>)
    ensures t.Valid() && ProxySized(t) && t.groups == map[] && fresh(t.Repr())
  {
    t := new Groups(BUCKETS, DEPTH, GROUP_MAX, MEMBER_MAX, BITMAP_SIZE, HashKey);
  }

  /** What one group of the table shows to a lookup. */
  datatype Shown = Shown(members: seq<Ip>, ports: Ports)

  ghost function Show(m: map<Ip, Group<Ports>>): map<Ip, Shown> {
    map ip | ip in m :: Shown(m[ip].members, m[ip].tag)
  }

  /**
   Loading one more group: a known address gets its new members appended and keeps its
   ports; a new one is created while there is an index left.
   */
  ghost function LoadOne(m: map<Ip, Shown>, r: Record): map<Ip, Shown> {
    if r.group in m then
      var g := m[r.group];
      if |r.members| + |g.members| > MEMBER_MAX then m
      else m[r.group := g.(members := Joined(g.members, r.members))]
    else if |m| == GROUP_MAX then m
    else m[r.group := Shown(r.members, PortsOf(r))]
  }

  ghost function LoadAll(cfg: seq<Record>): map<Ip, Shown> {
    if cfg == [] then map[] else LoadOne(LoadAll(cfg[..|cfg| - 1]), cfg[|cfg| - 1])
  }

  /** No address is configured twice. */
  ghost predicate DistinctGroups(cfg: seq<Record>) {
    forall i, j | 0 <= i < j < |cfg| :: cfg[i].group != cfg[j].group
  }

  /** The configured groups as they stand in the file. */
  ghost predicate Holds(m: map<Ip, Shown>, cfg: seq<Record>) {
    && (forall ip | ip in m :: exists i :: 0 <= i < |cfg| && cfg[i].group == ip)
    && (forall i | 0 <= i < |cfg| ::
          cfg[i].group in m && m[cfg[i].group] == Shown(cfg[i].members, PortsOf(cfg[i])))
  }

  lemma HoldsPush(m: map<Ip, Shown>, cfg: seq<Record>, r: Record)
    requires Holds(m, cfg) && r.group !in m
    ensures Holds(m[r.group := Shown(r.members, PortsOf(r))], cfg + [r])
  {
    hide PortsOf;
    var d := cfg + [r];
    assert d[|cfg|] == r;
    forall ip | ip in m
      ensures exists i :: 0 <= i < |d| && d[i].group == ip
    {
      var i :| 0 <= i < |cfg| && cfg[i].group == ip;
      assert d[i].group == ip;
    }
  }

  /** At most 256 different groups load to exactly themselves, members in order. */
  lemma {:induction false} LoadDistinct(cfg: seq<Record>)
    requires DistinctGroups(cfg) && |cfg| <= GROUP_MAX
    ensures |LoadAll(cfg)| == |cfg| && Holds(LoadAll(cfg), cfg)
  {
    hide PortsOf, Joined;
    if cfg != [] {
      var rest, r := cfg[..|cfg| - 1], cfg[|cfg| - 1];
      assert rest + [r] == cfg;
      LoadDistinct(rest);
      HoldsPush(LoadAll(rest), rest, r);
    }
  }

  /** A group configured again gets its further members, if they fit, and keeps its first ports. */
  lemma LoadRepeated(cfg: seq<Record>, i: nat, r: Record)
    requires DistinctGroups(cfg) && i < |cfg| <= GROUP_MAX && r.group == cfg[i].group && Distinct(r.members)
    requires Distinct(cfg[i].members)
    ensures var m, n := LoadAll(cfg), LoadAll(cfg + [r]);
            && r.group in m && r.group in n && n == m[r.group := n[r.group]]
            && n[r.group].ports == Ports(cfg[i].groupPort % 0x1_0000, cfg[i].serverPort % 0x1_0000)
            && (var was, now := cfg[i].members, n[r.group].members;
                if |r.members| + |was| > 128 then now == was
                else was <= now && Distinct(now) && SetOf(now) == SetOf(was) + SetOf(r.members)
                     && InOrder(now[|was|..], r.members))
  {
    hide LoadAll, Distinct, SetOf, Fresh, InOrder;
    LoadDistinct(cfg);
    LoadAllPush(cfg, r);
    JoinedIsUnion(cfg[i].members, r.members);
    FreshInOrder(cfg[i].members, r.members);
  }

  lemma LoadAllPush(cfg: seq<Record>, r: Record)
    ensures LoadAll(cfg + [r]) == LoadOne(LoadAll(cfg), r)
  {
    hide LoadOne;
    assert (cfg + [r])[..|cfg|] == cfg;
  }

  /** A group too many is left out. */
  lemma LoadFull(cfg: seq<Record>, r: Record)
    requires DistinctGroups(cfg + [r]) && |cfg| == 256
    ensures LoadAll(cfg + [r]) == LoadAll(cfg)
  {
    hide LoadAll, Joined;
    assert forall i | 0 <= i < |cfg| :: (cfg + [r])[i] == cfg[i];
    assert (cfg + [r])[|cfg|] == r;
    LoadDistinct(cfg);
    LoadAllPush(cfg, r);
  }

  /** The hash is the product modulo the table's size, the 32-bit wrap-around being harmless; it spreads evenly. */
  lemma HashIgnoresWrap(ip: Ip, other: Ip)
    ensures HashKey(ip) == ip * 1023 % 2048
    ensures HashKey(ip) == HashKey(other) <==> ip % 2048 == other % 2048
  {
    ProductMod(ip);
    ProductMod(other);
    ProductBack(ip);
    ProductBack(other);
  }

  lemma ProductMod(ip: Ip)
    ensures HashKey(ip) == ip * 1023 % 2048
    ensures HashKey(ip) == ip % 2048 * 1023 % 2048
  {
    var x := ip * 1023;
    var q, r := x / 0x1_0000_0000, x % 0x1_0000_0000;
    var k, h := r / 2048, r % 2048;
    assert x == (q * 0x20_0000 + k) * 2048 + h;
    Residue(x, q * 0x20_0000 + k, h, 2048);
    var j, l := ip / 2048, ip % 2048;
    assert l * 1023 == (q * 0x20_0000 + k - j * 1023) * 2048 + h;
    Residue(l * 1023, q * 0x20_0000 + k - j * 1023, h, 2048);
  }

  /** Multiplying by 1023 twice is multiplying by one, modulo 2048. */
  lemma ProductBack(ip: Ip)
    ensures HashKey(ip) * 1023 % 2048 == ip % 2048
  {
    ProductMod(ip);
    var h, l := HashKey(ip), ip % 2048;
    var k := l * 1023 / 2048;
    assert l * 1023 == k * 2048 + h;
    assert h * 1023 == (l * 511 - k * 1023) * 2048 + l;
    Residue(h * 1023, l * 511 - k * 1023, l, 2048);
  }

  /**
   The row counter has 8 bits and a bucket 1024 rows, yet once an index was taken the row
   search ends: at most 255 groups are live, so the bucket has a free row within reach, and
   the branch that gives the index back is never taken.
   */
  lemma RowSearchReaches(t: Groups<Ports>, ip: Ip)
    requires t.Valid() && ProxySized(t) && |t.groups| < GROUP_MAX
    ensures t.tab.Hashes() && t.tab.Packed()
    ensures var fill := t.tab.fill[t.tab.Home(ip)];
            fill <= 255 && (exists n: nat :: StopsAt(DEPTH, fill, n)) && !t.NoRoom(ip)
  {
    hide Groups.Valid, Table.Home, StopsAt;
    TableHashes(t);
    t.FillCount(t.tab.Home(ip));
    RowSearchEnds(DEPTH, t.tab.fill[t.tab.Home(ip)]);
  }

  lemma TableHashes(t: Groups<Ports>)
    requires t.Valid()
    ensures t.tab.Hashes()
  {}

  /** Add one configured group to the table. */
  method LoadGroup(t: Groups<Ports>, r: Record)
    requires t.Valid() && ProxySized(t) && |r.members| <= MEMBER_MAX
    modifies t.Repr()
    ensures t.Valid()
    ensures Show(t.groups) == LoadOne(old(Show(t.groups)), r)
  {
    hide Groups.Valid, Joined;
    ghost var was := t.groups;
    t.DeepBuckets(r.group);
    ShowSize(was);
    var ret := t.AddMultiNode(r.group, PortsOf(r), r.members);
  }

  lemma ShowSize(m: map<Ip, Group<Ports>>)
    ensures |Show(m)| == |m|
  {
    assert Show(m).Keys == m.Keys;
    assert |Show(m)| == |Show(m).Keys| && |m| == |m.Keys|;
  }

  /** Load every configured group, and remember the addresses. */
  method CfgInit(t: Groups<Ports>, cfg: seq<Record>, groupIp: array<Ip>) returns (groupNum: nat)
    requires t.Valid() && ProxySized(t) && t.groups == map[]
    requires groupIp !in t.Repr()
    requires |cfg| <= groupIp.Length && forall r | r in cfg :: |r.members| <= MEMBER_MAX
    modifies t.Repr(), groupIp
    ensures t.Valid() && Show(t.groups) == LoadAll(cfg)
    ensures groupNum == |cfg| && forall i | 0 <= i < |cfg| :: groupIp[i] == cfg[i].group
    ensures forall i | |cfg| <= i < groupIp.Length :: groupIp[i] == old(groupIp[i])
  {
    hide Groups.Valid, LoadOne;
    groupNum := |cfg|;
    var i := 0;
    while i < groupNum
      invariant 0 <= i <= |cfg|
      invariant t.Valid() && Show(t.groups) == LoadAll(cfg[..i])
      invariant forall k | 0 <= k < i :: groupIp[k] == cfg[k].group
      invariant forall k | i <= k < groupIp.Length :: groupIp[k] == old(groupIp[k])
    {
      assert cfg[..i + 1][..i] == cfg[..i];
      groupIp[i] := cfg[i].group;
      LoadGroup(t, cfg[i]);
      i := i + 1;
    }
    assert cfg[..i] == cfg;
  }

  /** The reload command: zero the table, whatever it held, and load the file. */
  method Reload(t: Groups<Ports>, cfg: seq<Record>, groupIp: array<Ip>) returns (groupNum: nat)
    requires t.Shaped() && ProxySized(t) && groupIp !in t.Repr()
    requires |cfg| <= groupIp.Length && forall r | r in cfg :: |r.members| <= MEMBER_MAX
    modifies t.Repr(), groupIp
    ensures t.Valid() && Show(t.groups) == LoadAll(cfg)
    ensures groupNum == |cfg| && forall i | 0 <= i < |cfg| :: groupIp[i] == cfg[i].group
    ensures forall i | |cfg| <= i < groupIp.Length :: groupIp[i] == old(groupIp[i])
  {
    hide Groups.Valid, Groups.Shaped;
    t.MultiNodeInit();
    groupNum := CfgInit(t, cfg, groupIp);
  }

  /** The proxy's start does the same to its tables. */
  method Startup(cfg: seq<Record>, groupIp: array<Ip>) returns (t: Groups<Ports>, groupNum: nat)
    requires |cfg| <= groupIp.Length && forall r | r in cfg :: |r.members| <= MEMBER_MAX
    modifies groupIp
    ensures fresh(t.Repr()) && t.Valid() && ProxySized(t) && Show(t.groups) == LoadAll(cfg)
    ensures groupNum == |cfg| && forall i | 0 <= i < |cfg| :: groupIp[i] == cfg[i].group
    ensures forall i | |cfg| <= i < groupIp.Length :: groupIp[i] == old(groupIp[i])
  {
    hide LoadAll;
    t := NewTable();
    groupNum := Reload(t, cfg, groupIp);
  }

  /** After a reload of distinct groups a lookup finds each with its members and port, and nothing else. */
  method LookupAfterReload(t: Groups<Ports>, cfg: seq<Record>, ip: Ip)
    returns (node: Option<Info<Ports>>, list: seq<Ip>)
    requires t.Valid() && Show(t.groups) == LoadAll(cfg)
    requires DistinctGroups(cfg) && |cfg| <= GROUP_MAX
    ensures node == None <==> forall i | 0 <= i < |cfg| :: cfg[i].group != ip
    ensures forall i | 0 <= i < |cfg| && cfg[i].group == ip ::
      && list == cfg[i].members && node.Some?
      && node.value.cnt == |list| && node.value.tag.server == cfg[i].serverPort % 0x1_0000
  {
    hide Groups.Valid, LoadAll;
    LoadDistinct(cfg);
    ghost var m := Show(t.groups);
    assert m.Keys == t.groups.Keys;
    node, list := t.LookupMultiNode(ip);
  }
}
