/**
 The server's groups as values: what a node stores, what a group means, and how the
 node map, the index owners and the member rows stay consistent with one another.
 */
module GroupModel {
  import opened Base

  /** A node as stored: member count, 8-bit index, and the extra fields `T`. */
  datatype Info<T> = Info(cnt: nat, idx: nat, tag: T)

  datatype Stats = Stats(packets: nat, bytes: nat)

  /** A group as its users see it. */
  datatype Group<T> = Group(idx: nat, members: seq<Ip>, tag: T, stats: Stats)

  const ZERO := Stats(0, 0)

  function Plus(a: Stats, b: Stats): Stats {
    Stats(a.packets + b.packets, a.bytes + b.bytes)
  }

  /** Indices belong to exactly one group each, counts fit their rows, unowned rows are empty. */
  ghost predicate Consistent<T>(nodes: map<Ip, Info<T>>, owner: map<nat, Ip>, rows: seq<seq<Ip>>) {
    && (forall ip | ip in nodes ::
          nodes[ip].idx < |rows| && nodes[ip].idx in owner && owner[nodes[ip].idx] == ip)
    && (forall ip | ip in nodes :: nodes[ip].cnt == |rows[nodes[ip].idx]|)
    && (forall i | i in owner :: i < |rows| && owner[i] in nodes && nodes[owner[i]].idx == i)
    && (forall i: nat | i < |rows| && i !in owner :: rows[i] == [])
  }

  /** The map from group address to group that the stored pieces denote. */
  ghost function View<T>(nodes: map<Ip, Info<T>>, owner: map<nat, Ip>, rows: seq<seq<Ip>>, stats: seq<Stats>)
    : (m: map<Ip, Group<T>>)
    requires Consistent(nodes, owner, rows) && |stats| == |rows|
    ensures m.Keys == nodes.Keys
  {
    map ip | ip in nodes :: Group(nodes[ip].idx, rows[nodes[ip].idx], nodes[ip].tag, stats[nodes[ip].idx])
  }

  /** Without nodes and with empty rows there are no groups. */
  lemma NoGroups<T>(nodes: map<Ip, Info<T>>, owner: map<nat, Ip>, rows: seq<seq<Ip>>, stats: seq<Stats>)
    requires nodes == map[] && owner == map[] && |stats| == |rows| && forall i | 0 <= i < |rows| :: rows[i] == []
    ensures Consistent(nodes, owner, rows) && View(nodes, owner, rows, stats) == map[]
  {}

  /** What one node of a consistent table tells about its index and row. */
  lemma NodeFacts<T>(nodes: map<Ip, Info<T>>, owner: map<nat, Ip>, rows: seq<seq<Ip>>, ip: Ip)
    requires Consistent(nodes, owner, rows) && ip in nodes
    ensures nodes[ip].idx < |rows| && nodes[ip].cnt == |rows[nodes[ip].idx]|
    ensures nodes[ip].idx in owner && owner[nodes[ip].idx] == ip
  {}

  lemma FreeRow<T>(nodes: map<Ip, Info<T>>, owner: map<nat, Ip>, rows: seq<seq<Ip>>, i: nat)
    requires Consistent(nodes, owner, rows) && i !in owner && i < |rows|
    ensures rows[i] == []
  {}

  lemma ViewAt<T>(nodes: map<Ip, Info<T>>, owner: map<nat, Ip>, rows: seq<seq<Ip>>, stats: seq<Stats>, ip: Ip)
    requires Consistent(nodes, owner, rows) && |stats| == |rows| && ip in nodes
    ensures var n, v := nodes[ip], View(nodes, owner, rows, stats);
            ip in v && v[ip] == Group(n.idx, rows[n.idx], n.tag, stats[n.idx])
  {}

  /** A new node on an unowned index adds exactly its own group. */
  lemma AddNode<T>(nodes: map<Ip, Info<T>>, owner: map<nat, Ip>, rows: seq<seq<Ip>>, stats: seq<Stats>,
                   ip: Ip, i: nat, m: seq<Ip>, tag: T)
    requires Consistent(nodes, owner, rows) && |stats| == |rows|
    requires ip !in nodes && i !in owner && i < |rows|
    ensures var nodes', owner', rows' := nodes[ip := Info(|m|, i, tag)], owner[i := ip], rows[i := m];
            Consistent(nodes', owner', rows') &&
            View(nodes', owner', rows', stats[i := ZERO])
            == View(nodes, owner, rows, stats)[ip := Group(i, m, tag, ZERO)]
  {
    assert forall other | other in nodes :: nodes[other].idx != i;
  }

  /** Changing one node's row and count changes exactly its own member list. */
  lemma ChangeMembers<T>(nodes: map<Ip, Info<T>>, owner: map<nat, Ip>, rows: seq<seq<Ip>>, stats: seq<Stats>,
                         ip: Ip, m: seq<Ip>)
    requires Consistent(nodes, owner, rows) && |stats| == |rows|
    requires ip in nodes
    ensures var n := nodes[ip];
            var nodes', rows' := nodes[ip := n.(cnt := |m|)], rows[n.idx := m];
            Consistent(nodes', owner, rows') &&
            View(nodes', owner, rows', stats)
            == var v := View(nodes, owner, rows, stats); v[ip := v[ip].(members := m)]
  {
    assert forall other | other in nodes && other != ip :: nodes[other].idx != nodes[ip].idx;
  }

  /** Dropping a node and emptying its row removes exactly its own group. */
  lemma DropNode<T>(nodes: map<Ip, Info<T>>, owner: map<nat, Ip>, rows: seq<seq<Ip>>, stats: seq<Stats>, ip: Ip)
    requires Consistent(nodes, owner, rows) && |stats| == |rows|
    requires ip in nodes
    ensures var i := nodes[ip].idx;
            Consistent(nodes - {ip}, owner - {i}, rows[i := []]) &&
            View(nodes - {ip}, owner - {i}, rows[i := []], stats) == View(nodes, owner, rows, stats) - {ip}
  {
    assert forall other | other in nodes && other != ip :: nodes[other].idx != nodes[ip].idx;
  }

  /** Zeroing the counter of a dropped node touches no other group. */
  lemma DropStats<T>(nodes: map<Ip, Info<T>>, owner: map<nat, Ip>, rows: seq<seq<Ip>>, stats: seq<Stats>, ip: Ip)
    requires Consistent(nodes, owner, rows) && |stats| == |rows|
    requires ip in nodes
    ensures var i := nodes[ip].idx;
            Consistent(nodes - {ip}, owner - {i}, rows[i := []]) &&
            View(nodes - {ip}, owner - {i}, rows[i := []], stats[i := ZERO]) == View(nodes, owner, rows, stats) - {ip}
  {
    assert forall other | other in nodes && other != ip :: nodes[other].idx != nodes[ip].idx;
  }

  /** Changing the counter of an owned index changes exactly the owner's counter. */
  lemma ChangeStats<T>(nodes: map<Ip, Info<T>>, owner: map<nat, Ip>, rows: seq<seq<Ip>>, stats: seq<Stats>,
                       i: nat, s: Stats)
    requires Consistent(nodes, owner, rows) && |stats| == |rows|
    requires i in owner
    ensures View(nodes, owner, rows, stats[i := s])
            == var v := View(nodes, owner, rows, stats); v[owner[i] := v[owner[i]].(stats := s)]
  {
    assert forall other | other in nodes && other != owner[i] :: nodes[other].idx != i;
  }

  /** As many indices are owned as there are groups. */
  lemma OwnerCount<T>(nodes: map<Ip, Info<T>>, owner: map<nat, Ip>, rows: seq<seq<Ip>>)
    requires Consistent(nodes, owner, rows)
    ensures |owner| == |nodes| <= |rows|
  {
    var f := map ip | ip in nodes :: nodes[ip].idx;
    BijectionCount(f, owner);
    assert |f| == |f.Keys| && f.Keys == nodes.Keys && |nodes| == |nodes.Keys|;
    SubsetCount(owner.Keys, Below(|rows|));
    assert |owner| == |owner.Keys|;
  }

  // ---- members and counters apart ----

  /** Each group with its member list. */
  ghost function MembersOf<T>(groups: map<Ip, Group<T>>): (t: map<Ip, seq<Ip>>)
    ensures t.Keys == groups.Keys
  {
    map ip | ip in groups :: groups[ip].members
  }

  /** Each group with its counter. */
  ghost function CountersOf<T>(groups: map<Ip, Group<T>>): (c: map<Ip, Stats>)
    ensures c.Keys == groups.Keys
  {
    map ip | ip in groups :: groups[ip].stats
  }

  lemma PartsAt<T>(groups: map<Ip, Group<T>>, ip: Ip)
    ensures ip in groups ==> MembersOf(groups)[ip] == groups[ip].members && CountersOf(groups)[ip] == groups[ip].stats
  {}

  lemma PartsSize<T>(groups: map<Ip, Group<T>>)
    ensures |MembersOf(groups)| == |groups|
  {
    var t := MembersOf(groups);
    assert |t| == |t.Keys| && |groups| == |groups.Keys|;
  }

  lemma MembersChange<T>(groups: map<Ip, Group<T>>, ip: Ip, g: Group<T>)
    ensures MembersOf(groups[ip := g]) == MembersOf(groups)[ip := g.members]
  {}

  lemma CountersChange<T>(groups: map<Ip, Group<T>>, ip: Ip, g: Group<T>)
    ensures CountersOf(groups[ip := g]) == CountersOf(groups)[ip := g.stats]
  {}

  lemma PartsChange<T>(groups: map<Ip, Group<T>>, ip: Ip, g: Group<T>)
    ensures MembersOf(groups[ip := g]) == MembersOf(groups)[ip := g.members]
    ensures CountersOf(groups[ip := g]) == CountersOf(groups)[ip := g.stats]
  {
    hide MembersOf, CountersOf;
    MembersChange(groups, ip, g);
    CountersChange(groups, ip, g);
  }

  lemma PartsDrop<T>(groups: map<Ip, Group<T>>, ip: Ip)
    ensures MembersOf(groups - {ip}) == MembersOf(groups) - {ip}
    ensures CountersOf(groups - {ip}) == CountersOf(groups) - {ip}
  {}

  lemma PartsNone<T>(groups: map<Ip, Group<T>>)
    requires groups == map[]
    ensures MembersOf(groups) == map[] && CountersOf(groups) == map[]
  {}

  // ---- packet totals ----

  /** The counters of all groups together. */
  ghost function Total(m: map<Ip, Stats>): Stats
    decreases |m|
  {
    if m == map[] then ZERO
    else var k: Ip :| k in m;
         Plus(m[k], Total(m - {k}))
  }

  lemma TotalEmpty(m: map<Ip, Stats>)
    requires m == map[]
    ensures Total(m) == ZERO
  {}

  /** Any one group can be taken out of the total first. */
  lemma {:induction false} TotalSplit(m: map<Ip, Stats>, k: Ip)
    requires k in m
    ensures Total(m) == Plus(m[k], Total(m - {k}))
    decreases |m|
  {
    var c: Ip :| c in m && Total(m) == Plus(m[c], Total(m - {c}));
    if c != k {
      var mc, mk := m - {c}, m - {k};
      TotalSplit(mc, k);
      TotalSplit(mk, c);
      assert mc - {k} == mk - {c};
      assert mc[k] == m[k];
      assert mk[c] == m[c];
      assert Total(mk) == Plus(m[c], Total(mk - {c}));
      assert Total(m) == Plus(m[c], Plus(m[k], Total(mc - {k})));
    }
  }

  /** Replacing one counter replaces its share of the total. */
  lemma TotalUpdate(m: map<Ip, Stats>, k: Ip, s: Stats)
    ensures Total(m[k := s]) == Plus(s, Total(m - {k}))
    ensures Total(m) == Plus(if k in m then m[k] else ZERO, Total(m - {k}))
  {
    hide Total;
    TotalSplit(m[k := s], k);
    assert m[k := s] - {k} == m - {k};
    if k in m {
      TotalSplit(m, k);
    } else {
      assert m - {k} == m;
    }
  }

  /** Counting more packets for one group adds them to the total. */
  lemma TotalGrows(m: map<Ip, Stats>, k: Ip, s: Stats)
    requires k in m
    ensures Total(m[k := Plus(m[k], s)]) == Plus(Total(m), s)
  {
    hide Total;
    TotalUpdate(m, k, Plus(m[k], s));
  }

  /** The counters once exactly the groups in `keys` are live: a new group starts at zero. */
  ghost function Kept(m: map<Ip, Stats>, keys: set<Ip>): (n: map<Ip, Stats>)
    ensures n.Keys == keys
  {
    map ip | ip in keys :: if ip in m then m[ip] else ZERO
  }

  /** Groups that keep their counters, or are new and at zero, have the counters that are kept. */
  lemma KeptOf<T>(was: map<Ip, Group<T>>, now: map<Ip, Group<T>>)
    requires forall ip | ip in now :: now[ip].stats == if ip in was then was[ip].stats else ZERO
    ensures CountersOf(now) == Kept(CountersOf(was), now.Keys)
  {}

  /** While no group goes nothing is lost. */
  lemma KeptAll(m: map<Ip, Stats>, keys: set<Ip>)
    requires m.Keys <= keys
    ensures Total(m - keys) == ZERO
    ensures m.Keys == keys ==> Kept(m, keys) == m
  {
    hide Total;
    TotalEmpty(m - keys);
  }

  lemma {:induction false} KeptNothing(keys: set<Ip>)
    ensures Total(Kept(map[], keys)) == ZERO
    decreases |keys|
  {
    hide Total, Kept;
    if keys == {} {
      TotalEmpty(Kept(map[], keys));
    } else {
      var k: Ip :| k in keys;
      KeptNothing(keys - {k});
      KeptLess(keys, k);
    }
  }

  lemma KeptLess(keys: set<Ip>, k: Ip)
    requires k in keys
    ensures Total(Kept(map[], keys)) == Total(Kept(map[], keys - {k}))
  {
    hide Total;
    var m := Kept(map[], keys);
    TotalSplit(m, k);
    assert m - {k} == Kept(map[], keys - {k});
  }

  lemma KeptFromNothing(m: map<Ip, Stats>, keys: set<Ip>)
    requires m == map[]
    ensures Total(m) == Plus(Total(Kept(m, keys)), Total(m - keys))
  {
    hide Total, Kept;
    KeptNothing(keys);
    TotalEmpty(m);
    TotalEmpty(m - keys);
  }

  lemma FewerKeys(m: map<Ip, Stats>, k: Ip)
    requires k in m
    ensures |m - {k}| < |m|
  {
    assert m.Keys == (m - {k}).Keys + {k};
    assert |m| == |m.Keys| && |m - {k}| == |(m - {k}).Keys|;
  }

  /** What the counters of the live groups lose is what the counters of the removed groups held. */
  lemma {:induction false} KeptTotal(m: map<Ip, Stats>, keys: set<Ip>)
    ensures Total(m) == Plus(Total(Kept(m, keys)), Total(m - keys))
    decreases |m|
  {
    hide Total, Kept, Plus;
    if m == map[] {
      KeptFromNothing(m, keys);
    } else {
      var k: Ip :| k in m;
      FewerKeys(m, k);
      KeptTotal(m - {k}, keys);
      KeptStep(m, keys, k);
    }
  }

  lemma PlusMoves(a: Stats, x: Stats, y: Stats)
    ensures Plus(a, Plus(x, y)) == Plus(Plus(a, x), y) == Plus(x, Plus(a, y))
  {}

  /** One counter is either kept or removed. */
  lemma KeptStep(m: map<Ip, Stats>, keys: set<Ip>, k: Ip)
    requires k in m && Total(m - {k}) == Plus(Total(Kept(m - {k}, keys)), Total(m - {k} - keys))
    ensures Total(m) == Plus(Total(Kept(m, keys)), Total(m - keys))
  {
    hide Total, Kept, Plus;
    TotalSplit(m, k);
    PlusMoves(m[k], Total(Kept(m - {k}, keys)), Total(m - {k} - keys));
    if k in keys {
      KeptOne(m, keys, k);
    } else {
      RemovedOne(m, keys, k);
    }
  }

  lemma KeptOne(m: map<Ip, Stats>, keys: set<Ip>, k: Ip)
    requires k in m && k in keys
    ensures Total(Kept(m, keys)) == Plus(m[k], Total(Kept(m - {k}, keys)))
    ensures Total(m - keys) == Total(m - {k} - keys)
  {
    hide Total;
    var rest := Kept(m - {k}, keys);
    TotalUpdate(rest, k, m[k]);
    assert Kept(m, keys) == rest[k := m[k]];
    assert m - keys == m - {k} - keys;
  }

  lemma RemovedOne(m: map<Ip, Stats>, keys: set<Ip>, k: Ip)
    requires k in m && k !in keys
    ensures Total(Kept(m, keys)) == Total(Kept(m - {k}, keys))
    ensures Total(m - keys) == Plus(m[k], Total(m - {k} - keys))
  {
    hide Total;
    assert Kept(m, keys) == Kept(m - {k}, keys);
    TotalSplit(m - keys, k);
    assert m - keys - {k} == m - {k} - keys;
  }
}
