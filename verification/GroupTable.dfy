/**
 The group table of the multicast server: a hash table from group address to node, a
 pool that gives each node an index, and two arrays addressed by that index, the member
 rows and the packet counters. The kernel module and the userland proxy share the
 algorithm; `T` is what a node carries besides (nothing in the kernel, two ports in the
 proxy).
 */
module GroupTable {
  import opened Base
  import opened Members
  import opened GroupModel
  import opened MemberRows
  import opened Buckets
  import opened IndexPool

  /** The cast to the node's 8-bit index field. */
  function IndexCast(idx: nat): (i: nat)
    ensures idx < 0x100 ==> i == idx
  {
    idx % 0x100
  }

  lemma PutTwice<K, V>(m: map<K, V>, k: K, a: V, b: V, was: map<K, V>)
    requires m == was[k := a]
    ensures m[k := b] == was[k := b]
  {}

  class Groups<T> {
    const max: nat
    const tab: Table<Ip, Info<T>>
    const pool: Pool
    const vm: array2<Ip>
    const stats: array<Stats>

    // The groups the table holds, who owns each index, and what each row holds.
    ghost var groups: map<Ip, Group<T>>
    ghost var owner: map<nat, Ip>
    ghost var rows: seq<seq<Ip>>

    ghost function Repr(): set<object> {
      {this, tab, tab.slots, pool, pool.bytes, vm, stats}
    }

    /** The pieces are sized for one another; an index fits the node's 8-bit field. */
    ghost predicate Shaped()
      reads this, tab
    {
      && pool.max == max <= 0x100 && max <= 8 * pool.bytes.Length
      && vm.Length0 == stats.Length == max
      && tab.Hashes()
      && (vm as object) != tab.slots && (stats as object) != pool.bytes
    }

    /**
     The table is a packed hash table, the set bits of the pool are exactly the owned
     indices, the rows hold the members and zeros, and all of it denotes one map.
     */
    ghost predicate Valid()
      reads Repr()
    {
      Linked() && pool.used == owner.Keys
    }

    /** Everything but the pool's set bits is in order. */
    ghost predicate Linked()
      reads Repr()
    {
      Parts() && pool.Valid()
    }

    /** The parts other than the pool: table, rows and counters denote the groups. */
    ghost predicate Parts()
      reads this, tab, tab.slots, vm, stats
    {
      && Shaped() && tab.Valid() && RowsAre(vm, rows) && |rows| == max
      && Consistent(tab.view, owner, rows)
      && groups == View(tab.view, owner, rows, stats[..])
    }

    lemma PartsFacts()
      requires Parts()
      ensures Shaped() && tab.Valid() && groups.Keys == tab.view.Keys
      ensures pool.max == max <= 0x100 && tab.Hashes()
    {
      hide Table.Valid, RowsAre, Consistent, View;
    }

    /** A node's index is owned. */
    lemma PartsNode(ip: Ip)
      requires Parts() && ip in tab.view
      ensures tab.view[ip].idx < max && tab.view[ip].idx in owner
    {
      hide Table.Valid, RowsAre, Consistent, View;
      NodeFacts(tab.view, owner, rows, ip);
    }

    constructor (buckets: nat, depth: nat, max: nat, vmMax: nat, poolBytes: nat, hash: Ip -> nat)
      requires forall ip :: hash(ip) < buckets
      requires max <= 0x100 && max <= 8 * poolBytes
      ensures Valid() && fresh(Repr())
      ensures this.max == max && vm.Length1 == vmMax
      ensures tab.slots.Length1 == depth && tab.hash == hash
      ensures groups == map[]
    {
      hide Table.Home, Table.Valid, Pool.Valid, RowsAre, Consistent, View;
      this.max := max;
      tab := new Table(buckets, depth, hash);
      pool := new Pool(max, poolBytes);
      vm := new Ip[max, vmMax]((i, j) => 0);
      stats := new Stats[max](i => ZERO);
      groups, owner, rows := map[], map[], seq(max, i => []);
      new;
      RowsAreEmpty(vm);
      NoGroups(tab.view, owner, rows, stats[..]);
    }

    /** What a lookup hands to its caller: the node's fields and its member list. */
    method LookupMultiNode(ip: Ip) returns (node: Option<Info<T>>, list: seq<Ip>)
      requires Valid()
      ensures Valid()
      ensures ip in groups ==>
        var g := groups[ip]; node == Some(Info(|g.members|, g.idx, g.tag)) && list == g.members
      ensures ip !in groups ==> node == None && list == []
    {
      hide Table.Home, Table.Valid, Table.At, Pool.Valid, RowsAre, Consistent, View;
      var b, r;
      node, b, r := tab.Lookup(ip);
      if node == None {
        return None, [];
      }
      NodeFacts(tab.view, owner, rows, ip);
      ViewAt(tab.view, owner, rows, stats[..], ip);
      list := GetVmIpList(vm, node.value.idx, node.value.cnt, rows);
    }

    /** A live group owns its index. */
    lemma OwnerOf(ip: Ip)
      requires Valid() && ip in groups
      ensures groups[ip].idx in owner && owner[groups[ip].idx] == ip
    {
      hide Table.Valid, Pool.Valid, RowsAre, Consistent, View;
      NodeFacts(tab.view, owner, rows, ip);
      ViewAt(tab.view, owner, rows, stats[..], ip);
    }

    /** An owned index belongs to a live group. */
    lemma OwnerLives(idx: nat)
      requires Valid() && idx in owner
      ensures owner[idx] in groups && idx < max
    {
      hide Table.Valid, Pool.Valid, RowsAre, View;
    }

    /** Count one packet sent on behalf of the group that owns the index. */
    method MultiGrpStats(idx: nat, len: nat)
      requires Valid() && idx in owner
      modifies this`groups, stats
      ensures Valid()
      ensures var g := old(groups)[owner[idx]];
              groups == old(groups)[owner[idx] := g.(stats := Stats(g.stats.packets + 1, g.stats.bytes + len))]
    {
      hide Table.Home, Table.Valid, Pool.Valid, RowsAre;
      ghost var s := Plus(stats[idx], Stats(1, len));
      ChangeStats(tab.view, owner, rows, stats[..], idx, s);
      stats[idx] := Stats(stats[idx].packets + 1, stats[idx].bytes + len);
      assert stats[..] == old(stats[..])[idx := s];
      groups := groups[owner[idx] := groups[owner[idx]].(stats := s)];
    }

    method GetMultiPktStats(ip: Ip) returns (s: Option<Stats>)
      requires Valid()
      ensures s == if ip in groups then Some(groups[ip].stats) else None
    {
      var node, b, r := tab.Lookup(ip);
      if node.Some? {
        return Some(stats[node.value.idx]);
      }
      return None;
    }

    /** List every live group once. */
    method GetAllMultiGrp() returns (list: seq<Ip>)
      requires Valid()
      ensures Distinct(list) && SetOf(list) == groups.Keys
      ensures |list| == |groups| <= max
    {
      list := tab.Keys();
      OwnerCount(tab.view, owner, rows);
      assert |groups| == |groups.Keys| && |tab.view| == |tab.view.Keys|;
    }

    /** Append to the members of the node in a slot and store the new count there. */
    method AppendToRow(b: nat, r: nat, info: Info<T>, list: seq<Ip>, ghost ip: Ip) returns (ret: Ret)
      requires Shaped() && tab.Valid() && RowsAre(vm, rows)
      requires tab.At(ip, b, r) && info == tab.view[ip] && info.idx < max && info.cnt == |rows[info.idx]|
      modifies this`rows, tab`view, tab.slots, vm
      ensures tab.Valid() && RowsAre(vm, rows)
      ensures var row := old(rows)[info.idx];
              if |list| + |row| > vm.Length1 then
                ret == ParamError && tab.view == old(tab.view) && rows == old(rows)
              else
                && ret == Ok && rows == old(rows)[info.idx := Joined(row, list)]
                && tab.view == old(tab.view)[ip := info.(cnt := |Joined(row, list)|)]
    {
      hide Table.Valid;
      var n;
      ret, n := AddVmIpList(vm, info.idx, list, info.cnt, rows);
      if ret == Ok {
        rows := rows[info.idx := Joined(rows[info.idx], list)];
        tab.Update(b, r, info.(cnt := n), ip);
      }
    }

    /** Join addresses to an existing group. */
    method AppendMembers(b: nat, r: nat, info: Info<T>, list: seq<Ip>, ghost ip: Ip) returns (ret: Ret)
      requires Valid() && tab.At(ip, b, r) && info == tab.view[ip]
      modifies this`rows, this`groups, tab`view, tab.slots, vm
      ensures Valid()
      ensures var g := old(groups)[ip];
              if |list| + |g.members| > vm.Length1 then
                ret == ParamError && groups == old(groups)
              else
                ret == Ok && groups == old(groups)[ip := g.(members := Joined(g.members, list))]
    {
      hide Table.Home, Table.Valid, Pool.Valid, RowsAre, Consistent, View;
      NodeFacts(tab.view, owner, rows, ip);
      ViewAt(tab.view, owner, rows, stats[..], ip);
      ghost var row := Joined(rows[info.idx], list);
      ChangeMembers(tab.view, owner, rows, stats[..], ip, row);
      ret := AppendToRow(b, r, info, list, ip);
      if ret == Ok {
        groups := groups[ip := groups[ip].(members := row)];
      }
    }

    /** A new group cannot be placed: no index is left, or its bucket is full. */
    ghost predicate NoRoom(ip: Ip)
      requires tab.Hashes() && tab.Packed()
      reads this, tab, tab.slots
    {
      |groups| == max || tab.fill[tab.Home(ip)] == tab.slots.Length1
    }

    /** The owner map counts the groups: an index is free exactly while there are fewer than `max`. */
    lemma PoolCount()
      requires Valid()
      ensures |pool.used| == |groups| == |tab.view| <= max
    {
      hide Table.Home, Table.Valid, Pool.Valid, RowsAre, Consistent;
      OwnerCount(tab.view, owner, rows);
      assert |groups| == |groups.Keys| && |tab.view| == |tab.view.Keys| && |owner| == |owner.Keys|;
    }

    /** No bucket holds more entries than there are groups. */
    lemma FillCount(b: nat)
      requires Valid() && b < tab.slots.Length0
      ensures tab.Packed() && tab.fill[b] <= |groups|
    {
      hide Pool.Valid, RowsAre, Consistent, View;
      PoolCount();
      tab.FillBound(b);
    }

    /** With buckets at least as deep as the pool is large, only the pool can run out. */
    lemma DeepBuckets(ip: Ip)
      requires Valid() && max <= tab.slots.Length1
      ensures NoRoom(ip) <==> |groups| == max
    {
      hide Pool.Valid, RowsAre, Consistent, View;
      PoolCount();
      FillCount(tab.Home(ip));
    }

    /** Install a node for a new group on an index just taken, with no members yet and zero counters. */
    method PlaceNode(ip: Ip, tag: T, idx: nat, b: nat, r: nat)
      requires Linked() && ip !in groups
      requires idx < max && idx !in owner && pool.used == owner.Keys + {idx}
      requires b == tab.Home(ip) && tab.FirstFree(b, r)
      modifies this, tab, tab.slots, stats
      ensures Valid() && tab.At(ip, b, r) && tab.view[ip] == Info(0, idx, tag)
      ensures groups == old(groups)[ip := Group(idx, [], tag, ZERO)]
    {
      hide Table.Home, Table.Valid, Pool.Valid, RowsAre, Consistent, View;
      ghost var free := rows[idx];
      FreeRow(tab.view, owner, rows, idx);
      AddNode(tab.view, owner, rows, stats[..], ip, idx, [], tag);
      tab.Insert(ip, Info(0, idx, tag), b, r);
      stats[idx] := ZERO;
      assert stats[..] == old(stats[..])[idx := ZERO];
      assert rows[idx := []] == rows;
      owner := owner[idx := ip];
      groups := groups[ip := Group(idx, [], tag, ZERO)];
    }

    /** Take the lowest free index and a free slot of the bucket, or give the index back. */
    method Reserve(b: nat) returns (ok: bool, idx: nat, slot: nat)
      requires Valid() && b < tab.slots.Length0 && |pool.used| == |groups|
      requires tab.Packed() && tab.fill[b] <= |groups|
      modifies pool, pool.bytes
      ensures ok <==> |groups| < max && tab.fill[b] < tab.slots.Length1
      ensures !ok ==> Valid()
      ensures ok ==> Linked() && tab.FirstFree(b, slot)
      ensures ok ==> idx < max && idx !in owner && pool.used == owner.Keys + {idx}
      ensures ok ==> forall j: nat | j < idx :: j in owner
    {
      hide Parts, Table.Home, Table.Valid, Table.FirstFree, Pool.Valid;
      PartsFacts();
      slot := 0;
      ok, idx := pool.GetIdx();
      if ok {
        ok, slot := tab.FindFree(b);
        if !ok {
          pool.PutIdx(idx);
          assert owner.Keys + {idx} - {idx} == owner.Keys;
        }
      }
    }

    /** Create a group that is missing and join the addresses to it. */
    method CreateGroup(ip: Ip, tag: T, list: seq<Ip>, b: nat) returns (ret: Ret)
      requires Valid() && ip !in groups && b == tab.Home(ip) < tab.slots.Length0
      requires tab.Packed() && tab.fill[b] <= |groups| == |pool.used| <= max <= 0x100
      modifies Repr()
      ensures Valid()
      ensures old(NoRoom(ip)) ==> ret == IdxExhaust && groups == old(groups)
      ensures !old(NoRoom(ip)) ==> Created(ip, tag, list, ret, old(groups), old(owner))
    {
      hide Groups.Valid, Groups.Linked, Table.Home, Table.At, Table.FirstFree, Joined, IndexCast;
      FreshIsAll(list);
      var ok, idx, slot := Reserve(b);
      if ok {
        var small := IndexCast(idx);
        PlaceNode(ip, tag, small, b, slot);
        ghost var placed := Group(small, [], tag, ZERO);
        PutTwice(groups, ip, placed, placed.(members := Joined([], list)), old(groups));
        ret := AppendMembers(b, slot, Info(0, small, tag), list, ip);
      } else {
        ret := IdxExhaust;
      }
    }

    /** A new group was created on the lowest free index; it is left empty when the list is too long. */
    ghost predicate Created(ip: Ip, tag: T, list: seq<Ip>, ret: Ret, was: map<Ip, Group<T>>, owned: map<nat, Ip>)
      reads this
    {
      && ip in groups && groups[ip].idx !in owned
      && (forall j: nat | j < groups[ip].idx :: j in owned)
      && (if |list| > vm.Length1 then
            ret == ParamError && groups == was[ip := Group(groups[ip].idx, [], tag, ZERO)]
          else
            ret == Ok && groups == was[ip := Group(groups[ip].idx, list, tag, ZERO)])
    }

    /** Join addresses to a group, creating the group when it is missing. */
    method AddMultiNode(ip: Ip, tag: T, list: seq<Ip>) returns (ret: Ret)
      requires Valid()
      modifies Repr()
      ensures Valid()
      ensures ip in old(groups) ==>
        var g := old(groups)[ip];
        if |list| + |g.members| > vm.Length1 then ret == ParamError && groups == old(groups)
        else ret == Ok && groups == old(groups)[ip := g.(members := Joined(g.members, list))]
      ensures ip !in old(groups) && old(NoRoom(ip)) ==> ret == IdxExhaust && groups == old(groups)
      ensures ip !in old(groups) && !old(NoRoom(ip)) ==>
        && ip in groups && groups[ip].idx !in old(owner) && (forall j: nat | j < groups[ip].idx :: j in old(owner))
        && ret == (if |list| > vm.Length1 then ParamError else Ok)
        && groups == old(groups)[ip := Group(groups[ip].idx, if |list| > vm.Length1 then [] else list, tag,
                                             Stats(0, 0))]
    {
      hide Table.Home, Table.Valid, Table.At, Table.FirstFree, Pool.Valid, RowsAre, Consistent, View, Joined;
      PoolCount();
      FillCount(tab.Home(ip));
      var node, b, r := tab.Lookup(ip);
      if node.Some? {
        ret := AppendMembers(b, r, node.value, list, ip);
      } else {
        ret := CreateGroup(ip, tag, list, b);
      }
    }

    /** Remove addresses from the row of the node in a slot and store the new count there. */
    method QuitRow(b: nat, r: nat, info: Info<T>, list: seq<Ip>, ghost ip: Ip)
      requires Shaped() && tab.Valid() && RowsAre(vm, rows)
      requires tab.At(ip, b, r) && info == tab.view[ip] && info.idx < max && info.cnt == |rows[info.idx]|
      modifies this`rows, tab`view, tab.slots, vm
      ensures tab.Valid() && RowsAre(vm, rows)
      ensures var row := QuitSwap(old(rows)[info.idx], list);
              rows == old(rows)[info.idx := row] && tab.view == old(tab.view)[ip := info.(cnt := |row|)]
    {
      hide Table.Valid;
      var n := DelQuitVmIp(vm, info.idx, list, info.cnt, rows);
      rows := rows[info.idx := QuitSwap(rows[info.idx], list)];
      tab.Update(b, r, info.(cnt := n), ip);
    }

    /** Take addresses out of a group. */
    method VmQuitFromMultiGrp(ip: Ip, list: seq<Ip>) returns (ret: Ret)
      requires Valid()
      modifies this`rows, this`groups, tab`view, tab.slots, vm
      ensures Valid()
      ensures ip !in old(groups) ==> ret == NodeNotExist && groups == old(groups)
      ensures ip in old(groups) ==>
        var g := old(groups)[ip];
        ret == Ok && groups == old(groups)[ip := g.(members := QuitSwap(g.members, list))]
    {
      hide Table.Home, Table.Valid, Pool.Valid, RowsAre, Consistent, View;
      var node, b, r := tab.Lookup(ip);
      if node == None {
        return NodeNotExist;
      }
      NodeFacts(tab.view, owner, rows, ip);
      ViewAt(tab.view, owner, rows, stats[..], ip);
      ghost var row := QuitSwap(rows[node.value.idx], list);
      ChangeMembers(tab.view, owner, rows, stats[..], ip, row);
      QuitRow(b, r, node.value, list, ip);
      groups := groups[ip := groups[ip].(members := row)];
      return Ok;
    }

    /** Take the node out of a slot and zero its row: the last node of the bucket fills the hole. */
    method TakeOut(b: nat, r: nat, idx: nat, ghost ip: Ip)
      requires Parts() && ip in tab.view && tab.At(ip, b, r) && tab.view[ip].idx == idx
      modifies this, tab, tab.slots, vm
      ensures Parts() && groups == old(groups) - {ip} && owner == old(owner) - {idx}
    {
      hide Table.Home, Table.Valid, Table.At, RowsAre, Consistent, View;
      NodeFacts(tab.view, owner, rows, ip);
      DropNode(tab.view, owner, rows, stats[..], ip);
      tab.Remove(b, r, ip);
      ClearVmIpList(vm, idx, rows);
      rows, owner, groups := rows[idx := []], owner - {idx}, groups - {ip};
    }

    /** Delete a group: its node goes, its row is zeroed, its index freed. */
    method DelMultiNode(ip: Ip) returns (ret: Ret)
      requires Valid()
      modifies Repr()
      ensures Valid()
      ensures groups == old(groups) - {ip}
      ensures ret == Ok
    {
      hide Parts, Table.Home, Table.Valid, Table.At, Pool.Valid;
      PartsFacts();
      var node, b, r := tab.Lookup(ip);
      if node.Some? {
        PartsNode(ip);
        TakeOut(b, r, node.value.idx, ip);
        PartsFacts();
        pool.PutIdx(node.value.idx);
      }
      return Ok;
    }

    /** The state while the table is being cleared: like `Valid`, but buckets may have holes. */
    ghost predicate Clearing()
      reads Repr()
    {
      && Shaped() && tab.Loose() && pool.Valid() && RowsAre(vm, rows) && |rows| == max
      && pool.used == owner.Keys
      && Consistent(tab.view, owner, rows)
      && groups == View(tab.view, owner, rows, stats[..])
    }

    /** Clear one node: free its index, zero its counter and its row, zero the node. */
    method ClearNode(b: nat, r: nat)
      requires Clearing() && b < tab.slots.Length0 && r < tab.slots.Length1 && tab.slots[b, r].Live?
      modifies this, tab`view, tab`row, tab.slots, pool, pool.bytes, vm, stats
      ensures Clearing()
      ensures tab.slots[b, r].Free?
      ensures forall c, s | 0 <= c < tab.slots.Length0 && 0 <= s < tab.slots.Length1 && !(c == b && s == r) ::
        tab.slots[c, s] == old(tab.slots[c, s])
    {
      hide Table.Home, Table.Loose, Pool.Valid, RowsAre, Consistent, View;
      tab.LiveSlot(b, r);
      ghost var ip := tab.slots[b, r].key;
      var idx := tab.slots[b, r].val.idx;
      NodeFacts(tab.view, owner, rows, ip);
      DropStats(tab.view, owner, rows, stats[..], ip);
      pool.PutIdx(idx);
      stats[idx] := ZERO;
      assert stats[..] == old(stats[..])[idx := ZERO];
      ClearVmIpList(vm, idx, rows);
      ghost var k := tab.Wipe(b, r);
      rows, owner, groups := rows[idx := []], owner - {idx}, groups - {ip};
    }

    /** Clear every bucket, leaving it at its first free slot. */
    method ClearMultiGroup()
      requires Valid()
      modifies Repr()
      ensures Valid() && groups == map[] && pool.used == {}
    {
      hide Table.Home, Table.Loose, Table.KeysPlaced, Table.SlotsAccounted, Pool.Valid, RowsAre, Consistent, View;
      tab.ValidIsLoose();
      var i := 0;
      while i < tab.slots.Length0
        invariant 0 <= i <= tab.slots.Length0
        invariant Clearing()
        invariant forall b, r | 0 <= b < i && 0 <= r < tab.slots.Length1 :: tab.slots[b, r].Free?
        invariant forall b, r | i <= b < tab.slots.Length0 && 0 <= r < tab.slots.Length1 ::
          tab.slots[b, r] == old(tab.slots[b, r])
      {
        var j := 0;
        while j < tab.slots.Length1
          invariant 0 <= j <= tab.slots.Length1
          invariant Clearing()
          invariant forall b, r | 0 <= b < i && 0 <= r < tab.slots.Length1 :: tab.slots[b, r].Free?
          invariant forall r | 0 <= r < j :: tab.slots[i, r].Free?
          invariant forall b, r | i <= b < tab.slots.Length0 && 0 <= r < tab.slots.Length1 && (b == i ==> j <= r) ::
            tab.slots[b, r] == old(tab.slots[b, r])
        {
          if tab.slots[i, j].Free? {
            break;
          }
          ClearNode(i, j);
          j := j + 1;
        }
        i := i + 1;
      }
      tab.Emptied();
      OwnerCount(tab.view, owner, rows);
      assert |owner.Keys| == |owner|;
    }

    /** Zero everything, whatever it held. */
    method MultiNodeInit()
      requires Shaped()
      modifies Repr()
      ensures Valid() && groups == map[]
    {
      hide Table.Valid, Pool.Valid, Table.Home, RowsAre, Consistent, View;
      tab.Reset();
      pool.Reset();
      ZeroRows(vm);
      ZeroStats();
      groups, owner, rows := map[], map[], seq(max, i => []);
      NoGroups(tab.view, owner, rows, stats[..]);
    }

    method ZeroStats()
      modifies stats
      ensures forall i | 0 <= i < stats.Length :: stats[i] == ZERO
    {
      forall i | 0 <= i < stats.Length {
        stats[i] := ZERO;
      }
    }
  }

  /** An index survives the cast to the node's 8-bit field exactly when the pool has at most 256. */
  lemma SmallIndices(max: nat)
    ensures (forall i: nat, j: nat | i < max && j < max && IndexCast(i) == IndexCast(j) :: i == j) <==> max <= 0x100
  {
    if max > 0x100 {
      assert IndexCast(0) == IndexCast(0x100);
    }
  }
}
