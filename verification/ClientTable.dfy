/**
 The client's kernel table: (server address, port) to group, in the same packed buckets,
 with a separate count of its nodes.
 */
module ClientTable {
  import opened Base
  import opened Buckets

  /** Where multicast traffic arrives from: a server and a UDP port, port 0 standing for any. */
  datatype Source = Source(server: Ip, port: U16)

  datatype ClientRet = Ok | NodeExists | NodeNotExist | IdxExhaust | TableFull

  class Nodes {
    const max: nat
    const tab: Table<Source, Ip>
    var count: nat

    ghost function Repr(): set<object> { {this, tab, tab.slots} }

    /** The count is the number of nodes. */
    ghost predicate Valid()
      reads Repr()
    {
      tab.Valid() && count == |tab.view|
    }

    constructor (buckets: nat, depth: nat, max: nat, hash: Source -> nat)
      requires forall s :: hash(s) < buckets
      ensures Valid() && fresh(Repr()) && tab.view == map[]
      ensures this.max == max && tab.slots.Length1 == depth && tab.hash == hash
    {
      hide Table.Valid, Table.Home;
      this.max, count := max, 0;
      tab := new Table(buckets, depth, hash);
    }

    lemma CountNodes()
      requires Valid()
      ensures count == |tab.view|
    {}

    method LookupIpPortNode(s: Source) returns (group: Option<Ip>)
      requires Valid()
      ensures Valid()
      ensures group == if s in tab.view then Some(tab.view[s]) else None
    {
      hide Table.Valid, Table.Home;
      var b, r;
      group, b, r := tab.Lookup(s);
    }

    /** The source's bucket has no free slot left. */
    ghost predicate BucketFull(s: Source)
      reads tab
    {
      |tab.Residents(tab.Home(s))| == tab.slots.Length1
    }

    /** The add reaches the search for a free row, and neither the bucket's end nor a free row is within 8 bits. */
    ghost predicate Spins(s: Source)
      reads this, tab
    {
      && count < max && s !in tab.view
      && tab.slots.Length1 >= 0x100 && |tab.Residents(tab.Home(s))| >= 0x100
    }

    /** That is when the search of the bucket never stops. */
    lemma SpinsForever(s: Source)
      requires Valid() && count < max && s !in tab.view
      ensures tab.Hashes() && tab.Packed()
      ensures Spins(s) <==> forall n: nat :: !StopsAt(tab.slots.Length1, tab.fill[tab.Home(s)], n)
    {
      hide Table.Valid, Table.Home, Table.Residents, StopsAt;
      tab.ValidHashes();
      tab.FillBound(tab.Home(s));
      RowSearchEnds(tab.slots.Length1, tab.fill[tab.Home(s)]);
    }

    /** Add a source, or point a known one at another group. */
    method AddMultiNode(group: Ip, s: Source) returns (ret: ClientRet)
      requires Valid() && !Spins(s)
      modifies Repr()
      ensures Valid()
      ensures ret == if old(count) >= max then TableFull
                     else if s in old(tab.view) then (if old(tab.view)[s] == group then NodeExists else Ok)
                     else if old(BucketFull(s)) then IdxExhaust
                     else Ok
      ensures tab.view == if ret == Ok then old(tab.view)[s := group] else old(tab.view)
    {
      hide Table.Valid, Table.Home, Table.At, Table.FirstFree, Table.Residents;
      if count >= max {
        return TableFull;
      }
      var v, b, r := tab.Lookup(s);
      if v.Some? {
        if v.value == group {
          return NodeExists;
        }
        tab.Update(b, r, group, s);
        return Ok;
      }
      tab.FillBound(b);
      var free;
      free, r := tab.FindFree(b);
      if !free {
        return IdxExhaust;
      }
      tab.Insert(s, group, b, r);
      count := count + 1;
      return Ok;
    }

    method DelMultiNode(s: Source) returns (ret: ClientRet)
      requires Valid()
      modifies Repr()
      ensures Valid()
      ensures ret == if s in old(tab.view) then Ok else NodeNotExist
      ensures tab.view == old(tab.view) - {s}
    {
      hide Table.Valid, Table.Home, Table.At;
      var v, b, r := tab.Lookup(s);
      if v.None? {
        return NodeNotExist;
      }
      ghost var was := tab.view;
      assert was.Keys == (was - {s}).Keys + {s};
      tab.Remove(b, r, s);
      count := count - 1;
      return Ok;
    }

    method ClearMultiNode()
      requires Valid()
      modifies Repr()
      ensures Valid() && tab.view == map[]
    {
      hide Table.Valid, Table.Home;
      tab.ValidHashes();
      tab.Reset();
      count := 0;
    }

    /** List every node once. */
    method ListAllMultiGrp() returns (sources: seq<Source>)
      requires Valid()
      ensures Distinct(sources) && SetOf(sources) == tab.view.Keys && |sources| == count
    {
      hide Table.Valid, Table.Home;
      sources := tab.Keys();
    }
  }
}
