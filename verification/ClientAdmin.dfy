/**
 The client's administration: every command edits the configuration and then the kernel
 table, and withdraws the edit when the kernel refuses. The two hold the same map after
 every run of commands, also when a bucket is full.
 */
module ClientAdmin {
  import opened Base
  import opened Buckets
  import opened ClientTable
  import opened ClientConfig

  datatype Command = Add(source: Source, group: Ip) | Remove(source: Source) | Clear

  /** What decides whether a new source fits: how many groups, how deep the buckets, which bucket. */
  datatype Shape = Shape(max: nat, depth: nat, hash: Source -> nat)

  /** The search of the bucket for a free row never ends, because its counter has 8 bits. */
  ghost predicate Stuck(m: ClientDirectory, sh: Shape, s: Source) {
    sh.depth >= 0x100 && |Bucketmates(m.Keys, s, sh.hash)| >= 0x100
  }

  /** The command makes the kernel start such a search. */
  ghost predicate Spins(m: ClientDirectory, c: Command, sh: Shape) {
    c.Add? && |m| < sh.max && c.source !in m && Stuck(m, sh, c.source)
  }

  /** No command of a run does. */
  ghost predicate NeverSpins(m: ClientDirectory, cs: seq<Command>, sh: Shape) {
    forall i | 0 <= i < |cs| :: !Spins(RunSpec(m, cs[..i], sh), cs[i], sh)
  }

  /** Buckets of fewer than 256 rows, or tables of at most 256 nodes, are always searched to the end. */
  lemma SmallNeverSpins(m: ClientDirectory, cs: seq<Command>, sh: Shape)
    requires sh.depth < 0x100 || sh.max <= 0x100
    ensures NeverSpins(m, cs, sh)
  {
    forall i | 0 <= i < |cs|
      ensures !Spins(RunSpec(m, cs[..i], sh), cs[i], sh)
    {
      if cs[i].Add? {
        var n := RunSpec(m, cs[..i], sh);
        SubsetCount(Bucketmates(n.Keys, cs[i].source, sh.hash), n.Keys);
        assert |n| == |n.Keys|;
      }
    }
  }

  ghost predicate Accepts(m: ClientDirectory, c: Command, sh: Shape) {
    match c
    case Add(s, group) =>
      && |m| < sh.max
      && (if s in m then m[s] != group else !Crowded(m.Keys, s, sh.depth, sh.hash))
    case Remove(s) => s in m
    case Clear => true
  }

  ghost function Step(m: ClientDirectory, c: Command, sh: Shape): ClientDirectory {
    if !Accepts(m, c, sh) then m
    else match c
      case Add(s, group) => m[s := group]
      case Remove(s) => m - {s}
      case Clear => map[]
  }

  /** An add is accepted while there is room, for a change or for a new source whose bucket has a row left. */
  lemma AcceptsIs(m: ClientDirectory, s: Source, group: Ip, sh: Shape)
    ensures Accepts(m, Add(s, group), sh)
            <==> |m| < sh.max
                 && (if s in m then m[s] != group else |set x | x in m && sh.hash(x) == sh.hash(s)| < sh.depth)
  {
    assert (set x | x in m && sh.hash(x) == sh.hash(s)) == Bucketmates(m.Keys, s, sh.hash);
  }

  ghost function RunSpec(m: ClientDirectory, cs: seq<Command>, sh: Shape): ClientDirectory {
    if cs == [] then m else Step(RunSpec(m, cs[..|cs| - 1], sh), cs[|cs| - 1], sh)
  }

  /** Withdrawing an entry that was just added restores the map. */
  lemma Withdrawn(m: ClientDirectory, s: Source, group: Ip)
    ensures s !in m ==> m[s := group] - {s} == m
  {}

  class MulticastClient {
    const config: Config
    const kernel: Nodes

    ghost function Repr(): set<object> {
      {this, config} + kernel.Repr()
    }

    ghost predicate Valid()
      reads Repr()
    {
      && config.Valid() && kernel.Valid() && config.max == kernel.max
      && config !in kernel.Repr()
    }

    ghost function Shaped(): Shape
      reads kernel
    {
      Shape(kernel.max, kernel.tab.slots.Length1, kernel.tab.hash)
    }

    ghost function Current(): ClientDirectory
      reads config
    {
      config.dir
    }

    /** The configuration and the kernel table denote the same map. */
    ghost predicate Agree()
      reads config, kernel.tab
    {
      config.dir == kernel.tab.view
    }

    constructor (config: Config, kernel: Nodes)
      requires config.Valid() && kernel.Valid() && config.max == kernel.max
      requires config !in kernel.Repr() && config.dir == kernel.tab.view
      ensures Valid() && Agree() && this.config == config && this.kernel == kernel
    {
      hide Nodes.Valid, Config.Valid;
      this.config, this.kernel := config, kernel;
    }

    /** The kernel's full bucket is the directory's crowded one, and its endless search is known from the directory. */
    lemma FullIsCrowded(s: Source, group: Ip)
      requires Valid() && Agree()
      ensures kernel.BucketFull(s) <==> Crowded(Current().Keys, s, Shaped().depth, Shaped().hash)
      ensures kernel.Spins(s) <==> Spins(Current(), Add(s, group), Shaped())
    {
      hide Config.Valid, Table.Valid;
      kernel.tab.ValidHashes();
      kernel.tab.FillBound(kernel.tab.Home(s));
      assert kernel.tab.Residents(kernel.tab.Home(s)) == Bucketmates(Current().Keys, s, Shaped().hash);
    }

    /** `multic_admin -A`: the configuration, then the kernel, and the configuration again if that failed. */
    method ServiceAdd(s: Source, group: Ip) returns (ok: bool)
      requires Valid() && Agree() && !Spins(Current(), Add(s, group), Shaped())
      modifies Repr()
      ensures Valid() && Agree()
      ensures Current() == Step(old(Current()), Add(s, group), Shaped())
      ensures ok <==> Accepts(old(Current()), Add(s, group), Shaped())
      ensures var m, hash := old(Current()), kernel.tab.hash;
              && (ok <==> |m| < kernel.max
                          && (if s in m then m[s] != group
                              else |set x | x in m && hash(x) == hash(s)| < kernel.tab.slots.Length1))
              && Current() == if ok then m[s := group] else m
      ensures !ok ==> config.saved == old(config.saved)
    {
      hide Config.Valid, Nodes.Valid, Nodes.BucketFull, Nodes.Spins, Crowded, Spins, FindSource;
      FullIsCrowded(s, group);
      AcceptsIs(Current(), s, group, Shaped());
      kernel.CountNodes();
      Withdrawn(Current(), s, group);
      config.Init();
      config.AddedLast(s, group);
      ok := config.AddToConfig(s, group);
      if ok {
        var ret := kernel.AddMultiNode(group, s);
        if ret != Ok {
          var undone := config.DelFromConfig(s);
          ok := false;
        }
      }
    }

    /** `multic_admin -D`: the kernel never refuses what the configuration has given up. */
    method ServiceDel(s: Source) returns (ok: bool)
      requires Valid() && Agree()
      modifies Repr()
      ensures Valid() && Agree()
      ensures Current() == Step(old(Current()), Remove(s), Shaped()) == old(Current()) - {s}
      ensures ok <==> s in old(Current())
    {
      hide Config.Valid, Nodes.Valid, Crowded;
      config.Init();
      ok := config.DelFromConfig(s);
      if ok {
        var ret := kernel.DelMultiNode(s);
        if ret != ClientRet.Ok {
          // The source would put the entry back here; the kernel holds what the file held.
          assert false;
        }
      }
    }

    /** `multic_admin -C`. */
    method ClientClear()
      requires Valid() && Agree()
      modifies Repr()
      ensures Valid() && Agree() && Current() == map[]
    {
      hide Config.Valid, Nodes.Valid;
      config.Init();
      config.ClearConfig();
      kernel.ClearMultiNode();
    }

    /** One command of the administrator. */
    method Exec(c: Command) returns (ok: bool)
      requires Valid() && Agree() && !Spins(Current(), c, Shaped())
      modifies Repr()
      ensures Valid() && Agree()
      ensures Current() == Step(old(Current()), c, Shaped())
      ensures ok <==> Accepts(old(Current()), c, Shaped())
    {
      hide MulticastClient.Valid, MulticastClient.Agree, MulticastClient.Current, Crowded, Spins;
      match c
      case Add(s, group) => ok := ServiceAdd(s, group);
      case Remove(s) => ok := ServiceDel(s);
      case Clear =>
        ClientClear();
        ok := true;
    }
  }

  /** Every run of commands leaves both replicas at the map the commands determine. */
  method Run(client: MulticastClient, cs: seq<Command>)
    requires client.Valid() && client.Agree() && NeverSpins(client.Current(), cs, client.Shaped())
    modifies client.Repr()
    ensures client.Valid() && client.Agree()
    ensures client.Current() == RunSpec(old(client.Current()), cs, client.Shaped())
  {
    hide MulticastClient.Valid, MulticastClient.Agree, MulticastClient.Current, Step, Spins;
    var i := 0;
    while i < |cs|
      invariant 0 <= i <= |cs|
      invariant client.Valid() && client.Agree()
      invariant client.Current() == RunSpec(old(client.Current()), cs[..i], client.Shaped())
    {
      assert cs[..i + 1][..i] == cs[..i];
      var ok := client.Exec(cs[i]);
      i := i + 1;
    }
    assert cs[..i] == cs;
  }

  /** The directory never outgrows the table, in any run from a directory that did not. */
  lemma {:induction false} NeverOverfull(m: ClientDirectory, cs: seq<Command>, sh: Shape)
    requires |m| <= sh.max
    ensures |RunSpec(m, cs, sh)| <= sh.max
  {
    hide Crowded;
    if cs != [] {
      var n := RunSpec(m, cs[..|cs| - 1], sh);
      NeverOverfull(m, cs[..|cs| - 1], sh);
      StepSize(n, cs[|cs| - 1], sh);
    }
  }

  lemma StepSize(m: ClientDirectory, c: Command, sh: Shape)
    requires |m| <= sh.max
    ensures |Step(m, c, sh)| <= sh.max
  {
    hide Crowded;
    var n := Step(m, c, sh);
    assert |n| == |n.Keys| && |m| == |m.Keys|;
    if c.Add? {
      SubsetCount(n.Keys, m.Keys + {c.source});
    } else {
      SubsetCount(n.Keys, m.Keys);
    }
  }
}
