/**
 The multicast server's administration: every command edits the running configuration and
 then the kernel table. Each method here is shown to do to the whole server what `ServerRuns`
 says.
 */
module ServerAdmin {
  import opened Base
  import opened Members
  import opened MemberRows
  import opened Replicas
  import opened ServerSpec
  import opened ServerConfig
  import opened ServerRuns
  import opened GroupModel
  import opened GroupTable
  import opened Buckets
  import opened IndexPool
  import opened PacketRewrite
  import opened ServerHook

  /** The kernel refuses a new group exactly when the pool is exhausted or its bucket is crowded. */
  lemma NoRoomIsCrowded<T>(kernel: Groups<T>, ip: Ip)
    requires kernel.Valid()
    ensures kernel.tab.Hashes() && kernel.tab.Packed()
    ensures kernel.NoRoom(ip)
            <==> |kernel.groups| == kernel.max
                 || Crowded<Ip>(kernel.groups.Keys, ip, kernel.tab.slots.Length1, kernel.tab.hash)
  {
    hide Pool.Valid, RowsAre, Consistent, View, Table.Valid;
    kernel.tab.ValidHashes();
    kernel.tab.FillBound(kernel.tab.Home(ip));
    assert kernel.tab.Residents(kernel.tab.Home(ip)) == Bucketmates<Ip>(kernel.groups.Keys, ip, kernel.tab.hash);
  }

  /** No bucket of a kernel table holds more groups than it is deep. */
  lemma HeldIsHoused<T>(kernel: Groups<T>)
    requires kernel.Valid()
    ensures Housed(kernel.groups.Keys, ShapeOf(kernel))
  {
    hide Pool.Valid, RowsAre, Consistent, View, Table.Valid;
    forall ip | ip in kernel.groups
      ensures |Bucketmates<Ip>(kernel.groups.Keys, ip, kernel.tab.hash)| <= kernel.tab.slots.Length1
    {
      kernel.tab.ValidHashes();
      kernel.tab.FillBound(kernel.tab.Home(ip));
      assert kernel.tab.Residents(kernel.tab.Home(ip)) == Bucketmates<Ip>(kernel.groups.Keys, ip, kernel.tab.hash);
    }
  }

  ghost function ShapeOf<T>(kernel: Groups<T>): Shape {
    Shape(kernel.tab.slots.Length1, kernel.tab.hash)
  }

  ghost function LimitsOf<T>(kernel: Groups<T>): Limits {
    Limits(kernel.max, kernel.vm.Length1)
  }

  /** The kernel's answer to a join or a quit. */
  method NodeAdd<T>(kernel: Groups<T>, tag: T, join: bool, ip: Ip, list: seq<Ip>) returns (ret: Ret)
    requires kernel.Valid()
    modifies kernel.Repr()
    ensures kernel.Valid()
    ensures (MembersOf(kernel.groups), ret)
         == TableStep(old(MembersOf(kernel.groups)), if join then Join(ip, list) else Quit(ip, list),
                      LimitsOf(kernel), ShapeOf(kernel))
    ensures CountersOf(kernel.groups) == Kept(old(CountersOf(kernel.groups)), kernel.groups.Keys)
  {
    hide Groups.Valid, Groups.NoRoom, Joined, QuitSwap, Crowded, MembersOf, CountersOf, Kept;
    ghost var was := kernel.groups;
    NoRoomIsCrowded(kernel, ip);
    PartsAt(was, ip);
    PartsSize(was);
    if join {
      ret := kernel.AddMultiNode(ip, tag, list);
    } else {
      ret := kernel.VmQuitFromMultiGrp(ip, list);
    }
    if ip in kernel.groups {
      assert kernel.groups == was[ip := kernel.groups[ip]];
      PartsChange(was, ip, kernel.groups[ip]);
    }
    KeptOf(was, kernel.groups);
  }

  /**
   A command was executed: the server took its step, the configuration's part of which is the
   step of the directory. Success is both replicas accepting.
   */
  ghost predicate Executed(c: Command, ok: bool, g: Ledger, r: Ledger, lim: Limits, sh: Shape) {
    && r == CommandStep(g, c, lim, sh)
    && Denote(r.saved) == Step(Denote(g.saved), c, lim)
    && (ok <==> Accepts(Denote(g.saved), c, lim) && TableStep(g.table, c, lim, sh).1 == Ok)
  }

  /** Editing the saved list and asking the kernel only then is executing the command. */
  lemma CommandExecuted(c: Command, edited: bool, ok: bool, g: Ledger, r: Ledger, lim: Limits, sh: Shape)
    requires WellFormed(g.saved, lim) && CleanInput(c) && (r.saved, edited) == Edit(g.saved, c, lim)
    requires r.table == if edited then TableStep(g.table, c, lim, sh).0 else g.table
    requires ok <==> edited && TableStep(g.table, c, lim, sh).1 == Ok
    requires r.books == g.books.(counters := Kept(g.books.counters, r.table.Keys))
    requires r.retired == Plus(g.retired, Total(g.books.counters - r.table.Keys))
    ensures Executed(c, ok, g, r, lim, sh)
  {
    hide Edit, Accepts, Step, TableStep, Denote, WellFormed, CleanInput, Kept, Total, Plus;
    EditIsStep(g.saved, c, lim);
  }

  /**
   When a command is reported a success: the configuration took it, and the kernel had room
   for the new group, or for all members of the known one, or knew the group to quit.
   */
  lemma SuccessIs(c: Command, ok: bool, g: Ledger, r: Ledger, lim: Limits, sh: Shape)
    requires Executed(c, ok, g, r, lim, sh) && WellFormed(g.saved, lim) && CleanInput(c)
    ensures var t := g.table;
            ok <==> Edit(g.saved, c, lim).1
                    && (c.Join? && c.ip in t ==> |c.list| + |t[c.ip]| <= lim.members)
                    && (c.Join? && c.ip !in t ==>
                          |t| != lim.groups && |set k | k in t && sh.hash(k) == sh.hash(c.ip)| < sh.depth)
                    && (c.Quit? ==> c.ip in t)
  {
    hide WellFormed, CleanInput, Denote, Edit, Step, CommandStep, Joined, QuitSwap;
    EditIsStep(g.saved, c, lim);
    if c.Join? {
      if Accepts(Denote(g.saved), c, lim) {
        AcceptedFits(Denote(g.saved), c.ip, c.list, lim);
      }
      assert (set k | k in g.table && sh.hash(k) == sh.hash(c.ip)) == Bucketmates<Ip>(g.table.Keys, c.ip, sh.hash);
    }
  }

  /**
   From agreement the command leads to agreement and is a success exactly when it does not
   overflow, and in any case the kernel keeps to what the configuration holds.
   */
  ghost predicate Lawful(c: Command, ok: bool, g: Ledger, r: Ledger, lim: Limits, sh: Shape) {
    var m := Denote(g.saved);
    && (Mirrors(g.table, m) ==> (Mirrors(r.table, Denote(r.saved)) <==> !Overflows(m, c, lim, sh)))
    && (Mirrors(g.table, m) ==> (ok <==> Accepts(m, c, lim) && !Overflows(m, c, lim, sh)))
    && (Within(g.table, m) ==> Within(r.table, Denote(r.saved)))
  }

  lemma ExecutedLawful(c: Command, ok: bool, g: Ledger, r: Ledger, lim: Limits, sh: Shape)
    requires Executed(c, ok, g, r, lim, sh) && CleanInput(c)
    ensures Lawful(c, ok, g, r, lim, sh)
  {
    hide Mirrors, Within, Overflows, Accepts, Step, Answer, TableStep, Denote, Edit, CleanInput, Kept, Total, Plus;
    var m := Denote(g.saved);
    if Mirrors(g.table, m) {
      AnswerMirrors(m, g.table, c, lim, sh);
    }
    if Within(g.table, m) {
      AnswerWithin(m, g.table, c, lim, sh);
    }
  }

  class MulticastServer {
    const config: Config
    const kernel: Groups<()>
    const hook: Hook
    /** Packets counted for groups that have been deleted or cleared since. */
    ghost var retired: Stats

    ghost function Repr(): set<object> {
      {this, config, hook} + kernel.Repr()
    }

    ghost predicate Valid()
      reads Repr()
    {
      && config.Valid() && kernel.Valid()
      && config.lim == LimitsOf(kernel)
      && this !in kernel.Repr() && config !in kernel.Repr() && hook !in kernel.Repr()
    }

    /** The groups the administrator sees. */
    ghost function Current(): Directory
      reads config
    {
      Denote(config.saved)
    }

    /** The groups the kernel serves. */
    ghost function Held(): MemberTable
      reads kernel
    {
      MembersOf(kernel.groups)
    }

    /** The whole server as a value. */
    ghost function Now(): Ledger
      reads this, config, kernel, hook
    {
      Ledger(config.saved, MembersOf(kernel.groups), hook.Now(kernel), retired)
    }

    /** The configuration and the kernel table hold the same groups and members. */
    ghost predicate Agree()
      reads config, kernel
    {
      Mirrors(Held(), Current())
    }

    /** Every packet ever sent is counted for a live group or for one that is gone. */
    ghost predicate Balanced()
      reads this, config, kernel, hook
    {
      Accounted(Now())
    }

    /** A server over an empty configuration, an empty kernel table and counters at zero. */
    constructor (config: Config, kernel: Groups<()>, hook: Hook)
      requires config.Valid() && config.saved == []
      requires kernel.Valid() && kernel.groups == map[]
      requires hook.tx == ZERO && config !in kernel.Repr() && hook !in kernel.Repr()
      requires config.lim == LimitsOf(kernel)
      ensures Valid() && Agree() && Balanced() && Current() == map[] && Held() == map[]
      ensures this.config == config && this.kernel == kernel && this.hook == hook
    {
      hide Groups.Valid, Denote, SetOf, WellFormed, Total, MembersOf, CountersOf;
      DenoteEmpty(config.lim);
      PartsNone(kernel.groups);
      TotalEmpty(CountersOf(kernel.groups));
      this.config, this.kernel, this.hook, retired := config, kernel, hook, ZERO;
    }

    lemma WellFormedNow()
      requires Valid()
      ensures WellFormed(config.saved, config.lim)
    {
      hide Groups.Valid, WellFormed;
    }

    /** `multis_admin -A`: the configuration first, then the kernel, and no undo. */
    method ServiceAdd(join: bool, ip: Ip, list: seq<Ip>) returns (ok: bool)
      requires Valid() && Balanced() && Distinct(list)
      modifies Repr()
      ensures Valid() && Balanced()
      ensures Executed(config.CommandOf(join, ip, list), ok, old(Now()), Now(), config.lim, ShapeOf(kernel))
    {
      hide Groups.Valid, Distinct, WellFormed, Total, Kept, Edit, MembersOf, CountersOf, TableStep, Executed, Accounted;
      WellFormedNow();
      ghost var g, c := Now(), config.CommandOf(join, ip, list);
      config.Init();
      var edited := config.AddToConfig(join, ip, list);
      ok := edited;
      if ok {
        var ret := NodeAdd(kernel, (), join, ip, list);
        ok := ret == Ok;
      } else {
        KeptAll(g.books.counters, kernel.groups.Keys);
      }
      retired := Plus(retired, Total(g.books.counters - kernel.groups.Keys));
      CommandExecuted(c, edited, ok, g, Now(), config.lim, ShapeOf(kernel));
      ExecutedAccounted(c, ok, g, Now(), config.lim, ShapeOf(kernel));
    }

    /** The kernel's half of a delete. */
    method DeleteFromKernel(ip: Ip)
      requires kernel.Valid()
      modifies kernel.Repr()
      ensures kernel.Valid() && Held() == old(Held()) - {ip}
      ensures CountersOf(kernel.groups) == Kept(old(CountersOf(kernel.groups)), kernel.groups.Keys)
    {
      hide Groups.Valid, MembersOf, CountersOf, Kept;
      ghost var was := kernel.groups;
      var ret := kernel.DelMultiNode(ip);
      PartsDrop(was, ip);
      KeptOf(was, kernel.groups);
    }

    /** `multis_admin -D`. */
    method ServiceDel(ip: Ip) returns (ok: bool)
      requires Valid() && Balanced()
      modifies Repr()
      ensures Valid() && Balanced()
      ensures Executed(Delete(ip), ok, old(Now()), Now(), config.lim, ShapeOf(kernel))
    {
      hide Groups.Valid, WellFormed, Total, Kept, Edit, MembersOf, CountersOf, Executed, Accounted;
      WellFormedNow();
      ghost var g := Now();
      config.Init();
      ok := config.DelFromConfig(ip);
      if ok {
        DeleteFromKernel(ip);
      } else {
        KeptAll(g.books.counters, kernel.groups.Keys);
      }
      retired := Plus(retired, Total(g.books.counters - kernel.groups.Keys));
      CommandExecuted(Delete(ip), ok, ok, g, Now(), config.lim, ShapeOf(kernel));
      ExecutedAccounted(Delete(ip), ok, g, Now(), config.lim, ShapeOf(kernel));
    }

    /** The kernel's half of a clear. */
    method ClearKernel()
      requires kernel.Valid()
      modifies kernel.Repr()
      ensures kernel.Valid() && Held() == map[] && kernel.groups == map[]
      ensures CountersOf(kernel.groups) == Kept(old(CountersOf(kernel.groups)), kernel.groups.Keys)
    {
      hide Groups.Valid, MembersOf, CountersOf, Kept;
      ghost var was := kernel.groups;
      kernel.ClearMultiGroup();
      PartsNone(kernel.groups);
      KeptOf(was, kernel.groups);
    }

    /** `multis_admin -C`. */
    method ServiceClear()
      requires Valid() && Balanced()
      modifies Repr()
      ensures Valid() && Balanced()
      ensures Executed(Clear, true, old(Now()), Now(), config.lim, ShapeOf(kernel))
    {
      hide Groups.Valid, WellFormed, Total, Kept, MembersOf, CountersOf, Executed, Accounted;
      WellFormedNow();
      ghost var g := Now();
      config.Init();
      config.ClearConfig();
      ClearKernel();
      retired := Plus(retired, Total(g.books.counters - kernel.groups.Keys));
      CommandExecuted(Clear, true, true, g, Now(), config.lim, ShapeOf(kernel));
      ExecutedAccounted(Clear, true, g, Now(), config.lim, ShapeOf(kernel));
    }

    /** One command of the administrator, whatever the two replicas hold. */
    method Exec(c: Command) returns (ok: bool)
      requires Valid() && Balanced() && CleanInput(c)
      modifies Repr()
      ensures Valid() && Balanced()
      ensures Executed(c, ok, old(Now()), Now(), config.lim, ShapeOf(kernel))
      ensures Lawful(c, ok, old(Now()), Now(), config.lim, ShapeOf(kernel))
    {
      hide Groups.Valid, Distinct, Balanced, Lawful, Executed, Now;
      ghost var g := Now();
      match c {
        case Join(ip, list) => ok := ServiceAdd(true, ip, list);
        case Quit(ip, list) => ok := ServiceAdd(false, ip, list);
        case Delete(ip) => ok := ServiceDel(ip);
        case Clear =>
          ServiceClear();
          ok := true;
      }
      ExecutedLawful(c, ok, g, Now(), config.lim, ShapeOf(kernel));
    }

    /** One outgoing packet of the host, between commands. */
    method Deliver(p: Packet, fates: Fates, nesting: nat)
      requires Valid() && Balanced()
      requires hook.again ==> NestsWithin(Held(), p.ip.dest, nesting)
      modifies Repr()
      ensures Valid() && Balanced()
      ensures Now() == old(Now()).(books := Pass(old(Held()), old(Now()).books, p, fates, [], hook.again, nesting))
    {
      hide Groups.Valid, MembersOf, CountersOf, Pass, Total, NestsWithin, Accounted;
      ghost var g := Now();
      hook.LocalOut(kernel, p, fates, [], nesting);
      StepAccounted(g, Traffic(p, fates, nesting), config.lim, ShapeOf(kernel), hook.again);
    }
  }

  lemma ExecutedAccounted(c: Command, ok: bool, g: Ledger, r: Ledger, lim: Limits, sh: Shape)
    requires Executed(c, ok, g, r, lim, sh) && Accounted(g)
    ensures Accounted(r)
  {
    hide Accounted, CommandStep, Step, Denote, Accepts, TableStep;
    StepAccounted(g, Admin(c), lim, sh, false);
  }

  /** The server as `insmod` and an empty configuration leave it. */
  method Boot(buckets: nat, depth: nat, lim: Limits, poolBytes: nat, hash: Ip -> nat, again: bool)
    returns (s: MulticastServer)
    requires forall ip :: hash(ip) < buckets
    requires lim.groups <= 0x100 && lim.groups <= 8 * poolBytes
    ensures s.Valid() && s.Agree() && s.Balanced() && fresh(s.Repr())
    ensures s.Current() == map[] && s.Held() == map[] && s.config.saved == [] && s.hook.sent == []
    ensures s.config.lim == lim && s.kernel.tab.slots.Length1 == depth && s.kernel.tab.hash == hash
    ensures s.hook.again == again
  {
    hide Groups.Valid, Denote, MembersOf, Accounted;
    var config := new Config(lim);
    var kernel := new Groups(buckets, depth, lim.groups, lim.members, poolBytes, hash);
    var hook := new Hook(again);
    s := new MulticastServer(config, kernel, hook);
  }

  /** One slot takes one group: the second join overflows. */
  lemma OneSlot(lim: Limits, sh: Shape)
    requires lim.groups == 2 && sh.depth == 1 && sh.hash(1) == sh.hash(2)
    ensures !Overflows(map[], Join(1, []), lim, sh)
    ensures Step(map[], Join(1, []), lim) == map[1 := {}]
    ensures Overflows(map[1 := {}], Join(2, []), lim, sh)
  {
    assert Bucketmates<Ip>({}, 1, sh.hash) == {};
    var m: Directory := map[1 := {}];
    assert Bucketmates<Ip>(m.Keys, 2, sh.hash) == {1};
    assert SetOf<Ip>([]) == {};
  }

  /** The replicas do part ways when a bucket overflows: here it has one slot and two groups arrive. */
  method PartWays() returns (s: MulticastServer)
    ensures s.Valid() && !s.Agree()
    ensures s.config.lim.groups == 2 && s.kernel.tab.slots.Length1 == 1
  {
    hide MulticastServer.Valid, MulticastServer.Balanced, Denote, CommandStep, Accepts, TableStep, Overflows, Step;
    hide Mirrors, Within, MembersOf;
    s := Boot(1, 1, Limits(2, 1), 1, ip => 0, true);
    OneSlot(s.config.lim, ShapeOf(s.kernel));
    var ok := s.Exec(Join(1, []));
    ok := s.Exec(Join(2, []));
  }

  /**
   Every run of commands and packets, whatever the replicas held and whatever the kernel
   refuses on the way, takes the server where `EventRun` says. So configuration and kernel
   table are what the commands alone determine, every packet ever sent is accounted for, the
   two agree while no command overflows, and the kernel never holds more than the configuration.
   */
  method Run(s: MulticastServer, es: seq<Event>)
    requires s.Valid() && s.Balanced() && Clean(es)
    requires Returns(s.Now(), es, s.config.lim, ShapeOf(s.kernel), s.hook.again)
    modifies s.Repr()
    ensures s.Valid() && s.Balanced()
    ensures s.Now() == EventRun(old(s.Now()), es, s.config.lim, ShapeOf(s.kernel), s.hook.again)
    ensures Outcome(old(s.Now()), s.Now(), es, s.config.lim, ShapeOf(s.kernel))
  {
    hide MulticastServer.Valid, Accounted, Lawful, Accepts, TableStep, Step, Denote, Outcome, WellFormed;
    hide EventRun, CommandStep, Pass, NestsWithin, CleanInput;
    s.WellFormedNow();
    assert es[..0] == [];
    EventRunNothing(s.Now(), s.config.lim, ShapeOf(s.kernel), s.hook.again);
    var i := 0;
    while i < |es|
      invariant 0 <= i <= |es|
      invariant s.Valid() && s.Balanced()
      invariant s.Now() == EventRun(old(s.Now()), es[..i], s.config.lim, ShapeOf(s.kernel), s.hook.again)
    {
      EventRunNext(old(s.Now()), es, i, s.config.lim, ShapeOf(s.kernel), s.hook.again);
      match es[i] {
        case Admin(c) =>
          assert es[i] in es;
          var ok := s.Exec(c);
        case Traffic(p, fates, nesting) =>
          s.Deliver(p, fates, nesting);
      }
      i := i + 1;
    }
    assert es[..i] == es;
    RunOutcome(old(s.Now()), es, s.config.lim, ShapeOf(s.kernel), s.hook.again);
  }
}
