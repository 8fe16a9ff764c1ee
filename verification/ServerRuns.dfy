/**
 A whole server as a value: the saved list, the kernel's table, the hook's books, and the
 counters of the groups that are gone. Commands and packets take it from one value to the
 next; what a run leaves, sends and counts is read off here.
 */
module ServerRuns {
  import opened Base
  import opened Buckets
  import opened Members
  import opened Replicas
  import opened ServerSpec
  import opened GroupModel
  import opened PacketRewrite
  import opened ServerHook

  /** `retired` are the packets counted for groups that have been deleted or cleared since. */
  datatype Ledger = Ledger(saved: seq<Saved>, table: MemberTable, books: Books, retired: Stats)

  /** What happens to a running server; groups nest up to `nesting` deep below a packet's destination. */
  datatype Event = Admin(c: Command) | Traffic(p: Packet, fates: Fates, nesting: nat)

  /** A command: the configuration's edit, the kernel's answer, and the counters of removed groups retired. */
  ghost function CommandStep(g: Ledger, c: Command, lim: Limits, sh: Shape): Ledger {
    var t := Answer(Denote(g.saved), g.table, c, lim, sh);
    Ledger(Edit(g.saved, c, lim).0, t, g.books.(counters := Kept(g.books.counters, t.Keys)),
           Plus(g.retired, Total(g.books.counters - t.Keys)))
  }

  ghost function EventStep(g: Ledger, e: Event, lim: Limits, sh: Shape, again: bool): Ledger {
    match e
    case Admin(c) => CommandStep(g, c, lim, sh)
    case Traffic(p, fates, nesting) => g.(books := Pass(g.table, g.books, p, fates, [], again, nesting))
  }

  ghost function EventRun(g: Ledger, es: seq<Event>, lim: Limits, sh: Shape, again: bool): Ledger {
    if es == [] then g
    else EventStep(EventRun(g, es[..|es| - 1], lim, sh, again), es[|es| - 1], lim, sh, again)
  }

  lemma EventRunNothing(g: Ledger, lim: Limits, sh: Shape, again: bool)
    ensures EventRun(g, [], lim, sh, again) == g
  {}

  lemma EventRunNext(g: Ledger, es: seq<Event>, i: nat, lim: Limits, sh: Shape, again: bool)
    requires i < |es|
    ensures EventRun(g, es[..i + 1], lim, sh, again)
         == EventStep(EventRun(g, es[..i], lim, sh, again), es[i], lim, sh, again)
  {
    assert es[..i + 1][..i] == es[..i];
  }

  /** One event more: a command takes its step, a packet changes the books as the hook does, and nothing else. */
  lemma EventRunPush(g: Ledger, es: seq<Event>, e: Event, lim: Limits, sh: Shape, again: bool)
    ensures var mid, end := EventRun(g, es, lim, sh, again), EventRun(g, es + [e], lim, sh, again);
            && (e.Admin? ==> end == CommandStep(mid, e.c, lim, sh))
            && (e.Traffic? ==>
                  && end.saved == mid.saved && end.table == mid.table && end.retired == mid.retired
                  && end.books == Pass(mid.table, mid.books, e.p, e.fates, [], again, e.nesting))
  {
    hide Pass, CommandStep;
    assert (es + [e])[..|es|] == es;
  }

  /** The commands are as the parser leaves them. */
  ghost predicate Clean(es: seq<Event>) {
    forall e | e in es && e.Admin? :: CleanInput(e.c)
  }

  /**
   Where copies pass the hook again, groups nest no deeper below a packet's destination than
   the event says; where they nest without end the hook never returns.
   */
  ghost predicate Returns(g: Ledger, es: seq<Event>, lim: Limits, sh: Shape, again: bool) {
    forall i | 0 <= i < |es| :: again && es[i].Traffic? ==>
      NestsWithin(EventRun(g, es[..i], lim, sh, again).table, es[i].p.ip.dest, es[i].nesting)
  }

  // ---- what one command does to a whole server ----

  /**
   No command touches what was sent, the drops or the global counter. A group that stays keeps
   its counter, a new one starts at zero, and one that goes hands its counter to the retired part.
   */
  lemma CommandKeepsBooks(g: Ledger, c: Command, lim: Limits, sh: Shape)
    requires Accounted(g)
    ensures var r := CommandStep(g, c, lim, sh);
            && r.books.sent == g.books.sent && r.books.drops == g.books.drops && r.books.tx == g.books.tx
            && r.books.counters.Keys == r.table.Keys
            && (forall x | x in r.table ::
                  r.books.counters[x] == if x in g.table then g.books.counters[x] else Stats(0, 0))
            && (forall x | x in g.table && r.table.Keys == g.table.Keys - {x} ::
                  r.retired == Stats(g.retired.packets + g.books.counters[x].packets,
                                     g.retired.bytes + g.books.counters[x].bytes))
            && (r.table.Keys >= g.table.Keys ==> r.retired == g.retired)
  {
    hide Total, Answer, Denote, Edit;
    var t := Answer(Denote(g.saved), g.table, c, lim, sh);
    KeptNone(g, t);
    forall x | x in g.table && t.Keys == g.table.Keys - {x}
      ensures Total(g.books.counters - t.Keys) == g.books.counters[x]
    {
      var m := g.books.counters - t.Keys;
      TotalSplit(m, x);
      assert m - {x} == map[];
      TotalEmpty(m - {x});
    }
  }

  lemma KeptNone(g: Ledger, t: MemberTable)
    requires Accounted(g)
    ensures t.Keys >= g.table.Keys ==> Total(g.books.counters - t.Keys) == ZERO
  {
    hide Total;
    if t.Keys >= g.table.Keys {
      KeptAll(g.books.counters, t.Keys);
    }
  }

  /** What the configuration refuses changes nothing at all. */
  lemma RefusedChangesNothing(g: Ledger, c: Command, lim: Limits, sh: Shape)
    requires WellFormed(g.saved, lim) && CleanInput(c) && Accounted(g) && !Edit(g.saved, c, lim).1
    ensures CommandStep(g, c, lim, sh) == g
  {
    hide Total, Kept, WellFormed, CleanInput, Denote, Accepts, TableStep, JoinEach, QuitShift;
    EditIsStep(g.saved, c, lim);
    KeptAll(g.books.counters, g.table.Keys);
    assert Edit(g.saved, c, lim).0 == g.saved;
  }

  lemma AcceptedFits(m: Directory, ip: Ip, list: seq<Ip>, lim: Limits)
    requires Accepts(m, Join(ip, list), lim)
    ensures |list| <= lim.members
  {}

  lemma CommandTable(g: Ledger, c: Command, lim: Limits, sh: Shape)
    requires WellFormed(g.saved, lim) && CleanInput(c) && Edit(g.saved, c, lim).1
    ensures Accepts(Denote(g.saved), c, lim)
    ensures CommandStep(g, c, lim, sh).table == TableStep(g.table, c, lim, sh).0
  {
    hide Total, Kept, WellFormed, CleanInput, Denote, Accepts, Edit, TableStep;
    EditIsStep(g.saved, c, lim);
  }

  /**
   The kernel's table after a join that the configuration accepts. A new group gets the list
   as it is, but is left out while the pool is exhausted or its bucket full, with no undo.
   */
  lemma KernelJoinsNew(g: Ledger, ip: Ip, list: seq<Ip>, lim: Limits, sh: Shape)
    requires WellFormed(g.saved, lim) && Distinct(list) && Edit(g.saved, Join(ip, list), lim).1 && ip !in g.table
    ensures CommandStep(g, Join(ip, list), lim, sh).table ==
            if |g.table| == lim.groups || |set k | k in g.table && sh.hash(k) == sh.hash(ip)| >= sh.depth then g.table
            else g.table[ip := list]
  {
    hide WellFormed, Denote, Accepts, Edit, Distinct, CommandStep;
    CommandTable(g, Join(ip, list), lim, sh);
    AcceptedFits(Denote(g.saved), ip, list, lim);
    assert (set k | k in g.table && sh.hash(k) == sh.hash(ip)) == Bucketmates<Ip>(g.table.Keys, ip, sh.hash);
  }

  /** A group the kernel knows gets the new members behind the old ones, or all of them are too many. */
  lemma KernelJoinsKnown(g: Ledger, ip: Ip, list: seq<Ip>, lim: Limits, sh: Shape)
    requires WellFormed(g.saved, lim) && Distinct(list) && Edit(g.saved, Join(ip, list), lim).1
    requires ip in g.table && Distinct(g.table[ip])
    ensures var t, r := g.table, CommandStep(g, Join(ip, list), lim, sh).table;
            if |list| + |t[ip]| > lim.members then r == t
            else && ip in r && r == t[ip := r[ip]] && t[ip] <= r[ip] && Distinct(r[ip])
                 && SetOf(r[ip]) == SetOf(t[ip]) + SetOf(list) && InOrder(r[ip][|t[ip]|..], list)
  {
    hide WellFormed, Denote, Accepts, Edit, Distinct, CommandStep, SetOf, Fresh, InOrder;
    CommandTable(g, Join(ip, list), lim, sh);
    JoinedIsUnion(g.table[ip], list);
    FreshInOrder(g.table[ip], list);
  }

  /** Quitting, deleting and clearing in the kernel. */
  lemma KernelLeaves(g: Ledger, ip: Ip, list: seq<Ip>, lim: Limits, sh: Shape)
    requires WellFormed(g.saved, lim) && exists i :: 0 <= i < |g.saved| && g.saved[i].ip == ip
    ensures CommandStep(g, Delete(ip), lim, sh).table == g.table - {ip}
    ensures ip !in g.table ==> CommandStep(g, Quit(ip, list), lim, sh).table == g.table
    ensures ip in g.table && Distinct(g.table[ip]) ==>
              var r := CommandStep(g, Quit(ip, list), lim, sh).table;
              && ip in r && r == g.table[ip := r[ip]]
              && Distinct(r[ip]) && SetOf(r[ip]) == SetOf(g.table[ip]) - SetOf(list)
    ensures CommandStep(g, Clear, lim, sh).table == map[]
  {
    hide Total, Kept, Distinct, SetOf, QuitSwap, Edit, Step, Denote, WellFormed;
    var i :| 0 <= i < |g.saved| && g.saved[i].ip == ip;
    DenoteAt(g.saved, lim, i);
    if ip in g.table && Distinct(g.table[ip]) {
      QuitSwapIsDifference(g.table[ip], list);
    }
  }

  // ---- the commands alone decide what is stored ----

  /** The commands among the events. */
  function Commands(es: seq<Event>): seq<Command> {
    if es == [] then []
    else Commands(es[..|es| - 1]) + if es[|es| - 1].Admin? then [es[|es| - 1].c] else []
  }

  /** The saved list after a run of commands. */
  function EditAll(c: seq<Saved>, cs: seq<Command>, lim: Limits): seq<Saved> {
    if cs == [] then c else Edit(EditAll(c, cs[..|cs| - 1], lim), cs[|cs| - 1], lim).0
  }

  lemma {:induction false} CleanCommands(es: seq<Event>)
    requires Clean(es)
    ensures forall c | c in Commands(es) :: CleanInput(c)
  {
    hide CleanInput;
    if es != [] {
      CleanCommands(es[..|es| - 1]);
    }
  }

  /** Saved list, directory and kernel table after a run are the folds of its commands. */
  lemma {:induction false} CommandsDecide(g: Ledger, es: seq<Event>, lim: Limits, sh: Shape, again: bool)
    requires WellFormed(g.saved, lim) && Clean(es)
    ensures var r, cs := EventRun(g, es, lim, sh, again), Commands(es);
            && WellFormed(r.saved, lim) && r.saved == EditAll(g.saved, cs, lim)
            && Denote(r.saved) == Run(Denote(g.saved), cs, lim)
            && r.table == TableRun(Denote(g.saved), g.table, cs, lim, sh)
  {
    hide WellFormed, Denote, CleanInput, Pass, Edit, Step, Answer, Total, Kept;
    if es != [] {
      var rest, e := es[..|es| - 1], es[|es| - 1];
      CommandsDecide(g, rest, lim, sh, again);
      match e
      case Admin(c) =>
        var cs := Commands(es);
        assert cs[..|cs| - 1] == Commands(rest);
        EditIsStep(EditAll(g.saved, Commands(rest), lim), c, lim);
      case Traffic(_, _, _) =>
        assert Commands(rest) + [] == Commands(rest);
    }
  }

  /** While no command overflows agreement is kept, and in any case the kernel keeps to the configuration. */
  lemma RunAgrees(g: Ledger, es: seq<Event>, lim: Limits, sh: Shape, again: bool)
    requires WellFormed(g.saved, lim) && Clean(es)
    ensures var r, m := EventRun(g, es, lim, sh, again), Denote(g.saved);
            && (Mirrors(g.table, m) && Roomy(m, Commands(es), lim, sh) ==> Mirrors(r.table, Denote(r.saved)))
            && (Within(g.table, m) ==> Within(r.table, Denote(r.saved)))
  {
    hide Mirrors, Within, Roomy, Clean, Commands, Denote, WellFormed, EventRun, CleanInput;
    var m, cs := Denote(g.saved), Commands(es);
    CommandsDecide(g, es, lim, sh, again);
    CleanCommands(es);
    assert cs[..|cs|] == cs;
    if Mirrors(g.table, m) && Roomy(m, cs, lim, sh) {
      RoomyAgrees(m, g.table, cs, lim, sh, |cs|);
    }
    if Within(g.table, m) {
      RunWithin(m, g.table, cs, lim, sh);
    }
  }

  // ---- every packet is accounted for ----

  /** Every group has a counter, and what was ever sent is counted for a live group or for one that is gone. */
  ghost predicate Accounted(g: Ledger) {
    && g.books.counters.Keys == g.table.Keys
    && g.books.tx == Plus(Total(g.books.counters), g.retired)
  }

  lemma StepAccounted(g: Ledger, e: Event, lim: Limits, sh: Shape, again: bool)
    requires Accounted(g)
    ensures Accounted(EventStep(g, e, lim, sh, again))
  {
    hide Total, Kept, Pass, Answer, Denote, Edit, Weight;
    match e
    case Admin(c) =>
      KeptTotal(g.books.counters, Answer(Denote(g.saved), g.table, c, lim, sh).Keys);
    case Traffic(p, fates, nesting) =>
      PassGrew(g.table, g.books, p, fates, [], again, nesting);
  }

  lemma {:induction false} RunAccounted(g: Ledger, es: seq<Event>, lim: Limits, sh: Shape, again: bool)
    requires Accounted(g)
    ensures Accounted(EventRun(g, es, lim, sh, again))
  {
    hide Accounted, EventStep;
    if es != [] {
      RunAccounted(g, es[..|es| - 1], lim, sh, again);
      StepAccounted(EventRun(g, es[..|es| - 1], lim, sh, again), es[|es| - 1], lim, sh, again);
    }
  }

  /** A run only adds to what was sent, and the global counter grows by exactly what it adds. */
  ghost predicate Added(b: Books, r: Books) {
    b.sent <= r.sent && r.tx == Plus(b.tx, Weight(r.sent[|b.sent|..]))
  }

  lemma {:induction false} RunAdds(g: Ledger, es: seq<Event>, lim: Limits, sh: Shape, again: bool)
    requires Accounted(g)
    ensures Added(g.books, EventRun(g, es, lim, sh, again).books)
  {
    hide Accounted, EventStep, Added;
    if es == [] {
      AddedNothing(g.books);
    } else {
      var mid, e := EventRun(g, es[..|es| - 1], lim, sh, again), es[|es| - 1];
      RunAdds(g, es[..|es| - 1], lim, sh, again);
      RunAccounted(g, es[..|es| - 1], lim, sh, again);
      StepAdds(mid, e, lim, sh, again);
      AddedTrans(g.books, mid.books, EventStep(mid, e, lim, sh, again).books);
    }
  }

  /** That is one packet for each packet sent, and as many bytes as they state. */
  lemma AddedIs(b: Books, r: Books)
    requires Added(b, r)
    ensures b.sent <= r.sent
    ensures r.tx.packets == b.tx.packets + (|r.sent| - |b.sent|)
    ensures r.tx.bytes == b.tx.bytes + Bytes(r.sent[|b.sent|..])
  {
    hide Weight, Bytes;
    WeightIs(r.sent[|b.sent|..]);
  }

  lemma AddedNothing(b: Books)
    ensures Added(b, b)
  {
    assert b.sent[|b.sent|..] == [];
  }

  lemma AddedTrans(a: Books, b: Books, c: Books)
    requires Added(a, b) && Added(b, c)
    ensures Added(a, c)
  {
    hide Weight;
    var u, v := b.sent[|a.sent|..], c.sent[|b.sent|..];
    WeightAppend(u, v);
    assert c.sent[|a.sent|..] == u + v by {
      assert b.sent == c.sent[..|b.sent|];
    }
  }

  lemma AddedSame(b: Books, counters: map<Ip, Stats>)
    ensures Added(b, b.(counters := counters))
  {
    var r := b.(counters := counters);
    assert r.sent[|b.sent|..] == [];
  }

  lemma StepAdds(g: Ledger, e: Event, lim: Limits, sh: Shape, again: bool)
    requires Accounted(g)
    ensures Added(g.books, EventStep(g, e, lim, sh, again).books)
  {
    hide Total, Kept, Pass, Answer, Denote, Edit, Weight, Plus;
    match e
    case Admin(c) =>
      AddedSame(g.books, Kept(g.books.counters, Answer(Denote(g.saved), g.table, c, lim, sh).Keys));
    case Traffic(p, fates, nesting) =>
      PassGrew(g.table, g.books, p, fates, [], again, nesting);
  }

  /** The command removes no group. */
  predicate KeepsGroups(c: Command) { c.Join? || c.Quit? }

  lemma AnswerKeeps(m: Directory, t: MemberTable, c: Command, lim: Limits, sh: Shape)
    requires KeepsGroups(c)
    ensures t.Keys <= Answer(m, t, c, lim, sh).Keys
  {
    hide Accepts;
  }

  /** The retired part never shrinks, and grows only when a command removes groups. */
  lemma {:induction false} RetiredGrows(g: Ledger, es: seq<Event>, lim: Limits, sh: Shape, again: bool)
    requires Accounted(g)
    ensures var r := EventRun(g, es, lim, sh, again);
            && g.retired.packets <= r.retired.packets && g.retired.bytes <= r.retired.bytes
            && ((forall e | e in es && e.Admin? :: KeepsGroups(e.c)) ==> r.retired == g.retired)
  {
    hide Accounted, Pass, Answer, Denote, Edit, Total, Kept, KeepsGroups;
    if es != [] {
      var rest, e := es[..|es| - 1], es[|es| - 1];
      RetiredGrows(g, rest, lim, sh, again);
      RunAccounted(g, rest, lim, sh, again);
      if e.Admin? && KeepsGroups(e.c) {
        NothingRetired(EventRun(g, rest, lim, sh, again), e.c, lim, sh);
      }
      assert e in es;
    }
  }

  lemma NothingRetired(g: Ledger, c: Command, lim: Limits, sh: Shape)
    requires Accounted(g) && KeepsGroups(c)
    ensures CommandStep(g, c, lim, sh).retired == g.retired
  {
    hide Answer, Denote, Edit, Total, Kept, KeepsGroups;
    AnswerKeeps(Denote(g.saved), g.table, c, lim, sh);
    KeptAll(g.books.counters, Answer(Denote(g.saved), g.table, c, lim, sh).Keys);
  }

  /** What a run of commands and packets leaves, whatever the replicas held and the kernel refused. */
  ghost predicate Outcome(g: Ledger, r: Ledger, es: seq<Event>, lim: Limits, sh: Shape) {
    var m, cs := Denote(g.saved), Commands(es);
    && r.saved == EditAll(g.saved, cs, lim)
    && Denote(r.saved) == Run(m, cs, lim)
    && r.table == TableRun(m, g.table, cs, lim, sh)
    && (Mirrors(g.table, m) && Roomy(m, cs, lim, sh) ==> Mirrors(r.table, Denote(r.saved)))
    && (Within(g.table, m) ==> Within(r.table, Denote(r.saved)))
    && Accounted(r) && Added(g.books, r.books)
    && g.retired.packets <= r.retired.packets && g.retired.bytes <= r.retired.bytes
    && ((forall e | e in es && e.Admin? :: KeepsGroups(e.c)) ==> r.retired == g.retired)
  }

  lemma RunOutcome(g: Ledger, es: seq<Event>, lim: Limits, sh: Shape, again: bool)
    requires WellFormed(g.saved, lim) && Clean(es) && Accounted(g)
    ensures Outcome(g, EventRun(g, es, lim, sh, again), es, lim, sh)
  {
    hide WellFormed, Clean, Accounted, Added, EventRun, Commands, EditAll, Denote;
    hide Run, TableRun, Mirrors, Within, Roomy;
    CommandsDecide(g, es, lim, sh, again);
    RunAgrees(g, es, lim, sh, again);
    RunAccounted(g, es, lim, sh, again);
    RunAdds(g, es, lim, sh, again);
    RetiredGrows(g, es, lim, sh, again);
  }

  // ---- what is sent ----

  /** The copies of one packet for the members of its group. */
  ghost function CopiesOf(t: MemberTable, p: Packet, fates: Fates): seq<Packet> {
    if p.ip.protocol == IPPROTO_UDP && p.udp.Some? && p.ip.dest in t
    then Outgoing(p, t[p.ip.dest], OwnFates(fates, [], |t[p.ip.dest]|)) else []
  }

  /** The copies of each packet in turn, for the members its group had then. */
  ghost function CopiesInOrder(g: Ledger, es: seq<Event>, lim: Limits, sh: Shape, again: bool): seq<Packet> {
    if es == [] then []
    else var rest, e := es[..|es| - 1], es[|es| - 1];
         CopiesInOrder(g, rest, lim, sh, again)
         + if e.Traffic? then CopiesOf(EventRun(g, rest, lim, sh, again).table, e.p, e.fates) else []
  }

  /** Where copies pass the hook again, no member of a packet's group is a group itself. */
  ghost predicate Flat(g: Ledger, es: seq<Event>, lim: Limits, sh: Shape, again: bool) {
    forall i | 0 <= i < |es| :: again && es[i].Traffic? ==>
      FlatAt(EventRun(g, es[..i], lim, sh, again).table, es[i].p, es[i].nesting)
  }

  ghost predicate FlatAt(t: MemberTable, p: Packet, nesting: nat) {
    nesting > 0 && (p.ip.dest in t ==> forall x | x in t[p.ip.dest] :: x !in t)
  }

  lemma PassCopies(t: MemberTable, b: Books, p: Packet, fates: Fates, again: bool, nesting: nat)
    requires again ==> FlatAt(t, p, nesting)
    ensures Pass(t, b, p, fates, [], again, nesting).sent == b.sent + CopiesOf(t, p, fates)
  {
    hide PassAll, Outgoing;
    if p.ip.protocol == IPPROTO_UDP && p.ip.dest in t {
      if t[p.ip.dest] == [] {
        if p.udp.Some? {
          NoCopies(p);
        }
      } else {
        PassAllIsOnce(t, b, p, t[p.ip.dest], fates, [], again, nesting);
      }
    }
  }

  lemma NoCopies(p: Packet)
    requires p.udp.Some?
    ensures Outgoing(p, [], []) == []
  {}

  /** What a run sends: the copies of each packet in turn, for the members its group had then, and nothing else. */
  lemma {:induction false} SentInOrder(g: Ledger, es: seq<Event>, lim: Limits, sh: Shape, again: bool)
    requires Flat(g, es, lim, sh, again)
    ensures EventRun(g, es, lim, sh, again).books.sent == g.books.sent + CopiesInOrder(g, es, lim, sh, again)
  {
    hide Pass, FlatAt, CopiesOf, Answer, Denote, Edit, Total, Kept;
    if es != [] {
      var n := |es| - 1;
      var rest, e := es[..n], es[n];
      FlatPrefix(g, es, lim, sh, again);
      SentInOrder(g, rest, lim, sh, again);
      if e.Traffic? {
        var mid := EventRun(g, rest, lim, sh, again);
        assert again ==> FlatAt(mid.table, e.p, e.nesting);
        PassCopies(mid.table, mid.books, e.p, e.fates, again, e.nesting);
      }
    }
  }

  lemma FlatPrefix(g: Ledger, es: seq<Event>, lim: Limits, sh: Shape, again: bool)
    requires Flat(g, es, lim, sh, again) && es != []
    ensures Flat(g, es[..|es| - 1], lim, sh, again)
  {
    hide EventRun, FlatAt;
    var rest := es[..|es| - 1];
    forall i | 0 <= i < |rest|
      ensures again && rest[i].Traffic? ==>
        FlatAt(EventRun(g, rest[..i], lim, sh, again).table, rest[i].p, rest[i].nesting)
    {
      assert rest[..i] == es[..i] && rest[i] == es[i];
    }
  }
}
