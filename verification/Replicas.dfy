/**
 The server's two replicas as values: the directory that the configuration denotes, and the
 kernel's table of member lists. The kernel answers only what the configuration accepted and
 keeps what it refused out, so the two may part; here is exactly when.
 */
module Replicas {
  import opened Base
  import opened Buckets
  import opened Members
  import opened MemberRows
  import opened ServerSpec

  /** The kernel's groups, each with its member list. */
  type MemberTable = map<Ip, seq<Ip>>

  /** How deep the kernel's buckets are and how groups spread over them. */
  datatype Shape = Shape(depth: nat, hash: Ip -> nat)

  /** No bucket has to hold more groups than it is deep. */
  ghost predicate Housed(keys: set<Ip>, sh: Shape) {
    forall ip | ip in keys :: |Bucketmates<Ip>(keys, ip, sh.hash)| <= sh.depth
  }

  // ---- the kernel's side of a command ----

  ghost function TableJoin(t: MemberTable, ip: Ip, list: seq<Ip>, lim: Limits, sh: Shape): (MemberTable, Ret) {
    if ip in t then
      if |list| + |t[ip]| > lim.members then (t, ParamError) else (t[ip := Joined(t[ip], list)], Ok)
    else if |t| == lim.groups || Crowded<Ip>(t.Keys, ip, sh.depth, sh.hash) then (t, IdxExhaust)
    else if |list| > lim.members then (t[ip := []], ParamError)
    else (t[ip := list], Ok)
  }

  ghost function TableQuit(t: MemberTable, ip: Ip, list: seq<Ip>): (MemberTable, Ret) {
    if ip in t then (t[ip := QuitSwap(t[ip], list)], Ok) else (t, NodeNotExist)
  }

  /** What the kernel does with a command, and what it answers. */
  ghost function TableStep(t: MemberTable, c: Command, lim: Limits, sh: Shape): (MemberTable, Ret) {
    match c
    case Join(ip, list) => TableJoin(t, ip, list, lim, sh)
    case Quit(ip, list) => TableQuit(t, ip, list)
    case Delete(ip) => (t - {ip}, Ok)
    case Clear => (map[], Ok)
  }

  /** The kernel is asked only when the configuration accepts. */
  ghost function Answer(m: Directory, t: MemberTable, c: Command, lim: Limits, sh: Shape): MemberTable {
    if Accepts(m, c, lim) then TableStep(t, c, lim, sh).0 else t
  }

  /** The kernel's table after a run of commands from directory `m` and table `t`. */
  ghost function TableRun(m: Directory, t: MemberTable, cs: seq<Command>, lim: Limits, sh: Shape): MemberTable {
    if cs == [] then t
    else var rest := cs[..|cs| - 1];
         Answer(Run(m, rest, lim), TableRun(m, t, rest, lim, sh), cs[|cs| - 1], lim, sh)
  }

  // ---- agreement ----

  /** The table and the directory hold the same groups with the same member sets. */
  ghost predicate Mirrors(t: MemberTable, m: Directory) {
    && t.Keys == m.Keys
    && forall ip | ip in t :: Distinct(t[ip]) && SetOf(t[ip]) == m[ip]
  }

  /** The table holds nothing that the directory does not. */
  ghost predicate Within(t: MemberTable, m: Directory) {
    && t.Keys <= m.Keys
    && forall ip | ip in t :: Distinct(t[ip]) && SetOf(t[ip]) <= m[ip]
  }

  /** The configuration takes the join of a new group, but the kernel's bucket is full. */
  ghost predicate Overflows(m: Directory, c: Command, lim: Limits, sh: Shape) {
    c.Join? && Accepts(m, c, lim) && c.ip !in m && Crowded<Ip>(m.Keys, c.ip, sh.depth, sh.hash)
  }

  /** No command of a run from `m` overflows. */
  ghost predicate Roomy(m: Directory, cs: seq<Command>, lim: Limits, sh: Shape) {
    forall i | 0 <= i < |cs| :: !Overflows(Run(m, cs[..i], lim), cs[i], lim, sh)
  }

  /** The replicas agree before the first command and after each one. */
  ghost predicate AgreesThroughout(m: Directory, t: MemberTable, cs: seq<Command>, lim: Limits, sh: Shape) {
    forall i | 0 <= i <= |cs| :: Mirrors(TableRun(m, t, cs[..i], lim, sh), Run(m, cs[..i], lim))
  }

  /** The kernel refuses no command of a run that the configuration accepts. */
  ghost predicate NeverRefused(m: Directory, t: MemberTable, cs: seq<Command>, lim: Limits, sh: Shape) {
    forall i | 0 <= i < |cs| :: Taken(Run(m, cs[..i], lim), TableRun(m, t, cs[..i], lim, sh), cs[i], lim, sh)
  }

  ghost predicate Taken(m: Directory, t: MemberTable, c: Command, lim: Limits, sh: Shape) {
    Accepts(m, c, lim) ==> TableStep(t, c, lim, sh).1 == Ok
  }

  lemma MirrorsSizes(t: MemberTable, m: Directory)
    requires Mirrors(t, m)
    ensures |t| == |m|
    ensures forall ip | ip in t :: |t[ip]| == |m[ip]|
  {
    assert |t| == |t.Keys| && |m| == |m.Keys|;
    forall ip | ip in t
      ensures |t[ip]| == |m[ip]|
    {
      DistinctCount(t[ip]);
    }
  }

  lemma MirrorsChange(t: MemberTable, m: Directory, ip: Ip, list: seq<Ip>)
    requires Mirrors(t, m) && Distinct(list)
    ensures Mirrors(t[ip := list], m[ip := SetOf(list)])
  {
    hide SetOf, Distinct;
  }

  lemma MirrorsDrop(t: MemberTable, m: Directory, ip: Ip)
    requires Mirrors(t, m)
    ensures Mirrors(t - {ip}, m - {ip})
  {
    hide SetOf, Distinct;
  }

  /** Joining in the kernel is joining in the directory. */
  lemma MirrorsJoin(t: MemberTable, m: Directory, ip: Ip, list: seq<Ip>)
    requires Mirrors(t, m) && ip in t && Distinct(list)
    ensures Mirrors(t[ip := Joined(t[ip], list)], m[ip := m[ip] + SetOf(list)])
  {
    hide SetOf, Distinct, Joined;
    JoinedIsUnion(t[ip], list);
    MirrorsChange(t, m, ip, Joined(t[ip], list));
  }

  /** Quitting in the kernel, by swapping, is taking the difference in the directory. */
  lemma MirrorsQuit(t: MemberTable, m: Directory, ip: Ip, list: seq<Ip>)
    requires Mirrors(t, m) && ip in t
    ensures Mirrors(t[ip := QuitSwap(t[ip], list)], m[ip := m[ip] - SetOf(list)])
  {
    hide SetOf, Distinct, QuitSwap;
    QuitSwapIsDifference(t[ip], list);
    MirrorsChange(t, m, ip, QuitSwap(t[ip], list));
  }

  /** From agreement, a command leads to agreement and success unless it overflows. */
  lemma AnswerMirrors(m: Directory, t: MemberTable, c: Command, lim: Limits, sh: Shape)
    requires Mirrors(t, m) && CleanInput(c)
    ensures Mirrors(Answer(m, t, c, lim, sh), Step(m, c, lim)) <==> !Overflows(m, c, lim, sh)
    ensures Accepts(m, c, lim) ==> (TableStep(t, c, lim, sh).1 == Ok <==> !Overflows(m, c, lim, sh))
  {
    hide SetOf, Distinct, Joined, QuitSwap, Crowded;
    MirrorsSizes(t, m);
    match c
    case Join(ip, list) =>
      if ip in t {
        MirrorsJoin(t, m, ip, list);
      } else {
        MirrorsChange(t, m, ip, list);
        assert {} + SetOf(list) == SetOf(list);
      }
    case Quit(ip, list) =>
      if ip in t {
        MirrorsQuit(t, m, ip, list);
      }
    case Delete(ip) =>
      MirrorsDrop(t, m, ip);
    case Clear =>
  }

  lemma WithinChange(t: MemberTable, m: Directory, ip: Ip, list: seq<Ip>, s: set<Ip>)
    requires Within(t, m) && Distinct(list) && SetOf(list) <= s
    ensures Within(t[ip := list], m[ip := s])
  {
    hide SetOf, Distinct;
  }

  /** A directory entry that grows, or comes with the table unchanged, keeps the table within. */
  lemma WithinGrows(t: MemberTable, m: Directory, ip: Ip, s: set<Ip>)
    requires Within(t, m) && (ip in t ==> m[ip] <= s)
    ensures Within(t, m[ip := s])
  {
    hide SetOf, Distinct;
  }

  /** Whether or not the replicas agree, the kernel never holds more than the configuration. */
  lemma AnswerWithin(m: Directory, t: MemberTable, c: Command, lim: Limits, sh: Shape)
    requires Within(t, m) && CleanInput(c)
    ensures Within(Answer(m, t, c, lim, sh), Step(m, c, lim))
  {
    hide SetOf, Distinct, Joined, QuitSwap, Crowded;
    match c
    case Join(ip, list) =>
      WithinJoin(m, t, ip, list, lim, sh);
    case Quit(ip, list) =>
      if ip in t {
        QuitSwapIsDifference(t[ip], list);
        WithinChange(t, m, ip, QuitSwap(t[ip], list), m[ip] - SetOf(list));
      }
    case Delete(ip) =>
      WithinDrop(t, m, ip);
    case Clear =>
  }

  lemma WithinDrop(t: MemberTable, m: Directory, ip: Ip)
    requires Within(t, m)
    ensures Within(t - {ip}, m - {ip})
  {
    hide SetOf, Distinct;
  }

  lemma WithinJoin(m: Directory, t: MemberTable, ip: Ip, list: seq<Ip>, lim: Limits, sh: Shape)
    requires Within(t, m) && Distinct(list)
    ensures Within(Answer(m, t, Join(ip, list), lim, sh), Step(m, Join(ip, list), lim))
  {
    hide SetOf, Distinct, Joined, Crowded;
    var s := (if ip in m then m[ip] else {}) + SetOf(list);
    WithinGrows(t, m, ip, s);
    WithinChange(t, m, ip, list, s);
    NoMembers(s);
    WithinChange(t, m, ip, [], s);
    if ip in t {
      JoinedIsUnion(t[ip], list);
      WithinChange(t, m, ip, Joined(t[ip], list), s);
    }
  }

  lemma NoMembers(s: set<Ip>)
    ensures Distinct<Ip>([]) && SetOf<Ip>([]) <= s
  {}

  // ---- over whole runs ----

  lemma TableRunStep(m: Directory, t: MemberTable, cs: seq<Command>, i: nat, lim: Limits, sh: Shape)
    requires i < |cs|
    ensures Run(m, cs[..i + 1], lim) == Step(Run(m, cs[..i], lim), cs[i], lim)
    ensures TableRun(m, t, cs[..i + 1], lim, sh)
            == Answer(Run(m, cs[..i], lim), TableRun(m, t, cs[..i], lim, sh), cs[i], lim, sh)
  {
    assert cs[..i + 1][..i] == cs[..i];
  }

  /** After every run the kernel holds nothing that the configuration does not. */
  lemma {:induction false} RunWithin(m: Directory, t: MemberTable, cs: seq<Command>, lim: Limits, sh: Shape)
    requires Within(t, m) && forall c | c in cs :: CleanInput(c)
    ensures Within(TableRun(m, t, cs, lim, sh), Run(m, cs, lim))
  {
    hide Within, Answer, Step;
    if cs != [] {
      var rest := cs[..|cs| - 1];
      RunWithin(m, t, rest, lim, sh);
      AnswerWithin(Run(m, rest, lim), TableRun(m, t, rest, lim, sh), cs[|cs| - 1], lim, sh);
    }
  }

  /** While no command overflows the replicas agree. */
  lemma RoomyAgrees(m: Directory, t: MemberTable, cs: seq<Command>, lim: Limits, sh: Shape, n: nat)
    requires Mirrors(t, m) && Roomy(m, cs, lim, sh) && n <= |cs|
    requires forall c | c in cs :: CleanInput(c)
    ensures Mirrors(TableRun(m, t, cs[..n], lim, sh), Run(m, cs[..n], lim))
  {
    hide Mirrors, Overflows, Run, TableRun, CleanInput;
    AgreesUpTo(m, t, cs, lim, sh, n);
  }

  /** The replicas agree all along a run if and only if no command of it overflows. */
  lemma AgreesIffRoomy(m: Directory, t: MemberTable, cs: seq<Command>, lim: Limits, sh: Shape)
    requires Mirrors(t, m) && forall c | c in cs :: CleanInput(c)
    ensures AgreesThroughout(m, t, cs, lim, sh) <==> Roomy(m, cs, lim, sh)
  {
    hide Mirrors, Answer, Step, Overflows, Run, TableRun;
    if Roomy(m, cs, lim, sh) {
      forall i | 0 <= i <= |cs| {
        RoomyAgrees(m, t, cs, lim, sh, i);
      }
    }
    if AgreesThroughout(m, t, cs, lim, sh) {
      forall i | 0 <= i < |cs|
        ensures !Overflows(Run(m, cs[..i], lim), cs[i], lim, sh)
      {
        TableRunStep(m, t, cs, i, lim, sh);
        assert Mirrors(TableRun(m, t, cs[..i + 1], lim, sh), Run(m, cs[..i + 1], lim));
        AnswerMirrors(Run(m, cs[..i], lim), TableRun(m, t, cs[..i], lim, sh), cs[i], lim, sh);
      }
    }
  }

  lemma TakenIff(m: Directory, t: MemberTable, c: Command, lim: Limits, sh: Shape)
    requires Mirrors(t, m) && CleanInput(c)
    ensures Taken(m, t, c, lim, sh) <==> !Overflows(m, c, lim, sh)
  {
    hide Mirrors, CleanInput, Accepts, TableStep, Answer, Step, Crowded;
    AnswerMirrors(m, t, c, lim, sh);
  }

  /** Up to its first overflow a run keeps the replicas in agreement. */
  lemma {:induction false} AgreesUpTo(m: Directory, t: MemberTable, cs: seq<Command>, lim: Limits, sh: Shape, n: nat)
    requires Mirrors(t, m) && n <= |cs| && forall c | c in cs :: CleanInput(c)
    requires forall i | 0 <= i < n :: !Overflows(Run(m, cs[..i], lim), cs[i], lim, sh)
    ensures Mirrors(TableRun(m, t, cs[..n], lim, sh), Run(m, cs[..n], lim))
  {
    hide Mirrors, Answer, Step, Overflows, Run, TableRun, CleanInput;
    if n > 0 {
      AgreesUpTo(m, t, cs, lim, sh, n - 1);
      TableRunStep(m, t, cs, n - 1, lim, sh);
      AnswerMirrors(Run(m, cs[..n - 1], lim), TableRun(m, t, cs[..n - 1], lim, sh), cs[n - 1], lim, sh);
    } else {
      assert cs[..0] == [];
      RunNothing(m, t, lim, sh);
    }
  }

  lemma RunNothing(m: Directory, t: MemberTable, lim: Limits, sh: Shape)
    ensures Run(m, [], lim) == m && TableRun(m, t, [], lim, sh) == t
  {}

  /** Nor does the kernel refuse an accepted command of a run, if and only if none overflows. */
  lemma NeverRefusedIffRoomy(m: Directory, t: MemberTable, cs: seq<Command>, lim: Limits, sh: Shape)
    requires Mirrors(t, m) && forall c | c in cs :: CleanInput(c)
    ensures NeverRefused(m, t, cs, lim, sh) <==> Roomy(m, cs, lim, sh)
  {
    hide Mirrors, Overflows, Taken, Run, TableRun, CleanInput;
    if Roomy(m, cs, lim, sh) {
      forall i | 0 <= i < |cs|
        ensures Taken(Run(m, cs[..i], lim), TableRun(m, t, cs[..i], lim, sh), cs[i], lim, sh)
      {
        AgreesUpTo(m, t, cs, lim, sh, i);
        TakenIff(Run(m, cs[..i], lim), TableRun(m, t, cs[..i], lim, sh), cs[i], lim, sh);
      }
    }
    if NeverRefused(m, t, cs, lim, sh) {
      RefusedNever(m, t, cs, lim, sh, |cs|);
    }
  }

  lemma {:induction false} RefusedNever(m: Directory, t: MemberTable, cs: seq<Command>, lim: Limits, sh: Shape, n: nat)
    requires Mirrors(t, m) && n <= |cs| && (forall c | c in cs :: CleanInput(c)) && NeverRefused(m, t, cs, lim, sh)
    ensures forall i | 0 <= i < n :: !Overflows(Run(m, cs[..i], lim), cs[i], lim, sh)
  {
    hide Mirrors, Overflows, Taken, Run, TableRun, CleanInput;
    if n > 0 {
      RefusedNever(m, t, cs, lim, sh, n - 1);
      AgreesUpTo(m, t, cs, lim, sh, n - 1);
      TakenIff(Run(m, cs[..n - 1], lim), TableRun(m, t, cs[..n - 1], lim, sh), cs[n - 1], lim, sh);
    }
  }

  /** With buckets at least as deep as the directory may be large no command overflows. */
  lemma DeepIsRoomy(m: Directory, cs: seq<Command>, lim: Limits, sh: Shape)
    requires lim.groups <= sh.depth
    ensures Roomy(m, cs, lim, sh)
  {
    forall i | 0 <= i < |cs|
      ensures !Overflows(Run(m, cs[..i], lim), cs[i], lim, sh)
    {
      DeepNeverOverflows(Run(m, cs[..i], lim), cs[i], lim, sh);
    }
  }

  lemma DeepNeverOverflows(m: Directory, c: Command, lim: Limits, sh: Shape)
    requires lim.groups <= sh.depth
    ensures !Overflows(m, c, lim, sh)
  {
    if c.Join? {
      SubsetCount(Bucketmates<Ip>(m.Keys, c.ip, sh.hash), m.Keys);
      assert |m| == |m.Keys|;
    }
  }
}
