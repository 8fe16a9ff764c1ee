/**
 The multicast server's administration as one finite map from group to member set: what
 each command does to it and whether it is accepted, and how the saved list of groups
 denotes it.
 */
module ServerSpec {
  import opened Base
  import opened Members

  datatype Command =
    | Join(ip: Ip, list: seq<Ip>)
    | Quit(ip: Ip, list: seq<Ip>)
    | Delete(ip: Ip)
    | Clear

  type Directory = map<Ip, set<Ip>>

  /** The limits shared by the configuration and the kernel table. */
  datatype Limits = Limits(groups: nat, members: nat)

  /** The addresses a command carries are pairwise different, as the parser leaves them. */
  ghost predicate CleanInput(c: Command) {
    (c.Join? || c.Quit?) ==> Distinct(c.list)
  }

  /** A command is accepted or leaves the directory alone. */
  ghost predicate Accepts(m: Directory, c: Command, lim: Limits) {
    match c
    case Join(ip, list) =>
      if ip in m then |list| + |m[ip]| <= lim.members
      else |m| < lim.groups && |list| <= lim.members
    case Quit(ip, _) => ip in m
    case Delete(ip) => ip in m
    case Clear => true
  }

  ghost function Step(m: Directory, c: Command, lim: Limits): Directory {
    if !Accepts(m, c, lim) then m
    else match c
      case Join(ip, list) => m[ip := (if ip in m then m[ip] else {}) + SetOf(list)]
      case Quit(ip, list) => m[ip := m[ip] - SetOf(list)]
      case Delete(ip) => m - {ip}
      case Clear => map[]
  }

  /** The directory after a run of commands from `m`. */
  ghost function Run(m: Directory, cs: seq<Command>, lim: Limits): Directory {
    if cs == [] then m else Step(Run(m, cs[..|cs| - 1], lim), cs[|cs| - 1], lim)
  }

  // ---- the saved list ----

  datatype Saved = Saved(ip: Ip, members: seq<Ip>)

  /** Position of a group in the saved list, or its length. */
  function FindGroup(c: seq<Saved>, ip: Ip): (i: nat)
    ensures i <= |c|
    ensures i < |c| ==> c[i].ip == ip
    ensures forall j | 0 <= j < i :: c[j].ip != ip
  {
    if c == [] then 0 else if c[0].ip == ip then 0 else 1 + FindGroup(c[1..], ip)
  }

  ghost predicate WellFormed(c: seq<Saved>, lim: Limits) {
    && |c| <= lim.groups
    && (forall i, j | 0 <= i < j < |c| :: c[i].ip != c[j].ip)
    && (forall i | 0 <= i < |c| :: Distinct(c[i].members) && |c[i].members| <= lim.members)
  }

  ghost function Addresses(c: seq<Saved>): set<Ip> {
    set i | 0 <= i < |c| :: c[i].ip
  }

  /** The directory a saved list stands for. */
  ghost function Denote(c: seq<Saved>): (m: Directory)
    ensures m.Keys == Addresses(c)
  {
    map ip | ip in Addresses(c) :: SetOf(c[FindGroup(c, ip)].members)
  }

  /** The same, as a relation: every saved group is in the directory, and nothing else is. */
  ghost predicate Denotes(c: seq<Saved>, m: Directory) {
    && (forall i | 0 <= i < |c| :: c[i].ip in m && m[c[i].ip] == SetOf(c[i].members))
    && (forall ip | ip in m :: exists i :: 0 <= i < |c| && c[i].ip == ip)
  }

  lemma DenoteHolds(c: seq<Saved>, lim: Limits)
    requires WellFormed(c, lim)
    ensures Denotes(c, Denote(c))
  {
    hide SetOf;
    forall i | 0 <= i < |c|
      ensures FindGroup(c, c[i].ip) == i && c[i].ip in Addresses(c)
    {}
  }

  lemma DenoteIs(c: seq<Saved>, lim: Limits, m: Directory)
    requires WellFormed(c, lim) && Denotes(c, m)
    ensures Denote(c) == m
  {
    hide SetOf, Denote, Addresses, WellFormed;
    DenoteHolds(c, lim);
    var n := Denote(c);
    forall ip | ip in m
      ensures ip in n && n[ip] == m[ip]
    {
      var i :| 0 <= i < |c| && c[i].ip == ip;
    }
    forall ip | ip in n
      ensures ip in m
    {
      var i :| 0 <= i < |c| && c[i].ip == ip;
    }
  }

  lemma DenoteEmpty(lim: Limits)
    ensures WellFormed([], lim) && Denote([]) == map[]
  {
    DenoteIs([], lim, map[]);
  }

  lemma DenoteAt(c: seq<Saved>, lim: Limits, i: nat)
    requires WellFormed(c, lim) && i < |c|
    ensures FindGroup(c, c[i].ip) == i
    ensures c[i].ip in Denote(c) && Denote(c)[c[i].ip] == SetOf(c[i].members)
    ensures |Denote(c)[c[i].ip]| == |c[i].members|
  {
    hide SetOf, Denote;
    DenoteHolds(c, lim);
    DistinctCount(c[i].members);
  }

  lemma DenoteMissing(c: seq<Saved>, ip: Ip)
    ensures ip in Denote(c) <==> FindGroup(c, ip) < |c|
  {
    var i := FindGroup(c, ip);
    if i < |c| {
      assert c[i].ip in Addresses(c);
    }
  }

  lemma DenoteSize(c: seq<Saved>, lim: Limits)
    requires WellFormed(c, lim)
    ensures |Denote(c)| == |c|
  {
    var ips := seq(|c|, i requires 0 <= i < |c| => c[i].ip);
    DistinctCount(ips);
    assert SetOf(ips) == Addresses(c) by {
      assert forall i | 0 <= i < |c| :: ips[i] == c[i].ip;
    }
    assert |Denote(c)| == |Denote(c).Keys|;
  }

  // ---- what each command does to the list ----

  /** The configuration's edit of its list; the flag says whether the command was accepted. */
  function Edit(c: seq<Saved>, cmd: Command, lim: Limits): (seq<Saved>, bool) {
    match cmd
    case Join(ip, list) =>
      var i := FindGroup(c, ip);
      if i == |c| then
        if |c| + 1 > lim.groups || |list| > lim.members then (c, false)
        else (c + [Saved(ip, list)], true)
      else if |list| + |c[i].members| > lim.members then (c, false)
      else (c[i := Saved(ip, JoinEach(c[i].members, list))], true)
    case Quit(ip, list) =>
      var i := FindGroup(c, ip);
      if i == |c| then (c, false)
      else (c[i := Saved(ip, QuitShift(c[i].members, list))], true)
    case Delete(ip) =>
      var i := FindGroup(c, ip);
      if i == |c| then (c, false) else (c[..i] + c[i + 1..], true)
    case Clear => ([], true)
  }

  lemma DenotePush(c: seq<Saved>, lim: Limits, g: Saved)
    requires WellFormed(c, lim) && WellFormed(c + [g], lim)
    ensures Denote(c + [g]) == Denote(c)[g.ip := SetOf(g.members)]
  {
    hide SetOf, Denote, Addresses, Distinct;
    DenoteHolds(c, lim);
    var d := c + [g];
    assert d[|c|] == g;
    assert forall i | 0 <= i < |c| :: d[i] == c[i];
    DenoteIs(d, lim, Denote(c)[g.ip := SetOf(g.members)]);
  }

  lemma DenoteChange(c: seq<Saved>, lim: Limits, i: nat, g: Saved)
    requires WellFormed(c, lim) && i < |c| && g.ip == c[i].ip
    requires Distinct(g.members) && |g.members| <= lim.members
    ensures WellFormed(c[i := g], lim)
    ensures Denote(c[i := g]) == Denote(c)[g.ip := SetOf(g.members)]
  {
    hide SetOf, Denote, Addresses, Distinct;
    DenoteHolds(c, lim);
    var d := c[i := g];
    assert forall k | 0 <= k < |c| :: d[k].ip == c[k].ip;
    DenoteIs(d, lim, Denote(c)[g.ip := SetOf(g.members)]);
  }

  lemma DeleteWellFormed(c: seq<Saved>, lim: Limits, i: nat)
    requires WellFormed(c, lim) && i < |c|
    ensures WellFormed(c[..i] + c[i + 1..], lim)
  {
    hide Distinct;
    var d := c[..i] + c[i + 1..];
    assert forall k | 0 <= k < |d| :: d[k] == c[if k < i then k else k + 1];
  }

  /** Only the deleted group was at its place, because no group is listed twice. */
  lemma OnlyAt(c: seq<Saved>, lim: Limits, i: nat, k: nat)
    requires WellFormed(c, lim) && i < |c| && k < |c| && i != k
    ensures c[k].ip != c[i].ip
  {
    hide Distinct;
  }

  lemma DenoteDelete(c: seq<Saved>, lim: Limits, i: nat)
    requires WellFormed(c, lim) && i < |c|
    ensures WellFormed(c[..i] + c[i + 1..], lim)
    ensures Denote(c[..i] + c[i + 1..]) == Denote(c) - {c[i].ip}
  {
    hide SetOf, Denote, Addresses, WellFormed, Denotes;
    DeleteWellFormed(c, lim, i);
    DenoteHolds(c, lim);
    DenotesDelete(c, lim, i, Denote(c));
    DenoteIs(c[..i] + c[i + 1..], lim, Denote(c) - {c[i].ip});
  }

  lemma DenotesDelete(c: seq<Saved>, lim: Limits, i: nat, m: Directory)
    requires WellFormed(c, lim) && i < |c| && Denotes(c, m)
    ensures Denotes(c[..i] + c[i + 1..], m - {c[i].ip})
  {
    hide SetOf, WellFormed;
    var d := c[..i] + c[i + 1..];
    forall k | 0 <= k < |d|
      ensures d[k].ip in m - {c[i].ip} && m[d[k].ip] == SetOf(d[k].members)
    {
      var j := if k < i then k else k + 1;
      assert d[k] == c[j];
      OnlyAt(c, lim, i, j);
    }
    forall ip | ip in m - {c[i].ip}
      ensures exists l :: 0 <= l < |d| && d[l].ip == ip
    {
      var k :| 0 <= k < |c| && c[k].ip == ip;
      assert d[if k < i then k else k - 1].ip == ip;
    }
  }

  /** Every edit of a well-formed list keeps it well-formed and is the command on the directory. */
  lemma EditIsStep(c: seq<Saved>, cmd: Command, lim: Limits)
    requires WellFormed(c, lim) && CleanInput(cmd)
    ensures var (d, ok) := Edit(c, cmd, lim);
            && WellFormed(d, lim)
            && (ok <==> Accepts(Denote(c), cmd, lim))
            && Denote(d) == Step(Denote(c), cmd, lim)
  {
    hide SetOf, Denote, Addresses, QuitShift, Distinct;
    DenoteSize(c, lim);
    match cmd
    case Join(ip, list) =>
      EditJoin(c, ip, list, lim);
    case Quit(ip, list) =>
      EditQuit(c, ip, list, lim);
    case Delete(ip) =>
      var i := FindGroup(c, ip);
      DenoteMissing(c, ip);
      if i < |c| {
        DenoteDelete(c, lim, i);
      }
    case Clear =>
      DenoteIs([], lim, map[]);
  }

  lemma EditQuit(c: seq<Saved>, ip: Ip, list: seq<Ip>, lim: Limits)
    requires WellFormed(c, lim)
    ensures var (d, ok) := Edit(c, Quit(ip, list), lim);
            && WellFormed(d, lim)
            && (ok <==> Accepts(Denote(c), Quit(ip, list), lim))
            && Denote(d) == Step(Denote(c), Quit(ip, list), lim)
  {
    hide SetOf, Denote, Addresses, QuitShift, Distinct;
    var i := FindGroup(c, ip);
    DenoteMissing(c, ip);
    if i < |c| {
      DenoteAt(c, lim, i);
      QuitShiftIsDifference(c[i].members, list);
      var r := QuitShift(c[i].members, list);
      DistinctCount(r);
      DistinctCount(c[i].members);
      SubsetCount(SetOf(r), SetOf(c[i].members));
      DenoteChange(c, lim, i, Saved(ip, r));
    }
  }

  lemma EditJoin(c: seq<Saved>, ip: Ip, list: seq<Ip>, lim: Limits)
    requires WellFormed(c, lim) && Distinct(list) && |Denote(c)| == |c|
    ensures var (d, ok) := Edit(c, Join(ip, list), lim);
            && WellFormed(d, lim)
            && (ok <==> Accepts(Denote(c), Join(ip, list), lim))
            && Denote(d) == Step(Denote(c), Join(ip, list), lim)
  {
    hide SetOf, Denote, Addresses, Joined, JoinEach;
    var i := FindGroup(c, ip);
    DenoteMissing(c, ip);
    if i < |c| {
      DenoteAt(c, lim, i);
      JoinsAgree(c[i].members, list);
      JoinedIsUnion(c[i].members, list);
      if |list| + |c[i].members| <= lim.members {
        DenoteChange(c, lim, i, Saved(ip, JoinEach(c[i].members, list)));
      }
    } else if |c| + 1 <= lim.groups && |list| <= lim.members {
      assert forall k | 0 <= k < |c| :: (c + [Saved(ip, list)])[k] == c[k];
      DenotePush(c, lim, Saved(ip, list));
      assert {} + SetOf(list) == SetOf(list);
    }
  }

  // ---- each command on the saved list, place by place ----

  lemma FoundAt(c: seq<Saved>, lim: Limits, i: nat)
    requires WellFormed(c, lim) && i < |c|
    ensures FindGroup(c, c[i].ip) == i
    ensures Distinct(c[i].members)
  {}

  /** The groups keep their places, and all but one their members. */
  ghost predicate OnlyPlace(c: seq<Saved>, d: seq<Saved>, i: nat)
    requires i < |c|
  {
    |d| == |c| && d[i].ip == c[i].ip && forall k | 0 <= k < |c| && k != i :: d[k] == c[k]
  }

  /** A new group goes to the end of the list, if there is room for it and for its members. */
  lemma JoinNew(c: seq<Saved>, ip: Ip, list: seq<Ip>, lim: Limits)
    requires forall k | 0 <= k < |c| :: c[k].ip != ip
    ensures Edit(c, Join(ip, list), lim) ==
            if |c| < lim.groups && |list| <= lim.members then (c + [Saved(ip, list)], true) else (c, false)
  {}

  /**
   A join of a known group keeps its members at the front and appends the others of the list,
   in the list's order; it is refused when both together are too many, even if they overlap.
   */
  lemma JoinKnown(c: seq<Saved>, i: nat, list: seq<Ip>, lim: Limits)
    requires WellFormed(c, lim) && i < |c| && Distinct(list)
    ensures var (d, ok) := Edit(c, Join(c[i].ip, list), lim);
            && (ok <==> |list| + |c[i].members| <= lim.members)
            && (!ok ==> d == c)
            && (ok ==> OnlyPlace(c, d, i) && c[i].members <= d[i].members && Distinct(d[i].members)
                       && SetOf(d[i].members) == SetOf(c[i].members) + SetOf(list)
                       && InOrder(d[i].members[|c[i].members|..], list))
  {
    hide Fresh, SetOf, InOrder, WellFormed, Distinct;
    FoundAt(c, lim, i);
    JoinsAgree(c[i].members, list);
    JoinedIsUnion(c[i].members, list);
    FreshInOrder(c[i].members, list);
  }

  /** A quit takes the listed members out, and the others keep their order. */
  lemma QuitKnown(c: seq<Saved>, i: nat, list: seq<Ip>, lim: Limits)
    requires WellFormed(c, lim) && i < |c|
    ensures var (d, ok) := Edit(c, Quit(c[i].ip, list), lim);
            && ok && OnlyPlace(c, d, i) && Distinct(d[i].members)
            && SetOf(d[i].members) == SetOf(c[i].members) - SetOf(list)
            && InOrder(d[i].members, c[i].members)
  {
    hide Fresh, SetOf, InOrder, WellFormed, Distinct, QuitShift;
    FoundAt(c, lim, i);
    QuitShiftIsDifference(c[i].members, list);
    QuitShiftKeepsOrder(c[i].members, list);
    FreshInOrder(list, c[i].members);
  }

  /** A delete closes the hole; quitting or deleting an unknown group is refused; a clear takes all. */
  lemma DeleteAndClear(c: seq<Saved>, ip: Ip, list: seq<Ip>, lim: Limits)
    requires WellFormed(c, lim)
    ensures forall i | 0 <= i < |c| && c[i].ip == ip :: Edit(c, Delete(ip), lim) == (c[..i] + c[i + 1..], true)
    ensures (forall k | 0 <= k < |c| :: c[k].ip != ip) ==>
              Edit(c, Delete(ip), lim) == (c, false) && Edit(c, Quit(ip, list), lim) == (c, false)
    ensures Edit(c, Clear, lim) == ([], true)
  {
    hide WellFormed, QuitShift;
    forall i | 0 <= i < |c| && c[i].ip == ip
      ensures FindGroup(c, ip) == i
    {
      FoundAt(c, lim, i);
    }
  }
}
