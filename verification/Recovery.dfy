/**
 Saving and recovering: the saved configuration is printed, one command a group, into a
 command buffer; each command is read back and executed on a server that starts empty.
 */
module Recovery {
  import opened Base
  import opened Buckets
  import opened Dotted
  import opened Members
  import opened Replicas
  import opened ServerSpec
  import opened ServerConfig
  import opened CommandLine
  import opened ServerAdmin
  import opened ServerRuns
  import opened GroupModel
  import opened GroupTable

  const BUFFER_SIZE := 4096

  /** The printed command, its last comma and the terminator fit the buffer. */
  ghost predicate Fits(g: Saved) {
    |CommandText(g)| + (if g.members == [] then 1 else 2) <= BUFFER_SIZE
  }

  /** Up to 253 members always fit. */
  lemma FewMembersFit(g: Saved)
    requires |g.members| <= 253
    ensures Fits(g)
  {
    hide IpText, JoinWords, WithCommas;
    IpTextChars(g.ip);
    if g.members != [] {
      CommasAreJoin(Texts(g.members));
      CommasLength(g.members);
    }
  }

  lemma {:induction false} CommasLength(list: seq<Ip>)
    ensures |WithCommas(Texts(list))| <= 16 * |list|
  {
    if list != [] {
      var rest, a := list[..|list| - 1], list[|list| - 1];
      CommasLength(rest);
      assert rest + [a] == list;
      assert Texts(list)[..|list| - 1] == Texts(rest);
      IpTextChars(a);
    }
  }

  /** Among texts of full length 253 members are the most that fit. */
  lemma LongTextsFit(g: Saved)
    requires |IpText(g.ip)| == 15 && forall a | a in g.members :: |IpText(a)| == 15
    ensures Fits(g) <==> |g.members| <= 253
  {
    hide IpText, JoinWords, WithCommas;
    if g.members != [] {
      CommasAreJoin(Texts(g.members));
      CommasExact(g.members);
    }
  }

  lemma {:induction false} CommasExact(list: seq<Ip>)
    requires forall a | a in list :: |IpText(a)| == 15
    ensures |WithCommas(Texts(list))| == 16 * |list|
  {
    hide IpText;
    if list != [] {
      var rest, a := list[..|list| - 1], list[|list| - 1];
      CommasExact(rest);
      assert rest + [a] == list;
      assert Texts(list)[..|list| - 1] == Texts(rest);
    }
  }

  /** The `i`-th of ten thousand unicast addresses that print as fifteen characters. */
  function LongAddress(i: nat): Ip
    requires i < 10000
  {
    FromOctets([111, 111, 100 + i / 100, 100 + i % 100])
  }

  lemma LongAddressText(i: nat)
    requires i < 10000
    ensures |IpText(LongAddress(i))| == 15 && !IsMulticast(LongAddress(i))
  {
    var o: seq<Byte> := [111, 111, 100 + i / 100, 100 + i % 100];
    OctetsBack(o);
    var w := [OctetText(o[0]), OctetText(o[1]), OctetText(o[2]), OctetText(o[3])];
    assert JoinWords(w[2..], '.') == w[2] + "." + w[3] by {
      assert w[2..] == [w[2], w[3]] && w[2..][1..] == [w[3]];
    }
    assert JoinWords(w[1..], '.') == w[1] + "." + JoinWords(w[2..], '.') by {
      assert w[1..][1..] == w[2..];
    }
    assert IpText(LongAddress(i)) == w[0] + "." + JoinWords(w[1..], '.');
  }

  lemma OctetsBack(o: seq<Byte>)
    requires |o| == 4
    ensures Octets(FromOctets(o)) == o
  {
    var one := o[0] as int * 0x100 + o[1];
    var two := one * 0x100 + o[2];
    ByteStep(o[0], o[1]);
    ByteStep(one, o[2]);
    ByteStep(two, o[3]);
  }

  lemma ByteStep(q: nat, r: Byte)
    ensures (q * 0x100 + r) / 0x100 == q && (q * 0x100 + r) % 0x100 == r
  {
    Residue(q * 0x100 + r, q, r, 0x100);
  }

  /** So a group the parser and the configuration accept may be too long for the command buffer. */
  lemma SomeGroupsDoNotFit(lim: Limits)
    requires lim.groups > 0 && lim.members >= 254
    ensures exists g: Saved :: WellFormed([g], lim) && AllUnicast([g]) && |g.members| == 254 && !Fits(g)
  {
    hide IpText, Fits, LongAddress;
    var members := seq(254, i requires 0 <= i < 254 => LongAddress(i));
    var g := Saved(LongAddress(0), members);
    forall i: nat | i < 254 {
      LongAddressText(i);
    }
    assert forall a | a in members :: |IpText(a)| == 15 && !IsMulticast(a);
    LongTextsFit(g);
    forall i, j | 0 <= i < j < 254
      ensures members[i] != members[j]
    {
      LongAddressesDiffer(i, j);
    }
  }

  lemma LongAddressesDiffer(i: nat, j: nat)
    requires i < j < 10000
    ensures LongAddress(i) != LongAddress(j)
  {
    OctetsBack([111, 111, 100 + i / 100, 100 + i % 100]);
    OctetsBack([111, 111, 100 + j / 100, 100 + j % 100]);
    assert i == i / 100 * 100 + i % 100 && j == j / 100 * 100 + j % 100;
    assert Octets(LongAddress(i))[2] == 100 + i / 100 && Octets(LongAddress(i))[3] == 100 + i % 100;
  }

  /** The part of a buffer before its first terminator. */
  function CString(s: string): string { s[..IndexOfChar(s, '\0')] }

  /** The words, each followed by a comma. */
  function WithCommas(words: seq<string>): string {
    if words == [] then "" else WithCommas(words[..|words| - 1]) + words[|words| - 1] + ","
  }

  lemma {:induction false} JoinPush(words: seq<string>, w: string)
    requires words != []
    ensures JoinWords(words + [w], ',') == JoinWords(words, ',') + "," + w
  {
    if |words| > 1 {
      JoinPush(words[1..], w);
      assert (words + [w])[1..] == words[1..] + [w];
    } else {
      assert (words + [w])[1..] == [w];
    }
  }

  /** Dropping the last comma leaves the words joined. */
  lemma {:induction false} CommasAreJoin(words: seq<string>)
    requires words != []
    ensures WithCommas(words) == JoinWords(words, ',') + ","
  {
    var rest, w := words[..|words| - 1], words[|words| - 1];
    assert words == rest + [w];
    if rest != [] {
      CommasAreJoin(rest);
      JoinPush(rest, w);
    }
  }

  lemma {:induction false} CommasGrow(words: seq<string>, n: nat)
    requires n <= |words|
    ensures |WithCommas(words[..n])| <= |WithCommas(words)|
    decreases |words| - n
  {
    if n < |words| {
      CommasGrow(words, n + 1);
      assert words[..n + 1][..n] == words[..n];
    } else {
      assert words[..n] == words;
    }
  }

  /** `sprintf` of a text at `pos`: the text and a terminator. */
  method Print(buf: array<char>, pos: nat, s: string) returns (end: nat)
    requires pos + |s| + 1 <= buf.Length
    modifies buf
    ensures end == pos + |s| && buf[..end] == old(buf[..pos]) + s && buf[end] == '\0'
  {
    var i := 0;
    while i < |s|
      invariant 0 <= i <= |s|
      invariant buf[..pos + i] == old(buf[..pos]) + s[..i]
    {
      buf[pos + i] := s[i];
      i := i + 1;
    }
    end := pos + i;
    buf[end] := '\0';
  }

  /** Print the join option: every member and a comma, then the last comma becomes the terminator. */
  method PrintList(cmd: array<char>, start: nat, mem: seq<string>) returns (buf: nat)
    requires mem != [] && start + 4 + |WithCommas(mem)| < cmd.Length
    modifies cmd
    ensures buf < cmd.Length && cmd[buf] == '\0'
    ensures cmd[..buf] == old(cmd[..start]) + " -j " + JoinWords(mem, ',')
  {
    hide JoinWords, WithCommas;
    CommasAreJoin(mem);
    ghost var head := cmd[..start];
    buf := Print(cmd, start, " -j ");
    NoCommas();
    assert mem[..0] == [];
    var j := 0;
    while j < |mem|
      invariant 0 <= j <= |mem|
      invariant buf == start + 4 + |WithCommas(mem[..j])| < cmd.Length
      invariant cmd[..buf] == head + " -j " + WithCommas(mem[..j])
    {
      CommasStep(mem, j);
      CommasGrow(mem, j + 1);
      buf := Print(cmd, buf, mem[j] + ",");
      j := j + 1;
    }
    assert mem[..j] == mem;
    buf := buf - 1;
    cmd[buf] := '\0';
  }

  /** Print the command that re-creates one saved group. */
  method PrintCommand(cmd: array<char>, e: Entry, ghost g: Saved)
    requires cmd.Length == BUFFER_SIZE && Fits(g)
    requires e == Entry(IpText(g.ip), Texts(g.members))
    modifies cmd
    ensures CString(cmd[..]) == CommandText(g)
  {
    hide IpText, Texts, JoinWords, WithCommas, IndexOfChar, CString;
    var buf := Print(cmd, 0, PROGRAM + " -A -m " + e.group);
    if |e.members| > 0 {
      CommasAreJoin(e.members);
      buf := PrintList(cmd, buf, e.members);
    }
    assert cmd[..buf] == CommandText(g);
    TextHasNoNul(g);
    TerminatedString(cmd[..], buf);
  }

  lemma NoCommas()
    ensures WithCommas([]) == ""
  {}

  lemma CommasStep(words: seq<string>, j: nat)
    requires j < |words|
    ensures WithCommas(words[..j + 1]) == WithCommas(words[..j]) + (words[j] + ",")
  {
    assert words[..j + 1][..j] == words[..j];
  }

  lemma TerminatedString(s: string, i: nat)
    requires i < |s| && s[i] == '\0' && '\0' !in s[..i]
    ensures CString(s) == s[..i]
  {
    IndexOfCharIs(s, '\0', i);
  }

  lemma TextHasNoNul(g: Saved)
    ensures '\0' !in CommandText(g)
  {
    hide IpText, JoinWords, Texts;
    TextsLack(g.members, '\0');
    NoCharIn(Texts(g.members), '\0', ',');
    IpTextChars(g.ip);
  }

  // ---- replaying ----

  /** Every saved member list is what the parser would leave. */
  ghost predicate AllUnicast(c: seq<Saved>) {
    forall i | 0 <= i < |c| :: Unicast(c[i].members)
  }

  /** Replaying one more group appends it to what has been rebuilt. */
  lemma ReplayStep(c: seq<Saved>, lim: Limits, i: nat)
    requires WellFormed(c, lim) && i < |c|
    ensures Edit(c[..i], Join(c[i].ip, c[i].members), lim) == (c[..i + 1], true)
  {
    assert forall j | 0 <= j < i :: c[..i][j] == c[j];
    assert FindGroup(c[..i], c[i].ip) == i;
    assert c[..i] + [c[i]] == c[..i + 1];
  }

  lemma AddressesPrefix(c: seq<Saved>, lim: Limits, i: nat)
    requires WellFormed(c, lim) && i < |c|
    ensures Addresses(c[..i]) + {c[i].ip} <= Addresses(c) && c[i].ip !in Addresses(c[..i])
  {
    hide Distinct;
    assert forall j | 0 <= j < i :: c[..i][j] == c[j];
  }

  /** The kernel's table after the joins that a saved list is printed as. */
  ghost function Rebuilt(c: seq<Saved>, lim: Limits, sh: Shape): MemberTable {
    if c == [] then map[]
    else var g := c[|c| - 1];
         TableStep(Rebuilt(c[..|c| - 1], lim, sh), Join(g.ip, g.members), lim, sh).0
  }

  /** What has its place altogether has its place one group after another. */
  lemma ReplayFits(c: seq<Saved>, lim: Limits, i: nat, sh: Shape)
    requires WellFormed(c, lim) && i < |c| && Housed(Denote(c).Keys, sh)
    ensures !Overflows(Denote(c[..i]), Join(c[i].ip, c[i].members), lim, sh)
    ensures Housed(Denote(c[..i]).Keys, sh)
  {
    hide WellFormed, Denote, Addresses, Accepts;
    AddressesPrefix(c, lim, i);
    var ip, few, all := c[i].ip, Denote(c[..i]).Keys, Denote(c).Keys;
    assert few <= all && ip !in few && ip in all;
    SubsetCount(Bucketmates<Ip>(few, ip, sh.hash) + {ip}, Bucketmates<Ip>(all, ip, sh.hash));
    forall k: Ip | k in few
      ensures |Bucketmates<Ip>(few, k, sh.hash)| <= sh.depth
    {
      SubsetCount(Bucketmates<Ip>(few, k, sh.hash), Bucketmates<Ip>(all, k, sh.hash));
    }
  }

  /** One more group, if its bucket is not crowded, leaves every bucket within its depth. */
  lemma HousedPush(keys: set<Ip>, ip: Ip, sh: Shape)
    requires Housed(keys, sh) && !Crowded<Ip>(keys, ip, sh.depth, sh.hash)
    ensures Housed(keys + {ip}, sh)
  {
    forall k: Ip | k in keys + {ip}
      ensures |Bucketmates<Ip>(keys + {ip}, k, sh.hash)| <= sh.depth
    {
      if sh.hash(k) == sh.hash(ip) {
        assert Bucketmates<Ip>(keys + {ip}, k, sh.hash) == Bucketmates<Ip>(keys, ip, sh.hash) + {ip};
      } else {
        assert Bucketmates<Ip>(keys + {ip}, k, sh.hash) == Bucketmates<Ip>(keys, k, sh.hash);
      }
    }
  }

  /** The kernel never takes more than its buckets hold. */
  lemma {:induction false} RebuiltHoused(c: seq<Saved>, lim: Limits, sh: Shape)
    ensures Housed(Rebuilt(c, lim, sh).Keys, sh)
  {
    hide Housed, Crowded, Joined, TableQuit;
    if c == [] {
      NoneHoused(Rebuilt(c, lim, sh), sh);
    } else {
      var t, g := Rebuilt(c[..|c| - 1], lim, sh), c[|c| - 1];
      RebuiltHoused(c[..|c| - 1], lim, sh);
      if g.ip in t {
        assert t[g.ip := Joined(t[g.ip], g.members)].Keys == t.Keys;
      } else if !Crowded<Ip>(t.Keys, g.ip, sh.depth, sh.hash) {
        HousedPush(t.Keys, g.ip, sh);
        assert t[g.ip := g.members].Keys == t[g.ip := []].Keys == t.Keys + {g.ip};
      }
    }
  }

  lemma NoneHoused(t: MemberTable, sh: Shape)
    requires t == map[]
    ensures Housed(t.Keys, sh)
  {}

  /** Replaying one more group: the directory takes its step and the kernel gives its answer. */
  lemma RebuiltStep(c: seq<Saved>, lim: Limits, i: nat, sh: Shape)
    requires WellFormed(c, lim) && i < |c|
    ensures var cmd := Join(c[i].ip, c[i].members);
            && CleanInput(cmd) && Accepts(Denote(c[..i]), cmd, lim)
            && Denote(c[..i + 1]) == Step(Denote(c[..i]), cmd, lim)
            && Rebuilt(c[..i + 1], lim, sh) == Answer(Denote(c[..i]), Rebuilt(c[..i], lim, sh), cmd, lim, sh)
  {
    hide Denote, Edit, TableStep, Distinct, Accepts;
    assert c[..i + 1][..i] == c[..i] && c[..i + 1][i] == c[i];
    ReplayStep(c, lim, i);
    PrefixWellFormed(c, lim, i);
    EditIsStep(c[..i], Join(c[i].ip, c[i].members), lim);
  }

  lemma PrefixWellFormed(c: seq<Saved>, lim: Limits, i: nat)
    requires WellFormed(c, lim) && i < |c|
    ensures WellFormed(c[..i], lim) && Distinct(c[i].members)
  {
    hide Distinct;
    assert forall j | 0 <= j < i :: c[..i][j] == c[j];
  }

  /** What fits the buckets is rebuilt in the kernel, too. */
  lemma {:induction false} HousedIsRebuilt(c: seq<Saved>, lim: Limits, sh: Shape)
    requires WellFormed(c, lim) && Housed(Denote(c).Keys, sh)
    ensures Mirrors(Rebuilt(c, lim, sh), Denote(c))
  {
    hide WellFormed, Housed, Mirrors, Overflows, Denote, Answer, Step;
    if c == [] {
      NothingRebuilt(lim, sh);
    } else {
      var n := |c| - 1;
      ReplayFits(c, lim, n, sh);
      PrefixWellFormed(c, lim, n);
      HousedIsRebuilt(c[..n], lim, sh);
      RebuiltStep(c, lim, n, sh);
      AnswerMirrors(Denote(c[..n]), Rebuilt(c[..n], lim, sh), Join(c[n].ip, c[n].members), lim, sh);
      assert c[..n + 1] == c;
    }
  }

  lemma NothingRebuilt(lim: Limits, sh: Shape)
    ensures Mirrors(Rebuilt([], lim, sh), Denote([]))
  {
    DenoteEmpty(lim);
  }

  /** The rebuilt kernel table agrees with the saved list if and only if the list fits the buckets. */
  lemma RebuiltIffHoused(c: seq<Saved>, lim: Limits, sh: Shape)
    requires WellFormed(c, lim)
    ensures Mirrors(Rebuilt(c, lim, sh), Denote(c)) <==> Housed(Denote(c).Keys, sh)
  {
    hide WellFormed, Housed, Denote, Rebuilt;
    RebuiltHoused(c, lim, sh);
    if Housed(Denote(c).Keys, sh) {
      HousedIsRebuilt(c, lim, sh);
    }
  }

  /** Commands that carry unicast addresses keep every saved list unicast. */
  lemma EditUnicast(c: seq<Saved>, cmd: Command, lim: Limits)
    requires WellFormed(c, lim) && CleanInput(cmd) && AllUnicast(c)
    requires (cmd.Join? || cmd.Quit?) ==> Unicast(cmd.list)
    ensures AllUnicast(Edit(c, cmd, lim).0)
  {
    match cmd
    case Join(ip, list) =>
      var i := FindGroup(c, ip);
      if i < |c| {
        JoinsAgree(c[i].members, list);
        JoinedIsUnion(c[i].members, list);
        UnionUnicast(c[i].members, list, JoinEach(c[i].members, list));
      }
    case Quit(ip, list) =>
      var i := FindGroup(c, ip);
      if i < |c| {
        QuitShiftIsDifference(c[i].members, list);
        UnionUnicast(c[i].members, [], QuitShift(c[i].members, list));
      }
    case Delete(ip) =>
    case Clear =>
  }

  lemma UnionUnicast(s: seq<Ip>, list: seq<Ip>, r: seq<Ip>)
    requires Unicast(s) && Unicast(list) && SetOf(r) <= SetOf(s) + SetOf(list)
    ensures Unicast(r)
  {
    forall a | a in r
      ensures !IsMulticast(a)
    {
      assert a in SetOf(r);
      assert a in SetOf(s) || a in SetOf(list);
    }
  }

  /** So a run of such commands leaves a list that the recovery can print and read back. */
  lemma {:induction false} RunUnicast(c: seq<Saved>, cs: seq<Command>, lim: Limits)
    requires WellFormed(c, lim) && AllUnicast(c)
    requires forall cmd | cmd in cs :: CleanInput(cmd) && ((cmd.Join? || cmd.Quit?) ==> Unicast(cmd.list))
    ensures WellFormed(EditAll(c, cs, lim), lim) && AllUnicast(EditAll(c, cs, lim))
  {
    hide WellFormed, AllUnicast, Edit, Unicast;
    if cs != [] {
      RunUnicast(c, cs[..|cs| - 1], lim);
      var d := EditAll(c, cs[..|cs| - 1], lim);
      EditIsStep(d, cs[|cs| - 1], lim);
      EditUnicast(d, cs[|cs| - 1], lim);
    }
  }

  /**
   Replay a saved configuration file on a server that holds no groups. The configuration is
   rebuilt always; the kernel agrees with it exactly when the groups fit its buckets.
   */
  method Recover(file: Option<seq<Entry>>, ghost saved: seq<Saved>, s: MulticastServer)
    requires if file.None? then saved == [] else file.value == Printed(saved)
    requires WellFormed(saved, s.config.lim) && AllUnicast(saved)
    requires forall g | g in saved :: Fits(g)
    requires s.Valid() && s.Balanced() && s.config.saved == [] && s.Held() == map[]
    modifies s.Repr()
    ensures s.Valid() && s.Balanced()
    ensures s.config.saved == saved
    ensures s.Held() == Rebuilt(saved, s.config.lim, ShapeOf(s.kernel))
    ensures s.Agree() <==> Housed(Denote(saved).Keys, ShapeOf(s.kernel))
  {
    hide MulticastServer.Valid, MulticastServer.Balanced, MulticastServer.Held;
    hide Fits, AllUnicast, WellFormed, Printed, Mirrors, Housed, Denote, Rebuilt, CString, CommandText, ShapeOf;
    RebuiltIffHoused(saved, s.config.lim, ShapeOf(s.kernel));
    RebuiltNothing(s.config.lim, ShapeOf(s.kernel));
    if file.None? {
      return;
    }
    var cmd := new char[BUFFER_SIZE];
    var i := 0;
    assert saved[..0] == [];
    while i < |file.value|
      invariant 0 <= i <= |saved|
      invariant s.Valid() && s.Balanced()
      invariant s.config.saved == saved[..i]
      invariant s.Held() == Rebuilt(saved[..i], s.config.lim, ShapeOf(s.kernel))
    {
      PrintedAt(saved, i);
      assert saved[i] in saved;
      PrintCommand(cmd, file.value[i], saved[i]);
      ReplayOne(CString(cmd[..]), saved, i, s);
      i := i + 1;
    }
    assert saved[..i] == saved;
  }

  lemma RebuiltNothing(lim: Limits, sh: Shape)
    ensures Rebuilt([], lim, sh) == map[]
  {}

  /** `system(cmd)`: the command is read back and executed. */
  method ReplayOne(text: string, ghost saved: seq<Saved>, i: nat, s: MulticastServer)
    requires i < |saved| && text == CommandText(saved[i])
    requires WellFormed(saved, s.config.lim) && AllUnicast(saved)
    requires s.Valid() && s.Balanced() && s.config.saved == saved[..i]
    requires s.Held() == Rebuilt(saved[..i], s.config.lim, ShapeOf(s.kernel))
    modifies s.Repr()
    ensures s.Valid() && s.Balanced() && s.config.saved == saved[..i + 1]
    ensures s.Held() == Rebuilt(saved[..i + 1], s.config.lim, ShapeOf(s.kernel))
  {
    hide MulticastServer.Valid, Accounted, Lawful, MembersOf;
    hide Edit, Step, Answer, Unicast, CommandText, ReadCommand, AllUnicast, Rebuilt, Denote;
    hide Accepts, TableStep, WellFormed;
    ReplayClean(saved, s.config.lim, i);
    ReadBack(saved[i], s.config.lim.members);
    ReplayStep(saved, s.config.lim, i);
    RebuiltStep(saved, s.config.lim, i, ShapeOf(s.kernel));
    var c := ReadCommand(text, s.config.lim.members);
    var ok := s.Exec(c.value);
  }

  lemma ReplayClean(c: seq<Saved>, lim: Limits, i: nat)
    requires WellFormed(c, lim) && AllUnicast(c) && i < |c|
    ensures Distinct(c[i].members) && Unicast(c[i].members) && |c[i].members| <= lim.members
  {}

  /**
   Stop a server and start another: after any run of commands and packets the recovered
   server has the same saved list, in the same order, and the same directory. Its kernel
   agrees with both exactly when the groups fit its buckets, so in particular when its shape
   is that of the first server and that one's replicas agreed.
   */
  method SaveAndRecover(s: MulticastServer, es: seq<Event>, t: MulticastServer)
    requires s.Valid() && s.Balanced() && s.config.saved == []
    requires t.Valid() && t.Balanced() && t.config.saved == [] && t.Held() == map[]
    requires s.config.lim == t.config.lim && s.Repr() !! t.Repr()
    requires Clean(es) && forall c | c in Commands(es) && (c.Join? || c.Quit?) :: Unicast(c.list)
    requires Returns(s.Now(), es, s.config.lim, ShapeOf(s.kernel), s.hook.again)
    requires forall g | g in EditAll([], Commands(es), s.config.lim) :: Fits(g)
    modifies s.Repr(), t.Repr()
    ensures s.Valid() && t.Valid() && s.Balanced() && t.Balanced()
    ensures t.config.saved == s.config.saved == EditAll([], Commands(es), s.config.lim)
    ensures t.Current() == s.Current()
    ensures t.Agree() <==> Housed(t.Current().Keys, ShapeOf(t.kernel))
    ensures s.Agree() && ShapeOf(s.kernel) == ShapeOf(t.kernel) ==> t.Agree()
  {
    hide Accounted, MembersOf, Unicast, Fits, EditAll, EventRun, Commands, CleanInput, Returns, Added;
    hide Housed, Denote, Printed, WellFormed, AllUnicast, Rebuilt, Mirrors, TableRun, ServerSpec.Run, Groups.Valid;
    NothingSaved(s.config.lim);
    CleanCommands(es);
    RunUnicast([], Commands(es), s.config.lim);
    ServerAdmin.Run(s, es);
    if s.Agree() {
      AgreedIsHoused(s);
    }
    Recover(s.config.grpArray, s.config.saved, t);
  }

  /** While its replicas agree, a server's directory fits its kernel's buckets. */
  lemma AgreedIsHoused(s: MulticastServer)
    requires s.Valid() && s.Agree()
    ensures Housed(s.Current().Keys, ShapeOf(s.kernel))
  {
    hide Housed, Denote, Groups.Valid, Distinct, SetOf;
    HeldIsHoused(s.kernel);
  }

  lemma NothingSaved(lim: Limits)
    ensures WellFormed([], lim) && AllUnicast([])
  {}
}
