/**
 The text of an administration command: the recovery tool prints one for each saved group,
 the shell cuts it into words, and the command's parser reads the address list back.
 */
module CommandLine {
  import opened Base
  import opened Dotted
  import opened ServerSpec
  import opened ServerConfig

  const TOKEN_SIZE := 128

  predicate IsMulticast(a: Ip) { 0xE000_0000 <= a <= 0xEFFF_FFFF }

  ghost predicate Unicast(list: seq<Ip>) {
    forall a | a in list :: !IsMulticast(a)
  }

  // ---- reading an address list ----

  datatype ListResult = Parsed(list: seq<Ip>) | BadParameter | TooMany

  /** The addresses named by the pieces: multicast ones are skipped, repeated ones taken once. */
  function Collect(parts: seq<string>): Option<seq<Ip>> {
    if parts == [] then Some([])
    else match Collect(parts[..|parts| - 1])
      case None => None
      case Some(l) => Take(l, parts[|parts| - 1])
  }

  function Take(l: seq<Ip>, part: string): Option<seq<Ip>> {
    if |part| >= TOKEN_SIZE then None
    else match ParseIp(part)
      case None => None
      case Some(a) => if IsMulticast(a) || a in l then Some(l) else Some(l + [a])
  }

  function ReadList(s: string, max: nat): ListResult {
    var parts := Split(s, ',');
    if |parts| > max then TooMany
    else match Collect(parts)
      case None => BadParameter
      case Some(l) => Parsed(l)
  }

  /** A piece that cannot be read spoils every longer list. */
  lemma {:induction false} CollectPrefix(parts: seq<string>, i: nat)
    requires i <= |parts| && Collect(parts[..i]) == None
    ensures Collect(parts) == None
    decreases |parts| - i
  {
    if i < |parts| {
      assert parts[..i + 1][..i] == parts[..i];
      CollectPrefix(parts, i + 1);
    } else {
      assert parts[..i] == parts;
    }
  }

  /** What is read is distinct, has no multicast address, and is no longer than the list of pieces. */
  lemma {:induction false} CollectIsClean(parts: seq<string>)
    ensures Collect(parts).Some? ==>
      var l := Collect(parts).value; Distinct(l) && Unicast(l) && |l| <= |parts|
  {
    if parts != [] {
      CollectIsClean(parts[..|parts| - 1]);
    }
  }

  /** And it is every unicast address that was named. */
  lemma {:induction false} CollectIsComplete(parts: seq<string>, a: Ip)
    requires Collect(parts).Some?
    ensures a in Collect(parts).value <==> !(0xE000_0000 <= a <= 0xEFFF_FFFF) && IpText(a) in parts
  {
    hide ParseIp, IpText;
    if parts != [] {
      var rest, p := parts[..|parts| - 1], parts[|parts| - 1];
      CollectIsComplete(rest, a);
      ParseIsText(p, a);
      assert rest + [p] == parts;
    }
  }

  /** A piece that can be read: an address in dotted form, shorter than a token. */
  ghost predicate Readable(w: string) {
    |w| < 128 && exists a: Ip :: w == IpText(a)
  }

  lemma ReadableIs(w: string)
    ensures Readable(w) <==> |w| < TOKEN_SIZE && ParseIp(w).Some?
  {
    hide ParseIp, IpText;
    if ParseIp(w).Some? {
      ParseIsText(w, ParseIp(w).value);
    }
    if Readable(w) {
      var a: Ip :| w == IpText(a);
      ParseIsText(w, a);
    }
  }

  /** One piece that cannot be read makes the whole list unreadable, and nothing else does. */
  lemma {:induction false} CollectRefuses(parts: seq<string>)
    ensures Collect(parts) == None <==> exists w :: w in parts && !Readable(w)
  {
    hide ParseIp, Readable;
    if parts != [] {
      var rest, p := parts[..|parts| - 1], parts[|parts| - 1];
      CollectRefuses(rest);
      ReadableIs(p);
      assert rest + [p] == parts;
    }
  }

  /** Some piece is `a`, and up to it none is `b`. */
  ghost predicate NamedFirst(parts: seq<string>, a: Ip, b: Ip) {
    exists k: nat :: k < |parts| && parts[k] == IpText(a) && IpText(b) !in parts[..k + 1]
  }

  lemma NamedFirstPush(rest: seq<string>, p: string, a: Ip, b: Ip)
    requires NamedFirst(rest, a, b)
    ensures NamedFirst(rest + [p], a, b)
  {
    hide IpText;
    var k: nat :| k < |rest| && rest[k] == IpText(a) && IpText(b) !in rest[..k + 1];
    assert (rest + [p])[k] == IpText(a) && (rest + [p])[..k + 1] == rest[..k + 1];
  }

  lemma NamedFirstNew(rest: seq<string>, p: string, a: Ip, b: Ip)
    requires IpText(a) in rest && IpText(b) !in rest
    ensures NamedFirst(rest + [p], a, b)
  {
    hide IpText;
    var k: nat :| k < |rest| && rest[k] == IpText(a);
    assert (rest + [p])[k] == IpText(a) && (rest + [p])[..k + 1] == rest[..k + 1];
  }

  /** The addresses come in the order in which they are first named. */
  lemma {:induction false} CollectKeepsOrder(parts: seq<string>, i: nat, j: nat)
    requires Collect(parts).Some? && i < j < |Collect(parts).value|
    ensures var l := Collect(parts).value; NamedFirst(parts, l[i], l[j])
  {
    hide ParseIp, IpText, NamedFirst;
    var l := Collect(parts).value;
    var rest, p := parts[..|parts| - 1], parts[|parts| - 1];
    var had := Collect(rest).value;
    assert rest + [p] == parts;
    if j < |had| {
      CollectKeepsOrder(rest, i, j);
      NamedFirstPush(rest, p, l[i], l[j]);
    } else {
      CollectIsComplete(rest, l[i]);
      CollectIsComplete(rest, l[j]);
      NamedFirstNew(rest, p, l[i], l[j]);
    }
  }

  /** When a text is refused: for its commas, or for a piece that is no address. */
  lemma ReadListRefuses(s: string, max: nat)
    ensures ReadList(s, max).TooMany? <==> multiset(s)[','] >= max
    ensures ReadList(s, max).BadParameter?
            <==> multiset(s)[','] < max && exists w :: Piece(s, ',', w) && !Readable(w)
  {
    hide Split, Collect, Piece, Readable;
    SplitCount(s, ',');
    CollectRefuses(Split(s, ','));
    forall w ensures w in Split(s, ',') <==> Piece(s, ',', w) {
      SplitIsPieces(s, ',', w);
    }
  }

  /**
   A list that is read: distinct addresses in the order in which the text first names them,
   at most `max`; exactly those named, but for multicast ones.
   */
  lemma ReadListMeaning(s: string, max: nat, a: Ip)
    requires ReadList(s, max).Parsed?
    ensures var list := ReadList(s, max).list;
            && Distinct(list) && Unicast(list) && |list| <= max
            && (a in list <==> !(0xE000_0000 <= a <= 0xEFFF_FFFF) && Piece(s, ',', IpText(a)))
            && forall i, j :: 0 <= i < j < |list| ==> NamedFirst(Split(s, ','), list[i], list[j])
  {
    hide Piece, NamedFirst, ParseIp, IpText, Split, Distinct, Unicast, Collect;
    CollectIsClean(Split(s, ','));
    CollectIsComplete(Split(s, ','), a);
    SplitIsPieces(s, ',', IpText(a));
    var list := ReadList(s, max).list;
    forall i: nat, j: nat | 0 <= i < j < |list|
      ensures NamedFirst(Split(s, ','), list[i], list[j])
    {
      CollectKeepsOrder(Split(s, ','), i, j);
    }
  }

  /** Printed members are read back as they were. */
  lemma {:induction false} CollectTexts(list: seq<Ip>)
    requires Distinct(list) && Unicast(list)
    ensures Collect(Texts(list)) == Some(list)
  {
    if list != [] {
      var rest, a := list[..|list| - 1], list[|list| - 1];
      CollectTexts(rest);
      TextsPush(rest, a);
      assert rest + [a] == list;
      assert Texts(list)[..|list| - 1] == Texts(rest);
      IpRoundTrip(a);
      IpTextChars(a);
    }
  }

  /** Count the commas and add one. */
  method MultiRangeNum(s: string) returns (n: nat)
    ensures n == |Split(s, ',')| == multiset(s)[','] + 1
  {
    hide Split;
    SplitCount(s, ',');
    n := 0;
    var p := 0;
    assert s[0..] == s;
    while p < |s|
      invariant 0 <= p <= |s|
      invariant n + |Split(s[p..], ',')| == |Split(s, ',')|
    {
      SplitFirst(s[p..], ',');
      assert s[p..][1..] == s[p + 1..];
      if s[p] == ',' {
        n := n + 1;
      }
      p := p + 1;
    }
    assert s[p..] == "";
    PieceIs("", ',', 0);
    n := n + 1;
  }

  lemma NotBefore(s: string, c: char, i: nat)
    requires i < |s| && s[0] != c && c !in s[1..][..i]
    ensures c !in s[..i + 1]
  {
    assert s[..i + 1] == [s[0]] + s[1..][..i];
  }

  /** The first character of a text either ends a piece or only lengthens the first one. */
  lemma SplitFirst(s: string, c: char)
    requires s != ""
    ensures |Split(s, c)| == |Split(s[1..], c)| + if s[0] == c then 1 else 0
  {
    hide Split;
    if s[0] == c {
      PieceIs(s, c, 0);
    } else {
      var i := IndexOfChar(s[1..], c);
      NotBefore(s, c, i);
      PieceIs(s, c, i + 1);
      PieceIs(s[1..], c, i);
      assert i < |s| - 1 ==> s[1..][i + 1..] == s[i + 2..];
    }
  }

  /** Parse the comma list of a `-j` or `-q` option with two pointers. */
  method ParseService(s: string, max: nat) returns (ret: ListResult)
    ensures ret == ReadList(s, max)
    ensures ret.TooMany? <==> multiset(s)[','] >= max
    ensures ret.BadParameter? <==> multiset(s)[','] < max && exists w :: Piece(s, ',', w) && !Readable(w)
  {
    hide ParseIp, Split, Collect, Piece, Readable;
    ReadListRefuses(s, max);
    var num := MultiRangeNum(s);
    if num > max {
      return TooMany;
    }
    ghost var parts := Split(s, ',');
    var list: seq<Ip> := [];
    CollectNone();
    var p1, p2 := 0, 0;
    var i := 0;
    assert s[0..] == s && parts[0..] == parts && parts[..0] == [];
    while i < num
      invariant 0 <= i <= num
      invariant p1 == p2 <= |s| + 1
      invariant i < num ==> p1 <= |s| && Split(s[p1..], ',') == parts[i..]
      invariant Collect(parts[..i]) == Some(list)
    {
      p2 := ScanPiece(s, p1);
      NextPiece(s, p1, p2, parts, i);
      CollectStep(parts, i);
      var piece := s[p1..p2];
      if |piece| >= TOKEN_SIZE || ParseIp(piece).None? {
        CollectPrefix(parts, i + 1);
        return BadParameter;
      }
      var ip := ParseIp(piece).value;
      if !IsMulticast(ip) && ip !in list {
        list := list + [ip];
      }
      p2 := p2 + 1;
      p1 := p2;
      i := i + 1;
    }
    assert parts[..i] == parts;
    ret := Parsed(list);
  }

  lemma CollectNone()
    ensures Collect([]) == Some([])
  {}

  lemma CollectStep(parts: seq<string>, i: nat)
    requires i < |parts|
    ensures Collect(parts[..i + 1]) == match Collect(parts[..i])
                                       case None => None
                                       case Some(l) => Take(l, parts[i])
  {
    assert parts[..i + 1][..i] == parts[..i];
  }

  /** The text from `p1` to the next comma is the next piece, and the rest follows the comma. */
  lemma NextPiece(s: string, p1: nat, p2: nat, parts: seq<string>, i: nat)
    requires p1 <= p2 <= |s| && ',' !in s[p1..p2] && (p2 < |s| ==> s[p2] == ',')
    requires i < |parts| && Split(s[p1..], ',') == parts[i..]
    ensures s[p1..p2] == parts[i]
    ensures p2 == |s| ==> i + 1 == |parts|
    ensures p2 < |s| ==> i + 1 < |parts| && Split(s[p2 + 1..], ',') == parts[i + 1..]
  {
    hide Split;
    assert s[p1..][..p2 - p1] == s[p1..p2];
    PieceIs(s[p1..], ',', p2 - p1);
    if p2 < |s| {
      assert s[p1..][p2 - p1 + 1..] == s[p2 + 1..];
      assert parts[i..][1..] == parts[i + 1..];
    }
  }

  method ScanPiece(s: string, p1: nat) returns (p2: nat)
    requires p1 <= |s|
    ensures p1 <= p2 <= |s| && ',' !in s[p1..p2]
    ensures p2 < |s| ==> s[p2] == ','
  {
    p2 := p1;
    while p2 < |s| && s[p2] != ','
      invariant p1 <= p2 <= |s| && ',' !in s[p1..p2]
    {
      p2 := p2 + 1;
    }
  }

  /** The first piece ends at the first separator. */
  lemma PieceIs(s: string, c: char, i: nat)
    requires i <= |s| && c !in s[..i] && (i < |s| ==> s[i] == c)
    ensures Split(s, c) == if i == |s| then [s] else [s[..i]] + Split(s[i + 1..], c)
  {
    if i < |s| {
      IndexOfCharIs(s, c, i);
    } else {
      assert s[..i] == s;
    }
  }

  // ---- the printed command ----

  const PROGRAM := "multis_admin"

  function CommandText(g: Saved): string {
    PROGRAM + " -A -m " + IpText(g.ip)
    + if g.members == [] then "" else " -j " + JoinWords(Texts(g.members), ',')
  }

  /** The command the shell and the option parser make of a text. */
  function ReadCommand(text: string, max: nat): Option<Command> {
    var w := Split(text, ' ');
    if |w| >= 4 && w[0] == PROGRAM && w[1] == "-A" && w[2] == "-m" && ParseIp(w[3]).Some? then
      if |w| == 4 then Some(Join(ParseIp(w[3]).value, []))
      else if |w| == 6 && w[4] == "-j" && ReadList(w[5], max).Parsed? then
        Some(Join(ParseIp(w[3]).value, ReadList(w[5], max).list))
      else None
    else None
  }

  lemma NoCharIn(words: seq<string>, c: char, d: char)
    requires forall w | w in words :: c !in w
    requires c != d
    ensures c !in JoinWords(words, d)
  {}

  lemma TextsLack(list: seq<Ip>, c: char)
    requires !IsDigit(c) && c != '.'
    ensures forall w | w in Texts(list) :: c !in w
  {
    forall w | w in Texts(list)
      ensures c !in w
    {
      var i :| 0 <= i < |list| && Texts(list)[i] == w;
      IpTextChars(list[i]);
    }
  }

  /** The command as the words the shell will find. */
  function CommandWords(g: Saved): seq<string> {
    [PROGRAM, "-A", "-m", IpText(g.ip)]
    + if g.members == [] then [] else ["-j", JoinWords(Texts(g.members), ',')]
  }

  lemma CommandIsWords(g: Saved)
    ensures CommandText(g) == JoinWords(CommandWords(g), ' ')
  {
    hide IpText, Texts, JoinWords;
    var ip, list := IpText(g.ip), JoinWords(Texts(g.members), ',');
    if g.members == [] {
      JoinOne(ip, ' ');
      JoinHead([ip]);
      assert CommandWords(g) == [PROGRAM, "-A", "-m"] + [ip];
    } else {
      JoinList(ip, list);
      JoinHead([ip, "-j", list]);
      assert CommandWords(g) == [PROGRAM, "-A", "-m"] + [ip, "-j", list];
    }
  }

  /** The words every command starts with. */
  lemma JoinHead(tail: seq<string>)
    requires tail != []
    ensures JoinWords([PROGRAM, "-A", "-m"] + tail, ' ') == PROGRAM + " -A -m " + JoinWords(tail, ' ')
  {
    hide JoinWords;
    JoinCons("-m", tail, ' ');
    JoinCons("-A", ["-m"] + tail, ' ');
    JoinCons(PROGRAM, ["-A"] + (["-m"] + tail), ' ');
    assert [PROGRAM, "-A", "-m"] + tail == [PROGRAM] + (["-A"] + (["-m"] + tail));
  }

  /** The address and the option with the member list. */
  lemma JoinList(ip: string, list: string)
    ensures JoinWords([ip, "-j", list], ' ') == ip + " -j " + list
  {
    hide JoinWords;
    JoinOne(list, ' ');
    JoinCons("-j", [list], ' ');
    JoinCons(ip, ["-j", list], ' ');
    assert ["-j"] + [list] == ["-j", list] && [ip] + ["-j", list] == [ip, "-j", list];
  }

  /** No word of a command contains a blank. */
  lemma WordsHaveNoBlank(g: Saved)
    ensures forall w | w in CommandWords(g) :: ' ' !in w
  {
    hide IpText, JoinWords;
    TextsLack(g.members, ' ');
    NoCharIn(Texts(g.members), ' ', ',');
    IpTextChars(g.ip);
  }

  /** Reading back a printed command gives a join of the group with all its members. */
  lemma ReadBack(g: Saved, max: nat)
    requires Distinct(g.members) && Unicast(g.members) && |g.members| <= max
    ensures ReadCommand(CommandText(g), max) == Some(Join(g.ip, g.members))
  {
    hide IpText, ParseIp, Texts, JoinWords, Split, CommandText, Distinct, Unicast, ReadList;
    CommandIsWords(g);
    WordsHaveNoBlank(g);
    SplitJoinWords(CommandWords(g), ' ');
    IpRoundTrip(g.ip);
    if g.members != [] {
      ReadListBack(g.members, max);
    }
  }

  /** Reading back a printed list gives the list. */
  lemma ReadListBack(list: seq<Ip>, max: nat)
    requires list != [] && Distinct(list) && Unicast(list) && |list| <= max
    ensures ReadList(JoinWords(Texts(list), ','), max) == Parsed(list)
  {
    hide Distinct, Unicast, IpText, JoinWords, Split;
    TextsLack(list, ',');
    SplitJoinWords(Texts(list), ',');
    CollectTexts(list);
  }

  /** A printed command as an administrator types it. */
  lemma CommandForm(g: Ip, a: Ip, b: Ip)
    ensures CommandText(Saved(g, [])) == "multis_admin -A -m " + IpText(g)
    ensures CommandText(Saved(g, [a, b])) ==
            "multis_admin -A -m " + IpText(g) + " -j " + (IpText(a) + "," + IpText(b))
  {
    hide IpText, JoinWords;
    TextsOfTwo(a, b);
    JoinOne(IpText(b), ',');
    JoinCons(IpText(a), [IpText(b)], ',');
    assert [IpText(a)] + [IpText(b)] == [IpText(a), IpText(b)];
    assert PROGRAM + " -A -m " == "multis_admin -A -m ";
  }

  lemma TextsOfTwo(a: Ip, b: Ip)
    ensures Texts([a, b]) == [IpText(a), IpText(b)]
  {
    hide IpText;
  }
}
