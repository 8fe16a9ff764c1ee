/** Addresses as dotted-decimal text, and lists of words with a separator. */
module Dotted {
  import opened Base

  // ---- splitting and joining ----

  function IndexOfChar(s: string, c: char): (i: nat)
    ensures i <= |s| && c !in s[..i]
    ensures i < |s| ==> s[i] == c
    ensures i == |s| <==> c !in s
  {
    if s == "" then 0 else if s[0] == c then 0
    else var i := 1 + IndexOfChar(s[1..], c); assert s[..i] == [s[0]] + s[1..][..i - 1]; assert s == [s[0]] + s[1..]; i
  }

  /** The pieces of `s` between occurrences of `c`. */
  function Split(s: string, c: char): (parts: seq<string>)
    ensures |parts| > 0
    ensures forall p | p in parts :: c !in p
  {
    var i := IndexOfChar(s, c);
    if i == |s| then [s] else [s[..i]] + Split(s[i + 1..], c)
  }

  /** The words with `c` between neighbours. */
  function JoinWords(words: seq<string>, c: char): string {
    if words == [] then ""
    else if |words| == 1 then words[0]
    else words[0] + [c] + JoinWords(words[1..], c)
  }

  lemma IndexOfCharIs(s: string, c: char, i: nat)
    requires i < |s| && s[i] == c && c !in s[..i]
    ensures IndexOfChar(s, c) == i
  {
    assert forall k | 0 <= k < i :: s[..i][k] == s[k];
    assert forall k | 0 <= k < IndexOfChar(s, c) :: s[..IndexOfChar(s, c)][k] == s[k];
  }

  /** Splitting undoes joining when no word contains the separator. */
  lemma {:induction false} SplitJoinWords(words: seq<string>, c: char)
    requires |words| > 0 && forall w | w in words :: c !in w
    ensures Split(JoinWords(words, c), c) == words
  {
    if |words| > 1 {
      var s, w := JoinWords(words, c), words[0];
      SplitJoinWords(words[1..], c);
      assert s[..|w|] == w && s[|w| + 1..] == JoinWords(words[1..], c);
      IndexOfCharIs(s, c, |w|);
    }
  }

  lemma JoinCons(w: string, rest: seq<string>, c: char)
    requires rest != []
    ensures JoinWords([w] + rest, c) == w + [c] + JoinWords(rest, c)
  {
    assert ([w] + rest)[1..] == rest;
  }

  lemma SplitIs(s: string, c: char)
    ensures var k := IndexOfChar(s, c);
            Split(s, c) == if k == |s| then [s] else [s[..k]] + Split(s[k + 1..], c)
  {}

  lemma CutAt(s: string, k: nat)
    requires k < |s|
    ensures s == s[..k] + [s[k]] + s[k + 1..]
  {}

  lemma JoinOne(w: string, c: char)
    ensures JoinWords([w], c) == w
  {}

  /** And joining undoes splitting. */
  lemma {:induction false} JoinSplit(s: string, c: char)
    ensures JoinWords(Split(s, c), c) == s
    decreases |s|
  {
    hide Split, JoinWords, IndexOfChar;
    var k := IndexOfChar(s, c);
    SplitIs(s, c);
    if k == |s| {
      JoinOne(s, c);
    } else {
      JoinSplit(s[k + 1..], c);
      JoinCons(s[..k], Split(s[k + 1..], c), c);
      CutAt(s, k);
    }
  }

  /** `w` stands at `i` between two separators, or between one and an end of the text. */
  ghost predicate Stands(s: string, c: char, w: string, i: nat) {
    && i + |w| <= |s| && s[i..i + |w|] == w && c !in w
    && (i == 0 || s[i - 1] == c) && (i + |w| == |s| || s[i + |w|] == c)
  }

  /** A piece of `s`, by where it stands. */
  ghost predicate Piece(s: string, c: char, w: string) {
    exists i: nat :: Stands(s, c, w, i)
  }

  /** Behind the first separator the pieces are those of the rest. */
  lemma PieceShift(s: string, c: char, w: string, k: nat, i: nat)
    requires k < |s| && s[k] == c
    ensures Stands(s[k + 1..], c, w, i) <==> Stands(s, c, w, k + 1 + i)
  {
    if i + |w| <= |s| - (k + 1) {
      assert s[k + 1..][i..i + |w|] == s[k + 1 + i..k + 1 + i + |w|];
    }
  }

  lemma SplitStep(s: string, c: char, w: string)
    ensures var k := IndexOfChar(s, c);
            w in Split(s, c) <==> w == s[..k] || (k < |s| && w in Split(s[k + 1..], c))
  {
    hide Split, IndexOfChar;
    var k := IndexOfChar(s, c);
    SplitIs(s, c);
    if k == |s| {
      assert s[..k] == s;
    }
  }

  /** Splitting gives just the pieces. */
  lemma SplitIsPieces(s: string, c: char, w: string)
    ensures w in Split(s, c) <==> Piece(s, c, w)
  {
    hide Split, Stands;
    if w in Split(s, c) {
      SplitHasPieces(s, c, w);
    }
    if Piece(s, c, w) {
      var i: nat :| Stands(s, c, w, i);
      PiecesAreSplit(s, c, w, i);
    }
  }

  lemma {:induction false} SplitHasPieces(s: string, c: char, w: string)
    requires w in Split(s, c)
    ensures Piece(s, c, w)
    decreases |s|
  {
    hide Split, IndexOfChar, Stands;
    var k := IndexOfChar(s, c);
    SplitStep(s, c, w);
    if w == s[..k] {
      FirstStands(s, c, k);
    } else {
      SplitHasPieces(s[k + 1..], c, w);
      var i: nat :| Stands(s[k + 1..], c, w, i);
      PieceShift(s, c, w, k, i);
    }
  }

  lemma FirstStands(s: string, c: char, k: nat)
    requires k <= |s| && c !in s[..k] && (k < |s| ==> s[k] == c)
    ensures Stands(s, c, s[..k], 0)
  {}

  lemma {:induction false} PiecesAreSplit(s: string, c: char, w: string, i: nat)
    requires Stands(s, c, w, i)
    ensures w in Split(s, c)
    decreases |s|
  {
    hide Split, IndexOfChar, Stands;
    var k := IndexOfChar(s, c);
    SplitStep(s, c, w);
    StandsFirst(s, c, k, w, i);
    if i > k {
      PieceShift(s, c, w, k, i - (k + 1));
      PiecesAreSplit(s[k + 1..], c, w, i - (k + 1));
    }
  }

  /** A piece that starts no later than the first separator is the text before it. */
  lemma StandsFirst(s: string, c: char, k: nat, w: string, i: nat)
    requires k <= |s| && c !in s[..k] && (k < |s| ==> s[k] == c)
    requires Stands(s, c, w, i)
    ensures if i <= k then w == s[..k] else k < |s|
  {
    assert forall m | 0 <= m < k :: s[..k][m] == s[m];
    assert forall m | i <= m < i + |w| :: w[m - i] == s[m];
  }

  lemma NoneOf(s: string, c: char)
    requires c !in s
    ensures multiset(s)[c] == 0
  {}

  lemma CountJoin(s: string, k: nat)
    requires k < |s|
    ensures multiset(s) == multiset(s[..k]) + multiset{s[k]} + multiset(s[k + 1..])
  {
    CutAt(s, k);
  }

  /** There is one piece more than there are separators. */
  lemma {:induction false} SplitCount(s: string, c: char)
    ensures |Split(s, c)| == multiset(s)[c] + 1
    decreases |s|
  {
    hide Split, IndexOfChar;
    var k := IndexOfChar(s, c);
    SplitIs(s, c);
    NoneOf(s[..k], c);
    if k < |s| {
      SplitCount(s[k + 1..], c);
      CountJoin(s, k);
    } else {
      assert s == s[..k];
    }
  }

  // ---- octets ----

  predicate IsDigit(c: char) { '0' <= c <= '9' }

  function DigitChar(d: nat): (c: char)
    requires d < 10
    ensures IsDigit(c)
  {
    '0' + d as char
  }

  function DigitValue(c: char): (d: nat)
    requires IsDigit(c)
    ensures d < 10
  {
    (c - '0') as int
  }

  function OctetText(n: Byte): (s: string)
    ensures 1 <= |s| <= 3 && forall c | c in s :: IsDigit(c)
  {
    if n < 10 then [DigitChar(n)]
    else if n < 100 then [DigitChar(n / 10), DigitChar(n % 10)]
    else [DigitChar(n / 100), DigitChar(n / 10 % 10), DigitChar(n % 10)]
  }

  /** The value of a string of digits. */
  function Number(s: string): nat
    requires forall c | c in s :: IsDigit(c)
  {
    if s == "" then 0 else 10 * Number(s[..|s| - 1]) + DigitValue(s[|s| - 1])
  }

  /** One to three digits, no leading zero, at most 255. */
  function ParseOctet(s: string): Option<Byte> {
    if 1 <= |s| <= 3 && (forall c | c in s :: IsDigit(c)) && (|s| > 1 ==> s[0] != '0') && Number(s) < 0x100
    then Some(Number(s)) else None
  }

  lemma NumberPush(s: string, d: nat)
    requires d < 10 && forall c | c in s :: IsDigit(c)
    ensures Number(s + [DigitChar(d)]) == 10 * Number(s) + d
  {
    assert (s + [DigitChar(d)])[..|s|] == s;
  }

  lemma NumberOne(u: nat)
    requires u < 10
    ensures Number([DigitChar(u)]) == u
  {
    NumberPush("", u);
    assert "" + [DigitChar(u)] == [DigitChar(u)];
  }

  lemma NumberTwo(t: nat, u: nat)
    requires t < 10 && u < 10
    ensures Number([DigitChar(t), DigitChar(u)]) == 10 * t + u
  {
    hide Number, DigitChar;
    NumberOne(t);
    NumberPush([DigitChar(t)], u);
    assert [DigitChar(t)] + [DigitChar(u)] == [DigitChar(t), DigitChar(u)];
  }

  /** The value of one, two and three digits. */
  lemma NumberOfDigits(h: nat, t: nat, u: nat)
    requires h < 10 && t < 10 && u < 10
    ensures Number([DigitChar(u)]) == u
    ensures Number([DigitChar(t), DigitChar(u)]) == 10 * t + u
    ensures Number([DigitChar(h), DigitChar(t), DigitChar(u)]) == 100 * h + 10 * t + u
  {
    hide Number, DigitChar;
    NumberOne(u);
    NumberTwo(t, u);
    NumberTwo(h, t);
    NumberPush([DigitChar(h), DigitChar(t)], u);
    assert [DigitChar(h), DigitChar(t)] + [DigitChar(u)] == [DigitChar(h), DigitChar(t), DigitChar(u)];
  }

  /** A printed octet parses to itself. */
  lemma OctetRoundTrip(n: Byte)
    ensures ParseOctet(OctetText(n)) == Some(n)
  {
    hide Number;
    var h, t, u := n / 100, n / 10 % 10, n % 10;
    assert n == 100 * h + 10 * t + u;
    NumberOfDigits(h, t, u);
  }

  // ---- addresses ----

  /** The octets of an address, most significant first. */
  function Octets(a: Ip): (o: seq<Byte>)
    ensures |o| == 4
  {
    var a1 := a / 0x100;
    var a2 := a1 / 0x100;
    [a2 / 0x100, a2 % 0x100, a1 % 0x100, a % 0x100]
  }

  function FromOctets(o: seq<Byte>): Ip
    requires |o| == 4
  {
    ((o[0] as int * 0x100 + o[1]) * 0x100 + o[2]) * 0x100 + o[3]
  }

  lemma OctetsRoundTrip(a: Ip)
    ensures FromOctets(Octets(a)) == a
  {}

  function IpText(a: Ip): string {
    var o := Octets(a);
    JoinWords([OctetText(o[0]), OctetText(o[1]), OctetText(o[2]), OctetText(o[3])], '.')
  }

  function ParseIp(s: string): Option<Ip> {
    var p := Split(s, '.');
    if |p| != 4 then None
    else match (ParseOctet(p[0]), ParseOctet(p[1]), ParseOctet(p[2]), ParseOctet(p[3]))
      case (Some(a), Some(b), Some(c), Some(d)) => Some(FromOctets([a, b, c, d]))
      case _ => None
  }

  /** A printed address parses to itself. */
  lemma IpRoundTrip(a: Ip)
    ensures ParseIp(IpText(a)) == Some(a)
  {
    var o := Octets(a);
    var words := [OctetText(o[0]), OctetText(o[1]), OctetText(o[2]), OctetText(o[3])];
    SplitJoinWords(words, '.');
    OctetRoundTrip(o[0]);
    OctetRoundTrip(o[1]);
    OctetRoundTrip(o[2]);
    OctetRoundTrip(o[3]);
    OctetsRoundTrip(a);
    assert [o[0], o[1], o[2], o[3]] == o;
  }

  /** A digit is printed as it was read. */
  lemma DigitBack(c: char)
    requires IsDigit(c)
    ensures DigitChar(DigitValue(c)) == c
  {}

  /** What parses as an octet is the octet printed. */
  lemma OctetTextBack(s: string)
    requires ParseOctet(s).Some?
    ensures OctetText(ParseOctet(s).value) == s
  {
    hide Number;
    DigitBack(s[0]);
    if |s| == 1 {
      NumberOfDigits(0, 0, DigitValue(s[0]));
      assert s == [s[0]];
    } else if |s| == 2 {
      DigitBack(s[1]);
      var t, u := DigitValue(s[0]), DigitValue(s[1]);
      NumberOfDigits(0, t, u);
      assert s == [s[0], s[1]];
      Residue(Number(s), t, u, 10);
    } else {
      DigitBack(s[1]);
      DigitBack(s[2]);
      var h, t, u := DigitValue(s[0]), DigitValue(s[1]), DigitValue(s[2]);
      NumberOfDigits(h, t, u);
      assert s == [s[0], s[1], s[2]];
      ThreeDigits(Number(s), h, t, u);
    }
  }

  lemma ThreeDigits(n: nat, h: nat, t: nat, u: nat)
    requires n == 100 * h + 10 * t + u && 0 < h < 10 && t < 10 && u < 10
    ensures n >= 100 && n / 100 == h && n / 10 % 10 == t && n % 10 == u
  {
    Residue(n, h, 10 * t + u, 100);
    Residue(n, 10 * h + t, u, 10);
    Residue(10 * h + t, h, t, 10);
  }

  lemma OctetsBack(o: seq<Byte>)
    requires |o| == 4
    ensures Octets(FromOctets(o)) == o
  {
    var a1 := (o[0] as int * 0x100 + o[1]) * 0x100 + o[2];
    Residue(FromOctets(o), a1, o[3], 0x100);
    Residue(a1, o[0] as int * 0x100 + o[1], o[2], 0x100);
    Residue(o[0] as int * 0x100 + o[1], o[0], o[1], 0x100);
  }

  /** And nothing else parses to an address than its printed form. */
  lemma ParseIsText(w: string, a: Ip)
    ensures ParseIp(w) == Some(a) <==> w == IpText(a)
  {
    hide ParseOctet, OctetText, Split, JoinWords, FromOctets, Octets;
    IpRoundTrip(a);
    if ParseIp(w) == Some(a) {
      var p := Split(w, '.');
      JoinSplit(w, '.');
      OctetTextBack(p[0]);
      OctetTextBack(p[1]);
      OctetTextBack(p[2]);
      OctetTextBack(p[3]);
      var o := [ParseOctet(p[0]).value, ParseOctet(p[1]).value, ParseOctet(p[2]).value, ParseOctet(p[3]).value];
      OctetsBack(o);
      assert p == [OctetText(o[0]), OctetText(o[1]), OctetText(o[2]), OctetText(o[3])];
    }
  }

  /** Four octets print with three dots, the most significant one first. */
  lemma IpTextIs(a: Ip, o: seq<Byte>)
    requires |o| == 4 && a == 0x100_0000 * o[0] as int + 0x1_0000 * o[1] as int + 0x100 * o[2] as int + o[3] as int
    ensures IpText(a) == OctetText(o[0]) + "." + OctetText(o[1]) + "." + OctetText(o[2]) + "." + OctetText(o[3])
  {
    hide OctetText, Octets, JoinWords;
    OctetsBack(o);
    var w := [OctetText(o[0]), OctetText(o[1]), OctetText(o[2]), OctetText(o[3])];
    JoinFour(w[0], w[1], w[2], w[3]);
  }

  lemma JoinFour(a: string, b: string, c: string, d: string)
    ensures JoinWords([a, b, c, d], '.') == a + "." + b + "." + c + "." + d
  {
    hide JoinWords;
    JoinOne(d, '.');
    JoinCons(c, [d], '.');
    JoinCons(b, [c, d], '.');
    JoinCons(a, [b, c, d], '.');
    assert [c] + [d] == [c, d] && [b] + [c, d] == [b, c, d] && [a] + [b, c, d] == [a, b, c, d];
  }

  /** A printed address as a reader knows it. */
  lemma KnownText()
    ensures IpText(0xC0A8_0001) == "192.168.0.1"
  {
    hide IpText, OctetText;
    KnownOctets();
    IpTextIs(0xC0A8_0001, [192, 168, 0, 1]);
  }

  lemma KnownOctets()
    ensures OctetText(192) == "192" && OctetText(168) == "168" && OctetText(0) == "0" && OctetText(1) == "1"
  {}

  /** Comparing texts compares addresses. */
  lemma SameText(a: Ip, b: Ip)
    ensures IpText(a) == IpText(b) <==> a == b
  {
    IpRoundTrip(a);
    IpRoundTrip(b);
  }

  /** An address prints as digits and dots, at most fifteen of them. */
  lemma IpTextChars(a: Ip)
    ensures 7 <= |IpText(a)| <= 15
    ensures forall c | c in IpText(a) :: IsDigit(c) || c == '.'
  {
    var o := Octets(a);
    var w := [OctetText(o[0]), OctetText(o[1]), OctetText(o[2]), OctetText(o[3])];
    assert JoinWords(w[2..], '.') == w[2] + "." + w[3] by {
      assert w[2..] == [w[2], w[3]] && w[2..][1..] == [w[3]];
    }
    assert JoinWords(w[1..], '.') == w[1] + "." + JoinWords(w[2..], '.') by {
      assert w[1..][1..] == w[2..];
    }
    assert IpText(a) == w[0] + "." + JoinWords(w[1..], '.');
  }

  function Texts(list: seq<Ip>): (t: seq<string>)
    ensures |t| == |list|
  {
    seq(|list|, i requires 0 <= i < |list| => IpText(list[i]))
  }
}
