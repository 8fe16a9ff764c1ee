/**
 The server's running configuration: a JSON array of groups, each with its address and its
 member array as text. Commands search it by comparing strings, append to it, and close
 holes by shifting.
 */
module ServerConfig {
  import opened Base
  import opened Dotted
  import opened Members
  import opened ServerSpec

  /** One object of the group array. */
  datatype Entry = Entry(group: string, members: seq<string>)

  function Printed(c: seq<Saved>): (e: seq<Entry>)
    ensures |e| == |c|
  {
    seq(|c|, i requires 0 <= i < |c| => Entry(IpText(c[i].ip), Texts(c[i].members)))
  }

  lemma PrintedPush(c: seq<Saved>, g: Saved)
    ensures Printed(c + [g]) == Printed(c) + [Entry(IpText(g.ip), Texts(g.members))]
  {}

  lemma PrintedChange(c: seq<Saved>, i: nat, g: Saved)
    requires i < |c| && g.ip == c[i].ip
    ensures Printed(c[i := g]) == Printed(c)[i := Printed(c)[i].(members := Texts(g.members))]
  {}

  lemma PrintedAt(c: seq<Saved>, i: nat)
    requires i < |c|
    ensures Printed(c)[i] == Entry(IpText(c[i].ip), Texts(c[i].members))
  {}

  lemma PrintedRemove(c: seq<Saved>, i: nat)
    requires i < |c|
    ensures Printed(c[..i] + c[i + 1..]) == Printed(c)[..i] + Printed(c)[i + 1..]
  {
    hide IpText, Texts;
    var d, e := c[..i] + c[i + 1..], Printed(c)[..i] + Printed(c)[i + 1..];
    forall k | 0 <= k < |d|
      ensures Printed(d)[k] == e[k]
    {
      assert d[k] == c[if k < i then k else k + 1];
    }
  }

  lemma TextsPush(list: seq<Ip>, x: Ip)
    ensures Texts(list + [x]) == Texts(list) + [IpText(x)]
  {}

  lemma TextsRemove(list: seq<Ip>, j: nat)
    requires j < |list|
    ensures Texts(list[..j] + list[j + 1..]) == Texts(list)[..j] + Texts(list)[j + 1..]
  {
    var l, r := list[..j] + list[j + 1..], Texts(list)[..j] + Texts(list)[j + 1..];
    forall k | 0 <= k < |l|
      ensures Texts(l)[k] == r[k]
    {
      assert l[k] == list[if k < j then k else k + 1];
    }
  }

  /** Searching texts finds what searching addresses finds. */
  lemma TextsIndex(list: seq<Ip>, x: Ip, j: nat)
    requires j <= |list| && IpText(x) !in Texts(list)[..j]
    requires j < |list| ==> Texts(list)[j] == IpText(x)
    ensures IndexOf(list, x) == j
  {
    hide IpText;
    forall k | 0 <= k < j
      ensures list[k] != x
    {
      assert Texts(list)[..j][k] == IpText(list[k]);
    }
    if j < |list| {
      SameText(list[j], x);
    }
    var i := IndexOf(list, x);
  }

  /** Remove one element of a JSON array by moving the later ones down. */
  method DelElementFromArrayByIdx<T>(arr: seq<T>, idx: nat) returns (out: seq<T>)
    requires idx < |arr|
    ensures out == arr[..idx] + arr[idx + 1..]
  {
    out := arr;
    var i := idx;
    while i < |arr| - 1
      invariant idx <= i <= |arr| - 1
      invariant out == arr[..idx] + arr[idx + 1..i + 1] + arr[i..]
    {
      out := out[i := out[i + 1]];
      i := i + 1;
    }
    out := out[..|arr| - 1];
  }

  /** Position of a text in a member array, or its length. */
  method FindText(mem: seq<string>, t: string) returns (j: nat)
    ensures j <= |mem| && t !in mem[..j]
    ensures j < |mem| ==> mem[j] == t
  {
    j := 0;
    while j < |mem| && mem[j] != t
      invariant 0 <= j <= |mem|
      invariant t !in mem[..j]
    {
      j := j + 1;
    }
  }

  /** Join or quit each address of `list` in turn. */
  method EditMembers(join: bool, mem: seq<string>, list: seq<Ip>, ghost was: seq<Ip>) returns (out: seq<string>)
    requires mem == Texts(was)
    ensures out == Texts(if join then JoinEach(was, list) else QuitShift(was, list))
  {
    hide IpText, Texts;
    out := mem;
    ghost var now := was;
    var i := 0;
    while i < |list|
      invariant 0 <= i <= |list|
      invariant now == if join then JoinEach(was, list[..i]) else QuitShift(was, list[..i])
      invariant out == Texts(now)
    {
      assert list[..i + 1][..i] == list[..i];
      var text := IpText(list[i]);
      var j := FindText(out, text);
      TextsIndex(now, list[i], j);
      if join {
        if j == |out| {
          TextsPush(now, list[i]);
          out := out + [text];
          now := now + [list[i]];
        }
      } else if j < |out| {
        TextsRemove(now, j);
        out := DelElementFromArrayByIdx(out, j);
        now := now[..j] + now[j + 1..];
      }
      i := i + 1;
    }
    assert list[..i] == list;
  }

  /** The member array of a new group. */
  method PrintMembers(list: seq<Ip>) returns (mem: seq<string>)
    ensures mem == Texts(list)
  {
    hide IpText, Texts;
    mem := [];
    assert Texts(list[..0]) == [];
    var j := 0;
    while j < |list|
      invariant 0 <= j <= |list|
      invariant mem == Texts(list[..j])
    {
      TextsPush(list[..j], list[j]);
      assert list[..j + 1] == list[..j] + [list[j]];
      mem := mem + [IpText(list[j])];
      j := j + 1;
    }
    assert list[..j] == list;
  }

  class Config {
    const lim: Limits
    /** The group array of the file, absent once the file was cleared. */
    var grpArray: Option<seq<Entry>>
    ghost var saved: seq<Saved>

    /** The file is the printed form of a well-formed list of groups. */
    ghost predicate Valid()
      reads this
    {
      && WellFormed(saved, lim)
      && (grpArray.None? ==> saved == [])
      && (grpArray.Some? ==> grpArray.value == Printed(saved))
    }

    constructor (lim: Limits)
      ensures Valid() && this.lim == lim && saved == []
    {
      this.lim := lim;
      grpArray, saved := None, [];
    }

    /** Create the group array when the file has none. */
    method Init()
      requires Valid()
      modifies this`grpArray
      ensures Valid() && grpArray.Some?
    {
      if grpArray.None? {
        grpArray := Some([]);
      }
    }

    /** Position of a group in the array, comparing texts. */
    method FindEntry(ip: Ip) returns (i: nat)
      requires Valid() && grpArray.Some?
      ensures i == FindGroup(saved, ip)
    {
      hide IpText;
      var text := IpText(ip);
      i := 0;
      while i < |grpArray.value| && grpArray.value[i].group != text
        invariant 0 <= i <= |saved|
        invariant forall k | 0 <= k < i :: saved[k].ip != ip
      {
        SameText(saved[i].ip, ip);
        i := i + 1;
      }
      if i < |saved| {
        SameText(saved[i].ip, ip);
      }
    }

    /** The command that the parameters of an edit stand for. */
    ghost function CommandOf(join: bool, ip: Ip, list: seq<Ip>): Command {
      if join then Join(ip, list) else Quit(ip, list)
    }

    /** Add a group that is not in the array; only a join may. */
    method AddEntry(join: bool, ip: Ip, list: seq<Ip>) returns (ok: bool)
      requires Valid() && grpArray.Some? && Distinct(list) && FindGroup(saved, ip) == |saved|
      modifies this
      ensures Valid() && grpArray.Some?
      ensures (saved, ok) == Edit(old(saved), CommandOf(join, ip, list), lim)
    {
      hide IpText, Texts, Printed, JoinEach, QuitShift, Distinct, WellFormed;
      EditIsStep(saved, CommandOf(join, ip, list), lim);
      var num := |grpArray.value|;
      if !join || num + 1 > lim.groups || |list| > lim.members {
        return false;
      }
      var mem := PrintMembers(list);
      PrintedPush(saved, Saved(ip, list));
      grpArray := Some(grpArray.value + [Entry(IpText(ip), mem)]);
      saved := saved + [Saved(ip, list)];
      ok := true;
    }

    /** Join addresses to the group at a position, or take addresses out of it. */
    method ChangeEntry(join: bool, ip: Ip, list: seq<Ip>, i: nat) returns (ok: bool)
      requires Valid() && grpArray.Some? && Distinct(list) && i == FindGroup(saved, ip) < |saved|
      modifies this
      ensures Valid() && grpArray.Some?
      ensures (saved, ok) == Edit(old(saved), CommandOf(join, ip, list), lim)
    {
      hide IpText, Texts, Printed, JoinEach, QuitShift, Distinct, WellFormed;
      EditIsStep(saved, CommandOf(join, ip, list), lim);
      PrintedAt(saved, i);
      var mem := grpArray.value[i].members;
      if join && |list| + |mem| > lim.members {
        return false;
      }
      mem := EditMembers(join, mem, list, saved[i].members);
      ghost var members := if join then JoinEach(saved[i].members, list) else QuitShift(saved[i].members, list);
      PrintedChange(saved, i, Saved(ip, members));
      grpArray := Some(grpArray.value[i := grpArray.value[i].(members := mem)]);
      saved := saved[i := Saved(ip, members)];
      ok := true;
    }

    /** Join addresses to a group, adding the group when it is new, or take addresses out of it. */
    method AddToConfig(join: bool, ip: Ip, list: seq<Ip>) returns (ok: bool)
      requires Valid() && Distinct(list)
      modifies this
      ensures Valid() && grpArray.Some? == old(grpArray.Some?)
      ensures old(grpArray.None?) ==> !ok && saved == old(saved)
      ensures old(grpArray.Some?) ==> (saved, ok) == Edit(old(saved), CommandOf(join, ip, list), lim)
    {
      hide IpText, Edit, Distinct, WellFormed;
      if grpArray.None? {
        return false;
      }
      var i := FindEntry(ip);
      if i == |grpArray.value| {
        ok := AddEntry(join, ip, list);
      } else {
        ok := ChangeEntry(join, ip, list, i);
      }
    }

    method DelFromConfig(ip: Ip) returns (ok: bool)
      requires Valid()
      modifies this
      ensures Valid() && grpArray.Some? == old(grpArray.Some?)
      ensures old(grpArray.None?) ==> !ok && saved == old(saved)
      ensures old(grpArray.Some?) ==> (saved, ok) == Edit(old(saved), Delete(ip), lim)
    {
      hide IpText, Texts, Printed, Distinct, WellFormed;
      if grpArray.None? {
        return false;
      }
      EditIsStep(saved, Delete(ip), lim);
      var i := FindEntry(ip);
      if i == |grpArray.value| {
        return false;
      }
      PrintedRemove(saved, i);
      var rest := DelElementFromArrayByIdx(grpArray.value, i);
      grpArray := Some(rest);
      saved := saved[..i] + saved[i + 1..];
      ok := true;
    }

    /** Delete the whole array from the file. */
    method ClearConfig()
      requires Valid()
      modifies this
      ensures Valid() && saved == [] && grpArray == None
    {
      if grpArray.None? {
        return;
      }
      grpArray, saved := None, [];
    }
  }
}
