/**
 The client's running configuration: a JSON array of (server, group, port) objects, searched
 by comparing texts, and the client directory it stands for.
 */
module ClientConfig {
  import opened Base
  import opened Dotted
  import opened ClientTable
  import ServerConfig

  /** One object of the array. */
  datatype Entry = Entry(server: string, group: string, port: U16)

  datatype Saved = Saved(source: Source, group: Ip)

  type ClientDirectory = map<Source, Ip>

  function Print(g: Saved): Entry {
    Entry(IpText(g.source.server), IpText(g.group), g.source.port)
  }

  function Printed(c: seq<Saved>): (e: seq<Entry>)
    ensures |e| == |c|
  {
    seq(|c|, i requires 0 <= i < |c| => Print(c[i]))
  }

  /** Position of a source in the saved list, or its length. */
  function FindSource(c: seq<Saved>, s: Source): (i: nat)
    ensures i <= |c|
    ensures i < |c| ==> c[i].source == s
    ensures forall j | 0 <= j < i :: c[j].source != s
  {
    if c == [] then 0 else if c[0].source == s then 0 else 1 + FindSource(c[1..], s)
  }

  ghost predicate Unique(c: seq<Saved>) {
    forall i, j | 0 <= i < j < |c| :: c[i].source != c[j].source
  }

  /** The saved list stands for this directory. */
  ghost predicate Denotes(c: seq<Saved>, m: ClientDirectory) {
    && (forall i | 0 <= i < |c| :: c[i].source in m && m[c[i].source] == c[i].group)
    && (forall s | s in m :: Listed(c, s))
  }

  ghost predicate Listed(c: seq<Saved>, s: Source) {
    exists i :: 0 <= i < |c| && c[i].source == s
  }

  lemma ListedAt(c: seq<Saved>, i: nat)
    requires i < |c|
    ensures Listed(c, c[i].source)
  {}

  lemma FoundIff(c: seq<Saved>, m: ClientDirectory, s: Source)
    requires Denotes(c, m)
    ensures s in m <==> FindSource(c, s) < |c|
    ensures s in m ==> m[s] == c[FindSource(c, s)].group
  {
    if s in m {
      assert Listed(c, s);
    }
  }

  lemma DenotesSize(c: seq<Saved>, m: ClientDirectory)
    requires Unique(c) && Denotes(c, m)
    ensures |c| == |m|
  {
    var sources := seq(|c|, i requires 0 <= i < |c| => c[i].source);
    DistinctCount(sources);
    forall s | s in m
      ensures s in sources
    {
      assert Listed(c, s);
      var i :| 0 <= i < |c| && c[i].source == s;
      assert sources[i] == s;
    }
    assert SetOf(sources) == m.Keys;
    assert |m| == |m.Keys|;
  }

  lemma DenotesPush(c: seq<Saved>, m: ClientDirectory, g: Saved)
    requires Unique(c) && Denotes(c, m) && g.source !in m
    ensures Unique(c + [g]) && Denotes(c + [g], m[g.source := g.group])
  {
    var d := c + [g];
    ListedAt(d, |c|);
    forall s | s in m
      ensures Listed(d, s)
    {
      assert Listed(c, s);
      var i :| 0 <= i < |c| && c[i].source == s;
      assert d[i] == c[i];
      ListedAt(d, i);
    }
  }

  lemma DenotesChange(c: seq<Saved>, m: ClientDirectory, i: nat, g: Saved)
    requires Unique(c) && Denotes(c, m) && i < |c| && c[i].source == g.source
    ensures Unique(c[i := g]) && Denotes(c[i := g], m[g.source := g.group])
  {
    var d := c[i := g];
    assert forall k | 0 <= k < |c| :: d[k].source == c[k].source;
    forall s | s in m
      ensures Listed(d, s)
    {
      assert Listed(c, s);
      var k :| 0 <= k < |c| && c[k].source == s;
      ListedAt(d, k);
    }
  }

  lemma DenotesDelete(c: seq<Saved>, m: ClientDirectory, i: nat)
    requires Unique(c) && Denotes(c, m) && i < |c|
    ensures Unique(c[..i] + c[i + 1..]) && Denotes(c[..i] + c[i + 1..], m - {c[i].source})
  {
    hide Listed;
    var d := c[..i] + c[i + 1..];
    assert forall k | 0 <= k < |d| :: d[k] == c[if k < i then k else k + 1];
    forall s | s in m && s != c[i].source
      ensures Listed(d, s)
    {
      StillListed(c, i, s);
    }
  }

  lemma StillListed(c: seq<Saved>, i: nat, s: Source)
    requires i < |c| && Listed(c, s) && s != c[i].source
    ensures Listed(c[..i] + c[i + 1..], s)
  {
    var k :| 0 <= k < |c| && c[k].source == s;
    assert (c[..i] + c[i + 1..])[if k < i then k else k - 1] == c[k];
    ListedAt(c[..i] + c[i + 1..], if k < i then k else k - 1);
  }

  /** A new source is listed last, and taking it out again restores the list. */
  lemma FoundLast(c: seq<Saved>, m: ClientDirectory, g: Saved)
    requires Denotes(c, m) && g.source !in m
    ensures FindSource(c + [g], g.source) == |c|
    ensures (c + [g])[..|c|] + (c + [g])[|c| + 1..] == c
  {
    var d, i := c + [g], FindSource(c + [g], g.source);
    assert d[|c|] == g;
    assert forall k | 0 <= k < |c| :: d[k] == c[k];
  }

  class Config {
    const max: nat
    /** The array of the file, absent once the file was cleared. */
    var grpArray: Option<seq<Entry>>
    ghost var saved: seq<Saved>
    ghost var dir: ClientDirectory

    ghost predicate Valid()
      reads this
    {
      && Unique(saved) && Denotes(saved, dir)
      && (grpArray.None? ==> saved == [])
      && (grpArray.Some? ==> grpArray.value == Printed(saved))
    }

    constructor (max: nat)
      ensures Valid() && this.max == max && dir == map[]
    {
      this.max := max;
      grpArray, saved, dir := None, [], map[];
    }

    /** Create the array when the file has none. */
    method Init()
      requires Valid()
      modifies this`grpArray
      ensures Valid() && grpArray.Some?
    {
      if grpArray.None? {
        grpArray := Some([]);
      }
    }

    /** Position of a source in the array, comparing server text and port. */
    method FindEntry(s: Source) returns (i: nat)
      requires Valid() && grpArray.Some?
      ensures i == FindSource(saved, s)
    {
      hide IpText, Unique, Denotes;
      var server := IpText(s.server);
      i := 0;
      while i < |grpArray.value| && !(grpArray.value[i].server == server && grpArray.value[i].port == s.port)
        invariant 0 <= i <= |saved|
        invariant forall k | 0 <= k < i :: saved[k].source != s
      {
        SameText(saved[i].source.server, s.server);
        i := i + 1;
      }
      if i < |saved| {
        SameText(saved[i].source.server, s.server);
      }
    }

    /** Add a source, or point a known one at another group; a full file refuses both. */
    method AddToConfig(s: Source, group: Ip) returns (ok: bool)
      requires Valid()
      modifies this
      ensures Valid() && grpArray.Some? == old(grpArray.Some?)
      ensures ok <==> old(grpArray.Some?) && |old(dir)| + 1 <= max && !(s in old(dir) && old(dir)[s] == group)
      ensures dir == if ok then old(dir)[s := group] else old(dir)
      ensures saved == if !ok then old(saved)
                       else if s in old(dir) then old(saved)[FindSource(old(saved), s) := Saved(s, group)]
                       else old(saved) + [Saved(s, group)]
    {
      hide IpText, Unique, Denotes;
      if grpArray.None? {
        return false;
      }
      DenotesSize(saved, dir);
      var num := |grpArray.value|;
      if num + 1 > max {
        return false;
      }
      var i := FindEntry(s);
      FoundIff(saved, dir, s);
      var text := IpText(group);
      if i < num {
        SameText(saved[i].group, group);
        if grpArray.value[i].group == text {
          return false;
        }
        DenotesChange(saved, dir, i, Saved(s, group));
        grpArray := Some(grpArray.value[i := grpArray.value[i].(group := text)]);
        saved := saved[i := Saved(s, group)];
      } else {
        DenotesPush(saved, dir, Saved(s, group));
        grpArray := Some(grpArray.value + [Entry(IpText(s.server), text, s.port)]);
        saved := saved + [Saved(s, group)];
      }
      assert grpArray.value == Printed(saved);
      dir := dir[s := group];
      ok := true;
    }

    lemma AddedLast(s: Source, group: Ip)
      requires Valid()
      ensures s !in dir ==> var g := Saved(s, group);
        FindSource(saved + [g], s) == |saved| && (saved + [g])[..|saved|] + (saved + [g])[|saved| + 1..] == saved
    {
      if s !in dir {
        FoundLast(saved, dir, Saved(s, group));
      }
    }

    method DelFromConfig(s: Source) returns (ok: bool)
      requires Valid()
      modifies this
      ensures Valid() && grpArray.Some? == old(grpArray.Some?)
      ensures ok <==> old(grpArray.Some?) && s in old(dir)
      ensures dir == if ok then old(dir) - {s} else old(dir)
      ensures var i := FindSource(old(saved), s);
              saved == if ok then old(saved)[..i] + old(saved)[i + 1..] else old(saved)
    {
      hide IpText, Unique, Denotes;
      if grpArray.None? {
        return false;
      }
      var i := FindEntry(s);
      FoundIff(saved, dir, s);
      if i == |grpArray.value| {
        return false;
      }
      DenotesDelete(saved, dir, i);
      var rest := ServerConfig.DelElementFromArrayByIdx(grpArray.value, i);
      grpArray := Some(rest);
      saved, dir := saved[..i] + saved[i + 1..], dir - {s};
      assert rest == Printed(saved);
      ok := true;
    }

    /** Delete the whole array from the file. */
    method ClearConfig()
      requires Valid()
      modifies this
      ensures Valid() && dir == map[] && saved == [] && grpArray == None
    {
      if grpArray.None? {
        return;
      }
      grpArray, saved, dir := None, [], map[];
    }
  }
}
