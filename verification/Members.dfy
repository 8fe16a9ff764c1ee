/**
 Member lists as values: what a join and a quit do to a list, once as the kernel table
 does it (compare with the old members, fill holes with the last member) and once as the
 configuration file does it (compare with the growing list, close holes by shifting).
 */
module Members {
  import opened Base

  /** Position of the first `x`, or the length when there is none. */
  function IndexOf<T(==)>(s: seq<T>, x: T): (i: nat)
    ensures i <= |s|
    ensures i < |s| ==> s[i] == x
    ensures forall j | 0 <= j < i :: s[j] != x
    ensures i == |s| <==> x !in s
  {
    if s == [] then 0 else if s[0] == x then 0
    else assert s == [s[0]] + s[1..]; 1 + IndexOf(s[1..], x)
  }

  // ---- joining ----

  /** The elements of `list` that are not in `known`, in order. */
  function Fresh(known: seq<Ip>, list: seq<Ip>): (f: seq<Ip>)
    ensures |f| <= |list|
  {
    if list == [] then []
    else (if list[|list| - 1] in known then Fresh(known, list[..|list| - 1])
          else Fresh(known, list[..|list| - 1]) + [list[|list| - 1]])
  }

  /** The kernel's join: new addresses are compared with the old members only. */
  function Joined(known: seq<Ip>, list: seq<Ip>): (r: seq<Ip>)
    ensures |r| <= |known| + |list|
  {
    known + Fresh(known, list)
  }

  /** The configuration's join: each address is compared with the list built so far. */
  function JoinEach(s: seq<Ip>, list: seq<Ip>): (r: seq<Ip>) {
    if list == [] then s
    else var t := JoinEach(s, list[..|list| - 1]);
         var x := list[|list| - 1];
         if x in t then t else t + [x]
  }

  /** Joining to no members takes the list as it is. */
  lemma {:induction false} FreshIsAll(list: seq<Ip>)
    ensures Joined([], list) == list
  {
    if list != [] {
      FreshIsAll(list[..|list| - 1]);
    }
  }

  lemma JoinedStep(known: seq<Ip>, list: seq<Ip>, i: nat)
    requires i < |list|
    ensures Joined(known, list[..i + 1])
            == if list[i] in known then Joined(known, list[..i]) else Joined(known, list[..i]) + [list[i]]
  {
    assert list[..i + 1][..i] == list[..i];
  }

  lemma {:induction false} FreshSet(known: seq<Ip>, list: seq<Ip>)
    ensures SetOf(Fresh(known, list)) == SetOf(list) - SetOf(known)
  {
    if list != [] {
      var rest := list[..|list| - 1];
      FreshSet(known, rest);
      assert list == rest + [list[|list| - 1]];
      SetOfAppend(rest, [list[|list| - 1]]);
      SetOfAppend(Fresh(known, rest), [list[|list| - 1]]);
      assert SetOf([list[|list| - 1]]) == {list[|list| - 1]};
    }
  }

  /** Of any two elements of `part`, the earlier one also comes earlier in `list`. */
  ghost predicate InOrder(part: seq<Ip>, list: seq<Ip>) {
    forall i, j :: 0 <= i < j < |part| ==> Earlier(part[i], part[j], list)
  }

  ghost predicate Earlier(x: Ip, y: Ip, list: seq<Ip>) {
    exists a, b :: 0 <= a < b < |list| && list[a] == x && list[b] == y
  }

  lemma EarlierPush(x: Ip, y: Ip, rest: seq<Ip>, z: Ip)
    requires Earlier(x, y, rest) || (x in rest && y == z)
    ensures Earlier(x, y, rest + [z])
  {
    var list := rest + [z];
    if Earlier(x, y, rest) {
      var a, b :| 0 <= a < b < |rest| && rest[a] == x && rest[b] == y;
      assert list[a] == x && list[b] == y;
    } else {
      var a :| 0 <= a < |rest| && rest[a] == x;
      assert list[a] == x && list[|rest|] == y;
    }
  }

  /** The new ones come in the order of the list. */
  lemma {:induction false} FreshInOrder(known: seq<Ip>, list: seq<Ip>)
    ensures InOrder(Fresh(known, list), list)
  {
    hide Earlier;
    if list != [] {
      var rest, x := list[..|list| - 1], list[|list| - 1];
      FreshInOrder(known, rest);
      FreshSet(known, rest);
      assert rest + [x] == list;
      var f, had := Fresh(known, list), Fresh(known, rest);
      forall i, j | 0 <= i < j < |f|
        ensures Earlier(f[i], f[j], list)
      {
        assert had[i] in SetOf(had) && had[i] in rest;
        EarlierPush(f[i], f[j], rest, x);
      }
    }
  }

  /** A repeated address is harmless exactly when it already was a member. */
  ghost predicate RepeatsAreOld(known: seq<Ip>, list: seq<Ip>) {
    forall i, j | 0 <= i < j < |list| && list[i] == list[j] :: list[i] in known
  }

  lemma {:induction false} FreshDistinct(known: seq<Ip>, list: seq<Ip>)
    ensures Distinct(Fresh(known, list)) <==> RepeatsAreOld(known, list)
  {
    if list != [] {
      var rest, x := list[..|list| - 1], list[|list| - 1];
      FreshDistinct(known, rest);
      FreshSet(known, rest);
      var f := Fresh(known, rest);
      assert x in SetOf(f) <==> x in f;
      assert x in SetOf(rest) <==> x in rest;
      if x !in known {
        assert Fresh(known, list) == f + [x];
        assert Fresh(known, list)[|f|] == x;
        if x in rest {
          var i :| 0 <= i < |rest| && rest[i] == x;
          assert list[i] == list[|list| - 1];
          var j :| 0 <= j < |f| && f[j] == x;
          assert Fresh(known, list)[j] == x;
        } else {
          assert x !in f;
        }
      }
      assert RepeatsAreOld(known, list) ==> RepeatsAreOld(known, rest) by {
        forall i, j | RepeatsAreOld(known, list) && 0 <= i < j < |rest| && rest[i] == rest[j]
          ensures rest[i] in known
        {
          assert list[i] == list[j];
        }
      }
      if Distinct(Fresh(known, list)) {
        forall i, j | 0 <= i < j < |f|
          ensures f[i] != f[j]
        {
          assert Fresh(known, list)[i] == f[i] && Fresh(known, list)[j] == f[j];
        }
      }
    }
  }

  /** A join is the union; it keeps members distinct exactly when repeats were members before. */
  lemma JoinedIsUnion(known: seq<Ip>, list: seq<Ip>)
    requires Distinct(known)
    ensures SetOf(Joined(known, list)) == SetOf(known) + SetOf(list)
    ensures Distinct(Joined(known, list)) <==> RepeatsAreOld(known, list)
    ensures Distinct(list) ==> Distinct(Joined(known, list))
  {
    FreshSet(known, list);
    FreshDistinct(known, list);
    var f := Fresh(known, list);
    SetOfAppend(known, f);
    forall i, j | 0 <= i < |known| && 0 <= j < |f|
      ensures known[i] != f[j]
    {
      assert f[j] in SetOf(f) && known[i] in SetOf(known);
    }
    if Distinct(known + f) {
      forall i, j | 0 <= i < j < |f|
        ensures f[i] != f[j]
      {
        assert (known + f)[|known| + i] == f[i] && (known + f)[|known| + j] == f[j];
      }
    }
  }

  /** On distinct input the two joins build the same list. */
  lemma {:induction false} JoinsAgree(s: seq<Ip>, list: seq<Ip>)
    requires Distinct(list)
    ensures JoinEach(s, list) == Joined(s, list)
  {
    if list != [] {
      var rest, x := list[..|list| - 1], list[|list| - 1];
      JoinsAgree(s, rest);
      FreshSet(s, rest);
      assert x !in rest;
      assert x in Fresh(s, rest) <==> x in SetOf(Fresh(s, rest));
      assert x in rest <==> x in SetOf(rest);
    }
  }

  // ---- quitting ----

  /** Overwrite the first `x` by the last element and drop the last place. */
  function SwapRemove(s: seq<Ip>, x: Ip): (r: seq<Ip>)
    ensures |r| <= |s|
  {
    var j := IndexOf(s, x);
    if j == |s| then s else s[j := s[|s| - 1]][..|s| - 1]
  }

  /** Close the hole left by the first `x` by shifting the rest down. */
  function ShiftRemove(s: seq<Ip>, x: Ip): (r: seq<Ip>) {
    var j := IndexOf(s, x);
    if j == |s| then s else s[..j] + s[j + 1..]
  }

  function QuitSwap(s: seq<Ip>, list: seq<Ip>): (r: seq<Ip>)
    ensures |r| <= |s|
  {
    if list == [] then s else SwapRemove(QuitSwap(s, list[..|list| - 1]), list[|list| - 1])
  }

  function QuitShift(s: seq<Ip>, list: seq<Ip>): seq<Ip> {
    if list == [] then s else ShiftRemove(QuitShift(s, list[..|list| - 1]), list[|list| - 1])
  }

  /** Taking one member out: the last one moves to its place, every other stays at its own. */
  lemma QuitSwapOne(s: seq<Ip>, i: nat, x: Ip)
    requires Distinct(s)
    ensures i < |s| && x == s[i] ==>
              var r := QuitSwap(s, [x]);
              && |r| == |s| - 1
              && (forall k | 0 <= k < |r| && k != i :: r[k] == s[k])
              && (i < |r| ==> r[i] == s[|s| - 1])
    ensures x !in s ==> QuitSwap(s, [x]) == s
  {
    assert [x][..0] == [];
    assert QuitSwap(s, [x]) == SwapRemove(s, x);
  }

  lemma SwapRemoveSet(s: seq<Ip>, x: Ip)
    requires Distinct(s)
    ensures Distinct(SwapRemove(s, x))
    ensures SetOf(SwapRemove(s, x)) == SetOf(s) - {x}
  {
    var j, r := IndexOf(s, x), SwapRemove(s, x);
    if j < |s| {
      forall y | y in s && y != x
        ensures y in r
      {
        var i :| 0 <= i < |s| && s[i] == y;
        assert r[if i == |s| - 1 then j else i] == y;
      }
      assert forall i | 0 <= i < |r| :: r[i] == s[if i == j then |s| - 1 else i];
    }
  }

  /** Quitting by swapping leaves exactly the difference, in some order. */
  lemma {:induction false} QuitSwapIsDifference(s: seq<Ip>, list: seq<Ip>)
    requires Distinct(s)
    ensures Distinct(QuitSwap(s, list))
    ensures SetOf(QuitSwap(s, list)) == SetOf(s) - SetOf(list)
  {
    if list != [] {
      var rest, x := list[..|list| - 1], list[|list| - 1];
      QuitSwapIsDifference(s, rest);
      SwapRemoveSet(QuitSwap(s, rest), x);
      assert list == rest + [x];
      SetOfAppend(rest, [x]);
    }
  }

  lemma ShiftRemovePush(s: seq<Ip>, y: Ip, x: Ip)
    ensures y != x ==> ShiftRemove(s + [y], x) == ShiftRemove(s, x) + [y]
    ensures y == x && x !in s ==> ShiftRemove(s + [y], x) == s
  {
    var t := s + [y];
    var i, j := IndexOf(s, x), IndexOf(t, x);
    assert t[|s|] == y;
    assert forall k | 0 <= k < |s| :: t[k] == s[k];
    if i < |s| {
      assert t[i] == x && i == j;
      assert t[..j] + t[j + 1..] == s[..i] + s[i + 1..] + [y];
    } else if y == x {
      assert j == |s|;
    }
  }

  /** Taking one more address out of what is left. */
  lemma {:induction false} ShiftRemoveFresh(s: seq<Ip>, list: seq<Ip>, x: Ip)
    requires Distinct(s)
    ensures ShiftRemove(Fresh(list, s), x) == Fresh(list + [x], s)
  {
    if s != [] {
      var rest, y := s[..|s| - 1], s[|s| - 1];
      ShiftRemoveFresh(rest, list, x);
      FreshSet(list, rest);
      assert x in Fresh(list, rest) ==> x in SetOf(Fresh(list, rest));
      assert y !in rest;
      ShiftRemovePush(Fresh(list, rest), y, x);
    }
  }

  lemma FreshOfNone(s: seq<Ip>)
    ensures Fresh([], s) == s
  {
    hide Fresh;
    FreshIsAll(s);
    assert Joined([], s) == Fresh([], s);
  }

  /** Quitting by shifting keeps the remaining members in their old order. */
  lemma {:induction false} QuitShiftKeepsOrder(s: seq<Ip>, list: seq<Ip>)
    requires Distinct(s)
    ensures QuitShift(s, list) == Fresh(list, s)
  {
    hide Fresh, ShiftRemove, Distinct;
    if list == [] {
      FreshOfNone(s);
    } else {
      var rest, x := list[..|list| - 1], list[|list| - 1];
      QuitShiftKeepsOrder(s, rest);
      ShiftRemoveFresh(s, rest, x);
      assert rest + [x] == list;
    }
  }

  /** So it leaves exactly the difference. */
  lemma QuitShiftIsDifference(s: seq<Ip>, list: seq<Ip>)
    requires Distinct(s)
    ensures Distinct(QuitShift(s, list))
    ensures SetOf(QuitShift(s, list)) == SetOf(s) - SetOf(list)
  {
    hide QuitShift;
    QuitShiftKeepsOrder(s, list);
    FreshSet(list, s);
    FreshDistinct(list, s);
  }
}
