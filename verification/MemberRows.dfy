/**
 The two-dimensional member array, one row of addresses an index: adding, quitting,
 clearing and copying out, each in place. `rows` is what the array means.
 */
module MemberRows {
  import opened Base
  import opened Members

  datatype Ret = Ok | NodeNotExist | IdxExhaust | ParamError

  /** Place `j` of a row that holds `s` and zeros behind it. */
  function Cell(s: seq<Ip>, j: nat): Ip {
    if j < |s| then s[j] else 0
  }

  /** Row `i` holds exactly `rows[i]`, and zeros behind it. */
  ghost predicate RowsAre(vm: array2<Ip>, rows: seq<seq<Ip>>)
    reads vm
  {
    && |rows| == vm.Length0
    && (forall i | 0 <= i < |rows| :: |rows[i]| <= vm.Length1)
    && (forall i, j | 0 <= i < vm.Length0 && 0 <= j < vm.Length1 :: vm[i, j] == Cell(rows[i], j))
  }

  /** So each place of the array is known. */
  lemma RowHolds(vm: array2<Ip>, rows: seq<seq<Ip>>, i: nat, j: nat)
    requires RowsAre(vm, rows) && i < vm.Length0 && j < vm.Length1
    ensures |rows[i]| <= vm.Length1 && vm[i, j] == if j < |rows[i]| then rows[i][j] else 0
  {}

  /** Position of an address among the first `cnt` members, or `cnt`. */
  method FindMember(vm: array2<Ip>, idx: nat, cnt: nat, x: Ip, ghost rows: seq<seq<Ip>>) returns (j: nat)
    requires RowsAre(vm, rows) && idx < |rows| && cnt <= |rows[idx]|
    ensures j == IndexOf(rows[idx][..cnt], x)
  {
    j := 0;
    while j < cnt && vm[idx, j] != x
      invariant 0 <= j <= cnt
      invariant x !in rows[idx][..j]
    {
      j := j + 1;
    }
    IndexOfPrefix(rows[idx][..cnt], j, x);
  }

  lemma IndexOfPrefix(s: seq<Ip>, j: nat, x: Ip)
    requires j <= |s| && x !in s[..j] && (j < |s| ==> s[j] == x)
    ensures IndexOf(s, x) == j
  {
    assert forall k | 0 <= k < j :: s[..j][k] == s[k];
  }

  /** Append one address to a row. */
  method Push(vm: array2<Ip>, idx: nat, k: nat, x: Ip, ghost rows: seq<seq<Ip>>)
    requires RowsAre(vm, rows) && idx < |rows| && k == |rows[idx]| < vm.Length1
    modifies vm
    ensures RowsAre(vm, rows[idx := rows[idx] + [x]])
  {
    vm[idx, k] := x;
  }

  /** Append the addresses of `list` that are not among the first `cnt` members. */
  method AddVmIpList(vm: array2<Ip>, idx: nat, list: seq<Ip>, cnt: nat, ghost rows: seq<seq<Ip>>)
    returns (ret: Ret, n: nat)
    requires RowsAre(vm, rows) && idx < |rows| && cnt == |rows[idx]|
    modifies vm
    ensures ret == if |list| + |rows[idx]| > vm.Length1 then ParamError else Ok
    ensures ret == ParamError ==> n == cnt && RowsAre(vm, rows)
    ensures ret == Ok ==> n == |Joined(rows[idx], list)| && RowsAre(vm, rows[idx := Joined(rows[idx], list)])
  {
    hide Fresh;
    var k := cnt;
    if |list| + cnt > vm.Length1 {
      return ParamError, cnt;
    }
    ghost var was, now := rows[idx], rows;
    assert Joined(was, list[..0]) == was;
    var i := 0;
    while i < |list|
      invariant 0 <= i <= |list|
      invariant |now| == |rows| && RowsAre(vm, now)
      invariant now[idx] == Joined(was, list[..i]) && k == |now[idx]|
      invariant forall o | 0 <= o < |rows| && o != idx :: now[o] == rows[o]
    {
      JoinedStep(was, list, i);
      assert was == now[idx][..cnt];
      var j := FindMember(vm, idx, cnt, list[i], now);
      if j == cnt {
        Push(vm, idx, k, list[i], now);
        now := now[idx := now[idx] + [list[i]]];
        k := k + 1;
      }
      i := i + 1;
    }
    assert list[..i] == list;
    assert now == rows[idx := Joined(was, list)];
    return Ok, k;
  }

  /** Fill the place of one address with the last member, if it is a member. */
  method RemoveMember(vm: array2<Ip>, idx: nat, x: Ip, cnt: nat, ghost rows: seq<seq<Ip>>) returns (n: nat)
    requires RowsAre(vm, rows) && idx < |rows| && cnt == |rows[idx]|
    modifies vm
    ensures n == |SwapRemove(rows[idx], x)| && RowsAre(vm, rows[idx := SwapRemove(rows[idx], x)])
  {
    n := cnt;
    ghost var row := rows[idx];
    assert row[..n] == row;
    var j := FindMember(vm, idx, n, x, rows);
    if j < n {
      vm[idx, j] := vm[idx, n - 1];
      vm[idx, n - 1] := 0;
      n := n - 1;
    }
  }

  /** Remove each address of `list` in turn, the count shrinking on the way. */
  method DelQuitVmIp(vm: array2<Ip>, idx: nat, list: seq<Ip>, cnt: nat, ghost rows: seq<seq<Ip>>)
    returns (n: nat)
    requires RowsAre(vm, rows) && idx < |rows| && cnt == |rows[idx]|
    modifies vm
    ensures n == |QuitSwap(rows[idx], list)| && RowsAre(vm, rows[idx := QuitSwap(rows[idx], list)])
  {
    n := cnt;
    ghost var was := rows[idx];
    var i := 0;
    while i < |list|
      invariant 0 <= i <= |list|
      invariant n == |QuitSwap(was, list[..i])|
      invariant RowsAre(vm, rows[idx := QuitSwap(was, list[..i])])
    {
      assert list[..i + 1][..i] == list[..i];
      ghost var now := rows[idx := QuitSwap(was, list[..i])];
      n := RemoveMember(vm, idx, list[i], n, now);
      assert now[idx := QuitSwap(was, list[..i + 1])] == rows[idx := QuitSwap(was, list[..i + 1])];
      i := i + 1;
    }
    assert list[..i] == list;
  }

  method ClearVmIpList(vm: array2<Ip>, idx: nat, ghost rows: seq<seq<Ip>>)
    requires RowsAre(vm, rows) && idx < |rows|
    modifies vm
    ensures RowsAre(vm, rows[idx := []])
  {
    var i := 0;
    while i < vm.Length1
      invariant 0 <= i <= vm.Length1
      invariant forall k, j | 0 <= k < vm.Length0 && 0 <= j < vm.Length1 ::
        vm[k, j] == if k == idx && j < i then 0 else Cell(rows[k], j)
    {
      vm[idx, i] := 0;
      i := i + 1;
    }
  }

  lemma RowsAreEmpty(vm: array2<Ip>)
    requires forall i, j | 0 <= i < vm.Length0 && 0 <= j < vm.Length1 :: vm[i, j] == 0
    ensures RowsAre(vm, seq(vm.Length0, i => []))
  {}

  /** Zero the whole array. */
  method ZeroRows(vm: array2<Ip>)
    modifies vm
    ensures RowsAre(vm, seq(vm.Length0, i => []))
  {
    forall i, j | 0 <= i < vm.Length0 && 0 <= j < vm.Length1 {
      vm[i, j] := 0;
    }
  }

  /** Copy the first `n` members out of a row. */
  method GetVmIpList(vm: array2<Ip>, idx: nat, n: nat, ghost rows: seq<seq<Ip>>) returns (list: seq<Ip>)
    requires RowsAre(vm, rows) && idx < |rows| && n == |rows[idx]|
    ensures list == rows[idx]
  {
    list := [];
    var i := 0;
    while i < n
      invariant 0 <= i <= n
      invariant list == rows[idx][..i]
    {
      list := list + [vm[idx, i]];
      i := i + 1;
    }
  }
}
