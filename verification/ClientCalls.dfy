/**
 Whole calls in the client's race: one thread's uninterrupted steps are the command on the
 map, and a run of every number of threads that reaches the bound on the overshoot.
 */
module ClientCalls {
  import opened Base
  import opened Buckets
  import opened ClientTable
  import opened ClientConfig
  import opened ClientAdmin
  import opened ClientRace

  // ---- one thread alone ----

  /** One more action after a run. */
  lemma AfterPush(st: State, actions: seq<Action>, a: Action, sh: Shape, buckets: nat)
    ensures After(st, actions + [a], sh, buckets) == Apply(After(st, actions, sh, buckets), a, sh, buckets)
  {
    assert (actions + [a])[..|actions|] == actions;
  }

  /** A run after a run. */
  lemma {:induction false} AfterAppend(st: State, one: seq<Action>, two: seq<Action>, sh: Shape, buckets: nat)
    ensures After(st, one + two, sh, buckets) == After(After(st, one, sh, buckets), two, sh, buckets)
  {
    hide Apply;
    if two == [] {
      assert one + two == one;
    } else {
      var rest, a := two[..|two| - 1], two[|two| - 1];
      AfterAppend(st, one, rest, sh, buckets);
      AfterPush(st, one + rest, a, sh, buckets);
      assert one + two == (one + rest) + [a];
    }
  }

  /** The thread's writes between lock and unlock: two for an add or a delete, one a bucket and two for a clear. */
  function Writes(t: nat, op: Command, buckets: nat): seq<Action> {
    if op.Clear? then seq(buckets + 2, _ => Write(t)) else [Write(t), Write(t)]
  }

  /** All steps of one call. */
  function CallSteps(t: nat, op: Command, buckets: nat): seq<Action> {
    [Call(t, op), Lock(t)] + Writes(t, op, buckets) + [Unlock(t)]
  }

  /** Nobody holds the lock, thread `t` is idle and the count is right. */
  ghost predicate Ready(st: State, t: nat) {
    t < |st.at| && st.at[t] == Idle && st.lock == None && st.count == |st.nodes|
  }

  /** What a call without interference leaves: the nodes it should, counted. */
  ghost function Done(st: State, nodes: ClientDirectory): State {
    st.(nodes := nodes, count := |nodes|)
  }

  /** Where a thread is once it is inside. */
  ghost function Entered(st: State, t: nat, p: Place): State
    requires t < |st.at|
  {
    st.(lock := Some(t), at := st.at[t := p])
  }

  lemma EnterSteps(st: State, t: nat, op: Command, sh: Shape, buckets: nat)
    requires Ready(st, t) && !(op.Add? && st.count >= sh.max)
    ensures After(st, [Call(t, op), Lock(t)], sh, buckets) == Entered(st, t, Inside(op))
  {
    hide After;
    AfterNothing(st, sh, buckets);
    AfterPush(st, [], Call(t, op), sh, buckets);
    AfterPush(st, [Call(t, op)], Lock(t), sh, buckets);
    assert [] + [Call(t, op)] == [Call(t, op)] && [Call(t, op)] + [Lock(t)] == [Call(t, op), Lock(t)];
    assert st.at[t := Wants(op)][t := Inside(op)] == st.at[t := Inside(op)];
  }

  lemma TwoWrites(st: State, t: nat, sh: Shape, buckets: nat)
    ensures After(st, [Write(t), Write(t)], sh, buckets)
         == Apply(Apply(st, Write(t), sh, buckets), Write(t), sh, buckets)
  {
    hide After, Apply;
    AfterNothing(st, sh, buckets);
    AfterPush(st, [], Write(t), sh, buckets);
    AfterPush(st, [Write(t)], Write(t), sh, buckets);
    assert [] + [Write(t)] == [Write(t)] && [Write(t)] + [Write(t)] == [Write(t), Write(t)];
  }

  /** A delete of a known source under the lock. */
  lemma RemoveKnown(st: State, t: nat, s: Source, sh: Shape, buckets: nat)
    requires Ready(st, t) && s in st.nodes
    ensures var mid := Entered(st, t, Inside(Remove(s)));
            Apply(Apply(mid, Write(t), sh, buckets), Write(t), sh, buckets)
            == Entered(Done(st, st.nodes - {s}), t, Leaving)
  {
    var mid := Entered(st, t, Inside(Remove(s)));
    EraseCount(st.nodes, s);
    assert mid.at[t := Erased] == st.at[t := Erased];
    assert st.at[t := Erased][t := Leaving] == st.at[t := Leaving];
  }

  /** A delete of an unknown source under the lock. */
  lemma RemoveUnknown(st: State, t: nat, s: Source, sh: Shape, buckets: nat)
    requires Ready(st, t) && s !in st.nodes
    ensures var mid := Entered(st, t, Inside(Remove(s)));
            Apply(Apply(mid, Write(t), sh, buckets), Write(t), sh, buckets)
            == Entered(Done(st, st.nodes), t, Leaving)
  {
    var mid := Entered(st, t, Inside(Remove(s)));
    assert mid.at[t := Leaving] == st.at[t := Leaving];
  }

  lemma RemoveSteps(st: State, t: nat, s: Source, sh: Shape, buckets: nat)
    requires Ready(st, t)
    ensures var mid := Entered(st, t, Inside(Remove(s)));
            Apply(Apply(mid, Write(t), sh, buckets), Write(t), sh, buckets)
            == Entered(Done(st, Step(st.nodes, Remove(s), sh)), t, Leaving)
  {
    hide Apply, Entered, Done;
    if s in st.nodes {
      RemoveKnown(st, t, s, sh, buckets);
    } else {
      RemoveUnknown(st, t, s, sh, buckets);
    }
  }

  /** An add under the lock. */
  lemma AddSteps(st: State, t: nat, s: Source, group: Ip, sh: Shape, buckets: nat)
    requires Ready(st, t) && st.count < sh.max && !Spins(st.nodes, Add(s, group), sh)
    ensures var mid := Entered(st, t, Inside(Add(s, group)));
            Apply(Apply(mid, Write(t), sh, buckets), Write(t), sh, buckets)
            == Entered(Done(st, Step(st.nodes, Add(s, group), sh)), t, Leaving)
  {
    hide Crowded, Stuck;
    UpdateCount(st.nodes, s, group);
    assert s in st.nodes && st.nodes[s] == group ==> st.nodes[s := group] == st.nodes;
    assert st.at[t := Inside(Add(s, group))][t := Inserted][t := Leaving] == st.at[t := Leaving];
    assert st.at[t := Inside(Add(s, group))][t := Leaving] == st.at[t := Leaving];
  }

  /** An add or a delete under the lock. */
  lemma WriteStep(st: State, t: nat, op: Command, sh: Shape, buckets: nat)
    requires Ready(st, t) && !op.Clear? && !Spins(st.nodes, op, sh) && !(op.Add? && st.count >= sh.max)
    ensures After(Entered(st, t, Inside(op)), Writes(t, op, buckets), sh, buckets)
         == Entered(Done(st, Step(st.nodes, op, sh)), t, Leaving)
  {
    hide After, Apply, Spins, Step;
    TwoWrites(Entered(st, t, Inside(op)), t, sh, buckets);
    match op
    case Add(s, group) => AddSteps(st, t, s, group, sh, buckets);
    case Remove(s) => RemoveSteps(st, t, s, sh, buckets);
  }

  lemma UpdateCount(m: ClientDirectory, s: Source, group: Ip)
    ensures |m[s := group]| == if s in m then |m| else |m| + 1
  {
    var n := m[s := group];
    assert |n| == |n.Keys| && |m| == |m.Keys| && n.Keys == m.Keys + {s};
  }

  /** The nodes of the buckets from `b` on. */
  ghost function FromBucket(m: ClientDirectory, sh: Shape, b: nat): ClientDirectory {
    map s | s in m && sh.hash(s) >= b :: m[s]
  }

  /** Zeroing one more bucket. */
  lemma WipeOne(st: State, t: nat, sh: Shape, buckets: nat, b: nat)
    requires Ready(st, t) && b < buckets
    ensures Apply(Entered(st.(nodes := FromBucket(st.nodes, sh, b)), t, Wiping(b)), Write(t), sh, buckets)
         == Entered(st.(nodes := FromBucket(st.nodes, sh, b + 1)), t, Wiping(b + 1))
  {
    var m := FromBucket(st.nodes, sh, b);
    assert (map s | s in m && sh.hash(s) != b :: m[s]) == FromBucket(st.nodes, sh, b + 1);
    assert st.at[t := Wiping(b)][t := Wiping(b + 1)] == st.at[t := Wiping(b + 1)];
  }

  lemma ClearStarts(st: State, t: nat, sh: Shape, buckets: nat)
    requires Ready(st, t)
    ensures Apply(Entered(st, t, Inside(Clear)), Write(t), sh, buckets)
         == Entered(st.(nodes := FromBucket(st.nodes, sh, 0)), t, Wiping(0))
  {
    assert FromBucket(st.nodes, sh, 0) == st.nodes;
    assert st.at[t := Inside(Clear)][t := Wiping(0)] == st.at[t := Wiping(0)];
  }

  /** Clearing: after the first write and `b` buckets more. */
  lemma {:induction false} WipeRun(st: State, t: nat, sh: Shape, buckets: nat, b: nat)
    requires Ready(st, t) && b <= buckets
    ensures After(Entered(st, t, Inside(Clear)), seq(b + 1, _ => Write(t)), sh, buckets)
         == Entered(st.(nodes := FromBucket(st.nodes, sh, b)), t, Wiping(b))
  {
    hide Apply, FromBucket;
    var mid := Entered(st, t, Inside(Clear));
    assert seq(b + 1, _ => Write(t)) == seq(b, _ => Write(t)) + [Write(t)];
    AfterPush(mid, seq(b, _ => Write(t)), Write(t), sh, buckets);
    if b == 0 {
      assert seq(0, _ => Write(t)) == [];
      ClearStarts(st, t, sh, buckets);
    } else {
      WipeRun(st, t, sh, buckets, b - 1);
      WipeOne(st, t, sh, buckets, b - 1);
    }
  }

  lemma ClearEnds(st: State, t: nat, sh: Shape, buckets: nat)
    requires forall s: Source :: sh.hash(s) < buckets
    requires Ready(st, t)
    ensures Apply(Entered(st.(nodes := FromBucket(st.nodes, sh, buckets)), t, Wiping(buckets)), Write(t), sh, buckets)
         == Entered(Done(st, map[]), t, Leaving)
  {
    WipedEmpty(st.(nodes := FromBucket(st.nodes, sh, buckets)), sh, buckets);
    assert st.at[t := Wiping(buckets)][t := Leaving] == st.at[t := Leaving];
  }

  lemma ClearStep(st: State, t: nat, sh: Shape, buckets: nat)
    requires forall s: Source :: sh.hash(s) < buckets
    requires Ready(st, t)
    ensures After(Entered(st, t, Inside(Clear)), Writes(t, Clear, buckets), sh, buckets)
         == Entered(Done(st, map[]), t, Leaving)
  {
    hide After, Apply, FromBucket;
    WipeRun(st, t, sh, buckets, buckets);
    assert seq(buckets + 2, _ => Write(t)) == seq(buckets + 1, _ => Write(t)) + [Write(t)];
    AfterPush(Entered(st, t, Inside(Clear)), seq(buckets + 1, _ => Write(t)), Write(t), sh, buckets);
    ClearEnds(st, t, sh, buckets);
  }

  /** A call that fails the test never leaves its place. */
  lemma {:induction false} RefusedStays(st: State, t: nat, actions: seq<Action>, sh: Shape, buckets: nat)
    requires t < |st.at| && st.at[t] == Idle && st.count >= sh.max
    requires forall a | a in actions :: a.t == t && (a.Call? ==> a.op.Add?)
    ensures After(st, actions, sh, buckets) == st
  {
    if actions != [] {
      RefusedStays(st, t, actions[..|actions| - 1], sh, buckets);
    }
  }

  /** A call of one thread, uninterrupted, does what the command does: the map's step, and the matching count. */
  lemma CallIsStep(st: State, t: nat, op: Command, sh: Shape, buckets: nat)
    requires forall s: Source :: sh.hash(s) < buckets
    requires Ready(st, t) && !Spins(st.nodes, op, sh)
    ensures After(st, CallSteps(t, op, buckets), sh, buckets) == Done(st, Step(st.nodes, op, sh))
  {
    hide After, Apply, Spins, Crowded;
    if op.Add? && st.count >= sh.max {
      RefusedStays(st, t, CallSteps(t, op, buckets), sh, buckets);
    } else {
      var enter, writes := [Call(t, op), Lock(t)], Writes(t, op, buckets);
      EnterSteps(st, t, op, sh, buckets);
      if op.Clear? {
        ClearStep(st, t, sh, buckets);
      } else {
        WriteStep(st, t, op, sh, buckets);
      }
      AfterAppend(st, enter, writes, sh, buckets);
      AfterPush(st, enter + writes, Unlock(t), sh, buckets);
      LeaveStep(Done(st, Step(st.nodes, op, sh)), t, sh, buckets);
    }
  }

  lemma LeaveStep(st: State, t: nat, sh: Shape, buckets: nat)
    requires Ready(st, t)
    ensures Apply(Entered(st, t, Leaving), Unlock(t), sh, buckets) == st
  {
    assert st.at[t := Leaving][t := Idle] == st.at;
  }

  // ---- in the middle of a call ----

  /** Under the lock the account is not right yet: a new node is seen before it is counted. */
  lemma SeenUncounted(st: State, t: nat, s: Source, group: Ip, sh: Shape, buckets: nat)
    requires Ready(st, t) && s !in st.nodes && st.count < sh.max
    requires !Crowded(st.nodes.Keys, s, sh.depth, sh.hash) && !Stuck(st.nodes, sh, s)
    ensures var mid := After(st, [Call(t, Add(s, group)), Lock(t)] + [Write(t)], sh, buckets);
            mid.lock == Some(t) && mid.nodes == st.nodes[s := group] && mid.count == |mid.nodes| - 1
  {
    hide After, Crowded, Stuck;
    UpdateCount(st.nodes, s, group);
    AfterPush(st, [Call(t, Add(s, group)), Lock(t)], Write(t), sh, buckets);
    EnterSteps(st, t, Add(s, group), sh, buckets);
  }

  /** And a deleted one is gone while it still counts. */
  lemma GoneCounted(st: State, t: nat, s: Source, sh: Shape, buckets: nat)
    requires Ready(st, t) && s in st.nodes
    ensures var mid := After(st, [Call(t, Remove(s)), Lock(t)] + [Write(t)], sh, buckets);
            mid.lock == Some(t) && mid.nodes == st.nodes - {s} && mid.count == |mid.nodes| + 1
  {
    hide After;
    EraseCount(st.nodes, s);
    AfterPush(st, [Call(t, Remove(s)), Lock(t)], Write(t), sh, buckets);
    EnterSteps(st, t, Remove(s), sh, buckets);
  }

  // ---- the bound is reached ----

  /** A table of the first `n` sources. */
  ghost function Filled(sources: seq<Source>, n: nat, group: Ip): ClientDirectory
    requires n <= |sources|
  {
    map s | s in sources[..n] :: group
  }

  lemma FilledPush(sources: seq<Source>, n: nat, group: Ip)
    requires Distinct(sources) && n < |sources|
    ensures Filled(sources, n + 1, group) == Filled(sources, n, group)[sources[n] := group]
    ensures sources[n] !in Filled(sources, n, group)
  {
    assert sources[..n + 1] == sources[..n] + [sources[n]];
  }

  lemma {:induction false} FilledCount(sources: seq<Source>, n: nat, group: Ip)
    requires Distinct(sources) && n <= |sources|
    ensures |Filled(sources, n, group)| == n
  {
    hide Filled, Distinct;
    if n > 0 {
      FilledCount(sources, n - 1, group);
      FilledPush(sources, n - 1, group);
      UpdateCount(Filled(sources, n - 1, group), sources[n - 1], group);
    } else {
      FilledNothing(sources, group);
    }
  }

  /** Different sources that find a place one after another, whatever the limit on their number. */
  ghost predicate Placeable(sources: seq<Source>, group: Ip, sh: Shape) {
    && Distinct(sources)
    && forall n | 0 <= n < |sources| ::
         var m, s := Filled(sources, n, group), sources[n];
         !Crowded(m.Keys, s, sh.depth, sh.hash) && !Stuck(m, sh, s)
  }

  lemma PlaceableAt(sources: seq<Source>, n: nat, group: Ip, sh: Shape)
    requires Placeable(sources, group, sh) && n < |sources|
    ensures var m, s := Filled(sources, n, group), sources[n];
            && |m| == n && s !in m && !Crowded(m.Keys, s, sh.depth, sh.hash) && !Stuck(m, sh, s)
            && m[s := group] == Filled(sources, n + 1, group)
  {
    hide Crowded, Stuck, Filled;
    FilledCount(sources, n, group);
    FilledPush(sources, n, group);
  }

  /** In a table with deep buckets, within reach of the row counter, any different sources do. */
  lemma DeepIsPlaceable(sources: seq<Source>, group: Ip, sh: Shape)
    requires Distinct(sources) && |sources| <= sh.depth && (sh.depth < 0x100 || |sources| <= 0x100)
    ensures Placeable(sources, group, sh)
  {
    hide Crowded, Stuck, Filled, Distinct;
    forall n | 0 <= n < |sources|
      ensures var m, s := Filled(sources, n, group), sources[n];
              !Crowded(m.Keys, s, sh.depth, sh.hash) && !Stuck(m, sh, s)
    {
      FilledCount(sources, n, group);
      CrowdCount(Filled(sources, n, group), sh, sources[n]);
    }
  }

  lemma CrowdCount(m: ClientDirectory, sh: Shape, s: Source)
    requires |m| < sh.depth && (sh.depth < 0x100 || |m| < 0x100)
    ensures !Crowded(m.Keys, s, sh.depth, sh.hash) && !Stuck(m, sh, s)
  {
    SubsetCount(Bucketmates(m.Keys, s, sh.hash), m.Keys);
    assert |m| == |m.Keys|;
  }

  /** No thread is in a call. */
  function Idlers(threads: nat): seq<Place> { seq(threads, _ => Idle) }

  /** Threads `lo` to `hi` have passed the test, each for a source of its own. */
  function Waiting(threads: nat, lo: nat, hi: nat, sources: seq<Source>, base: nat, group: Ip): (at: seq<Place>)
    requires base + threads <= |sources|
    ensures |at| == threads
  {
    seq(threads, i requires 0 <= i < threads => if lo <= i < hi then Wants(Add(sources[base + i], group)) else Idle)
  }

  /** Thread 0 adds the first `n` sources. */
  function FillSteps(sources: seq<Source>, n: nat, group: Ip, buckets: nat): seq<Action>
    requires n <= |sources|
  {
    if n == 0 then []
    else FillSteps(sources, n - 1, group, buckets) + CallSteps(0, Add(sources[n - 1], group), buckets)
  }

  lemma FillOne(sources: seq<Source>, n: nat, group: Ip, threads: nat, sh: Shape, buckets: nat)
    requires forall s: Source :: sh.hash(s) < buckets
    requires Placeable(sources, group, sh) && n < |sources| && n < sh.max && threads > 0
    ensures After(State(Filled(sources, n, group), n, None, Idlers(threads)),
                  CallSteps(0, Add(sources[n], group), buckets), sh, buckets)
         == State(Filled(sources, n + 1, group), n + 1, None, Idlers(threads))
  {
    hide Apply, After, Placeable, CallSteps, Crowded, Stuck, Filled;
    PlaceableAt(sources, n, group, sh);
    CallIsStep(State(Filled(sources, n, group), n, None, Idlers(threads)), 0, Add(sources[n], group), sh, buckets);
    PlaceableDistinct(sources, group, sh);
    FilledCount(sources, n + 1, group);
  }

  lemma {:induction false} FillRun(sources: seq<Source>, n: nat, group: Ip, threads: nat, sh: Shape, buckets: nat)
    requires forall s: Source :: sh.hash(s) < buckets
    requires Placeable(sources, group, sh) && n <= |sources| && n <= sh.max && threads > 0
    ensures After(State(map[], 0, None, Idlers(threads)), FillSteps(sources, n, group, buckets), sh, buckets)
         == State(Filled(sources, n, group), n, None, Idlers(threads))
  {
    hide Apply, After, Placeable, CallSteps;
    var st := State(map[], 0, None, Idlers(threads));
    if n == 0 {
      AfterNothing(st, sh, buckets);
      assert Filled(sources, 0, group) == map[];
    } else {
      FillRun(sources, n - 1, group, threads, sh, buckets);
      FillOne(sources, n - 1, group, threads, sh, buckets);
      AfterAppend(st, FillSteps(sources, n - 1, group, buckets), CallSteps(0, Add(sources[n - 1], group), buckets),
                  sh, buckets);
    }
  }

  lemma AfterNothing(st: State, sh: Shape, buckets: nat)
    ensures After(st, [], sh, buckets) == st
  {}

  /** The first `k` threads pass the test. */
  function CallAll(k: nat, sources: seq<Source>, base: nat, group: Ip): seq<Action>
    requires base + k <= |sources|
  {
    if k == 0 then [] else CallAll(k - 1, sources, base, group) + [Call(k - 1, Add(sources[base + k - 1], group))]
  }

  lemma CallPasses(st: State, t: nat, op: Command, sh: Shape, buckets: nat)
    requires t < |st.at| && st.at[t] == Idle && st.count < sh.max
    ensures Apply(st, Call(t, op), sh, buckets) == st.(at := st.at[t := Wants(op)])
  {}

  lemma {:induction false} CallAllRun(nodes: ClientDirectory, threads: nat, k: nat, sources: seq<Source>, base: nat,
                                      group: Ip, sh: Shape, buckets: nat)
    requires k <= threads && base + threads <= |sources| && base < sh.max
    ensures After(State(nodes, base, None, Idlers(threads)), CallAll(k, sources, base, group), sh, buckets)
         == State(nodes, base, None, Waiting(threads, 0, k, sources, base, group))
  {
    hide Apply, After;
    var st := State(nodes, base, None, Idlers(threads));
    if k == 0 {
      AfterNothing(st, sh, buckets);
      assert Waiting(threads, 0, 0, sources, base, group) == Idlers(threads);
    } else {
      CallAllRun(nodes, threads, k - 1, sources, base, group, sh, buckets);
      var one, two := Waiting(threads, 0, k - 1, sources, base, group), Waiting(threads, 0, k, sources, base, group);
      var op := Add(sources[base + k - 1], group);
      AfterPush(st, CallAll(k - 1, sources, base, group), Call(k - 1, op), sh, buckets);
      CallPasses(State(nodes, base, None, one), k - 1, op, sh, buckets);
      assert one[k - 1 := Wants(op)] == two;
    }
  }

  /** The steps of a thread that has passed the test. */
  function TurnSteps(t: nat): seq<Action> { [Lock(t), Write(t), Write(t), Unlock(t)] }

  /** They put a new source in, whatever the count has become since the test. */
  lemma TurnRun(st: State, t: nat, s: Source, group: Ip, sh: Shape, buckets: nat)
    requires t < |st.at| && st.at[t] == Wants(Add(s, group)) && st.lock == None
    requires s !in st.nodes && !Crowded(st.nodes.Keys, s, sh.depth, sh.hash) && !Stuck(st.nodes, sh, s)
    ensures After(st, TurnSteps(t), sh, buckets)
         == State(st.nodes[s := group], st.count + 1, None, st.at[t := Idle])
  {
    hide After, Crowded, Stuck;
    AfterNothing(st, sh, buckets);
    AfterPush(st, [], Lock(t), sh, buckets);
    AfterPush(st, [Lock(t)], Write(t), sh, buckets);
    AfterPush(st, [Lock(t), Write(t)], Write(t), sh, buckets);
    AfterPush(st, [Lock(t), Write(t), Write(t)], Unlock(t), sh, buckets);
    assert [] + [Lock(t)] == [Lock(t)] && [Lock(t)] + [Write(t)] == [Lock(t), Write(t)];
    assert [Lock(t), Write(t)] + [Write(t)] == [Lock(t), Write(t), Write(t)];
    assert [Lock(t), Write(t), Write(t)] + [Unlock(t)] == TurnSteps(t);
    assert st.at[t := Inside(Add(s, group))][t := Inserted][t := Leaving][t := Idle] == st.at[t := Idle];
  }

  /** The first `k` threads take their turns. */
  function TurnAll(k: nat): seq<Action> {
    if k == 0 then [] else TurnAll(k - 1) + TurnSteps(k - 1)
  }

  lemma {:induction false} TurnAllRun(threads: nat, k: nat, sources: seq<Source>, base: nat, group: Ip,
                                      sh: Shape, buckets: nat)
    requires Placeable(sources, group, sh) && k <= threads && base + threads <= |sources|
    ensures After(State(Filled(sources, base, group), base, None, Waiting(threads, 0, threads, sources, base, group)),
                  TurnAll(k), sh, buckets)
         == State(Filled(sources, base + k, group), base + k, None, Waiting(threads, k, threads, sources, base, group))
  {
    hide Apply, After, Placeable, Crowded, Stuck, Filled, TurnSteps;
    var st := State(Filled(sources, base, group), base, None, Waiting(threads, 0, threads, sources, base, group));
    if k == 0 {
      AfterNothing(st, sh, buckets);
    } else {
      var at := Waiting(threads, k - 1, threads, sources, base, group);
      var mid := State(Filled(sources, base + k - 1, group), base + k - 1, None, at);
      TurnAllRun(threads, k - 1, sources, base, group, sh, buckets);
      PlaceableAt(sources, base + k - 1, group, sh);
      AfterAppend(st, TurnAll(k - 1), TurnSteps(k - 1), sh, buckets);
      TurnRun(mid, k - 1, sources[base + k - 1], group, sh, buckets);
      assert at[k - 1 := Idle] == Waiting(threads, k, threads, sources, base, group);
    }
  }

  /** Fill the table up to one below the limit, let every thread pass the test, then let each take its turn. */
  function OvershootRun(threads: nat, max: nat, sources: seq<Source>, group: Ip, buckets: nat): seq<Action>
    requires max > 0 && |sources| == max - 1 + threads
  {
    FillSteps(sources, max - 1, group, buckets) + CallAll(threads, sources, max - 1, group) + TurnAll(threads)
  }

  /** The bound is reached, for every limit and every number of threads, by sources that find a place. */
  lemma OvershootReached(threads: nat, sources: seq<Source>, group: Ip, sh: Shape, buckets: nat)
    requires forall s: Source :: sh.hash(s) < buckets
    requires sh.max > 0 && threads > 0 && |sources| == sh.max - 1 + threads && Placeable(sources, group, sh)
    ensures var st := State(map[], 0, None, Idlers(threads));
            var end := After(st, OvershootRun(threads, sh.max, sources, group, buckets), sh, buckets);
            && Initial(st) && |st.at| == threads
            && end.lock == None && end.count == |end.nodes| == sh.max + threads - 1
  {
    hide Apply, After, Placeable, FillSteps, CallAll, TurnAll, Waiting, Filled;
    var st, base := State(map[], 0, None, Idlers(threads)), sh.max - 1;
    var fill, calls := FillSteps(sources, base, group, buckets), CallAll(threads, sources, base, group);
    var turns := TurnAll(threads);
    FillRun(sources, base, group, threads, sh, buckets);
    CallAllRun(Filled(sources, base, group), threads, threads, sources, base, group, sh, buckets);
    TurnAllRun(threads, threads, sources, base, group, sh, buckets);
    AfterAppend(st, fill, calls, sh, buckets);
    AfterAppend(st, fill + calls, turns, sh, buckets);
    PlaceableDistinct(sources, group, sh);
    FilledCount(sources, base + threads, group);
  }

  lemma PlaceableDistinct(sources: seq<Source>, group: Ip, sh: Shape)
    requires Placeable(sources, group, sh)
    ensures Distinct(sources)
  {}

  // ---- a search that never ends is reached ----

  /** Adding the first `n` sources. */
  function Adds(sources: seq<Source>, n: nat, group: Ip): (cs: seq<Command>)
    requires n <= |sources|
    ensures |cs| == n
  {
    seq(n, i requires 0 <= i < n => Add(sources[i], group))
  }

  lemma {:induction false} AddsFill(sources: seq<Source>, n: nat, group: Ip, sh: Shape)
    requires Distinct(sources) && n <= |sources| && n <= sh.depth && n <= sh.max
    ensures RunSpec(map[], Adds(sources, n, group), sh) == Filled(sources, n, group)
  {
    hide Filled, Distinct, Crowded;
    var cs := Adds(sources, n, group);
    if n == 0 {
      FilledNothing(sources, group);
    } else {
      var m, s := Filled(sources, n - 1, group), sources[n - 1];
      AddsFill(sources, n - 1, group, sh);
      assert cs[..n - 1] == Adds(sources, n - 1, group);
      FilledPush(sources, n - 1, group);
      FilledCount(sources, n - 1, group);
      MatesAmong(m, sh, s);
    }
  }

  lemma FilledNothing(sources: seq<Source>, group: Ip)
    ensures Filled(sources, 0, group) == map[]
  {}

  lemma MatesAmong(m: ClientDirectory, sh: Shape, s: Source)
    requires |m| < sh.depth
    ensures !Crowded(m.Keys, s, sh.depth, sh.hash)
  {
    SubsetCount(Bucketmates(m.Keys, s, sh.hash), m.Keys);
    assert |m| == |m.Keys|;
  }

  /** The 257th source of one bucket is never placed, when the bucket has 256 rows or more and the table room. */
  lemma SpinsReached(sources: seq<Source>, group: Ip, sh: Shape)
    requires Distinct(sources) && |sources| == 257 && forall s | s in sources :: sh.hash(s) == sh.hash(sources[256])
    requires sh.depth >= 0x100 && sh.max > 0x100
    ensures Spins(RunSpec(map[], Adds(sources, 256, group), sh), Add(sources[256], group), sh)
  {
    hide RunSpec, Distinct;
    AddsFill(sources, 256, group, sh);
    FilledCount(sources, 256, group);
    FilledPush(sources, 256, group);
    var m := Filled(sources, 256, group);
    assert Bucketmates(m.Keys, sources[256], sh.hash) == m.Keys;
    assert |m| == |m.Keys|;
  }
}
