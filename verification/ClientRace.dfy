/**
 Threads adding, deleting and clearing in the client's kernel table at once. An add tests
 the node count before it takes the lock; everything else happens under the lock, one
 shared write at a time. Any interleaving of these steps is allowed.
 */
module ClientRace {
  import opened Base
  import opened Buckets
  import opened ClientTable
  import opened ClientConfig
  import opened ClientAdmin

  /** Where a thread stands. From `Inside` on it holds the lock. */
  datatype Place =
    | Idle
    | Wants(op: Command)     // an add that passed the test, a delete or a clear: about to lock
    | Inside(op: Command)
    | Wiping(bucket: nat)    // clearing, `bucket` buckets are zeroed
    | Inserted               // a slot was filled, the count not yet raised
    | Erased                 // a slot was freed, the count not yet lowered
    | Leaving                // about to unlock

  datatype State = State(nodes: ClientDirectory, count: int, lock: Option<nat>, at: seq<Place>)

  /** One step of thread `t`. */
  datatype Action =
    | Call(t: nat, op: Command)
    | Lock(t: nat)
    | Write(t: nat)
    | Unlock(t: nat)

  predicate Holds(p: Place) { !p.Idle? && !p.Wants? }

  /** The thread has passed the capacity test and has not yet been counted. */
  predicate Uncounted(p: Place) {
    p.Inserted? || ((p.Wants? || p.Inside?) && p.op.Add?)
  }

  /** The first write of an operation, under the lock. A search that never ends gets no further. */
  ghost function Start(st: State, t: nat, op: Command, sh: Shape): State
    requires t < |st.at|
  {
    match op
    case Add(s, group) =>
      if s in st.nodes then st.(nodes := st.nodes[s := group], at := st.at[t := Leaving])
      else if Stuck(st.nodes, sh, s) then st
      else if Crowded(st.nodes.Keys, s, sh.depth, sh.hash) then st.(at := st.at[t := Leaving])
      else st.(nodes := st.nodes[s := group], at := st.at[t := Inserted])
    case Remove(s) =>
      if s in st.nodes then st.(nodes := st.nodes - {s}, at := st.at[t := Erased])
      else st.(at := st.at[t := Leaving])
    case Clear => st.(at := st.at[t := Wiping(0)])
  }

  /** The state after an action; an action whose thread is elsewhere does nothing. */
  ghost function Apply(st: State, a: Action, sh: Shape, buckets: nat): State {
    if a.t >= |st.at| then st
    else match (a, st.at[a.t])
      case (Call(t, op), Idle) =>
        if op.Add? && st.count >= sh.max then st else st.(at := st.at[t := Wants(op)])
      case (Lock(t), Wants(op)) =>
        if st.lock.Some? then st else st.(lock := Some(t), at := st.at[t := Inside(op)])
      case (Write(t), Inside(op)) => Start(st, t, op, sh)
      case (Write(t), Wiping(b)) =>
        if b < buckets then
          st.(nodes := map s | s in st.nodes && sh.hash(s) != b :: st.nodes[s], at := st.at[t := Wiping(b + 1)])
        else st.(count := 0, at := st.at[t := Leaving])
      case (Write(t), Inserted) => st.(count := st.count + 1, at := st.at[t := Leaving])
      case (Write(t), Erased) => st.(count := st.count - 1, at := st.at[t := Leaving])
      case (Unlock(t), Leaving) => st.(lock := None, at := st.at[t := Idle])
      case _ => st
  }

  ghost function After(st: State, actions: seq<Action>, sh: Shape, buckets: nat): State {
    if actions == [] then st
    else Apply(After(st, actions[..|actions| - 1], sh, buckets), actions[|actions| - 1], sh, buckets)
  }

  // ---- the invariant ----

  /** Threads that passed the test and are not counted yet. */
  function Pending(at: seq<Place>): (n: nat)
    ensures n <= |at|
  {
    if at == [] then 0 else Pending(at[..|at| - 1]) + if Uncounted(at[|at| - 1]) then 1 else 0
  }

  lemma {:induction false} PendingChange(at: seq<Place>, t: nat, p: Place)
    requires t < |at|
    ensures Pending(at[t := p]) == Pending(at) - (if Uncounted(at[t]) then 1 else 0) + (if Uncounted(p) then 1 else 0)
    ensures !Uncounted(at[t]) ==> Pending(at) < |at|
    ensures Uncounted(at[t]) ==> Pending(at) > 0
  {
    var n := |at| - 1;
    if t < n {
      PendingChange(at[..n], t, p);
      assert at[t := p][..n] == at[..n][t := p];
    } else {
      assert at[t := p][..n] == at[..n];
    }
  }

  /** How count and nodes relate while the lock is held, by where its holder stands. */
  ghost predicate HolderAgrees(st: State, p: Place, sh: Shape) {
    match p
    case Inserted => st.count + 1 == |st.nodes|
    case Erased => st.count - 1 == |st.nodes|
    case Wiping(b) => |st.nodes| <= st.count && forall s | s in st.nodes :: sh.hash(s) >= b
    case _ => st.count == |st.nodes|
  }

  /** Only the holder is inside; the count is the number of nodes whenever the lock is free. */
  ghost predicate Exclusive(st: State, sh: Shape) {
    && (forall t | 0 <= t < |st.at| :: Holds(st.at[t]) <==> st.lock == Some(t))
    && (match st.lock
        case None => st.count == |st.nodes|
        case Some(t) => t < |st.at| && HolderAgrees(st, st.at[t], sh))
  }

  /** The overshoot: each thread past the test adds at most one above the limit. */
  ghost predicate Bounded(st: State, sh: Shape) {
    st.count + Pending(st.at) <= sh.max + |st.at| - 1
  }

  ghost predicate Safe(st: State, sh: Shape) {
    Exclusive(st, sh) && Bounded(st, sh) && st.count >= 0
  }

  /** Changing one thread's place, with the lock going along, keeps the lock exclusive. */
  lemma MoveKeepsLock(st: State, t: nat, p: Place, lock: Option<nat>, sh: Shape)
    requires Exclusive(st, sh) && t < |st.at|
    requires lock == if Holds(p) then Some(t) else if Holds(st.at[t]) then None else st.lock
    requires Holds(p) && !Holds(st.at[t]) ==> st.lock.None?
    ensures forall u | 0 <= u < |st.at| :: Holds(st.at[t := p][u]) <==> lock == Some(u)
  {}

  lemma EraseCount(m: ClientDirectory, s: Source)
    ensures |m - {s}| == if s in m then |m| - 1 else |m|
  {
    var n := m - {s};
    assert |n| == |n.Keys| && |m| == |m.Keys|;
    if s in m {
      assert m.Keys == n.Keys + {s};
    } else {
      assert n == m;
    }
  }

  lemma WipedEmpty(st: State, sh: Shape, buckets: nat)
    requires forall s: Source :: sh.hash(s) < buckets
    requires forall s | s in st.nodes :: sh.hash(s) >= buckets
    ensures |st.nodes| == 0
  {
    assert st.nodes.Keys == {};
    assert |st.nodes| == |st.nodes.Keys|;
  }

  /** Zeroing one bucket more leaves no node in it and adds none. */
  lemma WipeStep(m: ClientDirectory, sh: Shape, b: nat)
    requires forall s | s in m :: sh.hash(s) >= b
    ensures var n: ClientDirectory := map s | s in m && sh.hash(s) != b :: m[s];
            |n| <= |m| && forall s | s in n :: sh.hash(s) >= b + 1
  {
    var n: ClientDirectory := map s | s in m && sh.hash(s) != b :: m[s];
    SubsetCount(n.Keys, m.Keys);
    assert |n| == |n.Keys| && |m| == |m.Keys|;
  }

  /** The bookkeeping of one step: one thread changes its place, and the lock goes along. */
  ghost predicate Moves(st: State, t: nat, p: Place, st': State)
    requires t < |st.at|
  {
    && st'.at == st.at[t := p]
    && st'.lock == (if Holds(p) then Some(t) else if Holds(st.at[t]) then None else st.lock)
    && (Holds(p) && !Holds(st.at[t]) ==> st.lock.None?)
  }

  /** A step keeps the table safe when its holder's account is right and the sum of both is bounded. */
  lemma MoveSafe(st: State, t: nat, p: Place, st': State, sh: Shape)
    requires Safe(st, sh) && t < |st.at| && Moves(st, t, p, st')
    requires if Holds(p) then HolderAgrees(st', p, sh)
             else if Holds(st.at[t]) then st'.count == |st'.nodes|
             else st'.nodes == st.nodes && st'.count == st.count
    requires st'.count >= 0
    requires var before, after := if Uncounted(st.at[t]) then 1 else 0, if Uncounted(p) then 1 else 0;
             st'.count + after <= st.count + before || st'.count + after <= sh.max
    ensures Safe(st', sh)
  {
    hide Pending, Uncounted;
    PendingChange(st.at, t, p);
    MoveKeepsLock(st, t, p, st'.lock, sh);
  }

  /** What the holder's account says before its first write. */
  lemma InsideFacts(st: State, t: nat, sh: Shape)
    requires Safe(st, sh) && t < |st.at| && st.at[t].Inside?
    ensures st.count == |st.nodes| && st.lock == Some(t)
  {
    hide Pending;
  }

  /** The first write under the lock: the account stays right, and the bound. */
  lemma StartAgrees(st: State, t: nat, op: Command, sh: Shape)
    requires t < |st.at| && st.at[t] == Inside(op) && st.count == |st.nodes|
    ensures var st' := Start(st, t, op, sh);
            && HolderAgrees(st', st'.at[t], sh) && st'.count == st.count
            && st'.at == st.at[t := st'.at[t]] && st'.lock == st.lock
            && Holds(st'.at[t]) && (Uncounted(st'.at[t]) ==> op.Add?)
  {
    hide Crowded, Stuck;
    if op.Remove? {
      EraseCount(st.nodes, op.source);
    }
  }

  lemma StartSafe(st: State, t: nat, op: Command, sh: Shape)
    requires Safe(st, sh) && t < |st.at| && st.at[t] == Inside(op)
    ensures Safe(Start(st, t, op, sh), sh) && |Start(st, t, op, sh).at| == |st.at|
  {
    hide Start, Pending, Bounded, HolderAgrees;
    InsideFacts(st, t, sh);
    StartAgrees(st, t, op, sh);
    var st' := Start(st, t, op, sh);
    MoveSafe(st, t, st'.at[t], st', sh);
  }

  /** A later step of the lock's holder. */
  lemma HolderSafe(st: State, a: Action, sh: Shape, buckets: nat)
    requires forall s: Source :: sh.hash(s) < buckets
    requires Safe(st, sh) && a.t < |st.at| && Holds(st.at[a.t]) && !st.at[a.t].Inside?
    ensures var st' := Apply(st, a, sh, buckets); Safe(st', sh) && |st'.at| == |st.at|
  {
    hide Start, Pending, Bounded;
    var p := st.at[a.t];
    var st' := Apply(st, a, sh, buckets);
    if p.Wiping? {
      if p.bucket < buckets {
        WipeStep(st.nodes, sh, p.bucket);
      } else {
        WipedEmpty(st, sh, buckets);
      }
    }
    if st' != st {
      MoveSafe(st, a.t, st'.at[a.t], st', sh);
    }
  }

  /** Passing the test, or taking the lock. */
  lemma EnterSafe(st: State, a: Action, sh: Shape, buckets: nat)
    requires Safe(st, sh) && a.t < |st.at| && !Holds(st.at[a.t])
    ensures var st' := Apply(st, a, sh, buckets); Safe(st', sh) && |st'.at| == |st.at|
  {
    hide Start, Pending, Bounded;
    var st' := Apply(st, a, sh, buckets);
    if st' != st {
      MoveSafe(st, a.t, st'.at[a.t], st', sh);
    }
  }

  /** Every step of every thread keeps the table safe. */
  lemma StepSafe(st: State, a: Action, sh: Shape, buckets: nat)
    requires forall s: Source :: sh.hash(s) < buckets
    requires Safe(st, sh)
    ensures Safe(Apply(st, a, sh, buckets), sh)
    ensures |Apply(st, a, sh, buckets).at| == |st.at|
  {
    hide Start, Safe;
    if a.t < |st.at| {
      if !Holds(st.at[a.t]) {
        EnterSafe(st, a, sh, buckets);
      } else if !st.at[a.t].Inside? {
        HolderSafe(st, a, sh, buckets);
      } else if a.Write? {
        StartSafe(st, a.t, st.at[a.t].op, sh);
      }
    }
  }

  /** So the nodes themselves stay within the overshoot, too, wherever the holder stands. */
  lemma NodesBounded(st: State, sh: Shape)
    requires Safe(st, sh)
    ensures |st.nodes| <= sh.max + |st.at| - 1
  {
    hide Pending;
    if st.lock.Some? {
      PendingChange(st.at, st.lock.value, Idle);
    }
  }

  /** No threads inside, an empty table: where every run starts. */
  ghost predicate Initial(st: State) {
    st.nodes == map[] && st.count == 0 && st.lock == None && forall t | 0 <= t < |st.at| :: st.at[t] == Idle
  }

  lemma {:induction false} IdlePending(at: seq<Place>)
    requires forall t | 0 <= t < |at| :: at[t] == Idle
    ensures Pending(at) == 0
  {
    if at != [] {
      IdlePending(at[..|at| - 1]);
    }
  }

  /**
   After any interleaving of any operations by any number of threads: with the lock free the
   count is the number of nodes, and neither ever exceeds the limit by more than the number
   of threads less one.
   */
  lemma {:induction false} RunSafe(st: State, actions: seq<Action>, sh: Shape, buckets: nat)
    requires forall s: Source :: sh.hash(s) < buckets
    requires Initial(st) && |st.at| > 0
    ensures var end := After(st, actions, sh, buckets);
            && Safe(end, sh) && |end.at| == |st.at|
            && (end.lock == None ==> end.count == |end.nodes|)
            && end.count <= sh.max + |st.at| - 1
            && |end.nodes| <= sh.max + |st.at| - 1
  {
    hide Apply;
    if actions == [] {
      IdlePending(st.at);
    } else {
      RunSafe(st, actions[..|actions| - 1], sh, buckets);
      StepSafe(After(st, actions[..|actions| - 1], sh, buckets), actions[|actions| - 1], sh, buckets);
    }
    NodesBounded(After(st, actions, sh, buckets), sh);
  }
}
