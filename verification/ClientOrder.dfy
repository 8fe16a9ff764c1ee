/**
 What the client's table holds after threads raced: the operations took effect one after
 another, in the order in which they took the lock.
 */
module ClientOrder {
  import opened Base
  import opened Buckets
  import opened ClientTable
  import opened ClientConfig
  import opened ClientAdmin
  import opened ClientRace

  /** An operation past the capacity test: the command's step without its capacity condition. */
  ghost function LateStep(m: ClientDirectory, c: Command, sh: Shape): ClientDirectory {
    match c
    case Add(s, group) => if s !in m && Crowded(m.Keys, s, sh.depth, sh.hash) then m else m[s := group]
    case Remove(s) => m - {s}
    case Clear => map[]
  }

  ghost function LateRun(m: ClientDirectory, cs: seq<Command>, sh: Shape): ClientDirectory {
    if cs == [] then m else LateStep(LateRun(m, cs[..|cs| - 1], sh), cs[|cs| - 1], sh)
  }

  /** With room in the table it is the command's step. */
  lemma LateIsStep(m: ClientDirectory, c: Command, sh: Shape)
    requires c.Add? ==> |m| < sh.max
    ensures LateStep(m, c, sh) == Step(m, c, sh)
  {
    hide Crowded;
    match c
    case Add(s, group) => assert s in m && m[s] == group ==> m[s := group] == m;
    case Remove(s) => assert s !in m ==> m - {s} == m;
    case Clear =>
  }

  /** The operation that takes the lock by an action, if one does. */
  function Entering(st: State, a: Action): seq<Command> {
    if a.Lock? && a.t < |st.at| && st.at[a.t].Wants? && st.lock == None then [st.at[a.t].op] else []
  }

  /** The operations of a run in the order in which they took the lock. */
  ghost function Order(st: State, actions: seq<Action>, sh: Shape, buckets: nat): seq<Command> {
    if actions == [] then []
    else var rest := actions[..|actions| - 1];
         Order(st, rest, sh, buckets) + Entering(After(st, rest, sh, buckets), actions[|actions| - 1])
  }

  /** The nodes are what the operations make of `m`; the last one may still be at work. */
  ghost predicate InOrder(st: State, m: ClientDirectory, ops: seq<Command>, sh: Shape) {
    match st.lock
    case None => st.nodes == LateRun(m, ops, sh)
    case Some(t) =>
      && t < |st.at|
      && match st.at[t]
         case Inside(op) => ops != [] && ops[|ops| - 1] == op && st.nodes == LateRun(m, ops[..|ops| - 1], sh)
         case Wiping(_) => ops != [] && ops[|ops| - 1] == Clear
         case _ => st.nodes == LateRun(m, ops, sh)
  }

  lemma LateRunPush(m: ClientDirectory, ops: seq<Command>, op: Command, sh: Shape)
    ensures LateRun(m, ops + [op], sh) == LateStep(LateRun(m, ops, sh), op, sh)
    ensures (ops + [op])[..|ops|] == ops
  {
    assert (ops + [op])[..|ops|] == ops;
  }

  /** A thread outside takes the lock, or does not concern the nodes. */
  lemma EnterOrder(st: State, a: Action, m: ClientDirectory, ops: seq<Command>, sh: Shape, buckets: nat)
    requires Exclusive(st, sh) && InOrder(st, m, ops, sh)
    requires a.t < |st.at| && !Holds(st.at[a.t])
    ensures InOrder(Apply(st, a, sh, buckets), m, ops + Entering(st, a), sh)
  {
    hide LateRun, Start, HolderAgrees;
    if Entering(st, a) != [] {
      LateRunPush(m, ops, st.at[a.t].op, sh);
    } else {
      assert ops + Entering(st, a) == ops;
    }
  }

  /** The first write of an operation, or of a clear. */
  lemma StartOrder(st: State, t: nat, op: Command, m: ClientDirectory, ops: seq<Command>, sh: Shape)
    requires st.lock == Some(t) && t < |st.at| && st.at[t] == Inside(op) && InOrder(st, m, ops, sh)
    ensures InOrder(Start(st, t, op, sh), m, ops, sh)
  {
    hide LateRun, Crowded, Stuck;
    LateRunPush(m, ops[..|ops| - 1], op, sh);
    assert ops == ops[..|ops| - 1] + [op];
    assert op.Remove? && op.source !in st.nodes ==> st.nodes - {op.source} == st.nodes;
  }

  /** The holder's later steps change no node that counts; the last of a clear leaves none. */
  lemma HolderOrder(st: State, a: Action, m: ClientDirectory, ops: seq<Command>, sh: Shape, buckets: nat)
    requires forall s: Source :: sh.hash(s) < buckets
    requires Exclusive(st, sh) && InOrder(st, m, ops, sh)
    requires a.t < |st.at| && Holds(st.at[a.t]) && !st.at[a.t].Inside?
    ensures InOrder(Apply(st, a, sh, buckets), m, ops, sh)
  {
    hide LateRun, Start, Crowded;
    var p := st.at[a.t];
    if a.Write? && p.Wiping? && p.bucket >= buckets {
      WipedEmpty(st, sh, buckets);
      LateRunPush(m, ops[..|ops| - 1], Clear, sh);
      assert ops == ops[..|ops| - 1] + [Clear];
    }
  }

  lemma StepOrder(st: State, a: Action, m: ClientDirectory, ops: seq<Command>, sh: Shape, buckets: nat)
    requires forall s: Source :: sh.hash(s) < buckets
    requires Exclusive(st, sh) && InOrder(st, m, ops, sh)
    ensures InOrder(Apply(st, a, sh, buckets), m, ops + Entering(st, a), sh)
  {
    hide InOrder, Start, HolderAgrees;
    if a.t < |st.at| {
      if !Holds(st.at[a.t]) {
        EnterOrder(st, a, m, ops, sh, buckets);
      } else {
        assert ops + Entering(st, a) == ops;
        if !st.at[a.t].Inside? {
          HolderOrder(st, a, m, ops, sh, buckets);
        } else if a.Write? {
          StartOrder(st, a.t, st.at[a.t].op, m, ops, sh);
        }
      }
    } else {
      assert ops + Entering(st, a) == ops;
    }
  }

  lemma {:induction false} RunInOrder(st: State, actions: seq<Action>, sh: Shape, buckets: nat)
    requires forall s: Source :: sh.hash(s) < buckets
    requires Initial(st) && |st.at| > 0
    ensures InOrder(After(st, actions, sh, buckets), map[], Order(st, actions, sh, buckets), sh)
  {
    hide Apply, Entering, Bounded, Exclusive, Initial;
    if actions == [] {
      InOrderAtFirst(st, sh);
    } else {
      var rest, a := actions[..|actions| - 1], actions[|actions| - 1];
      var mid := After(st, rest, sh, buckets);
      hide InOrder;
      RunInOrder(st, rest, sh, buckets);
      RunSafe(st, rest, sh, buckets);
      StepOrder(mid, a, map[], Order(st, rest, sh, buckets), sh, buckets);
    }
  }

  lemma InOrderAtFirst(st: State, sh: Shape)
    requires Initial(st)
    ensures InOrder(st, map[], [], sh)
  {}

  /**
   After any interleaving of any operations by any number of threads: with the lock free the
   nodes are what the operations make of the empty table one after another, in the order in
   which they took the lock.
   */
  lemma OrderDecides(st: State, actions: seq<Action>, sh: Shape, buckets: nat)
    requires forall s: Source :: sh.hash(s) < buckets
    requires Initial(st) && |st.at| > 0
    ensures var end := After(st, actions, sh, buckets);
            end.lock == None ==>
              && end.nodes == LateRun(map[], Order(st, actions, sh, buckets), sh)
              && end.count == |LateRun(map[], Order(st, actions, sh, buckets), sh)|
  {
    hide After, Order, LateRun, Initial;
    RunInOrder(st, actions, sh, buckets);
    RunSafe(st, actions, sh, buckets);
  }
}
