/** Programs whose callbacks do not arm each other in circles: every run of the loop ends, whatever the delays. */
module EventTermination {
  import opened EventSpec
  import opened EventOrder
  import opened EventCircles
  import opened EventSettling

  type Rank = nat -> nat

  /** Posts or arms a callback. */
  predicate Schedules(a: Action) {
    a.Post? || a.PostAfter?
  }

  /** Every callback these actions schedule ranks below the given bound. */
  ghost predicate Below(rank: Rank, acts: seq<Action>, bound: nat) {
    forall i :: 0 <= i < |acts| && Schedules(acts[i]) ==> rank(acts[i].cb) < bound
  }

  ghost predicate Acyclic(p: Program, rank: Rank) {
    forall cb: nat :: Below(rank, p(cb), rank(cb))
  }

  /** How many callbacks run because cb does: itself, and those behind what it arms. */
  ghost function Cost(p: Program, rank: Rank, cb: nat): (c: nat)
    requires Acyclic(p, rank)
    ensures c > 0
    decreases rank(cb), |p(cb)| + 1
  {
    assert Below(rank, p(cb), rank(cb));
    1 + CostOf(p, rank, p(cb), rank(cb))
  }

  ghost function CostOf(p: Program, rank: Rank, acts: seq<Action>, bound: nat): nat
    requires Acyclic(p, rank) && Below(rank, acts, bound)
    decreases bound, |acts|
  {
    if acts == [] then 0
    else
      (if Schedules(acts[0]) then Cost(p, rank, acts[0].cb) else 0) + CostOf(p, rank, acts[1..], bound)
  }

  ghost function QueueCost(p: Program, rank: Rank, queue: seq<nat>): nat
    requires Acyclic(p, rank)
  {
    if queue == [] then 0 else Cost(p, rank, queue[0]) + QueueCost(p, rank, queue[1..])
  }

  ghost function TableCost(p: Program, rank: Rank, timers: seq<Timer>): nat
    requires Acyclic(p, rank)
  {
    if timers == [] then 0 else Cost(p, rank, timers[0].cb) + TableCost(p, rank, timers[1..])
  }

  /** The callbacks that can still run. */
  ghost function Work(p: Program, rank: Rank, s: State): nat
    requires Acyclic(p, rank)
  {
    QueueCost(p, rank, s.immediate) + TableCost(p, rank, s.timers)
  }

  function Done(s: State): nat {
    |s.ran| + |s.fired|
  }

  /** From s to s' no more was run than was taken off the work. */
  ghost predicate Pays(p: Program, rank: Rank, s: State, s': State)
    requires Acyclic(p, rank)
  {
    Done(s) <= Done(s') && Work(p, rank, s') + Done(s') <= Work(p, rank, s) + Done(s)
  }

  lemma {:induction false} QueueCostJoin(p: Program, rank: Rank, a: seq<nat>, b: seq<nat>)
    requires Acyclic(p, rank)
    ensures QueueCost(p, rank, a + b) == QueueCost(p, rank, a) + QueueCost(p, rank, b)
    decreases |a|
  {
    hide Cost, Acyclic;
    if a == [] {
      assert a + b == b;
    } else {
      assert (a + b)[1..] == a[1..] + b;
      QueueCostJoin(p, rank, a[1..], b);
    }
  }

  lemma {:induction false} TableCostJoin(p: Program, rank: Rank, a: seq<Timer>, b: seq<Timer>)
    requires Acyclic(p, rank)
    ensures TableCost(p, rank, a + b) == TableCost(p, rank, a) + TableCost(p, rank, b)
    decreases |a|
  {
    hide Cost, Acyclic;
    if a == [] {
      assert a + b == b;
    } else {
      assert (a + b)[1..] == a[1..] + b;
      TableCostJoin(p, rank, a[1..], b);
    }
  }

  /** An accepted post adds the cost of what it posts, a refused one nothing. */
  lemma ApplyCosts(p: Program, rank: Rank, a: Action, s: State)
    requires Acyclic(p, rank)
    ensures Work(p, rank, Apply(a, s)) <= Work(p, rank, s) + if Schedules(a) then Cost(p, rank, a.cb) else 0
  {
    hide Cost, Acyclic;
    match a
    case Post(cb) => QueueCostJoin(p, rank, s.immediate, [cb]);
    case PostAfter(delay, cb) => TableCostJoin(p, rank, s.timers, [Timer(s.now + delay, cb, |s.armed|)]);
    case Stop =>
    case Elapse(time) =>
  }

  lemma {:induction false} ExecCosts(p: Program, rank: Rank, acts: seq<Action>, bound: nat, s: State)
    requires Acyclic(p, rank) && Below(rank, acts, bound)
    ensures Work(p, rank, Exec(acts, s)) <= Work(p, rank, s) + CostOf(p, rank, acts, bound)
    decreases |acts|
  {
    hide Cost, Acyclic, Work, Apply;
    if acts != [] {
      ApplyCosts(p, rank, acts[0], s);
      ExecCosts(p, rank, acts[1..], bound, Apply(acts[0], s));
    }
  }

  /** Running cb costs what it was counted for. */
  lemma CallCosts(p: Program, rank: Rank, cb: nat, s: State)
    requires Acyclic(p, rank)
    ensures Work(p, rank, Exec(p(cb), s)) + 1 <= Work(p, rank, s) + Cost(p, rank, cb)
  {
    assert Below(rank, p(cb), rank(cb));
    hide Work, Exec, CostOf;
    ExecCosts(p, rank, p(cb), rank(cb), s);
  }

  lemma RunFrontPays(p: Program, rank: Rank, s: State)
    requires Acyclic(p, rank) && s.immediate != []
    ensures Pays(p, rank, s, RunFront(p, s))
  {
    hide Acyclic, Cost, Exec, TableCost;
    CallCosts(p, rank, s.immediate[0], Popped(s));
    RunFrontRunsOne(p, s);
  }

  lemma FireFirstPays(p: Program, rank: Rank, s: State, now: int)
    requires Acyclic(p, rank) && !Quiet(s, now)
    ensures Pays(p, rank, s, FireFirst(p, s, now)) && Done(FireFirst(p, s, now)) == Done(s) + 1
  {
    hide Acyclic, Cost, Exec, QueueCost;
    var i := FirstDue(s.timers, now);
    assert s.timers == s.timers[..i] + s.timers[i..];
    TableCostJoin(p, rank, s.timers[..i], s.timers[i..]);
    TableCostJoin(p, rank, s.timers[..i], s.timers[i + 1..]);
    assert s.timers[i..][1..] == s.timers[i + 1..];
    CallCosts(p, rank, NextTimer(s, now).cb, Erased(s, now));
    FireFirstFiresOne(p, s, now);
  }

  lemma {:induction false} DrainPays(p: Program, rank: Rank, s: State, k: nat)
    requires Acyclic(p, rank) && k <= |s.immediate|
    ensures Pays(p, rank, s, Drain(p, s, k))
    decreases k
  {
    hide Acyclic, Work, RunFront;
    if k > 0 {
      RunFrontRunsOne(p, s);
      RunFrontPays(p, rank, s);
      DrainPays(p, rank, RunFront(p, s), k - 1);
    }
  }

  /** The firing loop ends within as many turns as there is work, whatever time was read and however the clock moves. */
  lemma {:induction false} FirePays(p: Program, rank: Rank, s: State, now: int, n: nat)
    requires Acyclic(p, rank) && Work(p, rank, s) <= n
    ensures Quiet(Fire(p, s, now, n), now) && Pays(p, rank, s, Fire(p, s, now, n))
    decreases n
  {
    hide Acyclic, Work, FireFirst;
    if !Quiet(s, now) {
      FireFirstPays(p, rank, s, now);
      FirePays(p, rank, FireFirst(p, s, now), now, n - 1);
    }
  }

  /** Every RunOnce of an acyclic program returns, even with delays of zero or less, on any monotone clock. */
  lemma OnceReturns(p: Program, rank: Rank, s: State)
    requires Acyclic(p, rank)
    ensures Returns(p, s) && Pays(p, rank, s, Once(p, s))
  {
    hide Acyclic, Work, Drain, Fire, Quiet;
    var d := Drained(p, s);
    DrainPays(p, rank, s, |s.immediate|);
    var n := Work(p, rank, d);
    FirePays(p, rank, d, d.now, n);
    SettledIs(p, d, d.now, n);
  }

  /** For the firing loop alone less is needed: a rank that falls along armings at once. */
  lemma AcyclicFalls(p: Program, rank: Rank)
    requires Acyclic(p, rank)
    ensures Falls(p, rank)
  {
    forall cb: nat, i | 0 <= i < |p(cb)| && AtOnce(p(cb)[i])
      ensures rank(p(cb)[i].cb) < rank(cb)
    {
      assert Below(rank, p(cb), rank(cb));
    }
  }

  /** Nothing to run before the clock moves. */
  predicate Stalled(s: State) {
    s.immediate == [] && Quiet(s, s.now)
  }

  /** A RunOnce that has something to run takes work away; otherwise it changes nothing. */
  lemma OnceProgresses(p: Program, rank: Rank, s: State)
    requires Acyclic(p, rank)
    ensures Returns(p, s)
    ensures if Stalled(s) then Once(p, s) == s else Work(p, rank, Once(p, s)) < Work(p, rank, s)
  {
    OnceReturns(p, rank, s);
    hide Acyclic, Work, Quiet, Returns, Once, Settles, Settled;
    if Stalled(s) {
      StalledStays(p, s);
    } else {
      OnceRunsBatch(p, s);
      if s.immediate == [] {
        FiresSomething(p, s);
      }
    }
  }

  lemma StalledStays(p: Program, s: State)
    requires Stalled(s)
    ensures Returns(p, s) && Once(p, s) == s
  {
    hide Quiet;
    assert Fire(p, s, s.now, 0) == s && Drained(p, s) == s;
    SettledIs(p, s, s.now, 0);
  }

  /** Sleeping leaves the work as it is, and a timer due. */
  lemma SleepingKeepsWork(p: Program, rank: Rank, s: State)
    requires Acyclic(p, rank)
    ensures Work(p, rank, Rest(s)) == Work(p, rank, s) && Done(Rest(s)) == Done(s)
    ensures !Idle(s) ==> !Stalled(Rest(s))
  {
    hide Acyclic;
  }

  /** Enough iterations: two for each callback that can run, and one to fall asleep. */
  ghost function Turns(p: Program, rank: Rank, s: State): nat
    requires Acyclic(p, rank)
  {
    2 * Work(p, rank, s) + if Stalled(s) then 2 else 1
  }

  lemma {:induction false} FinishesWithin(p: Program, rank: Rank, s: State, n: nat)
    requires Acyclic(p, rank) && Turns(p, rank, s) <= n
    ensures Finishes(p, s, n) && Pays(p, rank, s, Looped(p, s, n))
    decreases n
  {
    hide Acyclic, Work, Once, Returns, Rest, Stalled, Idle, Done;
    if s.running {
      OnceProgresses(p, rank, s);
      OnceReturns(p, rank, s);
      var r := Once(p, s);
      if !Idle(r) {
        SleepingKeepsWork(p, rank, r);
        FinishesWithin(p, rank, Rest(r), n - 1);
      }
    }
  }

  /**
   Every run of an acyclic program ends, with delays of any size and sign: Run returns idle or stopped, having run no
   more callbacks than the work it started with.
   */
  lemma AcyclicRunEnds(p: Program, rank: Rank, s: State)
    requires Acyclic(p, rank)
    ensures var n := Turns(p, rank, s);
            && Finishes(p, s, n)
            && (Idle(Looped(p, s, n)) || !Looped(p, s, n).running)
            && Done(s) <= Done(Looped(p, s, n)) <= Done(s) + Work(p, rank, s)
  {
    hide Acyclic, Work, Finishes, Looped, Idle, Turns;
    FinishesWithin(p, rank, s, Turns(p, rank, s));
    RunEndsIdleOrStopped(p, s, Turns(p, rank, s));
  }

  /** The condition is needed: a callback that arms itself has no rank below itself. */
  lemma RearmingIsCyclic(rank: Rank)
    ensures !Acyclic(Rearming, rank)
  {
    assert Rearming(0)[0] == PostAfter(0, 0);
    assert !Below(rank, Rearming(0), rank(0));
  }
}
