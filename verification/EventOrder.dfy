/** What holds over every run of the event loop. */
module EventOrder {
  import opened EventSpec

  // ---- Nothing is lost, nothing runs twice, nothing overtakes in the queue ----

  /** The journal accounts for every accepted post, and both tables are within their capacity. */
  ghost predicate Conserved(s: State) {
    && s.posted == s.ran + s.immediate
    && multiset(s.armed) == multiset(s.fired) + multiset(s.timers)
    && |s.immediate| <= QUEUE_DEPTH && |s.timers| <= MAX_TIMERS
  }

  lemma {:induction false} ExecConserves(acts: seq<Action>, s: State)
    requires Conserved(s)
    ensures Conserved(Exec(acts, s))
    decreases |acts|
  {
    if acts != [] {
      ExecConserves(acts[1..], Apply(acts[0], s));
    }
  }

  lemma RunFrontConserves(p: Program, s: State)
    requires Conserved(s) && s.immediate != []
    ensures Conserved(RunFront(p, s))
  {
    assert s.ran + s.immediate == s.ran + [s.immediate[0]] + s.immediate[1..];
    ExecConserves(p(s.immediate[0]), Popped(s));
  }

  lemma {:induction false} DrainConserves(p: Program, s: State, k: nat)
    requires Conserved(s) && k <= |s.immediate|
    ensures Conserved(Drain(p, s, k))
    decreases k
  {
    if k > 0 {
      hide Conserved, RunFront;
      RunFrontConserves(p, s);
      RunFrontRunsOne(p, s);
      DrainConserves(p, RunFront(p, s), k - 1);
    }
  }

  lemma ErasingConserves(s: State, now: int)
    requires Conserved(s) && !Quiet(s, now)
    ensures Conserved(Erased(s, now))
  {
    var i := FirstDue(s.timers, now);
    assert s.timers == s.timers[..i] + [s.timers[i]] + s.timers[i + 1..];
  }

  lemma FireFirstConserves(p: Program, s: State, now: int)
    requires Conserved(s) && !Quiet(s, now)
    ensures Conserved(FireFirst(p, s, now))
  {
    hide Conserved;
    ErasingConserves(s, now);
    ExecConserves(p(NextTimer(s, now).cb), Erased(s, now));
  }

  lemma {:induction false} FireConserves(p: Program, s: State, now: int, n: nat)
    requires Conserved(s)
    ensures Conserved(Fire(p, s, now, n))
    decreases n
  {
    hide Conserved, FireFirst, Quiet;
    if n > 0 && !Quiet(s, now) {
      FireFirstConserves(p, s, now);
      FireConserves(p, FireFirst(p, s, now), now, n - 1);
    }
  }

  lemma OnceConserves(p: Program, s: State)
    requires Conserved(s) && Returns(p, s)
    ensures Conserved(Once(p, s))
  {
    hide Conserved, Quiet, Drain, Fire;
    var d := Drained(p, s);
    DrainConserves(p, s, |s.immediate|);
    var n: nat :| Quiet(Fire(p, d, d.now, n), d.now) && Settled(p, d, d.now) == Fire(p, d, d.now, n);
    FireConserves(p, d, d.now, n);
  }

  /** After any number of iterations of Run, whether or not the run ever ends. */
  lemma {:induction false} AfterConserves(p: Program, s: State, k: nat)
    requires Conserved(s) && Goes(p, s, k)
    ensures Conserved(After(p, s, k))
    decreases k
  {
    if k > 0 && s.running {
      OnceConserves(p, s);
      if !Idle(Once(p, s)) {
        AfterConserves(p, Rest(Once(p, s)), k - 1);
      }
    }
  }

  /**
   At every moment of every run: after k iterations and the first j callbacks of the next batch, or that whole batch
   and n timers. Neither the run nor the RunOnce it is in need ever end, and the clock may move as it likes.
   */
  lemma AlwaysConserved(p: Program, s: State, k: nat, j: nat, n: nat)
    requires Conserved(s) && Goes(p, s, k)
    ensures var a := After(p, s, k);
            && (j <= |a.immediate| ==> Conserved(Drain(p, a, j)))
            && Conserved(Fire(p, Drained(p, a), Drained(p, a).now, n))
  {
    hide Conserved, Goes, After;
    var a := After(p, s, k);
    AfterConserves(p, s, k);
    if j <= |a.immediate| {
      DrainConserves(p, a, j);
    }
    DrainConserves(p, a, |a.immediate|);
    FireConserves(p, Drained(p, a), Drained(p, a).now, n);
  }

  /** In particular at the end of a run that ends. */
  lemma RunConserves(p: Program, s: State, n: nat)
    requires Conserved(s) && Finishes(p, s, n)
    ensures Conserved(Looped(p, s, n))
  {
    FinishedIsAfter(p, s, n);
    AfterConserves(p, s, n);
  }

  lemma BatchSplits(ran: seq<nat>, queue: seq<nat>, rest: seq<nat>, k: nat)
    requires 0 < k <= |queue| && queue[1..] <= rest
    ensures ran + [queue[0]] + rest[..k - 1] == ran + queue[..k] && queue[k..] <= rest[k - 1..]
  {
    assert rest[..|queue| - 1] == queue[1..];
    assert [queue[0]] + rest[..k - 1] == queue[..k];
  }

  /** A drain of k callbacks runs the k that were in front, in order; what they post stays queued behind the rest. */
  lemma {:induction false} DrainRunsBatch(p: Program, s: State, k: nat)
    requires k <= |s.immediate|
    ensures var r := Drain(p, s, k);
            && r.ran == s.ran + s.immediate[..k] && s.immediate[k..] <= r.immediate
            && r.fired == s.fired && s.now <= r.now && s.timers <= r.timers
    decreases k
  {
    if k > 0 {
      hide RunFront;
      RunFrontRunsOne(p, s);
      DrainRunsBatch(p, RunFront(p, s), k - 1);
      BatchSplits(s.ran, s.immediate, RunFront(p, s).immediate, k);
    }
  }

  lemma {:induction false} FireRunsTimersOnly(p: Program, s: State, now: int, n: nat)
    ensures var r := Fire(p, s, now, n);
            r.ran == s.ran && s.immediate <= r.immediate && s.fired <= r.fired && s.now <= r.now
    decreases n
  {
    hide Quiet, FireFirst, NextTimer;
    if n > 0 && !Quiet(s, now) {
      FireFirstFiresOne(p, s, now);
      FireRunsTimersOnly(p, FireFirst(p, s, now), now, n - 1);
    }
  }

  /** RunOnce runs exactly the callbacks that were queued when it was called, and leaves no timer due by its clock. */
  lemma OnceRunsBatch(p: Program, s: State)
    requires Returns(p, s)
    ensures var r, now := Once(p, s), Drained(p, s).now;
            r.ran == s.ran + s.immediate && s.fired <= r.fired && s.now <= now <= r.now && Quiet(r, now)
  {
    hide Quiet, Drain, Fire;
    var d := Drained(p, s);
    DrainRunsBatch(p, s, |s.immediate|);
    assert s.immediate[..|s.immediate|] == s.immediate;
    var n: nat :| Quiet(Fire(p, d, d.now, n), d.now) && Settled(p, d, d.now) == Fire(p, d, d.now, n);
    FireRunsTimersOnly(p, d, d.now, n);
  }

  // ---- Timers fire in order of due time, ties in order of arming ----

  predicate Before(a: Timer, b: Timer) {
    a.due < b.due || (a.due == b.due && a.serial < b.serial)
  }

  ghost predicate FiredInOrder(fired: seq<Timer>) {
    forall i, j :: 0 <= i < j < |fired| ==> Before(fired[i], fired[j])
  }

  /** No timer is overdue, the table is in order of arming, and whatever fired comes before whatever is left. */
  ghost predicate Ordered(s: State) {
    && FiredInOrder(s.fired)
    && (forall i, j :: 0 <= i < |s.fired| && 0 <= j < |s.timers| ==> Before(s.fired[i], s.timers[j]))
    && (forall i, j :: 0 <= i < j < |s.timers| ==> s.timers[i].serial < s.timers[j].serial)
    && (forall j :: 0 <= j < |s.timers| ==> s.now <= s.timers[j].due && s.timers[j].serial < |s.armed|)
    && (forall i :: 0 <= i < |s.fired| ==> s.fired[i].due <= s.now && s.fired[i].serial < |s.armed|)
  }

  /** Every delay asked for is at least the given one. */
  ghost predicate Delays(acts: seq<Action>, least: int) {
    forall i :: 0 <= i < |acts| && acts[i].PostAfter? ==> least <= acts[i].delay
  }

  ghost predicate AllDelays(p: Program, least: int) {
    forall cb :: Delays(p(cb), least)
  }

  lemma {:induction false} ExecKeepsOrder(acts: seq<Action>, s: State)
    requires Ordered(s) && Delays(acts, 0) && TakesNoTime(acts)
    ensures Ordered(Exec(acts, s))
    decreases |acts|
  {
    if acts != [] {
      assert acts[0] == acts[0 + 0];
      ApplyKeepsOrder(acts[0], s);
      ExecKeepsOrder(acts[1..], Apply(acts[0], s));
    }
  }

  lemma ApplyKeepsOrder(a: Action, s: State)
    requires Ordered(s) && (a.PostAfter? ==> 0 <= a.delay) && !a.Elapse?
    ensures Ordered(Apply(a, s))
  {
  }

  /** The scan picks what a priority queue would: of all pending timers the least by due time, then by arming. */
  lemma FirstDueIsLeast(s: State, j: int)
    requires Ordered(s) && !Quiet(s, s.now)
    ensures var i := FirstDue(s.timers, s.now);
            0 <= j < |s.timers| && j != i ==> Before(s.timers[i], s.timers[j])
  {
  }

  /** The state between erasing the first due timer and running it. */
  lemma ErasingKeepsOrder(s: State)
    requires Ordered(s) && !Quiet(s, s.now)
    ensures Ordered(Erased(s, s.now))
  {
    var i := FirstDue(s.timers, s.now);
    forall j | 0 <= j < |s.timers| && j != i
      ensures Before(s.timers[i], s.timers[j])
    {
      FirstDueIsLeast(s, j);
    }
    hide FirstDue;
  }

  lemma FireFirstKeepsOrder(p: Program, s: State)
    requires Ordered(s) && AllDelays(p, 0) && Still(p) && !Quiet(s, s.now)
    ensures Ordered(FireFirst(p, s, s.now)) && FireFirst(p, s, s.now).now == s.now
  {
    hide Ordered, Delays, Quiet, Exec, TakesNoTime;
    var acts := p(NextTimer(s, s.now).cb);
    ErasingKeepsOrder(s);
    ExecKeepsOrder(acts, Erased(s, s.now));
    ExecIsInstant(acts, Erased(s, s.now));
  }

  lemma {:induction false} FireKeepsOrder(p: Program, s: State, n: nat)
    requires Ordered(s) && AllDelays(p, 0) && Still(p)
    ensures Ordered(Fire(p, s, s.now, n))
    decreases n
  {
    hide Ordered, AllDelays, Still, Quiet, FireFirst;
    if n > 0 && !Quiet(s, s.now) {
      FireFirstKeepsOrder(p, s);
      FireKeepsOrder(p, FireFirst(p, s, s.now), n - 1);
    }
  }

  lemma PoppingKeepsOrder(s: State)
    requires Ordered(s) && s.immediate != []
    ensures Ordered(Popped(s))
  {
  }

  lemma {:induction false} DrainKeepsOrder(p: Program, s: State, k: nat)
    requires Ordered(s) && AllDelays(p, 0) && Still(p) && k <= |s.immediate|
    ensures Ordered(Drain(p, s, k))
    decreases k
  {
    hide Ordered, Delays, Exec, TakesNoTime;
    if k > 0 {
      PoppingKeepsOrder(s);
      ExecKeepsOrder(p(s.immediate[0]), Popped(s));
      RunFrontRunsOne(p, s);
      DrainKeepsOrder(p, RunFront(p, s), k - 1);
    }
  }

  lemma OnceKeepsOrder(p: Program, s: State)
    requires Ordered(s) && AllDelays(p, 0) && Still(p) && Returns(p, s)
    ensures Ordered(Once(p, s))
  {
    hide Ordered, AllDelays, Still, Quiet, Drain, Fire;
    var d := Drained(p, s);
    DrainKeepsOrder(p, s, |s.immediate|);
    var n: nat :| Quiet(Fire(p, d, d.now, n), d.now) && Settled(p, d, d.now) == Fire(p, d, d.now, n);
    FireKeepsOrder(p, d, n);
  }

  /** Sleeping goes no further than the soonest timer. */
  lemma RestKeepsOrder(s: State)
    requires Ordered(s)
    ensures Ordered(Rest(s))
  {
  }

  /** After any number of iterations of Run, whether or not the run ever ends. */
  lemma {:induction false} AfterKeepsOrder(p: Program, s: State, k: nat)
    requires Ordered(s) && AllDelays(p, 0) && Still(p) && Goes(p, s, k)
    ensures Ordered(After(p, s, k))
    decreases k
  {
    hide Ordered;
    if k > 0 && s.running {
      OnceKeepsOrder(p, s);
      RestKeepsOrder(Once(p, s));
      if !Idle(Once(p, s)) {
        AfterKeepsOrder(p, Rest(Once(p, s)), k - 1);
      }
    }
  }

  /**
   At every moment of every run, whatever the callbacks arm: with no delay negative and a clock that only sleeping
   moves, timers have fired in order of due time, and those due together in order of arming. The run need not end,
   and neither need its last RunOnce.
   */
  lemma AlwaysInOrder(p: Program, s: State, k: nat, j: nat, n: nat)
    requires Ordered(s) && AllDelays(p, 0) && Still(p) && Goes(p, s, k)
    ensures var a := After(p, s, k);
            && (j <= |a.immediate| ==> Ordered(Drain(p, a, j)))
            && Ordered(Fire(p, Drained(p, a), Drained(p, a).now, n))
            && FiredInOrder(Fire(p, Drained(p, a), Drained(p, a).now, n).fired)
  {
    hide Goes, After, Drain, Fire, AllDelays, FiredInOrder, Still;
    var a := After(p, s, k);
    AfterKeepsOrder(p, s, k);
    if j <= |a.immediate| {
      DrainKeepsOrder(p, a, j);
    }
    DrainKeepsOrder(p, a, |a.immediate|);
    FireKeepsOrder(p, Drained(p, a), n);
  }

  /** In particular at the end of a run that ends. */
  lemma RunFiresInOrder(p: Program, s: State, n: nat)
    requires Ordered(s) && AllDelays(p, 0) && Still(p) && Finishes(p, s, n)
    ensures Ordered(Looped(p, s, n)) && FiredInOrder(Looped(p, s, n).fired)
  {
    FinishedIsAfter(p, s, n);
    AfterKeepsOrder(p, s, n);
  }

  /** A fresh loop to which work was posted is such a start. */
  lemma PostingStartsOrdered(acts: seq<Action>, now: int, running: bool)
    requires Delays(acts, 0) && TakesNoTime(acts)
    ensures var s := Exec(acts, State([], [], now, running, [], [], [], [])); Ordered(s) && Conserved(s)
  {
    ExecKeepsOrder(acts, State([], [], now, running, [], [], [], []));
    ExecConserves(acts, State([], [], now, running, [], [], [], []));
  }

  // ---- One RunOnce, when callbacks arm only later timers ----

  /** The due timers of a table, in table order, and the others. */
  function Due(timers: seq<Timer>, now: int): seq<Timer> {
    if timers == [] then []
    else if timers[0].due <= now then [timers[0]] + Due(timers[1..], now)
    else Due(timers[1..], now)
  }

  function NotDue(timers: seq<Timer>, now: int): seq<Timer> {
    if timers == [] then []
    else if timers[0].due <= now then NotDue(timers[1..], now)
    else [timers[0]] + NotDue(timers[1..], now)
  }

  lemma {:induction false} DueOfJoin(a: seq<Timer>, b: seq<Timer>, now: int)
    ensures Due(a + b, now) == Due(a, now) + Due(b, now)
    ensures NotDue(a + b, now) == NotDue(a, now) + NotDue(b, now)
    decreases |a|
  {
    if a == [] {
      assert a + b == b;
    } else {
      assert (a + b)[1..] == a[1..] + b && (a + b)[0] == a[0];
      DueOfJoin(a[1..], b, now);
      assert [a[0]] + (Due(a[1..], now) + Due(b, now)) == [a[0]] + Due(a[1..], now) + Due(b, now);
      assert [a[0]] + (NotDue(a[1..], now) + NotDue(b, now)) == [a[0]] + NotDue(a[1..], now) + NotDue(b, now);
    }
  }

  lemma {:induction false} NoneDue(timers: seq<Timer>, now: int)
    requires forall i :: 0 <= i < |timers| ==> now < timers[i].due
    ensures Due(timers, now) == [] && NotDue(timers, now) == timers
    decreases |timers|
  {
    if timers != [] {
      NoneDue(timers[1..], now);
      assert timers == [timers[0]] + timers[1..];
    }
  }

  /** With positive delays, what an execution adds to the table is not due by a clock that was read before. */
  lemma {:induction false} ExecArmsLater(acts: seq<Action>, s: State, now: int)
    requires Delays(acts, 1) && now <= s.now
    ensures var r := Exec(acts, s);
            && Due(r.timers, now) == Due(s.timers, now)
            && NotDue(s.timers, now) <= NotDue(r.timers, now)
    decreases |acts|
  {
    if acts != [] {
      assert acts[0] == acts[0 + 0];
      var next := Apply(acts[0], s);
      var more := next.timers[|s.timers|..];
      assert next.timers == s.timers + more;
      DueOfJoin(s.timers, more, now);
      NoneDue(more, now);
      ExecArmsLater(acts[1..], next, now);
    }
  }

  lemma DueOfOne(t: Timer, now: int)
    requires t.due <= now
    ensures Due([t], now) == [t] && NotDue([t], now) == []
  {
    assert [t][1..] == [];
  }

  /** Erasing the first due timer takes the first of the due ones. */
  lemma DueWithoutFirst(timers: seq<Timer>, now: int)
    requires FirstDue(timers, now) != -1
    ensures var i := FirstDue(timers, now);
            var rest := timers[..i] + timers[i + 1..];
            Due(timers, now) == [timers[i]] + Due(rest, now) && NotDue(timers, now) == NotDue(rest, now)
  {
    hide Due, NotDue, FirstDue;
    var i := FirstDue(timers, now);
    DueSplits(timers, i, now);
    NoneDue(timers[..i], now);
    DueOfJoin(timers[..i], timers[i + 1..], now);
  }

  lemma DueSplits(timers: seq<Timer>, i: nat, now: int)
    requires i < |timers| && timers[i].due <= now
    ensures Due(timers, now) == Due(timers[..i], now) + ([timers[i]] + Due(timers[i + 1..], now))
    ensures NotDue(timers, now) == NotDue(timers[..i], now) + NotDue(timers[i + 1..], now)
  {
    hide Due, NotDue;
    var t, behind := [timers[i]], timers[i + 1..];
    assert timers == timers[..i] + (t + behind);
    DueOfJoin(timers[..i], t + behind, now);
    DueOfJoin(t, behind, now);
    DueOfOne(timers[i], now);
  }

  lemma FireFirstTakesDue(p: Program, s: State, now: int)
    requires AllDelays(p, 1) && now <= s.now && !Quiet(s, now)
    ensures var r := FireFirst(p, s, now);
            && now <= r.now && r.fired == s.fired + [NextTimer(s, now)]
            && Due(s.timers, now) == [NextTimer(s, now)] + Due(r.timers, now)
            && NotDue(s.timers, now) <= NotDue(r.timers, now)
  {
    hide Due, NotDue, Exec, Delays;
    DueWithoutFirst(s.timers, now);
    ExecArmsLater(p(NextTimer(s, now).cb), Erased(s, now), now);
    FireFirstFiresOne(p, s, now);
  }

  /**
   When every delay is positive the restarting scan ends after as many turns as timers were due, and fires exactly
   those, however the clock moves while the callbacks run: scan, erase and restart is a filter of the table.
   */
  lemma {:induction false} FireTakesDue(p: Program, s: State, now: int, n: nat)
    requires AllDelays(p, 1) && now <= s.now && n == |Due(s.timers, now)|
    ensures var r := Fire(p, s, now, n);
            Quiet(r, now) && r.fired == s.fired + Due(s.timers, now) && NotDue(s.timers, now) <= NotDue(r.timers, now)
    decreases n
  {
    if Quiet(s, now) {
      NoneDue(s.timers, now);
    } else {
      hide Due, NotDue, FireFirst, AllDelays, NextTimer, Quiet;
      FireFirstTakesDue(p, s, now);
      FireTakesDue(p, FireFirst(p, s, now), now, n - 1);
    }
  }

  lemma {:induction false} DrainArmsLater(p: Program, s: State, k: nat, now: int)
    requires AllDelays(p, 1) && k <= |s.immediate| && now <= s.now
    ensures Due(Drain(p, s, k).timers, now) == Due(s.timers, now)
    decreases k
  {
    hide Due, Exec, Delays;
    if k > 0 {
      ExecArmsLater(p(s.immediate[0]), Popped(s), now);
      RunFrontRunsOne(p, s);
      DrainArmsLater(p, RunFront(p, s), k - 1, now);
    }
  }

  /**
   With positive delays and any monotone clock, RunOnce returns and fires exactly the timers that are due when it reads
   the clock, behind the drain; on a clock that stands still while callbacks run those are the ones due at entry.
   */
  lemma OnceFiresDue(p: Program, s: State)
    requires AllDelays(p, 1)
    ensures Returns(p, s)
    ensures Once(p, s).fired == s.fired + Due(Drained(p, s).timers, Drained(p, s).now)
    ensures Still(p) ==> Once(p, s).fired == s.fired + Due(s.timers, s.now)
  {
    hide AllDelays, Due, Drain, Fire, Still;
    var d := Drained(p, s);
    DrainRunsBatch(p, s, |s.immediate|);
    FireTakesDue(p, d, d.now, |Due(d.timers, d.now)|);
    SettledIs(p, d, d.now, |Due(d.timers, d.now)|);
    if Still(p) {
      DrainIsInstant(p, s, |s.immediate|);
      DrainArmsLater(p, s, |s.immediate|, s.now);
    }
  }

  ghost predicate ByDueTime(timers: seq<Timer>) {
    forall i, j :: 0 <= i < j < |timers| ==> timers[i].due <= timers[j].due
  }

  /** All of them due at the given time exactly. */
  ghost predicate DueAt(timers: seq<Timer>, now: int) {
    forall i :: 0 <= i < |timers| ==> timers[i].due == now
  }

  /** The due timers of a table: those of an older one, and then some that fell due the moment they were armed. */
  ghost predicate DueSince(timers: seq<Timer>, older: seq<Timer>, now: int) {
    && older <= Due(timers, now)
    && DueAt(Due(timers, now)[|older|..], now)
  }

  lemma NoneSince(timers: seq<Timer>, now: int)
    ensures DueSince(timers, Due(timers, now), now)
  {
  }

  lemma ApplyArmsNow(a: Action, s: State, now: int, older: seq<Timer>)
    requires (a.PostAfter? ==> 0 <= a.delay) && now <= s.now && DueSince(s.timers, older, now)
    ensures DueSince(Apply(a, s).timers, older, now)
  {
    var more := Apply(a, s).timers[|s.timers|..];
    assert Apply(a, s).timers == s.timers + more;
    DueOfJoin(s.timers, more, now);
    if more != [] {
      assert more[1..] == [];
    }
  }

  /** With no delay negative, what an execution adds to the table is due when the clock was read, or later. */
  lemma {:induction false} ExecArmsNow(acts: seq<Action>, s: State, now: int, older: seq<Timer>)
    requires Delays(acts, 0) && now <= s.now && DueSince(s.timers, older, now)
    ensures DueSince(Exec(acts, s).timers, older, now)
    decreases |acts|
  {
    hide DueSince;
    if acts != [] {
      assert acts[0] == acts[0 + 0];
      ApplyArmsNow(acts[0], s, now, older);
      ExecArmsNow(acts[1..], Apply(acts[0], s), now, older);
    }
  }

  lemma {:induction false} DrainArmsNow(p: Program, s: State, k: nat, now: int, older: seq<Timer>)
    requires AllDelays(p, 0) && k <= |s.immediate| && now <= s.now && DueSince(s.timers, older, now)
    ensures DueSince(Drain(p, s, k).timers, older, now)
    decreases k
  {
    hide DueSince, Delays;
    if k > 0 {
      ExecArmsNow(p(s.immediate[0]), Popped(s), now, older);
      RunFrontRunsOne(p, s);
      DrainArmsNow(p, RunFront(p, s), k - 1, now, older);
    }
  }

  /** The timers of older come out first, in its order, and behind them only timers due now. */
  ghost predicate FiresFirst(before: seq<Timer>, older: seq<Timer>, after: seq<Timer>, now: int) {
    before + older <= after && DueAt(after[|before| + |older|..], now)
  }

  lemma OneFired(before: seq<Timer>, older: seq<Timer>, t: Timer, rest: seq<Timer>, after: seq<Timer>, now: int)
    requires FiresFirst(before + [t], rest, after, now)
    requires if older == [] then rest == [] && t.due == now else older == [t] + rest
    ensures FiresFirst(before, older, after, now)
  {
    assert before + [t] + rest == before + ([t] + rest);
    if older == [] {
      assert after[|before|..] == [t] + after[|before| + 1..];
    }
  }

  /** Erasing the first due timer takes the oldest, or one that fell due since when none of those is left. */
  lemma FirstOfOlder(s: State, now: int, older: seq<Timer>)
    requires !Quiet(s, now) && DueSince(s.timers, older, now)
    ensures var rest := if older == [] then [] else older[1..];
            && DueSince(Erased(s, now).timers, rest, now)
            && if older == [] then NextTimer(s, now).due == now else older == [NextTimer(s, now)] + rest
  {
    DueWithoutFirst(s.timers, now);
    var due, left := Due(s.timers, now), Due(Erased(s, now).timers, now);
    assert due == [NextTimer(s, now)] + left;
    if older == [] {
      assert due[|older|..] == due && left == due[1..] == left[|older|..];
      assert due[0] == NextTimer(s, now);
    } else {
      assert left[|older| - 1..] == due[|older|..];
      assert older[0] == due[0] && older == [older[0]] + older[1..];
      assert left[..|older| - 1] == older[1..];
    }
  }

  lemma {:induction false} FireTakesOlder(p: Program, s: State, now: int, n: nat, older: seq<Timer>)
    requires AllDelays(p, 0) && now <= s.now && DueSince(s.timers, older, now) && Quiet(Fire(p, s, now, n), now)
    ensures FiresFirst(s.fired, older, Fire(p, s, now, n).fired, now)
    decreases n
  {
    if Quiet(s, now) {
      NoneDue(s.timers, now);
    } else {
      FirstOfOlder(s, now, older);
      FireFirstFiresOne(p, s, now);
      hide DueSince, FiresFirst, Delays, Exec, Quiet;
      var rest := if older == [] then [] else older[1..];
      ExecArmsNow(p(NextTimer(s, now).cb), Erased(s, now), now, rest);
      FireTakesOlder(p, FireFirst(p, s, now), now, n - 1, rest);
      OneFired(s.fired, older, NextTimer(s, now), rest, Fire(p, s, now, n).fired, now);
    }
  }

  /**
   With no delay negative and any monotone clock, a RunOnce that returns fires the timers first that are due when it
   reads the clock, in table order, and behind them only timers that fell due the moment they were armed.
   */
  lemma OnceFiresDueFirst(p: Program, s: State)
    requires AllDelays(p, 0) && Returns(p, s)
    ensures FiresFirst(s.fired, Due(Drained(p, s).timers, Drained(p, s).now), Once(p, s).fired, Drained(p, s).now)
  {
    var d := Drained(p, s);
    DrainRunsBatch(p, s, |s.immediate|);
    NoneSince(d.timers, d.now);
    LoopFiresFirst(p, s, Due(d.timers, d.now));
  }

  /** On a clock that stands still while callbacks run, those due at entry come first. */
  lemma OnceFiresEntryFirst(p: Program, s: State)
    requires AllDelays(p, 0) && Still(p) && Returns(p, s)
    ensures FiresFirst(s.fired, Due(s.timers, s.now), Once(p, s).fired, s.now)
  {
    hide AllDelays, Still, DueSince, FiresFirst, Drain;
    NoneSince(s.timers, s.now);
    DrainRunsBatch(p, s, |s.immediate|);
    DrainIsInstant(p, s, |s.immediate|);
    DrainArmsNow(p, s, |s.immediate|, s.now, Due(s.timers, s.now));
    LoopFiresFirst(p, s, Due(s.timers, s.now));
  }

  lemma LoopFiresFirst(p: Program, s: State, older: seq<Timer>)
    requires AllDelays(p, 0) && Returns(p, s) && DueSince(Drained(p, s).timers, older, Drained(p, s).now)
    ensures FiresFirst(s.fired, older, Once(p, s).fired, Drained(p, s).now)
  {
    hide AllDelays, DueSince, FiresFirst, Fire, Quiet;
    var d := Drained(p, s);
    DrainRunsBatch(p, s, |s.immediate|);
    var n: nat :| Quiet(Fire(p, d, d.now, n), d.now) && Settled(p, d, d.now) == Fire(p, d, d.now, n);
    FireTakesOlder(p, d, d.now, n, older);
  }

  lemma {:induction false} DueIsDue(timers: seq<Timer>, now: int)
    ensures forall i :: 0 <= i < |Due(timers, now)| ==> Due(timers, now)[i].due <= now
    decreases |timers|
  {
    if timers != [] {
      DueIsDue(timers[1..], now);
    }
  }

  lemma ByDueTimeAppend(older: seq<Timer>, more: seq<Timer>, now: int)
    requires DueAt(more, now) && forall i :: 0 <= i < |older| ==> older[i].due <= now
    ensures ByDueTime(older + more) <==> ByDueTime(older)
  {
    var all := older + more;
    if ByDueTime(all) {
      forall i, j | 0 <= i < j < |older|
        ensures older[i].due <= older[j].due
      {
        assert all[i].due <= all[j].due;
      }
    }
  }

  lemma InOrderIff(before: seq<Timer>, older: seq<Timer>, after: seq<Timer>, now: int)
    requires FiresFirst(before, older, after, now) && forall i :: 0 <= i < |older| ==> older[i].due <= now
    ensures before <= after && (ByDueTime(after[|before|..]) <==> ByDueTime(older))
  {
    hide ByDueTime, DueAt;
    var more := after[|before + older|..];
    assert after == before + older + more;
    assert after[|before|..] == older + more;
    ByDueTimeAppend(older, more, now);
  }

  /**
   A single RunOnce therefore fires in order of due time exactly when the timers due when it reads the clock stand in
   that order, provided that no callback asks for a negative delay. On a clock that stands still while callbacks run
   these can be taken to be the timers due at entry.
   */
  lemma OnceInOrderIff(p: Program, s: State)
    requires AllDelays(p, 0) && Returns(p, s)
    ensures var d, r := Drained(p, s), Once(p, s);
            && s.fired <= r.fired
            && (ByDueTime(r.fired[|s.fired|..]) <==> ByDueTime(Due(d.timers, d.now)))
            && (Still(p) ==> (ByDueTime(r.fired[|s.fired|..]) <==> ByDueTime(Due(s.timers, s.now))))
  {
    hide Once, Returns, AllDelays, Still, ByDueTime, Due, FiresFirst, Drain;
    var d, r := Drained(p, s), Once(p, s);
    OnceFiresDueFirst(p, s);
    DueIsDue(d.timers, d.now);
    InOrderIff(s.fired, Due(d.timers, d.now), r.fired, d.now);
    if Still(p) {
      OnceFiresEntryFirst(p, s);
      DueIsDue(s.timers, s.now);
      InOrderIff(s.fired, Due(s.timers, s.now), r.fired, s.now);
    }
  }

  /** Callback 0 asks for a time that has passed. */
  function Backdating(cb: nat): seq<Action> {
    if cb == 0 then [PostAfter(-5, 1)] else []
  }

  /** With a negative delay it is not so: a single due timer, trivially in order, is followed by an earlier one. */
  lemma NegativeDelayFiresEarlier()
    ensures var first, second := Timer(10, 0, 0), Timer(5, 1, 1);
            var s := State([], [first], 10, false, [], [], [first], []);
            Returns(Backdating, s) && Once(Backdating, s).fired == [first, second]
            && ByDueTime(Due(s.timers, s.now)) && !ByDueTime([first, second])
  {
    var first, second := Timer(10, 0, 0), Timer(5, 1, 1);
    var s := State([], [first], 10, false, [], [], [first], []);
    var t := State([], [second], 10, false, [], [], [first, second], [first]);
    var u := State([], [], 10, false, [], [], [first, second], [first, second]);
    assert FireFirst(Backdating, s, 10) == t by {
      ExecOne(PostAfter(-5, 1), Erased(s, 10));
      assert NextTimer(s, 10) == first;
    }
    assert FireFirst(Backdating, t, 10) == u by {
      assert NextTimer(t, 10) == second;
    }
    hide FireFirst;
    assert Drained(Backdating, s) == s && Fire(Backdating, u, 10, 0) == u;
    assert Fire(Backdating, t, 10, 1) == u;
    assert Fire(Backdating, s, 10, 2) == u;
    SettledIs(Backdating, s, 10, 2);
    assert [first][1..] == [];
    assert !([first, second][0].due <= [first, second][1].due);
  }

  lemma ExecOne(a: Action, s: State)
    ensures Exec([a], s) == Apply(a, s)
  {
    assert [a][1..] == [];
  }

  /** A clock that has jumped past two timers: the one armed first fires first although it was due later. */
  lemma AdvancedClockFiresLateFirst(p: Program)
    requires AllDelays(p, 1)
    ensures var late, soon := Timer(3, 0, 0), Timer(1, 1, 1);
            var s := State([], [late, soon], 5, false, [], [], [late, soon], []);
            Returns(p, s) && Once(p, s).fired == [late, soon]
  {
    var late, soon := Timer(3, 0, 0), Timer(1, 1, 1);
    var s := State([], [late, soon], 5, false, [], [], [late, soon], []);
    OnceFiresDue(p, s);
    assert Drained(p, s) == s;
    assert Due([soon], 5) == [soon] by {
      assert [soon][1..] == [];
    }
    assert [late, soon][1..] == [soon];
  }

  // ---- Run: progress, idling and stopping ----

  /** A timer that is due when RunOnce finds nothing queued is fired. */
  lemma FiresSomething(p: Program, s: State)
    requires s.immediate == [] && !Quiet(s, s.now) && Returns(p, s)
    ensures |s.fired| < |Once(p, s).fired|
  {
    hide Quiet, FireFirst;
    assert Drained(p, s) == s;
    var n: nat :| Quiet(Fire(p, s, s.now, n), s.now) && Settled(p, s, s.now) == Fire(p, s, s.now, n);
    FireFirstFiresOne(p, s, s.now);
    FireRunsTimersOnly(p, FireFirst(p, s, s.now), s.now, n - 1);
  }

  lemma SleepingWakes(s: State)
    requires s.immediate == [] && s.timers != []
    ensures !Quiet(Rest(s), Rest(s).now) && Rest(s).immediate == [] && Rest(s).fired == s.fired
  {
  }

  /** After every sleep the next RunOnce fires a timer. */
  lemma ProgressAfterSleep(p: Program, s: State)
    requires s.immediate == [] && s.timers != [] && Returns(p, Rest(s))
    ensures |s.fired| < |Once(p, Rest(s)).fired|
  {
    hide Rest, Returns, Once, Quiet;
    SleepingWakes(s);
    FiresSomething(p, Rest(s));
  }

  lemma {:induction false} RunEndsIdleOrStopped(p: Program, s: State, n: nat)
    requires Finishes(p, s, n)
    ensures Idle(Looped(p, s, n)) || !Looped(p, s, n).running
    decreases n
  {
    if s.running && !Idle(Once(p, s)) {
      RunEndsIdleOrStopped(p, Rest(Once(p, s)), n - 1);
    }
  }

  /**
   Stop lets the current RunOnce finish, and nothing runs after it. But Run returns only after it has also slept
   until the next timer, exactly when no immediate callback is pending and some timer is, none of them already due.
   That none is already due is certain on a clock that stands still while callbacks run.
   */
  lemma StopEndsRun(p: Program, s: State, n: nat)
    requires s.running && Returns(p, s) && !Once(p, s).running && n > 0
    ensures Finishes(p, s, n)
    ensures var last, end := Once(p, s), Looped(p, s, n);
            && end.ran == last.ran && end.fired == last.fired && end.timers == last.timers
            && (end.now > last.now <==> last.immediate == [] && last.timers != [] && Quiet(last, last.now))
            && (Still(p) ==> Quiet(last, last.now))
  {
    var last := Once(p, s);
    if Still(p) {
      OnceRunsBatch(p, s);
      OnceIsInstant(p, s);
    }
    hide Still, Once, Returns;
    RestMoves(last);
    assert Finishes(p, Rest(last), n - 1);
  }

  lemma RestMoves(s: State)
    ensures Rest(s).now > s.now <==> s.immediate == [] && s.timers != [] && Quiet(s, s.now)
    ensures Rest(s).(now := s.now) == s
  {
  }
}
