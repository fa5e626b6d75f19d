/**
 The event loop of src/events/loop.cpp as state transitions. A callback is an identifier; a program says what each
 callback does to the loop when it runs, so a callback can arm itself again. The journal part of the state (posted,
 ran, armed, fired and the serial number of a timer) is not in the source and no transition looks at it.

 The clock may move while a callback runs: Elapse is the time it takes. RunOnce reads the clock once, behind the
 drain, and its firing loop compares with what it read; now, as a parameter, is that reading.
 */
module EventSpec {
  /** ETLX_EVENTS_QUEUE_DEPTH and ETLX_EVENTS_MAX_TIMERS. */
  const QUEUE_DEPTH: nat := 16
  const MAX_TIMERS: nat := 8

  datatype Action = Post(cb: nat) | PostAfter(delay: int, cb: nat) | Stop | Elapse(time: nat)

  type Program = nat -> seq<Action>

  datatype Timer = Timer(due: int, cb: nat, serial: nat)

  datatype State = State(immediate: seq<nat>, timers: seq<Timer>, now: int, running: bool,
                         posted: seq<nat>, ran: seq<nat>, armed: seq<Timer>, fired: seq<Timer>)

  // ---- What callbacks do ----

  function Apply(a: Action, s: State): State {
    match a
    case Post(cb) =>
      if |s.immediate| >= QUEUE_DEPTH then s
      else s.(immediate := s.immediate + [cb], posted := s.posted + [cb])
    case PostAfter(delay, cb) =>
      if |s.timers| >= MAX_TIMERS then s
      else
        var t := Timer(s.now + delay, cb, |s.armed|);
        s.(timers := s.timers + [t], armed := s.armed + [t])
    case Stop => s.(running := false)
    case Elapse(time) => s.(now := s.now + time)
  }

  function Exec(acts: seq<Action>, s: State): State {
    if acts == [] then s else Exec(acts[1..], Apply(acts[0], s))
  }

  // ---- RunOnce ----

  function Popped(s: State): State
    requires s.immediate != []
  {
    s.(immediate := s.immediate[1..], ran := s.ran + [s.immediate[0]])
  }

  /** Pops and runs the front callback. */
  function RunFront(p: Program, s: State): State
    requires s.immediate != []
  {
    Exec(p(s.immediate[0]), Popped(s))
  }

  lemma {:induction false} ExecOnlyAppends(acts: seq<Action>, s: State)
    ensures var r := Exec(acts, s);
            && s.immediate <= r.immediate && s.timers <= r.timers
            && r.ran == s.ran && r.fired == s.fired && s.now <= r.now
    decreases |acts|
  {
    if acts != [] {
      ExecOnlyAppends(acts[1..], Apply(acts[0], s));
    }
  }

  lemma RunFrontRunsOne(p: Program, s: State)
    requires s.immediate != []
    ensures var r := RunFront(p, s);
            && r.ran == s.ran + [s.immediate[0]] && r.fired == s.fired && s.now <= r.now
            && s.immediate[1..] <= r.immediate && s.timers <= r.timers
  {
    ExecOnlyAppends(p(s.immediate[0]), Popped(s));
  }

  /** The next k callbacks of the queue: what they post comes behind them. */
  function Drain(p: Program, s: State, k: nat): State
    requires k <= |s.immediate|
    decreases k
  {
    if k == 0 then s
    else
      RunFrontRunsOne(p, s);
      Drain(p, RunFront(p, s), k - 1)
  }

  /** The index of the first timer of the table that is due, or -1. */
  function FirstDue(timers: seq<Timer>, now: int): (i: int)
    ensures -1 <= i < |timers|
    ensures i >= 0 ==> timers[i].due <= now
    ensures forall j :: 0 <= j < (if i == -1 then |timers| else i) ==> now < timers[j].due
  {
    if timers == [] then -1
    else if timers[0].due <= now then 0
    else
      var i := FirstDue(timers[1..], now);
      if i == -1 then -1 else i + 1
  }

  /** No timer of the table is due at the time that was read. */
  predicate Quiet(s: State, now: int) {
    FirstDue(s.timers, now) == -1
  }

  function NextTimer(s: State, now: int): Timer
    requires !Quiet(s, now)
  {
    s.timers[FirstDue(s.timers, now)]
  }

  /** Takes the first due timer out of the table. */
  function Erased(s: State, now: int): State
    requires !Quiet(s, now)
  {
    var i := FirstDue(s.timers, now);
    s.(timers := s.timers[..i] + s.timers[i + 1..], fired := s.fired + [s.timers[i]])
  }

  /** Erases the first due timer and runs it. */
  function FireFirst(p: Program, s: State, now: int): State
    requires !Quiet(s, now)
  {
    Exec(p(NextTimer(s, now).cb), Erased(s, now))
  }

  lemma FireFirstFiresOne(p: Program, s: State, now: int)
    requires !Quiet(s, now)
    ensures var r := FireFirst(p, s, now);
            && r.fired == s.fired + [NextTimer(s, now)] && r.ran == s.ran && s.now <= r.now
            && s.immediate <= r.immediate
  {
    ExecOnlyAppends(p(NextTimer(s, now).cb), Erased(s, now));
  }

  /** At most n turns of the firing loop. */
  function Fire(p: Program, s: State, now: int, n: nat): State
    decreases n
  {
    if n == 0 || Quiet(s, now) then s else Fire(p, FireFirst(p, s, now), now, n - 1)
  }

  /** The firing loop comes to an end. */
  ghost predicate Settles(p: Program, s: State, now: int) {
    exists n: nat :: Quiet(Fire(p, s, now, n), now)
  }

  ghost function Settled(p: Program, s: State, now: int): (r: State)
    requires Settles(p, s, now)
    ensures Quiet(r, now)
  {
    var n: nat :| Quiet(Fire(p, s, now, n), now);
    Fire(p, s, now, n)
  }

  lemma {:induction false} SettledIsUnique(p: Program, s: State, now: int, n: nat, m: nat)
    requires Quiet(Fire(p, s, now, n), now) && Quiet(Fire(p, s, now, m), now)
    ensures Fire(p, s, now, n) == Fire(p, s, now, m)
    decreases n
  {
    if !Quiet(s, now) {
      SettledIsUnique(p, FireFirst(p, s, now), now, n - 1, m - 1);
    }
  }

  lemma SettledIs(p: Program, s: State, now: int, n: nat)
    requires Quiet(Fire(p, s, now, n), now)
    ensures Settles(p, s, now) && Settled(p, s, now) == Fire(p, s, now, n)
  {
    var m: nat :| Quiet(Fire(p, s, now, m), now) && Settled(p, s, now) == Fire(p, s, now, m);
    SettledIsUnique(p, s, now, n, m);
  }

  /** The state in which RunOnce reads the clock. */
  function Drained(p: Program, s: State): State {
    Drain(p, s, |s.immediate|)
  }

  ghost predicate Returns(p: Program, s: State) {
    Settles(p, Drained(p, s), Drained(p, s).now)
  }

  ghost function Once(p: Program, s: State): State
    requires Returns(p, s)
  {
    Settled(p, Drained(p, s), Drained(p, s).now)
  }

  // ---- A clock that stands still while callbacks run ----

  ghost predicate TakesNoTime(acts: seq<Action>) {
    forall i :: 0 <= i < |acts| ==> !acts[i].Elapse?
  }

  /** Such is the simulated clock as long as no callback advances it. */
  ghost predicate Still(p: Program) {
    forall cb: nat :: TakesNoTime(p(cb))
  }

  lemma {:induction false} ExecIsInstant(acts: seq<Action>, s: State)
    requires TakesNoTime(acts)
    ensures Exec(acts, s).now == s.now
    decreases |acts|
  {
    if acts != [] {
      assert acts[0] == acts[0 + 0];
      ExecIsInstant(acts[1..], Apply(acts[0], s));
    }
  }

  lemma {:induction false} DrainIsInstant(p: Program, s: State, k: nat)
    requires Still(p) && k <= |s.immediate|
    ensures Drain(p, s, k).now == s.now
    decreases k
  {
    hide TakesNoTime;
    if k > 0 {
      ExecIsInstant(p(s.immediate[0]), Popped(s));
      RunFrontRunsOne(p, s);
      DrainIsInstant(p, RunFront(p, s), k - 1);
    }
  }

  lemma {:induction false} FireIsInstant(p: Program, s: State, now: int, n: nat)
    requires Still(p)
    ensures Fire(p, s, now, n).now == s.now
    decreases n
  {
    hide TakesNoTime, Quiet;
    if n > 0 && !Quiet(s, now) {
      ExecIsInstant(p(NextTimer(s, now).cb), Erased(s, now));
      FireIsInstant(p, FireFirst(p, s, now), now, n - 1);
    }
  }

  lemma OnceIsInstant(p: Program, s: State)
    requires Still(p) && Returns(p, s)
    ensures Once(p, s).now == s.now == Drained(p, s).now
  {
    hide Still, Quiet, Drain, Fire;
    var d := Drained(p, s);
    DrainIsInstant(p, s, |s.immediate|);
    var n: nat :| Quiet(Fire(p, d, d.now, n), d.now) && Settled(p, d, d.now) == Fire(p, d, d.now, n);
    FireIsInstant(p, d, d.now, n);
  }

  // ---- Run ----

  /** The index of the soonest timer, the first of them when several are equally soon. */
  function Earliest(timers: seq<Timer>): (i: int)
    ensures -1 <= i < |timers| && (i == -1 <==> timers == [])
    ensures i >= 0 ==> forall j :: 0 <= j < |timers| ==> timers[i].due <= timers[j].due
    ensures i >= 0 ==> forall j :: 0 <= j < i ==> timers[i].due < timers[j].due
  {
    if timers == [] then -1
    else
      var last := |timers| - 1;
      var i := Earliest(timers[..last]);
      if i == -1 || timers[last].due < timers[i].due then last else i
  }

  predicate Idle(s: State) {
    s.immediate == [] && s.timers == []
  }

  /** The rest of an iteration of Run: with nothing to run at once, sleep until the soonest timer. */
  function Rest(s: State): State {
    if s.immediate != [] || s.timers == [] then s
    else
      var due := s.timers[Earliest(s.timers)].due;
      if s.now < due then s.(now := due) else s
  }

  /** The loop of Run ends within n iterations, each of which returns from RunOnce. */
  ghost predicate Finishes(p: Program, s: State, n: nat)
    decreases n
  {
    !s.running || (n > 0 && Returns(p, s) && (Idle(Once(p, s)) || Finishes(p, Rest(Once(p, s)), n - 1)))
  }

  /** The state in which the loop of Run ends. */
  ghost function Looped(p: Program, s: State, n: nat): State
    requires Finishes(p, s, n)
    decreases n
  {
    if !s.running then s
    else if Idle(Once(p, s)) then Once(p, s)
    else Looped(p, Rest(Once(p, s)), n - 1)
  }

  lemma {:induction false} LoopedIsUnique(p: Program, s: State, n: nat, m: nat)
    requires Finishes(p, s, n) && Finishes(p, s, m)
    ensures Looped(p, s, n) == Looped(p, s, m)
    decreases n
  {
    if s.running && !Idle(Once(p, s)) {
      LoopedIsUnique(p, Rest(Once(p, s)), n - 1, m - 1);
    }
  }

  /** The first k iterations of Run, or fewer when its loop ends before, each return from RunOnce. */
  ghost predicate Goes(p: Program, s: State, k: nat)
    decreases k
  {
    k == 0 || !s.running || (Returns(p, s) && (Idle(Once(p, s)) || Goes(p, Rest(Once(p, s)), k - 1)))
  }

  /** The state after them. A run need not end for this: every run is the union of its beginnings. */
  ghost function After(p: Program, s: State, k: nat): State
    requires Goes(p, s, k)
    decreases k
  {
    if k == 0 || !s.running then s
    else if Idle(Once(p, s)) then Once(p, s)
    else After(p, Rest(Once(p, s)), k - 1)
  }

  /** A run that ends is one of its own beginnings. */
  lemma {:induction false} FinishedIsAfter(p: Program, s: State, n: nat)
    requires Finishes(p, s, n)
    ensures Goes(p, s, n) && After(p, s, n) == Looped(p, s, n)
    decreases n
  {
    if s.running && !Idle(Once(p, s)) {
      FinishedIsAfter(p, Rest(Once(p, s)), n - 1);
    }
  }
}
