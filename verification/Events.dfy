/** The event loop of src/events/loop.cpp over the simulated clock of include/etlx/core/time.hpp. */
module Events {
  import opened Core
  import opened EventSpec

  datatype Code = QueueFull

  /** Time moves only when somebody sleeps or advances it; a callback may. */
  class SimulatedClock {
    var now: int

    constructor (start: int)
      ensures now == start
    {
      now := start;
    }

    method SleepUntil(t: int)
      modifies this
      ensures now == if old(now) < t then t else old(now)
    {
      if now < t {
        now := t;
      }
    }

    method Advance(d: int)
      modifies this
      ensures now == old(now) + d
    {
      now := now + d;
    }
  }

  class EventLoop {
    const clock: SimulatedClock
    const program: Program
    var immediate: seq<nat>
    var timers: seq<Timer>
    var running: bool
    /** Numbers the timers in the order of arming; only statements about order look at it. */
    var serial: nat
    ghost var posted: seq<nat>
    ghost var ran: seq<nat>
    ghost var armed: seq<Timer>
    ghost var fired: seq<Timer>

    constructor (clock: SimulatedClock, program: Program)
      ensures Valid() && this.clock == clock && this.program == program
      ensures View() == State([], [], clock.now, false, [], [], [], [])
    {
      this.clock, this.program := clock, program;
      immediate, timers, running, serial := [], [], false, 0;
      posted, ran, armed, fired := [], [], [], [];
    }

    ghost predicate Valid()
      reads this
    {
      serial == |armed|
    }

    ghost function View(): State
      reads this, clock
    {
      State(immediate, timers, clock.now, running, posted, ran, armed, fired)
    }

    method Post(cb: nat) returns (r: Result<(), Code>)
      requires Valid()
      modifies this
      ensures Valid() && View() == Apply(Action.Post(cb), old(View()))
      ensures r == if |old(immediate)| >= 16 then Err(QueueFull) else Ok(())
      ensures immediate == old(immediate) + if r.Ok? then [cb] else []
      ensures timers == old(timers) && running == old(running)
    {
      if |immediate| >= QUEUE_DEPTH {
        return Err(QueueFull);
      }
      immediate := immediate + [cb];
      posted := posted + [cb];
      return Ok(());
    }

    method PostAfter(delay: int, cb: nat) returns (r: Result<(), Code>)
      requires Valid()
      modifies this
      ensures Valid() && View() == Apply(Action.PostAfter(delay, cb), old(View()))
      ensures r == if |old(timers)| >= 8 then Err(QueueFull) else Ok(())
      ensures timers == old(timers) + if r.Ok? then [Timer(clock.now + delay, cb, old(serial))] else []
      ensures immediate == old(immediate) && running == old(running)
    {
      if |timers| >= MAX_TIMERS {
        return Err(QueueFull);
      }
      var t := Timer(clock.now + delay, cb, serial);
      timers := timers + [t];
      serial := serial + 1;
      armed := armed + [t];
      return Ok(());
    }

    method Stop()
      requires Valid()
      modifies this
      ensures Valid() && View() == Apply(Action.Stop, old(View()))
      ensures !running && immediate == old(immediate) && timers == old(timers)
    {
      running := false;
    }

    /** The body of a callback, which ignores whether its posts were accepted. */
    method Call(cb: nat)
      requires Valid()
      modifies this, clock
      ensures Valid() && View() == Exec(program(cb), old(View()))
    {
      var acts := program(cb);
      var i := 0;
      assert acts[0..] == acts;
      while i < |acts|
        invariant i <= |acts| && Valid() && Exec(acts[i..], View()) == Exec(acts, old(View()))
      {
        assert acts[i..][1..] == acts[i + 1..];
        match acts[i] {
          case Post(c) =>
            var _ := Post(c);
          case PostAfter(d, c) =>
            var _ := PostAfter(d, c);
          case Stop =>
            Stop();
          case Elapse(d) =>
            clock.Advance(d);
        }
        i := i + 1;
      }
    }

    /** Runs what was queued on entry, then every timer that is or becomes due; returns how many callbacks ran. */
    method RunOnce() returns (count: nat)
      requires Valid() && Returns(program, View())
      modifies this, clock
      ensures Valid() && View() == Once(program, old(View()))
      ensures count == |ran| + |fired| - old(|ran| + |fired|)
    {
      count := DrainBatch();
      var more := FireDue();
      count := count + more;
    }

    method DrainBatch() returns (count: nat)
      requires Valid()
      modifies this, clock
      ensures Valid() && View() == Drain(program, old(View()), |old(immediate)|)
      ensures count == |ran| + |fired| - old(|ran| + |fired|)
    {
      hide RunFront;
      var batch := |immediate|;
      count := 0;
      for i := 0 to batch
        invariant Valid() && batch - i <= |immediate| && count == i == |ran| + |fired| - old(|ran| + |fired|)
        invariant Drain(program, View(), batch - i) == Drain(program, old(View()), batch)
      {
        RunFrontRunsOne(program, View());
        RunNext();
        count := count + 1;
      }
    }

    /** Pops the front callback, then runs it. */
    method RunNext()
      requires Valid() && immediate != []
      modifies this, clock
      ensures Valid() && View() == RunFront(program, old(View()))
    {
      hide Exec;
      var cb := immediate[0];
      immediate := immediate[1..];
      ran := ran + [cb];
      Call(cb);
    }

    method FireDue() returns (count: nat)
      requires Valid() && Settles(program, View(), clock.now)
      modifies this, clock
      ensures Valid() && View() == Settled(program, old(View()), old(clock.now))
      ensures count == |ran| + |fired| - old(|ran| + |fired|)
    {
      hide Exec, FirstDue, FireFirst;
      var now := clock.now;
      ghost var start := View();
      ghost var n: nat :| Quiet(Fire(program, start, now, n), now);
      SettledIs(program, start, now, n);
      count := 0;
      var again := true;
      while again
        invariant Valid() && Fire(program, View(), now, n) == Settled(program, start, now)
        invariant count == |ran| + |fired| - old(|ran| + |fired|)
        invariant again || Quiet(View(), now)
        decreases if again then n + 1 else 0
      {
        again := FireNext(now);
        if again {
          count := count + 1;
          n := n - 1;
        }
      }
    }

    /**
     One turn of the firing loop, with the time that RunOnce has read, wherever the clock may be by now. A RunOnce that
     never returns is, behind its drain, a sequence of these.
     */
    method FireNext(now: int) returns (again: bool)
      requires Valid()
      modifies this, clock
      ensures Valid() && again == !Quiet(old(View()), now)
      ensures View() == if again then FireFirst(program, old(View()), now) else old(View())
      ensures |ran| + |fired| == old(|ran| + |fired|) + if again then 1 else 0
    {
      hide FirstDue, FireFirst;
      var i := ScanDue(now);
      if i < |timers| {
        FireAt(i, now);
        return true;
      }
      return false;
    }

    /** Erases the timer at i, then runs it. */
    method FireAt(i: nat, ghost now: int)
      requires Valid() && i == FirstDue(timers, now)
      modifies this, clock
      ensures Valid() && View() == FireFirst(program, old(View()), now)
      ensures |ran| + |fired| == old(|ran| + |fired|) + 1
    {
      ghost var s := View();
      var t := timers[i];
      FireFirstFiresOne(program, s, now);
      timers := timers[..i] + timers[i + 1..];
      fired := fired + [t];
      Call(t.cb);
    }

    /** The inner scan of the firing loop: the first due timer, or the size of the table. */
    method ScanDue(now: int) returns (i: nat)
      ensures i <= |timers| && FirstDue(timers, now) == if i < |timers| then i else -1
    {
      i := 0;
      while i < |timers|
        invariant i <= |timers| && forall j :: 0 <= j < i ==> now < timers[j].due
      {
        if !(now < timers[i].due) {
          return;
        }
        i := i + 1;
      }
    }

    method EarliestTimer() returns (best: int)
      ensures best == Earliest(timers)
    {
      best := -1;
      for i := 0 to |timers|
        invariant best == Earliest(timers[..i])
      {
        assert timers[..i + 1][..i] == timers[..i];
        if best < 0 || timers[i].due < timers[best].due {
          best := i;
        }
      }
      assert timers[..|timers|] == timers;
    }

    /** Runs until nothing is pending or Stop was called, sleeping in between. */
    method Run(ghost n: nat)
      requires Valid() && Finishes(program, View().(running := true), n)
      modifies this, clock
      ensures Valid() && View() == Looped(program, old(View()).(running := true), n).(running := false)
    {
      running := true;
      ghost var left := n;
      while running
        invariant Valid() && Finishes(program, View(), left)
        invariant Looped(program, View(), left) == Looped(program, old(View()).(running := true), n)
        decreases left
      {
        var more := Turn();
        if !more {
          break;
        }
        left := left - 1;
      }
      running := false;
    }

    /** The body of the loop of Run; false when that is to break off. A run that never ends is a sequence of these. */
    method Turn() returns (more: bool)
      requires Valid() && Returns(program, View())
      modifies this, clock
      ensures Valid() && View() == Rest(Once(program, old(View())))
      ensures more == !Idle(Once(program, old(View())))
    {
      var _ := RunOnce();
      if immediate == [] {
        if timers == [] {
          return false;
        }
        var i := EarliestTimer();
        clock.SleepUntil(timers[i].due);
      }
      return true;
    }
  }
}
