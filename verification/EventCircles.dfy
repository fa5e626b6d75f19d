/**
 Circles of armings at once: when they keep the firing loop of RunOnce going for ever, the programs for which this and
 EventSettling leave nothing open, and instances on either side.
 */
module EventCircles {
  import opened Core
  import opened EventSpec
  import opened EventOrder
  import opened EventSettling

  /** The first timer that these actions arm. */
  function FirstArming(acts: seq<Action>): Option<Action> {
    if acts == [] then None
    else if acts[0].PostAfter? then Some(acts[0])
    else FirstArming(acts[1..])
  }

  /** It arms at once, and within the circle. */
  ghost predicate StaysIn(circle: iset<nat>, arming: Option<Action>) {
    arming.Some? && AtOnce(arming.value) && arming.value.cb in circle
  }

  ghost predicate Circles(p: Program, circle: iset<nat>) {
    forall cb :: cb in circle ==> StaysIn(circle, FirstArming(p(cb)))
  }

  /** A due timer of the circle. */
  ghost predicate Supplied(circle: iset<nat>, timers: seq<Timer>, now: int) {
    exists i :: 0 <= i < |timers| && timers[i].due <= now && timers[i].cb in circle
  }

  lemma {:induction false} ExecStaysWithin(acts: seq<Action>, s: State)
    requires |s.timers| <= MAX_TIMERS
    ensures |Exec(acts, s).timers| <= MAX_TIMERS
    decreases |acts|
  {
    if acts != [] {
      ExecStaysWithin(acts[1..], Apply(acts[0], s));
    }
  }

  lemma AppendingSupplies(circle: iset<nat>, timers: seq<Timer>, more: seq<Timer>, now: int)
    requires Supplied(circle, timers, now) && timers <= more
    ensures Supplied(circle, more, now)
  {
    var i :| 0 <= i < |timers| && timers[i].due <= now && timers[i].cb in circle;
    assert more[i] == timers[i];
  }

  /** With a free slot the first arming is accepted. */
  lemma {:induction false} ExecSupplies(circle: iset<nat>, acts: seq<Action>, s: State)
    requires |s.timers| < MAX_TIMERS && TakesNoTime(acts) && StaysIn(circle, FirstArming(acts))
    ensures Supplied(circle, Exec(acts, s).timers, s.now)
    decreases |acts|
  {
    var next := Apply(acts[0], s);
    if acts[0].PostAfter? {
      assert next.timers[|s.timers|].cb == acts[0].cb;
      ExecOnlyAppends(acts[1..], next);
      AppendingSupplies(circle, next.timers, Exec(acts, s).timers, s.now);
    } else {
      assert forall k :: 0 <= k < |acts[1..]| ==> acts[1..][k] == acts[k + 1];
      ExecSupplies(circle, acts[1..], next);
    }
  }

  /** The timer that fires is of the circle, and arms its successor, or another due one of the circle stays. */
  lemma FireFirstSupplies(p: Program, circle: iset<nat>, s: State)
    requires Still(p) && Circles(p, circle) && Supplied(circle, s.timers, s.now)
    requires |s.timers| <= MAX_TIMERS && !Quiet(s, s.now)
    ensures var r := FireFirst(p, s, s.now);
            r.now == s.now && Supplied(circle, r.timers, s.now) && |r.timers| <= MAX_TIMERS
  {
    var e, acts := Erased(s, s.now), p(NextTimer(s, s.now).cb);
    ExecStaysWithin(acts, e);
    ExecIsInstant(acts, e);
    if NextTimer(s, s.now).cb in circle {
      hide Supplied, Exec, TakesNoTime;
      ExecSupplies(circle, acts, e);
    } else {
      ErasingSupplies(circle, s);
      ExecOnlyAppends(acts, e);
      hide Supplied, Exec;
      AppendingSupplies(circle, e.timers, Exec(acts, e).timers, s.now);
    }
  }

  lemma ErasingSupplies(circle: iset<nat>, s: State)
    requires Supplied(circle, s.timers, s.now) && !Quiet(s, s.now) && NextTimer(s, s.now).cb !in circle
    ensures Supplied(circle, Erased(s, s.now).timers, s.now)
  {
    var i :| 0 <= i < |s.timers| && s.timers[i].due <= s.now && s.timers[i].cb in circle;
    var f := FirstDue(s.timers, s.now);
    assert i != f;
    assert Erased(s, s.now).timers[if i < f then i else i - 1] == s.timers[i];
  }

  lemma SuppliedIsNotQuiet(circle: iset<nat>, s: State)
    requires Supplied(circle, s.timers, s.now)
    ensures !Quiet(s, s.now)
  {
  }

  lemma {:induction false} CircleNeverQuiet(p: Program, circle: iset<nat>, s: State, n: nat)
    requires Still(p) && Circles(p, circle) && Supplied(circle, s.timers, s.now) && |s.timers| <= MAX_TIMERS
    ensures !Quiet(Fire(p, s, s.now, n), s.now)
    decreases n
  {
    hide Circles, Supplied, FireFirst, Quiet, Still;
    SuppliedIsNotQuiet(circle, s);
    if n > 0 {
      FireFirstSupplies(p, circle, s);
      CircleNeverQuiet(p, circle, FireFirst(p, s, s.now), n - 1);
    }
  }

  /** The firing loop never ends, whatever else is in the table and whatever is refused. */
  lemma CircleNeverSettles(p: Program, circle: iset<nat>, s: State)
    requires Still(p) && Circles(p, circle) && Supplied(circle, s.timers, s.now) && |s.timers| <= MAX_TIMERS
    ensures !Settles(p, s, s.now)
  {
    forall n: nat
      ensures !Quiet(Fire(p, s, s.now, n), s.now)
    {
      CircleNeverQuiet(p, circle, s, n);
    }
  }

  /** Every callback arms callback 0 again, at once. */
  function Rearming(cb: nat): seq<Action> {
    [PostAfter(0, 0)]
  }

  /** The plainest case. */
  lemma ZeroDelayNeverSettles(s: State)
    requires |s.timers| <= MAX_TIMERS
    ensures Settles(Rearming, s, s.now) <==> Quiet(s, s.now)
  {
    var all := iset cb: nat | Rearming(cb) != [];
    if Quiet(s, s.now) {
      assert Fire(Rearming, s, s.now, 0) == s;
    } else {
      var i := FirstDue(s.timers, s.now);
      assert s.timers[i].cb in all;
      CircleNeverSettles(Rearming, all, s);
    }
  }

  /** The same, by a callback that takes a moment before it arms. */
  function Pausing(cb: nat): seq<Action> {
    [Elapse(1), PostAfter(0, 0)]
  }

  /** On a clock that moves meanwhile the loop does end: by the time that was read, the new timer is not due. */
  lemma MovingClockEndsCircle(s: State)
    requires |s.timers| == 1 && s.timers[0].due <= s.now
    ensures !Ends(Pausing, s.timers[0].cb) && Settles(Pausing, s, s.now)
  {
    forall n: nat
      ensures !EndsWithin(Pausing, s.timers[0].cb, n)
    {
      PausingIsEndless(s.timers[0].cb, n);
    }
    var e := Erased(s, s.now);
    var later := Apply(Elapse(1), e);
    var r := FireFirst(Pausing, s, s.now);
    assert r == Apply(PostAfter(0, 0), later) by {
      assert Pausing(s.timers[0].cb)[1..] == [PostAfter(0, 0)];
      ExecOne(PostAfter(0, 0), later);
    }
    assert Quiet(Fire(Pausing, r, s.now, 0), s.now);
    assert Quiet(Fire(Pausing, s, s.now, 1), s.now);
  }

  lemma {:induction false} PausingIsEndless(cb: nat, n: nat)
    ensures !EndsWithin(Pausing, cb, n)
    decreases n
  {
    if n > 0 {
      PausingIsEndless(0, n - 1);
      assert AtOnce(Pausing(cb)[1]);
    }
  }

  // ---- The chains alone decide, when only first armings are at once ----

  /** An arming at once is the first arming of its callback; later timers may be armed behind it. */
  ghost predicate ArmsAtOnceFirst(p: Program) {
    forall cb: nat, i, j :: 0 <= i < j < |p(cb)| ==> !(p(cb)[i].PostAfter? && AtOnce(p(cb)[j]))
  }

  lemma {:induction false} FirstArmingAt(acts: seq<Action>) returns (i: nat)
    ensures FirstArming(acts).Some? ==> i < |acts| && acts[i].PostAfter? && FirstArming(acts) == Some(acts[i])
    ensures FirstArming(acts).Some? ==> forall j :: 0 <= j < i ==> !acts[j].PostAfter?
    ensures FirstArming(acts).None? ==> forall j :: 0 <= j < |acts| ==> !acts[j].PostAfter?
    decreases |acts|
  {
    i := 0;
    if acts != [] && !acts[0].PostAfter? {
      i := FirstArmingAt(acts[1..]);
      assert forall j :: 0 < j < |acts| ==> acts[j] == acts[1..][j - 1];
      i := i + 1;
    }
  }

  ghost function Endless(p: Program): iset<nat> {
    iset cb: nat | !Ends(p, cb)
  }

  /** Then the callbacks with an endless chain form a circle. */
  lemma EndlessCircles(p: Program)
    requires ArmsAtOnceFirst(p)
    ensures Circles(p, Endless(p))
  {
    forall cb: nat | cb in Endless(p)
      ensures StaysIn(Endless(p), FirstArming(p(cb)))
    {
      EndlessArmsEndless(p, cb);
    }
  }

  lemma EndlessArmsEndless(p: Program, cb: nat)
    requires ArmsAtOnceFirst(p) && !Ends(p, cb)
    ensures var a := FirstArming(p(cb)); a.Some? && AtOnce(a.value) && !Ends(p, a.value.cb)
  {
    var i := FirstArmingAt(p(cb));
    var a := FirstArming(p(cb));
    if a.None? || !AtOnce(a.value) {
      assert EndsWithin(p, cb, 1);
    } else if Ends(p, a.value.cb) {
      var n: nat :| EndsWithin(p, a.value.cb, n);
      assert EndsWithin(p, cb, n + 1);
    }
  }

  /** The firing loop ends if and only if the chain of every due timer does. */
  lemma SettlesIff(p: Program, s: State)
    requires Still(p) && ArmsAtOnceFirst(p) && |s.timers| <= MAX_TIMERS
    ensures Settles(p, s, s.now) <==> DueEnd(p, s, s.now)
  {
    if DueEnd(p, s, s.now) {
      DueEndSettles(p, s, s.now);
    } else {
      EndlessCircles(p);
      CircleNeverSettles(p, Endless(p), s);
    }
  }

  lemma {:induction false} DrainStaysWithin(p: Program, s: State, k: nat)
    requires |s.timers| <= MAX_TIMERS && k <= |s.immediate|
    ensures |Drain(p, s, k).timers| <= MAX_TIMERS
    decreases k
  {
    hide Exec;
    if k > 0 {
      ExecStaysWithin(p(s.immediate[0]), Popped(s));
      RunFrontRunsOne(p, s);
      DrainStaysWithin(p, RunFront(p, s), k - 1);
    }
  }

  /** RunOnce returns if and only if it finds no endless chain due once the queue is drained. */
  lemma ReturnsIff(p: Program, s: State)
    requires Still(p) && ArmsAtOnceFirst(p) && |s.timers| <= MAX_TIMERS
    ensures Returns(p, s) <==> DueEnd(p, Drained(p, s), Drained(p, s).now)
  {
    DrainStaysWithin(p, s, |s.immediate|);
    SettlesIff(p, Drained(p, s));
  }

  /** RunOnce returns from every state if and only if no callback starts an endless chain. */
  lemma AlwaysReturnsIff(p: Program)
    requires Still(p) && ArmsAtOnceFirst(p)
    ensures (forall s: State :: |s.timers| <= MAX_TIMERS ==> Returns(p, s)) <==> (forall cb: nat :: Ends(p, cb))
  {
    hide Ends, Returns, Still;
    if forall cb: nat :: Ends(p, cb) {
      forall s: State | |s.timers| <= MAX_TIMERS
        ensures Returns(p, s)
      {
        ReturnsIff(p, s);
      }
    } else {
      var cb: nat :| !Ends(p, cb);
      var s := State([], [Timer(0, cb, 0)], 0, true, [], [], [], []);
      assert Drained(p, s) == s;
      assert s.timers[0].cb == cb;
      ReturnsIff(p, s);
      assert |s.timers| <= MAX_TIMERS;
    }
  }

  // ---- With several armings a full table can break a circle ----

  /** Callback 0 arms a later timer, and then itself at once. */
  function Crowding(cb: nat): seq<Action> {
    if cb == 0 then [PostAfter(1, 1), PostAfter(0, 0)] else []
  }

  lemma {:induction false} CrowdingIsEndless(n: nat)
    ensures !EndsWithin(Crowding, 0, n)
  {
    if n > 0 {
      CrowdingIsEndless(n - 1);
      assert AtOnce(Crowding(0)[1]);
    }
  }

  /** Its chain is endless, but in a table without another free slot the second arming is refused and the loop ends. */
  lemma FullTableBreaksCircle(s: State)
    requires |s.timers| == MAX_TIMERS && s.timers[0].due <= s.now && s.timers[0].cb == 0
    requires forall i :: 1 <= i < |s.timers| ==> s.now < s.timers[i].due
    ensures !Ends(Crowding, 0) && Settles(Crowding, s, s.now)
  {
    forall n: nat
      ensures !EndsWithin(Crowding, 0, n)
    {
      CrowdingIsEndless(n);
    }
    var e := Erased(s, s.now);
    var later := Apply(PostAfter(1, 1), e);
    assert FireFirst(Crowding, s, s.now) == later by {
      assert NextTimer(s, s.now) == s.timers[0];
      assert Crowding(0)[1..] == [PostAfter(0, 0)];
      assert |later.timers| == MAX_TIMERS;
      ExecOne(PostAfter(0, 0), later);
    }
    assert Quiet(later, s.now);
    assert Quiet(Fire(Crowding, later, s.now, 0), s.now);
    assert Quiet(Fire(Crowding, s, s.now, 1), s.now);
  }

  // ---- With several armings at once, in a table that has room ----

  /** Callback 0 arms a callback that does nothing, and then itself, both at once. */
  function Forking(cb: nat): seq<Action> {
    if cb == 0 then [PostAfter(0, 1), PostAfter(0, 0)] else []
  }

  /** A table of one or two due timers, callback 0 last. */
  predicate Forked(s: State) {
    && 1 <= |s.timers| <= 2 && s.timers[|s.timers| - 1].cb == 0 && (|s.timers| == 2 ==> s.timers[0].cb == 1)
    && forall i :: 0 <= i < |s.timers| ==> s.timers[i].due <= s.now
  }

  lemma ForkStays(s: State)
    requires Forked(s)
    ensures !Quiet(s, s.now) && Accepts(Forking(NextTimer(s, s.now).cb), Erased(s, s.now))
    ensures Forked(FireFirst(Forking, s, s.now)) && FireFirst(Forking, s, s.now).now == s.now
  {
    var e := Erased(s, s.now);
    assert NextTimer(s, s.now) == s.timers[0];
    if |s.timers| == 1 {
      var one := Apply(PostAfter(0, 1), e);
      assert Forking(0)[1..] == [PostAfter(0, 0)];
      assert Accepts([PostAfter(0, 0)], one) && Accepts(Forking(0), e);
      ExecOne(PostAfter(0, 0), one);
      assert FireFirst(Forking, s, s.now) == Apply(PostAfter(0, 0), one);
    } else {
      assert FireFirst(Forking, s, s.now) == e;
    }
  }

  lemma {:induction false} ForkNeverRefused(s: State, n: nat)
    requires Forked(s)
    ensures NoneRefused(Forking, s, s.now, n)
    decreases n
  {
    hide Forked, Quiet, FireFirst, Accepts;
    if n > 0 {
      ForkStays(s);
      ForkNeverRefused(FireFirst(Forking, s, s.now), n - 1);
    }
  }

  lemma {:induction false} ForkIsEndless(n: nat)
    ensures !EndsWithin(Forking, 0, n)
  {
    if n > 0 {
      ForkIsEndless(n - 1);
      assert AtOnce(Forking(0)[1]);
    }
  }

  /** Its endless chain runs through a second arming, but nothing is ever refused, so the loop never ends. */
  lemma ForkNeverSettles(s: State)
    requires Forked(s)
    ensures !Settles(Forking, s, s.now)
  {
    forall n: nat
      ensures NoneRefused(Forking, s, s.now, n) && !EndsWithin(Forking, 0, n)
    {
      ForkNeverRefused(s, n);
      ForkIsEndless(n);
    }
    RoomySettlesIff(Forking, s);
    assert !Ends(Forking, s.timers[|s.timers| - 1].cb);
  }
}
