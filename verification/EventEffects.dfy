/**
 What a RunOnce does is what its callbacks say: the script of the callbacks it ran, one after the other, decides
 whether the loop goes on running, how much time has passed, and what has been posted and armed.
 */
module EventEffects {
  import opened EventSpec

  // ---- What a script says, apart from any loop ----

  function Time(acts: seq<Action>): nat {
    if acts == [] then 0 else (if acts[0].Elapse? then acts[0].time else 0) + Time(acts[1..])
  }

  function Posts(acts: seq<Action>): seq<nat> {
    if acts == [] then [] else (if acts[0].Post? then [acts[0].cb] else []) + Posts(acts[1..])
  }

  datatype Arming = Arming(due: int, cb: nat)

  /** The armings of a script that starts at now: each timer is due its delay after the moment of arming. */
  function Armings(acts: seq<Action>, now: int): seq<Arming> {
    if acts == [] then []
    else if acts[0].PostAfter? then [Arming(now + acts[0].delay, acts[0].cb)] + Armings(acts[1..], now)
    else if acts[0].Elapse? then Armings(acts[1..], now + acts[0].time)
    else Armings(acts[1..], now)
  }

  /** The callbacks in a row. */
  function Script(p: Program, cbs: seq<nat>): seq<Action> {
    if cbs == [] then [] else p(cbs[0]) + Script(p, cbs[1..])
  }

  lemma Regroup<T>(a: seq<T>, b: seq<T>, c: seq<T>)
    ensures a + (b + c) == a + b + c
  {
  }

  /** The first action and the rest of a script. */
  lemma SaysFirst(a: Action, rest: seq<Action>, now: int)
    ensures Stop in [a] + rest <==> a == Stop || Stop in rest
    ensures Time([a] + rest) == (if a.Elapse? then a.time else 0) + Time(rest)
    ensures Posts([a] + rest) == if a.Post? then [a.cb] + Posts(rest) else Posts(rest)
    ensures !a.PostAfter? && !a.Elapse? ==> Armings([a] + rest, now) == Armings(rest, now)
    ensures a.PostAfter? ==> Armings([a] + rest, now) == [Arming(now + a.delay, a.cb)] + Armings(rest, now)
    ensures a.Elapse? ==> Armings([a] + rest, now) == Armings(rest, now + a.time)
  {
    assert ([a] + rest)[1..] == rest;
    assert [] + Posts(rest) == Posts(rest);
  }

  lemma {:induction false} TimeAdds(a: seq<Action>, b: seq<Action>)
    ensures Time(a + b) == Time(a) + Time(b)
    decreases |a|
  {
    if a == [] {
      assert a + b == b;
    } else {
      assert (a + b)[1..] == a[1..] + b;
      TimeAdds(a[1..], b);
    }
  }

  lemma {:induction false} PostsAdd(a: seq<Action>, b: seq<Action>)
    ensures Posts(a + b) == Posts(a) + Posts(b)
    decreases |a|
  {
    if a == [] {
      assert a + b == b;
    } else {
      hide Posts;
      var first, rest := a[0], a[1..];
      assert a == [first] + rest && a + b == [first] + (rest + b);
      SaysFirst(first, rest, 0);
      SaysFirst(first, rest + b, 0);
      PostsAdd(rest, b);
      if first.Post? {
        Regroup([first.cb], Posts(rest), Posts(b));
      }
    }
  }

  lemma {:induction false} ArmingsAdd(a: seq<Action>, b: seq<Action>, now: int)
    ensures Armings(a + b, now) == Armings(a, now) + Armings(b, now + Time(a))
    decreases |a|
  {
    if a == [] {
      assert a + b == b;
    } else {
      assert (a + b)[1..] == a[1..] + b;
      ArmingsAdd(a[1..], b, if a[0].Elapse? then now + a[0].time else now);
    }
  }

  lemma {:induction false} ScriptAdds(p: Program, a: seq<nat>, b: seq<nat>)
    ensures Script(p, a + b) == Script(p, a) + Script(p, b)
    decreases |a|
  {
    if a == [] {
      assert a + b == b;
    } else {
      assert (a + b)[1..] == a[1..] + b;
      ScriptAdds(p, a[1..], b);
    }
  }

  lemma {:induction false} ScriptHas(p: Program, cbs: seq<nat>, a: Action)
    ensures a in Script(p, cbs) <==> exists i :: 0 <= i < |cbs| && a in p(cbs[i])
    decreases |cbs|
  {
    if cbs != [] {
      ScriptHas(p, cbs[1..], a);
      forall i | 0 <= i < |cbs| && a in p(cbs[i])
        ensures i == 0 || a in p(cbs[1..][i - 1])
      {
      }
    }
  }

  // ---- One callback, exactly ----

  /** What still fits behind used entries. */
  function Fitting<T>(offered: seq<T>, used: nat, room: nat): seq<T> {
    if room <= used then [] else if |offered| <= room - used then offered else offered[..room - used]
  }

  lemma FittingNext<T>(x: T, rest: seq<T>, used: nat, room: nat)
    ensures Fitting([x] + rest, used, room) == if room <= used then [] else [x] + Fitting(rest, used + 1, room)
  {
  }

  /** Timers for these armings, numbered from serial on. */
  function Numbered(armings: seq<Arming>, serial: nat): (r: seq<Timer>)
    ensures |r| == |armings|
  {
    seq(|armings|, i requires 0 <= i < |armings| => Timer(armings[i].due, armings[i].cb, serial + i))
  }

  lemma NumberedNext(a: Arming, rest: seq<Arming>, serial: nat)
    ensures Numbered([a] + rest, serial) == [Timer(a.due, a.cb, serial)] + Numbered(rest, serial + 1)
  {
  }

  /** The loop with these posts and timers more, after so much time; on says whether nothing has stopped it. */
  function Grown(s: State, posts: seq<nat>, timers: seq<Timer>, time: nat, on: bool): State {
    State(s.immediate + posts, s.timers + timers, s.now + time, s.running && on,
          s.posted + posts, s.ran, s.armed + timers, s.fired)
  }

  /** Everything a callback with this script does to the loop. */
  function Effect(acts: seq<Action>, s: State): State {
    Grown(s, Fitting(Posts(acts), |s.immediate|, 16),
          Numbered(Fitting(Armings(acts, s.now), |s.timers|, 8), |s.armed|), Time(acts), Stop !in acts)
  }

  lemma EffectOfNothing(s: State)
    ensures Effect([], s) == s
  {
    assert s.immediate + [] == s.immediate && s.posted + [] == s.posted;
    assert s.timers + [] == s.timers && s.armed + [] == s.armed;
  }

  lemma FittingNone<T>(offered: seq<T>, used: nat, room: nat)
    requires room <= used
    ensures Fitting(offered, used, room) == []
  {
  }

  lemma GrownByPost(s: State, cb: nat, posts: seq<nat>, timers: seq<Timer>, time: nat, on: bool)
    ensures Grown(s, [cb] + posts, timers, time, on)
         == Grown(s.(immediate := s.immediate + [cb], posted := s.posted + [cb]), posts, timers, time, on)
  {
    Regroup(s.immediate, [cb], posts);
    Regroup(s.posted, [cb], posts);
  }

  lemma GrownByTimer(s: State, t: Timer, posts: seq<nat>, timers: seq<Timer>, time: nat, on: bool)
    ensures Grown(s, posts, [t] + timers, time, on)
         == Grown(s.(timers := s.timers + [t], armed := s.armed + [t]), posts, timers, time, on)
  {
    Regroup(s.timers, [t], timers);
    Regroup(s.armed, [t], timers);
  }

  lemma EffectOfPost(cb: nat, rest: seq<Action>, s: State)
    ensures Effect([Post(cb)] + rest, s) == Effect(rest, Apply(Post(cb), s))
  {
    hide Fitting, Numbered, Time, Posts, Armings, Grown;
    SaysFirst(Post(cb), rest, s.now);
    FittingNext(cb, Posts(rest), |s.immediate|, 16);
    if |s.immediate| >= 16 {
      FittingNone(Posts(rest), |s.immediate|, 16);
    } else {
      GrownByPost(s, cb, Fitting(Posts(rest), |s.immediate| + 1, 16),
                  Numbered(Fitting(Armings(rest, s.now), |s.timers|, 8), |s.armed|), Time(rest), Stop !in rest);
    }
  }

  lemma EffectOfPostAfter(delay: int, cb: nat, rest: seq<Action>, s: State)
    ensures Effect([PostAfter(delay, cb)] + rest, s) == Effect(rest, Apply(PostAfter(delay, cb), s))
  {
    hide Fitting, Numbered, Time, Posts, Armings, Grown;
    var armings := Armings(rest, s.now);
    SaysFirst(PostAfter(delay, cb), rest, s.now);
    FittingNext(Arming(s.now + delay, cb), armings, |s.timers|, 8);
    if |s.timers| >= 8 {
      FittingNone(armings, |s.timers|, 8);
    } else {
      var later := Fitting(armings, |s.timers| + 1, 8);
      NumberedNext(Arming(s.now + delay, cb), later, |s.armed|);
      GrownByTimer(s, Timer(s.now + delay, cb, |s.armed|), Fitting(Posts(rest), |s.immediate|, 16),
                   Numbered(later, |s.armed| + 1), Time(rest), Stop !in rest);
    }
  }

  lemma EffectOfOthers(a: Action, rest: seq<Action>, s: State)
    requires a.Stop? || a.Elapse?
    ensures Effect([a] + rest, s) == Effect(rest, Apply(a, s))
  {
    hide Fitting, Numbered, Time, Posts, Armings;
    SaysFirst(a, rest, s.now);
  }

  /**
   A callback posts and arms in its own order until the queue of 16 or the table of 8 is full; what comes then is
   refused and nothing else about it is.
   */
  lemma {:induction false} CallbackDoes(acts: seq<Action>, s: State)
    ensures Exec(acts, s) == Effect(acts, s)
    decreases |acts|
  {
    hide Effect;
    if acts == [] {
      EffectOfNothing(s);
    } else {
      var a, rest := acts[0], acts[1..];
      assert acts == [a] + rest;
      CallbackDoes(rest, Apply(a, s));
      match a
      case Post(cb) => EffectOfPost(cb, rest, s);
      case PostAfter(delay, cb) => EffectOfPostAfter(delay, cb, rest, s);
      case _ => EffectOfOthers(a, rest, s);
    }
  }

  // ---- Many callbacks ----

  /** Some of the things offered, in their order. */
  ghost predicate Among<T>(some: seq<T>, offered: seq<T>) {
    if offered == [] then some == []
    else Among(some, offered[1..]) || (some != [] && some[0] == offered[0] && Among(some[1..], offered[1..]))
  }

  lemma {:induction false} AmongTogether<T>(a: seq<T>, x: seq<T>, b: seq<T>, y: seq<T>)
    requires Among(a, x) && Among(b, y)
    ensures Among(a + b, x + y)
    decreases |x|
  {
    if x == [] {
      assert a + b == b && x + y == y;
    } else {
      assert (x + y)[1..] == x[1..] + y;
      if Among(a, x[1..]) {
        AmongTogether(a, x[1..], b, y);
      } else {
        assert (a + b)[1..] == a[1..] + b;
        AmongTogether(a[1..], x[1..], b, y);
      }
    }
  }

  lemma {:induction false} AmongItself<T>(a: seq<T>)
    ensures Among(a, a)
    decreases |a|
  {
    if a != [] {
      AmongItself(a[1..]);
    }
  }

  lemma {:induction false} AmongIsNoLonger<T>(a: seq<T>, x: seq<T>)
    requires Among(a, x)
    ensures |a| <= |x| && (|a| == |x| ==> a == x)
    decreases |x|
  {
    if x != [] {
      if Among(a, x[1..]) {
        AmongIsNoLonger(a, x[1..]);
      } else {
        AmongIsNoLonger(a[1..], x[1..]);
        assert a == [a[0]] + a[1..] && x == [x[0]] + x[1..];
      }
    }
  }

  lemma {:induction false} BeginningIsAmong<T>(x: seq<T>, k: nat)
    requires k <= |x|
    ensures Among(x[..k], x)
    decreases k
  {
    if k == 0 {
      NothingIsAmong(x);
    } else {
      assert x[..k][1..] == x[1..][..k - 1];
      BeginningIsAmong(x[1..], k - 1);
    }
  }

  lemma {:induction false} NothingIsAmong<T>(x: seq<T>)
    ensures Among([], x)
    decreases |x|
  {
    if x != [] {
      NothingIsAmong(x[1..]);
    }
  }

  /**
   A log has grown by some of the things offered, and by all of them when they fit: used is how many places were
   taken before, used' afterwards.
   */
  ghost predicate Took<T>(log: seq<T>, log': seq<T>, offered: seq<T>, used: nat, used': nat, room: nat) {
    && log <= log' && Among(log'[|log|..], offered)
    && used' <= used + |log'| - |log|
    && (used + |offered| <= room ==> log' == log + offered)
  }

  lemma TookBoth<T>(a: seq<T>, b: seq<T>, c: seq<T>, x: seq<T>, y: seq<T>, u: nat, v: nat, w: nat, room: nat)
    requires Took(a, b, x, u, v, room) && Took(b, c, y, v, w, room)
    ensures Took(a, c, x + y, u, w, room)
  {
    hide Among;
    AmongIsNoLonger(b[|a|..], x);
    AmongTogether(b[|a|..], x, c[|b|..], y);
    assert c[|a|..] == b[|a|..] + c[|b|..];
    if u + |x + y| <= room {
      assert c == a + x + y == a + (x + y);
    }
  }

  lemma TookNothing<T>(log: seq<T>, used: nat, used': nat, room: nat)
    requires used' <= used
    ensures Took(log, log, [], used, used', room)
  {
    assert log + [] == log;
  }

  lemma TookFitting<T>(log: seq<T>, offered: seq<T>, used: nat, room: nat)
    ensures var some := Fitting(offered, used, room); Took(log, log + some, offered, used, used + |some|, room)
  {
    hide Among;
    var some := Fitting(offered, used, room);
    assert some == offered[..|some|];
    BeginningIsAmong(offered, |some|);
    assert (log + some)[|log|..] == some;
  }

  /** What the timers were armed for. */
  function Asked(timers: seq<Timer>): seq<Arming> {
    seq(|timers|, i requires 0 <= i < |timers| => Arming(timers[i].due, timers[i].cb))
  }

  lemma AskedOf(timers: seq<Timer>, armings: seq<Arming>, serial: nat)
    ensures Asked(timers + Numbered(armings, serial)) == Asked(timers) + armings
  {
  }

  /** From s to s' the loop has done what the script says, and nothing else. */
  ghost predicate Did(s: State, s': State, script: seq<Action>) {
    && s'.running == (s.running && Stop !in script)
    && s'.now == s.now + Time(script)
    && Took(s.posted, s'.posted, Posts(script), |s.immediate|, |s'.immediate|, 16)
    && Took(Asked(s.armed), Asked(s'.armed), Armings(script, s.now), |s.timers|, |s'.timers|, 8)
  }

  lemma DidBoth(s: State, t: State, u: State, a: seq<Action>, b: seq<Action>)
    requires Did(s, t, a) && Did(t, u, b)
    ensures Did(s, u, a + b)
  {
    hide Took, Asked, Time, Posts, Armings;
    TimeAdds(a, b);
    PostsAdd(a, b);
    ArmingsAdd(a, b, s.now);
    TookBoth(s.posted, t.posted, u.posted, Posts(a), Posts(b), |s.immediate|, |t.immediate|, |u.immediate|, 16);
    TookBoth(Asked(s.armed), Asked(t.armed), Asked(u.armed), Armings(a, s.now), Armings(b, t.now),
             |s.timers|, |t.timers|, |u.timers|, 8);
  }

  /** Taking a callback from the queue or a timer from the table does nothing of the kind. */
  lemma DidNothing(s: State, s': State)
    requires s'.running == s.running && s'.now == s.now && s'.posted == s.posted && s'.armed == s.armed
    requires |s'.immediate| <= |s.immediate| && |s'.timers| <= |s.timers|
    ensures Did(s, s', [])
  {
    hide Took, Asked;
    TookNothing(s.posted, |s.immediate|, |s'.immediate|, 16);
    TookNothing(Asked(s.armed), |s.timers|, |s'.timers|, 8);
  }

  lemma CallbackDid(s: State, acts: seq<Action>)
    ensures Did(s, Exec(acts, s), acts)
  {
    hide Took, Asked, Fitting, Numbered, Time, Posts, Armings, Exec;
    CallbackDoes(acts, s);
    TookFitting(s.posted, Posts(acts), |s.immediate|, 16);
    var armings := Fitting(Armings(acts, s.now), |s.timers|, 8);
    AskedOf(s.armed, armings, |s.armed|);
    TookFitting(Asked(s.armed), Armings(acts, s.now), |s.timers|, 8);
  }

  lemma RunFrontDid(p: Program, s: State)
    requires s.immediate != []
    ensures Did(s, RunFront(p, s), p(s.immediate[0]))
  {
    hide Did, Exec;
    var acts := p(s.immediate[0]);
    DidNothing(s, Popped(s));
    CallbackDid(Popped(s), acts);
    DidBoth(s, Popped(s), RunFront(p, s), [], acts);
    assert [] + acts == acts;
  }

  lemma FireFirstDid(p: Program, s: State, now: int)
    requires !Quiet(s, now)
    ensures Did(s, FireFirst(p, s, now), p(NextTimer(s, now).cb))
  {
    hide Did, Exec, FirstDue;
    var acts := p(NextTimer(s, now).cb);
    DidNothing(s, Erased(s, now));
    CallbackDid(Erased(s, now), acts);
    DidBoth(s, Erased(s, now), FireFirst(p, s, now), [], acts);
    assert [] + acts == acts;
  }

  lemma {:induction false} DrainDid(p: Program, s: State, k: nat)
    requires k <= |s.immediate|
    ensures Did(s, Drain(p, s, k), Script(p, s.immediate[..k]))
    decreases k
  {
    hide Did, RunFront;
    if k == 0 {
      DidNothing(s, s);
    } else {
      var r, front := RunFront(p, s), p(s.immediate[0]);
      RunFrontRunsOne(p, s);
      RunFrontDid(p, s);
      DrainDid(p, r, k - 1);
      assert s.immediate[..k][1..] == r.immediate[..k - 1];
      DidBoth(s, r, Drain(p, s, k), front, Script(p, r.immediate[..k - 1]));
    }
  }

  /** The callbacks of timers. */
  function Callbacks(timers: seq<Timer>): seq<nat> {
    seq(|timers|, i requires 0 <= i < |timers| => timers[i].cb)
  }

  lemma {:induction false} FireDid(p: Program, s: State, now: int, n: nat)
    ensures var r := Fire(p, s, now, n);
            s.fired <= r.fired && Did(s, r, Script(p, Callbacks(r.fired[|s.fired|..])))
    decreases n
  {
    hide Did, FireFirst, Quiet;
    if n == 0 || Quiet(s, now) {
      DidNothing(s, s);
    } else {
      var t, r := FireFirst(p, s, now), Fire(p, s, now, n);
      var first := NextTimer(s, now);
      FireFirstFiresOne(p, s, now);
      FireFirstDid(p, s, now);
      FireDid(p, t, now, n - 1);
      var cbs := Callbacks(r.fired[|s.fired|..]);
      assert cbs[0] == first.cb && cbs[1..] == Callbacks(r.fired[|t.fired|..]);
      DidBoth(s, t, r, p(first.cb), Script(p, cbs[1..]));
    }
  }

  /** The callbacks that the RunOnce from s to r has run: the batch that was queued, then the timers it fired. */
  function RunBy(s: State, r: State): seq<nat> {
    s.immediate + if s.fired <= r.fired then Callbacks(r.fired[|s.fired|..]) else []
  }

  lemma {:induction false} DrainFiresNone(p: Program, s: State, k: nat)
    requires k <= |s.immediate|
    ensures Drain(p, s, k).fired == s.fired
    decreases k
  {
    hide RunFront;
    if k > 0 {
      RunFrontRunsOne(p, s);
      DrainFiresNone(p, RunFront(p, s), k - 1);
    }
  }

  /**
   A RunOnce does what the callbacks say that it runs, one after the other: it posts and arms what they ask for, in
   that order and for the times they ask for, all of it when queue and table have room for all of it.
   */
  lemma OnceDid(p: Program, s: State)
    requires Returns(p, s)
    ensures var r := Once(p, s);
            s.fired <= r.fired && Did(s, r, Script(p, RunBy(s, r)))
  {
    hide Did, Quiet, Fire, Drain;
    var d, r := Drained(p, s), Once(p, s);
    var n: nat :| Quiet(Fire(p, d, d.now, n), d.now) && Settled(p, d, d.now) == Fire(p, d, d.now, n);
    assert s.immediate[..|s.immediate|] == s.immediate;
    DrainDid(p, s, |s.immediate|);
    DrainFiresNone(p, s, |s.immediate|);
    FireDid(p, d, d.now, n);
    var fired := Callbacks(r.fired[|s.fired|..]);
    DidBoth(s, d, r, Script(p, s.immediate), Script(p, fired));
    ScriptAdds(p, s.immediate, fired);
  }

  /** Draining leaves the loop running exactly if none of the callbacks it ran says Stop. */
  lemma DrainRunsOnIff(p: Program, s: State, k: nat)
    requires k <= |s.immediate|
    ensures Drain(p, s, k).running <==> s.running && forall i :: 0 <= i < k ==> Stop !in p(s.immediate[i])
  {
    hide Drain, Took;
    DrainDid(p, s, k);
    ScriptHas(p, s.immediate[..k], Stop);
    assert forall i :: 0 <= i < k ==> s.immediate[..k][i] == s.immediate[i];
  }

  /** So does RunOnce, with the timers it fired. */
  lemma OnceRunsOnIff(p: Program, s: State)
    requires Returns(p, s)
    ensures var r := Once(p, s);
            && |s.fired| <= |r.fired|
            && (r.running <==>
                && s.running && (forall i :: 0 <= i < |s.immediate| ==> Stop !in p(s.immediate[i]))
                && forall i :: |s.fired| <= i < |r.fired| ==> Stop !in p(r.fired[i].cb))
  {
    hide Once, Took;
    OnceDid(p, s);
    var r := Once(p, s);
    var n, m := |s.immediate|, |s.fired|;
    var cbs := RunBy(s, r);
    ScriptHas(p, cbs, Stop);
    assert forall i :: 0 <= i < n ==> cbs[i] == s.immediate[i];
    assert forall i :: m <= i < |r.fired| ==> cbs[n + i - m] == r.fired[i].cb;
  }

  lemma TookAll<T>(log: seq<T>, log': seq<T>, offered: seq<T>, used: nat, used': nat, room: nat)
    requires Took(log, log', offered, used, used', room)
    requires used + |offered| <= room || |log'| == |log| + |offered|
    ensures log' == log + offered
  {
    hide Among;
    AmongIsNoLonger(log'[|log|..], offered);
  }

  /** When nothing is refused, or there is room for everything, all that is asked for is queued or armed, in order. */
  lemma OnceTakesAll(p: Program, s: State)
    requires Returns(p, s)
    ensures var r := Once(p, s);
            var script := Script(p, RunBy(s, r));
            var posts, armings := Posts(script), Armings(script, s.now);
            && (|s.immediate| + |posts| <= 16 || |r.posted| == |s.posted| + |posts| ==> r.posted == s.posted + posts)
            && (|s.timers| + |armings| <= 8 || |r.armed| == |s.armed| + |armings| ==>
                  Asked(r.armed) == Asked(s.armed) + armings)
  {
    hide Once, Script, Took, Posts, Armings, Time;
    OnceDid(p, s);
    var r := Once(p, s);
    var script := Script(p, RunBy(s, r));
    var posts, armings := Posts(script), Armings(script, s.now);
    if |s.immediate| + |posts| <= 16 || |r.posted| == |s.posted| + |posts| {
      TookAll(s.posted, r.posted, posts, |s.immediate|, |r.immediate|, 16);
    }
    if |s.timers| + |armings| <= 8 || |r.armed| == |s.armed| + |armings| {
      TookAll(Asked(s.armed), Asked(r.armed), armings, |s.timers|, |r.timers|, 8);
    }
  }

  // ---- Waiting ----

  /** Between two RunOnce the loop waits only with an empty queue and no timer due, and just until the soonest is. */
  lemma RestWaits(s: State)
    ensures var r := Rest(s);
            && r == s.(now := r.now)
            && (if && s.immediate == [] && s.timers != []
                   && forall i :: 0 <= i < |s.timers| ==> s.now < s.timers[i].due then
                  (forall i :: 0 <= i < |s.timers| ==> r.now <= s.timers[i].due)
                  && exists i :: 0 <= i < |s.timers| && r.now == s.timers[i].due
                else r.now == s.now)
  {
    if s.immediate == [] && s.timers != [] {
      var i := Earliest(s.timers);
      assert s.now < s.timers[i].due ==> forall j :: 0 <= j < |s.timers| ==> s.now < s.timers[j].due;
    }
  }

  /** At no moment of a run has the clock gone back. */
  lemma {:induction false} TimeNeverGoesBack(p: Program, s: State, k: nat)
    requires Goes(p, s, k)
    ensures s.now <= After(p, s, k).now
    decreases k
  {
    hide Returns, Once, Rest, Took, Idle;
    if k > 0 && s.running {
      var r := Once(p, s);
      OnceDid(p, s);
      if !Idle(r) {
        RestWaits(r);
        TimeNeverGoesBack(p, Rest(r), k - 1);
      }
    }
  }
}
