/**
 When the firing loop of RunOnce ends. The loop compares with the time that RunOnce has read, so what matters are the
 armings with no positive delay: only the timers they make can be due by that time. Immediate posts and positive delays
 play no part. That a loop ends is proved for any monotone clock; that one does not, for a clock that stands still
 while callbacks run.
 */
module EventSettling {
  import opened EventSpec
  import opened EventOrder

  predicate AtOnce(a: Action) {
    a.PostAfter? && a.delay <= 0
  }

  /** A chain of armings at once that starts with cb has at most n callbacks. */
  ghost predicate EndsWithin(p: Program, cb: nat, n: nat)
    decreases n
  {
    n > 0 && forall i :: 0 <= i < |p(cb)| && AtOnce(p(cb)[i]) ==> EndsWithin(p, p(cb)[i].cb, n - 1)
  }

  /** There is no endless such chain. */
  ghost predicate Ends(p: Program, cb: nat) {
    exists n: nat :: EndsWithin(p, cb, n)
  }

  ghost predicate AllEndWithin(p: Program, timers: seq<Timer>, now: int, n: nat) {
    forall i :: 0 <= i < |timers| && timers[i].due <= now ==> EndsWithin(p, timers[i].cb, n)
  }

  /** The callback of every due timer ends. */
  ghost predicate DueEnd(p: Program, s: State, now: int) {
    forall i :: 0 <= i < |s.timers| && s.timers[i].due <= now ==> Ends(p, s.timers[i].cb)
  }

  lemma {:induction false} EndsWithinMore(p: Program, cb: nat, n: nat, m: nat)
    requires EndsWithin(p, cb, n) && n <= m
    ensures EndsWithin(p, cb, m)
    decreases n
  {
    forall i | 0 <= i < |p(cb)| && AtOnce(p(cb)[i])
      ensures EndsWithin(p, p(cb)[i].cb, m - 1)
    {
      EndsWithinMore(p, p(cb)[i].cb, n - 1, m - 1);
    }
  }

  // ---- It ends when every chain does ----

  /** How many timers fire because of cb, along chains of at most n. */
  function Cascade(p: Program, cb: nat, n: nat): nat
    decreases n, |p(cb)| + 1
  {
    if n == 0 then 0 else 1 + CascadeOf(p, p(cb), n - 1)
  }

  function CascadeOf(p: Program, acts: seq<Action>, n: nat): nat
    decreases n + 1, |acts|
  {
    if acts == [] then 0
    else (if AtOnce(acts[0]) then Cascade(p, acts[0].cb, n) else 0) + CascadeOf(p, acts[1..], n)
  }

  ghost predicate ActsEndWithin(p: Program, acts: seq<Action>, n: nat) {
    forall i :: 0 <= i < |acts| && AtOnce(acts[i]) ==> EndsWithin(p, acts[i].cb, n)
  }

  /** A longer bound on chains that end anyway costs no more. */
  lemma {:induction false} CascadeIsFixed(p: Program, cb: nat, n: nat)
    requires EndsWithin(p, cb, n)
    ensures Cascade(p, cb, n + 1) == Cascade(p, cb, n)
    decreases n, |p(cb)| + 1
  {
    assert ActsEndWithin(p, p(cb), n - 1);
    CascadeOfIsFixed(p, p(cb), n - 1);
  }

  lemma {:induction false} CascadeOfIsFixed(p: Program, acts: seq<Action>, n: nat)
    requires ActsEndWithin(p, acts, n)
    ensures CascadeOf(p, acts, n + 1) == CascadeOf(p, acts, n)
    decreases n + 1, |acts|
  {
    hide EndsWithin;
    if acts != [] {
      assert forall i :: 0 <= i < |acts[1..]| ==> acts[1..][i] == acts[i + 1];
      if AtOnce(acts[0]) {
        CascadeIsFixed(p, acts[0].cb, n);
      }
      CascadeOfIsFixed(p, acts[1..], n);
    }
  }

  /** The timers that can still fire before the time moves. */
  function DueCascade(p: Program, timers: seq<Timer>, now: int, n: nat): nat {
    if timers == [] then 0
    else (if timers[0].due <= now then Cascade(p, timers[0].cb, n) else 0) + DueCascade(p, timers[1..], now, n)
  }

  lemma {:induction false} DueCascadeJoin(p: Program, a: seq<Timer>, b: seq<Timer>, now: int, n: nat)
    ensures DueCascade(p, a + b, now, n) == DueCascade(p, a, now, n) + DueCascade(p, b, now, n)
    decreases |a|
  {
    hide Cascade;
    if a == [] {
      assert a + b == b;
    } else {
      assert (a + b)[1..] == a[1..] + b && (a + b)[0] == a[0];
      DueCascadeJoin(p, a[1..], b, now, n);
    }
  }

  lemma ApplyCascades(p: Program, a: Action, s: State, now: int, n: nat)
    requires now <= s.now && AllEndWithin(p, s.timers, now, n) && (AtOnce(a) ==> EndsWithin(p, a.cb, n))
    ensures var r := Apply(a, s);
            && AllEndWithin(p, r.timers, now, n)
            && DueCascade(p, r.timers, now, n)
               <= DueCascade(p, s.timers, now, n) + if AtOnce(a) then Cascade(p, a.cb, n) else 0
  {
    hide Cascade, EndsWithin;
    if a.PostAfter? {
      DueCascadeJoin(p, s.timers, [Timer(s.now + a.delay, a.cb, |s.armed|)], now, n);
    }
  }

  lemma {:induction false} ExecCascades(p: Program, acts: seq<Action>, s: State, now: int, n: nat)
    requires now <= s.now && AllEndWithin(p, s.timers, now, n) && ActsEndWithin(p, acts, n)
    ensures var r := Exec(acts, s);
            && AllEndWithin(p, r.timers, now, n)
            && DueCascade(p, r.timers, now, n) <= DueCascade(p, s.timers, now, n) + CascadeOf(p, acts, n)
    decreases |acts|
  {
    hide Cascade, EndsWithin, AllEndWithin, DueCascade;
    if acts != [] {
      assert forall i :: 0 <= i < |acts[1..]| ==> acts[1..][i] == acts[i + 1];
      ApplyCascades(p, acts[0], s, now, n);
      ExecCascades(p, acts[1..], Apply(acts[0], s), now, n);
    }
  }

  /** What a callback arms at once is already counted with the callback. */
  lemma CallCascades(p: Program, cb: nat, n: nat)
    requires EndsWithin(p, cb, n)
    ensures ActsEndWithin(p, p(cb), n) && CascadeOf(p, p(cb), n) + 1 == Cascade(p, cb, n)
  {
    assert ActsEndWithin(p, p(cb), n - 1);
    forall i | 0 <= i < |p(cb)| && AtOnce(p(cb)[i])
      ensures EndsWithin(p, p(cb)[i].cb, n)
    {
      EndsWithinMore(p, p(cb)[i].cb, n - 1, n);
    }
    hide EndsWithin;
    CascadeOfIsFixed(p, p(cb), n - 1);
  }

  lemma ErasingCascades(p: Program, s: State, now: int, n: nat)
    requires !Quiet(s, now) && AllEndWithin(p, s.timers, now, n)
    ensures AllEndWithin(p, Erased(s, now).timers, now, n) && EndsWithin(p, NextTimer(s, now).cb, n)
    ensures DueCascade(p, s.timers, now, n)
         == Cascade(p, NextTimer(s, now).cb, n) + DueCascade(p, Erased(s, now).timers, now, n)
  {
    hide Cascade, EndsWithin, FirstDue;
    var i := FirstDue(s.timers, now);
    assert s.timers == s.timers[..i] + s.timers[i..];
    assert s.timers[i..][1..] == s.timers[i + 1..];
    DueCascadeJoin(p, s.timers[..i], s.timers[i..], now, n);
    DueCascadeJoin(p, s.timers[..i], s.timers[i + 1..], now, n);
  }

  /** Each turn of the firing loop takes one off. */
  lemma FireFirstCascades(p: Program, s: State, now: int, n: nat)
    requires now <= s.now && !Quiet(s, now) && AllEndWithin(p, s.timers, now, n)
    ensures var r := FireFirst(p, s, now);
            && now <= r.now && AllEndWithin(p, r.timers, now, n)
            && DueCascade(p, r.timers, now, n) < DueCascade(p, s.timers, now, n)
  {
    hide Cascade, CascadeOf, EndsWithin, AllEndWithin, ActsEndWithin, DueCascade, Exec, Quiet;
    ErasingCascades(p, s, now, n);
    CallCascades(p, NextTimer(s, now).cb, n);
    ExecCascades(p, p(NextTimer(s, now).cb), Erased(s, now), now, n);
    FireFirstFiresOne(p, s, now);
  }

  lemma {:induction false} FireSettles(p: Program, s: State, now: int, n: nat, turns: nat)
    requires now <= s.now && AllEndWithin(p, s.timers, now, n) && DueCascade(p, s.timers, now, n) <= turns
    ensures Quiet(Fire(p, s, now, turns), now)
    decreases turns
  {
    hide AllEndWithin, DueCascade, FireFirst, Quiet;
    if !Quiet(s, now) {
      FireFirstCascades(p, s, now, n);
      FireSettles(p, FireFirst(p, s, now), now, n, turns - 1);
    }
  }

  /** One bound for all due timers of a table. */
  lemma {:induction false} CommonBound(p: Program, timers: seq<Timer>, now: int) returns (n: nat)
    requires forall i :: 0 <= i < |timers| && timers[i].due <= now ==> Ends(p, timers[i].cb)
    ensures AllEndWithin(p, timers, now, n)
    decreases |timers|
  {
    hide EndsWithin;
    n := 0;
    if timers != [] {
      n := CommonBound(p, timers[1..], now);
      var m: nat := 0;
      if timers[0].due <= now {
        m :| EndsWithin(p, timers[0].cb, m);
      }
      var both := n + m;
      forall i | 0 <= i < |timers| && timers[i].due <= now
        ensures EndsWithin(p, timers[i].cb, both)
      {
        if i == 0 {
          EndsWithinMore(p, timers[0].cb, m, both);
        } else {
          assert timers[1..][i - 1] == timers[i];
          EndsWithinMore(p, timers[i].cb, n, both);
        }
      }
      n := both;
    }
  }

  /**
   The firing loop ends in any state all of whose due timers end, whatever else it holds, whatever is refused, and
   however the clock moves on from the time that was read.
   */
  lemma DueEndSettles(p: Program, s: State, now: int)
    requires now <= s.now && DueEnd(p, s, now)
    ensures Settles(p, s, now)
  {
    hide Ends, Quiet, Fire;
    var n := CommonBound(p, s.timers, now);
    FireSettles(p, s, now, n, DueCascade(p, s.timers, now, n));
  }

  // ---- Ranks and positive delays are special cases ----

  /** The rank falls along armings at once; posts and later timers are free to go round in circles. */
  ghost predicate Falls(p: Program, rank: nat -> nat) {
    forall cb: nat, i :: 0 <= i < |p(cb)| && AtOnce(p(cb)[i]) ==> rank(p(cb)[i].cb) < rank(cb)
  }

  lemma {:induction false} RankedEnds(p: Program, rank: nat -> nat, cb: nat)
    requires Falls(p, rank)
    ensures EndsWithin(p, cb, rank(cb) + 1)
    decreases rank(cb)
  {
    forall i | 0 <= i < |p(cb)| && AtOnce(p(cb)[i])
      ensures EndsWithin(p, p(cb)[i].cb, rank(cb))
    {
      RankedEnds(p, rank, p(cb)[i].cb);
      EndsWithinMore(p, p(cb)[i].cb, rank(p(cb)[i].cb) + 1, rank(cb));
    }
  }

  /** So every RunOnce returns from every state, on any monotone clock. */
  lemma RankedReturns(p: Program, rank: nat -> nat, s: State)
    requires Falls(p, rank)
    ensures Returns(p, s)
  {
    var d := Drained(p, s);
    forall i | 0 <= i < |d.timers| && d.timers[i].due <= d.now
      ensures Ends(p, d.timers[i].cb)
    {
      RankedEnds(p, rank, d.timers[i].cb);
    }
    DueEndSettles(p, d, d.now);
  }

  lemma PositiveDelaysFall(p: Program)
    requires AllDelays(p, 1)
    ensures Falls(p, cb => 0)
  {
    forall cb: nat, i | 0 <= i < |p(cb)|
      ensures !AtOnce(p(cb)[i])
    {
      assert Delays(p(cb), 1);
    }
  }

  // ---- It does not end without an endless chain being broken ----

  /** Every arming of these actions finds a free slot. */
  predicate Accepts(acts: seq<Action>, s: State) {
    acts == [] || ((acts[0].PostAfter? ==> |s.timers| < MAX_TIMERS) && Accepts(acts[1..], Apply(acts[0], s)))
  }

  /** So does every arming in the first n turns of the firing loop. */
  predicate NoneRefused(p: Program, s: State, now: int, n: nat)
    decreases n
  {
    n == 0 || Quiet(s, now) ||
    (Accepts(p(NextTimer(s, now).cb), Erased(s, now)) && NoneRefused(p, FireFirst(p, s, now), now, n - 1))
  }

  /** An accepted arming at once puts a due timer of its target into the table. */
  lemma {:induction false} AcceptedIsArmed(acts: seq<Action>, s: State, i: nat) returns (j: nat)
    requires Accepts(acts, s) && TakesNoTime(acts) && i < |acts| && AtOnce(acts[i])
    ensures var r := Exec(acts, s); j < |r.timers| && r.timers[j].due <= s.now && r.timers[j].cb == acts[i].cb
    decreases |acts|
  {
    var next := Apply(acts[0], s);
    assert forall k :: 0 <= k < |acts[1..]| ==> acts[1..][k] == acts[k + 1];
    if i == 0 {
      j := |s.timers|;
      assert next.timers[j].cb == acts[0].cb;
      ExecOnlyAppends(acts[1..], next);
    } else {
      j := AcceptedIsArmed(acts[1..], next, i - 1);
    }
  }

  /** One bound for the chains of all armings at once of a callback, and so one for the callback itself. */
  lemma {:induction false} CommonActsBound(p: Program, acts: seq<Action>) returns (n: nat)
    requires forall i :: 0 <= i < |acts| && AtOnce(acts[i]) ==> Ends(p, acts[i].cb)
    ensures ActsEndWithin(p, acts, n)
    decreases |acts|
  {
    hide EndsWithin;
    n := 0;
    if acts != [] {
      assert forall k :: 0 <= k < |acts[1..]| ==> acts[1..][k] == acts[k + 1];
      n := CommonActsBound(p, acts[1..]);
      var m: nat := 0;
      if AtOnce(acts[0]) {
        m :| EndsWithin(p, acts[0].cb, m);
      }
      var both := n + m;
      forall i | 0 <= i < |acts| && AtOnce(acts[i])
        ensures EndsWithin(p, acts[i].cb, both)
      {
        if i == 0 {
          EndsWithinMore(p, acts[0].cb, m, both);
        } else {
          assert acts[1..][i - 1] == acts[i];
          EndsWithinMore(p, acts[i].cb, n, both);
        }
      }
      n := both;
    }
  }

  lemma TargetsEnd(p: Program, cb: nat)
    requires forall i :: 0 <= i < |p(cb)| && AtOnce(p(cb)[i]) ==> Ends(p, p(cb)[i].cb)
    ensures Ends(p, cb)
  {
    var n := CommonActsBound(p, p(cb));
    assert EndsWithin(p, cb, n + 1);
  }

  /** If every due timer ends after a turn in which nothing was refused, the timer that fired ends as well. */
  lemma FiredEnds(p: Program, s: State)
    requires Still(p) && !Quiet(s, s.now) && Accepts(p(NextTimer(s, s.now).cb), Erased(s, s.now))
    requires DueEnd(p, FireFirst(p, s, s.now), s.now)
    ensures Ends(p, NextTimer(s, s.now).cb)
  {
    hide Ends, Accepts, Exec, Quiet;
    var e, acts := Erased(s, s.now), p(NextTimer(s, s.now).cb);
    forall i | 0 <= i < |acts| && AtOnce(acts[i])
      ensures Ends(p, acts[i].cb)
    {
      var j := AcceptedIsArmed(acts, e, i);
    }
    TargetsEnd(p, NextTimer(s, s.now).cb);
  }

  /** And so do those that did not fire. */
  lemma OthersEnd(p: Program, s: State, i: nat)
    requires !Quiet(s, s.now) && DueEnd(p, FireFirst(p, s, s.now), s.now)
    requires i < |s.timers| && s.timers[i].due <= s.now && i != FirstDue(s.timers, s.now)
    ensures Ends(p, s.timers[i].cb)
  {
    hide Ends, Exec;
    var f := FirstDue(s.timers, s.now);
    var k := if i < f then i else i - 1;
    assert Erased(s, s.now).timers[k] == s.timers[i];
    ExecOnlyAppends(p(NextTimer(s, s.now).cb), Erased(s, s.now));
    assert FireFirst(p, s, s.now).timers[k] == s.timers[i];
  }

  /** For every program: a firing loop that ends with nothing refused has fired no endless chain. */
  lemma {:induction false} UnrefusedEnds(p: Program, s: State, n: nat)
    requires Still(p) && Quiet(Fire(p, s, s.now, n), s.now) && NoneRefused(p, s, s.now, n)
    ensures DueEnd(p, s, s.now)
    decreases n
  {
    if !Quiet(s, s.now) {
      hide Ends, Accepts, FireFirst, Quiet, Still, NextTimer, Erased, DueEnd;
      FireFirstIsInstant(p, s);
      UnrefusedEnds(p, FireFirst(p, s, s.now), n - 1);
      TurnEnds(p, s);
    }
  }

  lemma FireFirstIsInstant(p: Program, s: State)
    requires Still(p) && !Quiet(s, s.now)
    ensures FireFirst(p, s, s.now).now == s.now
  {
    ExecIsInstant(p(NextTimer(s, s.now).cb), Erased(s, s.now));
  }

  lemma TurnEnds(p: Program, s: State)
    requires Still(p) && !Quiet(s, s.now) && Accepts(p(NextTimer(s, s.now).cb), Erased(s, s.now))
    requires DueEnd(p, FireFirst(p, s, s.now), s.now)
    ensures DueEnd(p, s, s.now)
  {
    hide Ends, Accepts, FireFirst, Still, FirstDue, Erased;
    FiredEnds(p, s);
    forall i | 0 <= i < |s.timers| && s.timers[i].due <= s.now
      ensures Ends(p, s.timers[i].cb)
    {
      if i != FirstDue(s.timers, s.now) {
        OthersEnd(p, s, i);
      }
    }
  }

  /**
   Exactly when, for every program: the firing loop ends if and only if no due timer starts an endless chain, or it
   ends within some number of turns in one of which the full table has refused an arming.
   */
  lemma SettlesIffOrRefused(p: Program, s: State)
    requires Still(p)
    ensures Settles(p, s, s.now) <==>
            DueEnd(p, s, s.now) || exists n: nat :: Quiet(Fire(p, s, s.now, n), s.now) && !NoneRefused(p, s, s.now, n)
  {
    hide Ends, Quiet, Still, Fire, NoneRefused;
    if DueEnd(p, s, s.now) {
      DueEndSettles(p, s, s.now);
    } else if Settles(p, s, s.now) {
      var n: nat :| Quiet(Fire(p, s, s.now, n), s.now);
      if NoneRefused(p, s, s.now, n) {
        UnrefusedEnds(p, s, n);
      }
    }
  }

  /** A program and a table that never refuse: the chains alone decide. */
  lemma RoomySettlesIff(p: Program, s: State)
    requires Still(p) && forall n: nat :: NoneRefused(p, s, s.now, n)
    ensures Settles(p, s, s.now) <==> DueEnd(p, s, s.now)
  {
    hide Ends, Quiet, Still, Fire, NoneRefused;
    SettlesIffOrRefused(p, s);
  }

  /** Exactly when RunOnce returns, for every program. */
  lemma ReturnsIffOrRefused(p: Program, s: State)
    requires Still(p)
    ensures var d := Drained(p, s);
            Returns(p, s) <==>
            DueEnd(p, d, d.now) || exists n: nat :: Quiet(Fire(p, d, d.now, n), d.now) && !NoneRefused(p, d, d.now, n)
  {
    hide Ends, Quiet, Still, Fire, NoneRefused, Settles, DueEnd;
    SettlesIffOrRefused(p, Drained(p, s));
  }
}
