// Which casts can come to a deadlock: a state in which no thread can take a step.
module Deadlocks {
  import opened Basics
  import opened Buffers
  import opened Semaphores
  import opened Casts

  ghost predicate Deadlocked(s: State) {
    forall t: nat :: !Enabled(s, t)
  }

  // Whatever may be put can be taken again: producers of even numbers and their consumers are
  // there, and if there are producers of odd ones, so are theirs.
  predicate Suffices(s: State) {
    Present(s, A1) && Present(s, B1) && (Present(s, A2) ==> Present(s, B2))
  }

  // No run of such a cast, of any number of threads, deadlocks.
  lemma NoRunDeadlocks(s: State, schedule: seq<nat>) returns (t: nat)
    requires Initial(s, true) && Suffices(s) && Run(s, schedule).Some?
    ensures Enabled(Run(s, schedule).value, t)
  {
    CastInRuns(s, schedule);
    var now := Run(s, schedule).value;
    SomeoneCan(now.buffer);
    EvensAndOddsAreAll(now.buffer);
    if !Present(s, A2) { NoOdds(now.buffer); }
    hide Baton, Run, Initial, Evens, Odds, Numbers;
    var k := if CanProdEven(now.buffer) then A1 else if CanConsEven(now.buffer) then B1
             else if CanProdOdd(now.buffer) then A2 else B2;
    t := SomeoneSteps(now, k);
  }

  lemma {:induction false} NoOdds(b: seq<int>)
    requires AllEven(b)
    ensures Odds(b) == 0
  {
    if b != [] { NoOdds(b[1..]); }
  }

  // ----- runs into a deadlock -----

  // A producer of even numbers puts as many as may wait.
  lemma {:induction false} FillsUp(s: State, schedule: seq<nat>, was: State, t: nat)
    returns (schedule': seq<nat>, now: State)
    requires Initial(s, true) && Comes(s, schedule, was) && t < |was.threads| && was.threads[t].kind == A1
    ensures Comes(s, schedule', now) && was.buffer <= now.buffer && Evens(now.buffer) == 10
    decreases 10 - Evens(was.buffer)
  {
    CastInRuns(s, schedule);
    assert CountsUp(was.threads[t]);
    hide Run, Initial, AtRest, Baton, Stock, Evens, Odds, Lacking;
    schedule', now := schedule, was;
    if CanProdEven(was.buffer) {
      CountingUp(was.threads[t]);
      CountsOfOneMore(was.buffer, was.threads[t].next);
      schedule', now := Acts(s, schedule, was, t);
      schedule', now := FillsUp(s, schedule', now, t);
    }
  }

  // A producer of odd numbers follows suit.
  lemma {:induction false} FollowsUp(s: State, schedule: seq<nat>, was: State, t: nat)
    returns (schedule': seq<nat>, now: State)
    requires Initial(s, true) && Comes(s, schedule, was) && t < |was.threads| && was.threads[t].kind == A2
    ensures Comes(s, schedule', now) && was.buffer <= now.buffer && Evens(now.buffer) == Evens(was.buffer)
    ensures !CanProdOdd(now.buffer)
    decreases Evens(was.buffer) - Odds(was.buffer)
  {
    CastInRuns(s, schedule);
    assert CountsUp(was.threads[t]);
    hide Run, Initial, AtRest, Baton, Stock, Evens, Odds, Lacking;
    schedule', now := schedule, was;
    if CanProdOdd(was.buffer) {
      CountingUp(was.threads[t]);
      CountsOfOneMore(was.buffer, was.threads[t].next);
      schedule', now := Acts(s, schedule, was, t);
      schedule', now := FollowsUp(s, schedule', now, t);
    }
  }

  // The first n threads are parked, the others about to lock, and none of them may go.
  predicate Parking(s: State, n: nat) {
    && s.mutex && s.gate == PerKind(false, false, false, false) && n <= |s.threads|
    && forall t :: 0 <= t < |s.threads| ==>
         s.threads[t].pc == (if t < n then AtGate else AtLock) && !Can(s.threads[t].kind, s.buffer)
  }

  lemma {:induction false} AllPark(s: State, schedule: seq<nat>, was: State, n: nat) returns (schedule': seq<nat>)
    requires Run(s, schedule) == Some(was) && Parking(was, n)
    ensures Run(s, schedule').Some? && Deadlocked(Run(s, schedule').value)
    decreases |was.threads| - n
  {
    hide Run, Can;
    if n == |was.threads| {
      schedule' := schedule;
    } else {
      schedule' := Park(s, schedule, was, n);
      schedule' := AllPark(s, schedule', Run(s, schedule').value, n + 1);
    }
  }

  // Ten even numbers wait, and as many odd ones if anybody puts them; whoever might take
  // the first one is missing.
  lemma NobodyMay(s: State)
    requires Evens(s.buffer) == 10 && (Present(s, A2) ==> !CanProdOdd(s.buffer))
    requires Present(s, B1) ==> !FrontEven(s.buffer)
    requires Present(s, B2) ==> FrontEven(s.buffer)
    ensures forall t :: 0 <= t < |s.threads| ==> !Can(s.threads[t].kind, s.buffer)
  {
    hide Evens, Odds;
    forall t | 0 <= t < |s.threads|
      ensures !Can(s.threads[t].kind, s.buffer)
    {
      assert Present(s, s.threads[t].kind);
    }
  }

  // The producers, if there are any of odd numbers, put as many as may wait.
  lemma FillsBoth(s: State, schedule: seq<nat>, was: State) returns (schedule': seq<nat>, now: State)
    requires Initial(s, true) && Comes(s, schedule, was) && Present(s, A1)
    ensures Comes(s, schedule', now) && was.buffer <= now.buffer && Evens(now.buffer) == 10
    ensures Present(s, A2) ==> !CanProdOdd(now.buffer)
  {
    hide Initial, Run, AtRest, Evens, Odds, CanProdOdd;
    var a1 :| 0 <= a1 < |s.threads| && s.threads[a1].kind == A1;
    schedule', now := FillsUp(s, schedule, was, a1);
    if Present(s, A2) {
      var a2 :| 0 <= a2 < |s.threads| && s.threads[a2].kind == A2;
      schedule', now := FollowsUp(s, schedule', now, a2);
    }
  }

  lemma StuckAtFront(s: State, schedule: seq<nat>, was: State) returns (schedule': seq<nat>)
    requires Initial(s, true) && Comes(s, schedule, was) && Present(s, A1)
    requires Present(s, B1) ==> !Present(s, B2) && !FrontEven(was.buffer)
    ensures Run(s, schedule').Some? && Deadlocked(Run(s, schedule').value)
  {
    hide Initial, Run, Evens, Odds, Present, Can, Safe;
    var now: State;
    schedule', now := FillsBoth(s, schedule, was);
    CastInRuns(s, schedule');
    NobodyMay(now);
    schedule' := AllPark(s, schedule', now, 0);
  }

  // Any other cast has a run into a deadlock.
  lemma SomeRunDeadlocks(s: State) returns (schedule: seq<nat>)
    requires Initial(s, true) && !Suffices(s)
    ensures Run(s, schedule).Some? && Deadlocked(Run(s, schedule).value)
  {
    NothingRun(s);
    if !Present(s, A1) {
      assert forall t :: 0 <= t < |s.threads| ==> s.threads[t].kind != A1;
      schedule := AllPark(s, [], s, 0);
    } else if !Present(s, B1) {
      schedule := StuckAtFront(s, [], s);
    } else {
      var a1 :| 0 <= a1 < |s.threads| && s.threads[a1].kind == A1;
      var a2 :| 0 <= a2 < |s.threads| && s.threads[a2].kind == A2;
      var b1 :| 0 <= b1 < |s.threads| && s.threads[b1].kind == B1;
      var now;
      schedule, now := OddInFront(s, Cast(a1, a2, b1));
      schedule := StuckAtFront(s, schedule, now);
    }
  }

  lemma NothingRun(s: State)
    ensures Run(s, []) == Some(s)
  {
  }

  ghost predicate CanDeadlock(s: State) {
    exists schedule :: Run(s, schedule).Some? && Deadlocked(Run(s, schedule).value)
  }

  // A cast can deadlock if and only if it does not suffice.
  lemma WhoDeadlocks(s: State)
    requires Initial(s, true)
    ensures CanDeadlock(s) <==> !Suffices(s)
  {
    hide Initial, Run, Suffices, Enabled;
    if Suffices(s) {
      forall schedule | Run(s, schedule).Some?
        ensures !Deadlocked(Run(s, schedule).value)
      {
        var t := NoRunDeadlocks(s, schedule);
      }
    } else {
      var schedule := SomeRunDeadlocks(s);
    }
  }
}
