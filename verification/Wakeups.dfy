// Wake-ups that are missed: a thread that stays parked, with the mutex free, though it
// may go.  Which kinds of threads this can happen to, and in which runs.
module Wakeups {
  import opened Basics
  import opened Buffers
  import opened Semaphores
  import opened Casts

  // Thread t of kind k is parked though, with the mutex free, it may go.
  predicate Missed(now: State, t: nat, k: Kind) {
    t < |now.threads| && now.threads[t].kind == k && now.threads[t].pc == AtGate && now.mutex && Can(k, now.buffer)
  }

  // A thread that is the only one of its kind is never missed.
  lemma SoleIsNotMissed(s: State, schedule: seq<nat>, u: nat, k: Kind, t: nat)
    requires Initial(s, true) && Sole(s, u, k) && Run(s, schedule).Some?
    ensures !Missed(Run(s, schedule).value, t, k)
  {
    InitialIsSafe(s);
    RunsAreSafe(s, schedule);
    var now := Run(s, schedule).value;
    assert now.threads[u].kind == k;
    if now.mutex && Can(k, now.buffer) {
      assert Present(now, k);
      var v := UnparkedIsAtLock(now, k);
      assert s.threads[v].kind == k;
    }
  }

  // ----- producers are never missed -----

  // On its way to act, or from having made room for kind k to handing over.
  predicate OnItsWay(th: Thread, k: Kind) {
    || (th.kind == k && (th.pc == AtWoken || th.pc == AtAct))
    || (th.pc == AtHand && if k == A1 then th.kind == B1 else th.kind == A1 || th.kind == B2)
  }

  // The baton is coming to a producer of kind k.
  predicate Coming(s: State, k: Kind) {
    s.gate.Get(k) || exists t :: 0 <= t < |s.threads| && OnItsWay(s.threads[t], k)
  }

  // While producers of even numbers wait, there is room for at most one, and then the
  // baton is coming to them ...
  predicate EvenHeld(s: State) {
    s.waiting.a1 > 0 ==> 10 <= Evens(s.buffer) || (Evens(s.buffer) == 9 && Coming(s, A1))
  }

  // ... and so for those of odd numbers.
  predicate OddHeld(s: State) {
    s.waiting.a2 > 0 ==>
      || Evens(s.buffer) <= Odds(s.buffer)
      || (Evens(s.buffer) == Odds(s.buffer) + 1 && Coming(s, A2))
  }

  // Whatever it may be, a thread inside that is not on its way keeps the baton from coming.
  lemma NotComing(s: State, t: nat, k: Kind)
    requires Tokens(s) == 1 && t < |s.threads| && Inside(s.threads[t]) && !OnItsWay(s.threads[t], k)
    ensures !Coming(s, k)
  {
    hide Tokens;
    Alone(s, t);
  }

  lemma NotComingElsewhere(s: State, k: Kind)
    requires Tokens(s) == 1 && (s.mutex || exists j :: j != k && s.gate.Get(j))
    ensures !Coming(s, k)
  {
    hide Tokens;
    NobodyInside(s);
  }

  // Who is on its way after a step of thread t: the others stay where they are.
  lemma ComingAfter(s: State, t: nat, k: Kind)
    requires Tokens(s) == 1 && Enabled(s, t) && Producer(k)
    ensures Coming(s, k) && !OnItsWay(s.threads[t], k) ==> s.threads[t].pc == AtGate && s.threads[t].kind == k
    ensures OnItsWay(Next(s, t).threads[t], k) || Next(s, t).gate.Get(k) ==> Coming(Next(s, t), k)
  {
    var th := s.threads[t];
    if !OnItsWay(th, k) {
      if th.pc == AtLock || (th.pc == AtGate && th.kind != k) {
        NotComingElsewhere(s, k);
      } else if th.pc != AtGate {
        NotComing(s, t, k);
      }
    }
    hide Tokens, Can, HandTo;
    assert 0 <= t < |Next(s, t).threads|;
  }

  // What a step of thread t does to the counts of even and odd numbers.
  lemma CountsAfter(s: State, t: nat)
    requires Safe(s) && Enabled(s, t)
    ensures var th, b, b' := s.threads[t], s.buffer, Next(s, t).buffer;
            if th.pc != AtAct then b' == b
            else && Can(th.kind, b)
                 && Evens(b') == Evens(b) + (if th.kind == A1 then 1 else if th.kind == B1 then -1 else 0)
                 && Odds(b') == Odds(b) + (if th.kind == A2 then 1 else if th.kind == B2 then -1 else 0)
  {
    var th := s.threads[t];
    assert KnowsCondition(th, s.buffer) && CountsUp(th);
    hide Baton, Stock, Numbers, HandOver;
    if th.pc == AtAct && Producer(th.kind) {
      CountingUp(th);
      CountsOfOneMore(s.buffer, th.next);
    }
  }

  lemma StepKeepsEvenHeld(s: State, t: nat)
    requires Safe(s) && EvenHeld(s) && Enabled(s, t)
    ensures EvenHeld(Next(s, t))
  {
    hide Tokens, Coming, Baton, Stock, Evens, Odds;
    OneToken(s);
    ComingAfter(s, t, A1);
    CountsAfter(s, t);
    assert KnowsCondition(s.threads[t], s.buffer);
  }

  lemma StepKeepsOddHeld(s: State, t: nat)
    requires Safe(s) && EvenHeld(s) && OddHeld(s) && Enabled(s, t)
    ensures OddHeld(Next(s, t))
  {
    hide Tokens, Coming, Baton, Stock, Evens, Odds;
    OneToken(s);
    ComingAfter(s, t, A1);
    ComingAfter(s, t, A2);
    CountsAfter(s, t);
    assert KnowsCondition(s.threads[t], s.buffer);
  }

  lemma StepKeepsHeld(s: State, t: nat)
    requires Safe(s) && EvenHeld(s) && OddHeld(s) && Enabled(s, t)
    ensures EvenHeld(Next(s, t)) && OddHeld(Next(s, t))
  {
    hide EvenHeld, OddHeld, Safe, Enabled, Next;
    StepKeepsEvenHeld(s, t);
    StepKeepsOddHeld(s, t);
  }

  lemma {:induction false} RunsKeepHeld(s: State, schedule: seq<nat>)
    requires Safe(s) && EvenHeld(s) && OddHeld(s) && Run(s, schedule).Some?
    ensures EvenHeld(Run(s, schedule).value) && OddHeld(Run(s, schedule).value)
    decreases |schedule|
  {
    if schedule != [] {
      hide Safe, EvenHeld, OddHeld, Next;
      StepIsSafe(s, schedule[0]);
      StepKeepsHeld(s, schedule[0]);
      RunsKeepHeld(Next(s, schedule[0]), schedule[1..]);
    }
  }

  // However many producers there are: one that is parked, with the mutex free, may not go.
  lemma ProducersAreNotMissed(s: State, schedule: seq<nat>, t: nat, k: Kind)
    requires Initial(s, true) && Producer(k) && Run(s, schedule).Some?
    ensures !Missed(Run(s, schedule).value, t, k)
  {
    InitialIsSafe(s);
    RunsAreSafe(s, schedule);
    RunsKeepHeld(s, schedule);
    var now := Run(s, schedule).value;
    if Missed(now, t, k) {
      WaiterCounts(now, k, t);
      NotComingElsewhere(now, k);
    }
  }

  // ----- consumers can be missed -----

  // Two consumers of a kind park at a number they may not take; when it has been taken,
  // the first is woken, takes a number and wakes nobody of its own kind.  The mutex is
  // free, the second may go, and it stays parked.
  lemma SecondIsMissed(s: State, schedule: seq<nat>, was: State, t: nat, w: nat, u: nat, k: Kind)
    returns (schedule': seq<nat>, now: State)
    requires Run(s, schedule) == Some(was) && Tempting(was.buffer, k)
    requires was.mutex && was.gate == PerKind(false, false, false, false) && was.waiting == PerKind(0, 0, 0, 0)
    requires t != w && t < |was.threads| && w < |was.threads| && was.threads[t].kind == was.threads[w].kind == k
    requires u < |was.threads| && was.threads[u].kind == OtherConsumers(k)
    requires was.threads[t].pc == was.threads[w].pc == was.threads[u].pc == AtLock
    ensures Run(s, schedule') == Some(now) && Missed(now, w, k)
  {
    hide Run, Can;
    schedule' := Park(s, schedule, was, t);
    now := Run(s, schedule').value;
    schedule' := Park(s, schedule', now, w);
    now := Run(s, schedule').value;
    assert now.waiting.Get(k) == 2;
    schedule' := TurnWakes(s, schedule', now, u, k);
    now := Run(s, schedule').value;
    assert now.buffer == was.buffer[1..];
    schedule' := WokenTurn(s, schedule', now, t, k);
    now := Run(s, schedule').value;
    assert now.buffer == was.buffer[1..][1..] == was.buffer[2..];
  }

  // Any two consumers of a kind, with all kinds present, can come to that.
  lemma TwoConsumersCanMissOne(s: State, k: Kind, t: nat, w: nat) returns (schedule: seq<nat>)
    requires Initial(s, true) && !Producer(k) && AllPresent(s)
    requires t != w && t < |s.threads| && w < |s.threads| && s.threads[t].kind == s.threads[w].kind == k
    ensures Run(s, schedule).Some? && Missed(Run(s, schedule).value, w, k)
  {
    assert Present(s, A1) && Present(s, A2) && Present(s, B1) && Present(s, OtherConsumers(k));
    var a1 :| 0 <= a1 < |s.threads| && s.threads[a1].kind == A1;
    var a2 :| 0 <= a2 < |s.threads| && s.threads[a2].kind == A2;
    var b1 :| 0 <= b1 < |s.threads| && s.threads[b1].kind == B1;
    var u :| 0 <= u < |s.threads| && s.threads[u].kind == OtherConsumers(k);
    var c := Cast(a1, a2, b1);
    assert GoesOn(s, [], s, c, 0, 1);
    hide Run, Present;
    var now;
    if k == B1 { schedule, now := OddInFront(s, c); } else { schedule, now := EvenInFront(s, c); }
    schedule, now := SecondIsMissed(s, schedule, now, t, w, u, k);
  }

  // ----- smaller casts -----

  // On the way to a consumer of even numbers, or to deciding on one.
  predicate Serving(th: Thread) {
    (th.kind == B1 && (th.pc == AtWoken || th.pc == AtAct)) || (Producer(th.kind) && th.pc == AtHand)
  }

  // On the way to a producer of odd numbers.
  predicate Detour(th: Thread) {
    th.kind == A2 && (th.pc == AtWoken || th.pc == AtAct)
  }

  predicate EvenPut(th: Thread) {
    th.kind == A1 && th.pc == AtHand
  }

  predicate IsServing(s: State) {
    s.gate.b1 || exists t :: 0 <= t < |s.threads| && Serving(s.threads[t])
  }

  predicate IsDetour(s: State) {
    s.gate.a2 || exists t :: 0 <= t < |s.threads| && Detour(s.threads[t])
  }

  predicate IsEvenPut(s: State) {
    exists t :: 0 <= t < |s.threads| && EvenPut(s.threads[t])
  }

  // While consumers of even numbers wait that could go, one of them is next, perhaps after
  // one odd number more, and the number behind the one it takes is then odd.
  predicate EaterHeld(s: State) {
    s.waiting.b1 > 0 && 3 <= |s.buffer| && s.buffer[0] % 2 == 0 ==>
      && |s.buffer| <= 4 && (IsServing(s) || IsDetour(s))
      && (|s.buffer| == 4 ==> !IsDetour(s) && !IsEvenPut(s))
      && (|s.buffer| == 4 || IsDetour(s) || (IsEvenPut(s) && MayWake(s, A2)) ==> s.buffer[1] % 2 == 1)
  }

  // A thread inside decides all three, and so does an open gate, or the free mutex.
  lemma WhoIsNext(s: State)
    requires Tokens(s) == 1
    ensures forall t :: 0 <= t < |s.threads| && Inside(s.threads[t]) ==>
      && !s.gate.b1 && !s.gate.a2 && (IsServing(s) <==>
           Serving(s.threads[t])) && (IsDetour(s) <==> Detour(s.threads[t]))
      && (IsEvenPut(s) <==> EvenPut(s.threads[t]))
    ensures s.mutex || (exists k :: s.gate.Get(k)) ==>
      (IsServing(s) <==> s.gate.b1) && (IsDetour(s) <==> s.gate.a2) && !IsEvenPut(s) && !(s.gate.b1 && s.gate.a2)
    ensures s.mutex ==> !s.gate.b1 && !s.gate.a2
  {
    hide Tokens;
    forall t | 0 <= t < |s.threads| && Inside(s.threads[t])
      ensures !s.gate.b1 && !s.gate.a2 && (IsServing(s) <==>
        Serving(s.threads[t])) && (IsDetour(s) <==> Detour(s.threads[t]))
           && (IsEvenPut(s) <==> EvenPut(s.threads[t]))
    {
      Alone(s, t);
    }
    if s.mutex || exists k :: s.gate.Get(k) { NobodyInside(s); }
  }

  // Consumers of odd numbers never act where there are none, or no odd numbers.
  predicate NoOddEaten(s: State) {
    Lacking(s) && (!Present(s, A2) || !Present(s, B2))
  }

  lemma PutKeepsEater(s: State, t: nat)
    requires Safe(s) && OddHeld(s) && EaterHeld(s) && Enabled(s, t) && s.threads[t].pc == AtAct
    requires Producer(s.threads[t].kind)
    ensures EaterHeld(Next(s, t))
  {
    var th, s' := s.threads[t], Next(s, t);
    WhoIsNext(s);
    Alone(s, t);
    assert KnowsCondition(th, s.buffer) && CountsUp(th) && !Coming(s, A2) == (th.kind != A2);
    CountingUp(th);
    CountsOfOneMore(s.buffer, th.next);
    EvensAndOddsAreAll(s.buffer);
    hide Tokens, Baton, Stock, Numbers, Coming;
    assert s'.threads[t].pc == AtHand;
    if |s.buffer| == 2 { CountsOfTwo(s.buffer); }
  }

  lemma CountsOfTwo(b: seq<int>)
    requires |b| == 2
    ensures Evens(b) == (if b[0] % 2 == 0 then 1 else 0) + (if b[1] % 2 == 0 then 1 else 0)
    ensures Odds(b) == 2 - Evens(b)
  {
    CountsOfOneMore([], b[0]);
    CountsOfOneMore([b[0]], b[1]);
    assert [] + [b[0]] == [b[0]] && [b[0]] + [b[1]] == b;
    EvensAndOddsAreAll(b);
    assert Evens([]) == 0;
  }

  // In a cast without producers, or without consumers, of odd numbers, a consumer of even ones
  // that acts leaves an odd number in front, or nobody of its kind waiting that may go.
  lemma GetKeepsEater(s: State, t: nat)
    requires Safe(s) && NoOddEaten(s) && EaterHeld(s) && Enabled(s, t)
    requires s.threads[t].pc == AtAct && !Producer(s.threads[t].kind)
    ensures EaterHeld(Next(s, t))
  {
    var th, s' := s.threads[t], Next(s, t);
    WhoIsNext(s);
    assert KnowsCondition(th, s.buffer) && Present(s, th.kind);
    hide Tokens, Baton, Stock, Numbers, Evens, Odds;
  }

  // While at most four numbers wait, no producer of even ones does.
  lemma NoEvenWaits(s: State, t: nat)
    requires Safe(s) && EvenHeld(s) && t < |s.threads| && s.threads[t].pc == AtHand && s.threads[t].kind == A2
    ensures |s.buffer| <= 4 ==> !MayWake(s, A1)
  {
    NotComing(s, t, A1);
    EvensAndOddsAreAll(s.buffer);
  }

  lemma HandKeepsEater(s: State, t: nat)
    requires Safe(s) && EvenHeld(s) && EaterHeld(s) && Enabled(s, t) && s.threads[t].pc == AtHand
    ensures EaterHeld(Next(s, t))
  {
    hide Safe, Baton, EvenHeld, Evens, Odds, IsServing, IsDetour, IsEvenPut;
    if s.threads[t].kind == A2 { NoEvenWaits(s, t); }
    StepIsSafe(s, t);
    assert Tokens(s) == 1 && Tokens(Next(s, t)) == 1 by { OneToken(s); OneToken(Next(s, t)); }
    WhoIsNext(s);
    WhoIsNext(Next(s, t));
    Alone(s, t);
    hide Tokens;
    var to := HandTo(s, s.threads[t].kind);
    assert to.Some? ==> Next(s, t).gate.Get(to.value);
  }

  lemma OneToken(s: State)
    requires Safe(s)
    ensures Tokens(s) == 1 && forall k :: s.gate.Get(k) ==> MayWake(s, k)
    ensures forall t :: 0 <= t < |s.threads| ==> KnowsCondition(s.threads[t], s.buffer)
  {
  }

  lemma StepKeepsEater(s: State, t: nat)
    requires Safe(s) && EvenHeld(s) && OddHeld(s) && NoOddEaten(s) && EaterHeld(s) && Enabled(s, t)
    ensures EaterHeld(Next(s, t))
  {
    var th, s' := s.threads[t], Next(s, t);
    if th.pc == AtHand {
      HandKeepsEater(s, t);
    } else if th.pc == AtAct {
      if Producer(th.kind) { PutKeepsEater(s, t); } else { GetKeepsEater(s, t); }
    } else {
      OtherStepsKeepEater(s, t);
    }
  }

  lemma OtherStepsKeepEater(s: State, t: nat)
    requires Safe(s) && EaterHeld(s) && Enabled(s, t) && s.threads[t].pc != AtHand && s.threads[t].pc != AtAct
    ensures EaterHeld(Next(s, t))
  {
    hide Safe, Baton, Evens, Odds, IsServing, IsDetour, IsEvenPut, Tokens;
    StepIsSafe(s, t);
    OthersKeepStock(s, t);
    OneToken(s);
    OneToken(Next(s, t));
    WhoIsNext(s);
    WhoIsNext(Next(s, t));
    assert KnowsCondition(s.threads[t], s.buffer);
  }

  lemma {:induction false} RunsKeepEater(s: State, schedule: seq<nat>)
    requires Safe(s) && EvenHeld(s) && OddHeld(s) && NoOddEaten(s) && EaterHeld(s) && Run(s, schedule).Some?
    ensures Safe(Run(s, schedule).value) && EaterHeld(Run(s, schedule).value)
    decreases |schedule|
  {
    if schedule != [] {
      hide Safe, EvenHeld, OddHeld, Lacking, Present, EaterHeld, Next;
      StepIsSafe(s, schedule[0]);
      StepKeepsHeld(s, schedule[0]);
      StepKeepsLacking(s, schedule[0]);
      StepKeepsEater(s, schedule[0]);
      SamePresent(s, Next(s, schedule[0]), A2);
      SamePresent(s, Next(s, schedule[0]), B2);
      RunsKeepEater(Next(s, schedule[0]), schedule[1..]);
    }
  }

  // Without producers, or without consumers, of odd numbers, no consumer of even ones is missed,
  // however many there are.
  lemma EatersAreNotMissed(s: State, schedule: seq<nat>, t: nat)
    requires Initial(s, true) && (!Present(s, A2) || !Present(s, B2)) && Run(s, schedule).Some?
    ensures !Missed(Run(s, schedule).value, t, B1)
  {
    InitialIsSafe(s);
    var now := Run(s, schedule).value;
    RunsKeepEater(s, schedule);
    if Missed(now, t, B1) {
      hide Run;
      WaiterCounts(now, B1, t);
      WhoIsNext(now);
    }
  }

  // Where some kind is missing, no consumer is missed.
  lemma SmallCastIsSpared(s: State, schedule: seq<nat>, t: nat, k: Kind)
    requires Initial(s, true) && !AllPresent(s) && !Producer(k) && Run(s, schedule).Some?
    ensures !Missed(Run(s, schedule).value, t, k)
  {
    CastInRuns(s, schedule);
    if k == B1 && (!Present(s, A2) || !Present(s, B2)) {
      EatersAreNotMissed(s, schedule, t);
    } else {
      var j :| !Present(s, j);
      var now := Run(s, schedule).value;
      hide Run, Initial, Safe;
      assert j == k ==> !Missed(now, t, k);
      assert j == A1 ==> now.buffer == [];
    }
  }

  // There is at most one thread of kind k.
  predicate AtMostOne(s: State, k: Kind) {
    forall t, u :: 0 <= t < u < |s.threads| && s.threads[t].kind == k ==> s.threads[u].kind != k
  }

  // No run comes to a state in which a thread of kind k is missed.
  ghost predicate Spared(s: State, k: Kind) {
    forall schedule, t :: Run(s, schedule).Some? ==> !Missed(Run(s, schedule).value, t, k)
  }

  lemma NeverMissed(s: State, schedule: seq<nat>, t: nat, k: Kind)
    requires Initial(s, true) && Run(s, schedule).Some?
    requires Producer(k) || AtMostOne(s, k) || !AllPresent(s)
    ensures !Missed(Run(s, schedule).value, t, k)
  {
    if Producer(k) {
      ProducersAreNotMissed(s, schedule, t, k);
    } else if !AllPresent(s) {
      SmallCastIsSpared(s, schedule, t, k);
    } else {
      assert Present(s, k);
      var u :| 0 <= u < |s.threads| && s.threads[u].kind == k;
      assert Sole(s, u, k);
      SoleIsNotMissed(s, schedule, u, k, t);
    }
  }

  // In any cast, exactly these are never missed in any run: producers, a consumer that is the
  // only one of its kind, and everybody where some kind is missing.
  lemma WhoIsSpared(s: State, k: Kind)
    requires Initial(s, true)
    ensures Spared(s, k) <==> Producer(k) || AtMostOne(s, k) || !AllPresent(s)
  {
    hide Initial, Run, Missed, AllPresent;
    if Producer(k) || AtMostOne(s, k) || !AllPresent(s) {
      forall schedule, t | Run(s, schedule).Some?
        ensures !Missed(Run(s, schedule).value, t, k)
      {
        NeverMissed(s, schedule, t, k);
      }
    } else {
      var t: nat, w: nat :| t < w < |s.threads| && s.threads[t].kind == k && s.threads[w].kind == k;
      var schedule := TwoConsumersCanMissOne(s, k, t, w);
    }
  }
}
