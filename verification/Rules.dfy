// When the threads act and whom they wake, told by what has been put and taken so far.
module Rules {
  import opened Basics
  import opened Buffers
  import opened Semaphores

  lemma {:induction false} CountsOfJoint(a: seq<int>, b: seq<int>)
    ensures Evens(a + b) == Evens(a) + Evens(b) && Odds(a + b) == Odds(a) + Odds(b)
  {
    if a == [] {
      assert a + b == b;
    } else {
      assert (a + b)[1..] == a[1..] + b;
      CountsOfJoint(a[1..], b);
    }
  }

  // Of events of two kinds, one with the even and one with the odd numbers, there are as
  // many of each kind as there are numbers of its parity.
  lemma {:induction false} CountsByKind(es: seq<Event>, even: Kind, odd: Kind)
    requires EvenKind(even) && !EvenKind(odd)
    requires forall i :: 0 <= i < |es| ==> InOrder(es[i]) && (es[i].kind == even || es[i].kind == odd)
    ensures Evens(Numbers(es)) == |HandledBy(es, even)| && Odds(Numbers(es)) == |HandledBy(es, odd)|
  {
    if es != [] {
      var front, last := es[..|es| - 1], es[|es| - 1];
      CountsByKind(front, even, odd);
      CountsOfOneMore(Numbers(front), last.value);
      assert InOrder(last);
    }
  }

  lemma {:induction false} NumberAt(es: seq<Event>, i: nat)
    requires i < |es|
    ensures Numbers(es)[i] == es[i].value
  {
    if i < |es| - 1 { NumberAt(es[..|es| - 1], i); }
  }

  // How many numbers wait, how many of either parity, and whose the first is, can be
  // told from what has been put and taken.
  lemma StockIsTold(s: State)
    requires Stock(s)
    ensures |s.buffer| == |s.produced| - |s.consumed|
    ensures Evens(s.buffer) == |HandledBy(s.produced, A1)| - |HandledBy(s.consumed, B1)|
    ensures Odds(s.buffer) == |HandledBy(s.produced, A2)| - |HandledBy(s.consumed, B2)|
    ensures s.buffer != [] ==> 0 <= s.buffer[0] && (s.buffer[0] % 2 == 0 <==> s.produced[|s.consumed|].kind == A1)
  {
    hide Evens, Odds, Numbers, HandledBy;
    assert |Numbers(s.produced)| == |Numbers(s.consumed) + s.buffer|;
    CountsOfJoint(Numbers(s.consumed), s.buffer);
    CountsByKind(s.produced, A1, A2);
    CountsByKind(s.consumed, B1, B2);
    if s.buffer != [] {
      NumberAt(s.produced, |s.consumed|);
      assert (Numbers(s.consumed) + s.buffer)[|s.consumed|] == s.buffer[0];
      assert InOrder(s.produced[|s.consumed|]);
    }
  }

  // In every run: a thread that has tested, or was woken, acts just if fewer than ten even
  // numbers wait, or fewer odd ones than even ones; or, to take one, if at least three wait
  // and the next is even, or at least seven and the next is odd.  Otherwise it parks.
  lemma ActsByTheRules(s: State, schedule: seq<nat>, t: nat)
    requires Initial(s, true) && Run(s, schedule).Some? && t < |Run(s, schedule).value.threads|
    ensures var now := Run(s, schedule).value;
            var th, put, taken := now.threads[t], now.produced, now.consumed;
            var evens := |HandledBy(put, A1)| - |HandledBy(taken, B1)|;
            var odds := |HandledBy(put, A2)| - |HandledBy(taken, B2)|;
            var goes := match th.kind
              case A1 => evens < 10
              case A2 => odds < evens
              case B1 => |put| - |taken| >= 3 && put[|taken|].kind == A1
              case B2 => |put| - |taken| >= 7 && put[|taken|].kind == A2;
            && (th.pc == AtTest ==> Next(now, t).threads[t].pc == if goes then AtAct else AtPark)
            && (th.pc == AtWoken || th.pc == AtAct ==> goes)
            && (th.pc == AtPark || th.pc == AtRelease ==> !goes)
  {
    hide Tokens, Settled, Waiters, Evens, Odds, HandledBy, Numbers, Run, Initial;
    InitialIsSafe(s);
    RunsAreSafe(s, schedule);
    var now := Run(s, schedule).value;
    StockIsTold(now);
    assert KnowsCondition(now.threads[t], now.buffer);
  }

  // In every run: a thread done with the buffer wakes, of the other kinds with a thread
  // parked, the first by these rules that may go, in the order of the four kinds, and gives
  // up the mutex just if there is none.
  lemma WakesByTheRules(s: State, schedule: seq<nat>, t: nat)
    requires Initial(s, true) && Run(s, schedule).Some? && t < |Run(s, schedule).value.threads|
    requires Run(s, schedule).value.threads[t].pc == AtHand
    ensures var now := Run(s, schedule).value;
            var k, put, taken := now.threads[t].kind, now.produced, now.consumed;
            var evens := |HandledBy(put, A1)| - |HandledBy(taken, B1)|;
            var odds := |HandledBy(put, A2)| - |HandledBy(taken, B2)|;
            var a1 := k != A1 && Parked(now, A1) && evens < 10;
            var a2 := k != A2 && Parked(now, A2) && odds < evens && !a1;
            var b1 := k != B1 && Parked(now, B1) && |put| - |taken| >= 3 && put[|taken|].kind == A1 && !a1 && !a2;
            var b2 := k != B2 && Parked(now, B2) && |put| - |taken| >= 7 && put[|taken|].kind == A2 && !a1 && !a2;
            && Next(now, t).gate == PerKind(a1, a2, b1, b2)
            && Next(now, t).mutex == !(a1 || a2 || b1 || b2)
  {
    hide Waiters, Evens, Odds, HandledBy, Numbers, Run, Initial, Baton, Next, Parked;
    InitialIsSafe(s);
    RunsAreSafe(s, schedule);
    var now := Run(s, schedule).value;
    StockIsTold(now);
    WakesWhoParked(now, t);
  }

  lemma WakesWhoParked(s: State, t: nat)
    requires Baton(s) && t < |s.threads| && s.threads[t].pc == AtHand
    ensures var k := s.threads[t].kind;
            var a1 := k != A1 && Parked(s, A1) && Can(A1, s.buffer);
            var a2 := k != A2 && Parked(s, A2) && Can(A2, s.buffer) && !a1;
            var b1 := k != B1 && Parked(s, B1) && Can(B1, s.buffer) && !a1 && !a2;
            var b2 := k != B2 && Parked(s, B2) && Can(B2, s.buffer) && !a1 && !a2 && !b1;
            Next(s, t).gate == PerKind(a1, a2, b1, b2) && Next(s, t).mutex == !(a1 || a2 || b1 || b2)
  {
    hide Waiters, Can, Parked;
    Alone(s, t);
    WaitingIsParked(s, t, A1);
    WaitingIsParked(s, t, A2);
    WaitingIsParked(s, t, B1);
    WaitingIsParked(s, t, B2);
  }

  predicate Parked(s: State, k: Kind) {
    exists u :: 0 <= u < |s.threads| && s.threads[u].kind == k && s.threads[u].pc == AtGate
  }

  // While a thread hands over, those counted as waiting are those parked.
  lemma WaitingIsParked(s: State, t: nat, k: Kind)
    requires Baton(s) && t < |s.threads| && s.threads[t].pc == AtHand
    ensures s.waiting.Get(k) > 0 <==> Parked(s, k)
  {
    Alone(s, t);
    if |Waiters(s, k)| > 0 {
      var u := AnyOf(Waiters(s, k));
      assert !Inside(s.threads[u]);
    }
    if Parked(s, k) {
      var u :| 0 <= u < |s.threads| && s.threads[u].kind == k && s.threads[u].pc == AtGate;
      assert u in Waiters(s, k);
    }
  }
}
