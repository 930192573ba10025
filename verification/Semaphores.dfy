// Producers and consumers that pass the baton: any number of threads of four kinds
// around one buffer, one mutex and one gate per kind.  A thread that finds its
// condition false parks at its gate; a thread that is done opens one gate without
// releasing the mutex, or else releases it.  Mutex and gates are binary semaphores.
module Semaphores {
  import opened Basics
  import opened Buffers

  // A1 and A2 produce even and odd numbers, B1 and B2 consume them.
  datatype Kind = A1 | A2 | B1 | B2

  // Where a thread stands in its endless loop.
  datatype Pc =
    | AtLock     // about to take the mutex
    | AtTest     // about to test its condition
    | AtPark     // condition false: about to count itself as waiting
    | AtRelease  // about to release the mutex
    | AtGate     // parked at the gate of its kind
    | AtWoken    // through the gate: about to count itself off
    | AtAct      // about to put or get
    | AtHand     // about to hand over

  // next is the number a producer puts next, made how many it has put.
  datatype Thread = Thread(kind: Kind, pc: Pc, next: int, made: nat)

  datatype PerKind<T> = PerKind(a1: T, a2: T, b1: T, b2: T) {
    function Get(k: Kind): T {
      match k case A1 => a1 case A2 => a2 case B1 => b1 case B2 => b2
    }
    function Set(k: Kind, v: T): PerKind<T> {
      match k
      case A1 => this.(a1 := v)
      case A2 => this.(a2 := v)
      case B1 => this.(b1 := v)
      case B2 => this.(b2 := v)
    }
  }

  // One number and the kind of thread that put or got it.
  datatype Event = Event(kind: Kind, value: int)

  datatype State = State(mutex: bool, gate: PerKind<bool>, waiting: PerKind<int>, threads: seq<Thread>,
                         buffer: seq<int>, produced: seq<Event>, consumed: seq<Event>)

  predicate Can(k: Kind, b: seq<int>) {
    match k
    case A1 => CanProdEven(b)
    case A2 => CanProdOdd(b)
    case B1 => CanConsEven(b)
    case B2 => CanConsOdd(b)
  }

  // Whether kind k is waited for and may go.
  predicate MayWake(s: State, k: Kind) {
    Can(k, s.buffer) && s.waiting.Get(k) > 0
  }

  // Whom a thread of kind k wakes: of the other kinds, the first in this order that
  // may go.
  function HandTo(s: State, k: Kind): Option<Kind> {
    if k != A1 && MayWake(s, A1) then Some(A1)
    else if k != A2 && MayWake(s, A2) then Some(A2)
    else if k != B1 && MayWake(s, B1) then Some(B1)
    else if k != B2 && MayWake(s, B2) then Some(B2)
    else None
  }

  predicate Producer(k: Kind) { k == A1 || k == A2 }

  // Only taking the mutex and passing the gate can block.
  predicate Enabled(s: State, t: nat) {
    && t < |s.threads|
    && (s.threads[t].pc == AtLock ==> s.mutex)
    && (s.threads[t].pc == AtGate ==> s.gate.Get(s.threads[t].kind))
  }

  function Move(s: State, t: nat, pc: Pc): State
    requires t < |s.threads|
  {
    s.(threads := s.threads[t := s.threads[t].(pc := pc)])
  }

  function Act(s: State, t: nat): State
    requires t < |s.threads|
  {
    var th := s.threads[t];
    if Producer(th.kind) then
      s.(threads := s.threads[t := th.(pc := AtHand, next := (th.next + 2) % 50, made := th.made + 1)],
         buffer := s.buffer + [th.next],
         produced := s.produced + [Event(th.kind, th.next)])
    else
      Move(s, t, AtHand).(buffer := if s.buffer == [] then [] else s.buffer[1..],
                          consumed := s.consumed + [Event(th.kind, if s.buffer == [] then -1 else s.buffer[0])])
  }

  function HandOver(s: State, t: nat): State
    requires t < |s.threads|
  {
    match HandTo(s, s.threads[t].kind)
    case Some(k) => Move(s, t, AtLock).(gate := s.gate.Set(k, true))
    case None => Move(s, t, AtLock).(mutex := true)
  }

  // One step of thread t.
  function Next(s: State, t: nat): State
    requires Enabled(s, t)
  {
    var k := s.threads[t].kind;
    match s.threads[t].pc
    case AtLock => Move(s, t, AtTest).(mutex := false)
    case AtTest => Move(s, t, if Can(k, s.buffer) then AtAct else AtPark)
    case AtPark => Move(s, t, AtRelease).(waiting := s.waiting.Set(k, s.waiting.Get(k) + 1))
    case AtRelease => Move(s, t, AtGate).(mutex := true)
    case AtGate => Move(s, t, AtWoken).(gate := s.gate.Set(k, false))
    case AtWoken => Move(s, t, AtAct).(waiting := s.waiting.Set(k, s.waiting.Get(k) - 1))
    case AtAct => Act(s, t)
    case AtHand => HandOver(s, t)
  }

  // The state after the threads named in the schedule have stepped in turn.
  function Run(s: State, schedule: seq<nat>): Option<State>
    decreases |schedule|
  {
    if schedule == [] then Some(s)
    else if Enabled(s, schedule[0]) then Run(Next(s, schedule[0]), schedule[1..])
    else None
  }

  // All gates closed and nothing in the buffer; the last scenario starts with the
  // mutex taken.
  predicate Initial(s: State, mutexFree: bool) {
    && s.mutex == mutexFree && s.gate == PerKind(false, false, false, false)
    && s.waiting == PerKind(0, 0, 0, 0)
    && s.buffer == [] && s.produced == [] && s.consumed == []
    && forall t :: 0 <= t < |s.threads| ==>
         s.threads[t] == Thread(s.threads[t].kind, AtLock, if s.threads[t].kind == A2 then 1 else 0, 0)
  }

  // ----- the invariant -----

  // Between taking the mutex or passing a gate and giving the baton up.
  predicate Inside(th: Thread) {
    th.pc != AtLock && th.pc != AtGate
  }

  function Holders(s: State): (r: set<int>)
    ensures forall t :: t in r <==> 0 <= t < |s.threads| && Inside(s.threads[t])
  {
    set t | 0 <= t < |s.threads| && Inside(s.threads[t])
  }

  // Batons: in the mutex, in an open gate, or in the hands of a thread inside.
  function Tokens(s: State): int {
    Bit(s.mutex) + Bit(s.gate.a1) + Bit(s.gate.a2) + Bit(s.gate.b1) + Bit(s.gate.b2) + |Holders(s)|
  }

  // Threads counted as waiting for kind k.
  function Waiters(s: State, k: Kind): (r: set<int>)
    ensures forall t :: t in r <==> 0 <= t < |s.threads| && Waits(s.threads[t], k)
  {
    set t | 0 <= t < |s.threads| && Waits(s.threads[t], k)
  }

  predicate Waits(th: Thread, k: Kind) {
    th.kind == k && (th.pc == AtRelease || th.pc == AtGate || th.pc == AtWoken)
  }

  // What a thread knows of its own condition where it stands.
  predicate KnowsCondition(th: Thread, b: seq<int>) {
    && (th.pc == AtPark || th.pc == AtRelease ==> !Can(th.kind, b))
    && (th.pc == AtWoken || th.pc == AtAct ==> Can(th.kind, b))
  }

  // Nobody is on the way from a wake-up, or from a successful test, to handing over.
  predicate Settled(s: State) {
    && s.gate == PerKind(false, false, false, false)
    && forall t :: 0 <= t < |s.threads| ==>
         s.threads[t].pc != AtWoken && s.threads[t].pc != AtAct && s.threads[t].pc != AtHand
  }

  predicate AnyUnparked(s: State, k: Kind) {
    exists t :: 0 <= t < |s.threads| && Unparked(s.threads[t], k)
  }

  predicate Unparked(th: Thread, k: Kind) {
    th.kind == k && th.pc != AtGate
  }

  // There is one baton; the counters count who waits; whoever was woken, or is about
  // to be, may go; and a kind that is waited for and may go is not all parked once
  // everything has settled.
  predicate Baton(s: State) {
    && Tokens(s) == 1
    && (forall k :: s.waiting.Get(k) == |Waiters(s, k)|)
    && (forall t :: 0 <= t < |s.threads| ==> KnowsCondition(s.threads[t], s.buffer))
    && (forall k :: s.gate.Get(k) ==> MayWake(s, k))
    && (Settled(s) ==> forall k :: MayWake(s, k) ==> AnyUnparked(s, k))
  }

  // Every step of every thread keeps the baton in order.
  lemma StepKeepsBaton(s: State, t: nat)
    requires Baton(s) && Enabled(s, t)
    ensures Baton(Next(s, t))
  {
    match s.threads[t].pc
    case AtLock => StepAtLock(s, t);
    case AtTest => StepAtTest(s, t);
    case AtPark => StepAtPark(s, t);
    case AtRelease => StepAtRelease(s, t);
    case AtGate => StepAtGate(s, t);
    case AtWoken => StepAtWoken(s, t);
    case AtAct => StepAtAct(s, t);
    case AtHand => StepAtHand(s, t);
  }

  // ----- deadlock -----

  predicate Present(s: State, k: Kind) {
    exists t :: 0 <= t < |s.threads| && s.threads[t].kind == k
  }

  ghost predicate AllPresent(s: State) {
    forall k :: Present(s, k)
  }

  predicate NonNegative(b: seq<int>) {
    forall i :: 0 <= i < |b| ==> 0 <= b[i]
  }

  // A thread that waits shows in the counter of its kind.
  lemma WaiterCounts(s: State, k: Kind, u: int)
    requires Baton(s) && 0 <= u < |s.threads| && Waits(s.threads[u], k)
    ensures s.waiting.Get(k) > 0
  {
  }

  // While the mutex is free, a kind that may go has a thread about to lock it.
  lemma UnparkedIsAtLock(s: State, k: Kind) returns (t: nat)
    requires Baton(s) && s.mutex && Can(k, s.buffer) && Present(s, k)
    ensures Enabled(s, t) && s.threads[t].kind == k && s.threads[t].pc == AtLock
  {
    NobodyInside(s);
    var u :| 0 <= u < |s.threads| && s.threads[u].kind == k;
    if s.threads[u].pc == AtGate {
      WaiterCounts(s, k, u);
      assert MayWake(s, k);
      assert Settled(s);
      t :| 0 <= t < |s.threads| && Unparked(s.threads[t], k);
    } else {
      t := u;
    }
    assert !Inside(s.threads[t]);
  }

  lemma WaitedForIsAtGate(s: State, k: Kind) returns (t: nat)
    requires Baton(s) && s.gate.Get(k)
    ensures Enabled(s, t) && s.threads[t].kind == k
  {
    NobodyInside(s);
    assert |Waiters(s, k)| > 0;
    t := AnyOf(Waiters(s, k));
    assert !Inside(s.threads[t]);
  }

  lemma AnyOf<T>(a: set<T>) returns (x: T)
    requires |a| > 0
    ensures x in a
  {
    x :| x in a;
  }

  // Some thread can step, if of some kind that may go there is a thread at all whenever the
  // mutex is free.
  lemma SomeoneSteps(s: State, k: Kind) returns (t: nat)
    requires Baton(s) && (s.mutex ==> Can(k, s.buffer) && Present(s, k))
    ensures Enabled(s, t)
  {
    hide Can, Waiters;
    if s.mutex {
      t := UnparkedIsAtLock(s, k);
    } else if j :| s.gate.Get(j) {
      t := WaitedForIsAtGate(s, j);
    } else {
      assert !s.gate.Get(A1) && !s.gate.Get(A2) && !s.gate.Get(B1) && !s.gate.Get(B2);
      t := AnyOf(Holders(s));
    }
  }

  // With all four kinds present, some thread can always step.
  lemma NoDeadlock(s: State) returns (t: nat)
    requires Baton(s) && NonNegative(s.buffer) && AllPresent(s)
    ensures Enabled(s, t)
  {
    SomeoneCan(s.buffer);
    hide Baton;
    var k := if CanProdEven(s.buffer) then A1 else if CanProdOdd(s.buffer) then A2
             else if CanConsEven(s.buffer) then B1 else B2;
    t := SomeoneSteps(s, k);
  }

  // ----- what is in the buffer -----

  function Numbers(es: seq<Event>): (vs: seq<int>)
    ensures |vs| == |es|
  {
    if es == [] then [] else Numbers(es[..|es| - 1]) + [es[|es| - 1].value]
  }

  lemma NumbersOfOneMore(es: seq<Event>, e: Event)
    ensures Numbers(es + [e]) == Numbers(es) + [e.value]
  {
  }

  predicate EvenKind(k: Kind) { k == A1 || k == B1 }

  // Each kind handles numbers of its own parity, all of them real numbers.
  predicate InOrder(e: Event) {
    0 <= e.value < 50 && (e.value % 2 == 0 <==> EvenKind(e.kind))
  }

  // The next number of a producer that has put made numbers so far.
  predicate CountsUp(th: Thread) {
    Producer(th.kind) ==> th.next == (2 * th.made + if th.kind == A1 then 0 else 1) % 50
  }

  // Numbers leave in the order they came, each kind handles its own parity, and there
  // are never more than ten numbers of either parity.
  predicate Stock(s: State) {
    && Numbers(s.produced) == Numbers(s.consumed) + s.buffer
    && (forall i :: 0 <= i < |s.produced| ==> Producer(s.produced[i].kind) && InOrder(s.produced[i]))
    && (forall i :: 0 <= i < |s.consumed| ==> !Producer(s.consumed[i].kind) && InOrder(s.consumed[i]))
    && (forall i :: 0 <= i < |s.buffer| ==> 0 <= s.buffer[i] < 50)
    && Evens(s.buffer) <= 10 && Odds(s.buffer) <= 10
    && forall t :: 0 <= t < |s.threads| ==> CountsUp(s.threads[t])
  }

  lemma CountingUp(th: Thread)
    requires CountsUp(th) && Producer(th.kind)
    ensures InOrder(Event(th.kind, th.next))
    ensures CountsUp(th.(next := (th.next + 2) % 50, made := th.made + 1))
  {
    StepsByTwo(th.made, if th.kind == A1 then 0 else 1);
  }

  lemma StepsByTwo(n: nat, odd: int)
    requires 0 <= odd <= 1
    ensures ((2 * n + odd) % 50) % 2 == odd
    ensures ((2 * n + odd) % 50 + 2) % 50 == (2 * (n + 1) + odd) % 50
  {
    var x, q := (2 * n + odd) % 50, (2 * n + odd) / 50;
    assert x == 2 * (n - 25 * q) + odd;
    assert 2 * (n + 1) + odd == 50 * q + (x + 2);
  }

  // Only putting and getting touch the buffer and what threads remember.
  lemma OthersKeepStock(s: State, t: nat)
    requires Enabled(s, t) && s.threads[t].pc != AtAct
    ensures var s' := Next(s, t);
            && s'.buffer == s.buffer && s'.produced == s.produced && s'.consumed == s.consumed
            && |s'.threads| == |s.threads|
            && forall u :: 0 <= u < |s.threads| ==> s'.threads[u] == s.threads[u].(pc := s'.threads[u].pc)
  {
  }

  lemma StepKeepsStock(s: State, t: nat)
    requires Baton(s) && Stock(s) && Enabled(s, t)
    ensures Stock(Next(s, t))
    ensures 2 <= |s.buffer| ==> 2 <= |Next(s, t).buffer|
  {
    hide Evens, Odds, Numbers, Can, Act, HandOver;
    var th := s.threads[t];
    if th.pc == AtAct {
      assert KnowsCondition(th, s.buffer);
      if Producer(th.kind) {
        PutKeepsStock(s, t);
      } else {
        GetKeepsStock(s, t);
      }
    } else {
      OthersKeepStock(s, t);
    }
  }

  lemma PutKeepsStock(s: State, t: nat)
    requires Stock(s) && t < |s.threads| && Producer(s.threads[t].kind) && Can(s.threads[t].kind, s.buffer)
    ensures Stock(Act(s, t)) && |Act(s, t).buffer| == |s.buffer| + 1
  {
    hide Evens, Odds, Numbers;
    var th := s.threads[t];
    CountingUp(th);
    CountsOfOneMore(s.buffer, th.next);
    NumbersOfOneMore(s.produced, Event(th.kind, th.next));
    assert Numbers(s.consumed) + (s.buffer + [th.next]) == Numbers(s.consumed) + s.buffer + [th.next];
  }

  lemma GetKeepsStock(s: State, t: nat)
    requires Stock(s) && t < |s.threads| && !Producer(s.threads[t].kind) && Can(s.threads[t].kind, s.buffer)
    ensures Stock(Act(s, t)) && |Act(s, t).buffer| >= 2
    ensures Act(s, t).consumed == s.consumed + [Event(s.threads[t].kind, s.buffer[0])]
  {
    hide Numbers;
    var th := s.threads[t];
    var e := Event(th.kind, s.buffer[0]);
    NumbersOfOneMore(s.consumed, e);
    assert Numbers(s.consumed) + [e.value] + s.buffer[1..] == Numbers(s.consumed) + s.buffer;
  }

  // ----- all runs -----

  predicate Safe(s: State) {
    Baton(s) && Stock(s)
  }

  lemma InitiallyNobodyInside(s: State, mutexFree: bool)
    requires Initial(s, mutexFree)
    ensures Holders(s) == {} && forall k :: Waiters(s, k) == {}
  {
  }

  lemma InitialIsSafe(s: State)
    requires Initial(s, true)
    ensures Safe(s)
  {
    hide Holders, Waiters, Can;
    InitiallyNobodyInside(s, true);
  }

  // Whatever the schedule, the invariants hold, and a buffer that once held two
  // numbers never holds fewer.
  lemma {:induction false} RunsAreSafe(s: State, schedule: seq<nat>)
    requires Safe(s) && Run(s, schedule).Some?
    ensures Safe(Run(s, schedule).value)
    ensures 2 <= |s.buffer| ==> 2 <= |Run(s, schedule).value.buffer|
    ensures SameKinds(s, Run(s, schedule).value)
    decreases |schedule|
  {
    if schedule != [] {
      hide Baton, Stock, Next;
      StepIsSafe(s, schedule[0]);
      RunsAreSafe(Next(s, schedule[0]), schedule[1..]);
    }
  }

  // The threads and their kinds never change.
  predicate SameKinds(s: State, s': State) {
    |s'.threads| == |s.threads| && forall t :: 0 <= t < |s.threads| ==> s'.threads[t].kind == s.threads[t].kind
  }

  lemma StepIsSafe(s: State, t: nat)
    requires Safe(s) && Enabled(s, t)
    ensures Safe(Next(s, t)) && SameKinds(s, Next(s, t))
    ensures 2 <= |s.buffer| ==> 2 <= |Next(s, t).buffer|
  {
    hide Baton, Stock;
    StepKeepsBaton(s, t);
    StepKeepsStock(s, t);
  }

  lemma PresentStays(s: State, s': State, k: Kind)
    requires SameKinds(s, s') && Present(s, k)
    ensures Present(s', k)
  {
  }

  // A thread that was woken, or that has tested, finds its condition true when it acts.
  lemma ActsOnlyIfItMay(s: State, schedule: seq<nat>, t: nat)
    requires Initial(s, true) && Run(s, schedule).Some?
    requires t < |Run(s, schedule).value.threads| && Run(s, schedule).value.threads[t].pc == AtAct
    ensures var now := Run(s, schedule).value; Can(now.threads[t].kind, now.buffer)
    ensures var now := Run(s, schedule).value; !Producer(now.threads[t].kind) ==>
              (now.buffer != [] && Next(now, t).buffer == now.buffer[1..]
                && Next(now, t).consumed == now.consumed + [Event(now.threads[t].kind, now.buffer[0])])
  {
    InitialIsSafe(s);
    RunsAreSafe(s, schedule);
    var now := Run(s, schedule).value;
    assert KnowsCondition(now.threads[t], now.buffer);
  }

  // What a reader of the assignment expects of every run: the limits on the buffer hold,
  // every number produced is consumed in order or still there, no consumer takes a number
  // of the wrong parity, and exactly one baton is about.
  lemma RunsKeepTheRules(s: State, schedule: seq<nat>)
    requires Initial(s, true) && Run(s, schedule).Some?
    ensures var now := Run(s, schedule).value;
            && Evens(now.buffer) <= 10 && Odds(now.buffer) <= 10 && Tokens(now) == 1
            && Numbers(now.produced) == Numbers(now.consumed) + now.buffer
            && forall i :: 0 <= i < |now.consumed| ==>
                 && (now.consumed[i].kind == B1 || now.consumed[i].kind == B2)
                 && (now.consumed[i].kind == B1 <==> now.consumed[i].value % 2 == 0)
  {
    InitialIsSafe(s);
    RunsAreSafe(s, schedule);
    var now := Run(s, schedule).value;
    assert forall i :: 0 <= i < |now.consumed| ==> InOrder(now.consumed[i]);
  }

  // ----- what a lone producer produces -----

  // The numbers that kind k has put, or taken, in order.
  function HandledBy(es: seq<Event>, k: Kind): seq<int> {
    if es == [] then []
    else if es[|es| - 1].kind == k then HandledBy(es[..|es| - 1], k) + [es[|es| - 1].value]
    else HandledBy(es[..|es| - 1], k)
  }

  // The first n numbers counting up in twos modulo 50.
  function CountUp(k: Kind, n: nat): seq<int> {
    seq(n, i requires 0 <= i < n => (2 * i + if k == A1 then 0 else 1) % 50)
  }

  // The first n numbers counting up in twos from x.
  function EvensFrom(x: int, n: nat): seq<int> {
    seq(n, i requires 0 <= i < n => x + 2 * i)
  }

  // Thread t is the only one of kind k.
  predicate Sole(s: State, t: nat, k: Kind) {
    t < |s.threads| && s.threads[t].kind == k
    && forall u :: 0 <= u < |s.threads| && u != t ==> s.threads[u].kind != k
  }

  // With the mutex taken from the start nothing ever runs.
  lemma LockedNeverRuns(s: State, t: nat)
    requires Initial(s, false)
    ensures Tokens(s) == 0 && !Enabled(s, t)
  {
  }

  lemma HandledByOfOneMore(es: seq<Event>, e: Event, k: Kind)
    ensures HandledBy(es + [e], k) == if e.kind == k then HandledBy(es, k) + [e.value] else HandledBy(es, k)
  {
  }

  lemma CountUpOneMore(k: Kind, n: nat)
    ensures CountUp(k, n + 1) == CountUp(k, n) + [(2 * n + if k == A1 then 0 else 1) % 50]
  {
  }

  lemma StepOfSole(s: State, t: nat, k: Kind, u: nat)
    requires Safe(s) && Producer(k) && Sole(s, t, k) && Enabled(s, u)
    requires HandledBy(s.produced, k) == CountUp(k, s.threads[t].made)
    ensures Sole(Next(s, u), t, k)
    ensures HandledBy(Next(s, u).produced, k) == CountUp(k, Next(s, u).threads[t].made)
  {
    hide Baton, Can, HandOver, Evens, Odds, Numbers, HandledBy, CountUp;
    if s.threads[u].pc != AtAct {
      OthersKeepStock(s, u);
    } else if Producer(s.threads[u].kind) {
      HandledByOfOneMore(s.produced, Event(s.threads[u].kind, s.threads[u].next), k);
      assert CountsUp(s.threads[u]);
      CountUpOneMore(k, s.threads[t].made);
    }
  }

  lemma {:induction false} RunOfSole(s: State, schedule: seq<nat>, t: nat, k: Kind)
    requires Safe(s) && Producer(k) && Sole(s, t, k) && Run(s, schedule).Some?
    requires HandledBy(s.produced, k) == CountUp(k, s.threads[t].made)
    ensures var now := Run(s, schedule).value;
            t < |now.threads| && HandledBy(now.produced, k) == CountUp(k, now.threads[t].made)
    decreases |schedule|
  {
    if schedule != [] {
      hide Baton, Stock, Next, HandledBy, CountUp;
      StepIsSafe(s, schedule[0]);
      StepOfSole(s, t, k, schedule[0]);
      RunOfSole(Next(s, schedule[0]), schedule[1..], t, k);
    }
  }

  // With one producer of kind k, the i-th number it puts is 2i, or 2i + 1, modulo 50.
  lemma SoleProducerCountsUp(s: State, schedule: seq<nat>, t: nat, k: Kind, i: nat)
    requires Initial(s, true) && Producer(k) && Sole(s, t, k) && Run(s, schedule).Some?
    requires i < |HandledBy(Run(s, schedule).value.produced, k)|
    ensures HandledBy(Run(s, schedule).value.produced, k)[i] == (2 * i + if k == A1 then 0 else 1) % 50
  {
    InitialIsSafe(s);
    RunOfSole(s, schedule, t, k);
  }

  // ----- producers alone come to a stop -----

  predicate OnlyProducers(s: State) {
    forall t :: 0 <= t < |s.threads| ==> Producer(s.threads[t].kind)
  }

  // How many steps a thread can take before it has to put a number.
  function Rank(pc: Pc): nat {
    match pc
    case AtHand => 7
    case AtLock => 6
    case AtTest => 5
    case AtPark => 4
    case AtRelease => 3
    case AtGate => 2
    case AtWoken => 1
    case AtAct => 0
  }

  function Ranks(ths: seq<Thread>): (r: nat)
    ensures r <= 7 * |ths|
  {
    if ths == [] then 0 else Rank(ths[0].pc) + Ranks(ths[1..])
  }

  lemma {:induction false} RanksMove(ths: seq<Thread>, t: nat, th: Thread)
    requires t < |ths|
    ensures Ranks(ths[t := th]) == Ranks(ths) + Rank(th.pc) - Rank(ths[t].pc)
  {
    if t > 0 {
      assert ths[t := th][1..] == ths[1..][t - 1 := th];
      RanksMove(ths[1..], t - 1, th);
    } else {
      assert ths[0 := th][1..] == ths[1..];
    }
  }

  // Every step brings the end of a run of producers nearer.
  function StepsLeft(s: State): int {
    8 * (20 - |s.produced|) + Ranks(s.threads)
  }

  // With producers only, nothing leaves the buffer and odd numbers never lead.
  predicate Filling(s: State) {
    OnlyProducers(s) && s.consumed == [] && |s.produced| == |s.buffer| && Odds(s.buffer) <= Evens(s.buffer)
  }

  lemma FillingStep(s: State, t: nat)
    requires Safe(s) && Filling(s) && Enabled(s, t)
    ensures Filling(Next(s, t)) && StepsLeft(Next(s, t)) < StepsLeft(s)
    ensures SameKinds(s, Next(s, t))
  {
    hide HandTo, Ranks, Evens, Odds, Tokens, Settled;
    var s' := Next(s, t);
    RanksMove(s.threads, t, s'.threads[t]);
    if s.threads[t].pc == AtAct {
      assert KnowsCondition(s.threads[t], s.buffer) && CountsUp(s.threads[t]);
      CountsOfOneMore(s.buffer, s.threads[t].next);
      CountingUp(s.threads[t]);
    } else {
      OthersKeepStock(s, t);
      assert s'.threads == s.threads[t := s'.threads[t]];
    }
  }

  lemma {:induction false} FillingRun(s: State, schedule: seq<nat>)
    requires Safe(s) && Filling(s) && Run(s, schedule).Some?
    ensures var now := Run(s, schedule).value;
            Safe(now) && Filling(now) && SameKinds(s, now) && |schedule| <= StepsLeft(s) - StepsLeft(now)
    decreases |schedule|
  {
    if schedule != [] {
      hide Baton, Stock, Next, Filling, StepsLeft;
      StepIsSafe(s, schedule[0]);
      FillingStep(s, schedule[0]);
      RunsAreSafe(s, schedule);
      FillingRun(Next(s, schedule[0]), schedule[1..]);
    }
  }

  // A run of producers only is bounded, whatever the schedule ...
  lemma ProducersStop(s: State, schedule: seq<nat>)
    requires Initial(s, true) && OnlyProducers(s) && Run(s, schedule).Some?
    ensures |schedule| <= 160 + 7 * |s.threads|
  {
    InitialIsSafe(s);
    FillingRun(s, schedule);
    var now := Run(s, schedule).value;
    EvensAndOddsAreAll(now.buffer);
  }

  // ... and where no thread can step any more, the producers of even numbers have put
  // ten, and those of odd numbers have followed suit.
  lemma WhereProducersStop(s: State, schedule: seq<nat>)
    requires Initial(s, true) && OnlyProducers(s) && Run(s, schedule).Some?
    requires forall t: nat :: !Enabled(Run(s, schedule).value, t)
    ensures var now := Run(s, schedule).value;
            && Numbers(now.produced) == now.buffer
            && (Present(s, A1) ==> Evens(now.buffer) == 10)
            && (Present(s, A2) ==> Odds(now.buffer) == Evens(now.buffer))
            && (Present(s, A1) && Present(s, A2) ==> |now.produced| == 20)
  {
    InitialIsSafe(s);
    FillingRun(s, schedule);
    hide Run, Initial, Ranks, Tokens, Evens, Odds, Settled, Waiters;
    var now := Run(s, schedule).value;
    EvensAndOddsAreAll(now.buffer);
    StuckIsParked(now);
    if Present(s, A1) {
      PresentStays(s, now, A1);
      if Can(A1, now.buffer) { var t := UnparkedIsAtLock(now, A1); }
    }
    if Present(s, A2) {
      PresentStays(s, now, A2);
      if Can(A2, now.buffer) { var t := UnparkedIsAtLock(now, A2); }
    }
  }

  // Where no thread can step, the baton is in the mutex.
  lemma StuckIsParked(s: State)
    requires Baton(s) && forall t: nat :: !Enabled(s, t)
    ensures s.mutex
  {
    if !s.mutex {
      if k :| s.gate.Get(k) {
        var t := WaitedForIsAtGate(s, k);
      } else {
        assert !s.gate.Get(A1) && !s.gate.Get(A2) && !s.gate.Get(B1) && !s.gate.Get(B2);
        var t: nat := AnyOf(Holders(s));
        assert Enabled(s, t);
      }
    }
  }

  // ----- the steps, one by one -----

  // Thread t has moved to pc; the others have not moved.
  predicate Moved(s: State, t: nat, pc: Pc, s': State) {
    && t < |s.threads| && |s'.threads| == |s.threads|
    && s'.threads[t].kind == s.threads[t].kind && s'.threads[t].pc == pc
    && forall u :: 0 <= u < |s.threads| && u != t ==> s'.threads[u] == s.threads[u]
  }

  lemma OneMoved<T>(a: set<T>, b: set<T>, t: T)
    requires forall u :: u != t ==> (u in b <==> u in a)
    ensures |b| == |a| + Bit(t in b) - Bit(t in a)
  {
    assert b - {t} == a - {t};
    assert |a| == |a - {t}| + Bit(t in a);
    assert |b| == |b - {t}| + Bit(t in b);
  }

  lemma MovedHolders(s: State, t: nat, pc: Pc, s': State)
    requires Moved(s, t, pc, s')
    ensures |Holders(s')| == |Holders(s)| + Bit(Inside(s'.threads[t])) - Bit(Inside(s.threads[t]))
  {
    var a, b := Holders(s), Holders(s');
    forall u
      ensures u in b <==> if u == t then Inside(s'.threads[t]) else u in a
    {
    }
    OneMoved(a, b, t);
  }

  lemma MovedWaiters(s: State, t: nat, pc: Pc, s': State, k: Kind)
    requires Moved(s, t, pc, s')
    ensures |Waiters(s', k)| == |Waiters(s, k)| + Bit(Waits(s'.threads[t], k)) - Bit(Waits(s.threads[t], k))
  {
    var a, b := Waiters(s, k), Waiters(s', k);
    forall u
      ensures u in b <==> if u == t then Waits(s'.threads[t], k) else u in a
    {
    }
    OneMoved(a, b, t);
  }

  // The counter of kind k moves with the thread that waits, or stops waiting, for it.
  predicate CounterFollows(s: State, t: nat, s': State, k: Kind)
    requires t < |s.threads| && |s'.threads| == |s.threads|
  {
    s'.waiting.Get(k) == s.waiting.Get(k) + Bit(Waits(s'.threads[t], k)) - Bit(Waits(s.threads[t], k))
  }

  lemma CountersStayRight(s: State, t: nat, pc: Pc, s': State)
    requires Baton(s) && Moved(s, t, pc, s') && forall k :: CounterFollows(s, t, s', k)
    ensures forall k :: s'.waiting.Get(k) == |Waiters(s', k)|
  {
    forall k
      ensures s'.waiting.Get(k) == |Waiters(s', k)|
    {
      MovedWaiters(s, t, pc, s', k);
      assert CounterFollows(s, t, s', k);
    }
  }

  // A thread inside holds the one baton.
  lemma Alone(s: State, t: nat)
    requires Tokens(s) == 1 && t < |s.threads| && Inside(s.threads[t])
    ensures Holders(s) == {t} && !s.mutex && s.gate == PerKind(false, false, false, false)
    ensures forall u :: 0 <= u < |s.threads| && u != t ==> !Inside(s.threads[u])
  {
    assert {t} <= Holders(s);
    SubsetIsSmaller({t}, Holders(s));
    OnlyOne(Holders(s), t);
    assert forall u :: 0 <= u < |s.threads| && u != t ==> u !in Holders(s);
  }

  lemma OnlyOne<T>(a: set<T>, x: T)
    requires x in a && |a| == 1
    ensures a == {x}
  {
    assert |a - {x}| == 0;
  }

  // With the baton elsewhere nobody is inside.
  lemma NobodyInside(s: State)
    requires Tokens(s) == 1 && (s.mutex || exists k :: s.gate.Get(k))
    ensures Holders(s) == {} && forall u :: 0 <= u < |s.threads| ==> !Inside(s.threads[u])
    ensures s.mutex ==> s.gate == PerKind(false, false, false, false)
    ensures forall k :: s.gate.Get(k) ==> !s.mutex && s.gate == PerKind(false, false, false, false).Set(k, true)
  {
  }

  lemma UnparkedStays(s: State, t: nat, pc: Pc, s': State, k: Kind)
    requires Moved(s, t, pc, s') && AnyUnparked(s, k) && (pc != AtGate || k != s.threads[t].kind)
    ensures AnyUnparked(s', k)
  {
  }

  lemma StepAtLock(s: State, t: nat)
    requires Baton(s) && Enabled(s, t) && s.threads[t].pc == AtLock
    ensures Baton(Next(s, t))
  {
    hide Can, Holders, Waiters, HandTo;
    var s' := Next(s, t);
    NobodyInside(s);
    assert Moved(s, t, s'.threads[t].pc, s');
    MovedHolders(s, t, s'.threads[t].pc, s');
    CountersStayRight(s, t, s'.threads[t].pc, s');
    forall k | MayWake(s', k)
      ensures AnyUnparked(s', k)
    {
      assert AnyUnparked(s, k);
      UnparkedStays(s, t, s'.threads[t].pc, s', k);
    }
  }

  lemma StepAtTest(s: State, t: nat)
    requires Baton(s) && Enabled(s, t) && s.threads[t].pc == AtTest
    ensures Baton(Next(s, t))
  {
    hide Can, Holders, Waiters, HandTo;
    var s' := Next(s, t);
    Alone(s, t);
    assert Moved(s, t, s'.threads[t].pc, s');
    MovedHolders(s, t, s'.threads[t].pc, s');
    CountersStayRight(s, t, s'.threads[t].pc, s');
    if s'.threads[t].pc == AtPark {
      forall k | MayWake(s', k)
        ensures AnyUnparked(s', k)
      {
        UnparkedStays(s, t, s'.threads[t].pc, s', k);
      }
    }
  }

  lemma StepAtPark(s: State, t: nat)
    requires Baton(s) && Enabled(s, t) && s.threads[t].pc == AtPark
    ensures Baton(Next(s, t))
  {
    hide Can, Holders, Waiters, HandTo;
    var s' := Next(s, t);
    Alone(s, t);
    assert Moved(s, t, s'.threads[t].pc, s');
    MovedHolders(s, t, s'.threads[t].pc, s');
    CountersStayRight(s, t, s'.threads[t].pc, s');
    forall k | MayWake(s', k)
      ensures AnyUnparked(s', k)
    {
      assert k != s.threads[t].kind;
      UnparkedStays(s, t, s'.threads[t].pc, s', k);
    }
  }

  lemma StepAtRelease(s: State, t: nat)
    requires Baton(s) && Enabled(s, t) && s.threads[t].pc == AtRelease
    ensures Baton(Next(s, t))
  {
    hide Can, Holders, Waiters, HandTo;
    var s' := Next(s, t);
    Alone(s, t);
    assert Moved(s, t, s'.threads[t].pc, s');
    MovedHolders(s, t, s'.threads[t].pc, s');
    CountersStayRight(s, t, s'.threads[t].pc, s');
    forall k | MayWake(s', k)
      ensures AnyUnparked(s', k)
    {
      assert k != s.threads[t].kind;
      UnparkedStays(s, t, s'.threads[t].pc, s', k);
    }
  }

  lemma StepAtGate(s: State, t: nat)
    requires Baton(s) && Enabled(s, t) && s.threads[t].pc == AtGate
    ensures Baton(Next(s, t))
  {
    hide Can, Holders, Waiters, HandTo;
    var s' := Next(s, t);
    NobodyInside(s);
    assert Moved(s, t, s'.threads[t].pc, s');
    MovedHolders(s, t, s'.threads[t].pc, s');
    CountersStayRight(s, t, s'.threads[t].pc, s');
  }

  lemma StepAtWoken(s: State, t: nat)
    requires Baton(s) && Enabled(s, t) && s.threads[t].pc == AtWoken
    ensures Baton(Next(s, t))
  {
    hide Can, Holders, Waiters, HandTo;
    var s' := Next(s, t);
    Alone(s, t);
    assert Moved(s, t, s'.threads[t].pc, s');
    MovedHolders(s, t, s'.threads[t].pc, s');
    CountersStayRight(s, t, s'.threads[t].pc, s');
  }

  lemma StepAtAct(s: State, t: nat)
    requires Baton(s) && Enabled(s, t) && s.threads[t].pc == AtAct
    ensures Baton(Next(s, t))
  {
    hide Can, Holders, Waiters, HandTo;
    var s' := Next(s, t);
    Alone(s, t);
    assert Moved(s, t, s'.threads[t].pc, s');
    MovedHolders(s, t, s'.threads[t].pc, s');
    CountersStayRight(s, t, s'.threads[t].pc, s');
  }

  lemma StepAtHand(s: State, t: nat)
    requires Baton(s) && Enabled(s, t) && s.threads[t].pc == AtHand
    ensures Baton(Next(s, t))
  {
    hide Can, Holders, Waiters;
    var s' := Next(s, t);
    Alone(s, t);
    assert Moved(s, t, AtLock, s');
    MovedHolders(s, t, AtLock, s');
    CountersStayRight(s, t, AtLock, s');
    if HandTo(s, s.threads[t].kind).None? {
      forall k | MayWake(s', k)
        ensures AnyUnparked(s', k)
      {
        assert k == s.threads[t].kind;
        assert Unparked(s'.threads[t], k);
      }
    }
  }

  // ----- whole turns, and runs made of them -----

  lemma {:induction false} RunJoined(s: State, a: seq<nat>, b: seq<nat>)
    requires Run(s, a).Some?
    ensures Run(s, a + b) == Run(Run(s, a).value, b)
    decreases |a|
  {
    if a == [] {
      assert a + b == b;
    } else {
      assert (a + b)[1..] == a[1..] + b;
      RunJoined(Next(s, a[0]), a[1..], b);
    }
  }

  lemma FourSteps(s: State, t: nat, s': State)
    requires Enabled(s, t) && Enabled(Next(s, t), t) && Enabled(Next(Next(s, t), t), t)
    requires Enabled(Next(Next(Next(s, t), t), t), t) && Next(Next(Next(Next(s, t), t), t), t) == s'
    ensures Run(s, [t, t, t, t]) == Some(s')
  {
    hide Next, Enabled;
    var s1 := Next(s, t);
    var s2 := Next(s1, t);
    var s3 := Next(s2, t);
    assert [t, t, t, t][1..] == [t, t, t] && [t, t, t][1..] == [t, t] && [t, t][1..] == [t] && [t][1..] == [];
    assert Run(s3, [t]) == Some(s');
    assert Run(s2, [t, t]) == Some(s');
    assert Run(s1, [t, t, t]) == Some(s');
  }

  // Four steps of thread t go on from a run.
  lemma FourMore(s: State, schedule: seq<nat>, now: State, t: nat, s': State) returns (schedule': seq<nat>)
    requires Run(s, schedule) == Some(now)
    requires Enabled(now, t) && Enabled(Next(now, t), t) && Enabled(Next(Next(now, t), t), t)
    requires Enabled(Next(Next(Next(now, t), t), t), t) && Next(Next(Next(Next(now, t), t), t), t) == s'
    ensures Run(s, schedule') == Some(s')
  {
    hide Next, Enabled, Run;
    FourSteps(now, t, s');
    RunJoined(s, schedule, [t, t, t, t]);
    schedule' := schedule + [t, t, t, t];
  }

  // Thread t locks, may go, acts, wakes nobody and unlocks.
  function OwnTurn(s: State, t: nat): State
    requires t < |s.threads|
  {
    var acted := Act(s, t);
    acted.(threads := acted.threads[t := acted.threads[t].(pc := AtLock)])
  }

  lemma TakeTurn(s: State, schedule: seq<nat>, now: State, t: nat) returns (schedule': seq<nat>)
    requires Run(s, schedule) == Some(now)
    requires t < |now.threads| && now.mutex && now.threads[t].pc == AtLock && Can(now.threads[t].kind, now.buffer)
    requires now.waiting == PerKind(0, 0, 0, 0)
    ensures Run(s, schedule') == Some(OwnTurn(now, t))
  {
    hide Can, Run;
    var s1 := Next(now, t);
    var s2 := Next(s1, t);
    var s3 := Next(s2, t);
    schedule' := FourMore(s, schedule, now, t, OwnTurn(now, t));
  }

  // Thread t locks, may not go, unlocks and parks.
  lemma Park(s: State, schedule: seq<nat>, now: State, t: nat) returns (schedule': seq<nat>)
    requires Run(s, schedule) == Some(now)
    requires t < |now.threads| && now.mutex && now.threads[t].pc == AtLock && !Can(now.threads[t].kind, now.buffer)
    ensures var k := now.threads[t].kind;
            Run(s, schedule') == Some(Move(now, t, AtGate).(waiting := now.waiting.Set(k, now.waiting.Get(k) + 1)))
  {
    hide Can, Run;
    var s1 := Next(now, t);
    var s2 := Next(s1, t);
    var s3 := Next(s2, t);
    var k := now.threads[t].kind;
    schedule' := FourMore(s, schedule, now, t,
                              Move(now, t, AtGate).(waiting := now.waiting.Set(k, now.waiting.Get(k) + 1)));
  }

  // Only threads of kind k wait.
  predicate OnlyWaits(s: State, k: Kind) {
    s.waiting == PerKind(0, 0, 0, 0).Set(k, s.waiting.Get(k))
  }

  // Consumer t locks, may go, takes a number and opens the gate of the other consumers.
  lemma TurnWakes(s: State, schedule: seq<nat>, now: State, t: nat, k: Kind) returns (schedule': seq<nat>)
    requires Run(s, schedule) == Some(now) && t < |now.threads| && now.mutex && now.threads[t].pc == AtLock
    requires !Producer(now.threads[t].kind) && !Producer(k) && k != now.threads[t].kind
    requires Can(now.threads[t].kind, now.buffer)
    requires OnlyWaits(now, k) && now.waiting.Get(k) > 0 && now.buffer != [] && Can(k, now.buffer[1..])
    ensures Run(s, schedule') == Some(OwnTurn(now, t).(mutex := false, gate := now.gate.Set(k, true)))
  {
    hide Can, Run;
    var s1 := Next(now, t);
    var s2 := Next(s1, t);
    var s3 := Next(s2, t);
    assert HandTo(s3, now.threads[t].kind) == Some(k);
    schedule' := FourMore(s, schedule, now, t, OwnTurn(now, t).(mutex := false, gate := now.gate.Set(k, true)));
  }

  // Thread t passes the open gate, takes a number and, only its own kind waiting, frees
  // the mutex.
  lemma WokenTurn(s: State, schedule: seq<nat>, now: State, t: nat, k: Kind) returns (schedule': seq<nat>)
    requires Run(s, schedule) == Some(now) && t < |now.threads| && now.threads[t].pc == AtGate
    requires now.threads[t].kind == k
    requires !Producer(k) && now.gate.Get(k) && !now.mutex && OnlyWaits(now, k)
    ensures Run(s, schedule') == Some(OwnTurn(now, t).(mutex := true, gate := now.gate.Set(k, false),
                                                       waiting := now.waiting.Set(k, now.waiting.Get(k) - 1)))
  {
    hide Can, Run;
    var s1 := Next(now, t);
    var s2 := Next(s1, t);
    var s3 := Next(s2, t);
    assert HandTo(s3, k) == None;
    schedule' := FourMore(s, schedule, now, t, OwnTurn(now, t).(mutex := true, gate := now.gate.Set(k, false),
                                                                waiting := now.waiting.Set(k, now.waiting.Get(k) - 1)));
  }

  // Nobody waits, nobody is inside: all threads are about to lock.
  predicate AtRest(s: State) {
    && s.mutex && s.gate == PerKind(false, false, false, false) && s.waiting == PerKind(0, 0, 0, 0)
    && forall t :: 0 <= t < |s.threads| ==> s.threads[t].pc == AtLock
  }

  // The schedule leads from one such state to another.
  predicate Comes(s: State, schedule: seq<nat>, now: State) {
    Run(s, schedule) == Some(now) && AtRest(now) && SameKinds(s, now)
  }

  lemma Acts(s: State, schedule: seq<nat>, was: State, t: nat) returns (schedule': seq<nat>, now: State)
    requires Comes(s, schedule, was) && t < |was.threads| && Can(was.threads[t].kind, was.buffer)
    ensures Comes(s, schedule', now) && |now.threads| == |was.threads| && now.threads[t].kind == was.threads[t].kind
    ensures Producer(was.threads[t].kind) ==>
      now.buffer == was.buffer + [was.threads[t].next] && now.threads[t].next == (was.threads[t].next + 2) % 50
    ensures !Producer(was.threads[t].kind) ==> was.buffer != [] && now.buffer == was.buffer[1..]
    ensures forall u :: 0 <= u < |was.threads| && u != t ==> now.threads[u] == was.threads[u]
  {
    assert !Producer(was.threads[t].kind) ==> was.buffer != [];
    hide Run, Can;
    schedule' := TakeTurn(s, schedule, was, t);
    now := OwnTurn(was, t);
  }

  // A producer of even numbers, one of odd ones, and a consumer of even ones.
  datatype Cast = Cast(a1: nat, a2: nat, b1: nat)

  // The cast goes on from one state to another, with what its producers put next.
  predicate GoesOn(s: State, schedule: seq<nat>, now: State, c: Cast, even: int, odd: int) {
    && Comes(s, schedule, now)
    && c.a1 < |now.threads| && now.threads[c.a1].kind == A1 && now.threads[c.a1].next == even
    && c.a2 < |now.threads| && now.threads[c.a2].kind == A2 && now.threads[c.a2].next == odd
    && c.b1 < |now.threads| && now.threads[c.b1].kind == B1
  }

  lemma PutsEven(s: State, schedule: seq<nat>, was: State, c: Cast, even: int, odd: int)
    returns (schedule': seq<nat>, now: State)
    requires GoesOn(s, schedule, was, c, even, odd) && CanProdEven(was.buffer)
    ensures GoesOn(s, schedule', now, c, (even + 2) % 50, odd) && now.buffer == was.buffer + [even]
  {
    hide Comes;
    schedule', now := Acts(s, schedule, was, c.a1);
  }

  lemma PutsOdd(s: State, schedule: seq<nat>, was: State, c: Cast, even: int, odd: int)
    returns (schedule': seq<nat>, now: State)
    requires GoesOn(s, schedule, was, c, even, odd) && CanProdOdd(was.buffer)
    ensures GoesOn(s, schedule', now, c, even, (odd + 2) % 50) && now.buffer == was.buffer + [odd]
  {
    hide Comes;
    schedule', now := Acts(s, schedule, was, c.a2);
  }

  lemma TakesEven(s: State, schedule: seq<nat>, was: State, c: Cast, even: int, odd: int)
    returns (schedule': seq<nat>, now: State)
    requires GoesOn(s, schedule, was, c, even, odd) && CanConsEven(was.buffer)
    ensures GoesOn(s, schedule', now, c, even, odd) && was.buffer != [] && now.buffer == was.buffer[1..]
  {
    hide Comes;
    schedule', now := Acts(s, schedule, was, c.b1);
  }

  // While fewer than ten numbers wait, a producer of even ones can go on.
  lemma {:induction false} PutsSeveral(s: State, schedule: seq<nat>, was: State, c: Cast, even: int, odd: int, n: nat)
    returns (schedule': seq<nat>, now: State)
    requires GoesOn(s, schedule, was, c, even, odd) && |was.buffer| + n <= 10 && 0 <= even && even + 2 * n < 50
    ensures GoesOn(s, schedule', now, c, even + 2 * n, odd) && now.buffer == was.buffer + EvensFrom(even, n)
  {
    hide GoesOn;
    if n == 0 {
      schedule', now := schedule, was;
    } else {
      schedule', now := PutsSeveral(s, schedule, was, c, even, odd, n - 1);
      EvensAndOddsAreAll(now.buffer);
      schedule', now := PutsEven(s, schedule', now, c, even + 2 * (n - 1), odd);
      assert EvensFrom(even, n) == EvensFrom(even, n - 1) + [even + 2 * (n - 1)];
    }
  }

  function OtherConsumers(k: Kind): Kind {
    if k == B1 then B2 else B1
  }

  // Both kinds of consumers could go on for two numbers from here, but for the first.
  predicate Tempting(b: seq<int>, k: Kind) {
    !Producer(k) && 2 <= |b| && !Can(k, b) && Can(OtherConsumers(k), b) && Can(k, b[1..]) && Can(k, b[2..])
  }

  // An odd number comes to the front of six even ones.
  lemma OddInFront(s: State, c: Cast) returns (schedule: seq<nat>, now: State)
    requires GoesOn(s, [], s, c, 0, 1) && s.buffer == []
    ensures GoesOn(s, schedule, now, c, 14, 3) && Tempting(now.buffer, B1)
  {
    hide GoesOn;
    schedule, now := PutsSeveral(s, [], s, c, 0, 1, 1);
    assert now.buffer == [0];
    assert Evens([0]) == 1 && Odds([0]) == 0;
    schedule, now := PutsOdd(s, schedule, now, c, 2, 1);
    schedule, now := PutsSeveral(s, schedule, now, c, 2, 3, 6);
    schedule, now := TakesEven(s, schedule, now, c, 14, 3);
    assert now.buffer == [1, 2, 4, 6, 8, 10, 12];
  }

  // An even number comes to the front of two odd ones and six even ones.
  lemma EvenInFront(s: State, c: Cast) returns (schedule: seq<nat>, now: State)
    requires GoesOn(s, [], s, c, 0, 1) && s.buffer == []
    ensures GoesOn(s, schedule, now, c, 16, 5) && Tempting(now.buffer, B2)
  {
    hide GoesOn;
    schedule, now := PutsSeveral(s, [], s, c, 0, 1, 2);
    assert now.buffer == [0, 2];
    CountsOfOneMore([0, 2], 1);
    schedule, now := PutsOdd(s, schedule, now, c, 4, 1);
    schedule, now := PutsOdd(s, schedule, now, c, 4, 3);
    schedule, now := PutsSeveral(s, schedule, now, c, 4, 5, 6);
    schedule, now := TakesEven(s, schedule, now, c, 16, 5);
    assert now.buffer == [2, 1, 3, 4, 6, 8, 10, 12, 14];
  }
}
