// Smaller casts: what it means for the buffer that threads of some kind are missing.
module Casts {
  import opened Semaphores

  predicate AllEven(b: seq<int>) {
    forall i :: 0 <= i < |b| ==> b[i] % 2 == 0
  }

  predicate FrontEven(b: seq<int>) {
    b == [] || b[0] % 2 == 0
  }

  // Without producers of even numbers nothing is ever put, without those of odd ones no odd
  // number, and without consumers of even numbers one stays in front.
  predicate Lacking(s: State) {
    && (!Present(s, A1) ==> s.buffer == [])
    && (!Present(s, A2) ==> AllEven(s.buffer))
    && (!Present(s, B1) ==> FrontEven(s.buffer))
  }

  // What a thread does that acts.
  lemma ActKeepsLacking(s: State, t: nat)
    requires Lacking(s) && t < |s.threads| && Can(s.threads[t].kind, s.buffer) && CountsUp(s.threads[t])
    ensures var b := Act(s, t).buffer;
            && (!Present(s, A1) ==> b == [])
            && (!Present(s, A2) ==> AllEven(b))
            && (!Present(s, B1) ==> FrontEven(b))
  {
    var th := s.threads[t];
    assert Present(s, th.kind);
    hide Present;
    if Producer(th.kind) { CountingUp(th); }
  }

  lemma StepKeepsLacking(s: State, t: nat)
    requires Safe(s) && Lacking(s) && Enabled(s, t)
    ensures Lacking(Next(s, t))
  {
    var th, s' := s.threads[t], Next(s, t);
    StepIsSafe(s, t);
    assert th.pc == AtAct ==> Can(th.kind, s.buffer) && CountsUp(th) by { assert KnowsCondition(th, s.buffer); }
    hide Safe, Present, Act, Can;
    forall k
      ensures Present(s', k) <==> Present(s, k)
    {
      SamePresent(s, s', k);
    }
    if th.pc == AtAct { ActKeepsLacking(s, t); } else { OthersKeepStock(s, t); }
  }

  lemma SamePresent(s: State, s': State, k: Kind)
    requires SameKinds(s, s')
    ensures Present(s', k) <==> Present(s, k)
  {
    if Present(s', k) {
      var t :| 0 <= t < |s'.threads| && s'.threads[t].kind == k;
      assert s.threads[t].kind == k;
    }
    if Present(s, k) { PresentStays(s, s', k); }
  }

  lemma {:induction false} RunsKeepLacking(s: State, schedule: seq<nat>)
    requires Safe(s) && Lacking(s) && Run(s, schedule).Some?
    ensures Lacking(Run(s, schedule).value)
    decreases |schedule|
  {
    if schedule != [] {
      hide Safe, Lacking, Next;
      StepIsSafe(s, schedule[0]);
      StepKeepsLacking(s, schedule[0]);
      RunsKeepLacking(Next(s, schedule[0]), schedule[1..]);
    }
  }

  // So it is in every run.
  lemma CastInRuns(s: State, schedule: seq<nat>)
    requires Initial(s, true) && Run(s, schedule).Some?
    ensures var now := Run(s, schedule).value;
            Safe(now) && Lacking(now) && forall k :: Present(now, k) <==> Present(s, k)
  {
    InitialIsSafe(s);
    RunsAreSafe(s, schedule);
    RunsKeepLacking(s, schedule);
    forall k
      ensures Present(Run(s, schedule).value, k) <==> Present(s, k)
    {
      SamePresent(s, Run(s, schedule).value, k);
    }
  }
}
