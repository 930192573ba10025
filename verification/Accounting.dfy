// The accounts of memory: the ledger read off the process table, and what each
// operation of the memory manager does to it.
module Accounting {
  import opened Basics
  import opened Links
  import opened HoleLists
  import opened HoleTables
  import opened Ledgers

  // The part of a process table entry that allocation looks at.  live stands for
  // holding a block; blocked for any of PAUSED, WAITING and SIGSUSPENDED; shunned for
  // TRACED or REPLY.  size spans the data and stack segments.
  datatype Proc = Proc(live: bool, base: int, size: nat, blocked: bool, shunned: bool, onSwap: bool, swapIn: bool)

  datatype Alloc = Got(base: int) | NoMem | Panic
  datatype SwapOnResult = Opened | Busy | OpenFailed | SwapOnPanic
  datatype Swap = Swapped | NoCandidate | SwapPanic

  function BlockOf(p: Proc): Hole {
    Hole(p.base, if p.live then p.size else 0)
  }

  // All blocks: those of the processes, by slot, then those still in a caller's hands.
  function Blocks(procs: seq<Proc>, loose: seq<Hole>): (bs: seq<Hole>)
    ensures |bs| == |procs| + |loose|
    ensures forall p :: 0 <= p < |procs| ==> bs[p] == BlockOf(procs[p])
    ensures forall i :: 0 <= i < |loose| ==> bs[|procs| + i] == loose[i]
  {
    seq(|procs|, p requires 0 <= p < |procs| => BlockOf(procs[p])) + loose
  }

  function LiveCount(procs: seq<Proc>, loose: seq<Hole>): nat {
    |Live(Blocks(procs, loose))|
  }

  ghost predicate BlocksInWord(bs: seq<Hole>) {
    forall i :: 0 <= i < |bs| ==> 0 <= bs[i].base && bs[i].End() <= WORD
  }

  // A process that may be swapped out, and for which some swap hole has room.
  predicate Candidate(p: Proc) {
    p.blocked && !p.shunned && !p.onSwap
  }

  ghost predicate Movable(p: Proc, hs: seq<Hole>, swapBase: int) {
    Candidate(p) && !NoSwapFits(hs, swapBase, p.size)
  }

  // Each process is as it was or has been swapped out.
  ghost predicate OnlySwappedOut(was: seq<Proc>, now: seq<Proc>) {
    && |now| == |was|
    && forall p :: 0 <= p < |was| ==>
         now[p] == was[p] || (Candidate(was[p]) && now[p] == was[p].(base := now[p].base, onSwap := true))
  }

  lemma NothingSwappedYet(procs: seq<Proc>)
    ensures OnlySwappedOut(procs, procs)
  {
  }

  function Residents(procs: seq<Proc>): nat {
    if procs == [] then 0 else (if procs[0].onSwap then 0 else 1) + Residents(procs[1..])
  }

  lemma {:induction false} SwappingOutLowersResidents(procs: seq<Proc>, p: int, b: int)
    requires 0 <= p < |procs| && !procs[p].onSwap
    ensures Residents(procs[p := procs[p].(base := b, onSwap := true)]) < Residents(procs)
  {
    var after := procs[p := procs[p].(base := b, onSwap := true)];
    if p == 0 {
      assert after[1..] == procs[1..];
    } else {
      assert after[1..] == procs[1..][p - 1 := procs[p].(base := b, onSwap := true)];
      SwappingOutLowersResidents(procs[1..], p - 1, b);
    }
  }

  // The flags that only a process holding memory can have; swapped out processes lie
  // in swap space.
  ghost predicate FlagsAgree(procs: seq<Proc>, swapBase: int) {
    forall p :: 0 <= p < |procs| ==>
      && (procs[p].blocked || procs[p].onSwap || procs[p].swapIn ==> procs[p].live)
      && (procs[p].onSwap ==> swapBase <= procs[p].base)
  }

  // Processes not swapped out lie in ordinary memory.
  ghost predicate ResidentsBelow(procs: seq<Proc>, swapBase: int) {
    forall p :: 0 <= p < |procs| && procs[p].live && !procs[p].onSwap ==> procs[p].base < swapBase
  }

  // The ledger of the whole of memory: hs is free, the rest is in blocks, and the
  // click below the swap base belongs to nobody, so that nothing straddles it.
  ghost predicate Accounts(hs: seq<Hole>, procs: seq<Proc>, loose: seq<Hole>, areas: seq<Hole>, swapBase: int) {
    && Partition(hs, Blocks(procs, loose), areas)
    && BlocksInWord(Blocks(procs, loose))
    && FlagsAgree(procs, swapBase)
    && !Covers(areas, swapBase - 1)
  }

  ghost predicate NothingAbove(areas: seq<Hole>, swapBase: int) {
    forall c :: Covers(areas, c) ==> c < swapBase
  }

  // Process p has moved into the first swap hole with room, its old block is free,
  // and nothing else has changed.
  ghost predicate MovedOut(p: int, was: seq<Proc>, now: seq<Proc>, hs: seq<Hole>, fs: seq<Hole>, swapBase: int) {
    0 <= p < |was| && Candidate(was[p]) && exists i ::
      && IsFirstSwapFit(hs, swapBase, was[p].size, i)
      && now == was[p := was[p].(base := hs[i].base, onSwap := true)]
      && IsFreed(Carve(hs, i, was[p].size), was[p].base, was[p].size, fs)
  }

  lemma OldBlockIsNotFree(hs: seq<Hole>, procs: seq<Proc>, loose: seq<Hole>, areas: seq<Hole>, swapBase: int, p: int,
                          i: int)
    requires Accounts(hs, procs, loose, areas, swapBase)
    requires 0 <= p < |procs| && (procs[p].blocked || procs[p].swapIn) && 0 <= i < |hs| && procs[p].size <= hs[i].len
    ensures forall c :: Hole(procs[p].base, procs[p].size).Has(c) ==> !Covers(Carve(hs, i, procs[p].size), c)
    ensures 0 <= procs[p].base && procs[p].base + procs[p].size <= WORD
    ensures |Carve(hs, i, procs[p].size)| <= |hs| <= LiveCount(procs, loose) + |areas|
  {
    var bs := Blocks(procs, loose);
    assert bs[p] == Hole(procs[p].base, procs[p].size);
    assert bs[p].End() <= WORD;
    BlockIsNotFree(hs, bs, areas, p);
    CarveTakes(hs, i, procs[p].size);
    HolesAreFew(hs, bs, areas);
  }

  lemma MovingOutKeepsAccounts(p: int, was: seq<Proc>, now: seq<Proc>, hs: seq<Hole>, fs: seq<Hole>, loose: seq<Hole>,
                               areas: seq<Hole>, swapBase: int)
    requires Accounts(hs, was, loose, areas, swapBase) && InWord(hs)
    requires MovedOut(p, was, now, hs, fs, swapBase)
    ensures Accounts(fs, now, loose, areas, swapBase)
  {
    var i :| && IsFirstSwapFit(hs, swapBase, was[p].size, i)
             && now == was[p := was[p].(base := hs[i].base, onSwap := true)]
             && IsFreed(Carve(hs, i, was[p].size), was[p].base, was[p].size, fs);
    hide Partition, Covers, IsFreed, Carve;
    var bs, h := Blocks(was, loose), Hole(hs[i].base, was[p].size);
    assert bs[p] == Hole(was[p].base, was[p].size);
    CarveTakes(hs, i, was[p].size);
    MovingKeepsPartition(hs, bs, areas, p, h, Carve(hs, i, was[p].size), fs);
    BlocksUpdated(was, now, loose, p, h);
    assert hs[i].End() <= WORD;
  }

  // Swapping out leaves an ordinary hole wherever there was one, and never empties
  // the list of holes.
  lemma MovingOutKeepsOrdinary(p: int, was: seq<Proc>, now: seq<Proc>, hs: seq<Hole>, fs: seq<Hole>, swapBase: int)
    requires Canonical(hs) && MovedOut(p, was, now, hs, fs, swapBase)
    ensures fs != [] && (HasOrdinary(hs, swapBase) ==> HasOrdinary(fs, swapBase))
  {
    hide Canonical, Covers, Carve;
    var i :| && IsFirstSwapFit(hs, swapBase, was[p].size, i)
             && now == was[p := was[p].(base := hs[i].base, onSwap := true)]
             && IsFreed(Carve(hs, i, was[p].size), was[p].base, was[p].size, fs);
    var size := was[p].size;
    var c := if size == 0 then hs[i].base else was[p].base;
    CarveTakes(hs, i, size);
    if size == 0 {
      FirstClick(hs, i);
      assert Covers(Carve(hs, i, size), c);
    } else {
      assert Hole(was[p].base, size).Has(c);
    }
    CoveredByAHole(fs, c);
    if HasOrdinary(hs, swapBase) {
      var j :| 0 <= j < |hs| && hs[j].base < swapBase;
      FirstClick(hs, j);
      assert Covers(Carve(hs, i, size), hs[j].base);
      CoveredByAHole(fs, hs[j].base);
    }
  }

  // Swapping out a process that lay in memory leaves the holes as they were, if it had
  // no memory, or else leaves an ordinary hole.
  lemma MovingOutMakesOrdinary(p: int, was: seq<Proc>, now: seq<Proc>, hs: seq<Hole>, fs: seq<Hole>, swapBase: int)
    requires Canonical(hs) && MovedOut(p, was, now, hs, fs, swapBase) && was[p].base < swapBase
    ensures fs == hs || HasOrdinary(fs, swapBase)
  {
    hide Covers;
    var i :| && IsFirstSwapFit(hs, swapBase, was[p].size, i)
             && now == was[p := was[p].(base := hs[i].base, onSwap := true)]
             && IsFreed(Carve(hs, i, was[p].size), was[p].base, was[p].size, fs);
    if was[p].size == 0 {
      FreeUndoesNothing(hs, i, was[p].base, fs);
    } else {
      assert Hole(was[p].base, was[p].size).Has(was[p].base);
      CoveredByAHole(fs, was[p].base);
    }
  }

  lemma FreeUndoesNothing(hs: seq<Hole>, i: int, base: int, fs: seq<Hole>)
    requires Canonical(hs) && 0 <= i < |hs| && IsFreed(Carve(hs, i, 0), base, 0, fs)
    ensures fs == hs
  {
    assert Carve(hs, i, 0) == hs;
    CanonicalFormIsUnique(fs, hs);
  }

  // A process that may be swapped out holds memory, and so, not being swapped out, lies
  // below the swap base if all such processes do.
  lemma CandidateLiesBelow(procs: seq<Proc>, swapBase: int, p: int)
    requires FlagsAgree(procs, swapBase) && ResidentsBelow(procs, swapBase) && 0 <= p < |procs| && Candidate(procs[p])
    ensures procs[p].base < swapBase
  {
  }

  lemma MovedOutOfMemory(p: int, was: seq<Proc>, now: seq<Proc>, hs: seq<Hole>, fs: seq<Hole>, loose: seq<Hole>,
                         areas: seq<Hole>, swapBase: int)
    requires Accounts(hs, was, loose, areas, swapBase) && ResidentsBelow(was, swapBase)
    requires MovedOut(p, was, now, hs, fs, swapBase)
    ensures fs == hs || HasOrdinary(fs, swapBase)
  {
    hide Covers, ResidentsBelow, FlagsAgree;
    CandidateLiesBelow(was, swapBase, p);
    MovingOutMakesOrdinary(p, was, now, hs, fs, swapBase);
  }

  // So it is for the last of several.
  lemma OneMoreMovedOut(first: seq<Proc>, p: int, was: seq<Proc>, now: seq<Proc>, hs: seq<Hole>, fs: seq<Hole>,
                        loose: seq<Hole>, areas: seq<Hole>, swapBase: int)
    requires Accounts(hs, was, loose, areas, swapBase) && MovedOut(p, was, now, hs, fs, swapBase)
    requires OnlySwappedOut(first, was)
    ensures fs != [] && (HasOrdinary(hs, swapBase) ==> HasOrdinary(fs, swapBase))
    ensures ResidentsBelow(first, swapBase) ==> fs == hs || HasOrdinary(fs, swapBase)
  {
    assert Canonical(hs);
    hide Accounts, MovedOut, OnlySwappedOut, ResidentsBelow, Canonical, HasOrdinary;
    MovingOutKeepsOrdinary(p, was, now, hs, fs, swapBase);
    if ResidentsBelow(first, swapBase) {
      ResidentsStayBelow(first, was, swapBase);
      MovedOutOfMemory(p, was, now, hs, fs, loose, areas, swapBase);
    }
  }

  // Serving from swap space happens under worst fit only, and only for want of an
  // ordinary hole.
  lemma ServedFromSwap(hs: seq<Hole>, swapBase: int, clicks: int, worstFit: bool, i: int)
    requires Serves(hs, swapBase, clicks, worstFit, i)
    ensures swapBase <= hs[i].base <==> worstFit && FirstHoleIsSwap(hs, swapBase, clicks)
  {
  }

  lemma FirstClick(hs: seq<Hole>, i: int)
    requires Canonical(hs) && 0 <= i < |hs|
    ensures Covers(hs, hs[i].base)
  {
  }

  lemma CoveredByAHole(hs: seq<Hole>, c: int)
    requires Covers(hs, c)
    ensures exists i :: 0 <= i < |hs| && hs[i].base <= c
  {
  }

  ghost predicate FirstHoleIsSwap(hs: seq<Hole>, swapBase: int, clicks: int) {
    hs != [] && !HasOrdinary(hs, swapBase) && clicks <= hs[0].len
  }

  // The hole that serves a request under the policy in force.
  ghost predicate Serves(hs: seq<Hole>, swapBase: int, clicks: int, worstFit: bool, i: int) {
    if worstFit then IsWorstFit(hs, swapBase, i) && clicks <= hs[i].len else IsFirstFit(hs, swapBase, clicks, i)
  }

  // Handing out a block enters it among the loose ones.
  lemma HandingOutKeepsAccounts(hs: seq<Hole>, i: int, n: nat, procs: seq<Proc>, loose: seq<Hole>, areas: seq<Hole>,
                                swapBase: int)
    requires Accounts(hs, procs, loose, areas, swapBase) && InWord(hs)
    requires 0 <= i < |hs| && n <= hs[i].len
    ensures Accounts(Carve(hs, i, n), procs, loose + [Hole(hs[i].base, n)], areas, swapBase)
    ensures |Carve(hs, i, n)| <= LiveCount(procs, loose) + |areas|
    ensures n == 0 ==> Carve(hs, i, n) != []
  {
    var bs, h := Blocks(procs, loose), Hole(hs[i].base, n);
    CarveTakes(hs, i, n);
    TakingKeepsPartition(hs, bs, areas, h, Carve(hs, i, n));
    assert Blocks(procs, loose + [h]) == bs + [h];
    assert hs[i].End() <= WORD;
    HolesAreFew(hs, bs, areas);
  }

  lemma SwappedOutOnceMore(p: int, first: seq<Proc>, was: seq<Proc>, now: seq<Proc>, hs: seq<Hole>, fs: seq<Hole>,
                           loose: seq<Hole>, swapBase: int)
    requires OnlySwappedOut(first, was) && MovedOut(p, was, now, hs, fs, swapBase)
    ensures OnlySwappedOut(first, now) && Residents(now) < Residents(was)
    ensures LiveCount(now, loose) == LiveCount(first, loose)
  {
    hide Residents, LiveCount, IsFreed, Carve;
    var i :| && IsFirstSwapFit(hs, swapBase, was[p].size, i)
             && now == was[p := was[p].(base := hs[i].base, onSwap := true)]
             && IsFreed(Carve(hs, i, was[p].size), was[p].base, was[p].size, fs);
    SwappingOutLowersResidents(was, p, hs[i].base);
    SwappedOutLiveOn(first, now, loose);
  }

  lemma SwappedOutLiveOn(first: seq<Proc>, now: seq<Proc>, loose: seq<Hole>)
    requires OnlySwappedOut(first, now)
    ensures LiveCount(now, loose) == LiveCount(first, loose)
  {
    SameLivesOn(first, now, loose);
  }

  // The queue of processes to swap in after p has been put at its tail, p being
  // possibly still linked in from before.
  function Requeued(queue: seq<int>, p: int): seq<int> {
    if p in queue then UpTo(queue, p) else queue + [p]
  }

  function UpTo(queue: seq<int>, p: int): (r: seq<int>)
    requires p in queue
    ensures 0 < |r| <= |queue| && r == queue[..|r|] && r[|r| - 1] == p && p !in r[..|r| - 1]
  {
    if queue[0] == p then [p] else [queue[0]] + UpTo(queue[1..], p)
  }

  lemma RequeuedIs(queue: seq<int>, p: int)
    ensures Requeued(queue, p) == if p in queue then queue[..|UpTo(queue, p)|] else queue + [p]
    ensures p in queue ==> 0 < |UpTo(queue, p)| <= |queue| && queue[|UpTo(queue, p)| - 1] == p
  {
    if p in queue { assert UpTo(queue, p)[|UpTo(queue, p)| - 1] == p; }
  }

  // Queueing p loses other processes exactly when p was linked in short of the tail.
  lemma RequeueKeepsAll(queue: seq<int>, p: int)
    requires Distinct(queue)
    ensures (forall x :: x in queue ==> x in Requeued(queue, p)) <==> (p !in queue || queue[|queue| - 1] == p)
  {
    if p in queue {
      var r := UpTo(queue, p);
      if queue[|queue| - 1] == p {
        assert |r| == |queue|;
        assert r == queue;
      } else {
        assert |r| < |queue|;
        var last := queue[|queue| - 1];
        assert last !in r;
      }
    }
  }

  // Whoever waits to be swapped in is on the queue.
  ghost predicate WaitersQueued(procs: seq<Proc>, queue: seq<int>) {
    forall p :: 0 <= p < |procs| && procs[p].swapIn ==> p in queue
  }

  // Somebody who waits is linked in behind process p.
  ghost predicate WaitsBehind(procs: seq<Proc>, queue: seq<int>, p: int) {
    exists i, j :: 0 <= i < j < |queue| && queue[i] == p && 0 <= queue[j] < |procs| && procs[queue[j]].swapIn
  }

  // Queueing p, which does not wait yet, loses one that waits exactly if that one is
  // linked in behind p.
  lemma QueueingLoses(procs: seq<Proc>, queue: seq<int>, p: int)
    requires Distinct(queue) && 0 <= p < |procs| && !procs[p].swapIn
    requires forall i :: 0 <= i < |queue| ==> 0 <= queue[i] < |procs|
    ensures WaitersQueued(procs[p := procs[p].(swapIn := true)], Requeued(queue, p))
       <==> WaitersQueued(procs, queue) && !WaitsBehind(procs, queue, p)
  {
    var now, q := procs[p := procs[p].(swapIn := true)], Requeued(queue, p);
    assert forall x :: x in q ==> x in queue || x == p;
    if p in queue { RequeuedUpTo(queue, p); }
    if WaitersQueued(now, q) {
      forall x | 0 <= x < |procs| && procs[x].swapIn
        ensures x in queue
      {
        assert now[x].swapIn;
      }
    }
    if WaitsBehind(procs, queue, p) {
      var i, j :| 0 <= i < j < |queue| && queue[i] == p && 0 <= queue[j] < |procs| && procs[queue[j]].swapIn;
      assert now[queue[j]].swapIn && queue[j] !in q;
    }
  }

  // The queue now ends with p, where p was.
  lemma RequeuedUpTo(queue: seq<int>, p: int)
    requires Distinct(queue) && p in queue
    ensures forall i, j :: 0 <= i < |queue| && 0 <= j < |queue| && queue[i] == p ==>
      (queue[j] in Requeued(queue, p) <==> j <= i)
  {
    var k := |UpTo(queue, p)| - 1;
    assert queue[k] == p;
    forall j | 0 <= j <= k
      ensures queue[j] in UpTo(queue, p)
    {
      assert UpTo(queue, p)[j] == queue[j];
    }
  }

  lemma RequeuedInFront(q: seq<int>, a: int, b: int)
    requires a !in q && b !in q && a != b
    ensures Requeued(q + [a] + [b], a) == q + [a]
  {
    var queue := q + [a] + [b];
    assert forall i :: 0 <= i < |q| ==> queue[i] in q;
    assert queue[|q|] == a && queue[|q| + 1] == b;
    assert a in queue;
    var r := UpTo(queue, a);
    assert queue[|r| - 1] == a;
    assert |r| - 1 == |q|;
  }

  lemma SwappedOutStillQueued(was: seq<Proc>, now: seq<Proc>, queue: seq<int>)
    requires OnlySwappedOut(was, now)
    ensures WaitersQueued(now, queue) <==> WaitersQueued(was, queue)
  {
    assert forall p :: 0 <= p < |was| ==> now[p].swapIn == was[p].swapIn;
  }

  // What swapping out any number of processes keeps.
  lemma SwappingOutKeeps(was: seq<Proc>, now: seq<Proc>, swapBase: int, queue: seq<int>)
    requires OnlySwappedOut(was, now)
    ensures ResidentsBelow(was, swapBase) ==> ResidentsBelow(now, swapBase)
    ensures WaitersQueued(now, queue) <==> WaitersQueued(was, queue)
  {
    hide OnlySwappedOut, WaitersQueued, ResidentsBelow;
    if ResidentsBelow(was, swapBase) { ResidentsStayBelow(was, now, swapBase); }
    SwappedOutStillQueued(was, now, queue);
  }

  // Whoever is not on the queue waits just if it did before.
  ghost predicate OthersWaitOn(q: seq<int>, was: seq<Proc>, now: seq<Proc>) {
    |was| == |now| && forall p :: 0 <= p < |was| && p !in q ==> now[p].swapIn == was[p].swapIn
  }

  lemma OthersStillWaitOn(q: seq<int>, was: seq<Proc>, mid: seq<Proc>, now: seq<Proc>, x: int)
    requires OthersWaitOn(q, was, mid) && x in q && |mid| == |now|
    requires forall p :: 0 <= p < |mid| && p != x ==> now[p].swapIn == mid[p].swapIn
    ensures OthersWaitOn(q, was, now)
  {
  }

  lemma {:induction false} WaitingIsQueued(queue: seq<int>, procs: seq<Proc>)
    requires forall i :: 0 <= i < |queue| ==> 0 <= queue[i] < |procs|
    ensures forall x :: x in Waiting(queue, procs) <==> x in queue && procs[x].swapIn
  {
    if queue != [] {
      var front := queue[..|queue| - 1];
      WaitingIsQueued(front, procs);
      assert queue == front + [queue[|queue| - 1]];
    }
  }

  // A run of swapping in neither loses anybody nor finds anybody again.
  lemma SwappingInKeepsQueued(q: seq<int>, was: seq<Proc>, now: seq<Proc>)
    requires Relocated(was, now) && OthersWaitOn(q, was, now) && forall i :: 0 <= i < |q| ==> 0 <= q[i] < |now|
    ensures WaitersQueued(now, Waiting(q, now)) <==> WaitersQueued(was, q)
  {
    WaitingIsQueued(q, now);
    hide Waiting;
    assert forall p :: 0 <= p < |was| && now[p].swapIn ==> was[p].swapIn;
  }

  // Those of the queue that still wait to be swapped in.
  function Waiting(queue: seq<int>, procs: seq<Proc>): (r: seq<int>)
    requires forall i :: 0 <= i < |queue| ==> 0 <= queue[i] < |procs|
  {
    if queue == [] then [] else
      var last := queue[|queue| - 1];
      Waiting(queue[..|queue| - 1], procs) + (if procs[last].swapIn then [last] else [])
  }

  lemma {:induction false} WaitingDependsOnFlags(queue: seq<int>, was: seq<Proc>, now: seq<Proc>)
    requires |was| == |now| && forall i :: 0 <= i < |queue| ==> 0 <= queue[i] < |was|
    requires forall i :: 0 <= i < |queue| ==> was[queue[i]].swapIn == now[queue[i]].swapIn
    ensures Waiting(queue, was) == Waiting(queue, now)
  {
    if queue != [] {
      WaitingDependsOnFlags(queue[..|queue| - 1], was, now);
    }
  }

  predicate SwappedOutFrom(was: Proc, now: Proc) {
    Candidate(was) && now == was.(base := now.base, onSwap := true)
  }

  predicate BroughtInFrom(was: Proc, now: Proc) {
    was.swapIn && now == was.(base := now.base, onSwap := false, swapIn := false)
  }

  // Process p alone has changed: it now lies at newBase in memory.
  predicate BroughtIn(p: int, was: seq<Proc>, now: seq<Proc>, newBase: int) {
    && 0 <= p < |was|
    && now == was[p := was[p].(base := newBase, onSwap := false, swapIn := false)]
  }

  // What one run of swapping in may do to a process: nothing, swap it out, bring it
  // in, or bring it in and swap it out again.
  ghost predicate Relocated(was: seq<Proc>, now: seq<Proc>) {
    && |now| == |was|
    && forall p :: 0 <= p < |was| ==>
         || now[p] == was[p] || SwappedOutFrom(was[p], now[p]) || BroughtInFrom(was[p], now[p])
         || (BroughtInFrom(was[p], now[p].(onSwap := false)) && was[p].blocked && !was[p].shunned && now[p].onSwap)
  }

  lemma RelocatedFurther(a: seq<Proc>, b: seq<Proc>, c: seq<Proc>, loose: seq<Hole>)
    requires Relocated(a, b) && OnlySwappedOut(b, c)
    ensures Relocated(a, c) && LiveCount(c, loose) == LiveCount(b, loose)
    ensures forall p :: 0 <= p < |b| ==> c[p].swapIn == b[p].swapIn && c[p].size == b[p].size && c[p].live == b[p].live
  {
    SwappedOutLiveOn(b, c, loose);
  }

  lemma RelocatedIn(a: seq<Proc>, b: seq<Proc>, c: seq<Proc>, p: int, newBase: int, loose: seq<Hole>)
    requires Relocated(a, b) && BroughtIn(p, b, c, newBase) && b[p].swapIn
    ensures Relocated(a, c) && LiveCount(c, loose) == LiveCount(b, loose)
  {
    hide LiveCount;
    SameLivesOn(b, c, loose);
  }

  lemma SameLivesOn(was: seq<Proc>, now: seq<Proc>, loose: seq<Hole>)
    requires |was| == |now| && forall p :: 0 <= p < |was| ==> BlockOf(was[p]).len == BlockOf(now[p]).len
    ensures LiveCount(now, loose) == LiveCount(was, loose)
  {
    var a, b := Blocks(now, loose), Blocks(was, loose);
    forall i | 0 <= i < |a|
      ensures a[i].len == b[i].len
    {
      if |was| <= i { assert a[i] == loose[i - |was|]; }
    }
    LiveCountByLength(a, b);
  }

  lemma FreeingLeavesHoles(hs: seq<Hole>, base: int, n: nat, fs: seq<Hole>)
    requires Canonical(hs) && IsFreed(hs, base, n, fs) && (hs != [] || 0 < n)
    ensures fs != []
  {
    if hs != [] { FirstClick(hs, 0); } else { assert Hole(base, n).Has(base); }
  }

  lemma ResidentsStayBelow(was: seq<Proc>, now: seq<Proc>, swapBase: int)
    requires ResidentsBelow(was, swapBase) && OnlySwappedOut(was, now)
    ensures ResidentsBelow(now, swapBase)
  {
  }

  // A process brought in leaves all residents below the swap base just if its new
  // place is.
  lemma ResidentBroughtIn(p: int, was: seq<Proc>, now: seq<Proc>, newBase: int, swapBase: int)
    requires ResidentsBelow(was, swapBase) && BroughtIn(p, was, now, newBase) && was[p].live
    ensures ResidentsBelow(now, swapBase) <==> newBase < swapBase
  {
    assert now[p].base == newBase;
  }

  // A process that waits goes on waiting while others are swapped out ...
  lemma WaitingOn(first: seq<Proc>, was: seq<Proc>, mid: seq<Proc>, p: int, loose: seq<Hole>, swapBase: int)
    requires Relocated(first, was) && OnlySwappedOut(was, mid) && 0 <= p < |was|
    ensures Relocated(first, mid) && LiveCount(mid, loose) == LiveCount(was, loose)
    ensures |mid| == |was| && mid[p].swapIn == was[p].swapIn && mid[p].size == was[p].size
    ensures SameWaiting(was, mid)
    ensures ResidentsBelow(was, swapBase) ==> ResidentsBelow(mid, swapBase)
  {
    RelocatedFurther(first, was, mid, loose);
    if ResidentsBelow(was, swapBase) { ResidentsStayBelow(was, mid, swapBase); }
  }

  ghost predicate SameWaiting(was: seq<Proc>, now: seq<Proc>) {
    |now| == |was| && forall p :: 0 <= p < |was| ==> now[p].swapIn == was[p].swapIn
  }

  // ... until it is brought in.
  lemma BroughtInNow(first: seq<Proc>, was: seq<Proc>, mid: seq<Proc>, now: seq<Proc>, p: int, newBase: int,
                     loose: seq<Hole>, swapBase: int)
    requires Relocated(first, was) && OnlySwappedOut(was, mid) && BroughtIn(p, mid, now, newBase)
    requires mid[p].swapIn && 0 <= p < |was| && was[p].live
    ensures Relocated(first, now) && LiveCount(now, loose) == LiveCount(was, loose)
    ensures |now| == |was| && !now[p].swapIn && SameWaiting(was, now[p := now[p].(swapIn := true)])
    ensures ResidentsBelow(was, swapBase) ==> (ResidentsBelow(now, swapBase) <==> newBase < swapBase)
  {
    hide LiveCount, ResidentsBelow, Relocated;
    WaitingOn(first, was, mid, p, loose, swapBase);
    RelocatedIn(first, mid, now, p, newBase, loose);
    if ResidentsBelow(mid, swapBase) { ResidentBroughtIn(p, mid, now, newBase, swapBase); }
  }

  // The process table, the holes, and the slot swapped out last, between two steps of
  // allocation or two rounds of swapping in.
  datatype Moment = Moment(procs: seq<Proc>, holes: seq<Hole>, outswap: int)

  // What does not change from step to step.
  datatype Policy = Policy(worstFit: bool, swapBase: int, lowUser: nat)

  ghost predicate NothingServes(hs: seq<Hole>, clicks: int, pol: Policy) {
    forall i :: 0 <= i < |hs| ==> !Serves(hs, pol.swapBase, clicks, pol.worstFit, i)
  }

  // Counting up from the slot after the one swapped out last, and on from the lowest user
  // slot after the highest, p is the first slot with a process that can be moved.
  ghost predicate NextOut(m: Moment, p: int, pol: Policy) {
    && pol.lowUser <= p < |m.procs| && Movable(m.procs[p], m.holes, pol.swapBase)
    && if m.outswap < p then
         forall q :: m.outswap < q < p ==> pol.lowUser <= q ==> !Movable(m.procs[q], m.holes, pol.swapBase)
       else
         && (forall q :: m.outswap < q < |m.procs| ==> pol.lowUser <= q ==> !Movable(m.procs[q], m.holes, pol.swapBase))
         && (forall q :: pol.lowUser <= q < p ==> !Movable(m.procs[q], m.holes, pol.swapBase))
  }

  ghost predicate NobodyMovable(m: Moment, pol: Policy) {
    forall p :: pol.lowUser <= p < |m.procs| ==> !Movable(m.procs[p], m.holes, pol.swapBase)
  }

  // Nothing serves, and so the next process in turn, and no other, is swapped out.
  ghost predicate OneMovesOut(was: Moment, now: Moment, clicks: int, pol: Policy) {
    && NothingServes(was.holes, clicks, pol) && NoneFits(was.holes, pol.swapBase, clicks)
    && NextOut(was, now.outswap, pol)
    && MovedOut(now.outswap, was.procs, now.procs, was.holes, now.holes, pol.swapBase)
  }

  // The moments at which allocation looks at the holes.
  ghost predicate Passes(run: seq<Moment>, clicks: int, pol: Policy) {
    run != [] && forall j :: 0 <= j < |run| - 1 ==> OneMovesOut(run[j], run[j + 1], clicks, pol)
  }

  lemma FirstPass(now: Moment, clicks: int, pol: Policy)
    ensures Passes([now], clicks, pol)
  {
  }

  lemma OnePassMore(run: seq<Moment>, now: Moment, clicks: int, pol: Policy)
    requires Passes(run, clicks, pol) && OneMovesOut(run[|run| - 1], now, clicks, pol)
    ensures Passes(run + [now], clicks, pol)
  {
    hide OneMovesOut;
    var more := run + [now];
    forall j | 0 <= j < |more| - 1
      ensures OneMovesOut(more[j], more[j + 1], clicks, pol)
    {
      assert j < |run| - 1 ==> OneMovesOut(run[j], run[j + 1], clicks, pol);
    }
  }

  lemma MovedOutIsMovable(p: int, was: seq<Proc>, now: seq<Proc>, hs: seq<Hole>, fs: seq<Hole>, swapBase: int)
    requires MovedOut(p, was, now, hs, fs, swapBase)
    ensures 0 <= p < |was| && Movable(was[p], hs, swapBase)
  {
  }

  // One process more has been moved out, the next in turn.
  lemma OneMoreOut(run: seq<Moment>, was: Moment, now: Moment, clicks: int, pol: Policy)
    requires Passes(run, clicks, pol) && run[|run| - 1] == was
    requires NothingServes(was.holes, clicks, pol) && NoneFits(was.holes, pol.swapBase, clicks)
    requires pol.lowUser <= now.outswap < |was.procs| && pol.lowUser <= was.outswap
    requires forall q :: was.outswap < q < (if was.outswap < now.outswap then now.outswap else |was.procs|) ==>
               !Movable(was.procs[q], was.holes, pol.swapBase)
    requires now.outswap <= was.outswap ==>
               forall q :: pol.lowUser <= q < now.outswap ==> !Movable(was.procs[q], was.holes, pol.swapBase)
    requires MovedOut(now.outswap, was.procs, now.procs, was.holes, now.holes, pol.swapBase)
    ensures Passes(run + [now], clicks, pol)
  {
    MovedOutIsMovable(now.outswap, was.procs, now.procs, was.holes, now.holes, pol.swapBase);
    hide Movable, MovedOut, NothingServes, NoneFits, Passes;
    OnePassMore(run, now, clicks, pol);
  }

  // If the hole worst fit settles on is too short, or no ordinary hole fits, nothing serves.
  lemma TooShort(hs: seq<Hole>, clicks: int, pol: Policy, i: int)
    requires NoneFits(hs, pol.swapBase, clicks)
    requires pol.worstFit ==> IsWorstFit(hs, pol.swapBase, i) && hs[i].len < clicks
    ensures NothingServes(hs, clicks, pol)
  {
  }

  // What is known of the holes before any pass, compared with those from which processes
  // have been swapped out since.
  ghost predicate RoomSince(start: Moment, now: Moment, clicks: int, pol: Policy) {
    && (pol.worstFit ==> now.holes != [])
    && (HasOrdinary(start.holes, pol.swapBase) ==> HasOrdinary(now.holes, pol.swapBase))
    && (NoneFits(start.holes, pol.swapBase, clicks) || (now.procs == start.procs && now.holes == start.holes))
    && (pol.worstFit && FirstHoleIsSwap(start.holes, pol.swapBase, clicks) ==> now.holes == start.holes)
    && (ResidentsBelow(start.procs, pol.swapBase) ==>
         now.holes == start.holes || HasOrdinary(now.holes, pol.swapBase))
  }

  lemma RoomAtFirst(start: Moment, clicks: int, pol: Policy)
    requires pol.worstFit ==> start.holes != []
    ensures RoomSince(start, start, clicks, pol)
  {
  }

  lemma RoomAfterMoving(start: Moment, was: Moment, now: Moment, clicks: int, pol: Policy, loose: seq<Hole>,
                        areas: seq<Hole>)
    requires RoomSince(start, was, clicks, pol) && OnlySwappedOut(start.procs, was.procs)
    requires NothingServes(was.holes, clicks, pol) && NoneFits(was.holes, pol.swapBase, clicks)
    requires Accounts(was.holes, was.procs, loose, areas, pol.swapBase)
    requires MovedOut(now.outswap, was.procs, now.procs, was.holes, now.holes, pol.swapBase)
    ensures RoomSince(start, now, clicks, pol) && now.holes != []
  {
    OneMoreMovedOut(start.procs, now.outswap, was.procs, now.procs, was.holes, now.holes, loose, areas, pol.swapBase);
    hide Accounts, MovedOut, OnlySwappedOut, ResidentsBelow, NoneFits;
    assert pol.worstFit && FirstHoleIsSwap(was.holes, pol.swapBase, clicks) ==>
        Serves(was.holes, pol.swapBase, clicks, pol.worstFit, 0);
  }

  // Where the hole that serves lies is known from the start.
  lemma ServedSince(start: Moment, now: Moment, clicks: int, pol: Policy, i: int)
    requires RoomSince(start, now, clicks, pol) && Serves(now.holes, pol.swapBase, clicks, pol.worstFit, i)
    ensures 0 <= i < |now.holes| && clicks <= now.holes[i].len
    ensures (pol.worstFit ==> HasOrdinary(start.holes, pol.swapBase)) ==> now.holes[i].base < pol.swapBase
    ensures pol.worstFit && FirstHoleIsSwap(start.holes, pol.swapBase, clicks) ==> pol.swapBase <= now.holes[i].base
    ensures ResidentsBelow(start.procs, pol.swapBase) ==>
      (pol.swapBase <= now.holes[i].base <==> pol.worstFit && FirstHoleIsSwap(start.holes, pol.swapBase, clicks))
    ensures !NoneFits(start.holes, pol.swapBase, clicks) ==> now.procs == start.procs && now.holes == start.holes
  {
    hide NoneFits, ResidentsBelow;
    ServedFromSwap(now.holes, pol.swapBase, clicks, pol.worstFit, i);
  }

  lemma NothingServesSince(start: Moment, now: Moment, clicks: int, pol: Policy)
    requires RoomSince(start, now, clicks, pol)
    requires NothingServes(now.holes, clicks, pol) && NoneFits(now.holes, pol.swapBase, clicks)
    ensures NoneFits(start.holes, pol.swapBase, clicks) && (pol.worstFit ==> now.holes != [])
    ensures !(pol.worstFit && FirstHoleIsSwap(start.holes, pol.swapBase, clicks))
  {
    hide NoneFits;
    assert pol.worstFit && FirstHoleIsSwap(now.holes, pol.swapBase, clicks) ==>
        Serves(now.holes, pol.swapBase, clicks, pol.worstFit, 0);
  }

  // The block handed out is the front of a hole that serves.
  ghost predicate TakenFrom(hs: seq<Hole>, clicks: nat, pol: Policy, base: int, fs: seq<Hole>) {
    exists i :: Serves(hs, pol.swapBase, clicks, pol.worstFit, i) && base == hs[i].base && fs == Carve(hs, i, clicks)
  }

  // What allocation comes to after the last pass: memory, or nobody left to swap out.
  ghost predicate Allocated(run: seq<Moment>, clicks: nat, pol: Policy, r: Alloc, now: Moment) {
    && Passes(run, clicks, pol) && var last := run[|run| - 1];
       match r
       case Got(base) =>
         now.procs == last.procs && now.outswap == last.outswap && TakenFrom(last.holes, clicks, pol, base, now.holes)
       case NoMem => now == last && NothingServes(last.holes, clicks, pol) && NobodyMovable(last, pol)
       case Panic => true
  }

  // Before each pass but the first no ordinary hole had room, and exactly one process was
  // swapped out, one that was blocked, not to be avoided, and not swapped out before.
  lemma EachPassMovesOne(run: seq<Moment>, clicks: int, pol: Policy, j: nat)
    requires Passes(run, clicks, pol) && j < |run| - 1
    ensures forall i :: 0 <= i < |run[j].holes| ==> run[j].holes[i].base < pol.swapBase ==> run[j].holes[i].len < clicks
    ensures var p, was := run[j + 1].outswap, run[j].procs;
      && pol.lowUser <= p < |was| && was[p].blocked && !was[p].shunned && !was[p].onSwap
      && exists b :: run[j + 1].procs == was[p := was[p].(base := b, onSwap := true)]
  {
    hide Movable, IsFreed, NothingServes, NextOut, IsFirstSwapFit, Carve;
    var was, now := run[j], run[j + 1];
    assert OneMovesOut(was, now, clicks, pol);
    NextOutIsUser(was, now.outswap, pol);
    forall i | 0 <= i < |was.holes|
      ensures was.holes[i].base < pol.swapBase ==> was.holes[i].len < clicks
    {
      assert !Fits(was.holes, pol.swapBase, clicks, i);
    }
  }

  lemma NextOutIsUser(m: Moment, p: int, pol: Policy)
    requires NextOut(m, p, pol)
    ensures pol.lowUser <= p
  {
  }

  // Process p has been brought in, having been given memory: it lies there without its
  // flags, and its old block is free; or it waits on, there being none.
  ghost predicate ServedIn(p: int, was: Moment, run: seq<Moment>, r: Alloc, now: Moment, pol: Policy) {
    0 <= p < |was.procs| && exists mid ::
      && Allocated(run, was.procs[p].size, pol, r, mid) && run[0] == was
      && match r
         case Got(base) =>
           && now.outswap == mid.outswap && BroughtIn(p, mid.procs, now.procs, base)
           && IsFreed(mid.holes, mid.procs[p].base, mid.procs[p].size, now.holes)
         case NoMem => now == mid
         case Panic => false
  }

  // Worst fit is about to put process p, which waits, into swap space.
  ghost predicate Strays(m: Moment, p: int, worstFit: bool, swapBase: int) {
    worstFit && 0 <= p < |m.procs| && m.procs[p].swapIn && FirstHoleIsSwap(m.holes, swapBase, m.procs[p].size)
  }

  // A round leaves a process that does not wait as it is, and any other is brought in if
  // there is memory for it; the residents are then below the swap base just if it does
  // not stray.
  ghost predicate Round(p: int, was: Moment, now: Moment, pol: Policy) {
    && 0 <= p < |was.procs|
    && (if was.procs[p].swapIn then exists run, r :: ServedIn(p, was, run, r, now, pol) else now == was)
    && (ResidentsBelow(was.procs, pol.swapBase) ==>
         (ResidentsBelow(now.procs, pol.swapBase) <==> !Strays(was, p, pol.worstFit, pol.swapBase)))
  }

  lemma ServingRound(p: int, was: Moment, run: seq<Moment>, r: Alloc, mid: Moment, now: Moment, pol: Policy)
    requires 0 <= p < |was.procs| && was.procs[p].swapIn && !r.Panic?
    requires Allocated(run, was.procs[p].size, pol, r, mid) && run[0] == was
    requires r.NoMem? ==> now == mid
    requires r.Got? ==> now.outswap == mid.outswap && BroughtIn(p, mid.procs, now.procs, r.base)
    requires r.Got? ==> IsFreed(mid.holes, mid.procs[p].base, mid.procs[p].size, now.holes)
    requires ResidentsBelow(was.procs, pol.swapBase) ==>
               (ResidentsBelow(now.procs, pol.swapBase) <==>
                 !(pol.worstFit && FirstHoleIsSwap(was.holes, pol.swapBase, was.procs[p].size)))
    ensures ServedIn(p, was, run, r, now, pol) && Round(p, was, now, pol)
  {
    hide Allocated, IsFreed, ResidentsBelow, FirstHoleIsSwap;
    assert ServedIn(p, was, run, r, now, pol);
  }

  lemma StaleRound(p: int, was: Moment, pol: Policy)
    requires 0 <= p < |was.procs| && !was.procs[p].swapIn
    ensures Round(p, was, was, pol)
  {
  }

  // The moments before and after each of the first m rounds.
  ghost predicate Rounds(q: seq<int>, m: nat, run: seq<Moment>, pol: Policy) {
    && m <= |q| && |run| == m + 1
    && forall j :: 0 <= j < m ==> Round(q[j], run[j], run[j + 1], pol)
  }

  lemma NoRoundsYet(q: seq<int>, run: seq<Moment>, pol: Policy)
    requires |run| == 1
    ensures Rounds(q, 0, run, pol)
  {
  }

  lemma OneMoreRound(q: seq<int>, m: nat, run: seq<Moment>, now: Moment, pol: Policy)
    requires m < |q| && Rounds(q, m, run, pol) && Round(q[m], run[m], now, pol)
    ensures Rounds(q, m + 1, run + [now], pol)
  {
    hide Round;
    var more := run + [now];
    forall j | 0 <= j < m + 1
      ensures Round(q[j], more[j], more[j + 1], pol)
    {
      assert j < m ==> Round(q[j], run[j], run[j + 1], pol);
    }
  }

  lemma NobodyStraysUnderFirstFit(run: seq<Moment>, swapBase: int)
    ensures forall j, p :: 0 <= j < |run| ==> !Strays(run[j], p, false, swapBase)
  {
  }

  ghost predicate StayBelow(run: seq<Moment>, swapBase: int) {
    forall j :: 0 <= j < |run| ==> ResidentsBelow(run[j].procs, swapBase)
  }

  ghost predicate NoneStrays(q: seq<int>, run: seq<Moment>, worstFit: bool, swapBase: int) {
    forall j :: 0 <= j < |q| && j < |run| ==> !Strays(run[j], q[j], worstFit, swapBase)
  }

  // All residents lie below the swap base throughout, if they do at first, exactly if
  // no round puts a process into swap space.
  lemma {:induction false} NobodyStrays(q: seq<int>, m: nat, run: seq<Moment>, pol: Policy)
    requires Rounds(q, m, run, pol) && ResidentsBelow(run[0].procs, pol.swapBase)
    ensures StayBelow(run, pol.swapBase) <==> NoneStrays(q[..m], run, pol.worstFit, pol.swapBase)
  {
    hide ResidentsBelow, Strays, ServedIn;
    if m > 0 {
      assert Rounds(q, m - 1, run[..m], pol) by {
        assert forall j :: 0 <= j < m ==> run[..m][j] == run[j];
      }
      NobodyStrays(q, m - 1, run[..m], pol);
      assert Round(q[m - 1], run[m - 1], run[m - 1 + 1], pol);
      if StayBelow(run[..m], pol.swapBase) {
        assert NoneStrays(q[..m - 1], run[..m], pol.worstFit, pol.swapBase);
      }
    }
  }

  // One more of the queue has been dealt with: it is gone, or it still waits.
  lemma WaitingNext(q: seq<int>, m: nat, was: seq<Proc>, now: seq<Proc>, kept: bool)
    requires m < |q| && Distinct(q) && |was| == |now| && forall i :: 0 <= i < |q| ==> 0 <= q[i] < |was|
    requires forall i :: 0 <= i < m ==> was[q[i]].swapIn == now[q[i]].swapIn
    requires now[q[m]].swapIn == kept
    ensures Waiting(q[..m + 1], now) == if kept then Waiting(q[..m], was) + [q[m]] else Waiting(q[..m], was)
  {
    assert q[..m + 1][..m] == q[..m];
    WaitingDependsOnFlags(q[..m], was, now);
  }

  // A waiting process moves into the block just handed out; its old one is free.
  lemma BringingInKeepsAccounts(p: int, procs: seq<Proc>, hs: seq<Hole>, fs: seq<Hole>, loose: seq<Hole>, h: Hole,
                                areas: seq<Hole>, swapBase: int)
    requires Accounts(hs, procs, loose + [h], areas, swapBase)
    requires 0 <= p < |procs| && procs[p].swapIn && h.len == procs[p].size
    requires IsFreed(hs, procs[p].base, procs[p].size, fs)
    ensures Accounts(fs, procs[p := procs[p].(base := h.base, onSwap := false, swapIn := false)],
                         loose, areas, swapBase)
  {
    hide Partition, Covers, IsFreed, BlocksInWord;
    var now := procs[p := procs[p].(base := h.base, onSwap := false, swapIn := false)];
    var bs, more := Blocks(procs, loose), Blocks(procs, loose + [h]);
    assert more == bs + [h];
    assert more[|bs|] == h && bs[p] == Hole(procs[p].base, procs[p].size);
    FreedEntryAdopts(hs, bs, areas, p, h, fs);
    BlocksUpdated(procs, now, loose, p, h);
    StillInWord(more, bs[p := h], p, h);
  }

  lemma StillInWord(more: seq<Hole>, now: seq<Hole>, p: int, h: Hole)
    requires BlocksInWord(more) && |more| == |now| + 1 && h == more[|now|]
    requires forall i :: 0 <= i < |now| ==> now[i] == if i == p then h else more[i]
    ensures BlocksInWord(now)
  {
  }

  lemma BlocksUpdated(was: seq<Proc>, now: seq<Proc>, loose: seq<Hole>, p: int, h: Hole)
    requires |now| == |was| && 0 <= p < |was| && now == was[p := now[p]] && BlockOf(now[p]) == h
    ensures Blocks(now, loose) == Blocks(was, loose)[p := h]
  {
  }

  lemma EqualBlocks(was: seq<Proc>, now: seq<Proc>, loose: seq<Hole>)
    requires |was| == |now| && forall p :: 0 <= p < |was| ==> BlockOf(was[p]) == BlockOf(now[p])
    ensures Blocks(was, loose) == Blocks(now, loose)
  {
  }

  lemma FlaggingKeepsAccounts(hs: seq<Hole>, procs: seq<Proc>, loose: seq<Hole>, areas: seq<Hole>, swapBase: int,
                              p: int)
    requires Accounts(hs, procs, loose, areas, swapBase) && 0 <= p < |procs| && procs[p].live
    ensures Accounts(hs, procs[p := procs[p].(swapIn := true)], loose, areas, swapBase)
  {
    hide Partition, Covers, BlocksInWord;
    var now := procs[p := procs[p].(swapIn := true)];
    EqualBlocks(procs, now, loose);
    assert FlagsAgree(now, swapBase);
  }

  lemma FlagsKeepAccounts(hs: seq<Hole>, procs: seq<Proc>, now: seq<Proc>, loose: seq<Hole>, areas: seq<Hole>,
                          swapBase: int, p: int)
    requires Accounts(hs, procs, loose, areas, swapBase) && 0 <= p < |procs| && procs[p].live && |now| == |procs|
    requires now == procs[p := procs[p].(blocked := now[p].blocked, shunned := now[p].shunned)]
    ensures Accounts(hs, now, loose, areas, swapBase)
  {
    hide Partition, Covers, BlocksInWord;
    EqualBlocks(procs, now, loose);
  }

  lemma WaitingIsLive(hs: seq<Hole>, procs: seq<Proc>, loose: seq<Hole>, areas: seq<Hole>, swapBase: int, p: int)
    requires Accounts(hs, procs, loose, areas, swapBase) && 0 <= p < |procs| && procs[p].swapIn
    ensures procs[p].live
  {
  }

  lemma NothingDealtWithYet(q: seq<int>, procs: seq<Proc>)
    requires forall i :: 0 <= i < |q| ==> 0 <= q[i] < |procs|
    ensures Waiting(q[..0], procs) == [] && q[0..] == q && Relocated(procs, procs)
  {
  }

  function Last(q: seq<int>): int {
    if q == [] then NIL else q[|q| - 1]
  }

  lemma QueueInRange(next: seq<int>, head: int, queue: seq<int>)
    requires Linked(next, head, queue)
    ensures Distinct(queue) && head == At(queue, 0)
    ensures forall i :: 0 <= i < |queue| ==> 0 <= queue[i] < |next|
  {
    LinkedIsAcyclic(next, head, queue);
  }

  // Past those that are kept, the head or the last link leads to the next in line.
  lemma NextInLine(next: seq<int>, head: int, kept: seq<int>, q: seq<int>, m: nat)
    requires m <= |q| && Linked(next, head, kept + q[m..])
    ensures Last(kept) != NIL ==> 0 <= Last(kept) < |next|
    ensures Last(kept) == NIL ==> kept == []
    ensures (if Last(kept) == NIL then head else next[Last(kept)]) == At(q, m)
  {
    if kept != [] {
      var queue, k := kept + q[m..], |kept| - 1;
      assert queue[k] == Last(kept);
      assert next[queue[k]] == At(queue, k + 1);
    }
  }

  lemma BlockCanBeFreed(p: int, procs: seq<Proc>, hs: seq<Hole>, loose: seq<Hole>, areas: seq<Hole>, swapBase: int)
    requires Accounts(hs, procs, loose, areas, swapBase) && 0 <= p < |procs| && procs[p].live
    ensures forall c :: Hole(procs[p].base, procs[p].size).Has(c) ==> !Covers(hs, c)
    ensures 0 <= procs[p].base && procs[p].base + procs[p].size <= WORD
  {
  }

  // ----- start-up, swap space, and blocks that change hands -----

  // Chunks of memory as the kernel reports them: disjoint, in range, none of them empty.
  ghost predicate Chunks(chunks: seq<Hole>) {
    Apart(chunks) && forall i :: 0 <= i < |chunks| ==>
      0 <= chunks[i].base && 0 < chunks[i].len && chunks[i].End() + 1 < WORD
  }

  ghost predicate NoProcesses(procs: seq<Proc>) {
    forall p :: 0 <= p < |procs| ==>
      !procs[p].live && procs[p].base == 0 && !procs[p].blocked && !procs[p].onSwap && !procs[p].swapIn
  }

  // After the first m chunks: no block is out, top is the end of the highest chunk.
  ghost predicate ChunksFreed(hs: seq<Hole>, procs: seq<Proc>, chunks: seq<Hole>, m: nat, top: int) {
    && m <= |chunks| && Partition(hs, Blocks(procs, []), chunks[..m])
    && 0 <= top && (forall i :: 0 <= i < m ==> chunks[i].End() <= top)
    && (top == 0 || exists i :: 0 <= i < m && chunks[i].End() == top)
  }

  lemma NoBlocksOut(procs: seq<Proc>, c: int)
    requires NoProcesses(procs)
    ensures !Covers(Blocks(procs, []), c) && Apart(Blocks(procs, [])) && |Live(Blocks(procs, []))| == 0
  {
    var bs := Blocks(procs, []);
    assert forall p :: 0 <= p < |bs| ==> bs[p].len == 0;
    NoneLive(bs);
  }

  lemma NoChunkFreedYet(procs: seq<Proc>, chunks: seq<Hole>)
    requires NoProcesses(procs)
    ensures ChunksFreed([], procs, chunks, 0, 0)
  {
  }

  lemma NextChunkIsTaken(hs: seq<Hole>, procs: seq<Proc>, chunks: seq<Hole>, m: nat, top: int)
    requires Chunks(chunks) && ChunksFreed(hs, procs, chunks, m, top) && m < |chunks| && NoProcesses(procs)
    ensures |hs| <= m
    ensures forall c :: Hole(chunks[m].base, chunks[m].len).Has(c) ==> !Covers(chunks[..m], c) && !Covers(hs, c)
  {
    hide Partition, Covers, Apart, Chunks, NoProcesses;
    NoBlocksOut(procs, 0);
    HolesAreFew(hs, Blocks(procs, []), chunks[..m]);
    forall c | Hole(chunks[m].base, chunks[m].len).Has(c)
      ensures !Covers(chunks[..m], c) && !Covers(hs, c)
    {
      ChunkIsApart(chunks, m, c);
      FreeIsManaged(hs, Blocks(procs, []), chunks[..m], c);
    }
  }

  lemma ChunkIsApart(chunks: seq<Hole>, m: nat, c: int)
    requires Chunks(chunks) && m < |chunks| && Hole(chunks[m].base, chunks[m].len).Has(c)
    ensures !Covers(chunks[..m], c)
  {
    assert chunks[m] == Hole(chunks[m].base, chunks[m].len);
    assert chunks[m].Has(c);
    assert forall i :: 0 <= i < m ==> !chunks[i].Has(c);
  }

  lemma FreeIsManaged(hs: seq<Hole>, bs: seq<Hole>, areas: seq<Hole>, c: int)
    requires Partition(hs, bs, areas)
    ensures Covers(hs, c) ==> Covers(areas, c)
  {
  }

  lemma NextChunkFreed(hs: seq<Hole>, procs: seq<Proc>, chunks: seq<Hole>, m: nat, top: int, fs: seq<Hole>)
    requires Chunks(chunks) && ChunksFreed(hs, procs, chunks, m, top) && m < |chunks| && NoProcesses(procs)
    requires IsFreed(hs, chunks[m].base, chunks[m].len, fs)
    ensures ChunksFreed(fs, procs, chunks, m + 1, if top < chunks[m].End() then chunks[m].End() else top)
  {
    hide Partition, Covers, IsFreed;
    var h := chunks[m];
    assert Hole(h.base, h.len) == h;
    NextChunkIsTaken(hs, procs, chunks, m, top);
    GrowingKeepsPartition(hs, Blocks(procs, []), chunks[..m], h, fs);
    assert chunks[..m + 1] == chunks[..m] + [h];
  }

  lemma SwapSpaceIsApart(hs: seq<Hole>, procs: seq<Proc>, loose: seq<Hole>, areas: seq<Hole>, swapBase: int, size: nat)
    requires Accounts(hs, procs, loose, areas, swapBase) && NothingAbove(areas, swapBase)
    ensures forall c :: Hole(swapBase, size).Has(c) ==> !Covers(areas, c) && !Covers(hs, c)
    ensures |hs| <= LiveCount(procs, loose) + |areas|
    ensures IsFreed(hs, swapBase, 0, hs)
  {
    HolesAreFew(hs, Blocks(procs, loose), areas);
  }

  lemma SwapSpaceAdded(hs: seq<Hole>, procs: seq<Proc>, loose: seq<Hole>, areas: seq<Hole>, swapBase: int, size: nat,
                       fs: seq<Hole>)
    requires Accounts(hs, procs, loose, areas, swapBase) && NothingAbove(areas, swapBase)
    requires IsFreed(hs, swapBase, size, fs)
    ensures Accounts(fs, procs, loose, areas + [Hole(swapBase, size)], swapBase)
  {
    var h := Hole(swapBase, size);
    GrowingKeepsPartition(hs, Blocks(procs, loose), areas, h, fs);
    CoversConcat(areas, [h], swapBase - 1);
    CoversAround([h], 0, swapBase - 1);
  }

  lemma LooseBlockCanBeFreed(hs: seq<Hole>, procs: seq<Proc>, loose: seq<Hole>, areas: seq<Hole>, swapBase: int, i: nat)
    requires Accounts(hs, procs, loose, areas, swapBase) && i < |loose|
    ensures 0 <= loose[i].base && loose[i].End() <= WORD
    ensures forall c :: Hole(loose[i].base, loose[i].len).Has(c) ==> !Covers(hs, c)
    ensures |hs| <= LiveCount(procs, loose) + |areas|
  {
    var bs := Blocks(procs, loose);
    assert bs[|procs| + i] == loose[i] == Hole(loose[i].base, loose[i].len);
    BlockIsNotFree(hs, bs, areas, |procs| + i);
    HolesAreFew(hs, bs, areas);
    assert bs[|procs| + i].End() <= WORD;
  }

  lemma FreeingLooseKeepsAccounts(hs: seq<Hole>, procs: seq<Proc>, loose: seq<Hole>, areas: seq<Hole>, swapBase: int,
                                  i: nat, fs: seq<Hole>)
    requires Accounts(hs, procs, loose, areas, swapBase) && i < |loose|
    requires IsFreed(hs, loose[i].base, loose[i].len, fs)
    ensures Accounts(fs, procs, RemoveAt(loose, i), areas, swapBase)
  {
    hide Partition, Covers, IsFreed, BlocksInWord;
    var bs, j := Blocks(procs, loose), |procs| + i;
    assert bs[j] == loose[i];
    FreeingKeepsPartition(hs, bs, areas, j, 0, fs);
    EmptyEntryGoes(fs, bs[j := Hole(0, 0)], areas, j);
    BlocksOfFewer(procs, loose, i);
    assert RemoveAt(bs[j := Hole(0, 0)], j) == RemoveAt(bs, j);
    FewerStillInWord(bs, j);
  }

  lemma FewerStillInWord(bs: seq<Hole>, j: int)
    requires BlocksInWord(bs) && 0 <= j < |bs|
    ensures BlocksInWord(RemoveAt(bs, j))
  {
  }

  lemma BlocksOfFewer(procs: seq<Proc>, loose: seq<Hole>, i: nat)
    requires i < |loose|
    ensures Blocks(procs, RemoveAt(loose, i)) == RemoveAt(Blocks(procs, loose), |procs| + i)
  {
  }

  lemma InstallingKeepsAccounts(hs: seq<Hole>, procs: seq<Proc>, now: seq<Proc>, others: seq<Hole>, areas: seq<Hole>,
                                swapBase: int, p: int, h: Hole)
    requires Accounts(hs, procs, others + [h], areas, swapBase) && 0 <= p < |procs| && !procs[p].live && 0 <= h.len
    requires now == procs[p := Proc(true, h.base, h.len, false, false, false, false)]
    ensures Accounts(hs, now, others, areas, swapBase)
  {
    hide Partition, Covers, BlocksInWord;
    var bs, more := Blocks(procs, others), Blocks(procs, others + [h]);
    assert more == bs + [h];
    assert more[|bs|] == h;
    EmptyEntryAdopts(hs, bs, areas, p, h);
    BlocksUpdated(procs, now, others, p, h);
    StillInWord(more, bs[p := h], p, h);
  }

  lemma WithdrawingKeepsAccounts(hs: seq<Hole>, procs: seq<Proc>, now: seq<Proc>, loose: seq<Hole>, areas: seq<Hole>,
                                 swapBase: int, p: int)
    requires Accounts(hs, procs, loose, areas, swapBase) && 0 <= p < |procs| && procs[p].live
    requires now == procs[p := Proc(false, 0, 0, false, false, false, false)]
    ensures Accounts(hs, now, loose + [BlockOf(procs[p])], areas, swapBase)
  {
    hide Partition, Covers;
    var bs, h := Blocks(procs, loose), BlockOf(procs[p]);
    EntryGivesUp(hs, bs, areas, p, 0);
    BlocksUpdated(procs, now, loose, p, Hole(0, 0));
    var more := Blocks(now, loose + [h]);
    assert more == bs[p := Hole(0, 0)] + [h];
    assert bs[p] == h;
  }

  lemma TopOfMemory(hs: seq<Hole>, procs: seq<Proc>, chunks: seq<Hole>, top: int)
    requires Chunks(chunks) && ChunksFreed(hs, procs, chunks, |chunks|, top)
    ensures 0 <= top && top + 1 < WORD && (forall i :: 0 <= i < |chunks| ==> chunks[i].End() <= top)
    ensures top == 0 || exists i :: 0 <= i < |chunks| && chunks[i].End() == top
  {
  }

  lemma EmptyQueue(next: seq<int>)
    ensures Linked(next, NIL, [])
  {
  }

  lemma {:induction false} TotalOfOneMore(hs: seq<Hole>, m: nat)
    requires m < |hs|
    ensures TotalLength(hs[..m + 1]) == TotalLength(hs[..m]) + hs[m].len
  {
    if m > 0 {
      TotalOfOneMore(hs[1..], m - 1);
      assert hs[..m + 1][1..] == hs[1..][..m] && hs[..m][1..] == hs[1..][..m - 1];
    }
  }

  lemma AllChunksFreed(hs: seq<Hole>, procs: seq<Proc>, chunks: seq<Hole>, top: int)
    requires Chunks(chunks) && ChunksFreed(hs, procs, chunks, |chunks|, top) && NoProcesses(procs)
    ensures Accounts(hs, procs, [], chunks, top + 1) && NothingAbove(chunks, top + 1) && top + 1 < WORD
    ensures forall c :: Covers(hs, c) <==> Covers(chunks, c)
  {
  }
}
