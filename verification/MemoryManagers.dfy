// Memory as the memory manager hands it out: the hole table together with the
// process table, swapping processes out to make room and back in on request.
module MemoryManagers {
  import opened Basics
  import opened Links
  import opened HoleLists
  import opened HoleTables
  import opened Ledgers
  import opened Accounting

  class MemoryManager {
    const table: HoleTable
    const mproc: array<Proc>
    const swapq: array<int>
    const lowUser: nat
    var outswap: int
    var inQueue: int
    var swapBase: int
    var swapMaxsize: int
    var swapOpen: bool
    var worstFit: bool
    ghost var queue: seq<int>
    ghost var loose: seq<Hole>
    ghost var areas: seq<Hole>

    ghost predicate Shape()
    {
      && table.Shape() && 0 < table.hNext.Length
      && swapq != table.hNext && swapq != table.hBase && swapq != table.hLen
      && swapq.Length == mproc.Length && lowUser < mproc.Length
    }

    ghost predicate Valid()
      reads this, table, table.hNext, table.hBase, table.hLen, mproc, swapq
    {
      && Shape() && lowUser <= outswap < mproc.Length
      && table.Valid() && Linked(swapq[..], inQueue, queue)
      && Accounts(table.Holes(), mproc[..], loose, areas, swapBase)
      && 0 < swapBase < WORD && swapMaxsize == WORD - swapBase
      && (swapOpen || NothingAbove(areas, swapBase))
    }

    constructor (processes: nat, firstUser: nat)
      requires firstUser < processes
      ensures Shape() && mproc.Length == processes && table.hNext.Length == 2 * processes && lowUser == firstUser
      ensures outswap == firstUser && inQueue == NIL && swapBase == 0 && !swapOpen && !worstFit
      ensures queue == [] && loose == [] && areas == []
      ensures forall p :: 0 <= p < processes ==> mproc[p] == Proc(false, 0, 0, false, false, false, false)
      ensures fresh(table) && fresh(table.hNext) && fresh(table.hBase) && fresh(table.hLen)
      ensures fresh(mproc) && fresh(swapq)
    {
      table := new HoleTable(2 * processes);
      mproc := new Proc[processes](_ => Proc(false, 0, 0, false, false, false, false));
      swapq := new int[processes](_ => NIL);
      lowUser, outswap, inQueue := firstUser, firstUser, NIL;
      swapBase, swapMaxsize, swapOpen, worstFit := 0, 0, false, false;
      queue, loose, areas := [], [], [];
    }

    // Swaps out the candidate in slot rmp if some swap hole has room for it.
    method SwapOutProcess(rmp: int) returns (r: Swap)
      requires Valid() && 0 <= rmp < mproc.Length && Candidate(mproc[rmp])
      modifies table, table.hNext, table.hBase, table.hLen, mproc
      ensures r.NoCandidate? <==> NoSwapFits(old(table.Holes()), swapBase, old(mproc[rmp]).size)
      ensures r.NoCandidate? <==> forall i :: 0 <= i < |old(table.Holes())| ==>
        swapBase <= old(table.Holes())[i].base ==> old(table.Holes())[i].len < old(mproc[rmp]).size
      ensures r.NoCandidate? ==> Valid() && mproc[..] == old(mproc[..]) && table.Holes() == old(table.Holes())
      ensures r.Swapped? ==> Valid()
      ensures r.Swapped? ==> MovedOut(rmp, old(mproc[..]), mproc[..], old(table.Holes()), table.Holes(), swapBase)
      ensures r.SwapPanic? ==> table.hNext.Length <= LiveCount(old(mproc[..]), loose) + |areas|
    {
      hide Accounts, Linked, Canonical, InWord, TwoLists, Carve, LiveCount, IsFreed;
      ghost var procs, hs := mproc[..], table.Holes();
      var size := mproc[rmp].size;
      var newBase := table.SwapFit(size, swapBase);
      if newBase.None? { return NoCandidate; }
      ghost var i :| IsFirstSwapFit(hs, swapBase, size, i)
                  && newBase.value == hs[i].base && table.Holes() == Carve(hs, i, size);
      OldBlockIsNotFree(hs, procs, loose, areas, swapBase, rmp, i);
      var oldBase := mproc[rmp].base;
      mproc[rmp] := mproc[rmp].(base := newBase.value);
      var panicked := table.FreeMem(oldBase, size);
      if panicked { return SwapPanic; }
      mproc[rmp] := mproc[rmp].(onSwap := true);
      assert mproc[..] == procs[rmp := procs[rmp].(base := hs[i].base, onSwap := true)];
      MovingOutKeepsAccounts(rmp, procs, mproc[..], hs, table.Holes(), loose, areas, swapBase);
      return Swapped;
    }

    // Everybody who waits to be swapped in is on the queue.
    ghost predicate NobodyLost()
      reads this`queue, mproc
    {
      WaitersQueued(mproc[..], queue)
    }

    // Worst fit dereferences the head of the hole list, so it needs one.
    ghost predicate Ready()
      reads this, table, table.hNext, table.hBase, table.hLen, mproc, swapq
    {
      Valid() && (worstFit ==> table.Holes() != [])
    }

    lemma ReadyIsValid()
      requires Ready()
      ensures Valid() && table.Valid() && Linked(swapq[..], inQueue, queue)
    {
    }

    ghost function Now(): Moment
      requires table.Valid()
      reads this, table, table.hNext, table.hBase, table.hLen, mproc
    {
      Moment(mproc[..], table.Holes(), outswap)
    }

    function Pol(): Policy
      reads this
    {
      Policy(worstFit, swapBase, lowUser)
    }

    // Looks for a process to swap out, from the one after the last one swapped out.
    method SwapOut() returns (r: Swap)
      requires Valid()
      modifies this`outswap, table, table.hNext, table.hBase, table.hLen, mproc
      ensures r.Swapped? ==> Valid()
      ensures r.Swapped? ==> MovedOut(outswap, old(mproc[..]), mproc[..], old(table.Holes()), table.Holes(), swapBase)
      ensures r.Swapped? ==> lowUser <= outswap < mproc.Length
      // Counting up from the slot swapped out last, and on from the lowest user slot, no slot
      // before this one could be moved.
      ensures r.Swapped? ==> forall q ::
        old(outswap) < q < (if old(outswap) < outswap then outswap else mproc.Length) ==>
          !Movable(old(mproc[..])[q], old(table.Holes()), swapBase)
      ensures r.Swapped? && outswap <= old(outswap) ==> forall q :: lowUser <= q < outswap ==>
        !Movable(old(mproc[..])[q], old(table.Holes()), swapBase)
      ensures r.NoCandidate? ==> Valid() && mproc[..] == old(mproc[..]) && table.Holes() == old(table.Holes())
      ensures r.NoCandidate? ==> outswap == old(outswap)
      ensures r.NoCandidate? ==> forall p :: lowUser <= p < mproc.Length ==> !Movable(mproc[p], table.Holes(), swapBase)
      ensures LiveCount(old(mproc[..]), loose) + |areas| < table.hNext.Length ==> !r.SwapPanic?
    {
      hide Accounts, Linked, Canonical, InWord, TwoLists, MovedOut, NoSwapFits, LiveCount, HoleTable.Linkage;
      ghost var procs, hs := mproc[..], table.Holes();
      var rmp := outswap;
      ghost var wrapped := false;
      while true
        invariant Valid() && mproc[..] == procs && table.Holes() == hs && outswap == old(outswap)
        invariant lowUser <= rmp < mproc.Length && if wrapped then rmp < outswap else outswap <= rmp
        invariant forall q :: outswap < q < (if wrapped then mproc.Length else rmp + 1) ==>
                    !Movable(procs[q], hs, swapBase)
        invariant wrapped ==> forall q :: lowUser <= q <= rmp ==> !Movable(procs[q], hs, swapBase)
        decreases !wrapped, mproc.Length - rmp
      {
        rmp := rmp + 1;
        if rmp == mproc.Length { rmp, wrapped := lowUser, true; }
        if mproc[rmp].blocked && !(mproc[rmp].shunned || mproc[rmp].onSwap) {
          r := SwapOutProcess(rmp);
          if r.SwapPanic? { return; }
          if r.Swapped? {
            outswap := rmp;
            return;
          }
        }
        if rmp == outswap { break; }
      }
      return NoCandidate;
    }

    // One pass over the holes under the policy in force.
    method TryAlloc(clicks: nat) returns (base: Option<int>, ghost i: int)
      requires table.Valid() && (worstFit ==> table.Holes() != [])
      modifies table, table.hNext, table.hBase, table.hLen
      ensures table.Valid()
      ensures base.None? ==> table.Holes() == old(table.Holes()) && NoneFits(table.Holes(), swapBase, clicks)
      ensures base.None? && worstFit ==> IsWorstFit(table.Holes(), swapBase, i) && table.Holes()[i].len < clicks
      ensures base.None? ==> NothingServes(table.Holes(), clicks, Pol())
      ensures base.Some? ==> Serves(old(table.Holes()), swapBase, clicks, worstFit, i)
      ensures base.Some? ==> base.value == old(table.Holes())[i].base
      ensures base.Some? ==> table.Holes() == Carve(old(table.Holes()), i, clicks)
    {
      hide Carve, TwoLists, NothingServes;
      ghost var hs := table.Holes();
      i := 0;
      if !worstFit {
        base := table.FirstFit(clicks, swapBase);
        if base.Some? {
          i :| IsFirstFit(hs, swapBase, clicks, i) && base.value == hs[i].base && table.Holes() == Carve(hs, i, clicks);
        }
      } else {
        base := table.WorstFit(clicks, swapBase);
        i :| && IsWorstFit(hs, swapBase, i)
             && (base.None? <==> hs[i].len < clicks)
             && (base.None? ==> table.Holes() == hs)
             && (base.Some? ==> base.value == hs[i].base && table.Holes() == Carve(hs, i, clicks));
        if HasOrdinary(hs, swapBase) { PoliciesSucceedTogether(hs, swapBase, clicks, i); }
      }
      if base.None? { TooShort(hs, clicks, Pol(), i); }
    }

    // Memory for clicks clicks, other processes being swapped out to make room.
    method AllocMem(clicks: nat) returns (r: Alloc, ghost run: seq<Moment>)
      requires Ready()
      modifies this`outswap, this`loose, table, table.hNext, table.hBase, table.hLen, mproc
      ensures r.Panic? ==> table.hNext.Length <= LiveCount(old(mproc[..]), old(loose)) + |areas|
      ensures !r.Panic? ==> Valid() && OnlySwappedOut(old(mproc[..]), mproc[..])
      // Pass by pass: while nothing serves, one process after another is swapped out.
      ensures !r.Panic? ==> Allocated(run, clicks, Pol(), r, Now()) && run[0] == old(Now())
      ensures r.Got? ==> loose == old(loose) + [Hole(r.base, clicks)]
      ensures r.Got? && (worstFit ==> old(HasOrdinary(table.Holes(), swapBase))) ==> r.base < swapBase
      // Worst fit serves from swap space just if no ordinary hole is left and the first hole fits.
      ensures worstFit && old(FirstHoleIsSwap(table.Holes(), swapBase, clicks)) ==> r.Got? && swapBase <= r.base
      ensures r.Got? && old(ResidentsBelow(mproc[..], swapBase)) ==>
        (swapBase <= r.base <==> worstFit && old(FirstHoleIsSwap(table.Holes(), swapBase, clicks)))
      ensures !r.Panic? && old(ResidentsBelow(mproc[..], swapBase)) ==> ResidentsBelow(mproc[..], swapBase)
      ensures !r.Panic? ==> (NobodyLost() <==> old(NobodyLost()))
      ensures r.Got? ==> |table.Holes()| <= LiveCount(old(mproc[..]), old(loose)) + |areas|
      ensures r.NoMem? ==> loose == old(loose) && NoneFits(table.Holes(), swapBase, clicks)
      ensures r.NoMem? ==> forall p :: lowUser <= p < mproc.Length ==> !Movable(mproc[p], table.Holes(), swapBase)
      ensures worstFit && (r.NoMem? || (r.Got? && clicks == 0)) ==> table.Holes() != []
      // With room from the start nothing is swapped out, and the policy picks the hole.
      ensures !old(NoneFits(table.Holes(), swapBase, clicks)) ==>
        mproc[..] == old(mproc[..]) && r.Got? && exists i ::
          && Serves(old(table.Holes()), swapBase, clicks, worstFit, i)
          && r.base == old(table.Holes())[i].base && table.Holes() == Carve(old(table.Holes()), i, clicks)
    {
      hide Linked, Canonical, InWord, TwoLists, MovedOut, Accounts, OnlySwappedOut, LiveCount, Residents, Carve,
        Covers, NoSwapFits, NoneFits, ResidentsBelow, WaitersQueued, Movable, Passes, NothingServes, RoomSince,
        HasOrdinary, FirstHoleIsSwap, Serves, HoleTable.Linkage;
      ghost var first, start := mproc[..], Now();
      NothingSwappedYet(first);
      run := [start];
      FirstPass(start, clicks, Pol());
      RoomAtFirst(start, clicks, Pol());
      while true
        invariant Valid() && OnlySwappedOut(first, mproc[..]) && loose == old(loose)
        invariant LiveCount(mproc[..], loose) == LiveCount(first, loose)
        invariant run != [] && run[0] == start && run[|run| - 1] == Now() && Passes(run, clicks, Pol())
        invariant worstFit ==> table.Holes() != []
        invariant RoomSince(start, Now(), clicks, Pol())
        decreases Residents(mproc[..])
      {
        ghost var was, procs, hs := Now(), mproc[..], table.Holes();
        var base, i := TryAlloc(clicks);
        if base.Some? {
          ServedSince(start, was, clicks, Pol(), i);
          HandingOutKeepsAccounts(hs, i, clicks, procs, loose, areas, swapBase);
          loose := loose + [Hole(base.value, clicks)];
          SwappingOutKeeps(first, mproc[..], swapBase, queue);
          return Got(base.value), run;
        }
        var swapped := SwapOut();
        NothingServesSince(start, was, clicks, Pol());
        if swapped.SwapPanic? { return Panic, run; }
        if swapped.NoCandidate? {
          SwappingOutKeeps(first, mproc[..], swapBase, queue);
          return NoMem, run;
        }
        OneMoreOut(run, was, Now(), clicks, Pol());
        run := run + [Now()];
        RoomAfterMoving(start, was, Now(), clicks, Pol(), loose, areas);
        SwappedOutOnceMore(outswap, first, procs, mproc[..], hs, table.Holes(), loose, swapBase);
      }
    }

    // Puts a swapped out process on the queue of those to swap in.
    method SwapInqueue(rmp: int)
      requires Valid() && 0 <= rmp < mproc.Length && mproc[rmp].live
      modifies this`inQueue, this`queue, swapq, mproc
      ensures Valid() && mproc[..] == old(mproc[..])[rmp := old(mproc[rmp]).(swapIn := true)]
      ensures old(ResidentsBelow(mproc[..], swapBase)) ==> ResidentsBelow(mproc[..], swapBase)
      ensures queue == if old(mproc[rmp]).swapIn then old(queue) else Requeued(old(queue), rmp)
      // Nobody who waits is lost, and so passed over from then on, unless somebody who does
      // is linked in behind the process from an earlier time, and only unless.
      ensures NobodyLost() <==>
        old(NobodyLost()) && (old(mproc[rmp].swapIn) || !old(WaitsBehind(mproc[..], queue, rmp)))
    {
      hide Accounts, TwoLists, Canonical, InWord, UpTo, WaitersQueued, WaitsBehind, Linked;
      ghost var procs, q := mproc[..], queue;
      if mproc[rmp].swapIn {
        assert procs == procs[rmp := procs[rmp].(swapIn := true)];
        return;
      }
      QueueInRange(swapq[..], inQueue, q);
      QueueingLoses(procs, q, rmp);
      LinkLast(rmp);
      mproc[rmp] := mproc[rmp].(swapIn := true);
      assert mproc[..] == procs[rmp := procs[rmp].(swapIn := true)];
      FlaggingKeepsAccounts(table.Holes(), procs, loose, areas, swapBase, rmp);
    }

    // Puts process rmp, which may still be linked in, behind the last of the queue.
    method LinkLast(rmp: int)
      requires 0 <= rmp < swapq.Length && Linked(swapq[..], inQueue, queue)
      modifies this`inQueue, this`queue, swapq
      ensures Linked(swapq[..], inQueue, queue) && queue == Requeued(old(queue), rmp)
    {
      hide UpTo, Linked, Requeued;
      ghost var next, head, q := swapq[..], inQueue, queue;
      QueueInRange(next, head, q);
      var prev := FindTail();
      if prev == NIL { inQueue := rmp; } else { swapq[prev] := rmp; }
      swapq[rmp] := NIL;
      queue := Requeued(q, rmp);
      RequeuedIs(q, rmp);
      assert swapq[..] == (if q == [] then next else next[Last(q) := rmp])[rmp := NIL];
      if rmp in q {
        CutPath(next, head, q, |UpTo(q, rmp)| - 1);
      } else {
        LinkedInPath(next, head, q, |q|, rmp);
        assert InsertAt(q, |q|, rmp) == q + [rmp];
      }
    }

    method FindTail() returns (prev: int)
      requires Linked(swapq[..], inQueue, queue)
      ensures prev == if queue == [] then NIL else queue[|queue| - 1]
    {
      prev := NIL;
      var p := inQueue;
      ghost var k := 0;
      while p != NIL
        invariant k <= |queue| && p == At(queue, k) && prev == if k == 0 then NIL else queue[k - 1]
        decreases |queue| - k
      {
        assert swapq[..][queue[k]] == At(queue, k + 1);
        prev := p;
        p := swapq[p];
        k := k + 1;
      }
    }

    // Takes the process at position k off the queue: whatever pointed to it, the head
    // or its predecessor, now points past it.
    method Unqueue(prev: int, rmp: int, ghost k: nat)
      requires Valid() && k < |queue| && rmp == queue[k]
      requires prev == if k == 0 then NIL else queue[k - 1]
      modifies this`inQueue, this`queue, swapq
      ensures Valid() && queue == RemoveAt(old(queue), k) && table.Holes() == old(table.Holes())
    {
      hide Linked, TwoLists, Accounts, Canonical, InWord, RemoveAt;
      ghost var next := swapq[..];
      QueueInRange(next, inQueue, queue);
      UnlinkedPath(next, inQueue, queue, k, next[rmp]);
      if prev == NIL { inQueue := swapq[rmp]; } else { swapq[prev] := swapq[rmp]; }
      queue := RemoveAt(queue, k);
      assert swapq[..] == (if k == 0 then next else next[prev := next[rmp]])[rmp := next[rmp]];
    }

    // Moves the waiting process rmp into the block at newBase and frees its old one.
    method BringIn(rmp: int, newBase: int, ghost others: seq<Hole>) returns (panicked: bool)
      requires Valid() && 0 <= rmp < mproc.Length && mproc[rmp].swapIn
      requires loose == others + [Hole(newBase, mproc[rmp].size)]
      modifies this`loose, table, table.hNext, table.hBase, table.hLen, mproc
      ensures panicked ==> |old(table.Holes())| == table.hNext.Length
      ensures !panicked ==> Valid() && loose == others
      ensures !panicked ==> BroughtIn(rmp, old(mproc[..]), mproc[..], newBase)
      ensures !panicked ==> IsFreed(old(table.Holes()), old(mproc[rmp]).base, old(mproc[rmp]).size, table.Holes())
    {
      hide TwoLists, Linked, Accounts, Canonical, InWord, IsFreed;
      ghost var procs, hs := mproc[..], table.Holes();
      WaitingIsLive(hs, procs, loose, areas, swapBase, rmp);
      BlockCanBeFreed(rmp, procs, hs, loose, areas, swapBase);
      var size, oldBase := mproc[rmp].size, mproc[rmp].base;
      mproc[rmp] := mproc[rmp].(base := newBase);
      panicked := table.FreeMem(oldBase, size);
      if panicked { return; }
      mproc[rmp] := mproc[rmp].(onSwap := false, swapIn := false);
      loose := others;
      assert BroughtIn(rmp, procs, mproc[..], newBase);
      BringingInKeepsAccounts(rmp, procs, hs, table.Holes(), others, Hole(newBase, size), areas, swapBase);
    }

    // Some ordinary hole has room for process p.
    ghost predicate RoomFor(p: int)
      reads this, table, table.hNext, table.hBase, table.hLen, mproc
    {
      0 <= p < mproc.Length && table.Valid() && !NoneFits(table.Holes(), swapBase, mproc[p].size)
    }

    // The first of the queue q, if it is to be served, has room, or has been brought in.
    ghost predicate FirstServed(q: seq<int>, m: nat, served: bool)
      reads this, table, table.hNext, table.hBase, table.hLen, mproc
    {
      served && q != [] ==> if m == 0 then RoomFor(q[0]) else 0 <= q[0] < mproc.Length && !mproc[q[0]].swapIn
    }

    // No ordinary hole has room for process p, and no process can be swapped out.
    ghost predicate NoRoomFor(p: int)
      reads this, table, table.hNext, table.hBase, table.hLen, mproc, swapq
    {
      && Valid() && 0 <= p < mproc.Length
      && NoneFits(table.Holes(), swapBase, mproc[p].size)
      && forall q :: lowUser <= q < mproc.Length ==> !Movable(mproc[q], table.Holes(), swapBase)
    }

    // Tries to find memory for the waiting process rmp and to bring it in.
    method TrySwapIn(rmp: int, ghost first: seq<Proc>) returns (r: Alloc, ghost run: seq<Moment>)
      requires Ready()
      requires 0 <= rmp < mproc.Length && mproc[rmp].swapIn && Relocated(first, mproc[..])
      modifies this`outswap, this`loose, table, table.hNext, table.hBase, table.hLen, mproc
      ensures r.Panic? ==> table.hNext.Length <= LiveCount(old(mproc[..]), old(loose)) + |areas|
      ensures !r.Panic? ==> Ready() && loose == old(loose)
      ensures !r.Panic? ==> ServedIn(rmp, old(Now()), run, r, Now(), Pol()) && Round(rmp, old(Now()), Now(), Pol())
      ensures !r.Panic? ==> Relocated(first, mproc[..])
      ensures !r.Panic? ==> LiveCount(mproc[..], loose) == LiveCount(old(mproc[..]), loose)
      ensures !r.Panic? ==> forall p :: 0 <= p < mproc.Length ==>
        mproc[p].swapIn == if p == rmp then r.NoMem? else old(mproc[p].swapIn)
      ensures r.NoMem? ==> NoRoomFor(rmp)
      ensures !old(NoneFits(table.Holes(), swapBase, mproc[rmp].size)) && !r.Panic? ==> r.Got?
      ensures !r.Panic? && old(ResidentsBelow(mproc[..], swapBase)) ==>
        (ResidentsBelow(mproc[..], swapBase) <==>
          !(worstFit && old(FirstHoleIsSwap(table.Holes(), swapBase, mproc[rmp].size))))
    {
      hide Linked, TwoLists, Accounts, Canonical, InWord, IsFreed, LiveCount, Relocated, OnlySwappedOut,
        ResidentsBelow, NoneFits, Serves, Carve, Movable, FirstHoleIsSwap, Allocated,
        Round, ServedIn, BroughtIn;
      ghost var procs, was := mproc[..], Now();
      WaitingIsLive(table.Holes(), procs, loose, areas, swapBase, rmp);
      var size := mproc[rmp].size;
      r, run := AllocMem(size);
      if r.Panic? { return; }
      ghost var mid, moved := mproc[..], Now();
      WaitingOn(first, procs, mid, rmp, old(loose), swapBase);
      if r.NoMem? {
        ServingRound(rmp, was, run, r, moved, moved, Pol());
        return;
      }
      var panicked := BringIn(rmp, r.base, old(loose));
      if panicked { return Panic, run; }
      if worstFit { FreeingLeavesHoles(moved.holes, mid[rmp].base, size, table.Holes()); }
      BroughtInNow(first, procs, mid, mproc[..], rmp, r.base, loose, swapBase);
      ServingRound(rmp, was, run, r, moved, Now(), Pol());
    }

    // The first m of the queue q have been dealt with; rmp is next, and prev the last
    // of those kept, whose link leads to it.
    ghost predicate DealtWith(q: seq<int>, m: nat, prev: int, rmp: int)
      reads this, mproc
    {
      && m <= |q| && Distinct(q) && (forall i :: 0 <= i < |q| ==> 0 <= q[i] < mproc.Length)
      && queue == Waiting(q[..m], mproc[..]) + q[m..]
      && rmp == At(q, m) && prev == Last(Waiting(q[..m], mproc[..]))
    }

    lemma NoneDealtWith()
      requires Ready()
      ensures DealtWith(queue, 0, NIL, inQueue)
    {
      QueueInRange(swapq[..], inQueue, queue);
      NothingDealtWithYet(queue, mproc[..]);
    }

    lemma AllDealtWith(q: seq<int>, m: nat, prev: int, rmp: int)
      requires DealtWith(q, m, prev, rmp)
      ensures m <= |q| && (0 < m ==> 0 <= q[m - 1] < mproc.Length)
      ensures (rmp != NIL <==> m < |q|) && (m < |q| ==> rmp == q[m])
      ensures rmp == NIL ==> queue == Waiting(q, mproc[..])
    {
      if m == |q| { assert q[..m] == q && q[m..] == []; }
    }

    // The first m rounds led here from the given moment.
    ghost predicate Followed(q: seq<int>, m: nat, start: Moment, run: seq<Moment>)
      reads this, table, table.hNext, table.hBase, table.hLen, mproc
    {
      && table.Valid() && Rounds(q, m, run, Pol())
      && run[0] == start && run[m] == Now()
    }

    lemma NoRoundFollowed(q: seq<int>)
      requires table.Valid()
      ensures Followed(q, 0, Now(), [Now()])
    {
      NoRoundsYet(q, [Now()], Pol());
    }

    lemma RoundFollowed(q: seq<int>, m: nat, start: Moment, run: seq<Moment>) returns (run': seq<Moment>)
      requires m < |q| && Rounds(q, m, run, Pol()) && |run| == m + 1 && run[0] == start
      requires Ready() && Round(q[m], run[m], Now(), Pol())
      ensures Followed(q, m + 1, start, run')
    {
      OneMoreRound(q, m, run, Now(), Pol());
      run' := run + [Now()];
    }

    lemma AllFollowed(q: seq<int>, start: Moment, run: seq<Moment>)
      requires Followed(q, |q|, start, run)
      ensures table.Valid() && Rounds(q, |q|, run, Pol()) && run[0] == start && run[|run| - 1] == Now()
      ensures ResidentsBelow(start.procs, swapBase) ==>
        (StayBelow(run, swapBase) <==> NoneStrays(q, run, worstFit, swapBase))
      ensures ResidentsBelow(start.procs, swapBase) && !worstFit ==> ResidentsBelow(mproc[..], swapBase)
    {
      if ResidentsBelow(start.procs, swapBase) {
        assert q[..|q|] == q;
        NobodyStrays(q, |q|, run, Pol());
        if !worstFit { NobodyStraysUnderFirstFit(run, swapBase); }
      }
    }

    // The first m of the queue q have been dealt with, led here from the given moment by
    // run; the last of them waits only for want of memory.
    ghost predicate SwappingIn(q: seq<int>, m: nat, start: Moment, run: seq<Moment>, prev: int, rmp: int, served: bool)
      reads this, table, table.hNext, table.hBase, table.hLen, mproc, swapq
    {
      && Ready() && Relocated(start.procs, mproc[..]) && LiveCount(mproc[..], loose) == LiveCount(start.procs, loose)
      && DealtWith(q, m, prev, rmp) && FirstServed(q, m, served) && Followed(q, m, start, run)
      && OthersWaitOn(q, start.procs, mproc[..])
      && (0 < m && mproc[q[m - 1]].swapIn ==> NoRoomFor(q[m - 1]))
    }

    lemma SwappingInBegins(served: bool) returns (run: seq<Moment>)
      requires Ready() && (served ==> queue != [] && RoomFor(queue[0]))
      ensures table.Valid() && Linked(swapq[..], inQueue, queue)
      ensures SwappingIn(queue, 0, Now(), run, NIL, inQueue, served) && (inQueue == NIL <==> queue == [])
    {
      hide HoleTable.Valid, Accounts, LiveCount, Relocated, Waiting, ResidentsBelow, Rounds;
      ReadyIsValid();
      NothingDealtWithYet([], mproc[..]);
      NoneDealtWith();
      AllDealtWith(queue, 0, NIL, inQueue);
      run := [Now()];
      NoRoundFollowed(queue);
    }

    lemma SwappingInEnds(q: seq<int>, m: nat, start: Moment, run: seq<Moment>, prev: int, served: bool)
      requires SwappingIn(q, m, start, run, prev, NIL, served)
      ensures Ready() && Relocated(start.procs, mproc[..]) && table.Valid()
      ensures (forall i :: 0 <= i < |q| ==> 0 <= q[i] < mproc.Length) && queue == Waiting(q, mproc[..])
      ensures q != [] && mproc[Last(q)].swapIn ==> NoRoomFor(Last(q))
      ensures served && q != [] ==> !mproc[q[0]].swapIn
      ensures OthersWaitOn(q, start.procs, mproc[..]) && (NobodyLost() <==> WaitersQueued(start.procs, q))
      ensures Rounds(q, |q|, run, Pol()) && run[0] == start && run[|run| - 1] == Now()
      ensures ResidentsBelow(start.procs, swapBase) ==>
        (StayBelow(run, swapBase) <==> NoneStrays(q, run, worstFit, swapBase))
      ensures ResidentsBelow(start.procs, swapBase) && !worstFit ==> ResidentsBelow(mproc[..], swapBase)
    {
      hide HoleTable.Valid, Accounts, LiveCount, Relocated, Waiting, ResidentsBelow, Rounds, Followed, Linked;
      AllDealtWith(q, m, prev, NIL);
      AllFollowed(q, start, run);
      SwappingInKeepsQueued(q, start.procs, mproc[..]);
      ReadyIsValid();
    }

    lemma SwappingSoFar(q: seq<int>, m: nat, start: Moment, run: seq<Moment>, prev: int, rmp: int, served: bool)
      requires SwappingIn(q, m, start, run, prev, rmp, served)
      ensures Ready() && Relocated(start.procs, mproc[..])
      ensures LiveCount(mproc[..], loose) == LiveCount(start.procs, loose)
      ensures DealtWith(q, m, prev, rmp) && FirstServed(q, m, served) && OthersWaitOn(q, start.procs, mproc[..])
      ensures table.Valid() && Rounds(q, m, run, Pol()) && |run| == m + 1 && run[0] == start
      ensures run[m] == Now()
      ensures (rmp != NIL <==> m < |q|) && (m < |q| ==> rmp == q[m])
    {
      hide HoleTable.Valid, Accounts, LiveCount, Relocated, Waiting, Linked;
      AllDealtWith(q, m, prev, rmp);
    }

    lemma SwappingFurther(q: seq<int>, m: nat, start: Moment, run: seq<Moment>, prev: int, rmp: int, served: bool)
      returns (run': seq<Moment>)
      requires Ready() && Relocated(start.procs, mproc[..])
      requires LiveCount(mproc[..], loose) == LiveCount(start.procs, loose)
      requires m < |q| && DealtWith(q, m + 1, prev, rmp) && FirstServed(q, m + 1, served)
      requires OthersWaitOn(q, start.procs, mproc[..])
      requires Rounds(q, m, run, Pol()) && |run| == m + 1 && run[0] == start
      requires table.Valid() && Round(q[m], run[m], Now(), Pol())
      requires 0 <= q[m] < mproc.Length && (mproc[q[m]].swapIn ==> NoRoomFor(q[m]))
      ensures SwappingIn(q, m + 1, start, run', prev, rmp, served)
    {
      hide HoleTable.Valid, Accounts, LiveCount, Relocated, Waiting, Rounds, Linked, Round;
      run' := RoundFollowed(q, m, start, run);
    }

    // Deals with the next process of the queue: a stale entry is dropped, one there is
    // no memory for is passed over, any other is brought in and leaves the queue.
    method SwapInNext(prev: int, rmp: int, ghost q: seq<int>, ghost m: nat, ghost start: Moment,
                      ghost run: seq<Moment>, ghost served: bool)
      returns (panicked: bool, prev': int, rmp': int, ghost run': seq<Moment>)
      requires rmp != NIL && SwappingIn(q, m, start, run, prev, rmp, served)
      modifies this`outswap, this`loose, this`inQueue, this`queue
      modifies table, table.hNext, table.hBase, table.hLen, mproc, swapq
      ensures panicked ==> table.hNext.Length <= LiveCount(old(mproc[..]), old(loose)) + |areas|
      ensures m < |q| && (!panicked ==> loose == old(loose) && SwappingIn(q, m + 1, start, run', prev', rmp', served))
      ensures !panicked ==> 0 <= rmp < mproc.Length && Round(rmp, old(Now()), Now(), Pol())
      ensures !panicked && mproc[rmp].swapIn ==> NoRoomFor(rmp)
    {
      hide Linked, HoleTable.Valid, Accounts, LiveCount, Relocated, Waiting, ResidentsBelow, FirstHoleIsSwap, Rounds,
        SwappingIn, OthersWaitOn, Round, ServedIn, HoleTable.Linkage;
      SwappingSoFar(q, m, start, run, prev, rmp, served);
      run' := run;
      ghost var procs, kept := mproc[..], Waiting(q[..m], mproc[..]);
      prev', rmp' := prev, rmp;
      var waits := false;
      if mproc[rmp].swapIn {
        var r, passes := TrySwapIn(rmp, start.procs);
        if r.Panic? { return true, prev, rmp, run; }
        waits := r.NoMem?;
      } else {
        StaleRound(rmp, Now(), Pol());
      }
      panicked := false;
      OthersStillWaitOn(q, start.procs, procs, mproc[..], rmp);
      WaitingNext(q, m, procs, mproc[..], waits);
      FirstOfTail(kept, q, m);
      if waits {
        prev' := rmp;
      } else {
        RemoveAtJoint(kept, q[m..]);
        Unqueue(prev, rmp, |kept|);
      }
      NextInLine(swapq[..], inQueue, Waiting(q[..m + 1], mproc[..]), q, m + 1);
      rmp' := if prev' == NIL then inQueue else swapq[prev'];
      run' := SwappingFurther(q, m, start, run, prev', rmp', served);
    }

    // Swaps in whatever processes of the queue there is memory for, and drops from
    // the queue those that no longer wait.
    method SwapIn() returns (panicked: bool, ghost run: seq<Moment>)
      requires Ready()
      modifies this`outswap, this`loose, this`inQueue, this`queue
      modifies table, table.hNext, table.hBase, table.hLen, mproc, swapq
      ensures panicked ==> table.hNext.Length <= LiveCount(old(mproc[..]), old(loose)) + |areas|
      ensures !panicked ==> Ready() && loose == old(loose) && Relocated(old(mproc[..]), mproc[..])
      ensures !panicked ==> Linked(old(swapq[..]), old(inQueue), old(queue)) && queue == Waiting(old(queue), mproc[..])
      ensures !panicked && old(queue) != [] && mproc[Last(old(queue))].swapIn ==> NoRoomFor(Last(old(queue)))
      // The first in line is brought in if there is room for it from the start.
      ensures !panicked && old(queue != [] && RoomFor(queue[0])) ==> !mproc[old(queue)[0]].swapIn
      // Nobody else is served; whoever is not on the queue though it waits goes on waiting.
      ensures !panicked ==> OthersWaitOn(old(queue), old(mproc[..]), mproc[..]) && (NobodyLost() <==> old(NobodyLost()))
      // Round by round: all residents stay below the swap base just if no process that
      // is dealt with strays, as none does under first fit.
      ensures !panicked ==> Rounds(old(queue), |old(queue)|, run, Pol())
      ensures !panicked ==> run[0] == old(Now()) && run[|run| - 1] == Now()
      ensures !panicked && old(ResidentsBelow(mproc[..], swapBase)) ==>
        (StayBelow(run, swapBase) <==> NoneStrays(old(queue), run, worstFit, swapBase))
      ensures !panicked && !worstFit && old(ResidentsBelow(mproc[..], swapBase)) ==> ResidentsBelow(mproc[..], swapBase)
    {
      hide Ready, LiveCount, Relocated, Waiting, ResidentsBelow, SwappingIn, NoRoomFor, RoomFor, StayBelow,
        NoneStrays, Rounds, HoleTable.Valid, Linked, WaitersQueued, OthersWaitOn;
      ghost var q, m := queue, 0;
      ghost var served := queue != [] && RoomFor(queue[0]);
      run := SwappingInBegins(served);
      ghost var start := Now();
      var prev, rmp := NIL, inQueue;
      while rmp != NIL
        invariant SwappingIn(q, m, start, run, prev, rmp, served) && loose == old(loose)
        invariant LiveCount(mproc[..], loose) == LiveCount(start.procs, loose)
        decreases |q| - m
      {
        panicked, prev, rmp, run := SwapInNext(prev, rmp, q, m, start, run, served);
        if panicked { return; }
        m := m + 1;
        SwappingSoFar(q, m, start, run, prev, rmp, served);
      }
      SwappingInEnds(q, m, start, run, prev, served);
      panicked := false;
    }

    // A run that loses process b: a and b are queued, a ends, a process takes over its slot
    // and its block, and is queued in turn.  Now b waits, is not on the queue, and queueing
    // it once more does nothing.
    method LoseSecond(a: int, b: int)
      requires Valid() && 0 <= a < mproc.Length && 0 <= b < mproc.Length && a != b && NobodyLost()
      requires mproc[a].live && !mproc[a].swapIn && a !in queue && mproc[b].live && !mproc[b].swapIn && b !in queue
      modifies this`inQueue, this`queue, this`loose, swapq, mproc
      ensures Valid() && mproc[b].swapIn && b !in queue && queue == old(queue) + [a] && loose == old(loose)
    {
      hide Accounts, TwoLists, Canonical, InWord, Linked, WaitersQueued, WaitsBehind;
      ghost var q, others := queue, loose;
      var base, size := mproc[a].base, mproc[a].size;
      SwapInqueue(a);
      assert queue == q + [a];
      SwapInqueue(b);
      assert queue == q + [a] + [b];
      Withdraw(a);
      Install(a, others, base, size);
      RequeuedInFront(q, a, b);
      SwapInqueue(a);
      SwapInqueue(b);
    }

    // Builds the hole list from the chunks of memory the kernel reports.
    method MemInit(chunks: seq<Hole>) returns (panicked: bool, free: int)
      requires Shape() && Chunks(chunks) && NoProcesses(mproc[..]) && lowUser <= outswap < mproc.Length
      requires swapBase == 0 && !swapOpen && inQueue == NIL && queue == []
      modifies this`swapBase, this`swapMaxsize, this`loose, this`areas
      modifies table, table.hNext, table.hBase, table.hLen
      ensures panicked ==> table.hNext.Length < |chunks|
      ensures !panicked ==> Valid() && loose == [] && areas == chunks && free == TotalLength(chunks)
      ensures !panicked ==> ResidentsBelow(mproc[..], swapBase) && NobodyLost()
      ensures !panicked ==> forall c :: Covers(table.Holes(), c) <==> Covers(chunks, c)
      ensures !panicked ==> forall i :: 0 <= i < |chunks| ==> chunks[i].End() < swapBase
      ensures !panicked ==> swapBase == 1 || exists i :: 0 <= i < |chunks| && chunks[i].End() + 1 == swapBase
    {
      hide TwoLists, Linked, Partition, ChunksFreed, Canonical, Covers, Accounts, InWord, NothingAbove;
      ghost var procs := mproc[..];
      table.Reset();
      free, panicked := 0, false;
      NoChunkFreedYet(procs, chunks);
      assert chunks[..0] == [];
      var m := 0;
      while m < |chunks|
        invariant m <= |chunks| && table.Valid() && ChunksFreed(table.Holes(), procs, chunks, m, swapBase)
        invariant free == TotalLength(chunks[..m])
      {
        var base, size := chunks[m].base, chunks[m].len;
        ghost var hs := table.Holes();
        NextChunkIsTaken(hs, procs, chunks, m, swapBase);
        panicked := table.FreeMem(base, size);
        if panicked { return; }
        NextChunkFreed(hs, procs, chunks, m, swapBase, table.Holes());
        TotalOfOneMore(chunks, m);
        free := free + size;
        if swapBase < base + size { swapBase := base + size; }
        m := m + 1;
      }
      TopOfMemory(table.Holes(), procs, chunks, swapBase);
      AllChunksFreed(table.Holes(), procs, chunks, swapBase);
      swapBase := Wrap(swapBase + 1);
      swapMaxsize := Wrap(0 - swapBase);
      loose, areas := [], chunks;
      assert chunks[..m] == chunks;
      assert Linked(swapq[..], inQueue, queue) by { EmptyQueue(swapq[..]); }
    }

    // Makes size clicks of swap space available, above and apart from memory.
    method SwapOn(request: nat, opens: bool) returns (r: SwapOnResult)
      requires Valid()
      modifies this`swapOpen, this`areas, table, table.hNext, table.hBase, table.hLen
      ensures r.Busy? <==> old(swapOpen)
      ensures r.Busy? || r.OpenFailed? ==> Valid() && swapOpen == old(swapOpen)
      ensures r.Busy? || r.OpenFailed? ==> areas == old(areas) && table.Holes() == old(table.Holes())
      ensures r.OpenFailed? <==> !old(swapOpen) && !opens
      ensures r.SwapOnPanic? ==> table.hNext.Length <= LiveCount(mproc[..], loose) + |old(areas)|
      ensures r.Opened? ==> Valid() && swapOpen
      // What is asked for becomes free, or as much of it as an address can number.
      ensures r.Opened? ==> IsFreed(old(table.Holes()), swapBase,
                                    if request <= WORD - swapBase then request else WORD - swapBase, table.Holes())
      ensures r.Opened? && request == 0 ==> areas == old(areas)
      ensures r.Opened? && 0 < request <= WORD - swapBase ==> areas == old(areas) + [Hole(swapBase, request)]
      ensures r.Opened? && WORD - swapBase < request ==> areas == old(areas) + [Hole(swapBase, WORD - swapBase)]
    {
      hide Linked, TwoLists, Partition, Canonical, Covers, Accounts, NothingAbove, LiveCount, IsFreed;
      if swapOpen { return Busy; }
      if !opens { return OpenFailed; }
      var size := request;
      if size > swapMaxsize { size := swapMaxsize; }
      swapOpen := true;
      ghost var hs := table.Holes();
      SwapSpaceIsApart(hs, mproc[..], loose, areas, swapBase, size);
      if size > 0 {
        var panicked := table.FreeMem(swapBase, size);
        if panicked { return SwapOnPanic; }
        areas := areas + [Hole(swapBase, size)];
        SwapSpaceAdded(hs, mproc[..], loose, old(areas), swapBase, size, table.Holes());
      }
      return Opened;
    }

    // Gives back a block that the caller holds.
    method FreeMem(base: int, clicks: nat, ghost i: nat) returns (panicked: bool)
      requires Valid() && i < |loose| && loose[i] == Hole(base, clicks)
      modifies this`loose, table, table.hNext, table.hBase, table.hLen
      ensures panicked ==> table.hNext.Length <= LiveCount(mproc[..], old(loose)) + |areas|
      ensures !panicked ==> Valid() && loose == RemoveAt(old(loose), i)
      ensures !panicked ==> IsFreed(old(table.Holes()), base, clicks, table.Holes())
    {
      hide Linked, TwoLists, Partition, Canonical, Covers, Accounts, LiveCount, IsFreed;
      ghost var hs := table.Holes();
      LooseBlockCanBeFreed(hs, mproc[..], loose, areas, swapBase, i);
      panicked := table.FreeMem(base, clicks);
      if panicked { return; }
      FreeingLooseKeepsAccounts(hs, mproc[..], loose, areas, swapBase, i, table.Holes());
      loose := RemoveAt(loose, i);
    }

    // The rest of the memory manager puts the block allocated last into an unused
    // process slot, as forking and executing do ...
    method Install(p: int, ghost others: seq<Hole>, base: int, size: nat)
      requires Valid() && 0 <= p < mproc.Length && !mproc[p].live && loose == others + [Hole(base, size)]
      modifies this`loose, mproc
      ensures Valid() && loose == others
      ensures mproc[..] == old(mproc[..])[p := Proc(true, base, size, false, false, false, false)]
      ensures old(ResidentsBelow(mproc[..], swapBase)) ==> (ResidentsBelow(mproc[..], swapBase) <==> base < swapBase)
      ensures NobodyLost() <==> old(NobodyLost())
    {
      hide Linked, TwoLists, Partition, Canonical, Covers, Accounts;
      ghost var procs := mproc[..];
      mproc[p] := Proc(true, base, size, false, false, false, false);
      loose := others;
      assert mproc[..] == procs[p := Proc(true, base, size, false, false, false, false)];
      if procs[p].swapIn { WaitingIsLive(table.Holes(), procs, others + [Hole(base, size)], areas, swapBase, p); }
      assert forall q :: 0 <= q < |procs| ==> mproc[..][q].swapIn == procs[q].swapIn;
      InstallingKeepsAccounts(table.Holes(), procs, mproc[..], others, areas, swapBase, p, Hole(base, size));
    }

    // ... and takes the block of a process that ends out of its slot, clearing its
    // flags but leaving it on the queue of processes to swap in.
    method Withdraw(p: int)
      requires Valid() && 0 <= p < mproc.Length && mproc[p].live
      modifies this`loose, mproc
      ensures Valid() && loose == old(loose) + [old(BlockOf(mproc[p]))]
      ensures mproc[..] == old(mproc[..])[p := Proc(false, 0, 0, false, false, false, false)]
      ensures queue == old(queue)
      ensures old(ResidentsBelow(mproc[..], swapBase)) ==> ResidentsBelow(mproc[..], swapBase)
      ensures old(NobodyLost()) ==> NobodyLost()
    {
      hide Linked, TwoLists, Partition, Canonical, Covers, Accounts;
      ghost var procs := mproc[..];
      loose := loose + [BlockOf(mproc[p])];
      mproc[p] := Proc(false, 0, 0, false, false, false, false);
      assert mproc[..] == procs[p := Proc(false, 0, 0, false, false, false, false)];
      WithdrawingKeepsAccounts(table.Holes(), procs, mproc[..], old(loose), areas, swapBase, p);
    }

    // Between its calls a process may begin or cease to wait, or to be traced or owed a
    // reply, which is what makes it a candidate for swapping out.
    method SetFlags(p: int, blocked: bool, shunned: bool)
      requires Valid() && 0 <= p < mproc.Length && mproc[p].live
      modifies mproc
      ensures Valid() && mproc[..] == old(mproc[..])[p := old(mproc[p]).(blocked := blocked, shunned := shunned)]
      ensures Candidate(mproc[p]) <==> blocked && !shunned && !old(mproc[p]).onSwap
      ensures old(ResidentsBelow(mproc[..], swapBase)) <==> ResidentsBelow(mproc[..], swapBase)
      ensures NobodyLost() <==> old(NobodyLost())
    {
      hide Linked, TwoLists, Partition, Canonical, Covers, Accounts;
      ghost var procs := mproc[..];
      mproc[p] := mproc[p].(blocked := blocked, shunned := shunned);
      assert mproc[..] == procs[p := procs[p].(blocked := blocked, shunned := shunned)];
      FlagsKeepAccounts(table.Holes(), procs, mproc[..], loose, areas, swapBase, p);
      assert forall q :: 0 <= q < |procs| ==>
        && procs[q].live == mproc[..][q].live && procs[q].onSwap == mproc[..][q].onSwap
        && procs[q].base == mproc[..][q].base;
    }

    // The flag tells exactly the processes that lie in swap space just if all residents
    // lie below the swap base; which operations keep that so, they say themselves.
    lemma OnSwapMeansAbove()
      requires Valid()
      ensures ResidentsBelow(mproc[..], swapBase) <==>
        forall p :: 0 <= p < mproc.Length && mproc[p].live ==> (mproc[p].onSwap <==> swapBase <= mproc[p].base)
    {
      hide Partition, Covers, BlocksInWord, Canonical, TwoLists, Linked;
      assert FlagsAgree(mproc[..], swapBase);
      assert forall p :: 0 <= p < mproc.Length ==> mproc[..][p] == mproc[p];
    }

    // In every state reached: free memory and blocks are disjoint, cover exactly the
    // managed areas, and so their lengths add up to the same total; a process flagged
    // as swapped out lies above the swap base.
    lemma MemoryAddsUp()
      requires Valid()
      ensures Partition(table.Holes(), Blocks(mproc[..], loose), areas)
      ensures TotalLength(table.Holes()) + TotalLength(Blocks(mproc[..], loose)) == TotalLength(areas)
      ensures |table.Holes()| <= LiveCount(mproc[..], loose) + |areas|
      ensures forall p :: 0 <= p < mproc.Length && mproc[p].onSwap ==> mproc[p].live && swapBase <= mproc[p].base
    {
      MemoryIsConserved(table.Holes(), Blocks(mproc[..], loose), areas);
      HolesAreFew(table.Holes(), Blocks(mproc[..], loose), areas);
    }
  }
}
