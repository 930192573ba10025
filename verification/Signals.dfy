// What the kernel's process table says about signals and readiness, as values.
module Signals {
  import opened Basics

  // The bits of a process's flags; it is runnable just if none is set.
  datatype Flags = Flags(noMap: bool, sending: bool, receiving: bool, pending: bool, sigPending: bool, stop: bool)

  const CLEAR := Flags(false, false, false, false, false, false)

  datatype Priority = Unused | Task | Server | User | Idle

  function PendingProcs(flags: seq<Flags>): (r: set<int>)
    ensures forall p :: p in r <==> 0 <= p < |flags| && flags[p].pending
  {
    set p | 0 <= p < |flags| && flags[p].pending
  }

  // The count of processes with signals that the memory manager has not been told of,
  // the sets of these signals, and the counts of signals it has not finished with.
  // court counts those it has been told of.
  ghost predicate SignalsAgree(flags: seq<Flags>, pending: seq<set<int>>, pendcount: seq<nat>, court: seq<nat>,
                               sigProcs: int) {
    && |flags| == |pending| == |pendcount| == |court| && sigProcs == |PendingProcs(flags)|
    && forall p :: 0 <= p < |flags| ==>
         && (flags[p].pending <==> pending[p] != {})
         && (flags[p].sigPending <==> pendcount[p] > 0)
         && pendcount[p] == |pending[p]| + court[p]
  }

  ghost predicate NoneTwice(ready: seq<int>) {
    forall i, j :: 0 <= i < j < |ready| ==> ready[i] != ready[j]
  }

  // The ready queue holds each runnable process once, and nothing else.
  ghost predicate QueueAgrees(flags: seq<Flags>, priority: seq<Priority>, ready: seq<int>) {
    && |flags| == |priority| && NoneTwice(ready)
    && forall p :: p in ready <==> 0 <= p < |flags| && priority[p] != Unused && flags[p] == CLEAR
  }

  // Only user processes get signals; they are among the processes that a scan for pending
  // signals visits, and an unused slot holds nothing.
  ghost predicate RolesAgree(flags: seq<Flags>, priority: seq<Priority>, begServ: int, mm: int) {
    && |flags| == |priority| && 0 <= begServ <= mm < |flags| && priority[mm] == Server
    && (forall p :: 0 <= p < |flags| && priority[p] == User ==> begServ <= p)
    && (forall p :: 0 <= p < |flags| && flags[p].pending ==> priority[p] == User)
    && (forall p :: 0 <= p < |flags| && priority[p] == Unused ==> flags[p] == CLEAR)
  }

  // The first n slots that are in use, in order.
  function InUse(priority: seq<Priority>, n: nat): (r: seq<int>)
    requires n <= |priority|
    ensures forall p :: p in r <==> 0 <= p < n && priority[p] != Unused
  {
    if n == 0 then []
    else if priority[n - 1] == Unused then InUse(priority, n - 1)
    else InUse(priority, n - 1) + [n - 1]
  }

  lemma {:induction false} InUseOnce(priority: seq<Priority>, n: nat)
    requires n <= |priority|
    ensures NoneTwice(InUse(priority, n))
  {
    if n > 0 { InUseOnce(priority, n - 1); }
  }

  // With every process in use runnable, and no signals, all bookkeeping agrees.
  lemma AtFirst(flags: seq<Flags>, priority: seq<Priority>, pending: seq<set<int>>, pendcount: seq<nat>,
                court: seq<nat>, begServ: int, mm: int)
    requires |flags| == |priority| == |pending| == |pendcount| == |court| && 0 <= begServ <= mm < |flags|
    requires priority[mm] == Server
    requires forall p :: 0 <= p < |flags| ==> flags[p] == CLEAR && pending[p] == {} && pendcount[p] == court[p] == 0
    requires forall p :: 0 <= p < |flags| && priority[p] == User ==> begServ <= p
    ensures SignalsAgree(flags, pending, pendcount, court, 0)
    ensures QueueAgrees(flags, priority, InUse(priority, |flags|)) && RolesAgree(flags, priority, begServ, mm)
  {
    InUseOnce(priority, |flags|);
    NonePending(flags);
  }

  function RemoveFirst(s: seq<int>, p: int): seq<int> {
    if s == [] then [] else if s[0] == p then s[1..] else [s[0]] + RemoveFirst(s[1..], p)
  }

  lemma {:induction false} RemovedFirst(s: seq<int>, p: int)
    requires NoneTwice(s)
    ensures NoneTwice(RemoveFirst(s, p)) && forall q :: q in RemoveFirst(s, p) <==> q in s && q != p
  {
    if s != [] {
      assert s == [s[0]] + s[1..];
      assert forall i :: 0 <= i < |s[1..]| ==> s[1..][i] == s[i + 1];
      RemovedFirst(s[1..], p);
      var rest := RemoveFirst(s[1..], p);
      assert s[0] !in s[1..];
      assert s[0] == p || RemoveFirst(s, p) == [s[0]] + rest;
    }
  }

  lemma PendingChange(flags: seq<Flags>, p: int, f: Flags)
    requires 0 <= p < |flags|
    ensures |PendingProcs(flags[p := f])| == |PendingProcs(flags)| + Bit(f.pending) - Bit(flags[p].pending)
  {
    var was, now := PendingProcs(flags), PendingProcs(flags[p := f]);
    assert now == if f.pending then was + {p} else was - {p};
  }

  // One process's signals change, the others' stay.
  lemma SignalsChange(flags: seq<Flags>, pending: seq<set<int>>, pendcount: seq<nat>, court: seq<nat>, sigProcs: int,
                      p: int, f: Flags, s: set<int>, n: nat, c: nat)
    requires SignalsAgree(flags, pending, pendcount, court, sigProcs) && 0 <= p < |flags|
    ensures SignalsAgree(flags[p := f], pending[p := s], pendcount[p := n], court[p := c],
                         sigProcs + Bit(f.pending) - Bit(flags[p].pending))
       <==> (f.pending <==> s != {}) && (f.sigPending <==> n > 0) && n == |s| + c
  {
    PendingChange(flags, p, f);
    hide PendingProcs;
    if (f.pending <==> s != {}) && (f.sigPending <==> n > 0) && n == |s| + c {
    } else {
      assert flags[p := f][p] == f && pending[p := s][p] == s && pendcount[p := n][p] == n && court[p := c][p] == c;
    }
  }

  lemma QueueKept(flags: seq<Flags>, priority: seq<Priority>, ready: seq<int>, p: int, f: Flags)
    requires QueueAgrees(flags, priority, ready) && 0 <= p < |flags|
    requires f == CLEAR <==> flags[p] == CLEAR
    ensures QueueAgrees(flags[p := f], priority, ready)
  {
  }

  // A process that becomes runnable is put on the queue; one that was runnable already
  // would be on it twice.
  lemma Readied(flags: seq<Flags>, priority: seq<Priority>, ready: seq<int>, p: int)
    requires QueueAgrees(flags, priority, ready) && 0 <= p < |flags| && priority[p] != Unused
    ensures QueueAgrees(flags[p := CLEAR], priority, ready + [p]) <==> flags[p] != CLEAR
  {
    var more := ready + [p];
    if flags[p] == CLEAR {
      var i :| 0 <= i < |ready| && ready[i] == p;
      assert more[i] == more[|ready|];
    } else {
      forall q
        ensures q in more <==> q in ready || q == p
      {
      }
    }
  }

  // A process that stops being runnable is taken off.
  lemma Unreadied(flags: seq<Flags>, priority: seq<Priority>, ready: seq<int>, p: int, f: Flags)
    requires QueueAgrees(flags, priority, ready) && 0 <= p < |flags| && f != CLEAR
    ensures QueueAgrees(flags[p := f], priority, if flags[p] == CLEAR then RemoveFirst(ready, p) else ready)
  {
    RemovedFirst(ready, p);
  }

  // A process with a signal pending or unfinished is not run.
  lemma SignalledIsNotReady(flags: seq<Flags>, priority: seq<Priority>, ready: seq<int>, pending: seq<set<int>>,
                            pendcount: seq<nat>, court: seq<nat>, sigProcs: int, p: int)
    requires SignalsAgree(flags, pending, pendcount, court, sigProcs) && QueueAgrees(flags, priority, ready)
    requires 0 <= p < |flags| && (pending[p] != {} || court[p] > 0)
    ensures p !in ready
  {
  }

  lemma SignalsBounds(flags: seq<Flags>, pending: seq<set<int>>, pendcount: seq<nat>, court: seq<nat>, sigProcs: int)
    requires SignalsAgree(flags, pending, pendcount, court, sigProcs)
    ensures |flags| == |pending| == |pendcount| == |court| && sigProcs == |PendingProcs(flags)|
  {
  }

  lemma SignalsOf(flags: seq<Flags>, pending: seq<set<int>>, pendcount: seq<nat>, court: seq<nat>, sigProcs: int,
                  p: int)
    requires SignalsAgree(flags, pending, pendcount, court, sigProcs) && 0 <= p < |flags|
    ensures flags[p].pending <==> pending[p] != {}
    ensures (flags[p].sigPending <==> pendcount[p] > 0) && pendcount[p] == |pending[p]| + court[p]
  {
  }

  lemma RolesBounds(flags: seq<Flags>, priority: seq<Priority>, begServ: int, mm: int)
    requires RolesAgree(flags, priority, begServ, mm)
    ensures |flags| == |priority| && 0 <= begServ <= mm < |flags| && priority[mm] == Server && !flags[mm].pending
  {
  }

  // Flags that have nothing to do with signals.
  lemma SignalsKept(flags: seq<Flags>, pending: seq<set<int>>, pendcount: seq<nat>, court: seq<nat>, sigProcs: int,
                    p: int, f: Flags)
    requires SignalsAgree(flags, pending, pendcount, court, sigProcs) && 0 <= p < |flags|
    requires f.pending == flags[p].pending && f.sigPending == flags[p].sigPending
    ensures SignalsAgree(flags[p := f], pending, pendcount, court, sigProcs)
  {
    SignalsChange(flags, pending, pendcount, court, sigProcs, p, f, pending[p], pendcount[p], court[p]);
    assert pending[p := pending[p]] == pending && pendcount[p := pendcount[p]] == pendcount;
    assert court[p := court[p]] == court;
  }

  lemma RolesKept(flags: seq<Flags>, priority: seq<Priority>, begServ: int, mm: int, p: int, f: Flags)
    requires RolesAgree(flags, priority, begServ, mm) && 0 <= p < |flags|
    requires f.pending ==> priority[p] == User
    requires priority[p] == Unused ==> f == CLEAR
    ensures RolesAgree(flags[p := f], priority, begServ, mm)
  {
  }

  // One of the signals of user process p is finished with: all bookkeeping agrees afterwards
  // just if the memory manager had been told of one.
  lemma SignalFinished(flags: seq<Flags>, priority: seq<Priority>, pending: seq<set<int>>, pendcount: seq<nat>,
                       court: seq<nat>, sigProcs: int, ready: seq<int>, begServ: int, mm: int, p: int, f: Flags)
    requires SignalsAgree(flags, pending, pendcount, court, sigProcs) && QueueAgrees(flags, priority, ready)
    requires RolesAgree(flags, priority, begServ, mm) && 0 <= p < |flags| == |priority| && priority[p] == User
    requires |pendcount| == |court| == |flags| && pendcount[p] > 0 && f == flags[p].(sigPending := pendcount[p] > 1)
    ensures SignalsAgree(flags[p := f], pending, pendcount[p := pendcount[p] - 1],
                         court[p := if court[p] == 0 then 0 else court[p] - 1], sigProcs)
       <==> court[p] > 0
    ensures QueueAgrees(flags[p := f], priority, if f == CLEAR then ready + [p] else ready)
    ensures RolesAgree(flags[p := f], priority, begServ, mm) && p != mm
  {
    var n, c := pendcount[p] - 1, if court[p] == 0 then 0 else court[p] - 1;
    SignalsBounds(flags, pending, pendcount, court, sigProcs);
    SignalsOf(flags, pending, pendcount, court, sigProcs, p);
    SignalsChange(flags, pending, pendcount, court, sigProcs, p, f, pending[p], n, c);
    assert pending[p := pending[p]] == pending;
    hide SignalsAgree, QueueAgrees;
    RolesKept(flags, priority, begServ, mm, p, f);
    if f == CLEAR { Readied(flags, priority, ready, p); } else { QueueKept(flags, priority, ready, p, f); }
  }

  lemma NonePending(flags: seq<Flags>)
    ensures PendingProcs(flags) == {} <==> forall p :: 0 <= p < |flags| ==> !flags[p].pending
  {
  }

  lemma PendingIsSignalled(flags: seq<Flags>, pending: seq<set<int>>, pendcount: seq<nat>, court: seq<nat>,
                           sigProcs: int, p: int)
    requires SignalsAgree(flags, pending, pendcount, court, sigProcs) && 0 <= p < |flags| && flags[p].pending
    ensures flags[p].sigPending && sigProcs > 0
  {
  }

  lemma HeldUp(flags: seq<Flags>, priority: seq<Priority>, ready: seq<int>, p: int)
    requires QueueAgrees(flags, priority, ready) && 0 <= p < |flags|
    ensures flags[p] != CLEAR ==> p !in ready
  {
  }

  lemma PendingIsUser(flags: seq<Flags>, priority: seq<Priority>, begServ: int, mm: int, p: int)
    requires RolesAgree(flags, priority, begServ, mm) && 0 <= p < |flags|
    ensures flags[p].pending ==> priority[p] == User
  {
  }

  lemma UnusedIsClear(flags: seq<Flags>, priority: seq<Priority>, begServ: int, mm: int, p: int)
    requires RolesAgree(flags, priority, begServ, mm) && 0 <= p < |flags|
    ensures priority[p] == Unused ==> flags[p] == CLEAR
  {
  }

  lemma ReadyOrNot(flags: seq<Flags>, priority: seq<Priority>, ready: seq<int>, p: int)
    requires QueueAgrees(flags, priority, ready) && 0 <= p < |flags|
    ensures p in ready <==> priority[p] != Unused && flags[p] == CLEAR
  {
  }

  // A slot comes into use by a process that cannot run yet.
  lemma SlotTaken(flags: seq<Flags>, priority: seq<Priority>, ready: seq<int>, begServ: int, mm: int, p: int, f: Flags)
    requires QueueAgrees(flags, priority, ready) && RolesAgree(flags, priority, begServ, mm)
    requires begServ <= p < |flags| && priority[p] == Unused && f != CLEAR
    ensures QueueAgrees(flags[p := f], priority[p := User], ready)
    ensures RolesAgree(flags[p := f], priority[p := User], begServ, mm)
    ensures p !in ready
  {
  }

  lemma SlotFreed(flags: seq<Flags>, priority: seq<Priority>, ready: seq<int>, begServ: int, mm: int, p: int)
    requires QueueAgrees(flags, priority, ready) && RolesAgree(flags, priority, begServ, mm)
    requires 0 <= p < |flags| && priority[p] == User
    ensures var left := if flags[p] == CLEAR then RemoveFirst(ready, p) else ready;
            QueueAgrees(flags[p := CLEAR], priority[p := Unused], left) && p !in left
    ensures RolesAgree(flags[p := CLEAR], priority[p := Unused], begServ, mm)
  {
    RemovedFirst(ready, p);
  }
}
