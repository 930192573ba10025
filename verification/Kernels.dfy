// The kernel's process table: what the memory manager asks for, and signals.
module Kernels {
  import opened Basics
  import opened Links
  import opened Signals
  import opened Mailboxes

  // What the memory manager is told: the process and its signals.
  datatype KSig = KSig(proc: int, signals: set<int>)

  datatype Reply = Ok | BadProc | IoError

  datatype Request = Stop | Resume | Step | Other

  const SIGTRAP := 5

  class Kernel {
    const flags: array<Flags>
    const priority: array<Priority>
    const pending: array<set<int>>
    const pendcount: array<nat>
    const fromAny: array<bool>
    const callerq: array<int>
    const sendLink: array<int>
    const begServ: int
    const mm: int
    var sigProcs: int
    var ready: seq<int>
    ghost var court: seq<nat>
    ghost var queues: seq<seq<int>>

    ghost predicate Agree()
      reads this`sigProcs, this`ready, this`court, flags, priority, pending, pendcount, fromAny
    {
      && fromAny.Length == flags.Length
      && SignalsAgree(flags[..], pending[..], pendcount[..], court, sigProcs)
      && QueueAgrees(flags[..], priority[..], ready)
      && RolesAgree(flags[..], priority[..], begServ, mm)
      && (MMIdle() ==> !flags[mm].sending)
    }

    // The memory manager waits for a message from anyone.
    ghost predicate MMIdle()
      reads flags, fromAny
    {
      0 <= mm < flags.Length == fromAny.Length && flags[mm].receiving && fromAny[mm]
    }

    // While the memory manager is idle, no signal is left that it has not been told of.
    ghost predicate Valid()
      reads this`sigProcs, this`ready, this`court, flags, priority, pending, pendcount, fromAny
    {
      Agree() && (MMIdle() ==> sigProcs == 0)
    }

    // Just those processes that are sending wait on a queue, each on one.  Every operation
    // but Fork keeps this.
    ghost predicate Mail()
      reads this`queues, flags, callerq, sendLink
    {
      callerq != sendLink && MailAgrees(flags[..], callerq[..], sendLink[..], queues)
    }

    // A change of one process's flags that leaves open whether it is sending.
    lemma MailStays(was: seq<Flags>, p: int, f: Flags)
      requires callerq != sendLink && MailAgrees(was, callerq[..], sendLink[..], queues)
      requires 0 <= p < |was| && flags[..] == was[p := f] && f.sending == was[p].sending
      ensures Mail()
    {
      MailKept(was, flags[..], callerq[..], sendLink[..], queues);
    }

    // The first state: every process in use can run, and there is no signal.
    constructor (roles: seq<Priority>, firstServer: int, memoryManager: int)
      requires 0 <= firstServer <= memoryManager < |roles| && roles[memoryManager] == Server
      requires forall p :: 0 <= p < |roles| && roles[p] == User ==> firstServer <= p
      ensures Valid() && flags.Length == |roles| && priority[..] == roles && begServ == firstServer
      ensures mm == memoryManager
      ensures ready == InUse(roles, |roles|) && sigProcs == 0 && forall p :: 0 <= p < flags.Length ==> flags[p] == CLEAR
      ensures Mail() && forall q :: 0 <= q < |queues| ==> queues[q] == []
      ensures fresh(flags) && fresh(priority) && fresh(pending) && fresh(pendcount) && fresh(fromAny)
      ensures fresh(callerq) && fresh(sendLink)
    {
      var n := |roles|;
      flags := new Flags[n](_ => CLEAR);
      priority := new Priority[n](p requires 0 <= p < n => roles[p]);
      pending := new set<int>[n](_ => {});
      pendcount := new nat[n](_ => 0);
      fromAny := new bool[n](_ => false);
      callerq := new int[n](_ => NIL);
      sendLink := new int[n](_ => NIL);
      begServ, mm, sigProcs := firstServer, memoryManager, 0;
      ready, court, queues := InUse(roles, n), seq(n, _ => 0), seq(n, _ => []);
      new;
      hide Valid, Mail, InUse;
      assert priority[..] == roles;
      AllAgreeAtFirst();
    }

    lemma AllAgreeAtFirst()
      requires 0 <= begServ <= mm < flags.Length == priority.Length == pending.Length == pendcount.Length
      requires fromAny.Length == |court| == flags.Length
      requires callerq.Length == sendLink.Length == |queues| == flags.Length && callerq != sendLink
      requires priority[mm] == Server
      requires forall p :: 0 <= p < flags.Length ==>
        flags[p] == CLEAR && pending[p] == {} && pendcount[p] == 0 && court[p] == 0
      requires forall p :: 0 <= p < flags.Length ==> callerq[p] == NIL && queues[p] == []
      requires forall p :: 0 <= p < flags.Length && priority[p] == User ==> begServ <= p
      requires ready == InUse(priority[..], flags.Length) && sigProcs == 0
      ensures Valid() && Mail()
    {
      hide MailAgrees, SignalsAgree, QueueAgrees, RolesAgree, InUse;
      AtFirst(flags[..], priority[..], pending[..], pendcount[..], court, begServ, mm);
      NoMail(flags[..], callerq[..], sendLink[..], queues);
    }

    method LockReady(p: int)
      modifies this`ready
      ensures ready == old(ready) + [p]
    {
      ready := ready + [p];
    }

    method LockUnready(p: int)
      modifies this`ready
      ensures ready == RemoveFirst(old(ready), p)
    {
      ready := RemoveFirst(ready, p);
    }

    // Tells the idle memory manager about the signals of one process.
    method Inform() returns (told: Option<KSig>)
      requires Agree() && MMIdle()
      modifies this`sigProcs, this`ready, this`court, flags, pending
      ensures Valid()
      ensures told.None? <==> old(sigProcs) == 0
      ensures told.None? ==>
        flags[..] == old(flags[..]) && pending[..] == old(pending[..]) && ready == old(ready) && court == old(court)
      ensures told.Some? ==> var p := told.value.proc;
        && 0 <= p < flags.Length && old(flags[p].pending) && (forall q :: 0 <= q < p ==> !old(flags[q].pending))
        && told.value.signals == old(pending[p]) && p != mm
        && flags[..] == old(flags[..])[mm := old(flags[mm]).(receiving := false)][p := old(flags[p]).(pending := false)]
        && pending[..] == old(pending[..])[p := {}] && |old(court)| == flags.Length
        && court == old(court)[p := old(court)[p] + |old(pending[p])|]
        && sigProcs == old(sigProcs) - 1
        && ready == if flags[mm] == CLEAR then old(ready) + [mm] else old(ready)
      ensures old(Mail()) ==> Mail()
    {
      hide SignalsAgree, QueueAgrees, RolesAgree, MailAgrees, RemoveFirst, PendingProcs;
      told := None;
      RolesBounds(flags[..], priority[..], begServ, mm);
      SignalsBounds(flags[..], pending[..], pendcount[..], court, sigProcs);
      NonePending(flags[..]);
      var p := FirstPending();
      if p == flags.Length { return; }
      PendingIsSignalled(flags[..], pending[..], pendcount[..], court, sigProcs, p);
      SignalsOf(flags[..], pending[..], pendcount[..], court, sigProcs, p);
      told := Some(KSig(p, pending[p]));
      SendToMM();
      ghost var mid := flags[..];
      var f := flags[p].(pending := false);
      SignalsChange(flags[..], pending[..], pendcount[..], court, sigProcs, p, f,
                    {}, pendcount[p], court[p] + |pending[p]|);
      QueueKept(flags[..], priority[..], ready, p, f);
      RolesKept(flags[..], priority[..], begServ, mm, p, f);
      assert pendcount[..][p := pendcount[p]] == pendcount[..];
      sigProcs := sigProcs - 1;
      court := court[p := court[p] + |pending[p]|];
      pending[p] := {};
      flags[p] := f;
      if old(Mail()) { MailStays(mid, p, f); }
    }

    // The first process, servers first, with signals to tell of.
    method FirstPending() returns (p: int)
      requires RolesAgree(flags[..], priority[..], begServ, mm)
      ensures 0 <= p <= flags.Length
      ensures p < flags.Length ==> flags[p].pending && priority.Length == flags.Length && priority[p] == User
      ensures forall q :: 0 <= q < p ==> !flags[q].pending
    {
      p := begServ;
      while p < flags.Length
        invariant begServ <= p <= flags.Length && forall q :: 0 <= q < p ==> !flags[q].pending
      {
        if flags[p].pending { return; }
        p := p + 1;
      }
    }

    // The memory manager gets a message it was waiting for.
    method SendToMM()
      requires Agree() && MMIdle()
      modifies this`ready, flags
      ensures Agree() && !MMIdle()
      ensures flags[..] == old(flags[..])[mm := old(flags[mm]).(receiving := false)]
      ensures ready == if flags[mm] == CLEAR then old(ready) + [mm] else old(ready)
      ensures old(Mail()) ==> Mail()
    {
      hide SignalsAgree, QueueAgrees, RolesAgree, MailAgrees, RemoveFirst, PendingProcs;
      var f := flags[mm].(receiving := false);
      RolesBounds(flags[..], priority[..], begServ, mm);
      SignalsKept(flags[..], pending[..], pendcount[..], court, sigProcs, mm, f);
      RolesKept(flags[..], priority[..], begServ, mm, mm, f);
      if f == CLEAR {
        Readied(flags[..], priority[..], ready, mm);
      } else {
        QueueKept(flags[..], priority[..], ready, mm, f);
      }
      flags[mm] := f;
      if flags[mm] == CLEAR { LockReady(mm); }
      if old(Mail()) { MailStays(old(flags[..]), mm, f); }
    }

    // Causes a signal.  The process is held up until the memory manager has finished with
    // the signal; told is the message to it, if it is free to be told at once.
    method CauseSig(p: int, s: int) returns (told: Option<KSig>)
      requires Valid() && 0 <= p < flags.Length == priority.Length && priority[p] == User
      modifies this`sigProcs, this`ready, this`court, flags, pending, pendcount
      ensures Valid() && p != mm && |old(court)| == pending.Length == pendcount.Length == flags.Length
      ensures told == if old(s !in pending[p] && MMIdle()) then Some(KSig(p, {s})) else None
      ensures old(s in pending[p]) ==>
        flags[..] == old(flags[..]) && pending[..] == old(pending[..]) && pendcount[..] == old(pendcount[..])
                                       && court == old(court) && sigProcs == old(sigProcs) && ready == old(ready)
      ensures old(s !in pending[p]) ==> pendcount[..] == old(pendcount[..])[p := old(pendcount[p]) + 1]
      ensures told.None? && old(s !in pending[p]) ==>
        && pending[..] == old(pending[..])[p := old(pending[p]) + {s}] && court == old(court)
        && flags[..] == old(flags[..])[p := old(flags[p]).(pending := true, sigPending := true)]
        && ready == (if old(flags[p]) == CLEAR then RemoveFirst(old(ready), p) else old(ready))
      ensures told.Some? ==>
        && pending[..] == old(pending[..]) && court == old(court)[p := old(court)[p] + 1]
        && flags[..] == old(flags[..])[mm := old(flags[mm]).(receiving := false)]
                [p := old(flags[p]).(sigPending := true)]
        && sigProcs == old(sigProcs)
        && ready == (if old(flags[p]) == CLEAR then RemoveFirst(old(ready), p) else old(ready))
                  + (if flags[mm] == CLEAR then [mm] else [])
      ensures told.None? && old(s !in pending[p]) ==> sigProcs == old(sigProcs) + Bit(!old(flags[p].pending))
      ensures p !in ready
      ensures old(Mail()) ==> Mail()
    {
      hide Agree, Mail, RemoveFirst;
      told := None;
      AgreeOn(p);
      if s in pending[p] { return; }
      var first := AddSignal(p, s);
      AgreeOn(p);
      if !first { return; }
      if !flags[mm].receiving || !fromAny[mm] { return; }
      told := Inform();
      AgreeOn(p);
    }

    // What the bookkeeping says of a user process.
    lemma AgreeOn(p: int)
      requires Agree() && 0 <= p < flags.Length == priority.Length && priority[p] == User
      ensures p != mm && 0 <= mm < flags.Length == fromAny.Length == pending.Length == pendcount.Length == |court|
      ensures flags[p].pending <==> pending[p] != {}
      ensures (flags[p].sigPending <==> pendcount[p] > 0) && pendcount[p] == |pending[p]| + court[p]
      ensures flags[p] != CLEAR ==> p !in ready
      ensures sigProcs == 0 <==> forall q :: 0 <= q < flags.Length ==> !flags[q].pending
    {
      hide SignalsAgree, QueueAgrees, RolesAgree;
      RolesBounds(flags[..], priority[..], begServ, mm);
      SignalsBounds(flags[..], pending[..], pendcount[..], court, sigProcs);
      SignalsOf(flags[..], pending[..], pendcount[..], court, sigProcs, p);
      NonePending(flags[..]);
      HeldUp(flags[..], priority[..], ready, p);
    }

    // Notes the signal, and holds the process up unless another one does already.
    method AddSignal(p: int, s: int) returns (first: bool)
      requires Agree() && 0 <= p < flags.Length == priority.Length && priority[p] == User
      requires pending.Length == flags.Length
      requires s !in pending[p]
      modifies this`sigProcs, this`ready, flags, pending, pendcount
      ensures Agree() && p != mm && pendcount.Length == flags.Length
      ensures first == !old(flags[p].pending) && sigProcs == old(sigProcs) + Bit(first)
      ensures pendcount[..] == old(pendcount[..])[p := old(pendcount[p]) + 1]
      ensures pending[..] == old(pending[..])[p := old(pending[p]) + {s}]
      ensures flags[..] == old(flags[..])[p := old(flags[p]).(pending := true, sigPending := true)]
      ensures ready == if old(flags[p]) == CLEAR then RemoveFirst(old(ready), p) else old(ready)
      ensures old(Mail()) ==> Mail()
    {
      hide SignalsAgree, QueueAgrees, RolesAgree, MailAgrees, RemoveFirst, PendingProcs;
      RolesBounds(flags[..], priority[..], begServ, mm);
      SignalsBounds(flags[..], pending[..], pendcount[..], court, sigProcs);
      SignalsOf(flags[..], pending[..], pendcount[..], court, sigProcs, p);
      ghost var more := pending[p] + {s};
      assert |more| == |pending[p]| + 1;
      var f := flags[p].(pending := true, sigPending := true);
      SignalsChange(flags[..], pending[..], pendcount[..], court, sigProcs, p, f, more, pendcount[p] + 1, court[p]);
      assert court[p := court[p]] == court;
      Unreadied(flags[..], priority[..], ready, p, f);
      RolesKept(flags[..], priority[..], begServ, mm, p, f);
      pending[p] := pending[p] + {s};
      pendcount[p] := pendcount[p] + 1;
      first := !flags[p].pending;
      if !first {
        assert flags[..][p := f] == flags[..];
        return;
      }
      if flags[p] == CLEAR { LockUnready(p); }
      flags[p] := f;
      sigProcs := sigProcs + 1;
      if old(Mail()) { MailStays(old(flags[..]), p, f); }
    }

    // The memory manager has finished with one of the signals it was told of.
    method EndSig(p: int) returns (r: Reply)
      requires Valid() && 0 <= p < flags.Length == priority.Length == pendcount.Length == |court|
      requires priority[p] in {User, Unused}
      modifies this`ready, this`court, flags, pendcount
      ensures r == if priority[p] == Unused then BadProc else Ok
      ensures var ends := r == Ok && old(pendcount[p]) > 0;
        && (!ends ==>
             flags[..] == old(flags[..]) && pendcount[..] == old(pendcount[..])
             && ready == old(ready) && court == old(court))
        && (ends ==>
              && pendcount[..] == old(pendcount[..])[p := old(pendcount[p]) - 1]
              && flags[..] == old(flags[..])[p := old(flags[p]).(sigPending := pendcount[p] > 0)]
              && ready == (if flags[p] == CLEAR then old(ready) + [p] else old(ready))
              && court == old(court)[p := if old(court)[p] == 0 then 0 else old(court)[p] - 1])
      ensures Valid() <==> r == BadProc || old(pendcount[p]) == 0 || old(court)[p] > 0
      ensures old(Mail()) ==> Mail()
    {
      hide Valid, Mail;
      if priority[p] == Unused { return BadProc; }
      if pendcount[p] != 0 { FinishSignal(p); }
      return Ok;
    }

    // One of the signals of a process, of which there are some, is finished with.
    method FinishSignal(p: int)
      requires Valid() && 0 <= p < flags.Length == priority.Length == pendcount.Length == |court|
      requires priority[p] == User && pendcount[p] > 0
      modifies this`ready, this`court, flags, pendcount
      ensures pendcount[..] == old(pendcount[..])[p := old(pendcount[p]) - 1]
      ensures flags[..] == old(flags[..])[p := old(flags[p]).(sigPending := pendcount[p] > 0)]
      ensures ready == if flags[p] == CLEAR then old(ready) + [p] else old(ready)
      ensures court == old(court)[p := if old(court)[p] == 0 then 0 else old(court)[p] - 1]
      ensures Valid() <==> old(court)[p] > 0
      ensures old(Mail()) ==> Mail()
    {
      hide SignalsAgree, QueueAgrees, RolesAgree, RemoveFirst, PendingProcs, MailAgrees;
      RolesBounds(flags[..], priority[..], begServ, mm);
      SignalsBounds(flags[..], pending[..], pendcount[..], court, sigProcs);
      SignalsOf(flags[..], pending[..], pendcount[..], court, sigProcs, p);
      ghost var f := flags[p].(sigPending := pendcount[p] > 1);
      SignalFinished(flags[..], priority[..], pending[..], pendcount[..], court, sigProcs, ready, begServ, mm, p, f);
      court := court[p := if court[p] == 0 then 0 else court[p] - 1];
      CountOff(p);
      if old(Mail()) { MailStays(old(flags[..]), p, f); }
    }

    // One signal less is unfinished; after the last one the process may run again.
    method CountOff(p: int)
      requires 0 <= p < flags.Length == pendcount.Length && pendcount[p] > 0 && flags[p].sigPending
      modifies this`ready, flags, pendcount
      ensures pendcount[..] == old(pendcount[..])[p := old(pendcount[p]) - 1]
      ensures flags[..] == old(flags[..])[p := old(flags[p]).(sigPending := old(pendcount[p]) > 1)]
      ensures ready == if flags[p] == CLEAR then old(ready) + [p] else old(ready)
    {
      pendcount[p] := pendcount[p] - 1;
      if pendcount[p] == 0 {
        flags[p] := flags[p].(sigPending := false);
        if flags[p] == CLEAR { LockReady(p); }
      }
    }

    // Changes only what does not concern signals, and readies the process if that leaves
    // it runnable and the caller asks for it.
    method SetFlags(p: int, f: Flags)
      requires Valid() && 0 <= p < flags.Length == priority.Length && priority[p] != Unused
      requires f.sending == flags[p].sending && (p == mm ==> f.receiving == flags[p].receiving)
      requires f.pending == flags[p].pending && f.sigPending == flags[p].sigPending
      modifies this`ready, flags
      ensures flags[..] == old(flags[..])[p := f]
      ensures ready == if f == CLEAR then old(ready) + [p] else old(ready)
      ensures f == CLEAR || old(flags[p]) != CLEAR ==> (Valid() <==> old(flags[p]) != CLEAR)
      ensures old(Mail()) ==> Mail()
    {
      hide SignalsAgree, QueueAgrees, RolesAgree, MailAgrees, RemoveFirst, PendingProcs;
      RolesBounds(flags[..], priority[..], begServ, mm);
      SignalsKept(flags[..], pending[..], pendcount[..], court, sigProcs, p, f);
      PendingIsUser(flags[..], priority[..], begServ, mm, p);
      RolesKept(flags[..], priority[..], begServ, mm, p, f);
      if f == CLEAR {
        Readied(flags[..], priority[..], ready, p);
      } else if flags[p] != CLEAR {
        QueueKept(flags[..], priority[..], ready, p, f);
      }
      flags[p] := f;
      if flags[p] == CLEAR { LockReady(p); }
      if old(Mail()) { MailStays(old(flags[..]), p, f); }
    }

    // A process has got its memory map.
    method NewMap(k: int) returns (r: Reply)
      requires Valid() && priority.Length == flags.Length
      modifies this`ready, flags
      ensures Valid()
      ensures r == if 0 <= k < flags.Length then Ok else BadProc
      ensures r == BadProc ==> flags[..] == old(flags[..]) && ready == old(ready)
      ensures r == Ok ==>
        && flags[..] == old(flags[..])[k := old(flags[k]).(noMap := false)]
        && ready == if old(flags[k]) != CLEAR && flags[k] == CLEAR then old(ready) + [k] else old(ready)
      ensures old(Mail()) ==> Mail()
    {
      hide SignalsAgree, QueueAgrees, RolesAgree, MailAgrees, RemoveFirst, PendingProcs;
      if k < 0 || flags.Length <= k { return BadProc; }
      RolesBounds(flags[..], priority[..], begServ, mm);
      UnusedIsClear(flags[..], priority[..], begServ, mm, k);
      var oldFlags := flags[k];
      if oldFlags == CLEAR {
        assert flags[..][k := flags[k].(noMap := false)] == flags[..];
        flags[k] := flags[k].(noMap := false);
        assert flags[..] == old(flags[..]);
      } else {
        SetFlags(k, flags[k].(noMap := false));
      }
      return Ok;
    }

    // A process has done a successful exec; if it is being traced it gets a trap.  Its
    // caller is expected to have left it waiting for a reply: if it was runnable, and no
    // trap holds it up, it is now on the ready queue twice.
    method Exec(p: int, traced: bool) returns (told: Option<KSig>)
      requires Valid() && 0 <= p < flags.Length == priority.Length && priority[p] == User
      modifies this`sigProcs, this`ready, this`court, flags, pending, pendcount
      ensures Valid() <==> traced || old(flags[p]) != CLEAR
      ensures traced ==> p !in ready && !flags[p].receiving && flags[p].sigPending && p != mm && SIGTRAP == 5
      ensures |old(court)| == pending.Length == pendcount.Length == flags.Length
      // The trap is caused as any signal is: it is pending already, or it becomes so, or
      // the memory manager is idle and told of it at once.
      ensures told == if old(traced && SIGTRAP !in pending[p] && MMIdle()) then Some(KSig(p, {SIGTRAP})) else None
      ensures traced && old(SIGTRAP in pending[p]) ==>
        && flags[..] == old(flags[..])[p := old(flags[p]).(receiving := false)]
        && pending[..] == old(pending[..]) && pendcount[..] == old(pendcount[..])
        && court == old(court) && sigProcs == old(sigProcs) && ready == old(ready)
      ensures traced && old(SIGTRAP !in pending[p]) ==> pendcount[..] == old(pendcount[..])[p := old(pendcount[p]) + 1]
      ensures traced && old(SIGTRAP !in pending[p]) && told.None? ==>
        && flags[..] == old(flags[..])[p := old(flags[p]).(pending := true, sigPending := true, receiving := false)]
        && pending[..] == old(pending[..])[p := old(pending[p]) + {SIGTRAP}] && court == old(court)
        && sigProcs == old(sigProcs) + Bit(!old(flags[p].pending))
        && ready == if old(flags[p]) == CLEAR then RemoveFirst(old(ready), p) else old(ready)
      ensures told.Some? ==>
        && flags[..] == old(flags[..])[mm := old(flags[mm]).(receiving := false)]
                [p := old(flags[p]).(sigPending := true, receiving := false)]
        && pending[..] == old(pending[..]) && court == old(court)[p := old(court)[p] + 1]
        && sigProcs == old(sigProcs)
        && ready == (if old(flags[p]) == CLEAR then RemoveFirst(old(ready), p) else old(ready))
                  + (if flags[mm] == CLEAR then [mm] else [])
      ensures !traced ==>
        && told == None && flags[..] == old(flags[..])[p := old(flags[p]).(receiving := false)]
        && pending[..] == old(pending[..]) && pendcount[..] == old(pendcount[..])
        && court == old(court) && sigProcs == old(sigProcs)
        && ready == if flags[p] == CLEAR then old(ready) + [p] else old(ready)
      ensures old(Mail()) ==> Mail()
    {
      hide Agree, Mail, RemoveFirst;
      AgreeOn(p);
      if traced {
        told := Trap(p);
      } else {
        told := None;
        SetFlags(p, flags[p].(receiving := false));
      }
    }

    // Causes the trap in a process that has done an exec, which it holds up.
    method Trap(p: int) returns (told: Option<KSig>)
      requires Valid() && 0 <= p < flags.Length == priority.Length && priority[p] == User
      modifies this`sigProcs, this`ready, this`court, flags, pending, pendcount
      ensures Valid() && p != mm && |old(court)| == pending.Length == pendcount.Length == flags.Length
      ensures p !in ready && !flags[p].receiving && flags[p].sigPending
      ensures told == if old(SIGTRAP !in pending[p] && MMIdle()) then Some(KSig(p, {SIGTRAP})) else None
      ensures old(SIGTRAP in pending[p]) ==>
        && flags[..] == old(flags[..])[p := old(flags[p]).(receiving := false)]
        && pending[..] == old(pending[..]) && pendcount[..] == old(pendcount[..])
        && court == old(court) && sigProcs == old(sigProcs) && ready == old(ready)
      ensures old(SIGTRAP !in pending[p]) ==> pendcount[..] == old(pendcount[..])[p := old(pendcount[p]) + 1]
      ensures old(SIGTRAP !in pending[p]) && told.None? ==>
        && flags[..] == old(flags[..])[p := old(flags[p]).(pending := true, sigPending := true, receiving := false)]
        && pending[..] == old(pending[..])[p := old(pending[p]) + {SIGTRAP}] && court == old(court)
        && sigProcs == old(sigProcs) + Bit(!old(flags[p].pending))
        && ready == if old(flags[p]) == CLEAR then RemoveFirst(old(ready), p) else old(ready)
      ensures told.Some? ==>
        && flags[..] == old(flags[..])[mm := old(flags[mm]).(receiving := false)]
                [p := old(flags[p]).(sigPending := true, receiving := false)]
        && pending[..] == old(pending[..]) && court == old(court)[p := old(court)[p] + 1]
        && sigProcs == old(sigProcs)
        && ready == (if old(flags[p]) == CLEAR then RemoveFirst(old(ready), p) else old(ready))
                  + (if flags[mm] == CLEAR then [mm] else [])
      ensures old(Mail()) ==> Mail()
    {
      hide Agree, Mail, RemoveFirst, MMIdle;
      AgreeOn(p);
      ghost var was := flags[..];
      told := CauseSig(p, SIGTRAP);
      AgreeOn(p);
      ghost var f := flags[p].(receiving := false);
      UpdatedTwice(was, p, flags[p], f);
      UpdatedTwice(was[mm := was[mm].(receiving := false)], p, flags[p], f);
      EndReceiving(p);
      AgreeOn(p);
    }

    // A process held up by a signal no longer waits for a message.
    method EndReceiving(p: int)
      requires Valid() && 0 <= p < flags.Length == priority.Length && priority[p] == User && flags[p].sigPending
      modifies this`ready, flags
      ensures Valid() && ready == old(ready) && flags[..] == old(flags[..])[p := old(flags[p]).(receiving := false)]
      ensures old(Mail()) ==> Mail()
    {
      hide Agree, Mail;
      AgreeOn(p);
      SetFlags(p, flags[p].(receiving := false));
    }

    // A process forks: the child gets a copy of its entry, with no map yet, and none of
    // its signals or tracing.
    method Fork(parent: int, child: int)
      requires Valid() && 0 <= parent < flags.Length == priority.Length == pending.Length == pendcount.Length
      requires begServ <= child < flags.Length && priority[parent] == User && priority[child] == Unused
      requires callerq.Length == sendLink.Length == flags.Length && callerq != sendLink
      modifies this`queues, flags, priority, pending, pendcount, fromAny, callerq, sendLink
      ensures Valid() && child !in ready
      ensures priority[..] == old(priority[..])[child := User]
      ensures pending[..] == old(pending[..]) && pendcount[..] == old(pendcount[..]) && pending[child] == {}
      ensures pendcount[child] == 0 && fromAny.Length == flags.Length
      ensures fromAny[..] == old(fromAny[..])[child := old(fromAny[parent])]
      ensures flags[..] == old(flags[..])[child :=
        old(flags[parent]).(noMap := true, pending := false, sigPending := false, stop := false)]
      // The child's message queue is its parent's, which is right just if nobody waits on
      // it, or on the slot, and the parent is not waiting itself.
      ensures callerq[..] == old(callerq[..])[child := old(callerq[parent])]
      ensures sendLink[..] == old(sendLink[..])[child := old(sendLink[parent])]
      ensures old(Mail()) ==> |old(queues)| == flags.Length && queues == old(queues)[child := old(queues)[parent]]
      ensures old(Mail()) ==> (Mail() <==> old(queues[parent] == [] && queues[child] == [] && !flags[parent].sending))
    {
      hide SignalsAgree, QueueAgrees, RolesAgree, MailAgrees, RemoveFirst, WithoutUpTo, PendingProcs;
      RolesBounds(flags[..], priority[..], begServ, mm);
      SignalsBounds(flags[..], pending[..], pendcount[..], court, sigProcs);
      SignalsOf(flags[..], pending[..], pendcount[..], court, sigProcs, child);
      UnusedIsClear(flags[..], priority[..], begServ, mm, child);
      ghost var f := flags[parent].(noMap := true, pending := false, sigPending := false, stop := false);
      SignalsKept(flags[..], pending[..], pendcount[..], court, sigProcs, child, f);
      if Mail() {
        MailBounds(flags[..], callerq[..], sendLink[..], queues);
        MailAfterFork(flags[..], callerq[..], sendLink[..], queues, parent, child, f);
        queues := queues[child := queues[parent]];
      }
      SlotTaken(flags[..], priority[..], ready, begServ, mm, child, f);
      CopySlot(parent, child);
      assert pending[..] == old(pending[..]) && pendcount[..] == old(pendcount[..]);
      assert fromAny[mm] == old(fromAny[mm]) && flags[mm] == old(flags[mm]);
    }

    method CopySlot(parent: int, child: int)
      requires 0 <= parent < flags.Length == priority.Length == pending.Length == pendcount.Length == fromAny.Length
      requires 0 <= child < flags.Length == callerq.Length == sendLink.Length && callerq != sendLink
      modifies flags, priority, pending, pendcount, fromAny, callerq, sendLink
      ensures flags[..] == old(flags[..])[child :=
        old(flags[parent]).(noMap := true, pending := false, sigPending := false, stop := false)]
      ensures priority[..] == old(priority[..])[child := old(priority[parent])]
      ensures pending[..] == old(pending[..])[child := {}] && pendcount[..] == old(pendcount[..])[child := 0]
      ensures fromAny[..] == old(fromAny[..])[child := old(fromAny[parent])]
      ensures callerq[..] == old(callerq[..])[child := old(callerq[parent])]
      ensures sendLink[..] == old(sendLink[..])[child := old(sendLink[parent])]
    {
      priority[child], fromAny[child] := priority[parent], fromAny[parent];
      callerq[child], sendLink[child] := callerq[parent], sendLink[parent];
      flags[child] := flags[parent].(noMap := true, pending := false, sigPending := false, stop := false);
      pending[child] := {};
      pendcount[child] := 0;
    }

    // A process has exited: its slot is free again, none of its signals is left, and it no
    // longer waits to send.
    method Xit(p: int)
      requires Valid() && 0 <= p < flags.Length == priority.Length == pending.Length == pendcount.Length
      requires priority[p] == User
      requires flags[p].sending ==> Mail()
      modifies this`sigProcs, this`ready, this`court, this`queues, flags, priority, pending, pendcount, callerq,
        sendLink
      ensures Valid() && p !in ready && |old(court)| == flags.Length
      ensures priority[..] == old(priority[..])[p := Unused] && flags[..] == old(flags[..])[p := CLEAR]
      ensures pending[..] == old(pending[..])[p := {}] && pendcount[..] == old(pendcount[..])[p := 0]
      ensures court == old(court)[p := 0]
      ensures sigProcs == old(sigProcs) - Bit(old(flags[p].pending))
      ensures ready == if old(flags[p]) == CLEAR then RemoveFirst(old(ready), p) else old(ready)
      ensures old(Mail()) ==> Mail() && queues == WithoutUpTo(old(queues), p, |old(queues)|)
    {
      hide SignalsAgree, QueueAgrees, RolesAgree, MailAgrees, RemoveFirst, WithoutUpTo, PendingProcs;
      RolesBounds(flags[..], priority[..], begServ, mm);
      SignalsBounds(flags[..], pending[..], pendcount[..], court, sigProcs);
      SignalsChange(flags[..], pending[..], pendcount[..], court, sigProcs, p, CLEAR, {}, 0, 0);
      SlotFreed(flags[..], priority[..], ready, begServ, mm, p);
      NonePending(flags[..]);
      ghost var first := flags[..];
      if flags[p] == CLEAR { LockUnready(p); }
      if flags[p].sending {
        LeaveQueue(p);
      } else if Mail() {
        NotYetSending(first, callerq[..], sendLink[..], queues, p);
      }
      if flags[p].pending { sigProcs := sigProcs - 1; }
      court := court[p := 0];
      ClearSlot(p);
    }

    method ClearSlot(p: int)
      requires 0 <= p < flags.Length == priority.Length == pending.Length == pendcount.Length
      modifies flags, priority, pending, pendcount
      ensures pending[..] == old(pending[..])[p := {}] && pendcount[..] == old(pendcount[..])[p := 0]
      ensures flags[..] == old(flags[..])[p := CLEAR] && priority[..] == old(priority[..])[p := Unused]
    {
      pending[p] := {};
      pendcount[p] := 0;
      flags[p] := CLEAR;
      priority[p] := Unused;
    }

    // Takes a process that was sending off the queue it waits in, wherever that is.
    method LeaveQueue(p: int)
      requires Mail() && 0 <= p < flags.Length
      modifies this`queues, callerq, sendLink
      ensures queues == WithoutUpTo(old(queues), p, |old(queues)|)
      ensures MailAgrees(flags[..][p := CLEAR], callerq[..], sendLink[..], queues)
    {
      hide QueuesLinked, Linked, SendersApart, MailAgrees, PastHead, PastLink, RemoveFirst;
      ghost var heads, links, was := callerq[..], sendLink[..], queues;
      var k := 0;
      MailBounds(flags[..], heads, links, was);
      assert WithoutUpTo(was, p, 0) == was;
      while k < flags.Length
        invariant 0 <= k <= flags.Length && queues == WithoutUpTo(was, p, k)
        invariant QueuesLinked(callerq[..], sendLink[..], queues)
      {
        QueueInTable(callerq[..], sendLink[..], queues, k);
        TakenOff(callerq[..], sendLink[..], queues, k, p);
        OneMoreWithout(was, p, k);
        var done := Unchain(k, p, queues[k]);
        queues := WithoutUpTo(was, p, k + 1);
        if done {
          FoundAtFront(was, p, k);
          break;
        }
        k := k + 1;
      }
      SenderGone(flags[..], heads, links, was, p, callerq[..], sendLink[..]);
    }

    // Takes a process off one queue, if it is there; done says that it was in front.
    method Unchain(k: int, p: int, ghost queue: seq<int>) returns (done: bool)
      requires callerq.Length == sendLink.Length && callerq != sendLink && 0 <= k < callerq.Length
      requires Linked(sendLink[..], callerq[k], queue)
      requires forall i :: 0 <= i < |queue| ==> 0 <= queue[i] < sendLink.Length
      modifies callerq, sendLink
      ensures done <==> queue != [] && queue[0] == p
      ensures callerq[..] == old(callerq[..])[k := PastHead(old(sendLink[..]), old(callerq[k]), queue, p)]
      ensures sendLink[..] == PastLink(old(sendLink[..]), queue, p)
    {
      ghost var links := sendLink[..];
      if callerq[k] == NIL { return false; }
      if callerq[k] == p {
        callerq[k] := sendLink[p];
        return true;
      }
      var np := callerq[k];
      assert links[queue[0]] == At(queue, 1);
      var xp := sendLink[np];
      ghost var j := 0;
      while xp != NIL
        invariant 0 <= j < |queue| && np == queue[j] && xp == At(queue, j + 1) && p !in queue[..j + 1]
        invariant sendLink[..] == links && callerq[..] == old(callerq[..])
        decreases |queue| - j
      {
        if xp == p {
          sendLink[np] := sendLink[xp];
          assert IndexOf(queue, p) == j + 1;
          return false;
        }
        np := xp;
        j := j + 1;
        assert links[queue[j]] == At(queue, j + 1);
        xp := sendLink[np];
      }
      return false;
    }

    // The requests of a tracer that touch readiness.  Resuming a process that is not
    // stopped, or held up otherwise, puts it on the ready queue a second time.
    method Trace(p: int, request: Request) returns (r: Reply)
      requires Valid() && 0 <= p < flags.Length == priority.Length
      modifies this`ready, flags
      ensures r == if priority[p] == Unused || request == Other then IoError else Ok
      ensures r == IoError ==> flags[..] == old(flags[..]) && ready == old(ready)
      ensures r == Ok ==> flags[..] == old(flags[..])[p := old(flags[p]).(stop := request == Stop)]
      ensures r == Ok && request == Stop ==>
        ready == if old(flags[p]) == CLEAR then RemoveFirst(old(ready), p) else old(ready)
      ensures r == Ok && request != Stop ==> ready == if flags[p] == CLEAR then old(ready) + [p] else old(ready)
      ensures Valid() <==> r == IoError || request == Stop || old(flags[p]) != CLEAR
      ensures old(Mail()) ==> Mail()
    {
      hide SignalsAgree, QueueAgrees, RolesAgree, MailAgrees, RemoveFirst, PendingProcs;
      if priority[p] == Unused { return IoError; }
      match request {
        case Stop =>
          var f := flags[p].(stop := true);
          RolesBounds(flags[..], priority[..], begServ, mm);
          SignalsKept(flags[..], pending[..], pendcount[..], court, sigProcs, p, f);
          PendingIsUser(flags[..], priority[..], begServ, mm, p);
          RolesKept(flags[..], priority[..], begServ, mm, p, f);
          Unreadied(flags[..], priority[..], ready, p, f);
          if flags[p] == CLEAR { LockUnready(p); }
          flags[p] := f;
          if old(Mail()) { MailStays(old(flags[..]), p, f); }
        case Other =>
          return IoError;
        case _ =>
          SetFlags(p, flags[p].(stop := false));
      }
      return Ok;
    }

    // The memory manager, so far running, waits for the next message from anyone; it is
    // told of a signal at once if there is one to tell of.
    method MMBlocks() returns (told: Option<KSig>)
      requires Agree() && 0 <= mm < flags.Length == fromAny.Length && flags[mm] == CLEAR
      modifies this`sigProcs, this`ready, this`court, flags, pending, fromAny
      ensures Valid() && (told.None? <==> old(sigProcs) == 0) && (told.None? <==> MMIdle())
      ensures fromAny[..] == old(fromAny[..])[mm := true]
      ensures told.None? ==>
        && flags[..] == old(flags[..])[mm := CLEAR.(receiving := true)] && ready == RemoveFirst(old(ready), mm)
        && pending[..] == old(pending[..]) && court == old(court) && sigProcs == old(sigProcs)
      ensures told.Some? ==> var p := told.value.proc;
        && 0 <= p < flags.Length && old(flags[p].pending) && (forall q :: 0 <= q < p ==> !old(flags[q].pending))
        && told.value.signals == old(pending[p]) && p != mm
        && flags[..] == old(flags[..])[p := old(flags[p]).(pending := false)]
        && ready == RemoveFirst(old(ready), mm) + [mm]
        && pending[..] == old(pending[..])[p := {}] && |old(court)| == flags.Length
        && court == old(court)[p := old(court)[p] + |old(pending[p])|] && sigProcs == old(sigProcs) - 1
      ensures old(Mail()) ==> Mail()
    {
      hide SignalsAgree, QueueAgrees, RolesAgree, MailAgrees, RemoveFirst, PendingProcs;
      var f := flags[mm].(receiving := true);
      RolesBounds(flags[..], priority[..], begServ, mm);
      SignalsKept(flags[..], pending[..], pendcount[..], court, sigProcs, mm, f);
      RolesKept(flags[..], priority[..], begServ, mm, mm, f);
      Unreadied(flags[..], priority[..], ready, mm, f);
      fromAny[mm] := true;
      flags[mm] := f;
      LockUnready(mm);
      if old(Mail()) { MailStays(old(flags[..]), mm, f); }
      told := None;
      assert flags[..][mm := CLEAR] == old(flags[..]);
      if sigProcs != 0 { told := Inform(); }
    }
  }
}
