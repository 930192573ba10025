// The queues of processes that wait to send a message, as values: each process heads one
// queue, threaded through the links of those that wait on it.
module Mailboxes {
  import opened Basics
  import opened Links
  import opened Signals

  ghost predicate Queued(queues: seq<seq<int>>, p: int) {
    exists q :: 0 <= q < |queues| && p in queues[q]
  }

  // Nobody waits on two queues.
  ghost predicate SendersApart(queues: seq<seq<int>>) {
    forall q, r, x :: 0 <= q < |queues| && 0 <= r < |queues| && x in queues[q] && x in queues[r] ==> q == r
  }

  ghost predicate QueuesLinked(callerq: seq<int>, sendLink: seq<int>, queues: seq<seq<int>>) {
    && |callerq| == |sendLink| == |queues| && SendersApart(queues)
    && forall q :: 0 <= q < |queues| ==> Linked(sendLink, callerq[q], queues[q])
  }

  // Just those processes that are sending wait, each on one queue.
  ghost predicate MailAgrees(flags: seq<Flags>, callerq: seq<int>, sendLink: seq<int>, queues: seq<seq<int>>) {
    && QueuesLinked(callerq, sendLink, queues) && |queues| == |flags|
    && forall p :: 0 <= p < |flags| ==> (flags[p].sending <==> Queued(queues, p))
  }

  // Only who is sending matters.
  lemma MailKept(flags: seq<Flags>, flags': seq<Flags>, callerq: seq<int>, sendLink: seq<int>, queues: seq<seq<int>>)
    requires MailAgrees(flags, callerq, sendLink, queues) && |flags'| == |flags|
    requires forall p :: 0 <= p < |flags| ==> flags'[p].sending == flags[p].sending
    ensures MailAgrees(flags', callerq, sendLink, queues)
  {
  }

  lemma NoMail(flags: seq<Flags>, callerq: seq<int>, sendLink: seq<int>, queues: seq<seq<int>>)
    requires |flags| == |callerq| == |sendLink| == |queues|
    requires forall p :: 0 <= p < |flags| ==> callerq[p] == NIL && queues[p] == [] && !flags[p].sending
    ensures MailAgrees(flags, callerq, sendLink, queues)
  {
  }

  function IndexOf(q: seq<int>, x: int): (k: nat)
    requires x in q
    ensures k < |q| && q[k] == x && x !in q[..k]
  {
    if q[0] == x then 0 else 1 + IndexOf(q[1..], x)
  }

  lemma {:induction false} RemovedAt(q: seq<int>, x: int)
    ensures RemoveFirst(q, x) == if x in q then RemoveAt(q, IndexOf(q, x)) else q
  {
    if q != [] {
      assert q == [q[0]] + q[1..];
      if q[0] == x {
        assert RemoveAt(q, 0) == q[1..];
      } else {
        RemovedAt(q[1..], x);
        if x in q[1..] { RemovedFurther(q, x); }
      }
    }
  }

  lemma RemovedFurther(q: seq<int>, x: int)
    requires q != [] && q[0] != x && x in q[1..]
    ensures x in q && [q[0]] + RemoveAt(q[1..], IndexOf(q[1..], x)) == RemoveAt(q, IndexOf(q, x))
  {
    assert IndexOf(q, x) == 1 + IndexOf(q[1..], x);
    hide IndexOf;
  }

  // The first k queues without x.
  function WithoutUpTo(queues: seq<seq<int>>, x: int, k: int): (r: seq<seq<int>>)
    ensures |r| == |queues|
    ensures forall q :: 0 <= q < |r| ==> r[q] == if q < k then RemoveFirst(queues[q], x) else queues[q]
  {
    seq(|queues|, q requires 0 <= q < |queues| => if q < k then RemoveFirst(queues[q], x) else queues[q])
  }

  // The link that leads to x on queue q, if one does and not the head, leads past it.
  function PastLink(sendLink: seq<int>, queue: seq<int>, x: int): seq<int>
    requires forall i :: 0 <= i < |queue| ==> 0 <= queue[i] < |sendLink|
  {
    if x in queue && queue[0] != x then sendLink[queue[IndexOf(queue, x) - 1] := sendLink[x]] else sendLink
  }

  function PastHead(sendLink: seq<int>, head: int, queue: seq<int>, x: int): int
    requires forall i :: 0 <= i < |queue| ==> 0 <= queue[i] < |sendLink|
  {
    if x in queue && queue[0] == x then sendLink[x] else head
  }

  lemma QueueInTable(callerq: seq<int>, sendLink: seq<int>, queues: seq<seq<int>>, q: int)
    requires QueuesLinked(callerq, sendLink, queues) && 0 <= q < |queues|
    ensures |callerq| == |queues| && Linked(sendLink, callerq[q], queues[q]) && Distinct(queues[q])
    ensures forall i :: 0 <= i < |queues[q]| ==> 0 <= queues[q][i] < |sendLink|
  {
    LinkedIsAcyclic(sendLink, callerq[q], queues[q]);
  }

  // Without x queue q is still linked.
  lemma StillLinked(sendLink: seq<int>, head: int, queue: seq<int>, x: int)
    requires Linked(sendLink, head, queue) && forall i :: 0 <= i < |queue| ==> 0 <= queue[i] < |sendLink|
    ensures Linked(PastLink(sendLink, queue, x), PastHead(sendLink, head, queue, x), RemoveFirst(queue, x))
    ensures |PastLink(sendLink, queue, x)| == |sendLink|
    ensures forall p :: 0 <= p < |sendLink| && p !in queue ==> PastLink(sendLink, queue, x)[p] == sendLink[p]
  {
    hide Linked, RemoveFirst;
    RemovedAt(queue, x);
    if x in queue {
      var k := IndexOf(queue, x);
      UnlinkedPath(sendLink, head, queue, k, sendLink[x]);
      LinkedIsAcyclic(sendLink, head, queue);
      HeadIsFirst(sendLink, head, queue);
      hide IndexOf, RemoveAt;
      if k == 0 {
        assert sendLink[x := sendLink[x]] == sendLink;
      } else {
        assert queue[0] != x && queue[k - 1] != x;
        assert sendLink[queue[k - 1] := sendLink[x]][x := sendLink[x]] == PastLink(sendLink, queue, x);
      }
    }
  }

  lemma HeadIsFirst(next: seq<int>, head: int, path: seq<int>)
    requires Linked(next, head, path) && path != []
    ensures head == path[0]
  {
  }

  // Taking x off queue q leaves a queue, and the others as they are.
  lemma TakenOff(callerq: seq<int>, sendLink: seq<int>, queues: seq<seq<int>>, q: int, x: int)
    requires QueuesLinked(callerq, sendLink, queues) && 0 <= q < |queues|
    requires forall i :: 0 <= i < |queues[q]| ==> 0 <= queues[q][i] < |sendLink|
    ensures QueuesLinked(callerq[q := PastHead(sendLink, callerq[q], queues[q], x)], PastLink(sendLink, queues[q], x),
                         queues[q := RemoveFirst(queues[q], x)])
  {
    var links, less := PastLink(sendLink, queues[q], x), RemoveFirst(queues[q], x);
    StillLinked(sendLink, callerq[q], queues[q], x);
    RemovedAt(queues[q], x);
    hide Linked, PastLink, RemoveFirst;
    forall r | 0 <= r < |queues| && r != q
      ensures Linked(links, callerq[r], queues[r])
    {
      OtherLinks(sendLink, links, callerq[r], queues[r], queues[q]);
    }
    assert forall y :: y in less ==> y in queues[q];
    StillApart(queues, q, less);
  }

  lemma StillApart(queues: seq<seq<int>>, q: int, less: seq<int>)
    requires SendersApart(queues) && 0 <= q < |queues| && forall y :: y in less ==> y in queues[q]
    ensures SendersApart(queues[q := less])
  {
  }

  lemma OtherLinks(next: seq<int>, after: seq<int>, head: int, path: seq<int>, changed: seq<int>)
    requires Linked(next, head, path) && |after| == |next| && forall x :: x in changed ==> x !in path
    requires forall p :: 0 <= p < |next| && p !in changed ==> after[p] == next[p]
    ensures Linked(after, head, path)
  {
  }

  // Once x has been found, nothing remains to be done on the other queues.
  lemma OneMoreWithout(queues: seq<seq<int>>, x: int, k: nat)
    requires k < |queues|
    ensures WithoutUpTo(queues, x, k + 1) == WithoutUpTo(queues, x, k)[k := RemoveFirst(queues[k], x)]
  {
  }

  lemma FoundAtFront(queues: seq<seq<int>>, x: int, k: nat)
    requires SendersApart(queues) && k < |queues| && x in queues[k]
    ensures WithoutUpTo(queues, x, k + 1) == WithoutUpTo(queues, x, |queues|)
  {
    forall q | k < q < |queues|
      ensures RemoveFirst(queues[q], x) == queues[q]
    {
      RemovedAt(queues[q], x);
    }
  }

  // With x on no queue any more, and no longer sending, everything agrees.
  lemma SenderGone(flags: seq<Flags>, callerq: seq<int>, sendLink: seq<int>, queues: seq<seq<int>>, x: int,
                   callerq': seq<int>, sendLink': seq<int>)
    requires MailAgrees(flags, callerq, sendLink, queues) && 0 <= x < |flags|
    requires QueuesLinked(callerq', sendLink', WithoutUpTo(queues, x, |queues|))
    ensures MailAgrees(flags[x := CLEAR], callerq', sendLink', WithoutUpTo(queues, x, |queues|))
  {
    var left := WithoutUpTo(queues, x, |queues|);
    forall q, p | 0 <= q < |queues|
      ensures p in left[q] <==> p in queues[q] && p != x
    {
      QueueInTable(callerq, sendLink, queues, q);
      RemovedFirst(queues[q], x);
    }
    forall p | 0 <= p < |flags|
      ensures Queued(left, p) <==> Queued(queues, p) && p != x
    {
    }
  }

  lemma NotYetSending(flags: seq<Flags>, callerq: seq<int>, sendLink: seq<int>, queues: seq<seq<int>>, x: int)
    requires MailAgrees(flags, callerq, sendLink, queues) && 0 <= x < |flags| && !flags[x].sending
    ensures WithoutUpTo(queues, x, |queues|) == queues && MailAgrees(flags[x := CLEAR], callerq, sendLink, queues)
  {
    forall q | 0 <= q < |queues|
      ensures RemoveFirst(queues[q], x) == queues[q]
    {
      RemovedAt(queues[q], x);
    }
    MailKept(flags, flags[x := CLEAR], callerq, sendLink, queues);
  }

  lemma MailBounds(flags: seq<Flags>, callerq: seq<int>, sendLink: seq<int>, queues: seq<seq<int>>)
    requires MailAgrees(flags, callerq, sendLink, queues)
    ensures |flags| == |callerq| == |sendLink| == |queues| && SendersApart(queues)
    ensures QueuesLinked(callerq, sendLink, queues)
  {
  }

  // A child that takes over its parent's head and link shares the parent's queue, and whoever
  // still waited on the child's slot is lost; if the parent is sending, the child is on no queue.
  lemma MailAfterFork(flags: seq<Flags>, callerq: seq<int>, sendLink: seq<int>, queues: seq<seq<int>>, parent: int,
                      child: int, f: Flags)
    requires MailAgrees(flags, callerq, sendLink, queues) && 0 <= parent < |flags| && 0 <= child < |flags|
    requires child != parent
    requires !flags[child].sending && f.sending == flags[parent].sending
    ensures MailAgrees(flags[child := f], callerq[child := callerq[parent]], sendLink[child := sendLink[parent]],
                       queues[child := queues[parent]])
       <==> queues[parent] == [] && queues[child] == [] && !flags[parent].sending
  {
    var flags', callerq', links, now :=
      flags[child := f], callerq[child := callerq[parent]], sendLink[child := sendLink[parent]],
      queues[child := queues[parent]];
    if queues[parent] == [] && queues[child] == [] && !flags[parent].sending {
      assert now == queues;
      forall q | 0 <= q < |queues|
        ensures Linked(links, callerq'[q], now[q])
      {
        assert child !in queues[q];
        OtherLinks(sendLink, links, callerq[q], queues[q], [child]);
      }
    } else {
      if queues[parent] != [] {
        assert queues[parent][0] in now[parent] && queues[parent][0] in now[child];
      } else if queues[child] != [] {
        LostSender(flags, callerq, sendLink, queues, child, now, queues[child][0]);
        assert flags'[queues[child][0]].sending;
      } else {
        assert now == queues;
        assert flags'[child].sending && !Queued(now, child);
      }
    }
  }

  lemma LostSender(flags: seq<Flags>, callerq: seq<int>, sendLink: seq<int>, queues: seq<seq<int>>, child: int,
                   now: seq<seq<int>>, x: int)
    requires MailAgrees(flags, callerq, sendLink, queues) && 0 <= child < |queues| && x in queues[child]
    requires !flags[child].sending
    requires now == queues[child := []]
    ensures 0 <= x < |flags| && flags[x].sending && x != child && !Queued(now, x)
  {
    QueueInTable(callerq, sendLink, queues, child);
    var i :| 0 <= i < |queues[child]| && queues[child][i] == x;
    assert Queued(queues, x);
  }
}
