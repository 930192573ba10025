// Singly linked lists threaded through a fixed table: slot s is followed by slot
// next[s], and NIL ends the list.  The hole list, the list of spare hole slots, the
// swap-in queue and the block chains of the file system all have this shape.
module Links {
  import opened Basics

  const NIL := -1

  // The slot at position i of a list, or NIL just past its end.
  function At(path: seq<int>, i: nat): int {
    if i < |path| then path[i] else NIL
  }

  ghost predicate Distinct(path: seq<int>) {
    forall i, j :: 0 <= i < j < |path| ==> path[i] != path[j]
  }

  // Following next from head visits exactly path and then meets NIL.
  ghost predicate Linked(next: seq<int>, head: int, path: seq<int>) {
    && (forall i :: 0 <= i < |path| ==> 0 <= path[i] < |next|)
    && head == At(path, 0)
    && (forall i {:trigger next[path[i]]} :: 0 <= i < |path| ==> next[path[i]] == At(path, i + 1))
  }

  // A list that ends is acyclic: no slot is met twice.
  lemma LinkedIsAcyclic(next: seq<int>, head: int, path: seq<int>)
    requires Linked(next, head, path)
    ensures Distinct(path)
  {
    forall i, j | 0 <= i < j < |path|
      ensures path[i] != path[j]
    {
      if path[i] == path[j] {
        SameTail(next, head, path, i, j, |path| - j);
      }
    }
  }

  lemma {:induction false} SameTail(next: seq<int>, head: int, path: seq<int>, i: nat, j: nat, k: nat)
    requires Linked(next, head, path)
    requires i < j < |path| && j + k <= |path| && path[i] == path[j]
    ensures At(path, i + k) == At(path, j + k)
  {
    if k > 0 {
      SameTail(next, head, path, i, j, k - 1);
      assert next[path[i + (k - 1)]] == At(path, i + k);
      assert next[path[j + (k - 1)]] == At(path, j + k);
    }
  }

  // The links and the head determine the list.
  lemma {:induction false} LinkedIsUnique(next: seq<int>, head: int, p: seq<int>, q: seq<int>)
    requires Linked(next, head, p) && Linked(next, head, q)
    ensures p == q
    decreases |p|
  {
    if p != [] && q != [] {
      assert Linked(next, next[head], p[1..]) by {
        forall i | 0 <= i < |p[1..]|
          ensures next[p[1..][i]] == At(p[1..], i + 1)
        {
          assert p[1..][i] == p[i + 1];
        }
      }
      assert Linked(next, next[head], q[1..]) by {
        forall i | 0 <= i < |q[1..]|
          ensures next[q[1..][i]] == At(q[1..], i + 1)
        {
          assert q[1..][i] == q[i + 1];
        }
      }
      LinkedIsUnique(next, next[head], p[1..], q[1..]);
      assert p == [p[0]] + p[1..] && q == [q[0]] + q[1..];
    }
  }

  // The rest of a list is a list.
  lemma SuffixLinked(next: seq<int>, head: int, path: seq<int>, k: nat)
    requires Linked(next, head, path) && k <= |path|
    ensures Linked(next, At(path, k), path[k..])
  {
  }

  // Slots off the list do not matter, so any slot off the list can be pushed on it.
  lemma PushedPath(next: seq<int>, after: seq<int>, head: int, path: seq<int>, x: int)
    requires Linked(next, head, path) && |after| == |next|
    requires forall i :: 0 <= i < |path| ==> after[path[i]] == next[path[i]]
    requires 0 <= x < |next| && after[x] == head
    ensures Linked(after, x, [x] + path)
  {
  }

  // Unlinking position k: its predecessor, or the head, takes over its link.  What
  // the unlinked slot then holds does not matter.
  lemma UnlinkedPath(next: seq<int>, head: int, path: seq<int>, k: nat, link: int)
    requires Linked(next, head, path) && k < |path|
    ensures var after := (if k == 0 then next else next[path[k - 1] := next[path[k]]])[path[k] := link];
            Linked(after, if k == 0 then next[path[0]] else head, RemoveAt(path, k))
  {
    LinkedIsAcyclic(next, head, path);
    var rest := RemoveAt(path, k);
    var after := (if k == 0 then next else next[path[k - 1] := next[path[k]]])[path[k] := link];
    forall i | 0 <= i < |rest|
      ensures after[rest[i]] == At(rest, i + 1)
    {
      var was := if i < k then i else i + 1;
      assert rest[i] == path[was] && next[path[was]] == At(path, was + 1);
      assert next[path[k]] == At(path, k + 1);
      assert rest[i] != path[k];
      if i != k - 1 && 0 < k { assert path[was] != path[k - 1]; }
    }
  }

  // Linking slot x in at position k.
  lemma LinkedInPath(next: seq<int>, head: int, path: seq<int>, k: nat, x: int)
    requires Linked(next, head, path) && k <= |path| && 0 <= x < |next| && x !in path
    ensures var after := (if k == 0 then next else next[path[k - 1] := x])[x := At(path, k)];
            Linked(after, if k == 0 then x else head, InsertAt(path, k, x))
  {
    LinkedIsAcyclic(next, head, path);
    var more := InsertAt(path, k, x);
    var after := (if k == 0 then next else next[path[k - 1] := x])[x := At(path, k)];
    forall i | 0 <= i < |more|
      ensures after[more[i]] == At(more, i + 1)
    {
      if i != k {
        var was := if i < k then i else i - 1;
        assert more[i] == path[was] && next[path[was]] == At(path, was + 1);
        assert more[i] != x;
        if i != k - 1 && 0 < k { assert path[was] != path[k - 1]; }
      }
    }
  }

  // Appending slot x after the tail, when x is itself on the list, cuts the list there.
  lemma CutPath(next: seq<int>, head: int, path: seq<int>, j: nat)
    requires Linked(next, head, path) && j < |path|
    ensures Linked(next[path[|path| - 1] := path[j]][path[j] := NIL], head, path[..j + 1])
  {
    LinkedIsAcyclic(next, head, path);
    var after := next[path[|path| - 1] := path[j]][path[j] := NIL];
    var cut := path[..j + 1];
    forall i | 0 <= i < |cut|
      ensures after[cut[i]] == At(cut, i + 1)
    {
      if i < j { assert next[path[i]] == At(path, i + 1); }
    }
  }
}
