// Vocabulary shared by the other modules.
module Basics {
  datatype Option<+T> = None | Some(value: T)

  function Bit(b: bool): int {
    if b then 1 else 0
  }

  function RemoveAt<T>(s: seq<T>, k: int): (r: seq<T>)
    requires 0 <= k < |s|
    ensures |r| == |s| - 1 && forall i :: 0 <= i < |r| ==> r[i] == s[if i < k then i else i + 1]
  {
    seq(|s| - 1, i requires 0 <= i < |s| - 1 => if i < k then s[i] else s[i + 1])
  }

  function InsertAt<T>(s: seq<T>, k: int, x: T): (r: seq<T>)
    requires 0 <= k <= |s|
    ensures |r| == |s| + 1 && r[k] == x
    ensures forall i :: 0 <= i < |r| && i != k ==> r[i] == s[if i < k then i else i - 1]
  {
    seq(|s| + 1, i requires 0 <= i <= |s| => if i < k then s[i] else if i == k then x else s[i - 1])
  }

  lemma RemoveAtMultiset<T>(s: seq<T>, k: int)
    requires 0 <= k < |s|
    ensures multiset(s) == multiset(RemoveAt(s, k)) + multiset{s[k]}
  {
    assert s == s[..k] + [s[k]] + s[k + 1..];
    assert RemoveAt(s, k) == s[..k] + s[k + 1..];
  }

  lemma FirstOfTail<T>(a: seq<T>, q: seq<T>, m: nat)
    requires m < |q|
    ensures a + q[m..] == (a + [q[m]]) + q[m + 1..] && q[m..][1..] == q[m + 1..]
  {
  }

  lemma RemoveAtJoint<T>(a: seq<T>, b: seq<T>)
    requires b != []
    ensures RemoveAt(a + b, |a|) == a + b[1..]
  {
  }

  lemma InsertAtMultiset<T>(s: seq<T>, k: int, x: T)
    requires 0 <= k <= |s|
    ensures multiset(InsertAt(s, k, x)) == multiset(s) + multiset{x}
  {
    assert s == s[..k] + s[k..];
    assert InsertAt(s, k, x) == s[..k] + [x] + s[k..];
  }

  // The numbers below n.
  function Below(n: nat): (r: set<int>)
    ensures |r| == n && forall i :: i in r <==> 0 <= i < n
  {
    if n == 0 then {} else Below(n - 1) + {n - 1}
  }

  function Values<T>(s: seq<T>): set<T> {
    set x | x in s
  }

  lemma {:induction false} DistinctCount<T>(s: seq<T>)
    requires forall i, j :: 0 <= i < j < |s| ==> s[i] != s[j]
    ensures |Values(s)| == |s|
  {
    if s != [] {
      DistinctCount(s[1..]);
      assert s == [s[0]] + s[1..];
      assert Values(s) == {s[0]} + Values(s[1..]);
      assert s[0] !in Values(s[1..]);
    }
  }

  lemma Pigeonhole(s: seq<nat>, n: nat)
    requires forall i :: 0 <= i < |s| ==> s[i] < n
    requires forall i, j :: 0 <= i < j < |s| ==> s[i] != s[j]
    ensures |s| <= n
  {
    var values := set x: int | x in s;
    DistinctCount(s);
    assert values == Values(s);
    SubsetIsSmaller(values, Below(n));
  }

  lemma {:induction false} SubsetIsSmaller<T>(a: set<T>, b: set<T>)
    requires a <= b
    ensures |a| <= |b|
  {
    if a != {} {
      var x :| x in a;
      SubsetIsSmaller(a - {x}, b - {x});
    }
  }

  lemma UpdatedTwice<T>(s: seq<T>, p: int, x: T, y: T)
    requires 0 <= p < |s|
    ensures s[p := x][p := y] == s[p := y]
  {
  }
}
