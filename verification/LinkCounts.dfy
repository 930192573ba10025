// Hard-link counts: each inode's count against the directory elements that name it,
// also half way through a removal, when some elements have been dealt with already.
module LinkCounts {
  import opened Basics
  import opened Disks
  import opened Trees

  ghost function Places(t: Tree): (r: set<Place>)
    requires |t.listing| == |t.nodes|
    ensures forall p: Place :: p in r <==> IsPlace(t, p.d, p.a, p.i)
  {
    var r := set d, a, i | 0 <= d < |t.listing| && 0 <= a < |t.listing[d]| && 0 <= i < |t.listing[d][a]|
              :: Place(d, a, i);
    forall p: Place
      ensures p in r <==> IsPlace(t, p.d, p.a, p.i)
    {
      assert p == Place(p.d, p.a, p.i);
    }
    r
  }

  // The elements in use that name x, apart from those already handled.
  ghost function LinksTo(t: Tree, handled: set<Place>, x: int): (r: set<Place>)
    requires |t.listing| == |t.nodes|
    ensures forall p :: p in r <==> Names(t, p.d, p.a, p.i, x) && p !in handled
  {
    set p | p in Places(t) && Names(t, p.d, p.a, p.i, x) && p !in handled
  }

  // Each count is the number of links, one more for the root, and one more for the
  // inode whose link has been handled but not yet taken off its count.
  ghost predicate CountsExact(t: Tree, handled: set<Place>, owed: int) {
    |t.listing| == |t.nodes| && forall x :: 0 <= x < |t.nodes| ==>
      t.nodes[x].refs == |LinksTo(t, handled, x)| + Bit(x == 0) + Bit(x == owed)
  }

  // Inodes in use are linked, those that are free are not; the inodes being removed
  // have lost their last link but still stand.
  ghost predicate LiveHaveLinks(t: Tree, open: set<int>) {
    forall x :: 0 <= x < |t.nodes| ==>
      && (t.nodes[x].kind == Empty ==> t.nodes[x].refs == 0)
      && (t.nodes[x].kind != Empty && x !in open ==> 0 < t.nodes[x].refs)
      && (x in open ==> t.nodes[x].kind != Empty && t.nodes[x].refs == 0)
  }

  // Every count is exact, an inode is in use just if it is linked, and elements in use
  // name inodes.
  ghost predicate Sound(t: Tree) {
    CountsExact(t, {}, -1) && LiveHaveLinks(t, {}) && NamesInRange(t)
  }

  // The root directory alone, without a block, has no links but the one it counts.
  lemma EmptyTreeIsSound(t: Tree)
    requires 0 < |t.nodes| == |t.listing| && t.listing[0] == []
    requires t.nodes[0].kind == Directory && t.nodes[0].refs == 1
    requires forall x :: 0 < x < |t.nodes| ==> t.nodes[x].kind == Empty && t.nodes[x].refs == 0
    ensures Sound(t)
  {
    assert forall d, a, i, x :: !Names(t, d, a, i, x);
    assert forall x :: LinksTo(t, {}, x) == {};
  }

  // Only elements of protected, open or freed directories have been handled.
  ghost predicate HandledElsewhere(t: Tree, handled: set<Place>, open: set<int>, kept: set<int>) {
    forall p :: p in handled ==> p.d in kept || p.d in open || (0 <= p.d < |t.nodes| && t.nodes[p.d].kind == Empty)
  }

  // The root is protected, and every other protected inode still has a link from a
  // protected one, so none of them can lose its last link.
  ghost predicate Protected(t: Tree, handled: set<Place>, kept: set<int>) {
    && 0 in kept && |t.listing| == |t.nodes|
    && (forall x :: x in kept ==> 0 <= x < |t.nodes|)
    && (forall x :: x in kept && x != 0 ==> exists p :: p in LinksTo(t, handled, x) && p.d in kept)
  }

  // What a removal may do to the inodes: take from their counts, or free them.
  ghost predicate OnlyFreed(was: seq<Inode>, now: seq<Inode>) {
    && |now| == |was|
    && forall x :: 0 <= x < |was| ==>
         || now[x] == Inode(0, -1, Empty, 0)
         || (now[x] == was[x].(refs := now[x].refs) && now[x].refs <= was[x].refs)
  }

  function SumRefs(nodes: seq<Inode>): nat {
    if nodes == [] then 0 else nodes[0].refs + SumRefs(nodes[1..])
  }

  lemma {:induction false} SumRefsUpdate(nodes: seq<Inode>, x: int, n: Inode)
    requires 0 <= x < |nodes|
    ensures SumRefs(nodes[x := n]) == SumRefs(nodes) - nodes[x].refs + n.refs
  {
    if x == 0 {
      assert nodes[0 := n][1..] == nodes[1..];
    } else {
      assert nodes[x := n][1..] == nodes[1..][x - 1 := n];
      SumRefsUpdate(nodes[1..], x - 1, n);
    }
  }

  lemma {:induction false} SumRefsLower(was: seq<Inode>, now: seq<Inode>)
    requires |was| == |now| && forall x :: 0 <= x < |was| ==> now[x].refs <= was[x].refs
    ensures SumRefs(now) <= SumRefs(was)
  {
    if was != [] { SumRefsLower(was[1..], now[1..]); }
  }

  // Handling one more element takes one link away.
  lemma HandledOneMore(t: Tree, handled: set<Place>, p: Place, y: int)
    requires CountsExact(t, handled, -1) && p in LinksTo(t, handled, y) && 0 <= y < |t.nodes|
    ensures CountsExact(t, handled + {p}, y) && 0 < t.nodes[y].refs
  {
    var more := handled + {p};
    forall x | 0 <= x < |t.nodes|
      ensures t.nodes[x].refs == |LinksTo(t, more, x)| + Bit(x == 0) + Bit(x == y)
    {
      if x == y {
        assert LinksTo(t, more, x) == LinksTo(t, handled, x) - {p};
      } else {
        assert p !in LinksTo(t, handled, x);
        assert LinksTo(t, more, x) == LinksTo(t, handled, x);
      }
    }
  }

  // The elements in use are the same wherever kinds and listings of directories are.
  lemma SameLinks(t: Tree, t': Tree, handled: set<Place>, handled': set<Place>, x: int)
    requires |t.listing| == |t.nodes| && |t'.listing| == |t'.nodes|
    requires forall d, a, i :: (Names(t, d, a, i, x) && Place(d, a, i) !in handled)
                          <==> (Names(t', d, a, i, x) && Place(d, a, i) !in handled')
    ensures LinksTo(t, handled, x) == LinksTo(t', handled', x)
  {
  }

  // Taking the handled link off the count settles the debt.
  lemma DebtSettled(t: Tree, handled: set<Place>, f: int, t': Tree)
    requires CountsExact(t, handled, f) && 0 <= f < |t.nodes| && 0 < t.nodes[f].refs
    requires t' == t.(nodes := t.nodes[f := t.nodes[f].(refs := t.nodes[f].refs - 1)])
    ensures CountsExact(t', handled, -1)
    ensures forall x :: LinksTo(t', handled, x) == LinksTo(t, handled, x)
  {
    forall x
      ensures LinksTo(t', handled, x) == LinksTo(t, handled, x)
    {
      SameLinks(t, t', handled, handled, x);
    }
  }

  // A directory all of whose elements are handled can go.
  lemma Freed(t: Tree, handled: set<Place>, f: int, t': Tree)
    requires CountsExact(t, handled, -1) && 0 <= f < |t.nodes| && t.nodes[f].refs == 0
    requires t.nodes[f].kind == Directory ==> forall a, i, x :: Names(t, f, a, i, x) ==> Place(f, a, i) in handled
    requires |t'.nodes| == |t'.listing| == |t.nodes| && t'.nodes == t.nodes[f := Inode(0, -1, Empty, 0)]
    requires forall d :: 0 <= d < |t.nodes| && d != f ==> t'.listing[d] == t.listing[d]
    ensures CountsExact(t', handled, -1)
    ensures forall x :: LinksTo(t', handled, x) == LinksTo(t, handled, x)
  {
    forall x
      ensures LinksTo(t', handled, x) == LinksTo(t, handled, x)
    {
      SameLinks(t, t', handled, handled, x);
    }
  }

  // A protected inode keeps its count above zero.
  lemma ProtectedStays(t: Tree, handled: set<Place>, kept: set<int>, x: int, owed: int)
    requires CountsExact(t, handled, owed) && Protected(t, handled, kept) && x in kept
    ensures 0 < t.nodes[x].refs && (x == owed ==> 1 < t.nodes[x].refs)
  {
  }

  // ----- after the removal -----

  // The element of the unlinked name is cleared; every other handled element belongs to
  // a directory that is gone.  Then the counts are exact with nothing left handled.
  lemma AllHandledGone(t: Tree, handled: set<Place>, p: Place, t': Tree)
    requires CountsExact(t, handled, -1) && p in handled
    requires forall q :: q in handled && q != p ==> 0 <= q.d < |t.nodes| && t.nodes[q.d].kind == Empty
    requires |t'.listing| == |t'.nodes| && t'.nodes == t.nodes
    requires forall d, a, i, x :: Names(t', d, a, i, x) <==> Names(t, d, a, i, x) && Place(d, a, i) != p
    ensures CountsExact(t', {}, -1)
  {
    forall x
      ensures LinksTo(t', {}, x) == LinksTo(t, handled, x)
    {
      SameLinks(t', t, {}, handled, x);
    }
  }

  // ----- acyclic trees -----

  // rank goes up along every link between inodes.
  ghost predicate Acyclic(t: Tree, rank: seq<nat>) {
    |rank| == |t.nodes| && forall d, a, i, x :: Names(t, d, a, i, x) && 0 <= x < |t.nodes| ==> rank[d] < rank[x]
  }

  ghost predicate FromRoot(t: Tree, x: int) {
    x == 0 || Reachable(t, 0, x)
  }

  // Without cycles, and with exact counts, an inode is in use if and only if it can be
  // reached from the root.
  lemma {:induction false} LiveIsReachable(t: Tree, rank: seq<nat>, x: int)
    requires Sound(t) && Acyclic(t, rank)
    requires 0 <= x < |t.nodes|
    ensures t.nodes[x].kind != Empty ==> FromRoot(t, x)
    decreases rank[x]
  {
    if t.nodes[x].kind != Empty && x != 0 {
      assert |LinksTo(t, {}, x)| > 0;
      var p := Pick(LinksTo(t, {}, x));
      assert Names(t, p.d, p.a, p.i, x);
      LiveIsReachable(t, rank, p.d);
      assert Succ(t, p.d, x);
      if p.d == 0 {
        SuccIsReachable(t, 0, x);
      } else {
        ReachableOneMore(t, 0, p.d, x);
      }
    }
  }

  lemma ReachableOneMore(t: Tree, d: int, y: int, x: int)
    requires Reachable(t, d, y) && Succ(t, y, x)
    ensures Reachable(t, d, x)
  {
    var n: nat :| 0 < n && Reaches(t, n, d, y);
    ReachesOneMore(t, n, d, y, x);
  }

  lemma {:induction false} ReachesOneMore(t: Tree, n: nat, d: int, y: int, x: int)
    requires Reaches(t, n, d, y) && Succ(t, y, x)
    ensures Reaches(t, n + 1, d, x)
  {
    if n == 0 {
      assert Reaches(t, 0, x, x);
    } else {
      var z :| Succ(t, d, z) && Reaches(t, n - 1, z, y);
      ReachesOneMore(t, n - 1, z, y, x);
    }
  }

  lemma NamedIsLive(t: Tree, d: int, a: int, i: int, x: int)
    requires Sound(t) && Names(t, d, a, i, x)
    ensures 0 <= x < |t.nodes| && t.nodes[x].kind != Empty
  {
    hide Names;
    assert Place(d, a, i) in LinksTo(t, {}, x);
    SubsetIsSmaller({Place(d, a, i)}, LinksTo(t, {}, x));
  }

  lemma {:induction false} ReachableIsLive(t: Tree, n: nat, d: int, x: int)
    requires Sound(t)
    requires 0 < n && Reaches(t, n, d, x)
    ensures 0 <= x < |t.nodes| && t.nodes[x].kind != Empty
  {
    hide Sound, Names;
    var y :| Succ(t, d, y) && Reaches(t, n - 1, y, x);
    if n == 1 {
      var a, i :| Names(t, d, a, i, x);
      NamedIsLive(t, d, a, i, x);
    } else {
      ReachableIsLive(t, n - 1, y, x);
    }
  }

  lemma LiveIffReachable(t: Tree, rank: seq<nat>, x: int)
    requires Sound(t) && Acyclic(t, rank)
    requires 0 <= x < |t.nodes|
    ensures t.nodes[x].kind != Empty <==> FromRoot(t, x)
  {
    LiveIsReachable(t, rank, x);
    if x == 0 {
      assert t.nodes[0].refs > 0;
    } else if Reachable(t, 0, x) {
      var n: nat :| 0 < n && Reaches(t, n, 0, x);
      ReachableIsLive(t, n, 0, x);
    }
  }
}
