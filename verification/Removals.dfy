// Removing an inode and what only it leads to: the bookkeeping of the recursion.
// handled holds the directory elements whose links have been taken off already, open
// the inodes whose removal is under way, and kept inodes that must survive.
module Removals {
  import opened Basics
  import opened Links
  import opened Disks
  import opened Directories
  import opened Trees
  import opened LinkCounts

  ghost predicate Settling(t: Tree, handled: set<Place>, open: set<int>, kept: set<int>, owed: int) {
    && CountsExact(t, handled, owed) && LiveHaveLinks(t, open) && NamesInRange(t)
    && HandledElsewhere(t, handled, open, kept) && Protected(t, handled, kept)
  }

  // Of the elements in use of directory f, just those before element i of block a have
  // been handled.
  ghost predicate HandledUpTo(t: Tree, f: int, a: int, i: int, handled: set<Place>) {
    forall a', i', x :: Names(t, f, a', i', x) ==>
      (Place(f, a', i') in handled <==> a' < a || (a' == a && i' < i))
  }

  // What a removal does to the disc: counts go down and inodes are freed with all their
  // blocks, and the elements handled on the way are those of freed directories, and
  // perhaps some of inode self.
  ghost predicate Removal(d: Disk, chains: seq<seq<int>>, handled: set<Place>, d': Disk, chains': seq<seq<int>>,
                          handled': set<Place>, self: int) {
    && OnlyFreed(d.nodes, d'.nodes) && d'.data == d.data && handled <= handled'
    && |chains'| == |chains| == |d.nodes|
    && (forall x :: 0 <= x < |chains| ==> chains'[x] == if d'.nodes[x].kind == Empty then [] else chains[x])
    && (forall p :: p in handled' && p !in handled ==>
          0 <= p.d < |d'.nodes| && (p.d == self || d'.nodes[p.d].kind == Empty))
  }

  // Only inode f and what can be reached from it is affected.
  ghost predicate Confined(t: Tree, f: int, was: seq<Inode>, now: seq<Inode>) {
    |now| == |was| && forall x :: 0 <= x < |was| && now[x] != was[x] ==> x == f || Reachable(t, f, x)
  }

  lemma NothingConfined(t: Tree, f: int, nodes: seq<Inode>)
    ensures Confined(t, f, nodes, nodes)
  {
  }

  lemma {:induction false} ReachesInMore(t: Tree, t': Tree, n: nat, d: int, x: int)
    requires forall e, a, i, y :: Names(t, e, a, i, y) ==> Names(t', e, a, i, y)
    requires Reaches(t, n, d, x)
    ensures Reaches(t', n, d, x)
  {
    if n > 0 {
      var y :| Succ(t, d, y) && Reaches(t, n - 1, y, x);
      ReachesInMore(t, t', n - 1, y, x);
      assert Succ(t', d, y);
    }
  }

  // What the removal of a successor y of f affects lies below f as well.
  lemma ConfinedToo(t: Tree, t1: Tree, f: int, y: int, was: seq<Inode>, mid: seq<Inode>, now: seq<Inode>)
    requires forall e, a, i, z :: Names(t1, e, a, i, z) ==> Names(t, e, a, i, z)
    requires Confined(t, f, was, mid) && Succ(t1, f, y) && Confined(t1, y, mid, now)
    ensures Confined(t, f, was, now)
  {
    assert Succ(t, f, y);
    SuccIsReachable(t, f, y);
    forall x | 0 <= x < |was| && now[x] != was[x]
      ensures x == f || Reachable(t, f, x)
    {
      if now[x] != mid[x] && x != y {
        var n: nat :| 0 < n && Reaches(t1, n, y, x);
        ReachesInMore(t1, t, n, y, x);
        ReachableThrough(t, f, y, x);
      }
    }
  }

  lemma NamesBeforeRemoval(d: Disk, chains: seq<seq<int>>, handled: set<Place>, d': Disk, chains': seq<seq<int>>,
                           handled': set<Place>, self: int)
    requires Removal(d, chains, handled, d', chains', handled', self) && InBlocks(d, chains) && InBlocks(d', chains')
    ensures var t, t' := TreeOf(d, chains), TreeOf(d', chains');
            forall e, a, i, y :: Names(t', e, a, i, y) ==> Names(t, e, a, i, y)
  {
  }

  lemma RemovalComposes(d: Disk, chains: seq<seq<int>>, handled: set<Place>, d1: Disk, chains1: seq<seq<int>>,
                        handled1: set<Place>, d2: Disk, chains2: seq<seq<int>>, handled2: set<Place>, p: Place)
    requires Removal(d, chains, handled, d1, chains1, handled1, p.d) && 0 <= p.d < |d.nodes|
    requires Removal(d1, chains1, handled1 + {p}, d2, chains2, handled2, -1)
    ensures Removal(d, chains, handled, d2, chains2, handled2, p.d)
  {
  }

  // Elsewhere the links stay as they are.
  lemma ListingsAfterRemoval(d: Disk, chains: seq<seq<int>>, handled: set<Place>, d': Disk, chains': seq<seq<int>>,
                             handled': set<Place>, self: int, x: int)
    requires Removal(d, chains, handled, d', chains', handled', self) && InBlocks(d, chains) && InBlocks(d', chains')
    requires 0 <= x < |d'.nodes| && d'.nodes[x].kind != Empty
    ensures |TreeOf(d, chains).listing| == |TreeOf(d', chains').listing| == |d.nodes| == |d'.nodes|
    ensures TreeOf(d', chains').listing[x] == TreeOf(d, chains).listing[x]
    ensures d'.nodes[x].kind == d.nodes[x].kind
  {
  }

  // The link that led here is taken off; with the last one gone the removal begins.
  lemma LinkTakenOff(t: Tree, handled: set<Place>, open: set<int>, kept: set<int>, f: int, t': Tree)
    requires Settling(t, handled, open, kept, f) && 0 <= f < |t.nodes| && 0 < t.nodes[f].refs
    requires t' == t.(nodes := t.nodes[f := t.nodes[f].(refs := t.nodes[f].refs - 1)])
    ensures t'.nodes[f].refs > 0 ==> Settling(t', handled, open, kept, -1)
    ensures t'.nodes[f].refs == 0 ==> Settling(t', handled, open + {f}, kept, -1) && HandledUpTo(t', f, 0, 0, handled)
    ensures f !in open && (t'.nodes[f].refs == 0 ==> f != 0)
  {
    hide CountsExact, Protected, Names;
    RootIsKept(t, handled, kept);
    DebtSettled(t, handled, f, t');
    if f in kept { ProtectedStays(t, handled, kept, f, f); }
    KindsAreSame(t, handled, kept, t');
    NamesAreSame(t, t');
    if t'.nodes[f].refs == 0 { NoneHandled(t', f, handled, open, kept); }
  }

  lemma RootIsKept(t: Tree, handled: set<Place>, kept: set<int>)
    requires Protected(t, handled, kept)
    ensures 0 in kept
  {
  }

  lemma NamesAreSame(t: Tree, t': Tree)
    requires t'.listing == t.listing && |t'.nodes| == |t.nodes|
    requires forall x :: 0 <= x < |t.nodes| ==> t'.nodes[x].kind == t.nodes[x].kind
    ensures NamesInRange(t) ==> NamesInRange(t')
  {
    if NamesInRange(t) {
      forall d, a, i, x | Names(t', d, a, i, x)
        ensures 0 <= x < |t'.nodes|
      {
        assert Names(t, d, a, i, x);
      }
    }
  }

  lemma NoneHandled(t: Tree, f: int, handled: set<Place>, open: set<int>, kept: set<int>)
    requires HandledElsewhere(t, handled, open, kept) && f !in kept && f !in open
    ensures HandledUpTo(t, f, 0, 0, handled) || (0 <= f < |t.nodes| && t.nodes[f].kind == Empty)
  {
  }

  lemma KindsAreSame(t: Tree, handled: set<Place>, kept: set<int>, t': Tree)
    requires Protected(t, handled, kept) && t'.listing == t.listing && |t'.nodes| == |t.nodes|
    requires forall x :: 0 <= x < |t.nodes| ==> t'.nodes[x].kind == t.nodes[x].kind
    ensures Protected(t', handled, kept)
  {
  }

  lemma NotKept(t: Tree, handled: set<Place>, open: set<int>, kept: set<int>, f: int, owed: int)
    requires Settling(t, handled, open, kept, owed) && f in open && 0 <= f < |t.nodes|
    ensures f !in kept
  {
  }

  // The next element of a directory under removal is handled: its inode's count owes one.
  lemma ElementHandled(t: Tree, handled: set<Place>, open: set<int>, kept: set<int>, f: int, a: int, i: int, y: int)
    requires Settling(t, handled, open, kept, -1) && f in open
    requires HandledUpTo(t, f, a, i, handled) && Names(t, f, a, i, y)
    ensures 0 <= y < |t.nodes| && Settling(t, handled + {Place(f, a, i)}, open, kept, y)
  {
    hide CountsExact, Protected, LiveHaveLinks;
    var p := Place(f, a, i);
    HandledOneMore(t, handled, p, y);
    NotKept(t, handled, open, kept, f, -1);
    ProtectionAside(t, handled, kept, p);
  }

  lemma ProtectionAside(t: Tree, handled: set<Place>, kept: set<int>, p: Place)
    requires Protected(t, handled, kept) && p.d !in kept
    ensures Protected(t, handled + {p}, kept)
  {
  }

  // The removal of that inode handles no element of a directory still standing.
  lemma StillHandledUpTo(d: Disk, chains: seq<seq<int>>, handled: set<Place>, d': Disk, chains': seq<seq<int>>,
                         handled': set<Place>, f: int, a: int, i: int)
    requires InBlocks(d, chains) && InBlocks(d', chains') && 0 <= f < |d'.nodes| && d'.nodes[f].kind != Empty
    requires HandledUpTo(TreeOf(d, chains), f, a, i, handled)
    requires Removal(d, chains, handled + {Place(f, a, i)}, d', chains', handled', -1)
    ensures HandledUpTo(TreeOf(d', chains'), f, a, i + 1, handled')
  {
    var h := handled + {Place(f, a, i)};
    ListingsAfterRemoval(d, chains, h, d', chains', handled', -1, f);
    var t, t' := TreeOf(d, chains), TreeOf(d', chains');
    forall a', i', x | Names(t', f, a', i', x)
      ensures Place(f, a', i') in handled' <==> a' < a || (a' == a && i' < i + 1)
    {
      assert Names(t, f, a', i', x);
    }
  }

  // An inode with no link left, and no element left to handle, is freed.
  lemma FreeingSettles(t: Tree, handled: set<Place>, open: set<int>, kept: set<int>, f: int, t': Tree)
    requires Settling(t, handled, open + {f}, kept, -1) && f !in open && 0 <= f < |t.nodes|
    requires forall a, i, x :: Names(t, f, a, i, x) ==> Place(f, a, i) in handled
    requires |t'.nodes| == |t'.listing| == |t.nodes| && t'.nodes == t.nodes[f := Inode(0, NIL, Empty, 0)]
    requires forall x :: 0 <= x < |t.nodes| && x != f ==> t'.listing[x] == t.listing[x]
    ensures Settling(t', handled, open, kept, -1)
  {
    hide CountsExact, Protected, Names, LiveHaveLinks, HandledElsewhere, NamesInRange;
    OpenHaveNoLink(t, handled, open + {f}, f);
    Freed(t, handled, f, t');
    NotKept(t, handled, open + {f}, kept, f, -1);
    ProtectionKeptBut(t, handled, kept, f, t');
    FreeingKeepsRest(t, handled, open, kept, f, t');
  }

  lemma FreeingKeepsRest(t: Tree, handled: set<Place>, open: set<int>, kept: set<int>, f: int, t': Tree)
    requires LiveHaveLinks(t, open + {f}) && NamesInRange(t) && HandledElsewhere(t, handled, open + {f}, kept)
    requires f !in open && 0 <= f < |t.nodes|
    requires |t'.nodes| == |t'.listing| == |t.nodes| && t'.nodes == t.nodes[f := Inode(0, NIL, Empty, 0)]
    requires forall x :: 0 <= x < |t.nodes| && x != f ==> t'.listing[x] == t.listing[x]
    ensures LiveHaveLinks(t', open) && NamesInRange(t') && HandledElsewhere(t', handled, open, kept)
  {
    forall d, a, i, x | Names(t', d, a, i, x)
      ensures 0 <= x < |t'.nodes|
    {
      assert Names(t, d, a, i, x);
    }
  }

  lemma OpenHaveNoLink(t: Tree, handled: set<Place>, open: set<int>, f: int)
    requires LiveHaveLinks(t, open) && f in open && 0 <= f < |t.nodes|
    ensures t.nodes[f].refs == 0
  {
  }

  lemma ProtectionKeptBut(t: Tree, handled: set<Place>, kept: set<int>, f: int, t': Tree)
    requires Protected(t, handled, kept) && f !in kept && |t'.nodes| == |t'.listing| == |t.nodes|
    requires forall x :: 0 <= x < |t.nodes| && x != f ==> t'.listing[x] == t.listing[x] && t'.nodes[x] == t.nodes[x]
    ensures Protected(t', handled, kept)
  {
  }

  lemma RemovalEnds(d: Disk, chains: seq<seq<int>>, handled: set<Place>, d1: Disk, chains1: seq<seq<int>>,
                    handled1: set<Place>, f: int, d': Disk)
    requires Removal(d, chains, handled, d1, chains1, handled1, f) && 0 <= f < |d1.nodes|
    requires d'.data == d1.data && d'.nodes == d1.nodes[f := Inode(0, NIL, Empty, 0)]
    ensures Removal(d, chains, handled, d', chains1[f := []], handled1, -1)
  {
  }

  // A removal seen from before the link to f was taken off.
  lemma RemovalFromBefore(d: Disk, chains: seq<seq<int>>, handled: set<Place>, f: int, d1: Disk, d': Disk,
                          chains': seq<seq<int>>, handled': set<Place>, self: int)
    requires 0 <= f < |d.nodes| && 0 < d.nodes[f].refs
    requires d1 == d.(nodes := d.nodes[f := d.nodes[f].(refs := d.nodes[f].refs - 1)])
    requires Removal(d1, chains, handled, d', chains', handled', self)
    ensures Removal(d, chains, handled, d', chains', handled', self)
  {
  }

  lemma NothingRemoved(d: Disk, chains: seq<seq<int>>, handled: set<Place>, self: int)
    requires WellFormed(d, chains, NIL)
    ensures Removal(d, chains, handled, d, chains, handled, self)
  {
  }

  // Another link is left: the one taken off is all that changes.
  lemma LinkOnlyTakenOff(d: Disk, chains: seq<seq<int>>, handled: set<Place>, f: int, d1: Disk)
    requires WellFormed(d, chains, NIL) && InBlocks(d, chains) && 0 <= f < |d.nodes| && 0 < d.nodes[f].refs
    requires d1 == d.(nodes := d.nodes[f := d.nodes[f].(refs := d.nodes[f].refs - 1)])
    ensures Removal(d, chains, handled, d1, chains, handled, -1)
    ensures Confined(TreeOf(d, chains), f, d.nodes, d1.nodes)
    ensures FreedInTurn(d, chains, handled, d1.nodes, -1, [])
  {
    hide WellFormed;
    NothingRemoved(d, chains, handled, -1);
    NothingFreed(d, chains, handled, d1.nodes, -1);
  }

  // Removing the elements of directory f, up to element i of block a.
  ghost predicate Removing(d0: Disk, chains0: seq<seq<int>>, handled0: set<Place>, d: Disk, chains: seq<seq<int>>,
                           handled: set<Place>, f: int, a: int, i: int, open: set<int>, kept: set<int>) {
    && InBlocks(d, chains) && 0 <= f < |d.nodes| && f in open && d.nodes[f].kind == Directory
    && Settling(TreeOf(d, chains), handled, open, kept, -1)
    && HandledUpTo(TreeOf(d, chains), f, a, i, handled)
    && Removal(d0, chains0, handled0, d, chains, handled, f)
    && |chains0| == |chains| && chains[f] == chains0[f]
    && InBlocks(d0, chains0) && Confined(TreeOf(d0, chains0), f, d0.nodes, d.nodes)
  }

  lemma UnusedIsHandled(t: Tree, f: int, a: int, i: int, handled: set<Place>)
    requires HandledUpTo(t, f, a, i, handled) && IsPlace(t, f, a, i) && t.listing[f][a][i].used == 0
    ensures HandledUpTo(t, f, a, i + 1, handled)
  {
  }

  // One more element of f has been removed.
  lemma OneMoreRemoved(d0: Disk, chains0: seq<seq<int>>, handled0: set<Place>, d: Disk, chains: seq<seq<int>>,
                       handled: set<Place>, d': Disk, chains': seq<seq<int>>, handled': set<Place>, f: int, a: int,
                       i: int, y: int, open: set<int>, kept: set<int>)
    requires Removing(d0, chains0, handled0, d, chains, handled, f, a, i, open, kept)
    requires Names(TreeOf(d, chains), f, a, i, y) && Confined(TreeOf(d, chains), y, d.nodes, d'.nodes)
    requires InBlocks(d', chains') && Settling(TreeOf(d', chains'), handled', open, kept, -1)
    requires Removal(d, chains, handled + {Place(f, a, i)}, d', chains', handled', -1)
    ensures Removing(d0, chains0, handled0, d', chains', handled', f, a, i + 1, open, kept)
  {
    hide InBlocks, HandledUpTo, CountsExact, NamesInRange, HandledElsewhere, Protected, Confined, Removal, Names;
    NamesBeforeRemoval(d0, chains0, handled0, d, chains, handled, f);
    assert Succ(TreeOf(d, chains), f, y);
    ConfinedToo(TreeOf(d0, chains0), TreeOf(d, chains), f, y, d0.nodes, d.nodes, d'.nodes);
    RemovalBounds(d0, chains0, handled0, d, chains, handled, f);
    RemovalBounds(d, chains, handled + {Place(f, a, i)}, d', chains', handled', -1);
    RemovalComposes(d0, chains0, handled0, d, chains, handled, d', chains', handled', Place(f, a, i));
    OpenStands(TreeOf(d', chains'), open, f);
    ListingsAfterRemoval(d, chains, handled + {Place(f, a, i)}, d', chains', handled', -1, f);
    StillHandledUpTo(d, chains, handled, d', chains', handled', f, a, i);
  }

  lemma OpenStands(t: Tree, open: set<int>, f: int)
    requires LiveHaveLinks(t, open) && f in open && 0 <= f < |t.nodes|
    ensures t.nodes[f].kind != Empty
  {
  }

  lemma RemovalLowersRefs(d: Disk, chains: seq<seq<int>>, handled: set<Place>, d': Disk, chains': seq<seq<int>>,
                          handled': set<Place>, self: int)
    requires Removal(d, chains, handled, d', chains', handled', self)
    ensures SumRefs(d'.nodes) <= SumRefs(d.nodes)
  {
    SumRefsLower(d.nodes, d'.nodes);
  }

  // Counts play no part in the chains.
  lemma RefsKeepWellFormed(d: Disk, chains: seq<seq<int>>, f: int, refs: nat, d': Disk)
    requires WellFormed(d, chains, NIL) && SizesFit(d, chains) && 0 <= f < |d.nodes|
    requires d' == d.(nodes := d.nodes[f := d.nodes[f].(refs := refs)])
    ensures WellFormed(d', chains, NIL) && SizesFit(d', chains)
    ensures InBlocks(d, chains) && InBlocks(d', chains)
    ensures TreeOf(d', chains) == TreeOf(d, chains).(nodes := d'.nodes)
  {
  }

  // A freed inode gives back its whole chain.
  lemma FreeingKeepsWellFormed(d: Disk, chains: seq<seq<int>>, f: int, d': Disk)
    requires WellFormed(d, chains, NIL) && SizesFit(d, chains) && 0 <= f < |d.nodes| && |chains| == |d.nodes|
    requires Cleared(d.used, d.next, chains[f], d'.used, d'.next) && d'.data == d.data
    requires d'.nodes == d.nodes[f := Inode(0, NIL, Empty, 0)]
    ensures WellFormed(d', chains[f := []], NIL) && SizesFit(d', chains[f := []])
    ensures InBlocks(d, chains) && InBlocks(d', chains[f := []])
    ensures var t, t' := TreeOf(d, chains), TreeOf(d', chains[f := []]);
            forall x :: 0 <= x < |d.nodes| && x != f ==> t'.listing[x] == t.listing[x]
  {
    hide Linked, Owned;
    assert chains[f][0..] == chains[f] && chains[f][..0] == [];
    CuttingKeepsWellFormed(d, chains, f, 0, d');
    ChainsInBlocks(d, chains);
    ChainsInBlocks(d', chains[f := []]);
  }

  lemma CountIsOwedTo(t: Tree, handled: set<Place>, open: set<int>, kept: set<int>, f: int)
    requires Settling(t, handled, open, kept, f) && 0 <= f < |t.nodes|
    ensures 0 < t.nodes[f].refs
  {
  }

  // Freeing f, and taking the link off it before, affects f only.
  lemma StaysConfined(t: Tree, t1: Tree, f: int, was: seq<Inode>, taken: seq<Inode>, mid: seq<Inode>, now: seq<Inode>)
    requires forall e, a, i, z :: Names(t1, e, a, i, z) ==> Names(t, e, a, i, z)
    requires Confined(t1, f, taken, mid) && |was| == |taken| && |now| == |mid|
    requires forall x :: 0 <= x < |was| && x != f ==> was[x] == taken[x] && now[x] == mid[x]
    ensures Confined(t, f, was, now)
  {
    forall x | 0 <= x < |was| && now[x] != was[x]
      ensures x == f || Reachable(t, f, x)
    {
      if x != f {
        var n: nat :| 0 < n && Reaches(t1, n, f, x);
        ReachesInMore(t1, t, n, f, x);
      }
    }
  }

  lemma StartsRemoving(d: Disk, chains: seq<seq<int>>, handled: set<Place>, f: int, open: set<int>, kept: set<int>)
    requires WellFormed(d, chains, NIL) && InBlocks(d, chains) && 0 <= f < |d.nodes| && f in open
    requires d.nodes[f].kind == Directory && Settling(TreeOf(d, chains), handled, open, kept, -1)
    requires HandledUpTo(TreeOf(d, chains), f, 0, 0, handled)
    ensures Removing(d, chains, handled, d, chains, handled, f, 0, 0, open, kept)
  {
  }

  lemma RemovingBounds(d0: Disk, chains0: seq<seq<int>>, handled0: set<Place>, d: Disk, chains: seq<seq<int>>,
                       handled: set<Place>, f: int, a: int, i: int, open: set<int>, kept: set<int>)
    requires Removing(d0, chains0, handled0, d, chains, handled, f, a, i, open, kept)
    ensures 0 <= f < |d.nodes| == |d0.nodes| == |chains0| == |chains| && chains[f] == chains0[f]
    ensures SumRefs(d.nodes) <= SumRefs(d0.nodes)
  {
    hide Settling, HandledUpTo, Removal;
    RemovalLowersRefs(d0, chains0, handled0, d, chains, handled, f);
    RemovalBounds(d0, chains0, handled0, d, chains, handled, f);
  }

  lemma RemovalBounds(d: Disk, chains: seq<seq<int>>, handled: set<Place>, d': Disk, chains': seq<seq<int>>,
                      handled': set<Place>, self: int)
    requires Removal(d, chains, handled, d', chains', handled', self)
    ensures |d.nodes| == |d'.nodes| == |chains| == |chains'|
  {
  }

  lemma BlockRemoved(d0: Disk, chains0: seq<seq<int>>, handled0: set<Place>, d: Disk, chains: seq<seq<int>>,
                     handled: set<Place>, f: int, a: nat, open: set<int>, kept: set<int>)
    requires Removing(d0, chains0, handled0, d, chains, handled, f, a, PER_BLOCK, open, kept)
    requires 0 <= f < |chains| && a < |chains[f]|
    ensures Removing(d0, chains0, handled0, d, chains, handled, f, a + 1, 0, open, kept)
    ensures 0 <= f < |d.nodes| && chains[f] == chains0[f]
  {
  }

  lemma ElementsAreHandled(d0: Disk, chains0: seq<seq<int>>, handled0: set<Place>, d: Disk, chains: seq<seq<int>>,
                           handled: set<Place>, f: int, open: set<int>, kept: set<int>)
    requires 0 <= f < |chains0| && InBlocks(d, chains) && InBlocks(d0, chains0)
    requires || Removing(d0, chains0, handled0, d, chains, handled, f, |chains0[f]|, 0, open, kept)
             || (0 <= f < |d.nodes| && d.nodes[f].kind != Directory)
    ensures 0 <= f < |d.nodes|
    ensures forall a, i, x :: Names(TreeOf(d, chains), f, a, i, x) ==> Place(f, a, i) in handled
    ensures Removing(d0, chains0, handled0, d, chains, handled, f, |chains0[f]|, 0, open, kept) ==>
      && Settling(TreeOf(d, chains), handled, open, kept, -1) && Removal(d0, chains0, handled0, d, chains, handled, f)
      && Confined(TreeOf(d0, chains0), f, d0.nodes, d.nodes)
  {
  }

  // ----- what is freed -----

  ghost predicate FreedExactly(was: seq<Inode>, now: seq<Inode>, freed: seq<int>) {
    |now| == |was| && forall x :: x in freed <==> 0 <= x < |was| && was[x].kind != Empty && now[x].kind == Empty
  }

  // Each inode freed had lost every link when its turn came: those not handled beforehand
  // were elements of directory self, or of a directory whose turn came before.
  ghost predicate LosesAll(t: Tree, handled: set<Place>, self: int, freed: seq<int>) {
    |t.listing| == |t.nodes| && forall k: nat, p :: k < |freed| && p in LinksTo(t, handled, freed[k]) ==>
      p.d == self || p.d in freed[..k]
  }

  ghost predicate FreedInTurn(d: Disk, chains: seq<seq<int>>, handled: set<Place>, now: seq<Inode>, self: int,
                              freed: seq<int>) {
    InBlocks(d, chains) && FreedExactly(d.nodes, now, freed) && LosesAll(TreeOf(d, chains), handled, self, freed)
  }

  lemma NothingFreed(d: Disk, chains: seq<seq<int>>, handled: set<Place>, now: seq<Inode>, self: int)
    requires InBlocks(d, chains) && |now| == |d.nodes| && forall x :: 0 <= x < |now| ==> now[x].kind == d.nodes[x].kind
    ensures FreedInTurn(d, chains, handled, now, self, [])
  {
  }

  // An element handled since, or gone since, belonged to directory f or to one freed since.
  lemma LinkWentBefore(d0: Disk, chains0: seq<seq<int>>, handled0: set<Place>, d: Disk, chains: seq<seq<int>>,
                       handled: set<Place>, f: int, freed: seq<int>, x: int, p: Place, q: Place)
    requires InBlocks(d0, chains0) && InBlocks(d, chains) && Removal(d0, chains0, handled0, d, chains, handled, f)
    requires FreedExactly(d0.nodes, d.nodes, freed) && q.d == f
    requires p in LinksTo(TreeOf(d0, chains0), handled0, x)
    ensures p in LinksTo(TreeOf(d, chains), handled + {q}, x) || p.d == f || p.d in freed
  {
  }

  lemma FreedFurther(d0: Disk, chains0: seq<seq<int>>, handled0: set<Place>, d: Disk, chains: seq<seq<int>>,
                     handled: set<Place>, f: int, freed: seq<int>, q: Place, now: seq<Inode>, more: seq<int>)
    requires Removal(d0, chains0, handled0, d, chains, handled, f) && OnlyFreed(d.nodes, now) && q.d == f
    requires FreedInTurn(d0, chains0, handled0, d.nodes, f, freed)
    requires FreedInTurn(d, chains, handled + {q}, now, -1, more)
    ensures FreedInTurn(d0, chains0, handled0, now, f, freed + more)
  {
    hide InBlocks;
    FreedAltogether(d0.nodes, d.nodes, now, freed, more);
    hide FreedExactly;
    var t0, all := TreeOf(d0, chains0), freed + more;
    forall k: nat, p | k < |all| && p in LinksTo(t0, handled0, all[k])
      ensures p.d == f || p.d in all[..k]
    {
      if k < |freed| {
        assert all[..k] == freed[..k];
      } else {
        assert all[..k] == freed + more[..k - |freed|] && all[k] == more[k - |freed|];
        LinkWentBefore(d0, chains0, handled0, d, chains, handled, f, freed, all[k], p, q);
      }
    }
  }

  lemma FreedAltogether(was: seq<Inode>, mid: seq<Inode>, now: seq<Inode>, freed: seq<int>, more: seq<int>)
    requires OnlyFreed(was, mid) && OnlyFreed(mid, now) && FreedExactly(was, mid, freed) && FreedExactly(mid, now, more)
    ensures FreedExactly(was, now, freed + more)
  {
  }

  // Inode f itself, whose last link was handled beforehand, comes first.
  lemma FreedFirst(d: Disk, chains: seq<seq<int>>, handled: set<Place>, f: int, d1: Disk, mid: seq<Inode>,
                   below: seq<int>)
    requires InBlocks(d, chains) && 0 <= f < |d.nodes| && d.nodes[f].kind != Empty
    requires CountsExact(TreeOf(d, chains), handled, f) && d.nodes[f].refs == 1
    requires d1 == d.(nodes := d.nodes[f := d.nodes[f].(refs := 0)])
    requires FreedInTurn(d1, chains, handled, mid, f, below) && mid[f].kind != Empty
    ensures FreedInTurn(d, chains, handled, mid[f := Inode(0, NIL, Empty, 0)], -1, [f] + below)
  {
    var t, t1, all := TreeOf(d, chains), TreeOf(d1, chains), [f] + below;
    assert t.nodes[f].refs == |LinksTo(t, handled, f)| + Bit(f == 0) + Bit(f == f);
    assert |LinksTo(t, handled, f)| == 0;
    hide CountsExact, InBlocks;
    forall k: nat, p | k < |all| && p in LinksTo(t, handled, all[k])
      ensures p.d in all[..k]
    {
      assert k > 0;
      assert all[..k] == [f] + below[..k - 1] && all[k] == below[k - 1];
      assert p in LinksTo(t1, handled, below[k - 1]);
    }
  }

  lemma LastLinkHandled(d: Disk, chains: seq<seq<int>>, handled: set<Place>, f: int, d1: Disk, open: set<int>,
                        kept: set<int>, mid: Disk, chains': seq<seq<int>>, handled': set<Place>, below: seq<int>)
    requires InBlocks(d, chains) && 0 <= f < |d.nodes| && Settling(TreeOf(d, chains), handled, open, kept, f)
    requires d.nodes[f].refs == 1 && d1 == d.(nodes := d.nodes[f := d.nodes[f].(refs := 0)])
    requires FreedInTurn(d1, chains, handled, mid.nodes, f, below) && InBlocks(mid, chains') && |mid.nodes| == |d.nodes|
    requires Settling(TreeOf(mid, chains'), handled', open + {f}, kept, -1)
    ensures FreedInTurn(d, chains, handled, mid.nodes[f := Inode(0, NIL, Empty, 0)], -1, [f] + below)
  {
    hide CountsExact, FreedInTurn, Protected, HandledElsewhere, NamesInRange;
    assert d.nodes[f].kind != Empty;
    OpenStands(TreeOf(mid, chains'), open + {f}, f);
    FreedFirst(d, chains, handled, f, d1, mid.nodes, below);
  }

  lemma OnlyFreedBy(d: Disk, chains: seq<seq<int>>, handled: set<Place>, d': Disk, chains': seq<seq<int>>,
                    handled': set<Place>, self: int)
    requires Removal(d, chains, handled, d', chains', handled', self)
    ensures OnlyFreed(d.nodes, d'.nodes)
  {
  }

  // x, other than the root, goes with s if all its links come from s, but for the one at.
  ghost predicate HoldsWhatItCutsOff(t: Tree, at: Place, s: set<int>) {
    |t.listing| == |t.nodes| && forall x :: 0 < x < |t.nodes| && CutOff(t, at, s, x) ==> x in s
  }

  ghost predicate CutOff(t: Tree, at: Place, s: set<int>, x: int)
    requires 0 <= x < |t.nodes| == |t.listing|
  {
    t.nodes[x].kind != Empty && forall p :: p in LinksTo(t, {at}, x) ==> p.d in s
  }

  // What has lost its last link is freed.
  lemma FreedIsClosed(t: Tree, at: Place, t': Tree, handled: set<Place>, freed: seq<int>)
    requires |t.listing| == |t.nodes| && FreedExactly(t.nodes, t'.nodes, freed)
    requires CountsExact(t', handled, -1) && LiveHaveLinks(t', {}) && at in handled
    requires forall e, a, i, y :: Names(t', e, a, i, y) ==> Names(t, e, a, i, y)
    ensures HoldsWhatItCutsOff(t, at, Values(freed))
  {
    forall x | 0 < x < |t.nodes| && t.nodes[x].kind != Empty && x !in freed
      ensures exists p :: p in LinksTo(t, {at}, x) && p.d !in freed
    {
      assert t'.nodes[x].refs == |LinksTo(t', handled, x)| + Bit(x == 0) + Bit(x == -1);
      var p := Pick(LinksTo(t', handled, x));
      assert Names(t', p.d, p.a, p.i, x);
      assert p in LinksTo(t, {at}, x);
    }
  }

  // With the element at gone, freed lists the least set that holds whatever it cuts off.
  ghost predicate LeastCutOff(t: Tree, at: Place, freed: seq<int>) {
    && HoldsWhatItCutsOff(t, at, Values(freed))
    && forall s: set<int> :: HoldsWhatItCutsOff(t, at, s) ==> Values(freed) <= s
  }

  lemma FreedIsCutOff(d: Disk, chains: seq<seq<int>>, at: Place, d': Disk, chains': seq<seq<int>>,
                      handled: set<Place>, freed: seq<int>)
    requires FreedInTurn(d, chains, {at}, d'.nodes, -1, freed) && InBlocks(d', chains')
    requires 0 < |d.nodes| && d'.nodes[0].kind != Empty && Removal(d, chains, {at}, d', chains', handled, -1)
    requires CountsExact(TreeOf(d', chains'), handled, -1) && LiveHaveLinks(TreeOf(d', chains'), {}) && at in handled
    ensures LeastCutOff(TreeOf(d, chains), at, freed)
  {
    var t, t' := TreeOf(d, chains), TreeOf(d', chains');
    NamesBeforeRemoval(d, chains, {at}, d', chains', handled, -1);
    FreedIsClosed(t, at, t', handled, freed);
    hide HoldsWhatItCutsOff, CountsExact, LiveHaveLinks, Removal;
    forall s: set<int> | HoldsWhatItCutsOff(t, at, s)
      ensures Values(freed) <= s
    {
      assert forall j :: 0 <= j < |freed| ==> freed[j] in freed;
      FreedIsLeast(t, at, freed, s, |freed|);
    }
  }

  // The inodes freed are the least set that holds whatever it cuts off.
  lemma {:induction false} FreedIsLeast(t: Tree, at: Place, freed: seq<int>, s: set<int>, k: nat)
    requires LosesAll(t, {at}, -1, freed) && HoldsWhatItCutsOff(t, at, s) && k <= |freed|
    requires forall j :: 0 <= j < |freed| ==> 0 < freed[j] < |t.nodes| && t.nodes[freed[j]].kind != Empty
    ensures forall j :: 0 <= j < k ==> freed[j] in s
  {
    if k > 0 {
      FreedIsLeast(t, at, freed, s, k - 1);
      forall p | p in LinksTo(t, {at}, freed[k - 1])
        ensures p.d in s
      {
        assert p.d in freed[..k - 1];
      }
    }
  }

  // ----- unlinking -----

  // The element at, the first of directory dir found under the name, has been cleared, one
  // link is off the count of its inode f, and what lost its last link is freed.
  ghost predicate Unlinked(d: Disk, chains: seq<seq<int>>, dir: int, name: seq<Byte>, at: Place, f: int, d': Disk,
                           chains': seq<seq<int>>) {
    && InBlocks(d, chains) && at.d == dir && FirstMatch(TreeOf(d, chains), dir, name, at.a, at.i)
    && TreeOf(d, chains).listing[dir][at.a][at.i].id == f
    && OnlyFreed(d.nodes, d'.nodes) && Confined(TreeOf(d, chains), f, d.nodes, d'.nodes)
    && 0 <= f < |d.nodes| == |chains| == |chains'|
    && d'.nodes[f] == (if d.nodes[f].refs <= 1 then Inode(0, NIL, Empty, 0)
                           else d.nodes[f].(refs := d.nodes[f].refs - 1))
    && (forall x :: 0 <= x < |chains| ==> chains'[x] == if d'.nodes[x].kind == Empty then [] else chains[x])
    && var block := chains[dir][at.a]; d'.data == d.data[block := ClearEntry(d.data[block], at.i)]
  }

  lemma FoundIsNamed(d: Disk, chains: seq<seq<int>>, dir: int, name: seq<Byte>, a: int, i: int)
    requires InBlocks(d, chains) && FirstMatch(TreeOf(d, chains), dir, name, a, i)
    ensures 0 <= dir < |d.nodes| == |chains| && d.nodes[dir].kind == Directory && 0 <= a < |chains[dir]|
    ensures 0 <= i < PER_BLOCK
    ensures 0 <= chains[dir][a] < |d.data| && |d.data[chains[dir][a]]| == BLOCK_SIZE
    ensures TreeOf(d, chains).listing[dir][a][i] == EntryAt(d.data[chains[dir][a]], i)
    ensures Names(TreeOf(d, chains), dir, a, i, EntryAt(d.data[chains[dir][a]], i).id)
  {
  }

  lemma NamedIsInRange(t: Tree, dir: int, a: int, i: int, x: int)
    requires NamesInRange(t) && Names(t, dir, a, i, x)
    ensures 0 <= x < |t.nodes|
  {
  }

  // The directories on the way to at survive its removal: each has a link from the one
  // before, and none of these links is the one taken off.
  lemma StartsUnlinking(t: Tree, path: seq<seq<Byte>>, trail: seq<int>, places: seq<Place>, at: Place,
                        name: seq<Byte>, f: int)
    returns (kept: set<int>)
    requires Sound(t)
    requires Leads(t, path, trail, places) && at.d == trail[|places|] && Names(t, at.d, at.a, at.i, f)
    ensures Settling(t, {at}, {}, kept, f) && at.d in kept && 0 <= f < |t.nodes|
  {
    hide CountsExact, LiveHaveLinks;
    var k := 0;
    while trail[k] != at.d
      invariant 0 <= k < |trail| && forall j :: 0 <= j < k ==> trail[j] != at.d
      decreases |trail| - k
    {
      k := k + 1;
    }
    kept := set j | 0 <= j <= k :: trail[j];
    assert trail[0] in kept && trail[k] in kept;
    forall x | x in kept
      ensures 0 <= x < |t.nodes|
      ensures x != 0 ==> exists p :: p in LinksTo(t, {at}, x) && p.d in kept
    {
      var j :| 0 <= j <= k && trail[j] == x;
      if j > 0 {
        var p := places[j - 1];
        assert StepsTo(t, trail[j - 1], path[j - 1], p, trail[j - 1 + 1]);
        assert Names(t, p.d, p.a, p.i, x);
        assert trail[j - 1] in kept;
        assert p in LinksTo(t, {at}, x);
      }
    }
    HandledOneMore(t, {}, at, f);
    assert {} + {at} == {at};
  }

  // The directory itself is still there afterwards, with the same elements.
  lemma StillFound(d: Disk, chains: seq<seq<int>>, name: seq<Byte>, at: Place, d1: Disk, chains1: seq<seq<int>>,
                   handled: set<Place>, kept: set<int>)
    requires InBlocks(d, chains) && InBlocks(d1, chains1) && FirstMatch(TreeOf(d, chains), at.d, name, at.a, at.i)
    requires Removal(d, chains, {at}, d1, chains1, handled, -1) && at.d in kept
    requires Settling(TreeOf(d1, chains1), handled, {}, kept, -1)
    ensures FirstMatch(TreeOf(d1, chains1), at.d, name, at.a, at.i)
    ensures TreeOf(d1, chains1).listing[at.d] == TreeOf(d, chains).listing[at.d]
    ensures d1.nodes[at.d].kind == d.nodes[at.d].kind
    ensures chains1[at.d] == chains[at.d]
  {
    hide InBlocks, HandledElsewhere, NamesInRange, CountsExact;
    KeptStands(TreeOf(d1, chains1), handled, kept, at.d);
    ListingsAfterRemoval(d, chains, {at}, d1, chains1, handled, -1, at.d);
  }

  lemma KeptStands(t: Tree, handled: set<Place>, kept: set<int>, x: int)
    requires Settling(t, handled, {}, kept, -1) && x in kept
    ensures 0 <= x < |t.nodes| && t.nodes[x].kind != Empty
  {
  }

  lemma MatchIsUnique(t: Tree, dir: int, name: seq<Byte>, a: int, i: int)
    requires FirstMatch(t, dir, name, a, i)
    ensures !NoMatch(t, dir, name)
    ensures forall a', i' :: FirstMatch(t, dir, name, a', i') ==> a' == a && i' == i
  {
  }

  // Clearing one element of a directory.
  lemma ClearedGraph(d: Disk, chains: seq<seq<int>>, dir: int, a: nat, i: nat, d': Disk)
    requires WellFormed(d, chains, NIL) && SizesFit(d, chains) && 0 <= dir < |d.nodes| == |chains|
    requires d.nodes[dir].kind == Directory
    requires a < |chains[dir]| && i < PER_BLOCK
    requires var b := chains[dir][a];
             0 <= b < |d.data| && |d.data[b]| == BLOCK_SIZE && d' == d.(data := d.data[b := ClearEntry(d.data[b], i)])
    ensures WellFormed(d', chains, NIL) && SizesFit(d', chains) && InBlocks(d, chains) && InBlocks(d', chains)
    ensures forall x, a', i', y :: Names(TreeOf(d', chains), x, a', i', y)
                              <==> Names(TreeOf(d, chains), x, a', i', y) && Place(x, a', i') != Place(dir, a, i)
  {
    hide Linked, Owned, WellFormed, ClearEntry;
    var b := chains[dir][a];
    assert d.nodes[dir := d.nodes[dir].(size := d.nodes[dir].size)] == d.nodes;
    RewritingKeepsWellFormed(d, chains, dir, b, d'.data[b], d.nodes[dir].size, d');
    ChainsInBlocks(d, chains);
    ChainsInBlocks(d', chains);
    BlockIsUnshared(d, chains, dir, b);
    ChainIsLinked(d, chains, dir);
    var t, t' := TreeOf(d, chains), TreeOf(d', chains);
    forall x, a', i' | IsPlace(t, x, a', i') && Place(x, a', i') != Place(dir, a, i)
      ensures t'.listing[x][a'][i'] == t.listing[x][a'][i']
    {
      if x == dir && a' == a {
        ClearedReadsBack(d.data[b], i, i');
      } else {
        assert chains[x][a'] in chains[x];
      }
    }
    ClearedReadsBack(d.data[b], i, i);
    assert forall x, a', i' :: IsPlace(t, x, a', i') <==> IsPlace(t', x, a', i');
  }

  lemma UnlinkingSettles(d: Disk, chains: seq<seq<int>>, handled: set<Place>, at: Place, d': Disk)
    requires WellFormed(d, chains, NIL) && SizesFit(d, chains) && InBlocks(d, chains)
    requires var t := TreeOf(d, chains);
             CountsExact(t, handled, -1) && LiveHaveLinks(t, {}) && NamesInRange(t) && IsPlace(t, at.d, at.a, at.i)
    requires d.nodes[at.d].kind == Directory && at in handled
    requires forall q :: q in handled && q != at ==> 0 <= q.d < |d.nodes| && d.nodes[q.d].kind == Empty
    requires var b := chains[at.d][at.a]; d' == d.(data := d.data[b := ClearEntry(d.data[b], at.i)])
    ensures WellFormed(d', chains, NIL) && SizesFit(d', chains) && InBlocks(d', chains)
    ensures Sound(TreeOf(d', chains))
  {
    hide WellFormed, SizesFit, CountsExact, ClearEntry;
    var t, t' := TreeOf(d, chains), TreeOf(d', chains);
    ClearedGraph(d, chains, at.d, at.a, at.i, d');
    AllHandledGone(t, handled, at, t');
    assert forall x, a, i, y :: Names(t', x, a, i, y) ==> Names(t, x, a, i, y);
  }

  lemma EndsUnlinking(d: Disk, chains: seq<seq<int>>, name: seq<Byte>, at: Place, f: int, d1: Disk,
                      chains1: seq<seq<int>>, handled: set<Place>, d': Disk)
    requires InBlocks(d, chains) && FirstMatch(TreeOf(d, chains), at.d, name, at.a, at.i)
    requires TreeOf(d, chains).listing[at.d][at.a][at.i].id == f
    requires Removal(d, chains, {at}, d1, chains1, handled, -1) && 0 <= f < |d.nodes|
    requires Confined(TreeOf(d, chains), f, d.nodes, d1.nodes)
    requires d1.nodes[f] == if d.nodes[f].refs <= 1 then Inode(0, NIL, Empty, 0)
                              else d.nodes[f].(refs := d.nodes[f].refs - 1)
    requires var b := chains[at.d][at.a]; d' == d1.(data := d1.data[b := ClearEntry(d1.data[b], at.i)])
    ensures Unlinked(d, chains, at.d, name, at, f, d', chains1)
  {
    hide ClearEntry, Confined, FirstMatch;
    RemovalBounds(d, chains, {at}, d1, chains1, handled, -1);
  }

  lemma HandledAreGone(d: Disk, chains: seq<seq<int>>, at: Place, d1: Disk, chains1: seq<seq<int>>,
                       handled: set<Place>, kept: set<int>)
    requires Removal(d, chains, {at}, d1, chains1, handled, -1) && InBlocks(d1, chains1)
    requires Settling(TreeOf(d1, chains1), handled, {}, kept, -1)
    ensures at in handled
    ensures forall q :: q in handled && q != at ==> 0 <= q.d < |d1.nodes| && d1.nodes[q.d].kind == Empty
    ensures var t := TreeOf(d1, chains1); CountsExact(t, handled, -1) && LiveHaveLinks(t, {}) && NamesInRange(t)
  {
    hide CountsExact, LiveHaveLinks, NamesInRange, HandledElsewhere, Protected, InBlocks, OnlyFreed;
    assert at in {at};
  }
}
