// The graph that directories span over the inodes: what can be reached from where,
// and how many links lead to each inode.
module Trees {
  import opened Basics
  import opened Links
  import opened Disks
  import opened Directories

  // listing[d][a][i] is element i of block a of inode d; only directories have elements.
  datatype Tree = Tree(nodes: seq<Inode>, listing: seq<seq<seq<Entry>>>)

  // Element i of block a of directory d is in use and names inode x.
  predicate Names(t: Tree, d: int, a: int, i: int, x: int) {
    && 0 <= d < |t.nodes| && d < |t.listing| && t.nodes[d].kind == Directory
    && 0 <= a < |t.listing[d]| && 0 <= i < |t.listing[d][a]|
    && t.listing[d][a][i].used != 0 && t.listing[d][a][i].id == x
  }

  ghost predicate Succ(t: Tree, d: int, x: int) {
    exists a, i :: Names(t, d, a, i, x)
  }

  // Elements in use name inodes of the disc.
  ghost predicate NamesInRange(t: Tree) {
    |t.listing| == |t.nodes| && forall d, a, i, x :: Names(t, d, a, i, x) ==> 0 <= x < |t.nodes|
  }

  ghost predicate InBlocks(d: Disk, chains: seq<seq<int>>) {
    |chains| == |d.nodes| && forall i, a :: 0 <= i < |chains| && 0 <= a < |chains[i]| ==>
      0 <= chains[i][a] < |d.data| && |d.data[chains[i][a]]| == BLOCK_SIZE
  }

  lemma ChainsInBlocks(d: Disk, chains: seq<seq<int>>)
    requires WellFormed(d, chains, NIL)
    ensures InBlocks(d, chains)
  {
  }

  ghost function TreeOf(d: Disk, chains: seq<seq<int>>): (t: Tree)
    requires InBlocks(d, chains)
    ensures t.nodes == d.nodes && |t.listing| == |d.nodes|
    ensures forall i :: 0 <= i < |chains| ==> t.listing[i] == Listing(d.data, chains[i])
  {
    Tree(d.nodes, seq(|chains|, i requires 0 <= i < |chains| => Listing(d.data, chains[i])))
  }

  // ----- looking names up -----

  predicate IsPlace(t: Tree, d: int, a: int, i: int) {
    0 <= d < |t.nodes| && d < |t.listing| && 0 <= a < |t.listing[d]| && 0 <= i < |t.listing[d][a]|
  }

  // Element i of block a is the first one of directory d found under the name.
  ghost predicate FirstMatch(t: Tree, d: int, name: seq<Byte>, a: int, i: int) {
    && IsPlace(t, d, a, i) && t.nodes[d].kind == Directory && Matches(t.listing[d][a][i], name)
    && forall a', i' :: IsPlace(t, d, a', i') && (a' < a || (a' == a && i' < i)) ==>
         !Matches(t.listing[d][a'][i'], name)
  }

  ghost predicate NoMatch(t: Tree, d: int, name: seq<Byte>) {
    0 <= d < |t.nodes| && (t.nodes[d].kind == Directory ==>
      forall a, i :: IsPlace(t, d, a, i) ==> !Matches(t.listing[d][a][i], name))
  }

  // In directory d the name stands for inode x.
  ghost predicate LooksUp(t: Tree, d: int, name: seq<Byte>, x: int) {
    exists a, i :: FirstMatch(t, d, name, a, i) && t.listing[d][a][i].id == x
  }

  // Element i of block a of directory d.
  datatype Place = Place(d: int, a: int, i: int)

  // At place p, directory d has the name of directory x.
  ghost predicate StepsTo(t: Tree, d: int, name: seq<Byte>, p: Place, x: int) {
    && p.d == d && FirstMatch(t, d, name, p.a, p.i) && t.listing[d][p.a][p.i].id == x
    && 0 <= x < |t.nodes| && t.nodes[x].kind == Directory
  }

  // From the root, each name of the path leads to the next directory of the trail.
  ghost predicate Leads(t: Tree, path: seq<seq<Byte>>, trail: seq<int>, places: seq<Place>) {
    && |trail| == |places| + 1 && |places| <= |path| && trail[0] == 0 && 0 < |t.nodes|
    && forall k {:trigger places[k]} :: 0 <= k < |places| ==> StepsTo(t, trail[k], path[k], places[k], trail[k + 1])
  }

  // The next name leads nowhere, or not to a directory.
  ghost predicate Stuck(t: Tree, d: int, name: seq<Byte>) {
    || NoMatch(t, d, name)
    || exists x :: LooksUp(t, d, name, x) && 0 <= x < |t.nodes| && t.nodes[x].kind != Directory
  }

  datatype Status = Done | InvalidPath | InvalidName | AlreadyExists | NoFreeNode | TooMuch

  // The outcome of looking a name up in the directory at the end of a path: with Done,
  // element at of that directory stands for inode f.
  ghost predicate Located(t: Tree, path: seq<seq<Byte>>, name: seq<Byte>, status: Status, trail: seq<int>,
                          places: seq<Place>, at: Place, f: int) {
    && Leads(t, path, trail, places) && status in {Done, InvalidPath, InvalidName}
    && (status == InvalidPath <==> |places| < |path|)
    && (status == InvalidPath ==> Stuck(t, trail[|places|], path[|places|]))
    && (status == InvalidName ==> NoMatch(t, trail[|path|], name))
    && (status == Done ==>
          && at.d == trail[|path|] && FirstMatch(t, at.d, name, at.a, at.i)
          && t.listing[at.d][at.a][at.i].id == f && 0 <= f < |t.nodes|)
  }

  lemma LeadsIsShort(t: Tree, path: seq<seq<Byte>>, trail: seq<int>, places: seq<Place>)
    requires Leads(t, path, trail, places)
    ensures |trail| == |places| + 1 && |places| <= |path|
  {
  }

  lemma LeadsFurther(t: Tree, path: seq<seq<Byte>>, trail: seq<int>, places: seq<Place>, p: Place, x: int)
    requires Leads(t, path, trail, places) && |places| < |path|
    requires StepsTo(t, trail[|places|], path[|places|], p, x)
    ensures Leads(t, path, trail + [x], places + [p])
  {
    hide StepsTo;
    var trail', places' := trail + [x], places + [p];
    forall k | 0 <= k < |places'|
      ensures StepsTo(t, trail'[k], path[k], places'[k], trail'[k + 1])
    {
      if k < |places| { assert StepsTo(t, trail[k], path[k], places[k], trail[k + 1]); }
    }
  }

  // A path leads one way only, as far as it leads.
  lemma {:induction false} LeadsOneWay(t: Tree, path: seq<seq<Byte>>, trail: seq<int>, places: seq<Place>,
                                       trail': seq<int>, places': seq<Place>, k: nat)
    requires Leads(t, path, trail, places) && Leads(t, path, trail', places') && k <= |places| && k <= |places'|
    ensures trail[k] == trail'[k]
  {
    if k > 0 {
      LeadsOneWay(t, path, trail, places, trail', places', k - 1);
      assert StepsTo(t, trail[k - 1], path[k - 1], places[k - 1], trail[k - 1 + 1]);
      assert StepsTo(t, trail'[k - 1], path[k - 1], places'[k - 1], trail'[k - 1 + 1]);
    }
  }

  // Where a path leads on, it is not stuck.
  lemma NotStuck(t: Tree, d: int, name: seq<Byte>, p: Place, x: int)
    requires StepsTo(t, d, name, p, x)
    ensures !Stuck(t, d, name)
  {
  }

  // The path leads to directory d.
  ghost predicate LeadsTo(t: Tree, path: seq<seq<Byte>>, d: int) {
    exists trail, places :: Leads(t, path, trail, places) && |places| == |path| && trail[|path|] == d
  }

  // A trail that is complete, or stuck, tells all there is to know of the path.
  lemma TrailIsTelling(t: Tree, path: seq<seq<Byte>>, trail: seq<int>, places: seq<Place>)
    requires Leads(t, path, trail, places) && (|places| == |path| || Stuck(t, trail[|places|], path[|places|]))
    ensures forall d :: LeadsTo(t, path, d) <==> |places| == |path| && d == trail[|path|]
  {
    hide Stuck, StepsTo;
    forall d | LeadsTo(t, path, d)
      ensures |places| == |path| && d == trail[|path|]
    {
      var trail', places' :| Leads(t, path, trail', places') && |places'| == |path| && trail'[|path|] == d;
      var k := |places|;
      LeadsOneWay(t, path, trail, places, trail', places', k);
      if k < |path| {
        assert StepsTo(t, trail'[k], path[k], places'[k], trail'[k + 1]);
        NotStuck(t, trail'[k], path[k], places'[k], trail'[k + 1]);
      }
    }
  }

  lemma LookupIsUnique(t: Tree, d: int, name: seq<Byte>, a: int, i: int)
    requires FirstMatch(t, d, name, a, i)
    ensures forall x :: LooksUp(t, d, name, x) <==> x == t.listing[d][a][i].id
  {
  }

  lemma NoLookup(t: Tree, d: int, name: seq<Byte>)
    requires NoMatch(t, d, name)
    ensures forall x :: !LooksUp(t, d, name, x)
  {
  }

  // What the outcome of a lookup says about the path and the name.
  lemma LocatedIsTelling(t: Tree, path: seq<seq<Byte>>, name: seq<Byte>, status: Status, trail: seq<int>,
                         places: seq<Place>, at: Place, f: int)
    requires Located(t, path, name, status, trail, places, at, f)
    ensures status == Done <==> exists d, x :: LeadsTo(t, path, d) && LooksUp(t, d, name, x)
    ensures status == InvalidPath <==> forall d :: !LeadsTo(t, path, d)
    ensures forall d, x :: LeadsTo(t, path, d) && LooksUp(t, d, name, x) ==> x == f
  {
    hide Leads, LeadsTo, LooksUp, FirstMatch, NoMatch, Stuck;
    LeadsIsShort(t, path, trail, places);
    TrailIsTelling(t, path, trail, places);
    if status == Done {
      LookupIsUnique(t, at.d, name, at.a, at.i);
      assert LeadsTo(t, path, at.d) && LooksUp(t, at.d, name, f);
    } else if status == InvalidName {
      NoLookup(t, trail[|path|], name);
      assert LeadsTo(t, path, trail[|path|]);
    }
  }

  // What the lookup finds, if the whole path leads to a directory that has the name.
  lemma LocatedThere(t: Tree, path: seq<seq<Byte>>, trail: seq<int>, places: seq<Place>, name: seq<Byte>, at: Place,
                     status: Status, trail': seq<int>, places': seq<Place>, at': Place, f': int)
    requires Leads(t, path, trail, places) && |places| == |path| && at.d == trail[|path|]
    requires FirstMatch(t, at.d, name, at.a, at.i)
    requires Located(t, path, name, status, trail', places', at', f')
    ensures status == Done && f' == t.listing[at.d][at.a][at.i].id
  {
    var k := |places'|;
    LeadsOneWay(t, path, trail, places, trail', places', k);
    if k < |path| {
      assert StepsTo(t, trail[k], path[k], places[k], trail[k + 1]);
      NotStuck(t, trail[k], path[k], places[k], trail[k + 1]);
    }
  }

  // ----- reachability -----

  ghost predicate Reaches(t: Tree, n: nat, d: int, x: int) {
    if n == 0 then x == d else exists y :: Succ(t, d, y) && Reaches(t, n - 1, y, x)
  }

  // Inode x can be reached from d by following at least one link.
  ghost predicate Reachable(t: Tree, d: int, x: int) {
    exists n: nat :: 0 < n && Reaches(t, n, d, x)
  }

  lemma SuccIsReachable(t: Tree, d: int, x: int)
    requires Succ(t, d, x)
    ensures Reachable(t, d, x)
  {
    assert Reaches(t, 0, x, x);
    assert Reaches(t, 1, d, x);
  }

  lemma ReachableThrough(t: Tree, d: int, y: int, x: int)
    requires Succ(t, d, y) && Reachable(t, y, x)
    ensures Reachable(t, d, x)
  {
    var n: nat :| 0 < n && Reaches(t, n, y, x);
    assert Reaches(t, n + 1, d, x);
  }

  // A list that holds the successors of d and of all its own members holds whatever
  // can be reached from d.
  lemma {:induction false} ClosedHoldsReachable(t: Tree, d: int, v: seq<int>, n: nat, x: int)
    requires forall y :: Succ(t, d, y) ==> y in v
    requires forall z, y :: z in v && Succ(t, z, y) ==> y in v
    requires 0 < n && Reaches(t, n, d, x)
    ensures x in v
    decreases n
  {
    var y :| Succ(t, d, y) && Reaches(t, n - 1, y, x);
    if 1 < n {
      ClosedHoldsReachable(t, y, v, n - 1, x);
    }
  }

  // ----- sizes -----

  function SizeOf(t: Tree, x: int): nat {
    if 0 <= x < |t.nodes| && t.nodes[x].kind == File then t.nodes[x].size else 0
  }

  function SumSizes(t: Tree, xs: seq<int>): nat {
    if xs == [] then 0 else SumSizes(t, xs[..|xs| - 1]) + SizeOf(t, xs[|xs| - 1])
  }

  lemma {:induction false} SumSizesJoined(t: Tree, a: seq<int>, b: seq<int>)
    ensures SumSizes(t, a + b) == SumSizes(t, a) + SumSizes(t, b)
  {
    if b == [] {
      assert a + b == a;
    } else {
      var front := b[..|b| - 1];
      assert (a + b)[..|a + b| - 1] == a + front;
      SumSizesJoined(t, a, front);
    }
  }

  lemma SumOfOne(t: Tree, x: int)
    ensures SumSizes(t, [x]) == SizeOf(t, x)
  {
    assert [x][..0] == [];
  }

  // The sizes of the files in a set, in no order.
  ghost function SizeOfSet(t: Tree, s: set<int>): nat {
    if s == {} then 0 else var x := Pick(s); SizeOf(t, x) + SizeOfSet(t, s - {x})
  }

  ghost function Pick<T>(s: set<T>): (x: T)
    requires s != {}
    ensures x in s
  {
    var x :| x in s; x
  }

  lemma {:induction false} SizeOfSetWithout(t: Tree, s: set<int>, x: int)
    requires x in s
    ensures SizeOfSet(t, s) == SizeOf(t, x) + SizeOfSet(t, s - {x})
    decreases |s|
  {
    var y := Pick(s);
    if y != x {
      SizeOfSetWithout(t, s - {y}, x);
      SizeOfSetWithout(t, s - {x}, y);
      assert s - {y} - {x} == s - {x} - {y};
    }
  }

  // Listed without repetition, in whatever order, the sizes add up to the same.
  lemma {:induction false} SumOfDistinct(t: Tree, xs: seq<int>)
    requires forall i, j :: 0 <= i < j < |xs| ==> xs[i] != xs[j]
    ensures SumSizes(t, xs) == SizeOfSet(t, Values(xs))
  {
    if xs != [] {
      var front, last := xs[..|xs| - 1], xs[|xs| - 1];
      SumOfDistinct(t, front);
      assert xs == front + [last];
      assert last !in front;
      assert Values(xs) - {last} == Values(front);
      SizeOfSetWithout(t, Values(xs), last);
    }
  }

  // What the files among xs hold, one after the other.
  ghost function BytesOf(d: Disk, chains: seq<seq<int>>, xs: seq<int>): seq<Byte> {
    if xs == [] then [] else
      var front, last := xs[..|xs| - 1], xs[|xs| - 1];
      BytesOf(d, chains, front) + if IsFile(d, chains, last) then ContentOf(d, chains, last) else []
  }

  lemma {:induction false} BytesOfOneMore(d: Disk, chains: seq<seq<int>>, xs: seq<int>, x: int)
    requires WellFormed(d, chains, NIL) && SizesFit(d, chains) && 0 <= x < |d.nodes|
    ensures d.nodes[x].kind == File ==> IsFile(d, chains, x)
    ensures BytesOf(d, chains, xs + [x])
         == BytesOf(d, chains, xs) + if d.nodes[x].kind == File then ContentOf(d, chains, x) else []
  {
    hide WellFormed, SizesFit;
    if d.nodes[x].kind == File { FilesAreReadable(d, chains, x); }
    assert (xs + [x])[..|xs|] == xs;
  }

  // The sizes of the files say how much they hold.
  lemma {:induction false} SizesAreLengths(d: Disk, chains: seq<seq<int>>, t: Tree, xs: seq<int>)
    requires WellFormed(d, chains, NIL) && SizesFit(d, chains) && t.nodes == d.nodes
    requires forall i :: 0 <= i < |xs| ==> 0 <= xs[i] < |d.nodes|
    ensures |BytesOf(d, chains, xs)| == SumSizes(t, xs)
  {
    hide WellFormed, SizesFit;
    if xs != [] {
      var front, last := xs[..|xs| - 1], xs[|xs| - 1];
      SizesAreLengths(d, chains, t, front);
      assert front + [last] == xs;
      BytesOfOneMore(d, chains, front, last);
    }
  }

  // So it is in whatever order the files of a set are listed.
  lemma SizeOfSetIsLength(d: Disk, chains: seq<seq<int>>, t: Tree, s: set<int>, xs: seq<int>)
    requires WellFormed(d, chains, NIL) && SizesFit(d, chains) && t.nodes == d.nodes
    requires forall x :: x in s ==> 0 <= x < |d.nodes|
    requires Values(xs) == s && forall i, j :: 0 <= i < j < |xs| ==> xs[i] != xs[j]
    ensures |BytesOf(d, chains, xs)| == SizeOfSet(t, s)
  {
    hide WellFormed, SizesFit;
    assert forall i :: 0 <= i < |xs| ==> xs[i] in Values(xs);
    SizesAreLengths(d, chains, t, xs);
    SumOfDistinct(t, xs);
  }

  // ----- the traversal -----

  // What visiting the elements of directory d has to add to the list of visited
  // inodes: from position from on, only inodes reachable from d, each once, and along
  // with each all its successors.
  ghost predicate Explored(t: Tree, d: int, from: nat, v: seq<int>) {
    && from <= |v|
    && (forall i, j :: 0 <= i < j < |v| ==> v[i] != v[j])
    && (forall k :: 0 <= k < |v| ==> 0 <= v[k] < |t.nodes|)
    && (forall k :: from <= k < |v| ==> Reachable(t, d, v[k]))
    && (forall k, y :: from <= k < |v| && Succ(t, v[k], y) ==> y in v)
  }

  // The elements of d before element i of block a have been seen.
  ghost predicate SeenBefore(t: Tree, d: int, a: int, i: int, v: seq<int>) {
    forall a', i', x :: (a' < a || (a' == a && i' < i)) && Names(t, d, a', i', x) ==> x in v
  }

  // Visiting c, not seen before, and then what it leads to.
  lemma ExploredFurther(t: Tree, d: int, c: int, from: nat, v: seq<int>, w: seq<int>)
    requires Explored(t, d, from, v) && c !in v && Succ(t, d, c)
    requires v + [c] <= w && Explored(t, c, |v| + 1, w)
    requires forall y :: Succ(t, c, y) ==> y in w
    ensures Explored(t, d, from, w)
  {
    hide Succ, Reachable;
    forall y | y in v
      ensures y in w
    {
      var j :| 0 <= j < |v| && v[j] == y;
      assert w[j] == y;
    }
    forall k | from <= k < |w|
      ensures Reachable(t, d, w[k])
    {
      if k < |v| {
        assert w[k] == v[k];
      } else if k == |v| {
        SuccIsReachable(t, d, c);
      } else {
        ReachableThrough(t, d, c, w[k]);
      }
    }
    forall k, y | from <= k < |w| && Succ(t, w[k], y)
      ensures y in w
    {
      if k < |v| {
        assert w[k] == v[k];
      }
    }
  }

  // A leaf c leads nowhere, so noting it is all there is to do.
  lemma ExploredLeaf(t: Tree, d: int, c: int, from: nat, v: seq<int>)
    requires Explored(t, d, from, v) && c !in v && Succ(t, d, c) && 0 <= c < |t.nodes|
    ensures t.nodes[c].kind != Directory ==> Explored(t, d, from, v + [c])
    ensures Explored(t, c, |v| + 1, v + [c])
  {
    hide Reachable, Succ;
    if t.nodes[c].kind != Directory {
      LeafHasNoSucc(t, c);
      ExploredFurther(t, d, c, from, v, v + [c]);
    }
  }

  lemma LeafHasNoSucc(t: Tree, c: int)
    requires 0 <= c < |t.nodes| && t.nodes[c].kind != Directory
    ensures forall y :: !Succ(t, c, y)
  {
  }

  lemma NothingSeen(t: Tree, d: int, v: seq<int>)
    ensures SeenBefore(t, d, 0, 0, v) && SumSizes(t, v[|v|..]) == 0
  {
  }

  lemma OneMoreSeen(t: Tree, d: int, a: int, i: int, v: seq<int>, w: seq<int>)
    requires SeenBefore(t, d, a, i, v) && v <= w && IsPlace(t, d, a, i)
    requires t.listing[d][a][i].used != 0 ==> t.listing[d][a][i].id in w
    ensures SeenBefore(t, d, a, i + 1, w)
  {
  }

  lemma BlockSeen(t: Tree, d: int, a: int, v: seq<int>)
    requires SeenBefore(t, d, a, PER_BLOCK, v) && 0 <= a && 0 <= d < |t.listing|
    requires a < |t.listing[d]| && |t.listing[d][a]| == PER_BLOCK
    ensures SeenBefore(t, d, a + 1, 0, v)
  {
  }

  lemma AllSeen(t: Tree, d: int, a: int, v: seq<int>)
    requires 0 <= d < |t.listing| && a == |t.listing[d]| && SeenBefore(t, d, a, 0, v)
    ensures forall y :: Succ(t, d, y) ==> y in v
  {
  }

  lemma SumSizesFrom(t: Tree, v: seq<int>, w: seq<int>, from: nat)
    requires from <= |v| && v <= w
    ensures SumSizes(t, w[from..]) == SumSizes(t, v[from..]) + SumSizes(t, w[|v|..])
  {
    assert w[from..] == v[from..] + w[|v|..];
    SumSizesJoined(t, v[from..], w[|v|..]);
  }

  // The list of visited inodes never gets longer than the table of inodes.
  lemma ExploredIsShort(t: Tree, d: int, from: nat, v: seq<int>)
    requires Explored(t, d, from, v)
    ensures |v| <= |t.nodes|
  {
    var w: seq<nat> := v;
    Pigeonhole(w, |t.nodes|);
  }

  // Started with nothing visited, the traversal visits exactly what can be reached.
  lemma ExploredAll(t: Tree, d: int, v: seq<int>)
    requires Explored(t, d, 0, v) && forall y :: Succ(t, d, y) ==> y in v
    ensures forall x :: x in v <==> Reachable(t, d, x)
    ensures SumSizes(t, v) == SizeOfSet(t, Values(v))
  {
    forall x | Reachable(t, d, x)
      ensures x in v
    {
      var n: nat :| 0 < n && Reaches(t, n, d, x);
      ClosedHoldsReachable(t, d, v, n, x);
    }
    SumOfDistinct(t, v);
  }
}
