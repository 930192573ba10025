// Copying a host file in under a name, and finding it again under that name.
module Copies {
  import opened Links
  import opened Disks
  import opened Directories
  import opened Trees
  import opened LinkCounts
  import opened Insertions

  ghost predicate LowestEmpty(nodes: seq<Inode>, f: int) {
    0 <= f < |nodes| && nodes[f].kind == Empty && forall x :: 0 <= x < f ==> nodes[x].kind != Empty
  }

  // Inode f as the new, still empty file.
  function Created(d: Disk, f: int): Disk
    requires 0 <= f < |d.nodes|
  {
    d.(nodes := d.nodes[f := d.nodes[f].(size := 0, kind := File, refs := 1)])
  }

  // The first free inode f became a file; d1, with chains1, had its element e in directory
  // dir; and then f was filled with the host file's bytes.
  ghost predicate CopiedIn(d: Disk, chains: seq<seq<int>>, dir: int, e: Entry, f: int, stale: seq<seq<Entry>>,
                           d1: Disk, chains1: seq<seq<int>>, host: seq<Byte>, d': Disk, chains': seq<seq<int>>) {
    && LowestEmpty(d.nodes, f)
    && EntryAdded(Created(d, f), chains, dir, e, d1, chains1) && stale == Taken(Created(d, f), chains, dir, chains1)
    && Grown(d1, chains1, d', chains', f, host) && ContentOf(d', chains', f) == host
  }

  lemma CreatingKeepsWellFormed(d: Disk, chains: seq<seq<int>>, f: int)
    requires WellFormed(d, chains, NIL) && SizesFit(d, chains) && 0 <= f < |d.nodes| && d.nodes[f].kind == Empty
    ensures WellFormed(Created(d, f), chains, NIL) && SizesFit(Created(d, f), chains) && |chains| == |d.nodes|
    ensures chains[f] == []
    ensures InBlocks(d, chains) && InBlocks(Created(d, f), chains)
    ensures TreeOf(Created(d, f), chains) == TreeOf(d, chains).(nodes := Created(d, f).nodes)
  {
  }

  // Two trees with the same directories.
  ghost predicate SameDirectories(t: Tree, t': Tree) {
    && |t'.nodes| == |t.nodes| == |t.listing| == |t'.listing|
    && forall x :: 0 <= x < |t.nodes| ==>
         && (t.nodes[x].kind == Directory <==> t'.nodes[x].kind == Directory)
         && (t.nodes[x].kind == Directory ==> t'.listing[x] == t.listing[x])
  }

  lemma SameFirstMatch(t: Tree, t': Tree, d: int, name: seq<Byte>, a: int, i: int)
    requires SameDirectories(t, t') && FirstMatch(t, d, name, a, i)
    ensures FirstMatch(t', d, name, a, i) && t'.listing[d] == t.listing[d]
  {
  }

  lemma SameLeads(t: Tree, t': Tree, path: seq<seq<Byte>>, trail: seq<int>, places: seq<Place>)
    requires SameDirectories(t, t') && Leads(t, path, trail, places)
    ensures Leads(t', path, trail, places)
  {
  }

  lemma SameNoMatch(t: Tree, t': Tree, d: int, name: seq<Byte>)
    requires SameDirectories(t, t') && NoMatch(t, d, name)
    ensures NoMatch(t', d, name)
  {
  }

  // Filling a file changes no directory and no count.
  lemma FillingKeepsTree(d: Disk, chains: seq<seq<int>>, d': Disk, chains': seq<seq<int>>, f: int, bytes: seq<Byte>)
    requires InBlocks(d, chains) && WellFormed(d, chains, NIL) && Grown(d, chains, d', chains', f, bytes)
    ensures InBlocks(d', chains') && SameDirectories(TreeOf(d, chains), TreeOf(d', chains'))
    ensures Sound(TreeOf(d', chains')) <==> Sound(TreeOf(d, chains))
  {
    hide WellFormed, SizesFit, ContentOf, Sound;
    ChainsInBlocks(d', chains');
    var t, t' := TreeOf(d, chains), TreeOf(d', chains');
    forall x | 0 <= x < |d.nodes| && x != f
      ensures t'.listing[x] == t.listing[x]
    {
      assert forall a :: 0 <= a < |chains[x]| ==> chains[x][a] in chains[x];
    }
    SameSound(t, t');
  }

  // Nor does cutting one.
  lemma ShorteningKeepsTree(d: Disk, chains: seq<seq<int>>, d': Disk, chains': seq<seq<int>>, f: int, size: nat)
    requires InBlocks(d, chains) && WellFormed(d, chains, NIL) && Shortened(d, chains, d', chains', f, size)
    ensures InBlocks(d', chains') && SameDirectories(TreeOf(d, chains), TreeOf(d', chains'))
    ensures Sound(TreeOf(d', chains')) <==> Sound(TreeOf(d, chains))
  {
    hide WellFormed, SizesFit, ContentOf, Sound;
    ChainsInBlocks(d', chains');
    var t, t' := TreeOf(d, chains), TreeOf(d', chains');
    assert forall x :: 0 <= x < |d.nodes| && x != f ==> t'.listing[x] == t.listing[x];
    SameSound(t, t');
  }

  lemma SameSound(t: Tree, t': Tree)
    requires SameDirectories(t, t')
    requires forall x :: 0 <= x < |t.nodes| ==>
      t'.nodes[x].refs == t.nodes[x].refs && t'.nodes[x].kind == t.nodes[x].kind
    ensures Sound(t') <==> Sound(t)
  {
    assert forall d, a, i, x :: Names(t, d, a, i, x) <==> Names(t', d, a, i, x);
    hide Names;
    forall x
      ensures LinksTo(t, {}, x) == LinksTo(t', {}, x)
    {
      SameLinks(t, t', {}, {}, x);
    }
  }

  lemma CopyingSettles(d: Disk, chains: seq<seq<int>>, dir: int, e: Entry, f: int, stale: seq<seq<Entry>>, d1: Disk,
                       chains1: seq<seq<int>>, host: seq<Byte>, d': Disk, chains': seq<seq<int>>)
    requires WellFormed(d, chains, NIL) && SizesFit(d, chains) && WellFormed(d1, chains1, NIL) && InBlocks(d, chains)
    requires CopiedIn(d, chains, dir, e, f, stale, d1, chains1, host, d', chains')
    requires Sound(TreeOf(d, chains)) && e.id == f && e.used != 0
    ensures InBlocks(d', chains') && 0 <= dir < |chains| == |TreeOf(d, chains).listing|
    ensures WholeBlocks(d.data) && |d.data| == |d.used| && stale == StaleBefore(d, chains, dir)
    ensures Sound(TreeOf(d', chains')) <==> OneComesIn(TreeOf(d, chains).listing[dir], stale)
    ensures NamesInRange(TreeOf(d', chains')) <==>
      AllInRange(LeftStanding(TreeOf(d, chains).listing[dir], stale), |d.nodes|)
  {
    hide WellFormed, SizesFit, OneComesIn, TreeAfter, Grown, ListingAfter, NamesInRange, LeftStanding, CountsExact,
      LiveHaveLinks;
    CreatingKeepsWellFormed(d, chains, f);
    WholeBlocksOf(d, chains);
    StaleIsKnown(d, chains, Created(d, f), dir, e, d1, chains1);
    EntryAddedToTree(Created(d, f), chains, dir, e, d1, chains1);
    NewNodeSettles(TreeOf(d, chains), f, TreeOf(Created(d, f), chains), dir, e, stale, TreeOf(d1, chains1));
    FillingKeepsTree(d1, chains1, d', chains', f, host);
    SameRange(TreeOf(d, chains), TreeOf(Created(d, f), chains));
    RangeAfter(TreeOf(Created(d, f), chains), dir, e, stale, TreeOf(d1, chains1));
    SameRange(TreeOf(d1, chains1), TreeOf(d', chains'));
  }

  lemma SameRange(t: Tree, t': Tree)
    requires SameDirectories(t, t')
    ensures NamesInRange(t') <==> NamesInRange(t)
  {
    assert forall d, a, i, x :: Names(t, d, a, i, x) <==> Names(t', d, a, i, x);
    hide Names;
  }

  // The same path still leads to the directory, which now has the name, and the name
  // stands for the copy if and only if it is uncontested.
  lemma CopyIsFound(d: Disk, chains: seq<seq<int>>, dir: int, e: Entry, f: int, stale: seq<seq<Entry>>, d1: Disk,
                    chains1: seq<seq<int>>, host: seq<Byte>, d': Disk, chains': seq<seq<int>>, path: seq<seq<Byte>>,
                    name: seq<Byte>, trail: seq<int>, places: seq<Place>)
    returns (at: Place)
    requires WellFormed(d, chains, NIL) && SizesFit(d, chains) && WellFormed(d1, chains1, NIL) && InBlocks(d, chains)
    requires CopiedIn(d, chains, dir, e, f, stale, d1, chains1, host, d', chains') && e.id == f && Matches(e, name)
    requires Leads(TreeOf(d, chains), path, trail, places) && |places| == |path| && dir == trail[|path|]
    requires NoMatch(TreeOf(d, chains), dir, name) && 0 <= dir < |chains| == |TreeOf(d, chains).listing|
    ensures InBlocks(d', chains') && Leads(TreeOf(d', chains'), path, trail, places) && at.d == dir
    ensures FirstMatch(TreeOf(d', chains'), dir, name, at.a, at.i)
    ensures TreeOf(d', chains').listing[dir][at.a][at.i].id == f <==>
      Uncontested(TreeOf(d, chains).listing[dir], stale, name, f)
    ensures TreeOf(d, chains).listing[dir] != [] ==> Uncontested(TreeOf(d, chains).listing[dir], stale, name, f)
  {
    hide WellFormed, SizesFit, TreeAfter, Grown, ListingAfter, Leads, NoMatch, FirstMatch, Text, Uncontested;
    CreatingKeepsWellFormed(d, chains, f);
    EntryAddedToTree(Created(d, f), chains, dir, e, d1, chains1);
    FillingKeepsTree(d1, chains1, d', chains', f, host);
    var t, t1, t2, t' := TreeOf(d, chains), TreeOf(Created(d, f), chains), TreeOf(d1, chains1), TreeOf(d', chains');
    SameLeads(t, t1, path, trail, places);
    SameNoMatch(t, t1, dir, name);
    StillLeads(t1, dir, e, stale, t2, path, trail, places);
    var a, i := NewNameStandsFor(t1, dir, e, stale, t2, name);
    at := Place(dir, a, i);
    SameLeads(t2, t', path, trail, places);
    SameFirstMatch(t2, t', dir, name, a, i);
  }

  lemma TakenBy(d: Disk, chains: seq<seq<int>>, dir: int, e: Entry, d': Disk, chains': seq<seq<int>>)
    returns (stale: seq<seq<Entry>>)
    requires EntryAdded(d, chains, dir, e, d', chains')
    ensures 0 <= dir < |chains| == |chains'| && |chains[dir]| <= |chains'[dir]|
    ensures forall a :: 0 <= a < |chains'[dir]| ==>
      0 <= chains'[dir][a] < |d.data| && |d.data[chains'[dir][a]]| == BLOCK_SIZE
    ensures stale == Taken(d, chains, dir, chains')
    ensures |d'.nodes| == |d.nodes| && forall x :: 0 <= x < |d.nodes| && x != dir ==> d'.nodes[x] == d.nodes[x]
  {
    stale := Taken(d, chains, dir, chains');
  }

  lemma CopyIsWhole(d: Disk, chains: seq<seq<int>>, dir: int, e: Entry, f: int, stale: seq<seq<Entry>>, d1: Disk,
                    chains1: seq<seq<int>>, host: seq<Byte>, d': Disk, chains': seq<seq<int>>)
    requires LowestEmpty(d.nodes, f) && 0 <= dir < |chains| == |chains1| && |chains[dir]| <= |chains1[dir]|
    requires forall a :: 0 <= a < |chains1[dir]| ==>
      0 <= chains1[dir][a] < |d.data| && |d.data[chains1[dir][a]]| == BLOCK_SIZE
    requires EntryAdded(Created(d, f), chains, dir, e, d1, chains1)
    requires stale == Taken(Created(d, f), chains, dir, chains1)
    requires Grown(d1, chains1, d', chains', f, host) && dir != f
    ensures CopiedIn(d, chains, dir, e, f, stale, d1, chains1, host, d', chains')
  {
    hide WellFormed, SizesFit, ListingAfter, OthersKept;
    assert ContentOf(d1, chains1, f) == [];
  }

  // The round trip: after copying in, the lookup of the same path and name finds the new
  // file if and only if the name is uncontested, and then it holds the bytes copied in.
  // In a directory that had a block it always does, however many elements came into use.
  lemma CopyComesBack(d: Disk, chains: seq<seq<int>>, dir: int, f: int, stale: seq<seq<Entry>>, d1: Disk,
                      chains1: seq<seq<int>>, host: seq<Byte>, d': Disk, chains': seq<seq<int>>, path: seq<seq<Byte>>,
                      name: seq<Byte>, trail: seq<int>, places: seq<Place>, at: Place, g: int, back: Status,
                      trail': seq<int>, places': seq<Place>, at': Place, f': int)
    requires WellFormed(d, chains, NIL) && SizesFit(d, chains) && WellFormed(d1, chains1, NIL) && InBlocks(d, chains)
    requires Located(TreeOf(d, chains), path, name, InvalidName, trail, places, at, g) && dir == trail[|path|]
    requires IsName(name) && 0 <= f < 0x1_0000
    requires CopiedIn(d, chains, dir, NewEntry(name, f), f, stale, d1, chains1, host, d', chains')
    requires InBlocks(d', chains') && Located(TreeOf(d', chains'), path, name, back, trail', places', at', f')
    ensures back == Done && 0 <= dir < |chains| == |TreeOf(d, chains).listing|
    ensures f' == f <==> Uncontested(TreeOf(d, chains).listing[dir], stale, name, f)
    ensures f' == f ==> IsFile(d', chains', f') && ContentOf(d', chains', f') == host
    ensures chains[dir] != [] ==> f' == f
  {
    hide WellFormed, SizesFit, Leads, FirstMatch, NewEntry, Matches, Uncontested, Listing;
    LeadsIsShort(TreeOf(d, chains), path, trail, places);
    assert dir == trail[|path|] && 0 <= dir < |chains|;
    hide NoMatch, EntryAdded;
    var p := CopyIsFound(d, chains, dir, NewEntry(name, f), f, stale, d1, chains1, host, d', chains',
                         path, name, trail, places);
    LocatedThere(TreeOf(d', chains'), path, trail, places, name, p, back, trail', places', at', f');
  }
}
