// Adding an element to a directory: into the first unused place of every block that has
// one, or else into a block taken for it, whatever that block held before.
module Insertions {
  import opened Basics
  import opened Links
  import opened Disks
  import opened Directories
  import opened Trees
  import opened LinkCounts
  import opened Removals

  // The first unused element, or the length if all are used.
  function FirstUnused(es: seq<Entry>): (i: nat)
    ensures i <= |es| && (i < |es| ==> es[i].used == 0)
    ensures forall j :: 0 <= j < i ==> es[j].used != 0
  {
    if es == [] || es[0].used == 0 then 0 else 1 + FirstUnused(es[1..])
  }

  predicate HasRoom(es: seq<Entry>) {
    FirstUnused(es) < |es|
  }

  function InsertedIn(es: seq<Entry>, e: Entry): seq<Entry> {
    if HasRoom(es) then es[FirstUnused(es) := e] else es
  }

  function InsertedBytes(block: seq<Byte>, e: Entry): (r: seq<Byte>)
    requires |block| == BLOCK_SIZE && |e.name| == NAME_LEN && e.id < 0x1_0000
    ensures |r| == BLOCK_SIZE
  {
    if HasRoom(Elements(block)) then PutEntry(block, FirstUnused(Elements(block)), e) else block
  }

  lemma InsertedReadsBack(block: seq<Byte>, e: Entry)
    requires |block| == BLOCK_SIZE && |e.name| == NAME_LEN && e.id < 0x1_0000
    ensures Elements(InsertedBytes(block, e)) == InsertedIn(Elements(block), e)
  {
    var es, i := Elements(block), FirstUnused(Elements(block));
    if HasRoom(es) {
      forall j | 0 <= j < PER_BLOCK
        ensures EntryAt(PutEntry(block, i, e), j) == es[i := e][j]
      {
        EntryReadsBack(block, i, e, j);
      }
    }
  }

  // The new element: the name is cut at, or padded with zeros to, its full length.
  function NewEntry(name: seq<Byte>, id: nat): (e: Entry)
    requires id < 0x1_0000
    ensures |e.name| == NAME_LEN && e.used == 1 && e.id == id
    ensures IsName(name) ==> Matches(e, name)
  {
    if |name| < NAME_LEN then
      if 0 !in name then TextOfPadded(name, NAME_LEN - |name|); Entry(id, 1, Padded(name))
      else Entry(id, 1, Padded(name))
    else
      Entry(id, 1, name[..NAME_LEN])
  }

  // Byte by byte: the name as far as sixteen bytes go, and zeros behind it.
  lemma NameIsCut(name: seq<Byte>, id: nat, i: nat)
    requires id < 0x1_0000 && i < 16
    ensures |NewEntry(name, id).name| == 16 && NewEntry(name, id).name[i] == if i < |name| then name[i] else 0
  {
    if 16 <= |name| {
      assert NewEntry(name, id).name == name[..16];
    }
  }

  // ----- the listing -----

  // What the directory has to offer: its blocks, or else the block it was given first.
  function Offered(ls: seq<seq<Entry>>, stale: seq<seq<Entry>>): seq<seq<Entry>> {
    if ls == [] then stale[..if stale == [] then 0 else 1] else ls
  }

  ghost predicate SomeRoom(ls: seq<seq<Entry>>) {
    exists a :: 0 <= a < |ls| && HasRoom(ls[a])
  }

  function InsertedEverywhere(ls: seq<seq<Entry>>, e: Entry): (r: seq<seq<Entry>>)
    ensures |r| == |ls| && forall a :: 0 <= a < |ls| ==> r[a] == InsertedIn(ls[a], e)
  {
    seq(|ls|, a requires 0 <= a < |ls| => InsertedIn(ls[a], e))
  }

  // stale is what the blocks taken for the directory held before.
  ghost predicate ListingAfter(ls: seq<seq<Entry>>, e: Entry, stale: seq<seq<Entry>>, ls': seq<seq<Entry>>) {
    var offered := Offered(ls, stale);
    if SomeRoom(offered) then
      |stale| == Bit(ls == []) && ls' == InsertedEverywhere(offered, e)
    else
      && |stale| == Bit(ls == []) + 1 && 0 < |stale[|stale| - 1]|
      && ls' == offered + [stale[|stale| - 1][0 := e]]
  }

  // Just one element comes into use: one block has room, or the block taken has nothing
  // in use that the new element leaves standing.
  ghost predicate OneComesIn(ls: seq<seq<Entry>>, stale: seq<seq<Entry>>) {
    var offered := Offered(ls, stale);
    if SomeRoom(offered) then
      if ls == [] then NoneInUse(stale[0]) else
        forall a, b :: 0 <= a < |ls| && 0 <= b < |ls| && HasRoom(ls[a]) && HasRoom(ls[b]) ==> a == b
    else
      ls != [] && stale != [] && stale[0] != [] && NoneInUse(stale[0][1..])
  }

  predicate NoneInUse(es: seq<Entry>) {
    forall i :: 0 <= i < |es| ==> es[i].used == 0
  }

  // Directory dir has the listing changed; everything else is the same.
  ghost predicate TreeAfter(t: Tree, dir: int, e: Entry, stale: seq<seq<Entry>>, t': Tree) {
    && 0 <= dir < |t.nodes| == |t.listing| == |t'.nodes| == |t'.listing| && t.nodes[dir].kind == Directory
    && (forall x :: 0 <= x < |t.nodes| ==> t'.nodes[x].kind == t.nodes[x].kind && t'.nodes[x].refs == t.nodes[x].refs)
    && (forall x :: 0 <= x < |t.nodes| && x != dir ==> t'.listing[x] == t.listing[x])
    && ListingAfter(t.listing[dir], e, stale, t'.listing[dir])
    && (forall a :: 0 <= a < |stale| ==> |stale[a]| == PER_BLOCK)
  }

  // Where the new element is for certain.
  lemma NewPlace(t: Tree, dir: int, e: Entry, stale: seq<seq<Entry>>, t': Tree) returns (p: Place)
    requires TreeAfter(t, dir, e, stale, t') && e.used != 0
    ensures p.d == dir && Names(t', dir, p.a, p.i, e.id) && forall y :: !Names(t, dir, p.a, p.i, y)
    ensures IsPlace(t', dir, p.a, p.i) && t'.listing[dir][p.a][p.i] == e
    ensures IsPlace(t, dir, p.a, p.i) ==> t.listing[dir][p.a][p.i].used == 0
  {
    var ls := t.listing[dir];
    var offered := Offered(ls, stale);
    if SomeRoom(offered) {
      var a :| 0 <= a < |offered| && HasRoom(offered[a]);
      p := Place(dir, a, FirstUnused(offered[a]));
      assert t'.listing[dir][a] == InsertedIn(offered[a], e);
    } else {
      p := Place(dir, |offered|, 0);
      assert t'.listing[dir][|offered|] == stale[|stale| - 1][0 := e];
    }
  }

  // Elements in use stay in use.
  lemma NamesStay(t: Tree, dir: int, e: Entry, stale: seq<seq<Entry>>, t': Tree, d: int, a: int, i: int, y: int)
    requires TreeAfter(t, dir, e, stale, t') && Names(t, d, a, i, y)
    ensures Names(t', d, a, i, y)
  {
    if d == dir && SomeRoom(Offered(t.listing[dir], stale)) {
      assert t'.listing[dir][a] == InsertedIn(t.listing[dir][a], e);
    }
  }

  // p is the only place that has come into use.
  ghost predicate OnlyNew(t: Tree, t': Tree, p: Place) {
    forall d, a, i, y :: Names(t', d, a, i, y) && !Names(t, d, a, i, y) ==> Place(d, a, i) == p
  }

  // Apart from p nothing new comes into use, just if one block has room, or the block
  // taken is clean.
  lemma OneComesInExactly(t: Tree, dir: int, e: Entry, stale: seq<seq<Entry>>, t': Tree, p: Place)
    requires TreeAfter(t, dir, e, stale, t') && e.used != 0
    requires p.d == dir && Names(t', dir, p.a, p.i, e.id) && forall y :: !Names(t, dir, p.a, p.i, y)
    ensures OneComesIn(t.listing[dir], stale) <==> OnlyNew(t, t', p)
  {
    if !SomeRoom(Offered(t.listing[dir], stale)) {
      AppendedExactly(t, dir, e, stale, t', p);
    } else if t.listing[dir] == [] {
      FirstBlockExactly(t, dir, e, stale, t', p);
    } else {
      FilledInExactly(t, dir, e, stale, t', p);
    }
  }

  lemma FilledInExactly(t: Tree, dir: int, e: Entry, stale: seq<seq<Entry>>, t': Tree, p: Place)
    requires TreeAfter(t, dir, e, stale, t') && e.used != 0
    requires p.d == dir && Names(t', dir, p.a, p.i, e.id) && forall y :: !Names(t, dir, p.a, p.i, y)
    requires t.listing[dir] != [] && SomeRoom(t.listing[dir])
    ensures OneComesIn(t.listing[dir], stale) <==> OnlyNew(t, t', p)
  {
    var ls, ls' := t.listing[dir], t'.listing[dir];
    assert forall a :: 0 <= a < |ls| ==> ls'[a] == InsertedIn(ls[a], e);
    forall d, a, i, y | Names(t', d, a, i, y) && !Names(t, d, a, i, y)
      ensures d == dir && HasRoom(ls[a]) && i == FirstUnused(ls[a])
    {
      assert d == dir ==> ls'[a] == InsertedIn(ls[a], e);
    }
    assert !Names(t, dir, p.a, p.i, e.id);
    if OnlyNew(t, t', p) {
      forall a | 0 <= a < |ls| && HasRoom(ls[a])
        ensures a == p.a
      {
        assert Names(t', dir, a, FirstUnused(ls[a]), e.id);
        assert !Names(t, dir, a, FirstUnused(ls[a]), e.id);
      }
    }
  }

  lemma FirstBlockExactly(t: Tree, dir: int, e: Entry, stale: seq<seq<Entry>>, t': Tree, p: Place)
    requires TreeAfter(t, dir, e, stale, t') && e.used != 0
    requires p.d == dir && Names(t', dir, p.a, p.i, e.id) && forall y :: !Names(t, dir, p.a, p.i, y)
    requires t.listing[dir] == [] && SomeRoom(Offered([], stale))
    ensures OneComesIn(t.listing[dir], stale) <==> OnlyNew(t, t', p)
  {
    var es, ls' := stale[0], t'.listing[dir];
    var k := FirstUnused(es);
    assert ls'[0] == es[k := e];
    assert Names(t', dir, 0, k, e.id) && !Names(t, dir, 0, k, e.id);
    assert forall i :: 0 <= i < |es| && es[i].used != 0 ==>
      Names(t', dir, 0, i, es[i].id) && !Names(t, dir, 0, i, es[i].id);
  }

  lemma AppendedExactly(t: Tree, dir: int, e: Entry, stale: seq<seq<Entry>>, t': Tree, p: Place)
    requires TreeAfter(t, dir, e, stale, t') && e.used != 0
    requires p.d == dir && Names(t', dir, p.a, p.i, e.id) && forall y :: !Names(t, dir, p.a, p.i, y)
    requires !SomeRoom(Offered(t.listing[dir], stale))
    ensures OneComesIn(t.listing[dir], stale) <==> OnlyNew(t, t', p)
  {
    var offered, es, ls' := Offered(t.listing[dir], stale), stale[|stale| - 1], t'.listing[dir];
    var n := |offered|;
    assert ls'[n] == es[0 := e];
    assert Names(t', dir, n, 0, e.id) && !Names(t, dir, n, 0, e.id);
    if t.listing[dir] == [] {
      assert !HasRoom(offered[0]) && ls'[0] == offered[0];
      assert Names(t', dir, 0, 0, ls'[0][0].id) && !Names(t, dir, 0, 0, ls'[0][0].id);
    } else {
      assert forall i :: 0 < i < |es| ==> es[1..][i - 1] == es[i];
      assert forall i :: 0 < i < |es| && es[i].used != 0 ==>
        Names(t', dir, n, i, es[i].id) && !Names(t, dir, n, i, es[i].id);
      forall d, a, i, y | Names(t', d, a, i, y) && !Names(t, d, a, i, y)
        ensures d == dir && a == n && 0 <= i < |es| && (i > 0 ==> es[i].used != 0)
      {
      }
    }
  }

  // The new element accounts for the count that was raised for it: the counts are exact
  // again if and only if nothing else has come into use.
  lemma AddedLinks(t: Tree, t': Tree, x: int, p: Place)
    requires CountsExact(t, {}, x) && 0 <= x < |t.nodes| && |t'.nodes| == |t'.listing| == |t.nodes|
    requires forall y :: 0 <= y < |t.nodes| ==> t'.nodes[y].refs == t.nodes[y].refs
    requires forall d, a, i, y :: Names(t, d, a, i, y) ==> Names(t', d, a, i, y)
    requires Names(t', p.d, p.a, p.i, x) && !Names(t, p.d, p.a, p.i, x) && NamesInRange(t)
    ensures CountsExact(t', {}, -1) && NamesInRange(t') <==> OnlyNew(t, t', p)
  {
    hide Names, CountsExact;
    if OnlyNew(t, t', p) {
      CountsAddUp(t, t', x, p);
    }
    if CountsExact(t', {}, -1) && NamesInRange(t') {
      forall d, a, i, y | Names(t', d, a, i, y) && !Names(t, d, a, i, y)
        ensures Place(d, a, i) == p
      {
        NoOtherLink(t, t', x, p, Place(d, a, i), y);
      }
    }
  }

  lemma CountsAddUp(t: Tree, t': Tree, x: int, p: Place)
    requires CountsExact(t, {}, x) && 0 <= x < |t.nodes| && |t'.nodes| == |t'.listing| == |t.nodes|
    requires forall y :: 0 <= y < |t.nodes| ==> t'.nodes[y].refs == t.nodes[y].refs
    requires forall d, a, i, y :: Names(t, d, a, i, y) ==> Names(t', d, a, i, y)
    requires Names(t', p.d, p.a, p.i, x) && !Names(t, p.d, p.a, p.i, x) && NamesInRange(t)
    requires OnlyNew(t, t', p)
    ensures CountsExact(t', {}, -1) && NamesInRange(t')
  {
    hide Names, OnlyNew, Places, LinksTo;
    forall y | 0 <= y < |t.nodes|
      ensures |LinksTo(t', {}, y)| == |LinksTo(t, {}, y)| + Bit(y == x)
    {
      OneLinkMore(t, t', x, p, y);
    }
    forall d, a, i, y | Names(t', d, a, i, y)
      ensures 0 <= y < |t'.nodes|
    {
      IsNew(t, t', p, x, Place(d, a, i), y);
    }
  }

  // The new element is the one link that has come, and it leads to x.
  lemma OneLinkMore(t: Tree, t': Tree, x: int, p: Place, y: int)
    requires |t'.nodes| == |t'.listing| == |t.nodes| == |t.listing| && OnlyNew(t, t', p)
    requires forall d, a, i, y :: Names(t, d, a, i, y) ==> Names(t', d, a, i, y)
    requires Names(t', p.d, p.a, p.i, x) && !Names(t, p.d, p.a, p.i, x)
    ensures |LinksTo(t', {}, y)| == |LinksTo(t, {}, y)| + Bit(y == x)
  {
    hide Names, OnlyNew, Places;
    forall q
      ensures q in LinksTo(t', {}, y) <==> q in LinksTo(t, {}, y) || (y == x && q == p)
    {
      IsNew(t, t', p, x, q, y);
    }
    assert LinksTo(t', {}, y) == LinksTo(t, {}, y) + if y == x then {p} else {};
  }

  lemma IsNew(t: Tree, t': Tree, p: Place, x: int, q: Place, y: int)
    requires OnlyNew(t, t', p) && Names(t', p.d, p.a, p.i, x)
    ensures Names(t', q.d, q.a, q.i, y) && !Names(t, q.d, q.a, q.i, y) ==> q == p && y == x
  {
  }

  lemma NoOtherLink(t: Tree, t': Tree, x: int, p: Place, q: Place, y: int)
    requires CountsExact(t, {}, x) && CountsExact(t', {}, -1) && 0 <= x < |t.nodes| && 0 <= y < |t.nodes| == |t'.nodes|
    requires t'.nodes[y].refs == t.nodes[y].refs
    requires forall d, a, i, y :: Names(t, d, a, i, y) ==> Names(t', d, a, i, y)
    requires Names(t', p.d, p.a, p.i, x) && !Names(t, p.d, p.a, p.i, x)
    requires Names(t', q.d, q.a, q.i, y) && !Names(t, q.d, q.a, q.i, y)
    ensures q == p
  {
    hide Names;
    var more := LinksTo(t, {}, y) + {q} + if y == x then {p} else {};
    SubsetIsSmaller(more, LinksTo(t', {}, y));
  }

  // ----- on the disc -----

  ghost predicate EntryAdded(d: Disk, chains: seq<seq<int>>, dir: int, e: Entry, d': Disk, chains': seq<seq<int>>) {
    && InBlocks(d, chains) && InBlocks(d', chains') && WholeBlocks(d.data) && 0 <= dir < |d.nodes| == |d'.nodes|
    && d.nodes[dir].kind == Directory
    && d'.nodes == d.nodes[dir := d.nodes[dir].(first := d'.nodes[dir].first)]
    && chains' == chains[dir := chains'[dir]] && chains[dir] <= chains'[dir]
    && |d'.data| == |d.data| && (forall b :: 0 <= b < |d.data| && b !in chains'[dir] ==> d'.data[b] == d.data[b])
    && (forall b :: b in chains'[dir] && b !in chains[dir] ==> 0 <= b < |d.used| && !d.used[b])
    && NextFree(d.used, chains'[dir][|chains[dir]|..])
    && ListingAfter(Listing(d.data, chains[dir]), e, Taken(d, chains, dir, chains'), Listing(d'.data, chains'[dir]))
  }

  // What the blocks taken for the directory held before.
  ghost function Taken(d: Disk, chains: seq<seq<int>>, dir: int, chains': seq<seq<int>>): (stale: seq<seq<Entry>>)
    requires 0 <= dir < |chains| == |chains'| && |chains[dir]| <= |chains'[dir]|
    requires forall a :: 0 <= a < |chains'[dir]| ==>
      0 <= chains'[dir][a] < |d.data| && |d.data[chains'[dir][a]]| == BLOCK_SIZE
  {
    Listing(d.data, chains'[dir][|chains[dir]|..])
  }

  ghost predicate LowestFree(used: seq<bool>, x: int) {
    0 <= x < |used| && !used[x] && forall b :: 0 <= b < x ==> used[b]
  }

  // Each of the blocks is the lowest free one once those before it have been taken.
  ghost predicate NextFree(used: seq<bool>, bs: seq<int>)
    decreases |bs|
  {
    bs == [] || (LowestFree(used, bs[0]) && NextFree(used[bs[0] := true], bs[1..]))
  }

  // How many blocks the insertion takes; two, if the directory had none and the block
  // taken first turns out to be full of old elements.
  ghost function BlocksTaken(d: Disk, chains: seq<seq<int>>, dir: int): nat
    requires InBlocks(d, chains) && 0 <= dir < |chains| && WholeBlocks(d.data) && |d.data| == |d.used|
  {
    if chains[dir] != [] then Bit(!SomeRoom(Listing(d.data, chains[dir])))
    else if exists x :: LowestFree(d.used, x) && HasRoom(Elements(d.data[x])) then 1 else 2
  }

  lemma SpareBlock(d: Disk, chains: seq<seq<int>>, dir: int)
    requires InBlocks(d, chains) && 0 <= dir < |chains| && WholeBlocks(d.data) && |d.data| == |d.used|
    ensures chains[dir] == [] ==> 0 < BlocksTaken(d, chains, dir)
    ensures Bit(chains[dir] == []) <= BlocksTaken(d, chains, dir)
  {
  }

  lemma SpareBlockLeft(d: Disk, chains: seq<seq<int>>, dir: int, x: int, chain: seq<int>)
    requires InBlocks(d, chains) && 0 <= dir < |chains| && WholeBlocks(d.data) && |d.data| == |d.used|
    requires if chains[dir] != [] then chain == chains[dir] else chain == [x] && LowestFree(d.used, x)
    requires forall a :: 0 <= a < |chain| ==> 0 <= chain[a] < |d.data|
    requires !SomeRoom(Listing(d.data, chain))
    ensures Bit(chains[dir] == []) + 1 == BlocksTaken(d, chains, dir)
  {
    hide HasRoom;
    assert forall a :: 0 <= a < |chain| ==> !HasRoom(Elements(d.data[chain[a]]));
    assert chains[dir] == [] ==> x == chain[0] && |d.data[x]| == BLOCK_SIZE;
    assert chains[dir] == [] ==> forall z :: LowestFree(d.used, z) ==> z == x;
  }

  lemma HeadOfChain(next: seq<int>, head: int, path: seq<int>)
    requires Linked(next, head, path)
    ensures path == [] <==> head == NIL
  {
  }

  lemma TakingKeepsWellFormed(d: Disk, chains: seq<seq<int>>, f: int, x: int, linked: Disk, d': Disk)
    requires WellFormed(d, chains, NIL) && SizesFit(d, chains) && LinkedIn(d, chains, f, x, linked)
    requires x < |d.used| && !d.used[x] && d.nodes[f].kind == Directory
    requires d' == linked.(used := linked.used[x := true])
    ensures WellFormed(d', chains[f := chains[f] + [x]], NIL) && SizesFit(d', chains[f := chains[f] + [x]])
    ensures CountFree(d'.used) == CountFree(d.used) - 1
    ensures forall i :: 0 <= i < |chains| ==> x !in chains[i]
  {
    hide Linked, Owned;
    FreeIsUnowned(d, chains, x);
    LinkingKeepsWellFormed(d, chains, f, x, linked);
    OwnedAfterAppend(chains, f, x);
    MarkingKeepsWellFormed(linked, chains[f := chains[f] + [x]], x, d');
    CountFreeAfterMark(d.used, x);
  }

  // The new element has gone into every block of the chain that had room.
  ghost predicate InsertedInChain(data: seq<seq<Byte>>, chain: seq<int>, e: Entry, data': seq<seq<Byte>>) {
    && |data'| == |data| && |e.name| == NAME_LEN && e.id < 0x1_0000
    && (forall b :: 0 <= b < |data| ==> |data[b]| == BLOCK_SIZE)
    && forall b :: 0 <= b < |data| ==> data'[b] == if b in chain then InsertedBytes(data[b], e) else data[b]
  }

  lemma InsertedListing(data: seq<seq<Byte>>, chain: seq<int>, e: Entry, data': seq<seq<Byte>>)
    requires InsertedInChain(data, chain, e, data') && forall a :: 0 <= a < |chain| ==> 0 <= chain[a] < |data|
    ensures WholeBlocks(data')
    ensures Listing(data', chain) == InsertedEverywhere(Listing(data, chain), e)
  {
    forall a | 0 <= a < |chain|
      ensures Elements(data'[chain[a]]) == InsertedIn(Elements(data[chain[a]]), e)
    {
      InsertedReadsBack(data[chain[a]], e);
    }
  }

  lemma InsertedIsWhole(d: Disk, chains: seq<seq<int>>, chain: seq<int>, e: Entry, d': Disk)
    requires WellFormed(d, chains, NIL) && SizesFit(d, chains)
    requires InsertedInChain(d.data, chain, e, d'.data) && d' == d.(data := d'.data)
    ensures WellFormed(d', chains, NIL) && SizesFit(d', chains)
  {
  }

  // One block of a directory, or anything else that is not in a file's way, is rewritten.
  lemma BlockRewritten(d: Disk, chains: seq<seq<int>>, y: int, block: seq<Byte>, d': Disk)
    requires WellFormed(d, chains, NIL) && SizesFit(d, chains)
    requires 0 <= y < |d.data| && |block| == BLOCK_SIZE && d' == d.(data := d.data[y := block])
    ensures WellFormed(d', chains, NIL) && SizesFit(d', chains)
  {
  }

  // The first a blocks of the chain have been dealt with.
  ghost predicate InsertedUpTo(data: seq<seq<Byte>>, chain: seq<int>, a: nat, e: Entry, data': seq<seq<Byte>>,
                               success: bool) {
    && a <= |chain| && InsertedInChain(data, chain[..a], e, data')
    && (forall k :: 0 <= k < |chain| ==> 0 <= chain[k] < |data|)
    && (success <==> SomeRoom(Listing(data, chain)[..a]))
  }

  lemma NothingInserted(data: seq<seq<Byte>>, chain: seq<int>, e: Entry)
    requires WholeBlocks(data) && |e.name| == NAME_LEN && e.id < 0x1_0000
    requires forall k :: 0 <= k < |chain| ==> 0 <= chain[k] < |data|
    ensures InsertedUpTo(data, chain, 0, e, data, false)
  {
  }

  lemma OneMoreInserted(data: seq<seq<Byte>>, chain: seq<int>, a: nat, e: Entry, mid: seq<seq<Byte>>, success: bool,
                        data': seq<seq<Byte>>)
    requires InsertedUpTo(data, chain, a, e, mid, success) && a < |chain| && Distinct(chain)
    ensures 0 <= chain[a] < |mid| && mid[chain[a]] == data[chain[a]]
    ensures data' == mid[chain[a] := InsertedBytes(data[chain[a]], e)] ==>
      InsertedUpTo(data, chain, a + 1, e, data', success || HasRoom(Elements(data[chain[a]])))
  {
    hide InsertedBytes, HasRoom;
    var ls := Listing(data, chain);
    assert chain[..a + 1] == chain[..a] + [chain[a]];
    assert ls[..a + 1] == ls[..a] + [ls[a]];
    assert SomeRoom(ls[..a + 1]) <==> SomeRoom(ls[..a]) || HasRoom(ls[a]) by {
      assert forall k :: 0 <= k < a ==> ls[..a][k] == ls[..a + 1][k];
      assert ls[..a + 1][a] == ls[a];
    }
  }

  lemma AllInserted(data: seq<seq<Byte>>, chain: seq<int>, e: Entry, data': seq<seq<Byte>>, success: bool)
    requires InsertedUpTo(data, chain, |chain|, e, data', success)
    ensures InsertedInChain(data, chain, e, data') && (success <==> SomeRoom(Listing(data, chain)))
  {
    assert chain[..|chain|] == chain && Listing(data, chain)[..|chain|] == Listing(data, chain);
    hide InsertedInChain, SomeRoom;
  }

  // A block behind the others, with the new element in front of what it held before.
  lemma AppendedListing(data: seq<seq<Byte>>, chain: seq<int>, y: int, e: Entry, data': seq<seq<Byte>>)
    requires forall a :: 0 <= a < |chain| ==> 0 <= chain[a] < |data| && |data[chain[a]]| == BLOCK_SIZE
    requires 0 <= y < |data| && |data[y]| == BLOCK_SIZE && y !in chain && |e.name| == NAME_LEN && e.id < 0x1_0000
    requires data' == data[y := PutEntry(data[y], 0, e)]
    ensures Listing(data', chain + [y]) == Listing(data, chain) + [Elements(data[y])[0 := e]]
  {
    hide PutEntry;
    forall i | 0 <= i < PER_BLOCK
      ensures EntryAt(data'[y], i) == if i == 0 then e else EntryAt(data[y], i)
    {
      EntryReadsBack(data[y], 0, e, i);
    }
    assert Elements(data'[y]) == Elements(data[y])[0 := e];
    assert forall a :: 0 <= a < |chain| ==> chain[a] != y;
  }

  // The listing after the steps: x is the first block, if the directory had none, y the
  // block appended, if no other had room.
  lemma StepsListing(was: seq<int>, e: Entry, x: int, chain: seq<int>, data: seq<seq<Byte>>, mid: seq<seq<Byte>>,
                     y: int, data': seq<seq<Byte>>)
    requires if was != [] then chain == was else chain == [x]
    requires InsertedInChain(data, chain, e, mid) && forall a :: 0 <= a < |chain| ==> 0 <= chain[a] < |data|
    requires if SomeRoom(Listing(data, chain)) then y == NIL && data' == mid
             else 0 <= y < |data| && y !in chain && data' == mid[y := PutEntry(data[y], 0, e)]
    ensures var chain' := if y == NIL then chain else chain + [y];
            && |data'| == |data| && WholeBlocks(data')
            && ListingAfter(Listing(data, was), e, Listing(data, chain'[|was|..]), Listing(data', chain'))
  {
    hide InsertedBytes, PutEntry, SomeRoom, InsertedEverywhere;
    var chain' := if y == NIL then chain else chain + [y];
    InsertedListing(data, chain, e, mid);
    assert Offered(Listing(data, was), Listing(data, chain'[|was|..])) == Listing(data, chain);
    if y != NIL {
      AppendedListing(mid, chain, y, e, data');
      NoRoomNothingInserted(Listing(data, chain), e);
      assert mid[y] == data[y];
    }
  }

  lemma StepsAddEntry(d: Disk, chains: seq<seq<int>>, dir: int, e: Entry, x: int, chain: seq<int>,
                      data: seq<seq<Byte>>, y: int, chain': seq<int>, d': Disk)
    requires WellFormed(d, chains, NIL) && 0 <= dir < |d.nodes| == |chains| && d.nodes[dir].kind == Directory
    requires |d'.nodes| == |d.nodes| && d'.nodes == d.nodes[dir := d.nodes[dir].(first := d'.nodes[dir].first)]
    requires if chains[dir] != [] then chain == chains[dir] else chain == [x] && LowestFree(d.used, x)
    requires y != NIL ==> LowestFree(if chains[dir] != [] then d.used else d.used[x := true], y)
    requires InsertedInChain(d.data, chain, e, data)
    requires |d.data| == |d.used| && (forall a :: 0 <= a < |chain| ==> 0 <= chain[a] < |d.data|)
    requires WholeBlocks(d.data)
    requires if SomeRoom(Listing(d.data, chain)) then y == NIL && d'.data == data
             else 0 <= y < |d.used| && !d.used[y] && y !in chain && d'.data == data[y := PutEntry(d.data[y], 0, e)]
    requires chain' == if y == NIL then chain else chain + [y]
    ensures EntryAdded(d, chains, dir, e, d', chains[dir := chain'])
  {
    hide WellFormed, InsertedBytes, PutEntry, SomeRoom, ListingAfter, InsertedInChain, EntryAdded, InBlocks,
      LowestFree, NextFree, WholeBlocks, Elements, Owned, Linked, Distinct;
    var chains' := chains[dir := chain'];
    ChainsInBlocks(d, chains);
    StepsListing(chains[dir], e, x, chain, d.data, data, y, d'.data);
    ChainsStillInBlocks(d, chains, dir, chains', d');
    TakenBlocks(chains[dir], x, chain, y);
    TakenNext(d.used, chains[dir], x, chain, y);
    InsertedElsewhere(d.data, chain, e, data);
    StepsFit(d, chains, dir, e, x, chain, data, y, d', chains');
  }

  lemma TakenBlocks(was: seq<int>, x: int, chain: seq<int>, y: int)
    requires if was != [] then chain == was else chain == [x]
    ensures var chain' := if y == NIL then chain else chain + [y];
            was <= chain' && (forall b :: b in chain ==> b in chain') && (y != NIL ==> y in chain')
            && forall b :: b in chain' && b !in was ==> (b == y && y != NIL) || (was == [] && b == x)
  {
  }

  lemma TakenNext(used: seq<bool>, was: seq<int>, x: int, chain: seq<int>, y: int)
    requires if was != [] then chain == was else chain == [x] && LowestFree(used, x)
    requires y != NIL ==> LowestFree(if was != [] then used else used[x := true], y)
    ensures NextFree(used, (if y == NIL then chain else chain + [y])[|was|..])
  {
    var now := if was != [] then used else used[x := true];
    if y != NIL { assert [y][1..] == [] && NextFree(now, [y]); }
    var taken := (if y == NIL then chain else chain + [y])[|was|..];
    if was == [] {
      assert taken[0] == x && taken[1..] == if y == NIL then [] else [y];
    } else {
      assert taken == if y == NIL then [] else [y];
    }
  }

  lemma InsertedElsewhere(data: seq<seq<Byte>>, chain: seq<int>, e: Entry, data': seq<seq<Byte>>)
    requires InsertedInChain(data, chain, e, data')
    ensures |data'| == |data| && forall b :: 0 <= b < |data| && b !in chain ==> data'[b] == data[b]
  {
  }

  lemma StepsFit(d: Disk, chains: seq<seq<int>>, dir: int, e: Entry, x: int, chain: seq<int>, data: seq<seq<Byte>>,
                 y: int, d': Disk, chains': seq<seq<int>>)
    requires InBlocks(d, chains) && InBlocks(d', chains') && WholeBlocks(d.data)
    requires 0 <= dir < |d.nodes| == |d'.nodes| == |chains| && d.nodes[dir].kind == Directory
    requires d'.nodes == d.nodes[dir := d.nodes[dir].(first := d'.nodes[dir].first)]
    requires chains' == chains[dir := if y == NIL then chain else chain + [y]] && chains[dir] <= chains'[dir]
    requires forall b :: b in chains'[dir] && b !in chains[dir] ==>
      (b == y && y != NIL) || (chains[dir] == [] && b == x)
    requires chains[dir] == [] ==> LowestFree(d.used, x) && 0 <= x < |d.used|
    requires NextFree(d.used, chains'[dir][|chains[dir]|..])
    requires y != NIL ==> 0 <= y < |d.used| && !d.used[y]
    requires |data| == |d.data| == |d'.data| && forall b :: 0 <= b < |d.data| && b !in chain ==> data[b] == d.data[b]
    requires forall b :: 0 <= b < |d.data| && b != y ==> d'.data[b] == data[b]
    requires (forall b :: b in chain ==> b in chains'[dir]) && (y != NIL ==> y in chains'[dir])
    requires ListingAfter(Listing(d.data, chains[dir]), e, Taken(d, chains, dir, chains'),
                          Listing(d'.data, chains'[dir]))
    ensures EntryAdded(d, chains, dir, e, d', chains')
  {
    hide ListingAfter, InBlocks;
  }

  lemma NoRoomNothingInserted(ls: seq<seq<Entry>>, e: Entry)
    requires !SomeRoom(ls)
    ensures InsertedEverywhere(ls, e) == ls
  {
  }

  lemma ChainsStillInBlocks(d: Disk, chains: seq<seq<int>>, dir: int, chains': seq<seq<int>>, d': Disk)
    requires InBlocks(d, chains) && 0 <= dir < |chains| == |chains'| && |d'.nodes| == |chains|
    requires chains' == chains[dir := chains'[dir]] && |d'.data| == |d.data| && WholeBlocks(d'.data)
    requires forall a :: 0 <= a < |chains'[dir]| ==> 0 <= chains'[dir][a] < |d.data|
    ensures InBlocks(d', chains')
  {
  }

  // The tree afterwards, and what is left alone.
  lemma EntryAddedToTree(d: Disk, chains: seq<seq<int>>, dir: int, e: Entry, d': Disk, chains': seq<seq<int>>)
    requires WellFormed(d, chains, NIL) && EntryAdded(d, chains, dir, e, d', chains')
    ensures TreeAfter(TreeOf(d, chains), dir, e, Taken(d, chains, dir, chains'), TreeOf(d', chains'))
    ensures OthersKept(d, chains, d', chains', dir)
  {
    hide WellFormed, ListingAfter;
    forall x, b | 0 <= x < |chains| && x != dir && b in chains[x]
      ensures b !in chains'[dir] && 0 <= b < |d.data|
    {
      var a :| 0 <= a < |chains[x]| && chains[x][a] == b;
      BlockIsUnshared(d, chains, x, b);
      if b in chains'[dir] {
        FreeIsUnowned(d, chains, b);
      }
    }
    var t, t' := TreeOf(d, chains), TreeOf(d', chains');
    forall x | 0 <= x < |d.nodes| && x != dir
      ensures t'.listing[x] == t.listing[x]
    {
      assert chains'[x] == chains[x];
      assert forall a :: 0 <= a < |chains[x]| ==> chains[x][a] in chains[x];
    }
  }

  // ----- what is known before -----

  // The blocks that an insertion will take.
  ghost predicate WillTake(d: Disk, chains: seq<seq<int>>, dir: int, bs: seq<int>)
    requires InBlocks(d, chains) && 0 <= dir < |chains| && WholeBlocks(d.data) && |d.data| == |d.used|
  {
    NextFree(d.used, bs) && |bs| == BlocksTaken(d, chains, dir)
  }

  lemma {:induction false} NextFreeIsUnique(used: seq<bool>, a: seq<int>, b: seq<int>)
    requires NextFree(used, a) && NextFree(used, b) && |a| == |b|
    ensures a == b && forall i :: 0 <= i < |a| ==> 0 <= a[i] < |used|
    decreases |a|
  {
    if a != [] {
      assert a[0] == b[0];
      NextFreeIsUnique(used[a[0] := true], a[1..], b[1..]);
      assert a == [a[0]] + a[1..] && b == [b[0]] + b[1..];
    }
  }

  ghost function TakenBefore(d: Disk, chains: seq<seq<int>>, dir: int): (bs: seq<int>)
    requires InBlocks(d, chains) && 0 <= dir < |chains| && WholeBlocks(d.data) && |d.data| == |d.used|
    ensures (exists b :: WillTake(d, chains, dir, b)) ==> WillTake(d, chains, dir, bs)
    ensures forall i :: 0 <= i < |bs| ==> 0 <= bs[i] < |d.data|
  {
    if b :| WillTake(d, chains, dir, b) then
      NextFreeIsUnique(d.used, b, b);
      b
    else []
  }

  // What those blocks hold, a function of the disc before.
  ghost function StaleBefore(d: Disk, chains: seq<seq<int>>, dir: int): seq<seq<Entry>>
    requires InBlocks(d, chains) && 0 <= dir < |chains| && WholeBlocks(d.data) && |d.data| == |d.used|
  {
    Listing(d.data, TakenBefore(d, chains, dir))
  }

  // An insertion takes just those, and the directory gets to hold what they held; which inodes
  // there are makes no difference.
  lemma StaleIsKnown(d: Disk, chains: seq<seq<int>>, d1: Disk, dir: int, e: Entry, d': Disk, chains': seq<seq<int>>)
    requires InBlocks(d, chains) && 0 <= dir < |chains| && WholeBlocks(d.data) && |d.data| == |d.used|
    requires d1 == d.(nodes := d1.nodes) && EntryAdded(d1, chains, dir, e, d', chains')
    ensures WillTake(d, chains, dir, chains'[dir][|chains[dir]|..])
    ensures Taken(d1, chains, dir, chains') == StaleBefore(d, chains, dir)
  {
    var taken := chains'[dir][|chains[dir]|..];
    TakesAsMany(d1, chains, dir, e, d', chains');
    assert BlocksTaken(d1, chains, dir) == BlocksTaken(d, chains, dir);
    assert NextFree(d.used, taken);
    hide EntryAdded, BlocksTaken, NextFree, WholeBlocks, InBlocks;
    assert WillTake(d, chains, dir, taken);
    NextFreeIsUnique(d.used, taken, TakenBefore(d, chains, dir));
  }

  lemma TakesAsMany(d: Disk, chains: seq<seq<int>>, dir: int, e: Entry, d': Disk, chains': seq<seq<int>>)
    requires EntryAdded(d, chains, dir, e, d', chains') && |d.data| == |d.used|
    ensures |chains'[dir]| - |chains[dir]| == BlocksTaken(d, chains, dir)
  {
    var stale := Taken(d, chains, dir, chains');
    assert |stale| == |chains'[dir]| - |chains[dir]|;
    if chains[dir] == [] {
      var x := chains'[dir][0];
      assert stale != [];
      assert LowestFree(d.used, x) && forall z :: LowestFree(d.used, z) ==> z == x;
      assert Offered([], stale) == [stale[0]] && stale[0] == Elements(d.data[x]);
      assert SomeRoom([stale[0]]) <==> HasRoom(stale[0]) by { assert [stale[0]][0] == stale[0]; }
    }
  }

  // ----- counts -----

  // With the count of its inode raised beforehand, the insertion leaves a sound tree if and
  // only if just one element has come into use.
  lemma InsertionSettles(t: Tree, dir: int, e: Entry, stale: seq<seq<Entry>>, t': Tree)
    requires CountsExact(t, {}, e.id) && LiveHaveLinks(t, {}) && NamesInRange(t) && e.id < |t.nodes|
    requires TreeAfter(t, dir, e, stale, t') && e.used != 0
    ensures Sound(t') <==> OneComesIn(t.listing[dir], stale)
  {
    hide CountsExact, NamesInRange, OneComesIn, OnlyNew, TreeAfter, Names;
    var p := NewPlace(t, dir, e, stale, t');
    OneComesInExactly(t, dir, e, stale, t', p);
    forall d, a, i, y | Names(t, d, a, i, y)
      ensures Names(t', d, a, i, y)
    {
      NamesStay(t, dir, e, stale, t', d, a, i, y);
    }
    SameCounts(t, dir, e, stale, t');
    AddedLinks(t, t', e.id, p);
  }

  lemma SameCounts(t: Tree, dir: int, e: Entry, stale: seq<seq<Entry>>, t': Tree)
    requires TreeAfter(t, dir, e, stale, t') && LiveHaveLinks(t, {})
    ensures |t'.nodes| == |t.nodes| == |t'.listing| == |t.listing| && LiveHaveLinks(t', {})
    ensures forall x :: 0 <= x < |t.nodes| ==> t'.nodes[x].refs == t.nodes[x].refs
  {
  }

  // A count kept in eight bits.
  function Raised(refs: nat): nat {
    (refs + 1) % 0x100
  }

  // Linking inode f once more keeps the tree sound, if and only if its count does not
  // overflow and just one element comes into use.
  lemma LinkingSettles(t: Tree, f: int, t1: Tree, dir: int, e: Entry, stale: seq<seq<Entry>>, t': Tree)
    requires Sound(t) && 0 <= f < |t.nodes| && t.nodes[f].kind != Empty && t.nodes[f].refs < 0x100
    requires t1 == t.(nodes := t.nodes[f := t.nodes[f].(refs := Raised(t.nodes[f].refs))])
    requires TreeAfter(t1, dir, e, stale, t') && e.id == f && e.used != 0
    ensures Sound(t') <==> t.nodes[f].refs < 0xFF && OneComesIn(t.listing[dir], stale)
  {
    hide OneComesIn, Names, TreeAfter;
    assert forall d, a, i, y :: Names(t1, d, a, i, y) <==> Names(t, d, a, i, y) by { SameNames(t, t1); }
    if t.nodes[f].refs < 0xFF {
      forall x | 0 <= x < |t.nodes|
        ensures LinksTo(t1, {}, x) == LinksTo(t, {}, x)
      {
        SameLinks(t, t1, {}, {}, x);
      }
      InsertionSettles(t1, dir, e, stale, t');
    } else {
      var p := NewPlace(t1, dir, e, stale, t');
      ZeroStays(t1, dir, e, stale, t', f);
      LinkedIsCounted(t', dir, p.a, p.i, f);
    }
  }

  lemma SameNames(t: Tree, t1: Tree)
    requires t1.listing == t.listing && |t1.nodes| == |t.nodes|
    requires forall x :: 0 <= x < |t.nodes| ==> t1.nodes[x].kind == t.nodes[x].kind
    ensures forall d, a, i, y :: Names(t1, d, a, i, y) <==> Names(t, d, a, i, y)
  {
  }

  lemma ZeroStays(t: Tree, dir: int, e: Entry, stale: seq<seq<Entry>>, t': Tree, f: int)
    requires TreeAfter(t, dir, e, stale, t') && 0 <= f < |t.nodes|
    ensures |t'.listing| == |t'.nodes| == |t.nodes| && t'.nodes[f].refs == t.nodes[f].refs
  {
  }

  lemma LinkedIsCounted(t: Tree, d: int, a: int, i: int, x: int)
    requires |t.listing| == |t.nodes| && Names(t, d, a, i, x) && 0 <= x < |t.nodes| && t.nodes[x].refs == 0
    ensures !Sound(t)
  {
    SubsetIsSmaller({Place(d, a, i)}, LinksTo(t, {}, x));
  }

  // A new inode starts with the count of the element about to be added.
  lemma NewNodeSettles(t: Tree, f: int, t1: Tree, dir: int, e: Entry, stale: seq<seq<Entry>>, t': Tree)
    requires Sound(t) && 0 <= f < |t.nodes| && t.nodes[f].kind == Empty
    requires |t1.nodes| == |t.nodes| && t1 == t.(nodes := t.nodes[f := t1.nodes[f]]) && t1.nodes[f].kind == File
    requires t1.nodes[f].refs == 1
    requires TreeAfter(t1, dir, e, stale, t') && e.id == f && e.used != 0
    ensures Sound(t') <==> OneComesIn(t.listing[dir], stale)
  {
    hide OneComesIn, TreeAfter;
    assert forall d, a, i, y :: Names(t1, d, a, i, y) <==> Names(t, d, a, i, y);
    hide Names;
    forall x | 0 <= x < |t.nodes|
      ensures LinksTo(t1, {}, x) == LinksTo(t, {}, x)
    {
      SameLinks(t, t1, {}, {}, x);
    }
    InsertionSettles(t1, dir, e, stale, t');
  }

  // The count of inode f has been raised and the element added.
  ghost predicate LinkAdded(d: Disk, chains: seq<seq<int>>, f: int, dir: int, e: Entry, stale: seq<seq<Entry>>,
                            d': Disk, chains': seq<seq<int>>) {
    0 <= f < |d.nodes| && var d1 := d.(nodes := d.nodes[f := d.nodes[f].(refs := Raised(d.nodes[f].refs))]);
      EntryAdded(d1, chains, dir, e, d', chains') && stale == Taken(d1, chains, dir, chains')
  }

  // One count has gone up, in eight bits; the other inodes keep theirs, and all their kinds
  // and sizes.
  lemma LinkAddedCounts(d: Disk, chains: seq<seq<int>>, f: int, dir: int, e: Entry, stale: seq<seq<Entry>>, d': Disk,
                        chains': seq<seq<int>>)
    requires LinkAdded(d, chains, f, dir, e, stale, d', chains')
    ensures 0 <= f < |d.nodes| == |d'.nodes|
    ensures forall x :: 0 <= x < |d.nodes| ==>
      && d'.nodes[x].refs == (if x == f then (d.nodes[f].refs + 1) % 0x100 else d.nodes[x].refs)
      && d'.nodes[x].kind == d.nodes[x].kind && d'.nodes[x].size == d.nodes[x].size
  {
    hide ListingAfter, NextFree, InBlocks, WholeBlocks;
  }

  lemma LinkAddedSettles(d: Disk, chains: seq<seq<int>>, f: int, dir: int, e: Entry, d1: Disk, d': Disk,
                         chains': seq<seq<int>>)
    returns (stale: seq<seq<Entry>>)
    requires WellFormed(d, chains, NIL) && SizesFit(d, chains) && InBlocks(d, chains) && Sound(TreeOf(d, chains))
    requires 0 <= f < |d.nodes| && d.nodes[f].kind != Empty && d.nodes[f].refs < 0x100 && e.id == f && e.used != 0
    requires d1 == d.(nodes := d.nodes[f := d.nodes[f].(refs := Raised(d.nodes[f].refs))])
    requires EntryAdded(d1, chains, dir, e, d', chains')
    ensures InBlocks(d', chains') && 0 <= dir < |chains| == |chains'| && |TreeOf(d, chains).listing| == |chains|
    ensures LinkAdded(d, chains, f, dir, e, stale, d', chains')
    ensures WholeBlocks(d.data) && |d.data| == |d.used| && stale == StaleBefore(d, chains, dir)
    ensures Sound(TreeOf(d', chains')) <==> d.nodes[f].refs < 0xFF && OneComesIn(TreeOf(d, chains).listing[dir], stale)
  {
    hide WellFormed, SizesFit, Sound, TreeAfter, OneComesIn, ListingAfter;
    RefsKeepWellFormed(d, chains, f, Raised(d.nodes[f].refs), d1);
    EntryAddedToTree(d1, chains, dir, e, d', chains');
    stale := Taken(d1, chains, dir, chains');
    WholeBlocksOf(d, chains);
    StaleIsKnown(d, chains, d1, dir, e, d', chains');
    LinkingSettles(TreeOf(d, chains), f, TreeOf(d1, chains), dir, e, stale, TreeOf(d', chains'));
  }

  lemma FoundIsLive(t: Tree, d: int, name: seq<Byte>, a: int, i: int, x: int)
    requires Sound(t) && FirstMatch(t, d, name, a, i) && t.listing[d][a][i].id == x
    ensures 0 <= x < |t.nodes| && t.nodes[x].kind != Empty
  {
    assert Names(t, d, a, i, x);
    if t.nodes[x].kind == Empty { LinkedIsCounted(t, d, a, i, x); }
  }

  // Where an element goes does not depend on the counts.
  lemma SameBlocksTaken(d: Disk, chains: seq<seq<int>>, d1: Disk, dir: int)
    requires WellFormed(d, chains, NIL) && WellFormed(d1, chains, NIL) && d1 == d.(nodes := d1.nodes)
    requires 0 <= dir < |chains|
    ensures InBlocks(d, chains) && InBlocks(d1, chains) && WholeBlocks(d.data) && |d.data| == |d.used|
    ensures BlocksTaken(d1, chains, dir) == BlocksTaken(d, chains, dir)
  {
  }

  // The old elements that the blocks taken bring with them.
  function LeftStanding(ls: seq<seq<Entry>>, stale: seq<seq<Entry>>): seq<Entry> {
    if stale == [] || stale[|stale| - 1] == [] then []
    else if ls == [] && |stale| == 1 then stale[0]
    else (if ls == [] then stale[0] else []) + stale[|stale| - 1][1..]
  }

  predicate AllInRange(es: seq<Entry>, n: nat) {
    forall j :: 0 <= j < |es| && es[j].used != 0 ==> es[j].id < n
  }

  lemma BroughtAlong(t: Tree, dir: int, e: Entry, stale: seq<seq<Entry>>, t': Tree, j: int)
    requires TreeAfter(t, dir, e, stale, t')
    requires var left := LeftStanding(t.listing[dir], stale); 0 <= j < |left| && left[j].used != 0
    ensures exists a, i :: Names(t', dir, a, i, LeftStanding(t.listing[dir], stale)[j].id)
  {
    var a, i := WhereLeft(t.listing[dir], e, stale, t'.listing[dir], j);
    assert Names(t', dir, a, i, LeftStanding(t.listing[dir], stale)[j].id);
  }

  lemma WhereLeft(ls: seq<seq<Entry>>, e: Entry, stale: seq<seq<Entry>>, ls': seq<seq<Entry>>, j: int)
    returns (a: int, i: int)
    requires ListingAfter(ls, e, stale, ls') && forall k :: 0 <= k < |stale| ==> |stale[k]| == PER_BLOCK
    requires 0 <= j < |LeftStanding(ls, stale)| && LeftStanding(ls, stale)[j].used != 0
    ensures 0 <= a < |ls'| && 0 <= i < |ls'[a]| && ls'[a][i] == LeftStanding(ls, stale)[j]
  {
    if SomeRoom(Offered(ls, stale)) {
      a, i := 0, j;
      assert Offered(ls, stale) == stale && LeftStanding(ls, stale) == stale[0];
      InsertedAround(stale[0], e, j);
    } else {
      hide SomeRoom, InsertedEverywhere;
      a := if ls != [] then |ls| else if j < PER_BLOCK then 0 else 1;
      i := if ls != [] then j + 1 else if j < PER_BLOCK then j else j - PER_BLOCK + 1;
    }
  }

  lemma InsertedAround(es: seq<Entry>, e: Entry, j: int)
    requires 0 <= j < |es| && es[j].used != 0
    ensures |InsertedIn(es, e)| == |es| && InsertedIn(es, e)[j] == es[j]
  {
  }

  lemma ComesFrom(t: Tree, dir: int, e: Entry, stale: seq<seq<Entry>>, t': Tree, d: int, a: int, i: int, x: int)
    returns (j: int)
    requires TreeAfter(t, dir, e, stale, t') && Names(t', d, a, i, x) && !Names(t, d, a, i, x) && x != e.id
    ensures var left := LeftStanding(t.listing[dir], stale); 0 <= j < |left| && left[j].used != 0 && left[j].id == x
  {
    assert d == dir;
    if SomeRoom(Offered(t.listing[dir], stale)) {
      j := i;
      RoomFilled(t.listing[dir], e, stale, t'.listing[dir], a, i);
    } else {
      hide Names, SomeRoom;
      j := if t.listing[dir] != [] then i - 1 else if a == 0 then i else PER_BLOCK + i - 1;
    }
  }

  lemma RoomFilled(ls: seq<seq<Entry>>, e: Entry, stale: seq<seq<Entry>>, ls': seq<seq<Entry>>, a: int, i: int)
    requires ListingAfter(ls, e, stale, ls') && SomeRoom(Offered(ls, stale)) && 0 <= a < |ls'| && 0 <= i < |ls'[a]|
    ensures |ls'| == |Offered(ls, stale)| && |ls'[a]| == |Offered(ls, stale)[a]|
    ensures ls'[a][i] == Offered(ls, stale)[a][i] || ls'[a][i] == e
  {
    assert ls'[a] == InsertedIn(Offered(ls, stale)[a], e);
  }

  // Elements in use name inodes of the disc, as before, if and only if those do that the
  // blocks taken bring with them.
  lemma RangeAfter(t: Tree, dir: int, e: Entry, stale: seq<seq<Entry>>, t': Tree)
    requires TreeAfter(t, dir, e, stale, t') && NamesInRange(t) && e.id < |t.nodes|
    ensures NamesInRange(t') <==> AllInRange(LeftStanding(t.listing[dir], stale), |t.nodes|)
  {
    var left := LeftStanding(t.listing[dir], stale);
    KindsStay(t, dir, e, stale, t', dir);
    hide TreeAfter, LeftStanding, Names;
    if NamesInRange(t') {
      forall j | 0 <= j < |left| && left[j].used != 0
        ensures left[j].id < |t.nodes|
      {
        BroughtAlong(t, dir, e, stale, t', j);
      }
    }
    if AllInRange(left, |t.nodes|) {
      forall d, a, i, x | Names(t', d, a, i, x)
        ensures 0 <= x < |t'.nodes|
      {
        if !Names(t, d, a, i, x) && x != e.id { var j := ComesFrom(t, dir, e, stale, t', d, a, i, x); }
      }
    }
  }

  // ----- looking names up afterwards -----

  // What was there is as it was, unless it was unused and is now the new element.
  lemma OldPlaceAfter(t: Tree, dir: int, e: Entry, stale: seq<seq<Entry>>, t': Tree, d: int, a: int, i: int)
    requires TreeAfter(t, dir, e, stale, t') && IsPlace(t, d, a, i)
    ensures IsPlace(t', d, a, i)
    ensures || t'.listing[d][a][i] == t.listing[d][a][i]
            || (d == dir && t.listing[d][a][i].used == 0 && t'.listing[d][a][i] == e)
  {
    if d == dir && SomeRoom(Offered(t.listing[dir], stale)) {
      assert t'.listing[dir][a] == InsertedIn(t.listing[dir][a], e);
    }
  }

  // Every name but the new one still stands for what it did.
  lemma OthersStillFound(t: Tree, dir: int, e: Entry, stale: seq<seq<Entry>>, t': Tree, d: int, n: seq<Byte>, a: int,
                         i: int)
    requires TreeAfter(t, dir, e, stale, t') && FirstMatch(t, d, n, a, i) && (d == dir ==> Text(e.name) != n)
    ensures FirstMatch(t', d, n, a, i) && t'.listing[d][a][i] == t.listing[d][a][i]
  {
    hide Text, TreeAfter;
    KindsStay(t, dir, e, stale, t', d);
    OldPlaceAfter(t, dir, e, stale, t', d, a, i);
    forall a', i' | IsPlace(t', d, a', i') && (a' < a || (a' == a && i' < i))
      ensures !Matches(t'.listing[d][a'][i'], n)
    {
      PlacesStay(t, dir, e, stale, t', d, a, i, a', i');
      OldPlaceAfter(t, dir, e, stale, t', d, a', i');
    }
  }

  lemma KindsStay(t: Tree, dir: int, e: Entry, stale: seq<seq<Entry>>, t': Tree, d: int)
    requires TreeAfter(t, dir, e, stale, t') && 0 <= d < |t.nodes|
    ensures |t'.nodes| == |t.nodes| == |t.listing| == |t'.listing| && t'.nodes[d].kind == t.nodes[d].kind
  {
  }

  lemma PlacesStay(t: Tree, dir: int, e: Entry, stale: seq<seq<Entry>>, t': Tree, d: int, a: int, i: int, a': int,
                   i': int)
    requires TreeAfter(t, dir, e, stale, t') && IsPlace(t, d, a, i) && IsPlace(t', d, a', i')
    requires a' < a || (a' == a && i' < i)
    ensures IsPlace(t, d, a', i')
  {
  }

  // Wherever a path led, it still leads there, whatever blocks were filled or taken.
  lemma StillLeads(t: Tree, dir: int, e: Entry, stale: seq<seq<Entry>>, t': Tree, path: seq<seq<Byte>>,
                   trail: seq<int>, places: seq<Place>)
    requires TreeAfter(t, dir, e, stale, t') && Leads(t, path, trail, places) && NoMatch(t, dir, Text(e.name))
    ensures Leads(t', path, trail, places)
  {
    hide Text, TreeAfter;
    KindsStay(t, dir, e, stale, t', 0);
    forall k | 0 <= k < |places|
      ensures StepsTo(t', trail[k], path[k], places[k], trail[k + 1])
    {
      assert StepsTo(t, trail[k], path[k], places[k], trail[k + 1]);
      OthersStillFound(t, dir, e, stale, t', trail[k], path[k], places[k].a, places[k].i);
      KindsStay(t, dir, e, stale, t', trail[k + 1]);
    }
  }

  // The first block with room, or their number.
  function FirstWithRoom(ls: seq<seq<Entry>>): (a: nat)
    ensures a <= |ls| && (a < |ls| ==> HasRoom(ls[a])) && forall b :: 0 <= b < a ==> !HasRoom(ls[b])
  {
    if ls == [] || HasRoom(ls[0]) then 0 else 1 + FirstWithRoom(ls[1..])
  }

  // Where the lookup comes to the new element first.
  function FirstNew(dir: int, ls: seq<seq<Entry>>, stale: seq<seq<Entry>>): Place {
    var offered := Offered(ls, stale);
    var a := FirstWithRoom(offered);
    Place(dir, a, if a < |offered| then FirstUnused(offered[a]) else 0)
  }

  // The old elements, none of them unused, that a lookup in a directory that had no block
  // comes to before the new one.
  function Ahead(ls: seq<seq<Entry>>, stale: seq<seq<Entry>>): seq<Entry> {
    if ls != [] || stale == [] then [] else stale[0][..FirstUnused(stale[0])]
  }

  // The new element is where it should be, and what comes before it was there before, or
  // is an old element ahead.
  lemma WhatComesBefore(t: Tree, dir: int, e: Entry, stale: seq<seq<Entry>>, t': Tree)
    requires TreeAfter(t, dir, e, stale, t')
    ensures var ls := t.listing[dir];
            var p := FirstNew(dir, ls, stale);
            && IsPlace(t', dir, p.a, p.i) && t'.listing[dir][p.a][p.i] == e
            && (ls == [] ==> PER_BLOCK == |t'.listing[dir][0]| && Ahead(ls, stale) <= t'.listing[dir][0])
            && forall a, i :: IsPlace(t', dir, a, i) && (a < p.a || (a == p.a && i < p.i)) ==>
                 if ls == [] then a == 0 && i < |Ahead(ls, stale)| && t'.listing[dir][a][i] == Ahead(ls, stale)[i]
                 else IsPlace(t, dir, a, i) && t'.listing[dir][a][i] == t.listing[dir][a][i]
  {
    var ls, ls' := t.listing[dir], t'.listing[dir];
    var offered := Offered(ls, stale);
    if SomeRoom(offered) {
      assert forall a :: 0 <= a < |offered| ==> ls'[a] == InsertedIn(offered[a], e);
    }
  }

  // The name of the new element is found there, unless an element ahead has it.
  lemma NewNameFound(t: Tree, dir: int, e: Entry, stale: seq<seq<Entry>>, t': Tree, name: seq<Byte>)
    requires TreeAfter(t, dir, e, stale, t') && Matches(e, name) && NoMatch(t, dir, name)
    requires forall j :: 0 <= j < |Ahead(t.listing[dir], stale)| ==> !Matches(Ahead(t.listing[dir], stale)[j], name)
    ensures var p := FirstNew(dir, t.listing[dir], stale);
            FirstMatch(t', dir, name, p.a, p.i) && t'.listing[dir][p.a][p.i] == e
  {
    WhatComesBefore(t, dir, e, stale, t');
    hide ListingAfter, Matches, FirstNew, Ahead;
  }

  // Element j is the first that has the name.
  predicate FirstNamed(es: seq<Entry>, name: seq<Byte>, j: int) {
    0 <= j < |es| && Matches(es[j], name) && forall i :: 0 <= i < j ==> !Matches(es[i], name)
  }

  lemma OldNameFound(t: Tree, dir: int, e: Entry, stale: seq<seq<Entry>>, t': Tree, name: seq<Byte>, j: int)
    requires TreeAfter(t, dir, e, stale, t') && FirstNamed(Ahead(t.listing[dir], stale), name, j)
    ensures FirstMatch(t', dir, name, 0, j) && t'.listing[dir][0][j] == Ahead(t.listing[dir], stale)[j]
  {
    WhatComesBefore(t, dir, e, stale, t');
    hide ListingAfter, Matches, FirstNew;
  }

  lemma {:induction false} SomeFirstNamed(es: seq<Entry>, name: seq<Byte>, n: nat) returns (j: int)
    requires n <= |es| && exists k :: 0 <= k < n && Matches(es[k], name)
    ensures FirstNamed(es, name, j)
  {
    if k :| 0 <= k < n - 1 && Matches(es[k], name) {
      j := SomeFirstNamed(es, name, n - 1);
    } else {
      j := n - 1;
    }
  }

  // No element ahead of the new one has its name, or the first that has stands for the
  // same inode.
  ghost predicate Uncontested(ls: seq<seq<Entry>>, stale: seq<seq<Entry>>, name: seq<Byte>, f: int) {
    forall j :: FirstNamed(Ahead(ls, stale), name, j) ==> Ahead(ls, stale)[j].id == f
  }

  // After the insertion the directory has the name, and it stands for the new element's
  // inode if and only if it is uncontested, as it always is if the directory had a block.
  lemma NewNameStandsFor(t: Tree, dir: int, e: Entry, stale: seq<seq<Entry>>, t': Tree, name: seq<Byte>)
    returns (a: int, i: int)
    requires TreeAfter(t, dir, e, stale, t') && Matches(e, name) && NoMatch(t, dir, name)
    ensures FirstMatch(t', dir, name, a, i)
    ensures t'.listing[dir][a][i].id == e.id <==> Uncontested(t.listing[dir], stale, name, e.id)
    ensures t.listing[dir] != [] ==> Uncontested(t.listing[dir], stale, name, e.id)
  {
    var ls := t.listing[dir];
    var ahead := Ahead(ls, stale);
    hide TreeAfter, FirstMatch, Matches, NoMatch, FirstNew;
    if k :| 0 <= k < |ahead| && Matches(ahead[k], name) {
      i := SomeFirstNamed(ahead, name, |ahead|);
      OldNameFound(t, dir, e, stale, t', name, i);
      a := 0;
      assert forall j :: FirstNamed(ahead, name, j) ==> j == i;
    } else {
      NewNameFound(t, dir, e, stale, t', name);
      var p := FirstNew(dir, ls, stale);
      a, i := p.a, p.i;
    }
  }

  // A root directory without a block gets one whose first element, left from before, has
  // the new name already: the name then stands for inode 1, and not for the new 2.
  lemma OldNameCanWin() returns (t: Tree, e: Entry, stale: seq<seq<Entry>>, t': Tree, name: seq<Byte>)
    ensures TreeAfter(t, 0, e, stale, t') && Matches(e, name) && NoMatch(t, 0, name) && e.id == 2
    ensures FirstMatch(t', 0, name, 0, 0) && t'.listing[0][0][0].id == 1
  {
    name := [97];
    e := NewEntry(name, 2);
    var before := seq(PER_BLOCK, i requires 0 <= i < PER_BLOCK =>
                      if i == 0 then NewEntry([97], 1) else Entry(0, 0, []));
    stale := [before];
    var root, file := Inode(0, NIL, Directory, 1), Inode(0, NIL, File, 1);
    t := Tree([root, file, file], [[], [], []]);
    t' := Tree([root, file, file], [[before[1 := e]], [], []]);
    assert FirstUnused(before) == 1 by { assert before[0].used != 0 && before[1].used == 0; }
    assert Offered([], stale) == [before] && InsertedEverywhere([before], e) == [before[1 := e]];
  }
}
