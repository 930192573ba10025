// The disc as a value: inodes, the occupancy map and the blocks, which are linked
// into one chain per inode.
module Disks {
  import opened Basics
  import opened Links

  const BLOCK_SIZE := 8192

  type Byte = b: int | 0 <= b < 256

  datatype NodeType = Empty | File | Directory

  // A free inode has type Empty; refs counts the hard links.
  datatype Inode = Inode(size: nat, first: int, kind: NodeType, refs: nat)

  datatype Disk = Disk(nodes: seq<Inode>, used: seq<bool>, next: seq<int>, data: seq<seq<Byte>>)

  // Block b belongs to one of the chains.
  ghost predicate Owned(chains: seq<seq<int>>, b: int) {
    exists i :: 0 <= i < |chains| && b in chains[i]
  }

  ghost predicate AllLinked(nodes: seq<Inode>, next: seq<int>, chains: seq<seq<int>>) {
    |chains| == |nodes| && forall i :: 0 <= i < |chains| ==> Linked(next, nodes[i].first, chains[i])
  }

  // Chains of different inodes share no block.
  ghost predicate Unshared(chains: seq<seq<int>>) {
    forall i, j, b :: 0 <= i < |chains| && 0 <= j < |chains| && i != j && b in chains[i] ==> b !in chains[j]
  }

  // The map marks exactly the chained blocks, apart from the one still pending.
  ghost predicate MarksChains(used: seq<bool>, chains: seq<seq<int>>, pending: int) {
    forall b :: 0 <= b < |used| ==> (used[b] <==> Owned(chains, b) && b != pending)
  }

  ghost predicate UnmarkedEnd(used: seq<bool>, next: seq<int>) {
    |used| == |next| && forall b :: 0 <= b < |used| && !used[b] ==> next[b] == NIL
  }

  ghost predicate EmptyHaveNone(nodes: seq<Inode>, chains: seq<seq<int>>) {
    |chains| == |nodes| && forall i :: 0 <= i < |chains| && nodes[i].kind == Empty ==> chains[i] == []
  }

  ghost predicate WholeBlocks(data: seq<seq<Byte>>) {
    forall b :: 0 <= b < |data| ==> |data[b]| == BLOCK_SIZE
  }

  // chains are the block chains of the inodes: they share no block, the map marks
  // exactly their blocks, and a block that is not marked leads nowhere.  While a file
  // is copied in, the block pending is linked in but not yet marked.
  ghost predicate WellFormed(d: Disk, chains: seq<seq<int>>, pending: int) {
    && |d.data| == |d.next| && WholeBlocks(d.data)
    && AllLinked(d.nodes, d.next, chains) && Unshared(chains)
    && MarksChains(d.used, chains, pending) && UnmarkedEnd(d.used, d.next)
    && EmptyHaveNone(d.nodes, chains)
  }

  // Blocks needed for size bytes.
  function BlocksFor(size: nat): (n: nat)
    ensures size <= n * BLOCK_SIZE && (0 < size ==> (n - 1) * BLOCK_SIZE < size) && (size == 0 ==> n == 0)
  {
    (size + (BLOCK_SIZE - 1)) / BLOCK_SIZE
  }

  // A file has just the blocks its size needs.
  ghost predicate SizesFit(d: Disk, chains: seq<seq<int>>) {
    |chains| == |d.nodes| && forall i :: 0 <= i < |d.nodes| && d.nodes[i].kind == File ==>
      |chains[i]| == BlocksFor(d.nodes[i].size)
  }

  // The blocks of a chain end to end.
  function Joined(data: seq<seq<Byte>>, chain: seq<int>): (bytes: seq<Byte>)
    requires forall i :: 0 <= i < |chain| ==> 0 <= chain[i] < |data|
  {
    if chain == [] then [] else Joined(data, chain[..|chain| - 1]) + data[chain[|chain| - 1]]
  }

  lemma {:induction false} JoinedLength(data: seq<seq<Byte>>, chain: seq<int>)
    requires forall i :: 0 <= i < |chain| ==> 0 <= chain[i] < |data| && |data[chain[i]]| == BLOCK_SIZE
    ensures |Joined(data, chain)| == |chain| * BLOCK_SIZE
  {
    if chain != [] {
      JoinedLength(data, chain[..|chain| - 1]);
    }
  }

  // A chain reads the same where its blocks hold the same.
  lemma {:induction false} JoinedSame(a: seq<seq<Byte>>, b: seq<seq<Byte>>, chain: seq<int>)
    requires forall i :: 0 <= i < |chain| ==> 0 <= chain[i] < |a| && chain[i] < |b| && a[chain[i]] == b[chain[i]]
    ensures Joined(a, chain) == Joined(b, chain)
  {
    if chain != [] {
      JoinedSame(a, b, chain[..|chain| - 1]);
    }
  }

  lemma JoinedOfOneMore(data: seq<seq<Byte>>, chain: seq<int>, b: int)
    requires forall i :: 0 <= i < |chain| ==> 0 <= chain[i] < |data|
    requires 0 <= b < |data|
    ensures Joined(data, chain + [b]) == Joined(data, chain) + data[b]
  {
  }

  lemma {:induction false} JoinedPrefix(data: seq<seq<Byte>>, chain: seq<int>, k: nat)
    requires forall i :: 0 <= i < |chain| ==> 0 <= chain[i] < |data| && |data[chain[i]]| == BLOCK_SIZE
    requires k <= |chain|
    ensures |Joined(data, chain)| == |chain| * BLOCK_SIZE
    ensures Joined(data, chain[..k]) == Joined(data, chain)[..k * BLOCK_SIZE]
  {
    JoinedLength(data, chain);
    if k < |chain| {
      var most := chain[..|chain| - 1];
      JoinedPrefix(data, most, k);
      assert most[..k] == chain[..k];
    } else {
      assert chain[..k] == chain;
    }
  }

  // ----- taking a block -----

  lemma LinkedElsewhere(next: seq<int>, head: int, path: seq<int>, at: int, v: int)
    requires Linked(next, head, path) && 0 <= at < |next| && at !in path
    ensures Linked(next[at := v], head, path)
  {
  }

  lemma LinkedLonger(next: seq<int>, head: int, path: seq<int>, x: int)
    requires Linked(next, head, path) && path != [] && 0 <= x < |next| && x !in path && next[x] == NIL
    ensures Linked(next[path[|path| - 1] := x], head, path + [x])
  {
    LinkedIsAcyclic(next, head, path);
    var after, more := next[path[|path| - 1] := x], path + [x];
    forall i | 0 <= i < |more|
      ensures after[more[i]] == At(more, i + 1)
    {
      if i < |path| { assert next[path[i]] == At(path, i + 1); }
    }
  }

  // Block x, until now free, becomes the last of chain f: the inode or the last block
  // so far leads to it.
  ghost predicate LinkedIn(d: Disk, chains: seq<seq<int>>, f: int, x: int, d': Disk) {
    && 0 <= f < |d.nodes| && 0 <= x < |d.next| && |chains| == |d.nodes|
    && d'.used == d.used && d'.data == d.data
    && if chains[f] == [] then d'.next == d.next && d'.nodes == d.nodes[f := d.nodes[f].(first := x)]
       else
         var last := chains[f][|chains[f]| - 1];
         d'.nodes == d.nodes && 0 <= last < |d.next| && d'.next == d.next[last := x]
  }

  lemma LinkingKeepsLinks(d: Disk, chains: seq<seq<int>>, f: int, x: int, d': Disk)
    requires WellFormed(d, chains, NIL) && LinkedIn(d, chains, f, x, d') && !d.used[x]
    ensures AllLinked(d'.nodes, d'.next, chains[f := chains[f] + [x]])
    ensures UnmarkedEnd(d'.used, d'.next)
    ensures forall i :: 0 <= i < |chains| ==> x !in chains[i]
  {
    assert !Owned(chains, x);
    var longer := chains[f := chains[f] + [x]];
    if chains[f] != [] {
      var last := chains[f][|chains[f]| - 1];
      assert last in chains[f];
      assert Owned(chains, last);
      forall i | 0 <= i < |longer|
        ensures Linked(d'.next, d'.nodes[i].first, longer[i])
      {
        if i == f {
          LinkedLonger(d.next, d.nodes[f].first, chains[f], x);
        } else {
          LinkedElsewhere(d.next, d.nodes[i].first, chains[i], last, x);
        }
      }
    } else {
      assert Linked(d.next, x, [x]);
    }
  }

  lemma OwnedAfterAppend(chains: seq<seq<int>>, f: int, x: int)
    requires 0 <= f < |chains|
    ensures forall b :: Owned(chains[f := chains[f] + [x]], b) <==> Owned(chains, b) || b == x
  {
    var longer := chains[f := chains[f] + [x]];
    forall b
      ensures Owned(longer, b) <==> Owned(chains, b) || b == x
    {
      if i :| 0 <= i < |chains| && b in chains[i] { assert b in longer[i]; }
      if b == x { assert b in longer[f]; }
      if i :| 0 <= i < |longer| && b in longer[i] && b != x { assert b in chains[i]; }
    }
  }

  // Linking a free block in leaves it pending; marking it makes the disc whole again.
  lemma LinkingKeepsWellFormed(d: Disk, chains: seq<seq<int>>, f: int, x: int, d': Disk)
    requires WellFormed(d, chains, NIL) && LinkedIn(d, chains, f, x, d') && !d.used[x]
    requires d.nodes[f].kind != Empty
    ensures WellFormed(d', chains[f := chains[f] + [x]], x)
  {
    hide Linked, Owned;
    LinkingKeepsLinks(d, chains, f, x, d');
    OwnedAfterAppend(chains, f, x);
  }

  lemma MarkingKeepsWellFormed(d: Disk, chains: seq<seq<int>>, x: int, d': Disk)
    requires WellFormed(d, chains, x) && 0 <= x < |d.used| && Owned(chains, x)
    requires d' == d.(used := d.used[x := true])
    ensures WellFormed(d', chains, NIL)
  {
  }

  // What a file operation on f leaves alone: the other inodes, their chains, and what
  // their blocks hold.
  ghost predicate OthersKept(d: Disk, chains: seq<seq<int>>, d': Disk, chains': seq<seq<int>>, f: int) {
    && |d'.nodes| == |d.nodes| == |chains| == |chains'| && |d'.data| == |d.data|
    && forall i :: 0 <= i < |d.nodes| && i != f ==>
         && d'.nodes[i] == d.nodes[i] && chains'[i] == chains[i]
         && forall b :: b in chains[i] && 0 <= b < |d.data| ==> d'.data[b] == d.data[b]
  }

  // ----- giving blocks back -----

  // The blocks of path are unmarked and lead nowhere any more.
  ghost predicate Cleared(used: seq<bool>, next: seq<int>, path: seq<int>, used': seq<bool>, next': seq<int>) {
    && |used| == |next| == |used'| == |next'|
    && forall b :: 0 <= b < |used| ==>
         used'[b] == (used[b] && b !in path) && next'[b] == if b in path then NIL else next[b]
  }

  // Chain f is cut after its first k blocks: the rest is given back, and what led to
  // it, the last block kept or the inode, leads nowhere.
  ghost predicate CutAfter(d: Disk, chains: seq<seq<int>>, f: int, k: int, d': Disk) {
    && 0 <= f < |d.nodes| && |chains| == |d.nodes| && 0 <= k <= |chains[f]|
    && |d.used| == |d.next| == |d'.used| == |d'.next| && d'.data == d.data
    && (forall b :: 0 <= b < |d.used| ==>
          && d'.used[b] == (d.used[b] && b !in chains[f][k..])
          && d'.next[b] == if b in chains[f][k..] || (0 < k && b == chains[f][k - 1]) then NIL else d.next[b])
    && |d'.nodes| == |d.nodes| && (forall i :: 0 <= i < |d.nodes| && i != f ==> d'.nodes[i] == d.nodes[i])
    && d'.nodes[f].first == if k == 0 then NIL else d.nodes[f].first
  }

  lemma OwnedAfterCut(chains: seq<seq<int>>, f: int, k: int)
    requires 0 <= f < |chains| && 0 <= k <= |chains[f]| && Unshared(chains) && Distinct(chains[f])
    ensures forall b :: Owned(chains[f := chains[f][..k]], b) <==> Owned(chains, b) && b !in chains[f][k..]
  {
    var shorter := chains[f := chains[f][..k]];
    assert chains[f] == chains[f][..k] + chains[f][k..];
    forall b
      ensures Owned(shorter, b) <==> Owned(chains, b) && b !in chains[f][k..]
    {
      if i :| 0 <= i < |shorter| && b in shorter[i] {
        assert b in chains[i];
        if i != f { assert b !in chains[f]; }
      }
      if Owned(chains, b) && b !in chains[f][k..] {
        var i :| 0 <= i < |chains| && b in chains[i];
        assert b in shorter[i];
      }
    }
  }

  lemma CuttingKeepsLinks(d: Disk, chains: seq<seq<int>>, f: int, k: int, d': Disk)
    requires WellFormed(d, chains, NIL) && CutAfter(d, chains, f, k, d')
    ensures AllLinked(d'.nodes, d'.next, chains[f := chains[f][..k]])
  {
    var shorter := chains[f := chains[f][..k]];
    LinkedIsAcyclic(d.next, d.nodes[f].first, chains[f]);
    forall i | 0 <= i < |shorter|
      ensures Linked(d'.next, d'.nodes[i].first, shorter[i])
    {
      assert Linked(d.next, d.nodes[i].first, chains[i]);
      forall a | 0 <= a < |shorter[i]|
        ensures d'.next[shorter[i][a]] == At(shorter[i], a + 1)
      {
        var b := shorter[i][a];
        assert b == chains[i][a] && b in chains[i];
        assert d.next[chains[i][a]] == At(chains[i], a + 1);
        if i != f {
          assert b !in chains[f];
        }
      }
    }
  }

  // Cutting a chain gives back exactly the blocks cut off.
  lemma CuttingKeepsWellFormed(d: Disk, chains: seq<seq<int>>, f: int, k: int, d': Disk)
    requires WellFormed(d, chains, NIL) && CutAfter(d, chains, f, k, d')
    requires d'.nodes[f].kind == Empty ==> k == 0
    ensures WellFormed(d', chains[f := chains[f][..k]], NIL)
  {
    hide Linked, Owned;
    var shorter := chains[f := chains[f][..k]];
    LinkedIsAcyclic(d.next, d.nodes[f].first, chains[f]);
    CuttingKeepsLinks(d, chains, f, k, d');
    OwnedAfterCut(chains, f, k);
    assert forall b :: b in shorter[f] ==> b in chains[f];
  }

  // ----- counting -----

  function CountFree(used: seq<bool>): nat {
    if used == [] then 0 else CountFree(used[..|used| - 1]) + (if used[|used| - 1] then 0 else 1)
  }

  function TotalBlocks(chains: seq<seq<int>>): nat {
    if chains == [] then 0 else |chains[0]| + TotalBlocks(chains[1..])
  }

  function FreeBlocks(used: seq<bool>): (r: set<int>)
    ensures forall b :: b in r <==> 0 <= b < |used| && !used[b]
  {
    set b | 0 <= b < |used| && !used[b]
  }

  lemma {:induction false} CountFreeCounts(used: seq<bool>)
    ensures CountFree(used) == |FreeBlocks(used)|
  {
    if used != [] {
      var n := |used| - 1;
      CountFreeCounts(used[..n]);
      assert FreeBlocks(used) == FreeBlocks(used[..n]) + if used[n] then {} else {n};
    }
  }

  function Members(chains: seq<seq<int>>): (r: set<int>)
    ensures forall b :: b in r <==> Owned(chains, b)
  {
    if chains == [] then {} else
      assert forall b :: Owned(chains, b) <==> b in chains[0] || Owned(chains[1..], b) by {
        forall b
          ensures Owned(chains, b) <==> b in chains[0] || Owned(chains[1..], b)
        {
          if i :| 0 <= i < |chains| && b in chains[i] { assert i > 0 ==> b in chains[1..][i - 1]; }
          if i :| 0 <= i < |chains[1..]| && b in chains[1..][i] { assert b in chains[i + 1]; }
        }
      }
      (set b | b in chains[0]) + Members(chains[1..])
  }

  lemma {:induction false} MembersCount(chains: seq<seq<int>>)
    requires Unshared(chains) && forall i :: 0 <= i < |chains| ==> Distinct(chains[i])
    ensures |Members(chains)| == TotalBlocks(chains)
  {
    if chains != [] {
      var rest := chains[1..];
      assert forall i :: 0 <= i < |rest| ==> rest[i] == chains[i + 1];
      MembersCount(rest);
      DistinctCount(chains[0]);
      assert Values(chains[0]) !! Members(rest) by {
        forall b | b in Members(rest)
          ensures b !in chains[0]
        {
          var i :| 0 <= i < |rest| && b in rest[i];
          assert b in chains[i + 1];
        }
      }
      assert Members(chains) == Values(chains[0]) + Members(rest);
    }
  }

  lemma ChainsInRange(d: Disk, chains: seq<seq<int>>)
    requires AllLinked(d.nodes, d.next, chains) && |d.used| == |d.next|
    ensures forall i :: 0 <= i < |chains| ==> Distinct(chains[i])
    ensures forall b :: Owned(chains, b) ==> 0 <= b < |d.used|
  {
    forall i | 0 <= i < |chains|
      ensures Distinct(chains[i])
    {
      LinkedIsAcyclic(d.next, d.nodes[i].first, chains[i]);
    }
    forall b | Owned(chains, b)
      ensures 0 <= b < |d.used|
    {
      var i :| 0 <= i < |chains| && b in chains[i];
      var a :| 0 <= a < |chains[i]| && chains[i][a] == b;
      assert Linked(d.next, d.nodes[i].first, chains[i]);
    }
  }

  // Free blocks and chained blocks always make up the disc, so every block is either
  // free or in exactly one chain and free space mirrors the blocks in use.
  lemma SpaceIsConserved(d: Disk, chains: seq<seq<int>>)
    requires WellFormed(d, chains, NIL)
    ensures CountFree(d.used) + TotalBlocks(chains) == |d.used|
  {
    hide Linked, Owned, CountFree, TotalBlocks, Unshared, Distinct;
    CountFreeCounts(d.used);
    ChainsInRange(d, chains);
    MembersCount(chains);
    assert FreeBlocks(d.used) + Members(chains) == Below(|d.used|);
    assert FreeBlocks(d.used) !! Members(chains);
  }

  // ----- what files hold -----

  function Zeros(n: nat): seq<Byte> {
    seq(n, _ => 0)
  }

  lemma ZerosJoined(m: nat, n: nat)
    ensures Zeros(m) + Zeros(n) == Zeros(m + n) && Zeros(0) == [] && |Zeros(n)| == n
    ensures forall i :: 0 <= i < n ==> Zeros(n)[i] == 0
  {
  }

  // The bytes written over the block from position at on.
  function Overwrite(block: seq<Byte>, at: nat, bytes: seq<Byte>): (r: seq<Byte>)
    requires at + |bytes| <= |block|
    ensures |r| == |block|
  {
    block[..at] + bytes + block[at + |bytes|..]
  }

  ghost predicate Readable(data: seq<seq<Byte>>, chain: seq<int>, size: nat) {
    && (forall i :: 0 <= i < |chain| ==> 0 <= chain[i] < |data| && |data[chain[i]]| == BLOCK_SIZE)
    && size <= |chain| * BLOCK_SIZE
  }

  ghost function FileContent(data: seq<seq<Byte>>, chain: seq<int>, size: nat): (bytes: seq<Byte>)
    requires Readable(data, chain, size)
    ensures |bytes| == size
  {
    JoinedLength(data, chain);
    Joined(data, chain)[..size]
  }

  // Truncating keeps exactly the prefix.
  lemma ContentOfPrefix(data: seq<seq<Byte>>, chain: seq<int>, size: nat, k: nat, less: nat)
    requires Readable(data, chain, size) && k <= |chain| && less <= size && less <= k * BLOCK_SIZE
    ensures Readable(data, chain[..k], less)
    ensures FileContent(data, chain[..k], less) == FileContent(data, chain, size)[..less]
  {
    JoinedPrefix(data, chain, k);
  }

  // A block appended to full blocks adds the bytes at its front.
  lemma ContentOfOneMore(data: seq<seq<Byte>>, chain: seq<int>, x: int, bytes: seq<Byte>, data': seq<seq<Byte>>)
    requires Readable(data, chain, |chain| * BLOCK_SIZE) && 0 <= x < |data| && x !in chain
    requires |bytes| <= BLOCK_SIZE == |data[x]| && data' == data[x := Overwrite(data[x], 0, bytes)]
    ensures Readable(data', chain + [x], |chain| * BLOCK_SIZE + |bytes|)
    ensures FileContent(data', chain + [x], |chain| * BLOCK_SIZE + |bytes|)
         == FileContent(data, chain, |chain| * BLOCK_SIZE) + bytes
  {
    JoinedSame(data, data', chain);
    JoinedOfOneMore(data', chain, x);
    JoinedLength(data, chain);
    assert data'[x][..|bytes|] == bytes;
  }

  // Bytes written into the last block, right after what it holds, extend the content.
  lemma ContentOfFilledUp(data: seq<seq<Byte>>, chain: seq<int>, size: nat, bytes: seq<Byte>, data': seq<seq<Byte>>)
    requires chain != [] && Distinct(chain) && Readable(data, chain, size + |bytes|)
    requires (|chain| - 1) * BLOCK_SIZE <= size
    requires var at := size - (|chain| - 1) * BLOCK_SIZE; var last := chain[|chain| - 1];
             data' == data[last := Overwrite(data[last], at, bytes)]
    ensures Readable(data', chain, size + |bytes|)
    ensures FileContent(data', chain, size + |bytes|) == FileContent(data, chain, size) + bytes
  {
    hide Overwrite, Joined;
    var front, last := chain[..|chain| - 1], chain[|chain| - 1];
    var at := size - |front| * BLOCK_SIZE;
    assert chain == front + [last];
    JoinedSame(data, data', front);
    JoinedLength(data, front);
    JoinedOfOneMore(data, front, last);
    JoinedOfOneMore(data', front, last);
    OverwrittenPrefix(data[last], at, bytes);
    PrefixOfJoin(Joined(data, front), data[last], at);
    PrefixOfJoin(Joined(data, front), data'[last], at + |bytes|);
  }

  lemma OverwrittenPrefix(block: seq<Byte>, at: nat, bytes: seq<Byte>)
    requires at + |bytes| <= |block|
    ensures Overwrite(block, at, bytes)[..at + |bytes|] == block[..at] + bytes
  {
  }

  lemma PrefixOfJoin(front: seq<Byte>, block: seq<Byte>, k: nat)
    requires k <= |block|
    ensures (front + block)[..|front| + k] == front + block[..k]
  {
  }

  // ----- files that grow -----

  lemma CountFreeAfterMark(used: seq<bool>, x: int)
    requires 0 <= x < |used| && !used[x]
    ensures CountFree(used[x := true]) == CountFree(used) - 1
  {
    CountFreeCounts(used);
    CountFreeCounts(used[x := true]);
    assert FreeBlocks(used[x := true]) == FreeBlocks(used) - {x};
  }

  ghost predicate IsFile(d: Disk, chains: seq<seq<int>>, f: int) {
    && 0 <= f < |d.nodes| && |chains| == |d.nodes| && d.nodes[f].kind == File
    && Readable(d.data, chains[f], d.nodes[f].size)
  }

  ghost function ContentOf(d: Disk, chains: seq<seq<int>>, f: int): (bytes: seq<Byte>)
    requires IsFile(d, chains, f)
    ensures |bytes| == d.nodes[f].size
  {
    FileContent(d.data, chains[f], d.nodes[f].size)
  }

  // File f has gained bytes at its end, and nothing else has changed.
  ghost predicate Grown(d: Disk, chains: seq<seq<int>>, d': Disk, chains': seq<seq<int>>, f: int, bytes: seq<Byte>) {
    && IsFile(d, chains, f) && IsFile(d', chains', f)
    && WellFormed(d', chains', NIL) && SizesFit(d', chains')
    && OthersKept(d, chains, d', chains', f)
    && d'.nodes[f].refs == d.nodes[f].refs
    && chains[f] <= chains'[f]
    && ContentOf(d', chains', f) == ContentOf(d, chains, f) + bytes
  }

  lemma FilesAreReadable(d: Disk, chains: seq<seq<int>>, f: int)
    requires WellFormed(d, chains, NIL) && SizesFit(d, chains) && 0 <= f < |d.nodes| && d.nodes[f].kind == File
    ensures IsFile(d, chains, f) && Distinct(chains[f]) && d.nodes[f].first == At(chains[f], 0)
  {
    assert Linked(d.next, d.nodes[f].first, chains[f]);
    LinkedIsAcyclic(d.next, d.nodes[f].first, chains[f]);
  }

  lemma NotGrownYet(d: Disk, chains: seq<seq<int>>, f: int)
    requires WellFormed(d, chains, NIL) && SizesFit(d, chains) && 0 <= f < |d.nodes| && d.nodes[f].kind == File
    ensures Grown(d, chains, d, chains, f, [])
  {
  }

  lemma GrownIsFile(d: Disk, chains: seq<seq<int>>, d': Disk, chains': seq<seq<int>>, f: int, bytes: seq<Byte>)
    requires Grown(d, chains, d', chains', f, bytes)
    ensures IsFile(d', chains', f) && d'.nodes[f].size == d.nodes[f].size + |bytes| && |chains'[f]| >= |chains[f]|
    ensures |chains'[f]| == BlocksFor(d'.nodes[f].size)
  {
  }

  lemma LastBlockIsFilledUpTo(size: nat, blocks: nat)
    requires blocks == BlocksFor(size) && 0 < size % BLOCK_SIZE
    ensures size % BLOCK_SIZE == size - (blocks - 1) * BLOCK_SIZE
  {
  }

  lemma WholeBlocksOfFullFile(size: nat, blocks: nat, left: nat, n: nat)
    requires blocks == BlocksFor(size) && size % BLOCK_SIZE == 0
    requires 0 < left && n == if left > BLOCK_SIZE then BLOCK_SIZE else left
    ensures size == blocks * BLOCK_SIZE && blocks < BlocksFor(size + left)
    ensures n < left ==> (size + n) % BLOCK_SIZE == 0
  {
  }

  // Marking and filling a block that was linked in.
  ghost predicate Filled(d: Disk, f: int, x: int, more: seq<Byte>, d': Disk) {
    && 0 <= f < |d.nodes| && 0 <= x < |d.used| && |d.used| == |d.data| && |more| <= |d.data[x]|
    && d' == d.(used := d.used[x := true],
                data := d.data[x := Overwrite(d.data[x], 0, more)],
                nodes := d.nodes[f := d.nodes[f].(size := d.nodes[f].size + |more|)])
  }

  // Writing into blocks, and counting bytes, does not touch the chains.
  lemma RewritingKeepsWellFormed(d: Disk, chains: seq<seq<int>>, f: int, x: int, block: seq<Byte>, size: nat, d': Disk)
    requires WellFormed(d, chains, NIL) && 0 <= f < |d.nodes| && 0 <= x < |d.data| && |block| == BLOCK_SIZE
    requires d' == d.(data := d.data[x := block], nodes := d.nodes[f := d.nodes[f].(size := size)])
    ensures WellFormed(d', chains, NIL)
  {
  }

  lemma FullFileTakesBlock(size: nat, blocks: nat, more: nat)
    requires size == blocks * BLOCK_SIZE && 0 < more <= BLOCK_SIZE
    ensures BlocksFor(size + more) == blocks + 1
  {
  }

  lemma BlockKeepsWellFormed(d: Disk, chains: seq<seq<int>>, f: int, x: int, linked: Disk, more: seq<Byte>, d': Disk)
    requires WellFormed(d, chains, NIL) && SizesFit(d, chains)
    requires LinkedIn(d, chains, f, x, linked) && !d.used[x] && Filled(linked, f, x, more, d')
    requires d.nodes[f].kind == File && d.nodes[f].size == |chains[f]| * BLOCK_SIZE && 0 < |more| <= BLOCK_SIZE
    ensures WellFormed(d', chains[f := chains[f] + [x]], NIL) && SizesFit(d', chains[f := chains[f] + [x]])
    ensures CountFree(d'.used) == CountFree(d.used) - 1 && x !in chains[f]
  {
    hide Linked, Owned;
    var longer := chains[f := chains[f] + [x]];
    var marked := linked.(used := linked.used[x := true]);
    LinkingKeepsLinks(d, chains, f, x, linked);
    LinkingKeepsWellFormed(d, chains, f, x, linked);
    OwnedAfterAppend(chains, f, x);
    MarkingKeepsWellFormed(linked, longer, x, marked);
    RewritingKeepsWellFormed(marked, longer, f, x, Overwrite(linked.data[x], 0, more), d.nodes[f].size + |more|, d');
    FullFileTakesBlock(d.nodes[f].size, |chains[f]|, |more|);
    CountFreeAfterMark(d.used, x);
  }

  // A full file takes one more block with up to a block of bytes.
  lemma GrowsByABlock(d0: Disk, chains0: seq<seq<int>>, d: Disk, chains: seq<seq<int>>, f: int, bytes: seq<Byte>,
                      x: int, linked: Disk, more: seq<Byte>, d': Disk)
    requires Grown(d0, chains0, d, chains, f, bytes) && LinkedIn(d, chains, f, x, linked) && !d.used[x]
    requires d.nodes[f].size == |chains[f]| * BLOCK_SIZE && 0 < |more| <= BLOCK_SIZE
    requires Filled(linked, f, x, more, d')
    ensures Grown(d0, chains0, d', chains[f := chains[f] + [x]], f, bytes + more)
    ensures CountFree(d'.used) == CountFree(d.used) - 1
  {
    hide WellFormed, SizesFit, Owned, Linked, Readable, Overwrite;
    var longer := chains[f := chains[f] + [x]];
    BlockKeepsWellFormed(d, chains, f, x, linked, more, d');
    FreeIsUnowned(d, chains, x);
    assert OthersKept(d0, chains0, d', longer, f);
    WellFormedData(d, chains, x);
    ContentOfOneMore(d.data, chains[f], x, more, d'.data);
    JoinAssociates(ContentOf(d0, chains0, f), bytes, more);
  }

  lemma FreeIsUnowned(d: Disk, chains: seq<seq<int>>, x: int)
    requires WellFormed(d, chains, NIL) && 0 <= x < |d.used| && !d.used[x]
    ensures forall i :: 0 <= i < |chains| ==> x !in chains[i]
  {
  }

  lemma WholeBlocksOf(d: Disk, chains: seq<seq<int>>)
    requires WellFormed(d, chains, NIL)
    ensures |d.data| == |d.used| == |d.next| && WholeBlocks(d.data) && |chains| == |d.nodes|
  {
  }

  lemma BlockIsUnshared(d: Disk, chains: seq<seq<int>>, f: int, b: int)
    requires WellFormed(d, chains, NIL) && 0 <= f < |chains| && b in chains[f]
    ensures forall i :: 0 <= i < |chains| && i != f ==> b !in chains[i]
  {
  }

  lemma WellFormedData(d: Disk, chains: seq<seq<int>>, x: int)
    requires WellFormed(d, chains, NIL) && 0 <= x < |d.used|
    ensures |d.data| == |d.used| && |d.data[x]| == BLOCK_SIZE
  {
  }

  lemma ChainIsLinked(d: Disk, chains: seq<seq<int>>, f: int)
    requires WellFormed(d, chains, NIL) && 0 <= f < |d.nodes|
    ensures |chains| == |d.nodes| && |d.used| == |d.next| == |d.data|
    ensures Linked(d.next, d.nodes[f].first, chains[f]) && Distinct(chains[f])
    ensures forall a :: 0 <= a < |chains[f]| ==> 0 <= chains[f][a] < |d.next|
  {
    LinkedIsAcyclic(d.next, d.nodes[f].first, chains[f]);
  }

  lemma {:induction false} SomeBlockIsFree(used: seq<bool>)
    requires 0 < CountFree(used)
    ensures exists b :: 0 <= b < |used| && !used[b]
  {
    var n := |used| - 1;
    if used[n] {
      SomeBlockIsFree(used[..n]);
      var b :| 0 <= b < n && !used[..n][b];
      assert !used[b];
    }
  }

  lemma JoinAssociates(a: seq<Byte>, b: seq<Byte>, c: seq<Byte>)
    ensures (a + b) + c == a + (b + c)
  {
  }

  // A file whose last block is not full takes more bytes there.
  lemma GrowsInLastBlock(d0: Disk, chains0: seq<seq<int>>, d: Disk, chains: seq<seq<int>>, f: int, bytes: seq<Byte>,
                         more: seq<Byte>, d': Disk)
    requires Grown(d0, chains0, d, chains, f, bytes) && chains[f] != []
    requires var size := d.nodes[f].size; var at := size - (|chains[f]| - 1) * BLOCK_SIZE;
             var last := chains[f][|chains[f]| - 1];
             && 0 < at && at + |more| <= BLOCK_SIZE
             && d' == d.(data := d.data[last := Overwrite(d.data[last], at, more)],
                         nodes := d.nodes[f := d.nodes[f].(size := size + |more|)])
    ensures Grown(d0, chains0, d', chains, f, bytes + more)
  {
    hide Owned, Linked, Overwrite, WellFormed, FileContent;
    var size, last := d.nodes[f].size, chains[f][|chains[f]| - 1];
    FilesAreReadable(d, chains, f);
    ChainIsLinked(d, chains, f);
    WellFormedData(d, chains, last);
    RewritingKeepsWellFormed(d, chains, f, last, d'.data[last], size + |more|, d');
    SameBlocks(size, |chains[f]|, |more|);
    BlockIsUnshared(d, chains, f, last);
    ContentOfFilledUp(d.data, chains[f], size, more, d'.data);
    JoinAssociates(ContentOf(d0, chains0, f), bytes, more);
  }

  lemma SameBlocks(size: nat, blocks: nat, more: nat)
    requires 0 < blocks && (blocks - 1) * BLOCK_SIZE < size && size + more <= blocks * BLOCK_SIZE
    ensures BlocksFor(size + more) == blocks
  {
  }

  // File f has gained all but left of the amount of zeros, its blocks are full if more
  // are to come, and there are blocks for them.
  ghost predicate Growing(d0: Disk, chains0: seq<seq<int>>, d: Disk, chains: seq<seq<int>>, f: int, last: int,
                          amount: nat, left: nat) {
    && left <= amount && Grown(d0, chains0, d, chains, f, Zeros(amount - left))
    && chains[f] != [] && last == chains[f][|chains[f]| - 1]
    && (0 < left ==> d.nodes[f].size % BLOCK_SIZE == 0)
    && BlocksFor(d.nodes[f].size + left) - |chains[f]| <= CountFree(d.used)
  }

  lemma GrowingHasRoom(d0: Disk, chains0: seq<seq<int>>, d: Disk, chains: seq<seq<int>>, f: int, last: int,
                       amount: nat, left: nat)
    requires Growing(d0, chains0, d, chains, f, last, amount, left) && 0 < left
    ensures exists b :: 0 <= b < |d.used| && !d.used[b]
    ensures 0 <= f < |d.nodes| == |chains| && 0 <= last < |d.next| && |d.used| == |d.next|
    ensures chains[f] != [] && last == chains[f][|chains[f]| - 1]
  {
    hide OthersKept, Readable, Zeros, Linked;
    GrownIsFile(d0, chains0, d, chains, f, Zeros(amount - left));
    WholeBlocksOfFullFile(d.nodes[f].size, |chains[f]|, left, if left > BLOCK_SIZE then BLOCK_SIZE else left);
    ChainIsLinked(d, chains, f);
    SomeBlockIsFree(d.used);
  }

  lemma ZerosAppended(d0: Disk, chains0: seq<seq<int>>, d: Disk, chains: seq<seq<int>>, f: int, last: int,
                      amount: nat, left: nat, n: nat, x: int, linked: Disk, d': Disk)
    requires Growing(d0, chains0, d, chains, f, last, amount, left)
    requires 0 < left && n == if left > BLOCK_SIZE then BLOCK_SIZE else left
    requires LinkedIn(d, chains, f, x, linked) && !d.used[x] && Filled(linked, f, x, Zeros(n), d')
    ensures Growing(d0, chains0, d', chains[f := chains[f] + [x]], f, x, amount, left - n)
    ensures WellFormed(d', chains[f := chains[f] + [x]], NIL) && SizesFit(d', chains[f := chains[f] + [x]])
  {
    hide WellFormed, SizesFit, OthersKept, Readable, Overwrite, Zeros, BlocksFor, ContentOf, CountFree;
    ZerosJoined(amount - left, n);
    GrownIsFile(d0, chains0, d, chains, f, Zeros(amount - left));
    WholeBlocksOfFullFile(d.nodes[f].size, |chains[f]|, left, n);
    GrowsByABlock(d0, chains0, d, chains, f, Zeros(amount - left), x, linked, Zeros(n), d');
  }

  lemma ZerosFillUp(d: Disk, chains: seq<seq<int>>, f: int, last: int, amount: nat, n: nat, d': Disk)
    requires WellFormed(d, chains, NIL) && SizesFit(d, chains) && 0 <= f < |d.nodes| && d.nodes[f].kind == File
    requires |chains| == |d.nodes| && chains[f] != [] && last == chains[f][|chains[f]| - 1]
    requires var at := d.nodes[f].size % BLOCK_SIZE;
             && 0 < at && n <= amount && (n == amount || at + n == BLOCK_SIZE) && at + n <= BLOCK_SIZE
             && 0 <= last < |d.data| && |d.data[last]| == BLOCK_SIZE
             && d' == d.(data := d.data[last := Overwrite(d.data[last], at, Zeros(n))],
                         nodes := d.nodes[f := d.nodes[f].(size := d.nodes[f].size + n)])
    requires BlocksFor(d.nodes[f].size + amount) - BlocksFor(d.nodes[f].size) <= CountFree(d.used)
    ensures Growing(d, chains, d', chains, f, last, amount, amount - n)
    ensures WellFormed(d', chains, NIL) && SizesFit(d', chains)
  {
    hide WellFormed, SizesFit, OthersKept, Readable, Overwrite, Zeros, ContentOf, CountFree;
    var size := d.nodes[f].size;
    NotGrownYet(d, chains, f);
    GrownIsFile(d, chains, d, chains, f, []);
    LastBlockIsFilledUpTo(size, |chains[f]|);
    ZerosJoined(0, n);
    GrowsInLastBlock(d, chains, d, chains, f, [], Zeros(n), d');
    GrownIsFile(d, chains, d', chains, f, [] + Zeros(n));
    assert [] + Zeros(n) == Zeros(n);
  }

  lemma StartsGrowing(d: Disk, chains: seq<seq<int>>, f: int, last: int, amount: nat)
    requires WellFormed(d, chains, NIL) && SizesFit(d, chains) && 0 <= f < |d.nodes| && d.nodes[f].kind == File
    requires BlocksFor(d.nodes[f].size + amount) - BlocksFor(d.nodes[f].size) <= CountFree(d.used)
    requires |chains| == |d.nodes| && chains[f] != [] && last == chains[f][|chains[f]| - 1]
    ensures d.nodes[f].size % BLOCK_SIZE == 0 ==> Growing(d, chains, d, chains, f, last, amount, amount)
  {
  }

  lemma HasGrown(d0: Disk, chains0: seq<seq<int>>, d: Disk, chains: seq<seq<int>>, f: int, last: int, amount: nat)
    requires Growing(d0, chains0, d, chains, f, last, amount, 0)
    ensures Grown(d0, chains0, d, chains, f, Zeros(amount))
  {
  }

  // ----- copying in -----

  // The first pos bytes of the host file are in file f, in full blocks; disc now has
  // block x linked in as well, and there are blocks for the rest.
  ghost predicate CopyingIn(d0: Disk, chains0: seq<seq<int>>, d: Disk, chains: seq<seq<int>>, f: int, x: int,
                            now: Disk, host: seq<Byte>, pos: nat) {
    && pos <= |host| && Grown(d0, chains0, d, chains, f, host[..pos]) && LinkedIn(d, chains, f, x, now)
    && x < |d.used| && !d.used[x] && d.nodes[f].size == |chains[f]| * BLOCK_SIZE
    && (|host| - pos) / BLOCK_SIZE < CountFree(d.used)
  }

  lemma StartsEmpty(d: Disk, chains: seq<seq<int>>, f: int, host: seq<Byte>)
    requires WellFormed(d, chains, NIL) && SizesFit(d, chains) && 0 <= f < |d.nodes| && d.nodes[f].kind == File
    requires d.nodes[f].size == 0 && |host| / BLOCK_SIZE < CountFree(d.used)
    ensures Grown(d, chains, d, chains, f, host[..0]) && |chains| == |d.nodes| && chains[f] == []
    ensures exists x :: 0 <= x < |d.used| && !d.used[x]
    ensures forall x :: 0 <= x < |d.used| && !d.used[x] ==>
      CopyingIn(d, chains, d, chains, f, x, d.(nodes := d.nodes[f := d.nodes[f].(first := x)]), host, 0)
  {
    hide Linked, Readable, OthersKept;
    SomeBlockIsFree(d.used);
    NotGrownYet(d, chains, f);
    assert host[..0] == [];
  }

  lemma CopyingInBounds(d0: Disk, chains0: seq<seq<int>>, d: Disk, chains: seq<seq<int>>, f: int, x: int, now: Disk,
                        host: seq<Byte>, pos: nat)
    requires CopyingIn(d0, chains0, d, chains, f, x, now, host, pos)
    ensures 0 <= f < |now.nodes| == |d.nodes| == |chains| && 0 <= x < |now.data| && |now.data[x]| == BLOCK_SIZE
    ensures pos <= |host|
    ensures |now.used| == |now.next| == |now.data|
    ensures Linked(now.next, now.nodes[f].first, chains[f] + [x])
    ensures now.next[x] == NIL
  {
    hide Owned, Linked, OthersKept, Readable, SizesFit;
    LinkingKeepsLinks(d, chains, f, x, now);
  }

  lemma NothingRead(block: seq<Byte>, host: seq<Byte>, pos: nat)
    requires pos <= |host|
    ensures Overwrite(block, 0, host[pos..pos + 0]) == block
  {
  }

  // When nothing is left to read, the block linked in is taken off again.
  lemma UnlinkingRestores(d0: Disk, chains0: seq<seq<int>>, d: Disk, chains: seq<seq<int>>, f: int, x: int,
                          linked: Disk, d': Disk, host: seq<Byte>, pos: nat)
    requires CopyingIn(d0, chains0, d, chains, f, x, linked, host, pos) && pos == |host|
    requires d'.used == linked.used && d'.data == linked.data && |d'.next| == |linked.next| && 0 <= f < |linked.nodes|
    requires |chains| == |d.nodes|
    requires var first := linked.nodes[f].first;
             && d'.nodes == (if first == x then linked.nodes[f := linked.nodes[f].(first := NIL)] else linked.nodes)
             && (forall b :: 0 <= b < |linked.next| ==>
                   d'.next[b] == if first != x && b in chains[f] + [x] && linked.next[b] == x then NIL
                       else linked.next[b])
    ensures d' == d && Grown(d0, chains0, d', chains, f, host) && WellFormed(d', chains, NIL) && SizesFit(d', chains)
  {
    hide Owned, OthersKept, Readable, SizesFit, WellFormed, Linked, Grown;
    GrownIsWhole(d0, chains0, d, chains, f, host[..pos]);
    ChainIsLinked(d, chains, f);
    FreeIsUnowned(d, chains, x);
    FreeLeadsNowhere(d, chains, x);
    LinkTakenBack(d.next, d.nodes[f].first, chains[f], x, linked.next, d'.next);
    assert d'.nodes == d.nodes;
    assert host[..pos] == host;
  }

  lemma GrownIsWhole(d0: Disk, chains0: seq<seq<int>>, d: Disk, chains: seq<seq<int>>, f: int, bytes: seq<Byte>)
    requires Grown(d0, chains0, d, chains, f, bytes)
    ensures WellFormed(d, chains, NIL) && SizesFit(d, chains) && 0 <= f < |d.nodes|
  {
  }

  lemma FreeLeadsNowhere(d: Disk, chains: seq<seq<int>>, x: int)
    requires WellFormed(d, chains, NIL) && 0 <= x < |d.used| && !d.used[x]
    ensures |d.next| == |d.used| && d.next[x] == NIL
  {
  }

  // Appending x to a list and taking away what leads to x leaves the links as they were.
  lemma LinkTakenBack(next: seq<int>, head: int, path: seq<int>, x: int, linked: seq<int>, next': seq<int>)
    requires Linked(next, head, path) && 0 <= x < |next| && x !in path && next[x] == NIL
    requires |next'| == |linked| == |next|
    requires linked == if path == [] then next else next[path[|path| - 1] := x]
    requires forall b :: 0 <= b < |next| ==>
      (next'[b] == if (path != [] && head != x) && b in path + [x] && linked[b] == x then NIL else linked[b])
    ensures next' == next && (path == [] <==> head == NIL) && (path != [] ==> head != x)
  {
  }

  lemma BlockCopied(d0: Disk, chains0: seq<seq<int>>, d: Disk, chains: seq<seq<int>>, f: int, x: int, linked: Disk,
                    host: seq<Byte>, pos: nat, chunk: seq<Byte>, d': Disk)
    requires CopyingIn(d0, chains0, d, chains, f, x, linked, host, pos) && Filled(linked, f, x, chunk, d')
    requires 0 < |chunk| <= BLOCK_SIZE && pos + |chunk| <= |host| && chunk == host[pos..pos + |chunk|]
    requires |chunk| == BLOCK_SIZE || pos + |chunk| == |host|
    ensures 0 <= f < |chains| == |d'.nodes|
    ensures var longer := chains[f := chains[f] + [x]];
            && Grown(d0, chains0, d', longer, f, host[..pos + |chunk|])
            && WellFormed(d', longer, NIL) && SizesFit(d', longer)
            && (pos + |chunk| == |host| ==> Grown(d0, chains0, d', longer, f, host))
            && (|chunk| == BLOCK_SIZE ==>
                  && d'.nodes[f].size == |longer[f]| * BLOCK_SIZE
                  && (|host| - (pos + |chunk|)) / BLOCK_SIZE < CountFree(d'.used)
                  && exists b :: 0 <= b < |d'.used| && !d'.used[b])
  {
    hide WellFormed, SizesFit, OthersKept, Readable, Overwrite, ContentOf, CountFree;
    GrowsByABlock(d0, chains0, d, chains, f, host[..pos], x, linked, chunk, d');
    assert host[..pos] + chunk == host[..pos + |chunk|];
    assert host[..|host|] == host;
    if |chunk| == BLOCK_SIZE { SomeBlockIsFree(d'.used); }
  }

  lemma NextIsLinkedIn(d0: Disk, chains0: seq<seq<int>>, d: Disk, chains: seq<seq<int>>, f: int, last: int, x: int,
                       now: Disk, host: seq<Byte>, pos: nat)
    requires pos <= |host| && Grown(d0, chains0, d, chains, f, host[..pos]) && 0 <= f < |chains| == |d.nodes|
    requires 0 <= x < |d.used| && !d.used[x] && d.nodes[f].size == |chains[f]| * BLOCK_SIZE
    requires (|host| - pos) / BLOCK_SIZE < CountFree(d.used)
    requires chains[f] != [] && last == chains[f][|chains[f]| - 1] && 0 <= last < |d.next|
    requires now == d.(next := d.next[last := x])
    ensures CopyingIn(d0, chains0, d, chains, f, x, now, host, pos)
  {
  }

  // ----- copying out -----

  // The first k blocks of a chain have been copied, as far as the size goes.
  ghost predicate CopiedOut(data: seq<seq<Byte>>, chain: seq<int>, size: nat, k: nat, bytes: seq<Byte>, left: nat) {
    && k <= |chain| && (forall i :: 0 <= i < |chain| ==> 0 <= chain[i] < |data| && |data[chain[i]]| == BLOCK_SIZE)
    && (0 < k ==> (k - 1) * BLOCK_SIZE < size)
    && left == (if size <= k * BLOCK_SIZE then 0 else size - k * BLOCK_SIZE)
    && |bytes| == size - left
    && bytes <= Joined(data, chain[..k])
  }

  lemma NothingCopied(d: Disk, chains: seq<seq<int>>, f: int)
    requires WellFormed(d, chains, NIL) && 0 <= f < |d.nodes| == |chains|
    ensures CopiedOut(d.data, chains[f], d.nodes[f].size, 0, [], d.nodes[f].size)
  {
  }

  lemma CopiedOneMore(data: seq<seq<Byte>>, chain: seq<int>, size: nat, k: nat, bytes: seq<Byte>, left: nat, n: nat)
    requires CopiedOut(data, chain, size, k, bytes, left) && k < |chain|
    requires n == if left < BLOCK_SIZE then left else BLOCK_SIZE
    ensures 0 <= chain[k] < |data| && n <= |data[chain[k]]| == BLOCK_SIZE
    ensures n == 0 ==> BlocksFor(size) < |chain|
    ensures n > 0 ==> CopiedOut(data, chain, size, k + 1, bytes + data[chain[k]][..n], left - n)
  {
    assert chain[..k + 1][..k] == chain[..k];
    JoinedOfOneMore(data, chain[..k], chain[k]);
    assert chain[..k] + [chain[k]] == chain[..k + 1];
    if 0 < n {
      JoinedLength(data, chain[..k]);
      PrefixesJoin(bytes, Joined(data, chain[..k]), data[chain[k]], n);
    }
  }

  lemma PrefixesJoin(bytes: seq<Byte>, front: seq<Byte>, block: seq<Byte>, n: nat)
    requires bytes <= front && n <= |block| && (0 < n ==> |bytes| == |front|)
    ensures bytes + block[..n] <= front + block
  {
  }

  // The front of the blocks of inode f, as long as its size says, or as the blocks last.
  ghost predicate IsPrefixOfBlocks(d: Disk, chains: seq<seq<int>>, f: int, bytes: seq<Byte>) {
    && 0 <= f < |d.nodes| == |chains| && (forall i :: 0 <= i < |chains[f]| ==> 0 <= chains[f][i] < |d.data|)
    && bytes <= Joined(d.data, chains[f])
    && |bytes| <= d.nodes[f].size && (|bytes| < d.nodes[f].size ==> bytes == Joined(d.data, chains[f]))
  }

  lemma AllCopied(d: Disk, chains: seq<seq<int>>, f: int, bytes: seq<Byte>, left: nat)
    requires WellFormed(d, chains, NIL) && SizesFit(d, chains) && 0 <= f < |d.nodes|
    requires CopiedOut(d.data, chains[f], d.nodes[f].size, |chains[f]|, bytes, left)
    ensures |chains[f]| <= BlocksFor(d.nodes[f].size) && IsPrefixOfBlocks(d, chains, f, bytes)
    ensures d.nodes[f].kind == File ==> IsFile(d, chains, f) && bytes == ContentOf(d, chains, f)
  {
    hide Linked, Owned, WellFormed, Joined;
    assert chains[f][..|chains[f]|] == chains[f];
    JoinedLength(d.data, chains[f]);
    if d.nodes[f].kind == File {
      FilesAreReadable(d, chains, f);
    }
  }

  // File f has been cut down to its first size bytes, the blocks it no longer needs
  // are free, and nothing else has changed.
  ghost predicate Shortened(d: Disk, chains: seq<seq<int>>, d': Disk, chains': seq<seq<int>>, f: int, size: nat) {
    && IsFile(d, chains, f) && IsFile(d', chains', f)
    && WellFormed(d', chains', NIL) && SizesFit(d', chains')
    && OthersKept(d, chains, d', chains', f) && d'.data == d.data
    && d'.nodes[f].refs == d.nodes[f].refs
    && size <= d.nodes[f].size
    && chains'[f] <= chains[f]
    && ContentOf(d', chains', f) == ContentOf(d, chains, f)[..size]
  }

  lemma ShortensTo(d: Disk, chains: seq<seq<int>>, f: int, size: nat, d': Disk)
    requires WellFormed(d, chains, NIL) && SizesFit(d, chains) && 0 <= f < |d.nodes| && d.nodes[f].kind == File
    requires size <= d.nodes[f].size && BlocksFor(size) <= |chains[f]|
    requires CutAfter(d, chains, f, BlocksFor(size), d') && |d'.nodes| == |d.nodes|
    requires d'.nodes[f] == d.nodes[f].(size := size, first := d'.nodes[f].first)
    ensures Shortened(d, chains, d', chains[f := chains[f][..BlocksFor(size)]], f, size)
  {
    hide Owned, Linked;
    var k := BlocksFor(size);
    FilesAreReadable(d, chains, f);
    CuttingKeepsWellFormed(d, chains, f, k, d');
    ContentOfPrefix(d.data, chains[f], d.nodes[f].size, k, size);
  }

  // Clearing the blocks after the first k, and what led to them, cuts the chain.
  lemma ClearedIsCut(d: Disk, chains: seq<seq<int>>, f: int, k: nat, prev: int, cleared: Disk, d': Disk)
    requires WellFormed(d, chains, NIL) && 0 <= f < |d.nodes| && |chains| == |d.nodes| && k <= |chains[f]|
    requires Cleared(d.used, d.next, chains[f][k..], cleared.used, cleared.next)
    requires cleared.data == d.data && |cleared.nodes| == |d.nodes| && cleared.nodes[f].first == d.nodes[f].first
    requires forall i :: 0 <= i < |d.nodes| && i != f ==> cleared.nodes[i] == d.nodes[i]
    requires prev == if k == 0 then NIL else chains[f][k - 1]
    requires prev == NIL ==> d' == cleared.(nodes := cleared.nodes[f := cleared.nodes[f].(first := NIL)])
    requires prev != NIL ==> 0 <= prev < |d.next| && d' == cleared.(next := cleared.next[prev := NIL])
    ensures CutAfter(d, chains, f, k, d')
  {
  }

  lemma ClearingShortens(d: Disk, chains: seq<seq<int>>, f: int, size: nat, prev: int, cleared: Disk, d': Disk)
    requires WellFormed(d, chains, NIL) && SizesFit(d, chains) && 0 <= f < |d.nodes| && d.nodes[f].kind == File
    requires |chains| == |d.nodes| && size <= d.nodes[f].size && BlocksFor(size) <= |chains[f]|
    requires Cleared(d.used, d.next, chains[f][BlocksFor(size)..], cleared.used, cleared.next)
    requires cleared.data == d.data && cleared.nodes == d.nodes[f := d.nodes[f].(size := size)]
    requires prev == if BlocksFor(size) == 0 then NIL else chains[f][BlocksFor(size) - 1]
    requires prev == NIL ==> d' == cleared.(nodes := cleared.nodes[f := cleared.nodes[f].(first := NIL)])
    requires prev != NIL ==> 0 <= prev < |d.next| && d' == cleared.(next := cleared.next[prev := NIL])
    ensures Shortened(d, chains, d', chains[f := chains[f][..BlocksFor(size)]], f, size)
    ensures WellFormed(d', chains[f := chains[f][..BlocksFor(size)]], NIL)
    ensures SizesFit(d', chains[f := chains[f][..BlocksFor(size)]])
  {
    hide WellFormed, SizesFit, Cleared, CutAfter, OthersKept;
    ClearedIsCut(d, chains, f, BlocksFor(size), prev, cleared, d');
    ShortensTo(d, chains, f, size, d');
  }

  lemma FileHasItsBlocks(d: Disk, chains: seq<seq<int>>, f: int, size: nat)
    requires WellFormed(d, chains, NIL) && SizesFit(d, chains) && 0 <= f < |d.nodes| && d.nodes[f].kind == File
    requires size <= d.nodes[f].size
    ensures BlocksFor(size) <= |chains[f]| && BlocksFor(size) == size / BLOCK_SIZE + Bit(0 < size % BLOCK_SIZE)
  {
  }

  // Extending a file and truncating it by as much restores the disc: content, chain,
  // occupancy map and every inode are as before.
  lemma GrowThenShorten(d: Disk, chains: seq<seq<int>>, d1: Disk, chains1: seq<seq<int>>, d2: Disk,
                        chains2: seq<seq<int>>, f: int, bytes: seq<Byte>)
    requires WellFormed(d, chains, NIL) && SizesFit(d, chains) && Grown(d, chains, d1, chains1, f, bytes)
    requires Shortened(d1, chains1, d2, chains2, f, d.nodes[f].size)
    requires |d.used| == |d2.used|
    ensures chains2 == chains && d2.used == d.used && d2.next == d.next && d2.nodes == d.nodes
    ensures ContentOf(d2, chains2, f) == ContentOf(d, chains, f)
  {
    hide Owned;
    assert |chains2[f]| == |chains[f]|;
    assert chains2[f] == chains1[f][..|chains[f]|] == chains[f];
    assert chains2 == chains;
    FilesAreReadable(d, chains, f);
    FilesAreReadable(d2, chains2, f);
    assert d2.nodes[f] == d.nodes[f];
    assert d2.nodes == d.nodes;
    assert forall b :: 0 <= b < |d.used| ==> d2.used[b] == d.used[b] by { OwnedIsNotNil(chains); }
    LinksAreDetermined(d, d2, chains);
  }

  // The chains and the occupancy map determine the links.
  lemma LinksAreDetermined(d: Disk, d': Disk, chains: seq<seq<int>>)
    requires WellFormed(d, chains, NIL) && WellFormed(d', chains, NIL) && d'.used == d.used
    ensures d'.next == d.next
  {
  }

  lemma OwnedIsNotNil(chains: seq<seq<int>>)
    ensures forall b :: 0 <= b && Owned(chains, b) ==> b != NIL
  {
  }
}
