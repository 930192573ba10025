// The virtual disc: files and directories in chains of blocks.
module VirtualDiscs {
  import opened Basics
  import opened Links
  import opened Disks
  import opened Directories
  import opened Trees
  import opened LinkCounts
  import opened Removals
  import opened Insertions
  import opened Copies

  // The unsigned 32-bit -1 that the searches for a free inode or block return in vain.
  const NOTHING_FREE := 0xFFFF_FFFF

  // Reading up to n bytes of a host file from position pos on.
  method Fread(host: seq<Byte>, pos: nat, n: nat) returns (chunk: seq<Byte>, eof: bool)
    requires pos <= |host|
    ensures chunk == host[pos..if |host| - pos < n then |host| else pos + n]
    ensures eof <==> |chunk| < n
  {
    chunk := if |host| - pos < n then host[pos..] else host[pos..pos + n];
    eof := |chunk| < n;
  }

  // The first element of a directory block found under the name.
  method FindInBlock(block: seq<Byte>, name: seq<Byte>) returns (i: nat)
    requires |block| == BLOCK_SIZE
    ensures i <= PER_BLOCK && (i < PER_BLOCK ==> Matches(EntryAt(block, i), name))
    ensures forall j :: 0 <= j < i ==> !Matches(EntryAt(block, j), name)
    // A name matches in full, and only where the flag is exactly 1.
    ensures i < PER_BLOCK ==> EntryAt(block, i).used == 1 && Text(EntryAt(block, i).name) == name
    ensures forall j :: 0 <= j < i && EntryAt(block, j).used == 1 ==> Text(EntryAt(block, j).name) != name
  {
    i := 0;
    while i < PER_BLOCK
      invariant i <= PER_BLOCK
      invariant forall j :: 0 <= j < i ==> !Matches(EntryAt(block, j), name)
    {
      if Matches(EntryAt(block, i), name) { return; }
      i := i + 1;
    }
  }

  method FindUnused(block: seq<Byte>) returns (i: nat)
    requires |block| == BLOCK_SIZE
    ensures i == FirstUnused(Elements(block))
  {
    ghost var es := Elements(block);
    i := 0;
    while i < PER_BLOCK
      invariant i <= PER_BLOCK && forall j :: 0 <= j < i ==> es[j].used != 0
    {
      if EntryAt(block, i).used == 0 { break; }
      i := i + 1;
    }
  }

  class VirtualDisc {
    const nodeTab: array<Inode>
    const dataMap: array<bool>
    const blockNext: array<int>
    const blockData: array<seq<Byte>>
    var checked: seq<int>
    ghost var chains: seq<seq<int>>

    ghost function Image(): Disk
      reads nodeTab, dataMap, blockNext, blockData
    {
      Disk(nodeTab[..], dataMap[..], blockNext[..], blockData[..])
    }

    ghost predicate Valid()
      reads this`chains, nodeTab, dataMap, blockNext, blockData
    {
      && WellFormed(Image(), chains, NIL) && SizesFit(Image(), chains)
      && nodeTab.Length <= NOTHING_FREE && dataMap.Length <= NOTHING_FREE
      && (0 < nodeTab.Length ==> nodeTab[0].kind == Directory)
    }

    // An empty disc: the root directory is inode 0.
    constructor (inodes: nat, blocks: nat)
      requires 0 < inodes <= NOTHING_FREE && blocks <= NOTHING_FREE
      ensures Valid() && nodeTab.Length == inodes && dataMap.Length == blocks
      ensures fresh(nodeTab) && fresh(dataMap) && fresh(blockNext) && fresh(blockData)
      ensures nodeTab[0] == Inode(0, NIL, Directory, 1)
      ensures forall i :: 0 < i < inodes ==> nodeTab[i] == Inode(0, NIL, Empty, 0)
      ensures forall b :: 0 <= b < blocks ==> !dataMap[b]
      ensures chains == seq(inodes, _ => []) && Sound(Graph())
    {
      nodeTab := new Inode[inodes](i => if i == 0 then Inode(0, NIL, Directory, 1) else Inode(0, NIL, Empty, 0));
      dataMap := new bool[blocks](_ => false);
      blockNext := new int[blocks](_ => NIL);
      blockData := new seq<Byte>[blocks](_ => Zeros(BLOCK_SIZE));
      checked := [];
      chains := seq(inodes, _ => []);
      new;
      hide Valid, Sound;
      EmptyDiscIsSound();
    }

    lemma EmptyDiscIsSound()
      requires 0 < nodeTab.Length <= NOTHING_FREE
      requires dataMap.Length == blockNext.Length == blockData.Length <= NOTHING_FREE
      requires |chains| == nodeTab.Length && nodeTab[0] == Inode(0, NIL, Directory, 1)
      requires forall i :: 0 <= i < nodeTab.Length ==> chains[i] == [] && (i > 0 ==>
        nodeTab[i] == Inode(0, NIL, Empty, 0))
      requires forall b :: 0 <= b < dataMap.Length ==>
        !dataMap[b] && |blockData[b]| == BLOCK_SIZE && blockNext[b] == NIL
      ensures Valid() && Sound(Graph())
    {
      ChainsInBlocks(Image(), chains);
      EmptyTreeIsSound(Graph());
    }

    method FindFreeNode() returns (i: int)
      requires nodeTab.Length <= NOTHING_FREE
      ensures i != NOTHING_FREE ==> LowestEmpty(nodeTab[..], i)
      ensures i == NOTHING_FREE || (0 <= i < nodeTab.Length && nodeTab[i].kind == Empty)
      ensures forall j :: 0 <= j < nodeTab.Length && (j < i || i == NOTHING_FREE) ==> nodeTab[j].kind != Empty
    {
      i := 0;
      while i < nodeTab.Length
        invariant 0 <= i <= nodeTab.Length
        invariant forall j :: 0 <= j < i ==> nodeTab[j].kind != Empty
      {
        if nodeTab[i].kind == Empty { return; }
        i := i + 1;
      }
      return NOTHING_FREE;
    }

    method FindFreeDatablock() returns (i: int)
      requires dataMap.Length <= NOTHING_FREE
      ensures i == NOTHING_FREE || (0 <= i < dataMap.Length && !dataMap[i])
      ensures forall j :: 0 <= j < dataMap.Length && (j < i || i == NOTHING_FREE) ==> dataMap[j]
    {
      i := 0;
      while i < dataMap.Length
        invariant 0 <= i <= dataMap.Length
        invariant forall j :: 0 <= j < i ==> dataMap[j]
      {
        if !dataMap[i] { return; }
        i := i + 1;
      }
      return NOTHING_FREE;
    }

    method GetFreeSpace() returns (bytes: int)
      ensures bytes == CountFree(dataMap[..]) * BLOCK_SIZE
    {
      var free := 0;
      for i := 0 to dataMap.Length
        invariant free == CountFree(dataMap[..i])
      {
        assert dataMap[..i + 1][..i] == dataMap[..i];
        if !dataMap[i] { free := free + 1; }
      }
      assert dataMap[..dataMap.Length] == dataMap[..];
      bytes := free * BLOCK_SIZE;
    }

    // Free space and the space in chains always make up the whole disc.
    lemma SpaceAddsUp()
      requires Valid()
      ensures CountFree(dataMap[..]) * BLOCK_SIZE + TotalBlocks(chains) * BLOCK_SIZE == dataMap.Length * BLOCK_SIZE
    {
      SpaceIsConserved(Image(), chains);
    }

    // Gives back the blocks of the list that starts at first.
    method DeallocDatablocks(first: int, ghost path: seq<int>)
      requires dataMap.Length == blockNext.Length && Linked(blockNext[..], first, path)
      modifies dataMap, blockNext
      ensures Cleared(old(dataMap[..]), old(blockNext[..]), path, dataMap[..], blockNext[..])
    {
      ghost var used, next := dataMap[..], blockNext[..];
      var ids := [];
      var id := first;
      while id != NIL
        invariant |ids| <= |path| && ids == path[..|ids|] && id == At(path, |ids|)
        decreases |path| - |ids|
      {
        assert next[path[|ids|]] == At(path, |ids| + 1);
        ids := ids + [id];
        id := blockNext[id];
      }
      assert ids == path;
      for k := 0 to |ids|
        invariant Cleared(used, next, path[..k], dataMap[..], blockNext[..])
      {
        assert path[..k + 1] == path[..k] + [path[k]];
        blockNext[ids[k]] := NIL;
        dataMap[ids[k]] := false;
      }
      assert path[..|ids|] == path;
    }

    // Takes the block idx off the chain of inode n: whatever leads to it ends there.
    method RemoveDatablockFromInode(n: int, idx: int, ghost path: seq<int>)
      requires 0 <= n < nodeTab.Length && Linked(blockNext[..], nodeTab[n].first, path)
      modifies nodeTab, blockNext
      ensures var first := old(nodeTab[n].first);
              nodeTab[..] == if first == idx then old(nodeTab[..])[n := old(nodeTab[n]).(first := NIL)]
                                else old(nodeTab[..])
      ensures var first := old(nodeTab[n].first);
              forall b :: 0 <= b < blockNext.Length ==>
                (blockNext[b] == if first != idx && b in path && old(blockNext[b]) == idx then NIL
                                    else old(blockNext[b]))
    {
      ghost var next := blockNext[..];
      LinkedIsAcyclic(next, nodeTab[n].first, path);
      var curr := nodeTab[n].first;
      if curr == idx {
        nodeTab[n] := nodeTab[n].(first := NIL);
        return;
      }
      ghost var k := 0;
      while curr != NIL
        invariant k <= |path| && curr == At(path, k)
        invariant nodeTab[..] == old(nodeTab[..]) && blockNext[..] == next
        invariant forall j :: 0 <= j < k ==> next[path[j]] != idx
        decreases |path| - k
      {
        assert next[path[k]] == At(path, k + 1);
        if blockNext[curr] == idx {
          blockNext[curr] := NIL;
          forall b | 0 <= b < blockNext.Length && b in path && next[b] == idx
            ensures b == curr
          {
            var j :| 0 <= j < |path| && path[j] == b;
            assert next[path[j]] == At(path, j + 1);
          }
          return;
        }
        curr := blockNext[curr];
        k := k + 1;
      }
    }

    // ----- files -----

    method LastBlock(f: int) returns (last: int)
      requires Valid() && 0 <= f < nodeTab.Length && chains[f] != []
      ensures last == chains[f][|chains[f]| - 1]
    {
      hide WellFormed;
      ghost var path := chains[f];
      ChainIsLinked(Image(), chains, f);
      last := nodeTab[f].first;
      ghost var k := 0;
      assert blockNext[..][path[0]] == At(path, 1);
      while blockNext[last] != NIL
        invariant k < |path| && last == path[k] && 0 <= last < blockNext.Length
        decreases |path| - k
      {
        assert blockNext[..][path[k]] == At(path, k + 1);
        last := blockNext[last];
        k := k + 1;
      }
      assert blockNext[..][path[k]] == At(path, k + 1);
    }

    // One more block, cleared as far as the file needs it.
    method AppendZeros(f: int, last: int, left: nat, n: nat, ghost d0: Disk, ghost chains0: seq<seq<int>>,
                       ghost amount: nat)
      returns (x: int)
      requires Valid() && Growing(d0, chains0, Image(), chains, f, last, amount, left)
      requires 0 < left && n == if left > BLOCK_SIZE then BLOCK_SIZE else left
      modifies this`chains, nodeTab, dataMap, blockNext, blockData
      ensures Valid() && Growing(d0, chains0, Image(), chains, f, x, amount, left - n)
    {
      hide WellFormed, SizesFit, Linked, Overwrite, Zeros, Growing;
      ghost var d := Image();
      ZerosJoined(0, n);
      GrowingHasRoom(d0, chains0, d, chains, f, last, amount, left);
      x := FindFreeDatablock();
      WellFormedData(d, chains, x);
      blockNext[last] := x;
      ghost var linked := Image();
      dataMap[x] := true;
      blockData[x] := Overwrite(blockData[x], 0, Zeros(n));
      nodeTab[f] := nodeTab[f].(size := nodeTab[f].size + n);
      ZerosAppended(d0, chains0, d, chains, f, last, amount, left, n, x, linked, Image());
      chains := chains[f := chains[f] + [x]];
    }

    // Extends the last block with zeros, as far as there is room and need.
    method FillLastBlock(f: int, last: int, amount: nat, n: nat)
      requires Valid() && 0 <= f < nodeTab.Length && nodeTab[f].kind == File
      requires chains[f] != [] && last == chains[f][|chains[f]| - 1]
      requires 0 < nodeTab[f].size % BLOCK_SIZE && n <= amount
      requires n == amount || nodeTab[f].size % BLOCK_SIZE + n == BLOCK_SIZE
      requires nodeTab[f].size % BLOCK_SIZE + n <= BLOCK_SIZE
      requires BlocksFor(nodeTab[f].size + amount) - BlocksFor(nodeTab[f].size) <= CountFree(dataMap[..])
      modifies nodeTab, blockData
      ensures Valid() && Growing(old(Image()), chains, Image(), chains, f, last, amount, amount - n)
    {
      hide WellFormed, SizesFit, Linked, Overwrite, Zeros, Growing;
      ghost var d := Image();
      ZerosJoined(0, n);
      ChainIsLinked(d, chains, f);
      WellFormedData(d, chains, last);
      blockData[last] := Overwrite(blockData[last], nodeTab[f].size % BLOCK_SIZE, Zeros(n));
      nodeTab[f] := nodeTab[f].(size := nodeTab[f].size + n);
      ZerosFillUp(d, chains, f, last, amount, n, Image());
    }

    // Appends amount zero bytes to the file f, whatever its blocks held before.
    method IncreaseFile(f: int, amount: nat)
      requires Valid() && 0 <= f < nodeTab.Length && nodeTab[f].kind == File && 0 < nodeTab[f].size
      requires BlocksFor(nodeTab[f].size + amount) - BlocksFor(nodeTab[f].size) <= CountFree(dataMap[..])
      modifies this`chains, nodeTab, dataMap, blockNext, blockData
      ensures Valid() && Grown(old(Image()), old(chains), Image(), chains, f, Zeros(amount))
    {
      hide WellFormed, Growing, Grown;
      ghost var d0, chains0 := Image(), chains;
      var last := LastBlock(f);
      StartsGrowing(d0, chains0, f, last, amount);
      var lastSize := nodeTab[f].size % BLOCK_SIZE;
      var left: nat := amount;
      if 0 < lastSize {
        var extend := BLOCK_SIZE - nodeTab[f].size % BLOCK_SIZE;
        if extend > left { extend := left; }
        FillLastBlock(f, last, amount, extend);
        left := left - extend;
      }
      while 0 < left
        invariant Valid() && Growing(d0, chains0, Image(), chains, f, last, amount, left)
      {
        var n := if left > BLOCK_SIZE then BLOCK_SIZE else left;
        last := AppendZeros(f, last, left, n, d0, chains0, amount);
        left := left - n;
      }
      HasGrown(d0, chains0, Image(), chains, f, last, amount);
    }

    // The block after the first k of a chain, and the one before it.
    method SkipBlocks(f: int, k: nat, ghost path: seq<int>) returns (prev: int, id: int)
      requires 0 <= f < nodeTab.Length && Linked(blockNext[..], nodeTab[f].first, path) && k <= |path|
      ensures prev == (if k == 0 then NIL else path[k - 1]) && id == At(path, k)
    {
      id := nodeTab[f].first;
      prev := NIL;
      for i := 0 to k
        invariant prev == (if i == 0 then NIL else path[i - 1]) && id == At(path, i)
      {
        assert blockNext[..][path[i]] == At(path, i + 1);
        prev := id;
        id := blockNext[id];
      }
    }

    // Cuts the file f by amount bytes, unless it has fewer.
    method DecreaseFile(f: int, amount: nat) returns (done: bool)
      requires Valid() && 0 <= f < nodeTab.Length && nodeTab[f].kind == File
      modifies this`chains, nodeTab, dataMap, blockNext
      ensures Valid() && (done <==> amount <= old(nodeTab[f].size))
      ensures !done ==> Image() == old(Image()) && chains == old(chains)
      ensures done ==> Shortened(old(Image()), old(chains), Image(), chains, f, old(nodeTab[f].size) - amount)
    {
      hide WellFormed, SizesFit, Linked, Shortened, Cleared, CutAfter;
      if amount > nodeTab[f].size { return false; }
      ghost var d := Image();
      ChainIsLinked(d, chains, f);
      ghost var path := chains[f];
      FileHasItsBlocks(d, chains, f, nodeTab[f].size - amount);
      nodeTab[f] := nodeTab[f].(size := nodeTab[f].size - amount);
      var blocks := nodeTab[f].size / BLOCK_SIZE;
      if 0 < nodeTab[f].size % BLOCK_SIZE { blocks := blocks + 1; }
      assert blocks == BlocksFor(nodeTab[f].size);
      hide BlocksFor;
      SuffixLinked(blockNext[..], nodeTab[f].first, path, blocks);
      var prev, id := SkipBlocks(f, blocks, path);
      assert prev == NIL || prev in path;
      DeallocDatablocks(id, path[blocks..]);
      ghost var cleared := Image();
      if prev == NIL {
        nodeTab[f] := nodeTab[f].(first := NIL);
      } else {
        blockNext[prev] := NIL;
      }
      ClearingShortens(d, chains, f, nodeTab[f].size, prev, cleared, Image());
      chains := chains[f := path[..blocks]];
      done := true;
    }

    // One block's worth of the host file goes to block x; past its end nothing is read.
    method ReadBlock(f: int, x: int, host: seq<Byte>, pos: nat) returns (got: nat, eof: bool)
      requires 0 <= f < nodeTab.Length && 0 <= x < blockData.Length && |blockData[x]| == BLOCK_SIZE && pos <= |host|
      modifies nodeTab, blockData
      ensures got == (if |host| - pos < BLOCK_SIZE then |host| - pos else BLOCK_SIZE) && (eof <==> got < BLOCK_SIZE)
      ensures blockData[..] == old(blockData[..])[x := Overwrite(old(blockData[x]), 0, host[pos..pos + got])]
      ensures nodeTab[..] == old(nodeTab[..])[f := old(nodeTab[f]).(size := old(nodeTab[f].size) + got)]
    {
      ghost var rest := |host| - pos;
      got, eof := 0, false;
      NothingRead(blockData[x], host, pos);
      while got < BLOCK_SIZE
        invariant got == 0 || (got == (if rest < BLOCK_SIZE then rest else BLOCK_SIZE) && (eof <==> got < BLOCK_SIZE))
        invariant blockData[..] == old(blockData[..])[x := Overwrite(old(blockData[x]), 0, host[pos..pos + got])]
        invariant nodeTab[..] == old(nodeTab[..])[f := old(nodeTab[f]).(size := old(nodeTab[f].size) + got)]
        decreases BLOCK_SIZE - got
      {
        var chunk;
        chunk, eof := Fread(host, pos + got, BLOCK_SIZE - got);
        NothingRead(blockData[x], host, pos);
        blockData[x] := Overwrite(blockData[x], 0, chunk);
        if chunk == [] && eof {
          break;
        } else if chunk == [] {
          assert false;
        }
        assert got == 0 && host[pos..pos + |chunk|] == chunk;
        got := got + |chunk|;
        nodeTab[f] := nodeTab[f].(size := nodeTab[f].size + |chunk|);
      }
    }

    // One round of the copying loop: block x is filled; then it is taken off again, or it
    // is the last, or another one is linked in behind it.
    method CopyBlock(f: int, x: int, host: seq<Byte>, pos: nat, ghost d0: Disk, ghost chains0: seq<seq<int>>,
                     ghost d: Disk)
      returns (ghost d': Disk, pos': nat, next: int)
      requires CopyingIn(d0, chains0, d, chains, f, x, Image(), host, pos)
      requires nodeTab.Length <= NOTHING_FREE && dataMap.Length <= NOTHING_FREE && f != 0
      requires 0 < nodeTab.Length && nodeTab[0].kind == Directory
      modifies this`chains, nodeTab, dataMap, blockNext, blockData
      ensures next == NIL ==> Valid() && Grown(d0, chains0, Image(), chains, f, host) && pos' == |host|
      ensures next != NIL ==> CopyingIn(d0, chains0, d', chains, f, next, Image(), host, pos')
      ensures next != NIL ==> pos' == pos + BLOCK_SIZE <= |host| && nodeTab[0].kind == Directory
    {
      hide WellFormed, SizesFit, Linked, Overwrite, Grown, CopyingIn, LinkedIn;
      CopyingInBounds(d0, chains0, d, chains, f, x, Image(), host, pos);
      ghost var linked, ch := Image(), chains;
      var got, eof := ReadBlock(f, x, host, pos);
      d', pos', next := d, pos + got, NIL;
      if got == 0 {
        NothingRead(linked.data[x], host, pos);
        assert Image() == linked;
        RemoveDatablockFromInode(f, x, chains[f] + [x]);
        UnlinkingRestores(d0, chains0, d, ch, f, x, linked, Image(), host, pos);
      } else {
        dataMap[x] := true;
        ghost var chunk := host[pos..pos + got];
        BlockCopied(d0, chains0, d, ch, f, x, linked, host, pos, chunk, Image());
        chains := ch[f := ch[f] + [x]];
        if eof {
          blockNext[x] := NIL;
          assert blockNext[..] == linked.next;
        } else {
          d' := Image();
          next := FindFreeDatablock();
          blockNext[x] := next;
          NextIsLinkedIn(d0, chains0, d', chains, f, x, next, Image(), host, pos');
        }
      }
    }

    // Copies the host file into the empty file f.
    method FillFile(f: int, host: seq<Byte>)
      requires Valid() && 0 <= f < nodeTab.Length && nodeTab[f].kind == File && nodeTab[f].size == 0
      requires |host| / BLOCK_SIZE < CountFree(dataMap[..])
      modifies this`chains, nodeTab, dataMap, blockNext, blockData
      ensures Valid() && Grown(old(Image()), old(chains), Image(), chains, f, host)
    {
      hide WellFormed, SizesFit, Linked, Overwrite, Grown, CopyingIn, LinkedIn;
      ghost var d0, chains0 := Image(), chains;
      StartsEmpty(d0, chains0, f, host);
      var curr := FindFreeDatablock();
      nodeTab[f] := nodeTab[f].(first := curr);
      var pos: nat := 0;
      ghost var d := d0;
      while curr != NIL
        invariant curr != NIL ==> nodeTab[0].kind == Directory && pos <= |host|
        invariant curr != NIL ==> CopyingIn(d0, chains0, d, chains, f, curr, Image(), host, pos)
        invariant curr == NIL ==> Valid() && Grown(d0, chains0, Image(), chains, f, host) && pos == |host|
        decreases |host| - pos + Bit(curr != NIL)
      {
        d, pos, curr := CopyBlock(f, curr, host, pos, d0, chains0, d);
      }
    }

    // Copies the blocks of inode f to a host file; writing no bytes at all for a block is
    // an error.
    method CopyOut(f: int) returns (out: Option<seq<Byte>>)
      requires Valid() && 0 <= f < nodeTab.Length
      ensures out.None? <==> BlocksFor(nodeTab[f].size) < |chains[f]|
      ensures nodeTab[f].kind == File ==> IsFile(Image(), chains, f) && out == Some(ContentOf(Image(), chains, f))
      ensures out.Some? ==> IsPrefixOfBlocks(Image(), chains, f, out.value)
    {
      hide WellFormed, Joined, CopiedOut;
      ghost var chain, size := chains[f], nodeTab[f].size;
      ChainIsLinked(Image(), chains, f);
      var curr: int, left: nat := nodeTab[f].first, nodeTab[f].size;
      var bytes: seq<Byte> := [];
      ghost var k: nat := 0;
      NothingCopied(Image(), chains, f);
      while curr != NIL
        invariant k <= |chain| && curr == At(chain, k) && CopiedOut(blockData[..], chain, size, k, bytes, left)
        decreases |chain| - k
      {
        assert blockNext[..][chain[k]] == At(chain, k + 1);
        var n := if left < BLOCK_SIZE then left else BLOCK_SIZE;
        CopiedOneMore(blockData[..], chain, size, k, bytes, left, n);
        if n == 0 {
          return None;
        }
        bytes := bytes + blockData[curr][..n];
        left := left - n;
        curr := blockNext[curr];
        k := k + 1;
      }
      AllCopied(Image(), chains, f, bytes, left);
      return Some(bytes);
    }

    // ----- directories -----

    ghost function Graph(): (t: Tree)
      requires Valid()
      reads this`chains, nodeTab, dataMap, blockNext, blockData
      ensures t.nodes == nodeTab[..] && |t.listing| == nodeTab.Length == |chains|
      ensures InBlocks(Image(), chains)
      ensures forall i :: 0 <= i < |chains| ==> t.listing[i] == Listing(blockData[..], chains[i])
    {
      ChainsInBlocks(Image(), chains);
      TreeOf(Image(), chains)
    }

    // The element of directory dir found under the name, as a block and a position; a is
    // the place of that block in the chain.
    method FindElemInDir(dir: int, name: seq<Byte>) returns (found: bool, block: int, i: nat, ghost a: nat)
      requires Valid() && 0 <= dir < nodeTab.Length
      ensures found ==> FirstMatch(Graph(), dir, name, a, i) && block == chains[dir][a]
      ensures !found ==> NoMatch(Graph(), dir, name)
    {
      hide WellFormed, SizesFit, Matches;
      ghost var t, chain := Graph(), chains[dir];
      found, block, i, a := false, NIL, 0, 0;
      if nodeTab[dir].kind != Directory { return; }
      ChainIsLinked(Image(), chains, dir);
      block := nodeTab[dir].first;
      while block != NIL
        invariant a <= |chain| && block == At(chain, a)
        invariant forall a', i' :: IsPlace(t, dir, a', i') && a' < a ==> !Matches(t.listing[dir][a'][i'], name)
        decreases |chain| - a
      {
        assert blockNext[..][chain[a]] == At(chain, a + 1);
        assert t.listing[dir][a] == Elements(blockData[block]);
        i := FindInBlock(blockData[block], name);
        if i < PER_BLOCK {
          found := true;
          return;
        }
        block := blockNext[block];
        a := a + 1;
      }
    }

    method FindInDir(dir: int, name: seq<Byte>) returns (r: Option<int>)
      requires Valid() && 0 <= dir < nodeTab.Length && NamesInRange(Graph())
      ensures r.None? ==> NoMatch(Graph(), dir, name)
      ensures r.Some? ==> 0 <= r.value < nodeTab.Length && LooksUp(Graph(), dir, name, r.value)
    {
      hide WellFormed, SizesFit;
      var found, block, i; ghost var a;
      found, block, i, a := FindElemInDir(dir, name);
      if !found { return None; }
      assert Graph().listing[dir][a][i] == EntryAt(blockData[block], i);
      assert Names(Graph(), dir, a, i, EntryAt(blockData[block], i).id);
      return Some(EntryAt(blockData[block], i).id);
    }

    // Follows the names of the path from the root on.
    method FindDirInode(path: seq<seq<Byte>>) returns (r: Option<int>, ghost trail: seq<int>, ghost places: seq<Place>)
      requires Valid() && 0 < nodeTab.Length && NamesInRange(Graph())
      ensures Leads(Graph(), path, trail, places)
      ensures r.Some? <==> |places| == |path|
      ensures r.Some? ==>
        r.value == trail[|path|] && 0 <= r.value < nodeTab.Length && nodeTab[r.value].kind == Directory
      ensures r.None? ==> Stuck(Graph(), trail[|places|], path[|places|])
      ensures forall d :: LeadsTo(Graph(), path, d) <==> r == Some(d)
    {
      hide WellFormed, SizesFit, NamesInRange, NoMatch, LeadsTo;
      trail, places := [0], [];
      assert Leads(Graph(), path, trail, places);
      hide Leads, FirstMatch;
      var curr := 0;
      for k := 0 to |path|
        invariant Leads(Graph(), path, trail, places) && |places| == k
        invariant curr == trail[k] && 0 <= curr < nodeTab.Length && nodeTab[curr].kind == Directory
      {
        var next := FindInDir(curr, path[k]);
        if next.Some? && nodeTab[next.value].kind == Directory {
          ghost var a, i :| FirstMatch(Graph(), curr, path[k], a, i) && Graph().listing[curr][a][i].id == next.value;
          LeadsFurther(Graph(), path, trail, places, Place(curr, a, i), next.value);
          trail, places := trail + [next.value], places + [Place(curr, a, i)];
          curr := next.value;
        } else {
          TrailIsTelling(Graph(), path, trail, places);
          return None, trail, places;
        }
      }
      TrailIsTelling(Graph(), path, trail, places);
      return Some(curr), trail, places;
    }

    // ----- sizes -----

    // The sizes of the files in directory d and below that have not been checked yet.
    method SumRecursively(d: int) returns (sum: nat)
      requires Valid() && NamesInRange(Graph()) && 0 <= d < nodeTab.Length && nodeTab[d].kind == Directory
      requires Explored(Graph(), d, |checked|, checked)
      modifies this`checked
      ensures old(checked) <= checked && Explored(Graph(), d, |old(checked)|, checked)
      ensures forall y :: Succ(Graph(), d, y) ==> y in checked
      ensures sum == SumSizes(Graph(), checked[|old(checked)|..])
      ensures sum == |BytesOf(Image(), chains, checked[|old(checked)|..])|
      decreases nodeTab.Length - |checked|, 1
    {
      hide WellFormed, SizesFit, Explored, SeenBefore, NamesInRange;
      ghost var t, chain, from, a := Graph(), chains[d], |checked|, 0;
      ChainIsLinked(Image(), chains, d);
      NothingSeen(t, d, checked);
      ExploredIsShort(t, d, from, checked);
      sum := 0;
      var block := nodeTab[d].first;
      while block != NIL
        invariant a <= |chain| && block == At(chain, a)
        invariant old(checked) <= checked && Explored(t, d, from, checked) && SeenBefore(t, d, a, 0, checked)
        invariant sum == SumSizes(t, checked[from..])
        decreases |chain| - a
      {
        assert blockNext[..][chain[a]] == At(chain, a + 1);
        for i := 0 to PER_BLOCK
          invariant old(checked) <= checked && Explored(t, d, from, checked) && SeenBefore(t, d, a, i, checked)
          invariant sum == SumSizes(t, checked[from..])
        {
          ghost var v := checked;
          var more := VisitElem(d, a, i, block, from);
          sum := sum + more;
          SumSizesFrom(t, v, checked, from);
        }
        BlockSeen(t, d, a, checked);
        block := blockNext[block];
        a := a + 1;
      }
      AllSeen(t, d, a, checked);
      ExploredSizes(d, from, |old(checked)|);
    }

    // What the inodes visited so far have to say of sizes.
    lemma ExploredSizes(d: int, from: nat, k: nat)
      requires Valid() && Explored(Graph(), d, from, checked) && k <= |checked|
      ensures SumSizes(Graph(), checked[k..]) == |BytesOf(Image(), chains, checked[k..])|
    {
      hide WellFormed, SizesFit;
      SizesAreLengths(Image(), chains, Graph(), checked[k..]);
    }

    // One element: unless it is unused or leads to an inode checked before, its inode
    // counts, with all that is below it.
    method VisitElem(d: int, ghost a: nat, i: nat, block: int, ghost from: nat) returns (sum: nat)
      requires Valid() && NamesInRange(Graph()) && 0 <= d < nodeTab.Length && nodeTab[d].kind == Directory
      requires a < |chains[d]| && block == chains[d][a] && i < PER_BLOCK
      requires Explored(Graph(), d, from, checked) && SeenBefore(Graph(), d, a, i, checked)
      modifies this`checked
      ensures old(checked) <= checked && Explored(Graph(), d, from, checked)
      ensures SeenBefore(Graph(), d, a, i + 1, checked)
      ensures sum == SumSizes(Graph(), checked[|old(checked)|..])
      ensures sum == |BytesOf(Image(), chains, checked[|old(checked)|..])|
      decreases nodeTab.Length - |checked|, 0
    {
      hide WellFormed, SizesFit, Explored, SeenBefore, Reachable, SumSizes, Linked, EntryAt, BytesOf;
      ghost var t, v := Graph(), checked;
      assert IsPlace(t, d, a, i) && t.listing[d][a][i] == EntryAt(blockData[block], i);
      ChainIsLinked(Image(), chains, d);
      var e := EntryAt(blockData[block], i);
      sum := 0;
      if e.used == 0 || e.id in checked {
        OneMoreSeen(t, d, a, i, v, checked);
        NothingSeen(t, d, v);
        ExploredSizes(d, from, |v|);
        return;
      }
      assert Names(t, d, a, i, e.id);
      assert Succ(t, d, e.id);
      checked := checked + [e.id];
      ExploredLeaf(t, d, e.id, from, v);
      SumOfOne(t, e.id);
      if nodeTab[e.id].kind == Directory {
        ExploredIsShort(t, e.id, |v| + 1, checked);
        sum := SumRecursively(e.id);
        ExploredFurther(t, d, e.id, from, v, checked);
        assert checked[|v|..] == [e.id] + checked[|v| + 1..];
        SumSizesJoined(t, [e.id], checked[|v| + 1..]);
      } else if nodeTab[e.id].kind == File {
        sum := nodeTab[e.id].size;
      }
      assert checked[|v|] == e.id;
      OneMoreSeen(t, d, a, i, v, checked);
      ExploredSizes(d, from, |v|);
    }

    // The part of a directory's report that sums up: each file below it once, however
    // many names it has, and what is free.
    method Report(d: int) returns (below: nat, free: nat, ghost reached: set<int>)
      requires Valid() && NamesInRange(Graph()) && 0 <= d < nodeTab.Length && nodeTab[d].kind == Directory
      requires checked == []
      modifies this`checked
      ensures checked == []
      ensures forall x :: x in reached <==> Reachable(Graph(), d, x)
      ensures below == SizeOfSet(Graph(), reached)
      // In whatever order the inodes reached are listed, the files among them hold as many bytes.
      ensures forall xs: seq<int> :: Distinct(xs) && Values(xs) == reached ==> |BytesOf(Image(), chains, xs)| == below
      ensures free == CountFree(dataMap[..]) * BLOCK_SIZE
    {
      hide WellFormed, SizesFit, Reachable;
      ghost var t := Graph();
      assert Explored(t, d, 0, []);
      below := SumRecursively(d);
      free := GetFreeSpace();
      assert checked[0..] == checked;
      ExploredAll(t, d, checked);
      reached := Values(checked);
      forall xs: seq<int> | Distinct(xs) && Values(xs) == reached
        ensures |BytesOf(Image(), chains, xs)| == below
      {
        SizeOfSetIsLength(Image(), chains, t, reached, xs);
      }
      checked := [];
    }

    // ----- removal -----

    // Takes one link off inode f, the one just handled; with the last one gone, f is freed
    // together with whatever only it leads to.
    method RemoveFile(f: int, ghost handled: set<Place>, ghost open: set<int>, ghost kept: set<int>)
      returns (ghost handled': set<Place>, ghost freed: seq<int>)
      requires Valid() && 0 <= f < nodeTab.Length && Settling(Graph(), handled, open, kept, f)
      modifies this`chains, nodeTab, dataMap, blockNext
      ensures Valid() && Settling(Graph(), handled', open, kept, -1)
      ensures Removal(old(Image()), old(chains), handled, Image(), chains, handled', -1)
      ensures Confined(old(Graph()), f, old(nodeTab[..]), nodeTab[..])
      ensures FreedInTurn(old(Image()), old(chains), handled, nodeTab[..], -1, freed)
      ensures 0 < old(nodeTab[f].refs)
      ensures old(nodeTab[f].refs) > 1 ==>
        nodeTab[..] == old(nodeTab[..])[f := old(nodeTab[f]).(refs := old(nodeTab[f].refs) - 1)]
      ensures old(nodeTab[f].refs) == 1 ==> nodeTab[f] == Inode(0, NIL, Empty, 0)
      decreases SumRefs(nodeTab[..]), 0
    {
      hide WellFormed, SizesFit, Settling, Removal, Removing, HandledUpTo, Linked, Cleared, InBlocks, SumRefs,
        Reachable, FreedInTurn, CountsExact, Confined, Names;
      ghost var d, ch := Image(), chains;
      CountIsOwedTo(Graph(), handled, open, kept, f);
      SumRefsUpdate(nodeTab[..], f, nodeTab[f].(refs := nodeTab[f].refs - 1));
      nodeTab[f] := nodeTab[f].(refs := nodeTab[f].refs - 1);
      ghost var d1 := Image();
      RefsKeepWellFormed(d, ch, f, nodeTab[f].refs, d1);
      LinkTakenOff(TreeOf(d, ch), handled, open, kept, f, Graph());
      NothingRemoved(d1, ch, handled, f);
      SameNames(TreeOf(d, ch), TreeOf(d1, ch));
      NothingConfined(TreeOf(d1, ch), f, d1.nodes);
      handled', freed := handled, [];
      if nodeTab[f].refs != 0 {
        LinkOnlyTakenOff(d, ch, handled, f, d1);
        return;
      }
      NothingFreed(d1, ch, handled, nodeTab[..], f);
      if nodeTab[f].kind == Directory {
        StartsRemoving(d1, ch, handled, f, open + {f}, kept);
        handled', freed := RemoveElements(f, handled, open + {f}, kept);
      }
      ChainsInBlocks(Image(), chains);
      ElementsAreHandled(d1, ch, handled, Image(), chains, handled', f, open + {f}, kept);
      ghost var mid := nodeTab[..];
      LastLinkHandled(d, ch, handled, f, d1, open, kept, Image(), chains, handled', freed);
      freed := [f] + freed;
      FreeInode(f, d1, ch, handled, handled', open, kept);
      StaysConfined(TreeOf(d, ch), TreeOf(d1, ch), f, d.nodes, d1.nodes, mid, nodeTab[..]);
      RemovalFromBefore(d, ch, handled, f, d1, Image(), chains, handled', -1);
    }

    // Gives back the blocks of inode f and the inode itself.
    method FreeInode(f: int, ghost d0: Disk, ghost chains0: seq<seq<int>>, ghost handled0: set<Place>,
                     ghost handled: set<Place>, ghost open: set<int>, ghost kept: set<int>)
      requires Valid() && 0 < f < nodeTab.Length && f !in open && Settling(Graph(), handled, open + {f}, kept, -1)
      requires Removal(d0, chains0, handled0, Image(), chains, handled, f)
      requires forall a, i, x :: Names(Graph(), f, a, i, x) ==> Place(f, a, i) in handled
      modifies this`chains, nodeTab, dataMap, blockNext
      ensures Valid() && Settling(Graph(), handled, open, kept, -1)
      ensures nodeTab[..] == old(nodeTab[..])[f := Inode(0, NIL, Empty, 0)]
      ensures Removal(d0, chains0, handled0, Image(), chains, handled, -1)
    {
      hide WellFormed, SizesFit, Settling, Removal, Linked, Cleared, InBlocks, Names;
      ghost var d, ch := Image(), chains;
      ChainIsLinked(d, ch, f);
      DeallocDatablocks(nodeTab[f].first, chains[f]);
      nodeTab[f] := Inode(0, NIL, Empty, 0);
      chains := chains[f := []];
      FreeingKeepsWellFormed(d, ch, f, Image());
      FreeingSettles(TreeOf(d, ch), handled, open, kept, f, Graph());
      RemovalEnds(d0, chains0, handled0, d, ch, handled, f, Image());
    }

    // Removes what the elements in use of directory f lead to.
    method RemoveElements(f: int, ghost handled: set<Place>, ghost open: set<int>, ghost kept: set<int>)
      returns (ghost handled': set<Place>, ghost freed: seq<int>)
      requires Valid() && Removing(Image(), chains, handled, Image(), chains, handled, f, 0, 0, open, kept)
      modifies this`chains, nodeTab, dataMap, blockNext
      ensures Valid() && |old(chains)| == nodeTab.Length && 0 <= f < nodeTab.Length
      ensures Removing(old(Image()), old(chains), handled, Image(), chains, handled', f,
                       |old(chains)[f]|, 0, open, kept)
      ensures FreedInTurn(old(Image()), old(chains), handled, nodeTab[..], f, freed)
      decreases SumRefs(nodeTab[..]), 2
    {
      hide WellFormed, SizesFit, Removing, FreedInTurn, InBlocks;
      ghost var d0, chains0 := Image(), chains;
      RemovingBounds(d0, chains0, handled, d0, chains0, handled, f, 0, 0, open, kept);
      ghost var chain, a := chains[f], 0;
      ChainIsLinked(d0, chains0, f);
      handled', freed := handled, [];
      ChainsInBlocks(d0, chains0);
      NothingFreed(d0, chains0, handled, nodeTab[..], f);
      var block := nodeTab[f].first;
      while block != NIL
        invariant a <= |chain| && block == At(chain, a) && Valid()
        invariant Removing(d0, chains0, handled, Image(), chains, handled', f, a, 0, open, kept)
        invariant FreedInTurn(d0, chains0, handled, nodeTab[..], f, freed)
        decreases |chain| - a
      {
        for i := 0 to PER_BLOCK
          invariant Valid() && Removing(d0, chains0, handled, Image(), chains, handled', f, a, i, open, kept)
          invariant FreedInTurn(d0, chains0, handled, nodeTab[..], f, freed)
        {
          RemovingBounds(d0, chains0, handled, Image(), chains, handled', f, a, i, open, kept);
          handled', freed := RemoveElement(f, a, i, block, d0, chains0, handled, handled', freed, open, kept);
        }
        RemovingBounds(d0, chains0, handled, Image(), chains, handled', f, a, PER_BLOCK, open, kept);
        BlockRemoved(d0, chains0, handled, Image(), chains, handled', f, a, open, kept);
        ChainIsLinked(Image(), chains, f);
        assert blockNext[..][chain[a]] == At(chain, a + 1);
        block := blockNext[block];
        a := a + 1;
      }
    }

    method RemoveElement(f: int, ghost a: nat, i: nat, block: int, ghost d0: Disk, ghost chains0: seq<seq<int>>,
                         ghost handled0: set<Place>, ghost handled: set<Place>, ghost freed: seq<int>,
                         ghost open: set<int>, ghost kept: set<int>)
      returns (ghost handled': set<Place>, ghost freed': seq<int>)
      requires Valid() && Removing(d0, chains0, handled0, Image(), chains, handled, f, a, i, open, kept)
      requires FreedInTurn(d0, chains0, handled0, nodeTab[..], f, freed)
      requires 0 <= f < nodeTab.Length && a < |chains[f]| && block == chains[f][a] && i < PER_BLOCK
      modifies this`chains, nodeTab, dataMap, blockNext
      ensures Valid() && Removing(d0, chains0, handled0, Image(), chains, handled', f, a, i + 1, open, kept)
      ensures FreedInTurn(d0, chains0, handled0, nodeTab[..], f, freed')
      decreases SumRefs(nodeTab[..]), 1
    {
      hide WellFormed, SizesFit, Settling, Removal, HandledUpTo, InBlocks, SumRefs, Confined, FreedInTurn;
      ghost var d, ch := Image(), chains;
      ChainIsLinked(d, ch, f);
      ChainsInBlocks(d, ch);
      var e := EntryAt(blockData[block], i);
      assert IsPlace(Graph(), f, a, i) && Graph().listing[f][a][i] == e;
      handled', freed' := handled, freed;
      if e.used != 0 {
        assert Names(Graph(), f, a, i, e.id);
        ElementHandled(Graph(), handled, open, kept, f, a, i, e.id);
        ghost var more;
        handled', more := RemoveFile(e.id, handled + {Place(f, a, i)}, open, kept);
        OnlyFreedBy(d, ch, handled + {Place(f, a, i)}, Image(), chains, handled', -1);
        FreedFurther(d0, chains0, handled0, d, ch, handled, f, freed, Place(f, a, i), nodeTab[..], more);
        freed' := freed + more;
        ChainsInBlocks(Image(), chains);
        OneMoreRemoved(d0, chains0, handled0, d, ch, handled, Image(), chains, handled', f, a, i, e.id, open, kept);
      } else {
        UnusedIsHandled(Graph(), f, a, i, handled);
      }
    }

    // What most operations begin with: the directory dir at the end of the path, and the
    // inode f that the name stands for there.
    method Locate(path: seq<seq<Byte>>, name: seq<Byte>)
      returns (status: Status, dir: int, f: int, ghost trail: seq<int>, ghost places: seq<Place>, ghost at: Place)
      requires Valid() && 0 < nodeTab.Length && NamesInRange(Graph())
      ensures Located(Graph(), path, name, status, trail, places, at, f)
      ensures status != InvalidPath ==> |trail| == |path| + 1 && dir == trail[|path|] && 0 <= dir < nodeTab.Length
      ensures status != InvalidPath ==> nodeTab[dir].kind == Directory
      ensures status == Done ==> dir == at.d && 0 <= f < nodeTab.Length
    {
      hide WellFormed, SizesFit, NamesInRange, InBlocks, Stuck, NoMatch, FirstMatch, Leads;
      at, dir, f := Place(0, 0, 0), 0, 0;
      var found;
      found, trail, places := FindDirInode(path);
      LeadsIsShort(Graph(), path, trail, places);
      if found.None? { return InvalidPath, dir, f, trail, places, at; }
      dir := found.value;
      var there, block, i; ghost var a;
      there, block, i, a := FindElemInDir(dir, name);
      if !there { return InvalidName, dir, f, trail, places, at; }
      at := Place(dir, a, i);
      FoundIsNamed(Image(), chains, dir, name, a, i);
      f := EntryAt(blockData[block], i).id;
      NamedIsInRange(Graph(), dir, a, i, f);
      status := Done;
    }

    // Takes the name out of the directory at the end of the path.  at is the element that
    // is cleared, f the inode it named.
    method Unlink(path: seq<seq<Byte>>, name: seq<Byte>)
      returns (status: Status, ghost trail: seq<int>, ghost places: seq<Place>, ghost at: Place, ghost f: int,
               ghost freed: seq<int>)
      requires Valid() && 0 < nodeTab.Length && Sound(Graph())
      modifies this`chains, nodeTab, dataMap, blockNext, blockData
      ensures Valid() && Sound(Graph())
      ensures Located(old(Graph()), path, name, status, trail, places, at, f)
      ensures status != Done ==> Image() == old(Image()) && chains == old(chains)
      ensures status == Done ==> Unlinked(old(Image()), old(chains), at.d, name, at, f, Image(), chains)
      // Just those inodes are freed that lose every way in; a cycle below f that links to
      // itself is left standing.
      ensures status == Done ==>
        FreedExactly(old(nodeTab[..]), nodeTab[..], freed) && LeastCutOff(old(Graph()), at, freed)
    {
      hide WellFormed, SizesFit, Settling, Removal, Unlinked, Confined, InBlocks, Leads, Stuck, NoMatch, FirstMatch,
        NamesInRange, CountsExact, LiveHaveLinks, LeastCutOff;
      ghost var d0, chains0 := Image(), chains;
      var dir, file;
      status, dir, file, trail, places, at := Locate(path, name);
      f, freed := file, [];
      if status != Done { return; }
      FoundIsNamed(d0, chains0, dir, name, at.a, at.i);
      LeadsIsShort(Graph(), path, trail, places);
      ghost var kept := StartsUnlinking(Graph(), path, trail, places, at, name, file);
      ghost var handled;
      handled, freed := RemoveFile(file, {at}, {}, kept);
      ghost var d1, chains1 := Image(), chains;
      StillFound(d0, chains0, name, at, d1, chains1, handled, kept);
      HandledAreGone(d0, chains0, at, d1, chains1, handled, kept);
      FreedIsCutOff(d0, chains0, at, d1, chains1, handled, freed);
      ClearElement(dir, name, at, handled);
      EndsUnlinking(d0, chains0, name, at, f, d1, chains1, handled, Image());
    }

    // Looks the name up again and clears its element.
    method ClearElement(dir: int, name: seq<Byte>, ghost at: Place, ghost handled: set<Place>)
      requires Valid() && at.d == dir && FirstMatch(Graph(), dir, name, at.a, at.i) && at in handled
      requires CountsExact(Graph(), handled, -1) && LiveHaveLinks(Graph(), {}) && NamesInRange(Graph())
      requires forall q :: q in handled && q != at ==> 0 <= q.d < nodeTab.Length && nodeTab[q.d].kind == Empty
      modifies blockData
      ensures Valid() && Sound(Graph()) && 0 <= chains[dir][at.a] < blockData.Length
      ensures |old(blockData[chains[dir][at.a]])| == BLOCK_SIZE
      ensures var b := chains[dir][at.a]; blockData[..] == old(blockData[..])[b := ClearEntry(old(blockData[b]), at.i)]
    {
      hide WellFormed, SizesFit, InBlocks, NoMatch, NamesInRange, CountsExact, LiveHaveLinks, ClearEntry;
      FoundIsNamed(Image(), chains, dir, name, at.a, at.i);
      MatchIsUnique(Graph(), dir, name, at.a, at.i);
      var there, block, i; ghost var a;
      there, block, i, a := FindElemInDir(dir, name);
      ghost var d := Image();
      blockData[block] := ClearEntry(blockData[block], i);
      UnlinkingSettles(d, chains, handled, at, Image());
    }

    // ----- insertion -----

    // Puts the element into the first unused place of every block of the directory that
    // has one.  last is the last block.
    method InsertInChain(dir: int, e: Entry) returns (success: bool, last: int)
      requires Valid() && 0 <= dir < nodeTab.Length && chains[dir] != []
      requires |e.name| == NAME_LEN && e.id < 0x1_0000
      modifies blockData
      ensures InsertedInChain(old(blockData[..]), chains[dir], e, blockData[..])
      ensures last == chains[dir][|chains[dir]| - 1]
      ensures InBlocks(old(Image()), chains) && (success <==> SomeRoom(Listing(old(blockData[..]), chains[dir])))
    {
      hide WellFormed, SizesFit, InsertedInChain, InsertedUpTo, InsertedBytes, SomeRoom, HasRoom;
      ChainIsLinked(Image(), chains, dir);
      ChainsInBlocks(Image(), chains);
      WholeBlocksOf(Image(), chains);
      ghost var chain, data, a := chains[dir], blockData[..], 0;
      var block := nodeTab[dir].first;
      success, last := false, block;
      NothingInserted(data, chain, e);
      while block != NIL
        invariant a <= |chain| && block == At(chain, a)
        invariant block == NIL ==> last == chain[|chain| - 1]
        invariant InsertedUpTo(data, chain, a, e, blockData[..], success)
        decreases |chain| - a
      {
        assert blockNext[..][chain[a]] == At(chain, a + 1);
        ghost var mid := blockData[..];
        OneMoreInserted(data, chain, a, e, mid, success, mid[block := InsertedBytes(data[block], e)]);
        var ok := InsertInBlock(block, e);
        success := success || ok;
        if blockNext[block] != 0 { last := block; }
        block := blockNext[block];
        a := a + 1;
      }
      AllInserted(data, chain, e, blockData[..], success);
    }

    method InsertInBlock(block: int, e: Entry) returns (ok: bool)
      requires 0 <= block < blockData.Length && |blockData[block]| == BLOCK_SIZE && |e.name| == NAME_LEN
      requires e.id < 0x1_0000
      modifies blockData
      ensures ok == HasRoom(Elements(old(blockData[block])))
      ensures blockData[..] == old(blockData[..])[block := InsertedBytes(old(blockData[block]), e)]
    {
      var i := FindUnused(blockData[block]);
      ok := i < PER_BLOCK;
      if ok { blockData[block] := PutEntry(blockData[block], i, e); }
    }

    // Takes a free block into the directory: leading to it and marking it.
    method TakeBlock(dir: int, last: int) returns (x: int)
      requires Valid() && 0 <= dir < nodeTab.Length && nodeTab[dir].kind == Directory && 0 < CountFree(dataMap[..])
      requires chains[dir] != [] ==> last == chains[dir][|chains[dir]| - 1]
      modifies this`chains, nodeTab, dataMap, blockNext
      ensures Valid() && blockData[..] == old(blockData[..]) && LowestFree(old(dataMap[..]), x)
      ensures chains == old(chains)[dir := old(chains)[dir] + [x]]
      ensures nodeTab[..] == old(nodeTab[..])[dir := old(nodeTab[dir]).(first := nodeTab[dir].first)]
      ensures dataMap[..] == old(dataMap[..])[x := true] && CountFree(dataMap[..]) == old(CountFree(dataMap[..])) - 1
      ensures forall i :: 0 <= i < |old(chains)| ==> x !in old(chains)[i]
    {
      hide WellFormed, SizesFit, Linked;
      ghost var d, ch := Image(), chains;
      ChainIsLinked(d, ch, dir);
      HeadOfChain(d.next, d.nodes[dir].first, ch[dir]);
      SomeBlockIsFree(dataMap[..]);
      x := FindFreeDatablock();
      if nodeTab[dir].first == NIL {
        nodeTab[dir] := nodeTab[dir].(first := x);
      } else {
        blockNext[last] := x;
      }
      ghost var linked := Image();
      dataMap[x] := true;
      TakingKeepsWellFormed(d, ch, dir, x, linked, Image());
      chains := chains[dir := chains[dir] + [x]];
    }

    // The blocks that a new element of the directory takes.
    ghost function TakenFor(dir: int): nat
      requires Valid() && 0 <= dir < nodeTab.Length
      reads this`chains, nodeTab, dataMap, blockNext, blockData
    {
      ChainsInBlocks(Image(), chains);
      BlocksTaken(Image(), chains, dir)
    }

    // What the blocks hold that a new element of the directory takes.
    ghost function StaleFor(dir: int): seq<seq<Entry>>
      requires Valid() && 0 <= dir < nodeTab.Length
      reads this`chains, nodeTab, dataMap, blockNext, blockData
    {
      ChainsInBlocks(Image(), chains);
      WholeBlocksOf(Image(), chains);
      StaleBefore(Image(), chains, dir)
    }

    // Gives an empty directory its first block; chain is what the directory then has.
    method FirstBlock(dir: int) returns (ghost x: int, ghost chain: seq<int>)
      requires Valid() && 0 <= dir < nodeTab.Length && nodeTab[dir].kind == Directory
      requires TakenFor(dir) <= CountFree(dataMap[..])
      modifies this`chains, nodeTab, dataMap, blockNext
      ensures Valid() && blockData[..] == old(blockData[..]) && |chains| == |old(chains)| == nodeTab.Length
      ensures chain == chains[dir] && chain != [] && chains == old(chains)[dir := chain]
      ensures nodeTab[..] == old(nodeTab[..])[dir := old(nodeTab[dir]).(first := nodeTab[dir].first)]
      ensures if old(chains)[dir] != [] then chain == old(chains)[dir]
              else chain == [x] && LowestFree(old(dataMap[..]), x)
      ensures dataMap[..] == if old(chains)[dir] == [] then old(dataMap[..])[x := true] else old(dataMap[..])
      ensures CountFree(dataMap[..]) == old(CountFree(dataMap[..])) - Bit(old(chains)[dir] == [])
    {
      hide WellFormed, SizesFit, Linked, Distinct, BlocksTaken, CountFree;
      ghost var d, ch := Image(), chains;
      ChainIsLinked(d, ch, dir);
      HeadOfChain(d.next, d.nodes[dir].first, ch[dir]);
      WholeBlocksOf(d, ch);
      ChainsInBlocks(d, ch);
      SpareBlock(d, ch, dir);
      x := NIL;
      if nodeTab[dir].first == NIL {
        var b := TakeBlock(dir, NIL);
        x := b;
      }
      chain := chains[dir];
      assert chains == ch[dir := chain];
    }

    // Adds a block behind the others, with the element in front of what it held before.
    method AppendBlock(dir: int, last: int, e: Entry) returns (ghost y: int)
      requires Valid() && 0 <= dir < nodeTab.Length && nodeTab[dir].kind == Directory && 0 < CountFree(dataMap[..])
      requires chains[dir] != [] && last == chains[dir][|chains[dir]| - 1] && |e.name| == NAME_LEN && e.id < 0x1_0000
      modifies this`chains, nodeTab, dataMap, blockNext, blockData
      ensures Valid() && LowestFree(old(dataMap[..]), y) && y < blockData.Length && |old(blockData[y])| == BLOCK_SIZE
      ensures chains == old(chains)[dir := old(chains)[dir] + [y]] && y !in old(chains)[dir]
      ensures nodeTab[..] == old(nodeTab[..])[dir := old(nodeTab[dir]).(first := nodeTab[dir].first)]
      ensures blockData[..] == old(blockData[..])[y := PutEntry(old(blockData[y]), 0, e)]
      ensures CountFree(dataMap[..]) == old(CountFree(dataMap[..])) - 1
    {
      hide WellFormed, SizesFit, Linked, Distinct, CountFree, PutEntry;
      WholeBlocksOf(Image(), chains);
      var b := TakeBlock(dir, last);
      y := b;
      ghost var d := Image();
      blockData[b] := PutEntry(blockData[b], 0, e);
      BlockRewritten(d, chains, b, blockData[b], Image());
    }

    // Adds an element with the name and inode number to the directory.
    method AddElemToDir(dir: int, name: seq<Byte>, id: nat)
      requires Valid() && 0 <= dir < nodeTab.Length && nodeTab[dir].kind == Directory && id < 0x1_0000
      requires TakenFor(dir) <= CountFree(dataMap[..])
      modifies this`chains, nodeTab, dataMap, blockNext, blockData
      ensures Valid() && EntryAdded(old(Image()), old(chains), dir, NewEntry(name, id), Image(), chains)
      ensures CountFree(dataMap[..]) >= old(CountFree(dataMap[..])) - old(TakenFor(dir))
    {
      hide WellFormed, SizesFit, InsertedInChain, EntryAdded, InBlocks, SomeRoom, BlocksTaken, NewEntry, Linked,
        Distinct, PutEntry, CountFree;
      var e := NewEntry(name, id);
      ghost var d, ch := Image(), chains;
      ghost var y := NIL;
      WholeBlocksOf(d, ch);
      ChainsInBlocks(d, ch);
      SpareBlock(d, ch, dir);
      ghost var x, chain := FirstBlock(dir);
      ghost var d1 := Image();
      ChainIsLinked(d1, chains, dir);
      var success, last := InsertInChain(dir, e);
      ghost var data := blockData[..];
      InsertedIsWhole(d1, chains, chain, e, Image());
      if !success {
        SpareBlockLeft(d, ch, dir, x, chain);
        y := AppendBlock(dir, last, e);
        InsertedElsewhere(d.data, chain, e, data);
      }
      assert chains == ch[dir := chains[dir]];
      StepsAddEntry(d, ch, dir, e, x, chain, data, y, chains[dir], Image());
    }

    // There are blocks for an element in the directory at the end of the path, and more.
    ghost predicate SpareFor(path: seq<seq<Byte>>, more: nat)
      requires Valid()
      reads this`chains, nodeTab, dataMap, blockNext, blockData
    {
      forall trail, places ::
        Leads(Graph(), path, trail, places) && |places| == |path| && 0 <= trail[|path|] < nodeTab.Length ==>
        TakenFor(trail[|path|]) + more <= CountFree(dataMap[..])
    }

    // Gives the inode f found under a name another one in the directory at the end of the
    // link path.  The count of links has eight bits.
    method Link(path: seq<seq<Byte>>, name: seq<Byte>, linkPath: seq<seq<Byte>>, linkName: seq<Byte>)
      returns (status: Status, ghost found: Status, ghost trail: seq<int>, ghost places: seq<Place>,
               ghost at: Place, ghost f: int,
               ghost linkTrail: seq<int>, ghost linkPlaces: seq<Place>, ghost stale: seq<seq<Entry>>)
      requires Valid() && 0 < nodeTab.Length <= 0x1_0000 && Sound(Graph())
      requires forall x :: 0 <= x < nodeTab.Length ==> nodeTab[x].refs < 0x100
      requires SpareFor(linkPath, 0)
      modifies this`chains, nodeTab, dataMap, blockNext, blockData
      ensures Valid() && Located(old(Graph()), path, name, found, trail, places, at, f)
      ensures found != Done ==> status == found
      ensures found == Done ==> Leads(old(Graph()), linkPath, linkTrail, linkPlaces)
      ensures found == Done ==> status == if |linkPlaces| < |linkPath| then InvalidPath else Done
      ensures status != Done ==> Image() == old(Image()) && chains == old(chains)
      ensures status == Done ==> found == Done && |linkTrail| == |linkPath| + 1
      ensures status == Done ==>
        LinkAdded(old(Image()), old(chains), f, linkTrail[|linkPath|], NewEntry(linkName, f), stale, Image(), chains)
      ensures status == Done ==> 0 <= f < nodeTab.Length && nodeTab[f].refs == (old(nodeTab[f].refs) + 1) % 0x100
      ensures status == Done ==> 0 <= linkTrail[|linkPath|] < nodeTab.Length == |old(chains)|
      ensures status == Done ==> stale == old(StaleFor(linkTrail[|linkPath|]))
      ensures status == Done ==> (Sound(Graph()) <==>
          old(nodeTab[f].refs) < 0xFF && OneComesIn(old(Graph()).listing[linkTrail[|linkPath|]], stale))
    {
      hide WellFormed, SizesFit, LinkAdded, EntryAdded, OneComesIn, InBlocks, Leads, Stuck, NoMatch, FirstMatch,
        NewEntry, WholeBlocks, CountsExact, LiveHaveLinks, NamesInRange;
      ghost var d, ch := Image(), chains;
      linkTrail, linkPlaces, stale := [], [], [];
      var dir, file;
      status, dir, file, trail, places, at := Locate(path, name);
      found, f := status, file;
      if status != Done { return; }
      FoundIsLive(Graph(), dir, name, at.a, at.i, file);
      var linkDir;
      linkDir, linkTrail, linkPlaces := FindDirInode(linkPath);
      LeadsIsShort(Graph(), linkPath, linkTrail, linkPlaces);
      if linkDir.None? { status := InvalidPath; return; }
      nodeTab[file] := nodeTab[file].(refs := Raised(nodeTab[file].refs));
      ghost var d1 := Image();
      RefsKeepWellFormed(d, ch, file, nodeTab[file].refs, d1);
      SameBlocksTaken(d, ch, d1, linkDir.value);
      AddElemToDir(linkDir.value, linkName, file);
      stale := LinkAddedSettles(d, ch, file, linkDir.value, NewEntry(linkName, file), d1, Image(), chains);
      LinkAddedCounts(d, ch, file, linkDir.value, NewEntry(linkName, file), stale, Image(), chains);
    }

    // Makes the free inode f a file, gives it its name and fills it.  d1 and chains1 are the
    // disc when the name has been added.
    method CreateFile(dir: int, name: seq<Byte>, f: int, host: seq<Byte>)
      returns (ghost stale: seq<seq<Entry>>, ghost d1: Disk, ghost chains1: seq<seq<int>>)
      requires Valid() && 0 < nodeTab.Length <= 0x1_0000 && LowestEmpty(nodeTab[..], f)
      requires 0 <= dir < nodeTab.Length && nodeTab[dir].kind == Directory
      requires TakenFor(dir) + |host| / BLOCK_SIZE < CountFree(dataMap[..])
      modifies this`chains, nodeTab, dataMap, blockNext, blockData
      ensures Valid() && WellFormed(d1, chains1, NIL)
      ensures CopiedIn(old(Image()), old(chains), dir, NewEntry(name, f), f, stale, d1, chains1, host, Image(), chains)
    {
      hide WellFormed, SizesFit, EntryAdded, InBlocks, NewEntry, WholeBlocks, Grown, BlocksTaken, CountFree;
      ghost var d, ch := Image(), chains;
      CreatingKeepsWellFormed(d, ch, f);
      nodeTab[f] := nodeTab[f].(size := 0, kind := File, refs := 1);
      SameBlocksTaken(d, ch, Image(), dir);
      AddElemToDir(dir, name, f);
      d1, chains1 := Image(), chains;
      stale := TakenBy(Created(d, f), ch, dir, NewEntry(name, f), d1, chains1);
      FillFile(f, host);
      CopyIsWhole(d, ch, dir, NewEntry(name, f), f, stale, d1, chains1, host, Image(), chains);
    }

    // Copies a host file into a new file with the given name in the directory at the end of
    // the path.
    method CopyFileToDisc(path: seq<seq<Byte>>, name: seq<Byte>, host: seq<Byte>)
      returns (status: Status, ghost found: Status, ghost trail: seq<int>, ghost places: seq<Place>,
               ghost at: Place, ghost g: int,
               ghost f: int, ghost dir: int, ghost stale: seq<seq<Entry>>, ghost d1: Disk, ghost chains1: seq<seq<int>>)
      requires Valid() && 0 < nodeTab.Length <= 0x1_0000 && Sound(Graph())
      requires SpareFor(path, |host| / BLOCK_SIZE + 1)
      modifies this`chains, nodeTab, dataMap, blockNext, blockData
      ensures Valid() && Located(old(Graph()), path, name, found, trail, places, at, g)
      ensures match found
              case InvalidName => status in {Done, NoFreeNode}
              case Done => status == AlreadyExists
              case _ => status == InvalidPath
      ensures status != Done ==> Image() == old(Image()) && chains == old(chains)
      ensures status == NoFreeNode ==> forall x :: 0 <= x < nodeTab.Length ==> nodeTab[x].kind != Empty
      ensures status == Done ==>
        |trail| == |path| + 1 && dir == trail[|path|] && 0 <= dir < |old(chains)| && 0 <= f < 0x1_0000
      ensures status == Done ==> WellFormed(d1, chains1, NIL)
      ensures status == Done ==>
        CopiedIn(old(Image()), old(chains), dir, NewEntry(name, f), f, stale, d1, chains1, host, Image(), chains)
      ensures status == Done ==> dir < nodeTab.Length && stale == old(StaleFor(dir))
      ensures status == Done ==> (Sound(Graph()) <==> OneComesIn(old(Graph()).listing[dir], stale))
      ensures status == Done ==>
        (NamesInRange(Graph()) <==> AllInRange(LeftStanding(old(Graph()).listing[dir], stale), nodeTab.Length))
    {
      hide WellFormed, SizesFit, OneComesIn, InBlocks, Leads, Stuck, NoMatch, FirstMatch, NewEntry, CopiedIn,
        LeftStanding, AllInRange, CountsExact, LiveHaveLinks, NamesInRange;
      ghost var d, ch := Image(), chains;
      f, dir, stale, d1, chains1 := 0, 0, [], d, ch;
      var dirId, fileId;
      status, dirId, fileId, trail, places, at := Locate(path, name);
      found, g := status, fileId;
      if status == InvalidPath { return; }
      if status == Done { status := AlreadyExists; return; }
      fileId := FindFreeNode();
      if fileId == NOTHING_FREE { status := NoFreeNode; return; }
      f, dir := fileId, dirId;
      LeadsIsShort(Graph(), path, trail, places);
      assert TakenFor(dir) + |host| / BLOCK_SIZE < CountFree(dataMap[..]);
      stale, d1, chains1 := CreateFile(dirId, name, fileId, host);
      CopyingSettles(d, ch, dir, NewEntry(name, f), f, stale, d1, chains1, host, Image(), chains);
      status := Done;
    }

    // Copies the file found under a name out to a host file.
    method CopyFileFromDisc(path: seq<seq<Byte>>, name: seq<Byte>)
      returns (status: Status, out: Option<seq<Byte>>, ghost trail: seq<int>, ghost places: seq<Place>,
               ghost at: Place, ghost f: int)
      requires Valid() && 0 < nodeTab.Length && NamesInRange(Graph())
      ensures Located(Graph(), path, name, status, trail, places, at, f)
      ensures status == InvalidPath <==> forall d :: !LeadsTo(Graph(), path, d)
      ensures status == Done <==> exists d, x :: LeadsTo(Graph(), path, d) && LooksUp(Graph(), d, name, x)
      ensures forall d, x :: LeadsTo(Graph(), path, d) && LooksUp(Graph(), d, name, x) ==>
        0 <= x < nodeTab.Length == |chains|
      ensures forall d, x :: LeadsTo(Graph(), path, d) && LooksUp(Graph(), d, name, x) ==>
        (out.None? <==> BlocksFor(nodeTab[x].size) < |chains[x]|)
      ensures forall d, x :: LeadsTo(Graph(), path, d) && LooksUp(Graph(), d, name, x) && nodeTab[x].kind == File ==>
        IsFile(Image(), chains, x) && out == Some(ContentOf(Image(), chains, x))
      ensures forall d, x :: LeadsTo(Graph(), path, d) && LooksUp(Graph(), d, name, x) && out.Some? ==>
        IsPrefixOfBlocks(Image(), chains, x, out.value)
    {
      hide WellFormed, SizesFit, NamesInRange, Leads, Stuck, NoMatch, FirstMatch, LeadsTo, LooksUp, IsPrefixOfBlocks;
      out := None;
      var dir, file;
      status, dir, file, trail, places, at := Locate(path, name);
      f := file;
      LocatedIsTelling(Graph(), path, name, status, trail, places, at, f);
      if status != Done { return; }
      out := CopyOut(file);
    }

    // Cuts the file found under a name by amount bytes.
    method DecreaseFileSize(path: seq<seq<Byte>>, name: seq<Byte>, amount: nat)
      returns (status: Status, ghost found: Status, ghost trail: seq<int>, ghost places: seq<Place>,
               ghost at: Place, ghost f: int)
      requires Valid() && 0 < nodeTab.Length && NamesInRange(Graph())
      modifies this`chains, nodeTab, dataMap, blockNext
      ensures Valid() && Located(old(Graph()), path, name, found, trail, places, at, f)
      ensures status == if found != Done then found else if old(nodeTab[..])[f].kind != File then InvalidName
                        else if amount > old(nodeTab[..])[f].size then TooMuch else Done
      ensures status != Done ==> Image() == old(Image()) && chains == old(chains)
      ensures status == Done ==>
        Shortened(old(Image()), old(chains), Image(), chains, f, old(nodeTab[..])[f].size - amount)
      ensures NamesInRange(Graph()) && SameDirectories(old(Graph()), Graph())
      ensures Sound(Graph()) <==> old(Sound(Graph()))
    {
      hide WellFormed, SizesFit, NamesInRange, Leads, Stuck, NoMatch, FirstMatch, Shortened, Sound, InBlocks;
      ghost var d, ch := Image(), chains;
      ChainsInBlocks(d, ch);
      var dir, file;
      status, dir, file, trail, places, at := Locate(path, name);
      found, f := status, file;
      if status != Done { return; }
      if nodeTab[file].kind != File { status := InvalidName; return; }
      var done := DecreaseFile(file, amount);
      status := if done then Done else TooMuch;
      if done {
        ShorteningKeepsTree(d, ch, Image(), chains, f, d.nodes[f].size - amount);
        SameRange(TreeOf(d, ch), Graph());
      }
    }

    // If the path and the name lead to a file, it is not empty and there are blocks for
    // amount bytes more.
    ghost predicate GrowthFits(path: seq<seq<Byte>>, name: seq<Byte>, amount: nat)
      requires Valid()
      reads this`chains, nodeTab, dataMap, blockNext, blockData
    {
      forall trail, places, at, f ::
        Located(Graph(), path, name, Done, trail, places, at, f) && nodeTab[..][f].kind == File ==>
        && 0 < nodeTab[..][f].size
        && BlocksFor(nodeTab[..][f].size + amount) - BlocksFor(nodeTab[..][f].size) <= CountFree(dataMap[..])
    }

    // Appends amount zero bytes to the file found under a name.
    method IncreaseFileSize(path: seq<seq<Byte>>, name: seq<Byte>, amount: nat)
      returns (status: Status, ghost found: Status, ghost trail: seq<int>, ghost places: seq<Place>,
               ghost at: Place, ghost f: int)
      requires Valid() && 0 < nodeTab.Length && NamesInRange(Graph()) && GrowthFits(path, name, amount)
      modifies this`chains, nodeTab, dataMap, blockNext, blockData
      ensures Valid() && Located(old(Graph()), path, name, found, trail, places, at, f)
      ensures status == if found != Done then found else if old(nodeTab[..])[f].kind != File then InvalidName else Done
      ensures status != Done ==> Image() == old(Image()) && chains == old(chains)
      ensures status == Done ==> Grown(old(Image()), old(chains), Image(), chains, f, Zeros(amount))
      ensures NamesInRange(Graph()) && SameDirectories(old(Graph()), Graph())
      ensures Sound(Graph()) <==> old(Sound(Graph()))
    {
      hide WellFormed, SizesFit, NamesInRange, Leads, Stuck, NoMatch, FirstMatch, Grown, Sound, InBlocks;
      ghost var d, ch := Image(), chains;
      ChainsInBlocks(d, ch);
      var dir, file;
      status, dir, file, trail, places, at := Locate(path, name);
      found, f := status, file;
      if status != Done { return; }
      if nodeTab[file].kind != File { status := InvalidName; return; }
      IncreaseFile(file, amount);
      FillingKeepsTree(d, ch, Image(), chains, f, Zeros(amount));
      SameRange(TreeOf(d, ch), Graph());
    }
  }
}
