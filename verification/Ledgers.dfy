// Who owns which click: managed memory is split between the holes and the blocks
// that have been handed out.
module Ledgers {
  import opened Basics
  import opened HoleLists

  // No two of the intervals share a click.
  ghost predicate Apart(bs: seq<Hole>) {
    && (forall i :: 0 <= i < |bs| ==> 0 <= bs[i].len)
    && (forall i, j, c :: 0 <= i < j < |bs| && bs[i].Has(c) ==> !bs[j].Has(c))
  }

  // Holes and blocks are pairwise disjoint and cover exactly the areas.
  ghost predicate Partition(hs: seq<Hole>, bs: seq<Hole>, areas: seq<Hole>) {
    && Canonical(hs) && Apart(bs) && Apart(areas)
    && (forall c :: Covers(areas, c) <==> Covers(hs, c) || Covers(bs, c))
    && (forall c :: Covers(hs, c) ==> !Covers(bs, c))
  }

  // ----- conservation -----

  function TotalLength(bs: seq<Hole>): int {
    if bs == [] then 0 else bs[0].len + TotalLength(bs[1..])
  }

  function Interval(base: int, len: nat): (r: set<int>)
    ensures |r| == len && forall c :: c in r <==> base <= c < base + len
  {
    if len == 0 then {} else Interval(base, len - 1) + {base + len - 1}
  }

  ghost function Clicks(bs: seq<Hole>): (r: set<int>)
    requires forall i :: 0 <= i < |bs| ==> 0 <= bs[i].len
    ensures forall c :: c in r <==> Covers(bs, c)
  {
    if bs == [] then {} else
      assert forall c :: Covers(bs, c) <==> bs[0].Has(c) || Covers(bs[1..], c) by {
        forall c
          ensures Covers(bs, c) <==> bs[0].Has(c) || Covers(bs[1..], c)
        {
          CoversAround(bs, 0, c);
        }
      }
      Interval(bs[0].base, bs[0].len) + Clicks(bs[1..])
  }

  lemma {:induction false} ClicksAddUp(bs: seq<Hole>)
    requires Apart(bs)
    ensures |Clicks(bs)| == TotalLength(bs)
  {
    if bs != [] {
      var first, rest := Interval(bs[0].base, bs[0].len), bs[1..];
      assert Apart(rest) by {
        forall i, j, c | 0 <= i < j < |rest| && rest[i].Has(c)
          ensures !rest[j].Has(c)
        {
          assert bs[i + 1].Has(c);
        }
      }
      ClicksAddUp(rest);
      assert first !! Clicks(rest) by {
        forall c | c in first
          ensures c !in Clicks(rest)
        {
          assert bs[0].Has(c);
          forall j | 0 <= j < |rest|
            ensures !rest[j].Has(c)
          {
            assert rest[j] == bs[j + 1];
          }
        }
      }
    }
  }

  lemma CanonicalIsApart(hs: seq<Hole>)
    requires Canonical(hs)
    ensures Apart(hs)
  {
  }

  // What is free and what is handed out always add up to the managed memory.
  lemma MemoryIsConserved(hs: seq<Hole>, bs: seq<Hole>, areas: seq<Hole>)
    requires Partition(hs, bs, areas)
    ensures TotalLength(hs) + TotalLength(bs) == TotalLength(areas)
  {
    hide Covers, Canonical, TotalLength;
    CanonicalIsApart(hs);
    ClicksAddUp(hs);
    ClicksAddUp(bs);
    ClicksAddUp(areas);
    assert Clicks(areas) == Clicks(hs) + Clicks(bs);
    assert Clicks(hs) !! Clicks(bs);
  }

  // ----- what allocating, freeing and moving do to the ledger -----

  // Block h has been taken out of the holes hs, which leaves ts.
  ghost predicate IsTaken(hs: seq<Hole>, h: Hole, ts: seq<Hole>) {
    && 0 <= h.len && Canonical(ts)
    && (forall c :: h.Has(c) ==> Covers(hs, c))
    && (forall c :: Covers(ts, c) <==> Covers(hs, c) && !h.Has(c))
  }

  lemma CarveTakes(hs: seq<Hole>, i: int, n: nat)
    requires Canonical(hs) && 0 <= i < |hs| && n <= hs[i].len
    ensures IsTaken(hs, Hole(hs[i].base, n), Carve(hs, i, n))
    ensures |Carve(hs, i, n)| <= |hs|
  {
    CarveStaysCanonical(hs, i, n);
    forall c
      ensures Covers(Carve(hs, i, n), c) <==> Covers(hs, c) && !Hole(hs[i].base, n).Has(c)
      ensures Hole(hs[i].base, n).Has(c) ==> Covers(hs, c)
    {
      CarveTakesTheBlock(hs, i, n, c);
    }
  }

  lemma CoversMember(bs: seq<Hole>, i: int, c: int)
    requires 0 <= i < |bs| && bs[i].Has(c)
    ensures Covers(bs, c)
  {
  }

  lemma TakingKeepsPartition(hs: seq<Hole>, bs: seq<Hole>, areas: seq<Hole>, h: Hole, ts: seq<Hole>)
    requires Partition(hs, bs, areas) && IsTaken(hs, h, ts)
    ensures Partition(ts, bs + [h], areas)
  {
    var more := bs + [h];
    forall c
      ensures Covers(more, c) <==> Covers(bs, c) || h.Has(c)
    {
      CoversConcat(bs, [h], c);
      CoversAround([h], 0, c);
    }
    forall i, j, c | 0 <= i < j < |more| && more[i].Has(c)
      ensures !more[j].Has(c)
    {
      CoversMember(bs, i, c);
    }
  }

  // Block i stays apart from the rest, so the others alone cover what it does not.
  lemma OthersCover(bs: seq<Hole>, i: int, h: Hole, c: int)
    requires Apart(bs) && 0 <= i < |bs|
    ensures Covers(bs[i := h], c) <==> (Covers(bs, c) && !bs[i].Has(c)) || h.Has(c)
  {
    CoversAround(bs, i, c);
    CoversAround(bs[i := h], i, c);
    assert bs[i := h][..i] == bs[..i] && bs[i := h][i + 1..] == bs[i + 1..];
    if bs[i].Has(c) {
      assert forall j :: 0 <= j < |bs| && j != i ==> !bs[j].Has(c);
      assert !Covers(bs[..i], c) && !Covers(bs[i + 1..], c);
    }
  }

  // A block moves: h is taken from the holes for it, and its old place is freed.
  lemma MovingKeepsPartition(hs: seq<Hole>, bs: seq<Hole>, areas: seq<Hole>, i: int, h: Hole, ts: seq<Hole>,
                             fs: seq<Hole>)
    requires Partition(hs, bs, areas) && 0 <= i < |bs|
    requires IsTaken(hs, h, ts) && IsFreed(ts, bs[i].base, bs[i].len, fs)
    ensures Partition(fs, bs[i := h], areas)
  {
    var moved := bs[i := h];
    var was := bs[i];
    assert Hole(was.base, was.len) == was;
    forall c
      ensures Covers(moved, c) <==> (Covers(bs, c) && !was.Has(c)) || h.Has(c)
      ensures was.Has(c) ==> Covers(bs, c)
    {
      OthersCover(bs, i, h, c);
      if was.Has(c) { CoversMember(bs, i, c); }
    }
    forall j, k, c | 0 <= j < k < |moved| && moved[j].Has(c)
      ensures !moved[k].Has(c)
    {
      if j != i { CoversMember(bs, j, c); }
      if k != i && bs[k].Has(c) { CoversMember(bs, k, c); }
    }
  }

  // A block is freed and its entry kept as an empty one.
  lemma FreeingKeepsPartition(hs: seq<Hole>, bs: seq<Hole>, areas: seq<Hole>, i: int, b: int, fs: seq<Hole>)
    requires Partition(hs, bs, areas) && 0 <= i < |bs|
    requires IsFreed(hs, bs[i].base, bs[i].len, fs)
    ensures Partition(fs, bs[i := Hole(b, 0)], areas)
  {
    var none := Hole(b, 0);
    assert IsTaken(hs, none, hs);
    MovingKeepsPartition(hs, bs, areas, i, none, hs, fs);
  }

  // An empty entry takes over the block entered last.
  lemma EmptyEntryAdopts(hs: seq<Hole>, bs: seq<Hole>, areas: seq<Hole>, i: int, h: Hole)
    requires 0 <= i < |bs| && bs[i].len == 0 && Partition(hs, bs + [h], areas)
    ensures Partition(hs, bs[i := h], areas)
  {
    var last, now := bs + [h], bs[i := h];
    assert forall j :: 0 <= j < |bs| ==> last[j] == bs[j];
    assert last[|bs|] == h;
    assert Apart(bs);
    forall c
      ensures Covers(now, c) <==> Covers(last, c)
    {
      CoversConcat(bs, [h], c);
      CoversAround([h], 0, c);
      OthersCover(bs, i, h, c);
    }
  }

  // A block is freed and its entry takes over the block entered last.
  lemma FreedEntryAdopts(hs: seq<Hole>, bs: seq<Hole>, areas: seq<Hole>, i: int, h: Hole, fs: seq<Hole>)
    requires 0 <= i < |bs| && Partition(hs, bs + [h], areas)
    requires IsFreed(hs, bs[i].base, bs[i].len, fs)
    ensures Partition(fs, bs[i := h], areas)
  {
    hide Partition, Covers, IsFreed;
    var none := Hole(h.base, 0);
    FreeingKeepsPartition(hs, bs + [h], areas, i, h.base, fs);
    assert (bs + [h])[i := none] == bs[i := none] + [h];
    EmptyEntryAdopts(fs, bs[i := none], areas, i, h);
    assert bs[i := none][i := h] == bs[i := h];
  }

  // The reverse: a block leaves its entry and is entered last.
  lemma EntryGivesUp(hs: seq<Hole>, bs: seq<Hole>, areas: seq<Hole>, i: int, b: int)
    requires 0 <= i < |bs| && Partition(hs, bs, areas)
    ensures Partition(hs, bs[i := Hole(b, 0)] + [bs[i]], areas)
  {
    var rest, h := bs[i := Hole(b, 0)], bs[i];
    var now := rest + [h];
    forall c
      ensures Covers(now, c) <==> Covers(bs, c)
    {
      CoversConcat(rest, [h], c);
      CoversAround([h], 0, c);
      OthersCover(bs, i, Hole(b, 0), c);
      if h.Has(c) { CoversMember(bs, i, c); }
    }
    forall j, k, c | 0 <= j < k < |now| && now[j].Has(c)
      ensures !now[k].Has(c)
    {
      assert j != i && now[j] == bs[j];
      if k == |bs| { assert now[k] == bs[i]; }
    }
  }

  // An empty entry can be struck off.
  lemma EmptyEntryGoes(hs: seq<Hole>, bs: seq<Hole>, areas: seq<Hole>, i: int)
    requires 0 <= i < |bs| && bs[i].len == 0 && Partition(hs, bs, areas)
    ensures Partition(hs, RemoveAt(bs, i), areas)
  {
    var now := RemoveAt(bs, i);
    forall c
      ensures Covers(now, c) <==> Covers(bs, c)
    {
      CoversAround(bs, i, c);
      CoversConcat(bs[..i], bs[i + 1..], c);
      assert now == bs[..i] + bs[i + 1..];
    }
    forall j, k, c | 0 <= j < k < |now| && now[j].Has(c)
      ensures !now[k].Has(c)
    {
      var from, to := if j < i then j else j + 1, if k < i then k else k + 1;
      assert now[j] == bs[from] && now[k] == bs[to];
    }
  }

  // A new area comes in as one more free block.
  lemma GrowingKeepsPartition(hs: seq<Hole>, bs: seq<Hole>, areas: seq<Hole>, h: Hole, fs: seq<Hole>)
    requires Partition(hs, bs, areas) && 0 <= h.len && IsFreed(hs, h.base, h.len, fs)
    requires forall c :: h.Has(c) ==> !Covers(areas, c)
    ensures Partition(fs, bs, areas + [h])
  {
    var more := areas + [h];
    assert Hole(h.base, h.len) == h;
    forall c
      ensures Covers(more, c) <==> Covers(areas, c) || h.Has(c)
    {
      CoversConcat(areas, [h], c);
      CoversAround([h], 0, c);
    }
    forall i, j, c | 0 <= i < j < |more| && more[i].Has(c)
      ensures !more[j].Has(c)
    {
      CoversMember(areas, i, c);
    }
  }

  // A handed out block is nowhere free.
  lemma BlockIsNotFree(hs: seq<Hole>, bs: seq<Hole>, areas: seq<Hole>, i: int)
    requires Partition(hs, bs, areas) && 0 <= i < |bs|
    ensures forall c :: bs[i].Has(c) ==> !Covers(hs, c)
  {
  }

  // ----- how many holes there can be -----

  function Live(bs: seq<Hole>): (r: seq<Hole>)
    ensures forall h :: h in r <==> h in bs && 0 < h.len
  {
    if bs == [] then [] else (if 0 < bs[0].len then [bs[0]] else []) + Live(bs[1..])
  }

  lemma {:induction false} NoneLive(bs: seq<Hole>)
    requires forall i :: 0 <= i < |bs| ==> bs[i].len == 0
    ensures Live(bs) == []
  {
    if bs != [] {
      NoneLive(bs[1..]);
    }
  }

  // Distinct holes are followed by distinct live blocks or by distinct area ends.
  lemma HolesAreFew(hs: seq<Hole>, bs: seq<Hole>, areas: seq<Hole>)
    requires Partition(hs, bs, areas)
    ensures |hs| <= |Live(bs)| + |areas|
  {
    var who := seq(|hs|, i requires 0 <= i < |hs| => Follower(hs, bs, areas, i));
    forall i, j | 0 <= i < j < |who|
      ensures who[i] != who[j]
    {
      FollowersDiffer(hs, bs, areas, i, j);
    }
    Pigeonhole(who, |Live(bs)| + |areas|);
  }

  // The live block right after hole i, or else the area that ends with it.
  ghost function Follower(hs: seq<Hole>, bs: seq<Hole>, areas: seq<Hole>, i: int): (f: nat)
    requires Partition(hs, bs, areas) && 0 <= i < |hs|
    ensures f < |Live(bs)| + |areas|
    ensures f < |Live(bs)| ==> Live(bs)[f].Has(hs[i].End())
    ensures |Live(bs)| <= f ==> areas[f - |Live(bs)|].End() == hs[i].End()
    ensures |Live(bs)| <= f ==> areas[f - |Live(bs)|].Has(hs[i].End() - 1)
  {
    var end := hs[i].End();
    EndIsNotFree(hs, i);
    if f :| 0 <= f < |Live(bs)| && Live(bs)[f].Has(end) then f
    else
      assert !Covers(bs, end) by {
        forall k | 0 <= k < |bs|
          ensures !bs[k].Has(end)
        {
          if 0 < bs[k].len { assert bs[k] in Live(bs); }
        }
      }
      assert !Covers(areas, end);
      assert Covers(areas, end - 1) by { assert hs[i].Has(end - 1); }
      var a :| 0 <= a < |areas| && areas[a].Has(end - 1);
      assert !areas[a].Has(end);
      |Live(bs)| + a
  }

  lemma EndIsNotFree(hs: seq<Hole>, i: int)
    requires Canonical(hs) && 0 <= i < |hs|
    ensures !Covers(hs, hs[i].End())
  {
  }

  lemma FollowersDiffer(hs: seq<Hole>, bs: seq<Hole>, areas: seq<Hole>, i: int, j: int)
    requires Partition(hs, bs, areas) && 0 <= i < j < |hs|
    ensures Follower(hs, bs, areas, i) != Follower(hs, bs, areas, j)
  {
    var f := Follower(hs, bs, areas, i);
    if f == Follower(hs, bs, areas, j) && f < |Live(bs)| {
      // The block would hold the first click of hole j as well.
      assert hs[i].End() < hs[j].base;
      assert Live(bs)[f].Has(hs[j].base);
      assert Live(bs)[f] in bs;
      var k :| 0 <= k < |bs| && bs[k] == Live(bs)[f];
      CoversMember(bs, k, hs[j].base);
      assert hs[j].Has(hs[j].base);
      CoversMember(hs, j, hs[j].base);
    }
  }

  // Liveness is a matter of length only.
  lemma {:induction false} LiveCountByLength(a: seq<Hole>, b: seq<Hole>)
    requires |a| == |b| && forall i :: 0 <= i < |a| ==> a[i].len == b[i].len
    ensures |Live(a)| == |Live(b)|
  {
    if a != [] {
      assert forall i :: 0 <= i < |a[1..]| ==> a[1..][i].len == b[1..][i].len;
      LiveCountByLength(a[1..], b[1..]);
    }
  }
}
