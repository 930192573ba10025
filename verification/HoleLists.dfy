// The hole list as a value: a sequence of holes in address order, and what first
// fit, worst fit, deletion and merging do to it.
module HoleLists {
  import opened Basics

  datatype Hole = Hole(base: int, len: int) {
    function End(): int { base + len }
    predicate Has(c: int) { base <= c < End() }
  }

  // Click c lies in one of the intervals of hs.
  ghost predicate Covers(hs: seq<Hole>, c: int) {
    exists i :: 0 <= i < |hs| && hs[i].Has(c)
  }

  // Non-empty holes in address order, each ending strictly before the next begins.
  ghost predicate Canonical(hs: seq<Hole>) {
    && (forall i :: 0 <= i < |hs| ==> 0 <= hs[i].base && 0 < hs[i].len)
    && (forall i, j :: 0 <= i < j < |hs| ==> hs[i].End() < hs[j].base)
  }

  lemma TailIsCanonical(hs: seq<Hole>)
    requires Canonical(hs) && hs != []
    ensures Canonical(hs[1..])
  {
    assert forall i :: 0 <= i < |hs[1..]| ==> hs[1..][i] == hs[i + 1];
  }

  // A canonical list is determined by the clicks it covers.
  lemma {:induction false} CanonicalFormIsUnique(a: seq<Hole>, b: seq<Hole>)
    requires Canonical(a) && Canonical(b)
    requires forall c :: Covers(a, c) <==> Covers(b, c)
    ensures a == b
  {
    hide Covers, Canonical;
    SomethingIsCovered(a);
    SomethingIsCovered(b);
    if a != [] && b != [] {
      FirstHoleAgrees(a, b);
      FirstHoleAgrees(b, a);
      assert Canonical(a[1..]) && Canonical(b[1..]) by { TailIsCanonical(a); TailIsCanonical(b); }
      forall c
        ensures Covers(a[1..], c) <==> Covers(b[1..], c)
      {
        CoversTail(a, c);
        CoversTail(b, c);
      }
      assert a[0] == b[0];
      CanonicalFormIsUnique(a[1..], b[1..]);
      assert a == [a[0]] + a[1..] && b == [b[0]] + b[1..];
    }
  }

  lemma SomethingIsCovered(hs: seq<Hole>)
    requires Canonical(hs)
    ensures hs == [] ==> forall c :: !Covers(hs, c)
    ensures hs != [] ==> Covers(hs, hs[0].base)
  {
    assert hs != [] ==> hs[0].Has(hs[0].base);
  }

  lemma FirstHoleAgrees(a: seq<Hole>, b: seq<Hole>)
    requires Canonical(a) && Canonical(b) && a != [] && b != []
    requires forall c :: Covers(a, c) <==> Covers(b, c)
    ensures b[0].base <= a[0].base && (b[0].base == a[0].base ==> a[0].End() <= b[0].End())
  {
    assert a[0].Has(a[0].base);
    assert Covers(b, a[0].base);
    if b[0].base == a[0].base && b[0].End() < a[0].End() {
      assert a[0].Has(b[0].End()) && Covers(a, b[0].End());
    }
  }

  lemma CoversTail(a: seq<Hole>, c: int)
    requires Canonical(a) && a != []
    ensures Covers(a[1..], c) <==> Covers(a, c) && a[0].End() <= c
  {
  }

  // ----- allocation -----

  // Hole i lies below the swap base and has room for n clicks.
  predicate Fits(hs: seq<Hole>, swapBase: int, n: int, i: int)
    requires 0 <= i < |hs|
  {
    hs[i].base < swapBase && n <= hs[i].len
  }

  ghost predicate HasOrdinary(hs: seq<Hole>, swapBase: int) {
    exists i :: 0 <= i < |hs| && hs[i].base < swapBase
  }

  // First fit: hole i fits and no hole before it does.
  ghost predicate IsFirstFit(hs: seq<Hole>, swapBase: int, n: int, i: int) {
    0 <= i < |hs| && Fits(hs, swapBase, n, i) && forall j :: 0 <= j < i ==> !Fits(hs, swapBase, n, j)
  }

  // No ordinary hole has room for n clicks.
  ghost predicate NoneFits(hs: seq<Hole>, swapBase: int, n: int) {
    forall i :: 0 <= i < |hs| ==> !Fits(hs, swapBase, n, i)
  }

  // Hole i lies at or above the swap base and has room for n clicks.
  predicate SwapFits(hs: seq<Hole>, swapBase: int, n: int, i: int)
    requires 0 <= i < |hs|
  {
    swapBase <= hs[i].base && n <= hs[i].len
  }

  ghost predicate IsFirstSwapFit(hs: seq<Hole>, swapBase: int, n: int, i: int) {
    0 <= i < |hs| && SwapFits(hs, swapBase, n, i) && forall j :: 0 <= j < i ==> !SwapFits(hs, swapBase, n, j)
  }

  ghost predicate NoSwapFits(hs: seq<Hole>, swapBase: int, n: int) {
    forall i :: 0 <= i < |hs| ==> !SwapFits(hs, swapBase, n, i)
  }

  lemma ShortSwapHoles(hs: seq<Hole>, swapBase: int, n: int, k: nat)
    requires k <= |hs| && forall i :: 0 <= i < k ==> !SwapFits(hs, swapBase, n, i)
    ensures forall i :: 0 <= i < k ==> swapBase <= hs[i].base ==> hs[i].len < n
  {
    forall i | 0 <= i < k
      ensures swapBase <= hs[i].base ==> hs[i].len < n
    {
      assert !SwapFits(hs, swapBase, n, i);
    }
  }

  lemma SwapHolesComeLast(hs: seq<Hole>, swapBase: int, k: nat)
    requires Canonical(hs) && k <= |hs| && (k < |hs| ==> swapBase <= hs[k].base)
    ensures forall i :: k <= i < |hs| ==> swapBase <= hs[i].base
  {
  }

  // What the scan for the biggest hole settles on.  It starts from the head of the
  // list without looking at where the head lies, so with no ordinary hole left it
  // settles on the head.
  ghost predicate IsWorstFit(hs: seq<Hole>, swapBase: int, i: int) {
    && 0 <= i < |hs|
    && (HasOrdinary(hs, swapBase) ==>
          && hs[i].base < swapBase
          && (forall j :: 0 <= j < |hs| && hs[j].base < swapBase ==> hs[j].len <= hs[i].len)
          && (forall j :: 0 <= j < i ==> hs[j].len < hs[i].len))
    && (!HasOrdinary(hs, swapBase) ==> i == 0)
  }

  // Among the first k holes, all of them ordinary, w is the first of maximal length.
  ghost predicate IsBiggest(hs: seq<Hole>, swapBase: int, k: int, w: int) {
    && 0 <= k <= |hs| && (0 <= w < k || w == k == 0)
    && (forall i :: 0 <= i < k ==> hs[i].base < swapBase && hs[i].len <= hs[w].len)
    && (forall i :: 0 <= i < w ==> hs[i].len < hs[w].len)
  }

  lemma NothingScannedYet(hs: seq<Hole>, swapBase: int)
    ensures IsBiggest(hs, swapBase, 0, 0)
  {
  }

  lemma BiggestOfOneMore(hs: seq<Hole>, swapBase: int, k: int, w: int)
    requires IsBiggest(hs, swapBase, k, w) && k < |hs| && hs[k].base < swapBase
    ensures IsBiggest(hs, swapBase, k + 1, if hs[k].len > hs[w].len then k else w)
  {
  }

  // The scan from the head stops at the first hole that is not ordinary.
  lemma BiggestIsWorstFit(hs: seq<Hole>, swapBase: int, k: nat, w: int)
    requires Canonical(hs) && hs != [] && IsBiggest(hs, swapBase, k, w)
    requires k < |hs| ==> swapBase <= hs[k].base
    ensures IsWorstFit(hs, swapBase, w)
  {
  }

  // The hole list once n clicks have been bitten off the front of hole i.
  function Carve(hs: seq<Hole>, i: int, n: int): seq<Hole>
    requires 0 <= i < |hs|
  {
    if hs[i].len == n then RemoveAt(hs, i)
    else hs[i := Hole(hs[i].base + n, hs[i].len - n)]
  }

  lemma CoversConcat(a: seq<Hole>, b: seq<Hole>, c: int)
    ensures Covers(a + b, c) <==> Covers(a, c) || Covers(b, c)
  {
    var s := a + b;
    if i :| 0 <= i < |a| && a[i].Has(c) { assert s[i].Has(c); }
    if i :| 0 <= i < |b| && b[i].Has(c) { assert s[|a| + i].Has(c); }
  }

  // The clicks covered by hs, hole i taken apart from the holes below and above it.
  lemma CoversAround(hs: seq<Hole>, i: int, c: int)
    requires 0 <= i < |hs|
    ensures Covers(hs, c) <==> Covers(hs[..i], c) || hs[i].Has(c) || Covers(hs[i + 1..], c)
  {
  }

  lemma CarveStaysCanonical(hs: seq<Hole>, i: int, n: nat)
    requires Canonical(hs) && 0 <= i < |hs| && n <= hs[i].len
    ensures Canonical(Carve(hs, i, n))
  {
  }

  // Carving removes exactly the clicks handed out, all of which were free.
  lemma CarveTakesTheBlock(hs: seq<Hole>, i: int, n: nat, c: int)
    requires Canonical(hs) && 0 <= i < |hs| && n <= hs[i].len
    ensures Covers(Carve(hs, i, n), c) <==> Covers(hs, c) && !Hole(hs[i].base, n).Has(c)
    ensures Hole(hs[i].base, n).Has(c) ==> Covers(hs, c)
  {
    CoversAround(hs, i, c);
    if hs[i].len == n {
      CoversConcat(hs[..i], hs[i + 1..], c);
      assert RemoveAt(hs, i) == hs[..i] + hs[i + 1..];
    } else {
      var cut := Carve(hs, i, n);
      CoversAround(cut, i, c);
      assert cut[..i] == hs[..i] && cut[i + 1..] == hs[i + 1..];
    }
  }

  // First fit hands out the lowest addressed ordinary hole that fits.
  lemma FirstFitIsLowest(hs: seq<Hole>, swapBase: int, n: int, i: int)
    requires Canonical(hs) && IsFirstFit(hs, swapBase, n, i)
    ensures hs[i].base < swapBase && n <= hs[i].len
    ensures forall j :: 0 <= j < |hs| && hs[j].base < swapBase && n <= hs[j].len ==> hs[i].base <= hs[j].base
  {
    forall j | 0 <= j < |hs| && hs[j].base < swapBase && n <= hs[j].len
      ensures hs[i].base <= hs[j].base
    {
      assert Fits(hs, swapBase, n, j);
    }
  }

  // While an ordinary hole exists, first fit finds room exactly when worst fit does.
  lemma PoliciesSucceedTogether(hs: seq<Hole>, swapBase: int, n: int, w: int)
    requires HasOrdinary(hs, swapBase) && IsWorstFit(hs, swapBase, w)
    ensures (exists i :: IsFirstFit(hs, swapBase, n, i)) <==> n <= hs[w].len
    ensures NoneFits(hs, swapBase, n) <==> hs[w].len < n
  {
    if n <= hs[w].len {
      assert Fits(hs, swapBase, n, w);
      var i := LeastFit(hs, swapBase, n, w);
    }
  }

  lemma {:induction false} LeastFit(hs: seq<Hole>, swapBase: int, n: int, w: int) returns (i: int)
    requires 0 <= w < |hs| && Fits(hs, swapBase, n, w)
    ensures IsFirstFit(hs, swapBase, n, i)
  {
    if j :| 0 <= j < w && Fits(hs, swapBase, n, j) {
      i := LeastFit(hs, swapBase, n, j);
    } else {
      i := w;
    }
  }

  // Worst fit hands out swap space as memory exactly when no ordinary hole is left.
  lemma WorstFitLeavesMemory(hs: seq<Hole>, swapBase: int, w: int)
    requires IsWorstFit(hs, swapBase, w)
    ensures swapBase <= hs[w].base <==> !HasOrdinary(hs, swapBase)
  {
  }

  // No ordinary hole is longer than the one worst fit settles on, or as long and before it.
  lemma WorstFitIsLongest(hs: seq<Hole>, swapBase: int, w: int, j: int)
    requires IsWorstFit(hs, swapBase, w) && 0 <= j < |hs| && hs[j].base < swapBase
    ensures hs[w].base < swapBase && hs[j].len <= hs[w].len && (j < w ==> hs[j].len < hs[w].len)
  {
    assert HasOrdinary(hs, swapBase);
  }

  // One swap hole of 5 clicks and no memory: worst fit serves 3 clicks from swap.
  lemma WorstFitTakesSwapSpace()
    ensures var hs := [Hole(101, 5)]; Canonical(hs) && IsWorstFit(hs, 101, 0) && 3 <= hs[0].len && 101 <= hs[0].base
  {
  }

  // ----- freeing -----

  // Two neighbours that touch become one hole.
  function Absorb(hs: seq<Hole>, k: int): seq<Hole>
    requires 0 <= k < |hs|
  {
    if k + 1 < |hs| && hs[k].End() == hs[k + 1].base
    then RemoveAt(hs[k := Hole(hs[k].base, hs[k].len + hs[k + 1].len)], k + 1)
    else hs
  }

  // Hole k absorbs its successor, then whichever hole is current absorbs the next.
  function Merge(hs: seq<Hole>, k: int): seq<Hole>
    requires 0 <= k < |hs|
  {
    if k + 1 >= |hs| then hs
    else if hs[k].End() == hs[k + 1].base then Absorb(Absorb(hs, k), k)
    else Absorb(hs, k + 1)
  }

  // Non-empty holes in address order, where only the m holes from number k on may
  // touch the hole that follows them.
  ghost predicate TouchesWithin(hs: seq<Hole>, k: int, m: int) {
    && (forall i :: 0 <= i < |hs| ==> 0 <= hs[i].base && 0 < hs[i].len)
    && (forall i, j :: 0 <= i < j < |hs| ==>
          hs[i].End() < hs[j].base || (hs[i].End() == hs[j].base && j == i + 1 && k <= i < k + m))
  }

  // One merge step leaves one place fewer where holes may touch.
  lemma AbsorbRemovesATouch(hs: seq<Hole>, k: int, m: int)
    requires TouchesWithin(hs, k, m) && 0 <= k < |hs| && 0 < m
    ensures TouchesWithin(Absorb(hs, k), if |Absorb(hs, k)| < |hs| then k else k + 1, m - 1)
  {
    var r := Absorb(hs, k);
    if |r| < |hs| {
      AbsorbedHoles(hs, k);
    }
  }

  // Hole number i afterwards begins where hole i, or i + 1, began and ends likewise.
  lemma AbsorbedHoles(hs: seq<Hole>, k: int)
    requires 0 <= k < |hs| - 1 && hs[k].End() == hs[k + 1].base
    ensures |Absorb(hs, k)| == |hs| - 1
    ensures forall i :: 0 <= i < |hs| - 1 ==> Absorb(hs, k)[i].base == hs[if i <= k then i else i + 1].base
    ensures forall i :: 0 <= i < |hs| - 1 ==> Absorb(hs, k)[i].End() == hs[if i < k then i else i + 1].End()
  {
  }

  lemma AbsorbKeepsClicks(hs: seq<Hole>, k: int, c: int)
    requires 0 <= k < |hs| && forall i :: 0 <= i < |hs| ==> 0 < hs[i].len
    ensures Covers(Absorb(hs, k), c) <==> Covers(hs, c)
  {
    var r := Absorb(hs, k);
    if |r| < |hs| {
      CoversAround(hs, k, c);
      CoversAround(hs[k + 1..], 0, c);
      CoversAround(r, k, c);
      assert r[..k] == hs[..k] && r[k + 1..] == hs[k + 1..][1..];
      assert hs[k + 1..][..0] == [];
    }
  }

  // Block h, freed into a canonical list that does not cover any of it, goes in front
  // of the first hole that does not lie below it.
  ghost predicate IsPlaceFor(hs: seq<Hole>, k: int, h: Hole) {
    && 0 <= k <= |hs|
    && (forall i :: 0 <= i < k ==> hs[i].base < h.base)
    && (forall i :: k <= i < |hs| ==> h.base <= hs[i].base)
  }

  lemma MergeRestoresCanonical(hs: seq<Hole>, k: int)
    requires TouchesWithin(hs, k, 2) && 0 <= k < |hs|
    ensures Canonical(Merge(hs, k))
    ensures forall c :: Covers(Merge(hs, k), c) <==> Covers(hs, c)
  {
    if k + 1 < |hs| {
      var first := Absorb(hs, k);
      var at := if |first| < |hs| then k else k + 1;
      AbsorbRemovesATouch(hs, k, 2);
      AbsorbRemovesATouch(first, at, 1);
      assert Merge(hs, k) == Absorb(first, at);
      forall c
        ensures Covers(Merge(hs, k), c) <==> Covers(hs, c)
      {
        AbsorbKeepsClicks(hs, k, c);
        AbsorbKeepsClicks(first, at, c);
      }
    }
  }

  // fs is hs with the n clicks from base returned to it.
  ghost predicate IsFreed(hs: seq<Hole>, base: int, n: int, fs: seq<Hole>) {
    Canonical(fs) && forall c :: Covers(fs, c) <==> Covers(hs, c) || Hole(base, n).Has(c)
  }

  // Freeing as the allocator does it: link the block in and merge from the hole
  // ahead of it, or from the block itself when it goes first.
  function Release(hs: seq<Hole>, k: int, h: Hole): seq<Hole>
    requires 0 <= k <= |hs|
  {
    Merge(InsertAt(hs, k, h), if k == 0 then 0 else k - 1)
  }

  lemma InsertTouchesNearby(hs: seq<Hole>, k: int, h: Hole)
    requires Canonical(hs) && IsPlaceFor(hs, k, h) && 0 <= h.base && 0 < h.len
    requires forall c :: h.Has(c) ==> !Covers(hs, c)
    ensures TouchesWithin(InsertAt(hs, k, h), if k == 0 then 0 else k - 1, 2)
  {
    var s := InsertAt(hs, k, h);
    assert k < |hs| ==> h.End() <= hs[k].base by {
      if k < |hs| && hs[k].base < h.End() { assert hs[k].Has(hs[k].base) && h.Has(hs[k].base); }
    }
    assert 0 < k ==> hs[k - 1].End() <= h.base by {
      if 0 < k && h.base < hs[k - 1].End() { assert hs[k - 1].Has(h.base) && h.Has(h.base); }
    }
    assert forall j :: 0 <= j < |s| ==> s[j] == if j < k then hs[j] else if j == k then h else hs[j - 1];
  }

  lemma InsertCovers(hs: seq<Hole>, k: int, h: Hole, c: int)
    requires 0 <= k <= |hs|
    ensures Covers(InsertAt(hs, k, h), c) <==> Covers(hs, c) || h.Has(c)
  {
    var s := InsertAt(hs, k, h);
    CoversAround(s, k, c);
    assert s[..k] == hs[..k] && s[k + 1..] == hs[k..];
    assert hs == hs[..k] + hs[k..];
    CoversConcat(hs[..k], hs[k..], c);
  }

  lemma ReleaseFreesTheBlock(hs: seq<Hole>, k: int, h: Hole)
    requires Canonical(hs) && IsPlaceFor(hs, k, h) && 0 <= h.base && 0 < h.len
    requires forall c :: h.Has(c) ==> !Covers(hs, c)
    ensures IsFreed(hs, h.base, h.len, Release(hs, k, h))
  {
    var s := InsertAt(hs, k, h);
    InsertTouchesNearby(hs, k, h);
    MergeRestoresCanonical(s, if k == 0 then 0 else k - 1);
    forall c
      ensures Covers(s, c) <==> Covers(hs, c) || h.Has(c)
    {
      InsertCovers(hs, k, h, c);
    }
    assert Hole(h.base, h.len) == h;
  }

  // Freeing a block just allocated restores the very same hole list.
  lemma FreeUndoesAlloc(hs: seq<Hole>, i: int, n: nat, fs: seq<Hole>)
    requires Canonical(hs) && 0 <= i < |hs| && n <= hs[i].len
    requires IsFreed(Carve(hs, i, n), hs[i].base, n, fs)
    ensures fs == hs
  {
    forall c
      ensures Covers(fs, c) <==> Covers(hs, c)
    {
      CarveTakesTheBlock(hs, i, n, c);
    }
    CanonicalFormIsUnique(fs, hs);
  }

  // Two blocks freed in either order leave the same hole list.
  lemma FreesCommute(hs: seq<Hole>, p: Hole, q: Hole, p1: seq<Hole>, pq: seq<Hole>, q1: seq<Hole>, qp: seq<Hole>)
    requires IsFreed(hs, p.base, p.len, p1) && IsFreed(p1, q.base, q.len, pq)
    requires IsFreed(hs, q.base, q.len, q1) && IsFreed(q1, p.base, p.len, qp)
    ensures pq == qp
  {
    CanonicalFormIsUnique(pq, qp);
  }
}
