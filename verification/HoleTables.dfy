// The hole table: a fixed array of slots, each on exactly one of two linked lists,
// the list of holes and the list of spare slots.  A struct array of the source is
// held here as one array per field.
module HoleTables {
  import opened Basics
  import opened Links
  import opened HoleLists
  import opened HoleMaps

  // phys_clicks is an unsigned 32-bit word; its sums are taken modulo WORD.
  const WORD := 0x1_0000_0000

  function Wrap(x: int): int {
    x % WORD
  }

  function HolesOf(base: seq<int>, len: seq<int>, path: seq<int>): (hs: seq<Hole>)
    requires |base| == |len| && forall i :: 0 <= i < |path| ==> 0 <= path[i] < |base|
    ensures |hs| == |path| && forall i :: 0 <= i < |path| ==> hs[i] == Hole(base[path[i]], len[path[i]])
  {
    seq(|path|, i requires 0 <= i < |path| => Hole(base[path[i]], len[path[i]]))
  }

  // Rewriting the slot of hole k rewrites that hole and no other.
  lemma HoleRewritten(base: seq<int>, len: seq<int>, path: seq<int>, k: int, b: int, l: int)
    requires |base| == |len| && 0 <= k < |path| && Distinct(path)
    requires forall i :: 0 <= i < |path| ==> 0 <= path[i] < |base|
    ensures HolesOf(base[path[k] := b], len[path[k] := l], path) == HolesOf(base, len, path)[k := Hole(b, l)]
  {
  }

  lemma HoleBitten(base: seq<int>, len: seq<int>, path: seq<int>, k: int, n: nat, base': seq<int>, len': seq<int>)
    requires |base| == |len| && 0 <= k < |path| && Distinct(path)
    requires forall i :: 0 <= i < |path| ==> 0 <= path[i] < |base|
    requires base' == base[path[k] := Wrap(base[path[k]] + n)] && len' == len[path[k] := len[path[k]] - n]
    ensures var hs := HolesOf(base, len, path);
            HolesOf(base', len', path) == hs[k := Hole(Wrap(hs[k].base + n), hs[k].len - n)]
  {
  }

  // Holes further on lie further up.
  lemma FoundPlace(hs: seq<Hole>, k: nat, base: int)
    requires Canonical(hs) && k <= |hs| && (forall i :: 0 <= i < k ==> hs[i].base < base)
    requires k < |hs| ==> base <= hs[k].base
    ensures IsPlaceFor(hs, k, Hole(base, 0))
  {
  }

  // Filling a slot off the list and linking it in inserts one hole.
  lemma HoleInserted(base: seq<int>, len: seq<int>, path: seq<int>, k: int, x: int, b: int, l: int)
    requires |base| == |len| && 0 <= k <= |path| && 0 <= x < |base| && x !in path
    requires forall i :: 0 <= i < |path| ==> 0 <= path[i] < |base|
    ensures HolesOf(base[x := b], len[x := l], InsertAt(path, k, x))
         == InsertAt(HolesOf(base, len, path), k, Hole(b, l))
  {
  }

  // Two lists that between them use each slot exactly once.
  ghost predicate TwoLists(next: seq<int>, holeHead: int, freeSlots: int, order: seq<int>, spare: seq<int>) {
    && Linked(next, holeHead, order) && Linked(next, freeSlots, spare)
    && multiset(order) + multiset(spare) == multiset(Below(|next|))
  }

  // Hence they are acyclic, they share no slot, and together they are as long as the table.
  lemma TwoListsAreApart(next: seq<int>, head: int, free: int, order: seq<int>, spare: seq<int>)
    requires TwoLists(next, head, free, order, spare)
    ensures Distinct(order) && Distinct(spare)
    ensures forall s :: s in order ==> s !in spare
    ensures |order| + |spare| == |next|
    ensures head == At(order, 0) && free == At(spare, 0)
    ensures forall i :: 0 <= i < |order| ==> 0 <= order[i] < |next|
    ensures forall i :: 0 <= i < |spare| ==> 0 <= spare[i] < |next|
  {
    LinkedIsAcyclic(next, head, order);
    LinkedIsAcyclic(next, free, spare);
    forall s | s in order
      ensures s !in spare
    {
      assert multiset(Below(|next|))[s] <= 1;
      assert s in multiset(order);
      assert multiset(spare)[s] == 0;
    }
    assert |multiset(order) + multiset(spare)| == |order| + |spare|;
  }

  function Range(n: nat): seq<int> {
    seq(n, i => i)
  }

  lemma {:induction false} RangeUsesEachOnce(n: nat)
    ensures multiset(Range(n)) == multiset(Below(n))
  {
    if n == 0 {
      assert Range(0) == [] && Below(0) == {};
    } else {
      hide Range, Below;
      RangeUsesEachOnce(n - 1);
      OneMoreOnce(n - 1);
    }
  }

  lemma OneMoreOnce(n: nat)
    ensures multiset(Range(n + 1)) == multiset(Range(n)) + multiset{n}
    ensures multiset(Below(n + 1)) == multiset(Below(n)) + multiset{n}
  {
    assert Range(n + 1) == Range(n) + [n];
    assert n !in Below(n) && Below(n + 1) == Below(n) + {n};
  }

  lemma RangeIsLinked(next: seq<int>)
    requires next != [] && next[|next| - 1] == NIL
    requires forall s :: 0 <= s < |next| - 1 ==> next[s] == s + 1
    ensures Linked(next, 0, Range(|next|))
  {
  }

  // The links once hole number k is unlinked and its slot pushed on the spare list.
  lemma UnlinkKeepsLists(next: seq<int>, head: int, free: int, order: seq<int>, spare: seq<int>, k: nat,
                         after: seq<int>)
    requires TwoLists(next, head, free, order, spare) && k < |order|
    requires after == (if k == 0 then next else next[order[k - 1] := next[order[k]]])[order[k] := free]
    ensures TwoLists(after, if k == 0 then next[order[0]] else head, order[k], RemoveAt(order, k), [order[k]] + spare)
  {
    TwoListsAreApart(next, head, free, order, spare);
    UnlinkedPath(next, head, order, k, free);
    RemoveAtMultiset(order, k);
    forall j | 0 <= j < |spare|
      ensures after[spare[j]] == next[spare[j]]
    {
      assert spare[j] !in order;
    }
    PushedPath(next, after, free, spare, order[k]);
    calc {
      multiset(RemoveAt(order, k)) + multiset([order[k]] + spare);
      multiset(RemoveAt(order, k)) + multiset{order[k]} + multiset(spare);
      multiset(order) + multiset(spare);
    }
  }

  // The links once the first spare slot is linked in as hole number k.
  lemma LinkInKeepsLists(next: seq<int>, head: int, free: int, order: seq<int>, spare: seq<int>, k: nat,
                         after: seq<int>)
    requires TwoLists(next, head, free, order, spare) && k <= |order| && spare != []
    requires after == (if k == 0 then next else next[order[k - 1] := free])[free := At(order, k)]
    ensures TwoLists(after, if k == 0 then free else head, next[free], InsertAt(order, k, free), spare[1..])
  {
    TwoListsAreApart(next, head, free, order, spare);
    assert free == spare[0];
    assert free !in order by { assert free in spare; }
    LinkedInPath(next, head, order, k, free);
    var rest := spare[1..];
    forall j | 0 <= j < |rest|
      ensures 0 <= rest[j] < |next| && after[rest[j]] == At(rest, j + 1)
    {
      assert rest[j] == spare[j + 1] && spare[j + 1] in spare;
      assert next[spare[j + 1]] == At(spare, j + 2);
    }
    assert Linked(after, next[free], rest);
    FirstSpareMoves(order, spare, k);
  }

  lemma FirstSpareMoves(order: seq<int>, spare: seq<int>, k: nat)
    requires k <= |order| && spare != []
    ensures multiset(InsertAt(order, k, spare[0])) + multiset(spare[1..]) == multiset(order) + multiset(spare)
  {
    InsertAtMultiset(order, k, spare[0]);
    assert spare == [spare[0]] + spare[1..];
  }

  // No hole reaches past the last click a word can number.
  ghost predicate InWord(hs: seq<Hole>) {
    forall i :: 0 <= i < |hs| ==> hs[i].End() <= WORD
  }

  // The modular sum is the true one, except where it belongs to a hole about to go.
  lemma FreedStaysInWord(hs: seq<Hole>, base: int, n: nat, fs: seq<Hole>)
    requires InWord(hs) && IsFreed(hs, base, n, fs) && base + n <= WORD
    ensures InWord(fs)
  {
    forall i | 0 <= i < |fs|
      ensures fs[i].End() <= WORD
    {
      var last := fs[i].End() - 1;
      assert fs[i].Has(last);
      assert Covers(fs, last);
    }
  }

  // Holes that touch are recognised through the modular sum.
  lemma TouchTest(hs: seq<Hole>, k: int, from: int, m: int)
    requires TouchesWithin(hs, from, m) && InWord(hs) && 0 <= k < |hs| - 1
    ensures Wrap(hs[k].base + hs[k].len) == hs[k + 1].base <==> hs[k].End() == hs[k + 1].base
    ensures InWord(Absorb(hs, k))
  {
    assert hs[k].End() <= hs[k + 1].base < hs[k + 1].End() <= WORD;
    if hs[k].End() == hs[k + 1].base {
      AbsorbedHoles(hs, k);
    }
  }

  lemma BittenIsCarved(hs: seq<Hole>, k: int, n: nat, bitten: seq<Hole>)
    requires Canonical(hs) && InWord(hs) && 0 <= k < |hs| && n <= hs[k].len
    requires bitten == hs[k := Hole(Wrap(hs[k].base + n), hs[k].len - n)]
    ensures Carve(hs, k, n) == if hs[k].len == n then RemoveAt(bitten, k) else bitten
    ensures Canonical(Carve(hs, k, n)) && InWord(Carve(hs, k, n))
  {
    CarveStaysCanonical(hs, k, n);
    assert hs[k].End() <= WORD;
    if n < hs[k].len {
      assert 0 <= hs[k].base + n < WORD;
    }
  }

  class HoleTable {
    const hNext: array<int>
    const hBase: array<int>
    const hLen: array<int>
    var holeHead: int
    var freeSlots: int
    ghost var order: seq<int>
    ghost var spare: seq<int>

    ghost predicate Linkage()
      reads this, hNext, hBase, hLen
    {
      Shape() && TwoLists(hNext[..], holeHead, freeSlots, order, spare)
    }

    // The hole list as a value.
    ghost function Holes(): (hs: seq<Hole>)
      requires Linkage()
      reads this, hNext, hBase, hLen
      ensures |hs| == |order|
    {
      HolesOf(hBase[..], hLen[..], order)
    }

    ghost predicate Valid()
      reads this, hNext, hBase, hLen
    {
      Linkage() && Canonical(Holes()) && InWord(Holes())
    }

    ghost predicate Shape() {
      && hNext != hBase && hNext != hLen && hBase != hLen
      && hNext.Length == hBase.Length == hLen.Length
    }

    constructor (slots: nat)
      ensures Shape() && hNext.Length == slots
      ensures fresh(hNext) && fresh(hBase) && fresh(hLen)
    {
      hNext, hBase, hLen := new int[slots], new int[slots], new int[slots];
      holeHead, freeSlots := NIL, NIL;
      order, spare := [], [];
    }

    // Puts all slots on the list of spare ones.
    method Reset()
      requires Shape() && 0 < hNext.Length
      modifies this, hNext
      ensures Valid() && Holes() == []
    {
      var n := hNext.Length;
      for hp := 0 to n
        invariant forall s :: 0 <= s < hp ==> hNext[s] == s + 1
      {
        hNext[hp] := hp + 1;
      }
      hNext[n - 1] := NIL;
      holeHead := NIL;
      freeSlots := 0;
      order, spare := [], Range(n);
      RangeUsesEachOnce(n);
      RangeIsLinked(hNext[..]);
    }

    // Where the link of hole number k leads.
    lemma LinkOf(k: nat)
      requires Linkage() && k < |order|
      ensures 0 <= order[k] < hNext.Length && hNext[order[k]] == At(order, k + 1)
    {
    }

    // Removes hole number k, which sits in slot hp, from the hole list.
    method DelSlot(prev: int, hp: int, ghost k: nat)
      requires Linkage() && k < |order| && hp == order[k]
      requires 0 < k ==> prev == order[k - 1]
      modifies this, hNext
      ensures Linkage() && Holes() == RemoveAt(old(Holes()), k)
      ensures order == RemoveAt(old(order), k) && spare == [hp] + old(spare)
    {
      ghost var next := hNext[..];
      TwoListsAreApart(next, holeHead, freeSlots, order, spare);
      if hp == holeHead {
        holeHead := hNext[hp];
      } else {
        hNext[prev] := hNext[hp];
      }
      hNext[hp] := freeSlots;
      UnlinkKeepsLists(next, old(holeHead), freeSlots, order, spare, k, hNext[..]);
      freeSlots := hp;
      order := RemoveAt(order, k);
      spare := [hp] + spare;
    }

    // Moves the base of hole number k up, in 32 bits, and shortens it by as much.
    method Shorten(hp: int, clicks: nat, ghost k: nat) returns (base: int)
      requires Linkage() && k < |order| && hp == order[k] && clicks <= Holes()[k].len
      modifies hBase, hLen
      ensures Linkage() && base == old(Holes()[k].base)
      ensures 0 <= hp < hLen.Length && hLen[hp] == old(Holes()[k].len) - clicks
      ensures Holes() == old(Holes())[k := Hole(Wrap(base + clicks), old(Holes())[k].len - clicks)]
    {
      hide TwoLists, HolesOf, Distinct;
      TwoListsAreApart(hNext[..], holeHead, freeSlots, order, spare);
      ghost var bases, lens := hBase[..], hLen[..];
      base := hBase[hp];
      hBase[hp] := Wrap(hBase[hp] + clicks);
      hLen[hp] := hLen[hp] - clicks;
      assert hBase[..] == bases[hp := Wrap(bases[hp] + clicks)] && hLen[..] == lens[hp := lens[hp] - clicks];
      HoleBitten(bases, lens, order, k, clicks, hBase[..], hLen[..]);
    }

    // Bites clicks off the front of hole number k, which sits in slot hp, and deletes
    // the hole if that uses it up.
    method Bite(prev: int, hp: int, clicks: nat, ghost k: nat) returns (base: int)
      requires Valid() && k < |order| && hp == order[k] && clicks <= Holes()[k].len
      requires 0 < k ==> prev == order[k - 1]
      modifies this, hNext, hBase, hLen
      ensures Valid() && base == old(Holes()[k].base)
      ensures Holes() == Carve(old(Holes()), k, clicks)
    {
      hide TwoLists, Canonical, InWord, Carve, RemoveAt, HolesOf, Wrap, Linkage;
      ghost var hs := Holes();
      ghost var bitten := hs[k := Hole(Wrap(hs[k].base + clicks), hs[k].len - clicks)];
      BittenIsCarved(hs, k, clicks, bitten);
      base := Shorten(hp, clicks, k);
      if hLen[hp] == 0 { DelSlot(prev, hp, k); }
    }

    // The scan for the first hole below the swap base with room.
    method FindFirstFit(clicks: nat, swapBase: int) returns (prev: int, hp: int, ghost k: nat)
      requires Linkage()
      ensures k <= |order| && hp == At(order, k) && (0 < k ==> prev == order[k - 1])
      ensures forall i :: 0 <= i < k ==> Holes()[i].base < swapBase && Holes()[i].len < clicks
      ensures k < |order| ==> swapBase <= Holes()[k].base || Fits(Holes(), swapBase, clicks, k)
    {
      hide TwoLists;
      TwoListsAreApart(hNext[..], holeHead, freeSlots, order, spare);
      ghost var hs := Holes();
      k := 0;
      prev, hp := NIL, holeHead;
      while hp != NIL && hBase[hp] < swapBase
        invariant k <= |order| && hp == At(order, k)
        invariant 0 < k ==> prev == order[k - 1]
        invariant forall i :: 0 <= i < k ==> hs[i].base < swapBase && hs[i].len < clicks
        decreases |order| - k
      {
        if hLen[hp] >= clicks { return; }
        LinkOf(k);
        prev := hp;
        hp := hNext[hp];
        k := k + 1;
      }
    }

    // One pass of first fit: the first hole below the swap base with room serves.
    method FirstFit(clicks: nat, swapBase: int) returns (r: Option<int>)
      requires Valid()
      modifies this, hNext, hBase, hLen
      ensures Valid()
      ensures r.None? ==> NoneFits(old(Holes()), swapBase, clicks) && Holes() == old(Holes())
      ensures r.None? <==> forall i :: 0 <= i < |old(Holes())| ==>
        old(Holes())[i].base < swapBase ==> old(Holes())[i].len < clicks
      ensures r.Some? ==> exists i ::
        && IsFirstFit(old(Holes()), swapBase, clicks, i)
        && r.value == old(Holes())[i].base < swapBase && clicks <= old(Holes())[i].len
        && Holes() == Carve(old(Holes()), i, clicks)
    {
      hide TwoLists, Carve;
      var prev, hp, k := FindFirstFit(clicks, swapBase);
      TwoListsAreApart(hNext[..], holeHead, freeSlots, order, spare);
      if hp != NIL && hBase[hp] < swapBase {
        assert IsFirstFit(Holes(), swapBase, clicks, k);
        var base := Bite(prev, hp, clicks, k);
        return Some(base);
      }
      SwapHolesComeLast(Holes(), swapBase, k);
      return None;
    }

    // The scan for the biggest hole below the swap base, which starts from the head
    // of the list whatever that is.
    method FindBiggest(swapBase: int) returns (biggestPrev: int, biggest: int, ghost k: nat, ghost w: nat)
      requires Linkage() && Holes() != []
      ensures w < |order| && biggest == order[w] && (0 < w ==> biggestPrev == order[w - 1])
      ensures IsBiggest(Holes(), swapBase, k, w) && (k < |order| ==> swapBase <= Holes()[k].base)
    {
      hide TwoLists, IsBiggest, HolesOf;
      TwoListsAreApart(hNext[..], holeHead, freeSlots, order, spare);
      ghost var hs := Holes();
      k, w := 0, 0;
      var prev := NIL;
      biggestPrev := NIL;
      var hp := holeHead;
      biggest := holeHead;
      NothingScannedYet(hs, swapBase);
      while hp != NIL && hBase[hp] < swapBase
        invariant k <= |order| && hp == At(order, k)
        invariant w < |order| && biggest == order[w] && IsBiggest(hs, swapBase, k, w)
        invariant 0 < k ==> prev == order[k - 1]
        invariant 0 < w ==> biggestPrev == order[w - 1]
        decreases |order| - k
      {
        BiggestOfOneMore(hs, swapBase, k, w);
        if hLen[hp] > hLen[biggest] {
          biggest, w := hp, k;
          biggestPrev := prev;
        }
        LinkOf(k);
        prev := hp;
        hp := hNext[hp];
        k := k + 1;
      }
    }

    // One pass of worst fit: the biggest hole below the swap base serves.  The source
    // dereferences the head of the list, so there must be one.
    method WorstFit(clicks: nat, swapBase: int) returns (r: Option<int>)
      requires Valid() && Holes() != []
      modifies this, hNext, hBase, hLen
      ensures Valid()
      ensures exists w ::
        && IsWorstFit(old(Holes()), swapBase, w)
        && (r.None? <==> old(Holes())[w].len < clicks)
        && (r.None? ==> Holes() == old(Holes()))
        && (r.Some? ==> r.value == old(Holes())[w].base && Holes() == Carve(old(Holes()), w, clicks))
    {
      var biggestPrev, biggest, k, w := FindBiggest(swapBase);
      BiggestIsWorstFit(Holes(), swapBase, k, w);
      if hLen[biggest] >= clicks {
        var base := Bite(biggestPrev, biggest, clicks, w);
        return Some(base);
      }
      return None;
    }

    // The scan for the first hole at or above the swap base with room.
    method FindSwapFit(size: nat, swapBase: int) returns (prev: int, hp: int, ghost k: nat)
      requires Linkage()
      ensures k <= |order| && hp == At(order, k) && (0 < k ==> prev == order[k - 1])
      ensures forall i :: 0 <= i < k ==> !SwapFits(Holes(), swapBase, size, i)
      ensures k < |order| ==> SwapFits(Holes(), swapBase, size, k)
    {
      hide TwoLists;
      TwoListsAreApart(hNext[..], holeHead, freeSlots, order, spare);
      ghost var hs := Holes();
      k := 0;
      prev, hp := NIL, holeHead;
      while hp != NIL
        invariant k <= |order| && hp == At(order, k)
        invariant 0 < k ==> prev == order[k - 1]
        invariant forall i :: 0 <= i < k ==> !SwapFits(hs, swapBase, size, i)
        decreases |order| - k
      {
        if hBase[hp] >= swapBase && hLen[hp] >= size { break; }
        LinkOf(k);
        prev := hp;
        hp := hNext[hp];
        k := k + 1;
      }
    }

    // Swap space for a process: the first hole at or above the swap base with room.
    method SwapFit(size: nat, swapBase: int) returns (r: Option<int>)
      requires Valid()
      modifies this, hNext, hBase, hLen
      ensures Valid()
      ensures r.None? ==> NoSwapFits(old(Holes()), swapBase, size) && Holes() == old(Holes())
      ensures r.None? <==> forall i :: 0 <= i < |old(Holes())| ==>
        swapBase <= old(Holes())[i].base ==> old(Holes())[i].len < size
      ensures r.Some? ==> exists i ::
        && IsFirstSwapFit(old(Holes()), swapBase, size, i)
        && swapBase <= old(Holes())[i].base == r.value && size <= old(Holes())[i].len
        && Holes() == Carve(old(Holes()), i, size)
    {
      hide TwoLists, Carve, Canonical;
      var prev, hp, k := FindSwapFit(size, swapBase);
      TwoListsAreApart(hNext[..], holeHead, freeSlots, order, spare);
      ShortSwapHoles(Holes(), swapBase, size, k);
      if hp == NIL { return None; }
      assert IsFirstSwapFit(Holes(), swapBase, size, k);
      var base := Bite(prev, hp, size, k);
      return Some(base);
    }

    method Lengthen(hp: int, more: int, ghost k: nat)
      requires Linkage() && k < |order| && hp == order[k]
      modifies hLen
      ensures Linkage() && Holes() == old(Holes())[k := Hole(old(Holes())[k].base, old(Holes())[k].len + more)]
    {
      hide TwoLists;
      ghost var hs := Holes();
      ghost var bases, lens := hBase[..], hLen[..];
      TwoListsAreApart(hNext[..], holeHead, freeSlots, order, spare);
      hLen[hp] := hLen[hp] + more;
      HoleRewritten(bases, lens, order, k, hs[k].base, hs[k].len + more);
      assert hBase[..] == bases == bases[hp := hs[k].base];
      assert hLen[..] == lens[hp := hs[k].len + more];
      assert Holes() == HolesOf(bases, lens[hp := hs[k].len + more], order);
    }

    // Absorbs the successor of hole number k into it if they touch; on is where
    // merging goes on, the hole itself or else its successor.
    method AbsorbNext(hp: int, ghost k: nat, ghost m: int) returns (on: int)
      requires Linkage() && InWord(Holes()) && k + 1 < |order| && hp == order[k]
      requires 0 < m && TouchesWithin(Holes(), k, m)
      modifies this, hNext, hLen
      ensures Linkage() && Holes() == Absorb(old(Holes()), k)
      ensures var at := if |Holes()| < |old(Holes())| then k else k + 1; at < |order| && on == order[at]
    {
      hide TwoLists, Canonical, TouchesWithin;
      TwoListsAreApart(hNext[..], holeHead, freeSlots, order, spare);
      LinkOf(k);
      ghost var hs := Holes();
      TouchTest(hs, k, k, m);
      var next := hNext[hp];
      if Wrap(hBase[hp] + hLen[hp]) == hBase[next] {
        ghost var fused := hs[k := Hole(hs[k].base, hs[k].len + hs[k + 1].len)];
        assert Absorb(hs, k) == RemoveAt(fused, k + 1);
        Lengthen(hp, hLen[next], k);
        assert Holes() == fused;
        DelSlot(hp, next, k + 1);
        assert Holes() == RemoveAt(fused, k + 1);
        on := hp;
      } else {
        on := next;
      }
    }

    // Merges hole number k with the one or two holes after it.
    method Merge(hole: int, ghost k: nat)
      requires Linkage() && InWord(Holes()) && k < |order| && hole == order[k]
      requires TouchesWithin(Holes(), k, 2)
      modifies this, hNext, hLen
      ensures Linkage() && Holes() == HoleLists.Merge(old(Holes()), k)
    {
      ghost var hs := Holes();
      if hNext[hole] == NIL { return; }
      TouchTest(hs, k, k, 2);
      AbsorbRemovesATouch(hs, k, 2);
      var hp := AbsorbNext(hole, k, 2);
      ghost var at := if |Holes()| < |hs| then k else k + 1;
      if hNext[hp] == NIL { return; }
      hp := AbsorbNext(hp, at, 1);
    }

    // Fills the first spare slot and links it in as hole number k, after slot prev or
    // at the front.
    method LinkIn(prev: int, base: int, clicks: int, ghost k: nat)
      requires Linkage() && spare != [] && k <= |order|
      requires prev == if k == 0 then NIL else order[k - 1]
      modifies this, hNext, hBase, hLen
      ensures Linkage() && Holes() == InsertAt(old(Holes()), k, Hole(base, clicks))
      ensures order == InsertAt(old(order), k, old(freeSlots))
    {
      hide InsertAt;
      ghost var next, bases, lens := hNext[..], hBase[..], hLen[..];
      TwoListsAreApart(next, holeHead, freeSlots, order, spare);
      var slot := freeSlots;
      assert slot == spare[0] && slot in spare;
      hBase[slot] := base;
      hLen[slot] := clicks;
      freeSlots := hNext[slot];
      if prev == NIL {
        hNext[slot] := holeHead;
        holeHead := slot;
      } else {
        hNext[slot] := hNext[prev];
        hNext[prev] := slot;
      }
      LinkInKeepsLists(next, old(holeHead), slot, order, spare, k, hNext[..]);
      HoleInserted(bases, lens, order, k, slot, base, clicks);
      order, spare := InsertAt(order, k, slot), spare[1..];
    }

    // The hole after which a block goes, for a block that does not go first.
    method FindPlace(base: int) returns (prev: int, ghost k: nat)
      requires Valid() && Holes() != [] && Holes()[0].base < base
      ensures 0 < k <= |order| && prev == order[k - 1] && IsPlaceFor(Holes(), k, Hole(base, 0))
    {
      hide TwoLists, Canonical, InWord, IsPlaceFor, HolesOf;
      TwoListsAreApart(hNext[..], holeHead, freeSlots, order, spare);
      ghost var hs := Holes();
      k := 0;
      prev := NIL;
      var hp := holeHead;
      while hp != NIL && base > hBase[hp]
        invariant k <= |order| && hp == At(order, k)
        invariant 0 < k ==> prev == order[k - 1]
        invariant forall i :: 0 <= i < k ==> hs[i].base < base
        decreases |order| - k
      {
        LinkOf(k);
        prev := hp;
        hp := hNext[hp];
        k := k + 1;
      }
      FoundPlace(hs, k, base);
    }

    // Returns a block to the hole list.  Without a spare slot the source panics.
    method FreeMem(base: int, clicks: nat) returns (panicked: bool)
      requires Valid() && 0 <= base && base + clicks <= WORD
      requires forall c :: Hole(base, clicks).Has(c) ==> !Covers(Holes(), c)
      modifies this, hNext, hBase, hLen
      ensures Valid()
      ensures panicked <==> clicks > 0 && |old(Holes())| == hNext.Length
      ensures panicked ==> Holes() == old(Holes())
      ensures !panicked ==> IsFreed(old(Holes()), base, clicks, Holes())
    {
      hide TwoLists, Covers, TouchesWithin, HoleLists.Merge, InsertAt, HolesOf;
      if clicks == 0 { return false; }
      TwoListsAreApart(hNext[..], holeHead, freeSlots, order, spare);
      if freeSlots == NIL { return true; }
      ghost var hs := Holes();
      var slot := freeSlots;
      ghost var h := Hole(base, clicks);
      if holeHead == NIL || base <= hBase[holeHead] {
        LinkIn(NIL, base, clicks, 0);
        InsertTouchesNearby(hs, 0, h);
        ReleaseFreesTheBlock(hs, 0, h);
        Merge(slot, 0);
      } else {
        var prev, k := FindPlace(base);
        LinkIn(prev, base, clicks, k);
        InsertTouchesNearby(hs, k, h);
        ReleaseFreesTheBlock(hs, k, h);
        Merge(prev, k - 1);
      }
      FreedStaysInWord(hs, base, clicks, Holes());
      return false;
    }

    // Reports the ordinary holes into a local buffer with room for the whole table.
    method HoleMap(size: int, swapBase: int) returns (count: int, buf: seq<int>)
      requires Linkage()
      ensures |buf| == 2 * hNext.Length + 1
      ensures count == Shown(Ordinary(Holes(), swapBase), size)
      ensures 2 * count < |buf| && buf[..2 * count + 1] == Flatten(Holes()[..count]) + [0]
      ensures forall i :: 0 <= i < count ==> buf[2 * i] == Holes()[i].len && buf[2 * i + 1] == Holes()[i].base
      ensures buf[2 * count] == 0
    {
      hide TwoLists, Flatten, Ordinary, Shown;
      TwoListsAreApart(hNext[..], holeHead, freeSlots, order, spare);
      ghost var hs := Holes();
      ghost var k := 0;
      buf := seq(2 * hNext.Length + 1, _ => 0);
      var hp, i := holeHead, 0;
      while hp != NIL && hBase[hp] < swapBase && i < size - 1
        invariant k <= |order| && hp == At(order, k) && i == 2 * k
        invariant forall j :: 0 <= j < k ==> hs[j].base < swapBase
        invariant 0 < k ==> i - 2 < size - 1
        invariant |buf| == 2 * hNext.Length + 1 && buf[..i] == Flatten(hs[..k])
        decreases |order| - k
      {
        LinkOf(k);
        FlattenNext(hs, k);
        ghost var front := buf[..i];
        buf := buf[i := hLen[hp]];
        buf := buf[i + 1 := hBase[hp]];
        assert buf[..i + 2] == front + [hs[k].len, hs[k].base];
        hp := hNext[hp];
        i := i + 2;
        k := k + 1;
      }
      ShownIsWhereTheLoopStops(hs, swapBase, size, k);
      ghost var front := buf[..i];
      buf := buf[i := 0];
      count := i / 2;
      assert buf[..i + 1] == front + [0];
      FlattenHolds(hs[..k], front, buf);
    }

    // The t command: it asks for size bytes of the report and lists the lengths it reads
    // there, unless it runs past them.  Room for every slot's hole is always enough.
    method ListLengths(size: int, swapBase: int) returns (count: int, lens: Option<seq<int>>)
      requires Valid()
      ensures count == Shown(Ordinary(Holes(), swapBase), size)
      ensures lens.Some? <==> WORD_BYTES * (2 * Ordinary(Holes(), swapBase) + 1) <= size
      ensures lens.Some? ==> lens.value == Lengths(Holes()[..Ordinary(Holes(), swapBase)])
      ensures WORD_BYTES * (2 * hNext.Length + 1) <= size ==> lens.Some? && count == |lens.value|
    {
      hide Flatten, Ordinary, Shown, Read, Sent, Canonical;
      TwoListsAreApart(hNext[..], holeHead, freeSlots, order, spare);
      hide TwoLists;
      var buf;
      count, buf := HoleMap(size, swapBase);
      assert buf == Flatten(Holes()[..count]) + [0] + buf[2 * count + 1..];
      ReaderRecoversOrdinaryHoles(Holes(), swapBase, size, buf, buf[2 * count + 1..]);
      var words := Sent(buf, size);
      if Read(words).None? { return count, None; }
      var read := ReadMap(words);
      lens := Some(read);
    }
  }
}
