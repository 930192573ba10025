// The report of the ordinary holes, as words in a caller's buffer, and the reader of
// the t command that prints it.
module HoleMaps {
  import opened Basics
  import opened HoleLists

  // Bytes in one word of the report; requests are given in bytes.
  const WORD_BYTES := 4

  // Length and base of each hole in turn.
  function Flatten(hs: seq<Hole>): (ws: seq<int>)
    ensures |ws| == 2 * |hs|
  {
    if hs == [] then [] else Flatten(hs[..|hs| - 1]) + [hs[|hs| - 1].len, hs[|hs| - 1].base]
  }

  function Lengths(hs: seq<Hole>): seq<int> {
    seq(|hs|, i requires 0 <= i < |hs| => hs[i].len)
  }

  // The holes below the swap base, which come first.
  function Ordinary(hs: seq<Hole>, swapBase: int): (k: nat)
    ensures k <= |hs|
    ensures forall i :: 0 <= i < k ==> hs[i].base < swapBase
    ensures k < |hs| ==> swapBase <= hs[k].base
  {
    if hs == [] || swapBase <= hs[0].base then 0 else 1 + Ordinary(hs[1..], swapBase)
  }

  // How many holes a request for size bytes gets to see: the bound of the loop treats
  // size as a number of words.
  function Shown(ordinary: nat, size: int): (k: nat)
    ensures k <= ordinary
    ensures k < ordinary ==> size - 1 <= 2 * k
    ensures 0 < k ==> 2 * (k - 1) < size - 1
  {
    if size <= 1 then 0 else if ordinary <= size / 2 then ordinary else size / 2
  }

  lemma ShownIsWhereTheLoopStops(hs: seq<Hole>, swapBase: int, size: int, k: nat)
    requires k <= |hs| && forall i :: 0 <= i < k ==> hs[i].base < swapBase
    requires k == |hs| || swapBase <= hs[k].base || size - 1 <= 2 * k
    requires 0 < k ==> 2 * k - 2 < size - 1
    ensures k == Shown(Ordinary(hs, swapBase), size)
  {
  }

  // What the reader makes of the words it was sent: the lengths up to the terminator,
  // or nothing when it runs past the words it was sent.
  function Read(ws: seq<int>): Option<seq<int>> {
    if ws == [] then None
    else if ws[0] == 0 then Some([])
    else if |ws| < 2 then None
    else match Read(ws[2..])
         case None => None
         case Some(ls) => Some([ws[0]] + ls)
  }

  // The words sent for a request of size bytes: whole words, never past the buffer.
  function Sent(buf: seq<int>, size: int): seq<int> {
    if size < WORD_BYTES then [] else if size / WORD_BYTES < |buf| then buf[..size / WORD_BYTES] else buf
  }

  lemma FlattenNext(hs: seq<Hole>, k: nat)
    requires k < |hs|
    ensures Flatten(hs[..k + 1]) == Flatten(hs[..k]) + [hs[k].len, hs[k].base]
  {
    assert hs[..k + 1][..k] == hs[..k];
  }

  // Every hole has its two words, in order, in whatever begins with the report.
  lemma {:induction false} FlattenHolds(hs: seq<Hole>, front: seq<int>, buf: seq<int>)
    requires front == Flatten(hs) && |front| <= |buf| && buf[..|front|] == front
    ensures forall i :: 0 <= i < |hs| ==> buf[2 * i] == hs[i].len && buf[2 * i + 1] == hs[i].base
  {
    if hs != [] {
      var last := |hs| - 1;
      FlattenHolds(hs[..last], Flatten(hs[..last]), buf);
      assert front[2 * last] == hs[last].len && front[2 * last + 1] == hs[last].base;
    }
  }

  lemma {:induction false} FlattenFirst(hs: seq<Hole>)
    requires hs != []
    ensures Flatten(hs) == [hs[0].len, hs[0].base] + Flatten(hs[1..])
  {
    if |hs| > 1 {
      var front := hs[..|hs| - 1];
      FlattenFirst(front);
      assert front[1..] == hs[1..][..|hs| - 2];
      assert hs[1..][|hs| - 2] == hs[|hs| - 1];
    }
  }

  // Reading back a report with its terminator recovers the lengths in order.
  lemma {:induction false} ReadRecoversLengths(hs: seq<Hole>, rest: seq<int>)
    requires forall i :: 0 <= i < |hs| ==> 0 < hs[i].len
    ensures Read(Flatten(hs) + [0] + rest) == Some(Lengths(hs))
  {
    var ws := Flatten(hs) + [0] + rest;
    if hs != [] {
      FlattenFirst(hs);
      assert ws[2..] == Flatten(hs[1..]) + [0] + rest;
      ReadRecoversLengths(hs[1..], rest);
      assert Lengths(hs) == [hs[0].len] + Lengths(hs[1..]);
    }
  }

  // Without the terminator the reader runs past what it was sent.
  lemma {:induction false} ReadNeedsTerminator(hs: seq<Hole>, n: nat)
    requires forall i :: 0 <= i < |hs| ==> 0 < hs[i].len
    requires n <= 2 * |hs|
    ensures Read(Flatten(hs)[..n]) == None
  {
    if n > 0 {
      FlattenFirst(hs);
      if n > 1 {
        assert Flatten(hs)[..n][2..] == Flatten(hs[1..])[..n - 2];
        ReadNeedsTerminator(hs[1..], n - 2);
      }
    }
  }

  // The reader recovers exactly the lengths of the ordinary holes, in address order,
  // if and only if the request has room for them, their bases and the terminator.
  lemma ReaderRecoversOrdinaryHoles(hs: seq<Hole>, swapBase: int, size: int, buf: seq<int>, rest: seq<int>)
    requires Canonical(hs)
    requires var k := Ordinary(hs, swapBase); buf == Flatten(hs[..Shown(k, size)]) + [0] + rest
    ensures var k := Ordinary(hs, swapBase);
            Read(Sent(buf, size)) == Some(Lengths(hs[..k])) <==> WORD_BYTES * (2 * k + 1) <= size
    ensures Read(Sent(buf, size)).Some? <==> WORD_BYTES * (2 * Ordinary(hs, swapBase) + 1) <= size
  {
    var k := Ordinary(hs, swapBase);
    var m := Shown(k, size);
    var words := if size < WORD_BYTES then 0 else size / WORD_BYTES;
    if WORD_BYTES * (2 * k + 1) <= size {
      assert m == k;
      var tail := if words < |buf| then rest[..words - 2 * k - 1] else rest;
      assert Sent(buf, size) == Flatten(hs[..k]) + [0] + tail;
      ReadRecoversLengths(hs[..k], tail);
    } else {
      assert words <= 2 * m;
      assert Sent(buf, size) == Flatten(hs[..m])[..words];
      ReadNeedsTerminator(hs[..m], words);
    }
  }

  // The loop of the t command.
  method ReadMap(ws: seq<int>) returns (lens: seq<int>)
    requires Read(ws).Some?
    ensures Read(ws) == Some(lens)
  {
    lens := [];
    var p := 0;
    assert ws[0..] == ws && [] + Read(ws).value == Read(ws).value;
    while ws[p] != 0
      invariant 0 <= p < |ws| && Read(ws[p..]).Some?
      invariant Read(ws) == Some(lens + Read(ws[p..]).value)
      decreases |ws| - p
    {
      assert ws[p..][2..] == ws[p + 2..];
      assert lens + ([ws[p]] + Read(ws[p + 2..]).value) == lens + [ws[p]] + Read(ws[p + 2..]).value;
      lens := lens + [ws[p]];
      p := p + 2;
    }
    assert Read(ws[p..]) == Some([]) && lens + [] == lens;
  }
}
