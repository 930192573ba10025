// Directories as the bytes of their blocks: 20-byte elements holding an inode number,
// a used flag and a name.
module Directories {
  import opened Disks

  const ENTRY_SIZE := 20
  const PER_BLOCK := BLOCK_SIZE / ENTRY_SIZE
  const NAME_LEN := 16

  datatype Entry = Entry(id: nat, used: Byte, name: seq<Byte>)

  // Element number i of a directory block: two bytes of inode number, the flag, the
  // name, and one byte of padding.
  function EntryAt(block: seq<Byte>, i: nat): (e: Entry)
    requires |block| == BLOCK_SIZE && i < PER_BLOCK
    ensures |e.name| == NAME_LEN && e.id < 0x1_0000
  {
    var at := ENTRY_SIZE * i;
    var low: int, high: int := block[at], block[at + 1];
    Entry(low + 256 * high, block[at + 2], block[at + 3..at + 3 + NAME_LEN])
  }

  function Encode(e: Entry): (bytes: seq<Byte>)
    requires |e.name| == NAME_LEN && e.id < 0x1_0000
    ensures |bytes| == ENTRY_SIZE
  {
    [e.id % 256, e.id / 256, e.used] + e.name + [0]
  }

  function PutEntry(block: seq<Byte>, i: nat, e: Entry): (r: seq<Byte>)
    requires |block| == BLOCK_SIZE && i < PER_BLOCK && |e.name| == NAME_LEN && e.id < 0x1_0000
    ensures |r| == BLOCK_SIZE
  {
    Overwrite(block, ENTRY_SIZE * i, Encode(e))
  }

  // What an unlinked element becomes: the flag is cleared and the number set to -1.
  function ClearEntry(block: seq<Byte>, i: nat): (r: seq<Byte>)
    requires |block| == BLOCK_SIZE && i < PER_BLOCK
    ensures |r| == BLOCK_SIZE
  {
    Overwrite(block, ENTRY_SIZE * i, [255, 255, 0])
  }

  lemma OverwrittenAt(block: seq<Byte>, at: nat, bytes: seq<Byte>, p: nat)
    requires at + |bytes| <= |block| && p < |block|
    ensures Overwrite(block, at, bytes)[p] == if at <= p < at + |bytes| then bytes[p - at] else block[p]
  {
    var front := block[..at] + bytes;
    assert Overwrite(block, at, bytes) == front + block[at + |bytes|..];
  }

  // Where the bytes of an element go: those not named here stay as they were.
  lemma ElementLayout(block: seq<Byte>, i: nat, e: Entry, p: nat)
    requires |block| == BLOCK_SIZE && i < PER_BLOCK && |e.name| == NAME_LEN && e.id < 0x1_0000 && p < BLOCK_SIZE
    ensures var now, at := PutEntry(block, i, e), 20 * i;
            && now[at] == e.id % 256 && now[at + 1] == e.id / 256 && now[at + 2] == e.used && now[at + 19] == 0
            && (at + 3 <= p < at + 19 ==> now[p] == e.name[p - (at + 3)])
            && (p < at || at + 20 <= p ==> now[p] == block[p])
  {
    var at := 20 * i;
    hide Overwrite;
    OverwrittenAt(block, at, Encode(e), at);
    OverwrittenAt(block, at, Encode(e), at + 1);
    OverwrittenAt(block, at, Encode(e), at + 2);
    OverwrittenAt(block, at, Encode(e), at + 19);
    OverwrittenAt(block, at, Encode(e), p);
  }

  // What is written into one element leaves the others alone.
  lemma OthersReadBack(block: seq<Byte>, i: nat, bytes: seq<Byte>, j: nat)
    requires |block| == BLOCK_SIZE && i < PER_BLOCK && j < PER_BLOCK && i != j && |bytes| <= ENTRY_SIZE
    ensures EntryAt(Overwrite(block, ENTRY_SIZE * i, bytes), j) == EntryAt(block, j)
  {
    hide Overwrite;
    var now, at := Overwrite(block, ENTRY_SIZE * i, bytes), ENTRY_SIZE * j;
    forall p | at <= p < at + ENTRY_SIZE
      ensures now[p] == block[p]
    {
      OverwrittenAt(block, ENTRY_SIZE * i, bytes, p);
    }
    assert now[at + 3..at + 3 + NAME_LEN] == block[at + 3..at + 3 + NAME_LEN];
  }

  // An element written is read back, and the others are not disturbed.
  lemma EntryReadsBack(block: seq<Byte>, i: nat, e: Entry, j: nat)
    requires |block| == BLOCK_SIZE && i < PER_BLOCK && |e.name| == NAME_LEN && e.id < 0x1_0000 && j < PER_BLOCK
    ensures EntryAt(PutEntry(block, i, e), j) == if j == i then e else EntryAt(block, j)
  {
    if j == i {
      var now, at, bytes := PutEntry(block, i, e), ENTRY_SIZE * i, Encode(e);
      hide Overwrite;
      forall p | 0 <= p < ENTRY_SIZE
        ensures now[at + p] == bytes[p]
      {
        OverwrittenAt(block, at, bytes, at + p);
      }
      assert bytes[3..3 + NAME_LEN] == e.name;
      assert now[at + 3..at + 3 + NAME_LEN] == e.name;
    } else {
      OthersReadBack(block, i, Encode(e), j);
    }
  }

  lemma ClearedReadsBack(block: seq<Byte>, i: nat, j: nat)
    requires |block| == BLOCK_SIZE && i < PER_BLOCK && j < PER_BLOCK
    ensures EntryAt(ClearEntry(block, i), j) ==
      if j == i then Entry(0xFFFF, 0, EntryAt(block, i).name) else EntryAt(block, j)
  {
    if j == i {
      var now, at := ClearEntry(block, i), ENTRY_SIZE * i;
      hide Overwrite;
      forall p | 0 <= p < ENTRY_SIZE
        ensures now[at + p] == if p < 3 then [255, 255, 0][p] else block[at + p]
      {
        OverwrittenAt(block, at, [255, 255, 0], at + p);
      }
      assert now[at + 3..at + 3 + NAME_LEN] == block[at + 3..at + 3 + NAME_LEN];
    } else {
      OthersReadBack(block, i, [255, 255, 0], j);
    }
  }

  // The text of a name: its bytes up to the first zero.
  function Text(name: seq<Byte>): (text: seq<Byte>)
    ensures text <= name && 0 !in text && (|text| < |name| ==> name[|text|] == 0)
  {
    if name == [] || name[0] == 0 then [] else [name[0]] + Text(name[1..])
  }

  // A name padded with zeros to its full length.
  function Padded(text: seq<Byte>): seq<Byte>
    requires |text| < NAME_LEN
  {
    text + Zeros(NAME_LEN - |text|)
  }

  predicate IsName(text: seq<Byte>) {
    |text| < NAME_LEN && 0 !in text
  }

  lemma {:induction false} TextOfPadded(text: seq<Byte>, n: nat)
    requires 0 !in text && 0 < n
    ensures Text(text + Zeros(n)) == text
  {
    if text != [] {
      assert (text + Zeros(n))[1..] == text[1..] + Zeros(n);
      TextOfPadded(text[1..], n);
    }
  }

  // The element is found under the name: its flag is exactly 1 and the text the same.
  predicate Matches(e: Entry, name: seq<Byte>) {
    e.used == 1 && Text(e.name) == name
  }

  // The elements of one block, and of the blocks of a chain.
  function Elements(block: seq<Byte>): (es: seq<Entry>)
    requires |block| == BLOCK_SIZE
    ensures |es| == PER_BLOCK && forall i :: 0 <= i < PER_BLOCK ==> es[i] == EntryAt(block, i)
  {
    seq(PER_BLOCK, i requires 0 <= i < PER_BLOCK => EntryAt(block, i))
  }

  function Listing(data: seq<seq<Byte>>, chain: seq<int>): (ls: seq<seq<Entry>>)
    requires forall a :: 0 <= a < |chain| ==> 0 <= chain[a] < |data| && |data[chain[a]]| == BLOCK_SIZE
    ensures |ls| == |chain| && forall a :: 0 <= a < |chain| ==> ls[a] == Elements(data[chain[a]])
  {
    seq(|chain|, a requires 0 <= a < |chain| => Elements(data[chain[a]]))
  }
}
