// The queue of numbers that producers and consumers share, and when each kind of
// thread may use it.
module Buffers {
  function Evens(b: seq<int>): nat {
    if b == [] then 0 else (if b[0] % 2 == 0 then 1 else 0) + Evens(b[1..])
  }

  function Odds(b: seq<int>): nat {
    if b == [] then 0 else (if b[0] % 2 == 0 then 0 else 1) + Odds(b[1..])
  }

  lemma {:induction false} CountsOfOneMore(b: seq<int>, x: int)
    ensures Evens(b + [x]) == Evens(b) + (if x % 2 == 0 then 1 else 0)
    ensures Odds(b + [x]) == Odds(b) + (if x % 2 == 0 then 0 else 1)
  {
    if b == [] {
      assert b + [x] == [x];
    } else {
      assert (b + [x])[1..] == b[1..] + [x];
      CountsOfOneMore(b[1..], x);
    }
  }

  lemma {:induction false} EvensAndOddsAreAll(b: seq<int>)
    ensures Evens(b) + Odds(b) == |b|
  {
    if b != [] { EvensAndOddsAreAll(b[1..]); }
  }

  class Buffer {
    var buffer: seq<int>

    constructor ()
      ensures buffer == []
    {
      buffer := [];
    }

    method Put(num: int)
      modifies this
      ensures buffer == old(buffer) + [num]
    {
      buffer := buffer + [num];
    }

    method Get() returns (value: int)
      modifies this
      ensures old(buffer) == [] ==> value == -1 && buffer == []
      ensures old(buffer) != [] ==> old(buffer) == [value] + buffer
    {
      if buffer == [] { return -1; }
      value := buffer[0];
      buffer := buffer[1..];
    }

    method CountEven() returns (counter: int)
      ensures counter == Evens(buffer)
    {
      counter := 0;
      for i := 0 to |buffer|
        invariant counter == Evens(buffer[..i])
      {
        CountsOfOneMore(buffer[..i], buffer[i]);
        assert buffer[..i + 1] == buffer[..i] + [buffer[i]];
        if buffer[i] % 2 == 0 { counter := counter + 1; }
      }
      assert buffer[..|buffer|] == buffer;
    }

    method CountOdd() returns (counter: int)
      ensures counter == Odds(buffer)
    {
      var even := CountEven();
      EvensAndOddsAreAll(buffer);
      counter := |buffer| - even;
    }

    method PeekFirst() returns (value: int)
      ensures value == if buffer == [] then -1 else buffer[0]
    {
      if buffer == [] { return -1; }
      value := buffer[0];
    }

    method CanProduceEven() returns (r: bool)
      ensures r == CanProdEven(buffer)
      ensures r <==> Evens(buffer) < 10
    {
      var even := CountEven();
      r := even < 10;
    }

    method CanProduceOdd() returns (r: bool)
      ensures r == CanProdOdd(buffer)
      ensures r <==> Odds(buffer) < Evens(buffer)
    {
      var even := CountEven();
      var odd := CountOdd();
      r := even > odd;
    }

    method CanConsumeEven() returns (r: bool)
      ensures r == CanConsEven(buffer)
      ensures r <==> 3 <= |buffer| && buffer[0] != -1 && buffer[0] % 2 == 0
    {
      var first := PeekFirst();
      r := |buffer| >= 3 && first != -1 && first % 2 == 0;
    }

    method CanConsumeOdd() returns (r: bool)
      ensures r == CanConsOdd(buffer)
      ensures r <==> 7 <= |buffer| && buffer[0] != -1 && buffer[0] % 2 == 1
    {
      var first := PeekFirst();
      r := |buffer| >= 7 && first != -1 && first % 2 != 0;
    }
  }

  predicate CanProdEven(b: seq<int>) { Evens(b) < 10 }

  predicate CanProdOdd(b: seq<int>) { Odds(b) < Evens(b) }

  predicate CanConsEven(b: seq<int>) { 3 <= |b| && b[0] != -1 && b[0] % 2 == 0 }

  predicate CanConsOdd(b: seq<int>) { 7 <= |b| && b[0] != -1 && b[0] % 2 != 0 }

  // Whatever the buffer holds, some kind of thread may use it.
  lemma SomeoneCan(b: seq<int>)
    requires forall i :: 0 <= i < |b| ==> 0 <= b[i]
    ensures CanProdEven(b) || CanProdOdd(b) || CanConsEven(b) || CanConsOdd(b)
  {
    EvensAndOddsAreAll(b);
  }
}
