/** Arrays of nullable packet pointers, and the in-place loops both ends share. */
module Slots {
  import opened Codec
  import opened Options

  type Slot = Option<Packet>

  /** An array of n pointers: the packets first, then NULLs. */
  function Filled(held: seq<Packet>, n: nat): (s: seq<Slot>)
    requires |held| <= n
    ensures |s| == n
  {
    seq(n, i requires 0 <= i < n => if i < |held| then Some(held[i]) else None)
  }

  function Nulls(n: nat): (s: seq<Slot>)
    ensures |s| == n
  {
    seq(n, i => None)
  }

  /** `was` after its `count` elements from `shift` on were copied to the front. */
  function Moved<T>(was: seq<T>, shift: nat, count: nat): (s: seq<T>)
    requires shift + count <= |was|
    ensures |s| == |was|
  {
    was[shift..shift + count] + was[count..]
  }

  /** Copying one more element. */
  lemma MoveOne<T>(was: seq<T>, shift: nat, i: nat)
    requires shift + i < |was|
    ensures Moved(was, shift, i)[shift + i] == was[shift + i]
    ensures Moved(was, shift, i)[i := was[shift + i]] == Moved(was, shift, i + 1)
  {}

  /** `for (j = 0; j < count; j++) buffer[j] = buffer[shift + j];` */
  method MoveDown(buffer: array<Slot>, shift: nat, count: nat)
    requires shift + count <= buffer.Length
    modifies buffer
    ensures buffer[..] == old(buffer[shift..shift + count]) + old(buffer[count..])
  {
    ghost var was := buffer[..];
    assert was == Moved(was, shift, 0);
    MoveLoop(buffer, shift, count);
    assert was[shift..shift + count] == old(buffer[shift..shift + count]);
  }

  method MoveLoop(buffer: array<Slot>, shift: nat, count: nat)
    requires shift + count <= buffer.Length
    requires buffer[..] == Moved(buffer[..], shift, 0)
    modifies buffer
    ensures buffer[..] == Moved(old(buffer[..]), shift, count)
  {
    hide Moved;
    ghost var was := buffer[..];
    var i := 0;
    while i < count
      invariant 0 <= i <= count
      invariant buffer[..] == Moved(was, shift, i)
    {
      ghost var s := buffer[..];
      MoveOne(was, shift, i);
      assert s[shift + i] == was[shift + i];
      buffer[i] := buffer[shift + i];
      assert buffer[..] == s[i := was[shift + i]];
      i := i + 1;
    }
  }

  /** Clear entries `low` to `high`. */
  method Clear(buffer: array<Slot>, low: nat, high: int)
    requires low <= high + 1 <= buffer.Length
    modifies buffer
    ensures buffer[..] == old(buffer[..low]) + Nulls(high + 1 - low) + old(buffer[high + 1..])
  {
    ghost var was := buffer[..];
    var i := high;
    while i >= low
      invariant low - 1 <= i <= high
      invariant buffer[..] == was[..i + 1] + Nulls(high - i) + was[high + 1..]
    {
      buffer[i] := None;
      i := i - 1;
    }
  }

  lemma Regroup<T>(a: seq<T>, x: T, b: seq<T>)
    ensures a + ([x] + b) == a + [x] + b
  {}
}
