/** linksim/min_queue.c: a heap in an array whose root is node 0 and whose child
    macros are 2x and 2x + 1, so that node 0 has node 1 as its only proper child. */
module Heap {
  import opened Bytes

  const SLOTS_PER_MALLOC := 20

  /** The compare function `a > b`, on which "not greater" is a total preorder. */
  ghost predicate StrictWeakOrder<T(!new)>(gt: (T, T) -> bool) {
    (forall a, b :: gt(a, b) ==> !gt(b, a))
    && forall a, b, c :: !gt(a, b) && !gt(b, c) ==> !gt(a, c)
  }

  /** No element is below its parent. */
  ghost predicate IsHeap<T>(s: seq<T>, gt: (T, T) -> bool) {
    forall i :: 0 < i < |s| ==> !gt(s[i / 2], s[i])
  }

  /** A heap except that node `hole` may be smaller than its parent. */
  ghost predicate HeapButUp<T>(s: seq<T>, gt: (T, T) -> bool, hole: nat) {
    (forall i :: 0 < i < |s| && i != hole ==> !gt(s[i / 2], s[i]))
    && forall i :: 0 < i < |s| && i / 2 == hole && hole > 0 ==> !gt(s[hole / 2], s[i])
  }

  /** A heap except that node `hole` may be larger than its children. */
  ghost predicate HeapButDown<T>(s: seq<T>, gt: (T, T) -> bool, hole: nat) {
    (forall i :: 0 < i < |s| && i / 2 != hole ==> !gt(s[i / 2], s[i]))
    && forall i :: 0 < i < |s| && i / 2 == hole && hole > 0 ==> !gt(s[hole / 2], s[i])
  }

  /** What has_child tells about node i: c is its smaller child; 0 stands for no
      child, and at the root also for "node 1 is not smaller". */
  ghost predicate Chosen<T>(s: seq<T>, gt: (T, T) -> bool, i: nat, c: nat) {
    (c == 0 ==> forall j :: 0 < j < |s| && j / 2 == i ==> i == 0 && !gt(s[0], s[j]))
    && (c != 0 ==> i < c < |s| && c / 2 == i && forall j :: 0 < j < |s| && j / 2 == i ==> !gt(s[c], s[j]))
  }

  /** t is s with v in the hole at node i. */
  ghost predicate HoleView<T>(s: seq<T>, t: seq<T>, i: nat, v: T) {
    |s| == |t| && i < |t| && t[i] == v && forall k :: 0 <= k < |t| && k != i ==> s[k] == t[k]
  }

  function Swap<T>(s: seq<T>, i: nat, j: nat): (t: seq<T>)
    requires i < |s| && j < |s|
    ensures |t| == |s|
  {
    s[i := s[j]][j := s[i]]
  }

  lemma SwapPermutes<T>(s: seq<T>, i: nat, j: nat)
    requires i < |s| && j < |s|
    ensures multiset(Swap(s, i, j)) == multiset(s)
  {}

  lemma HoleReads<T>(s: seq<T>, t: seq<T>, i: nat, v: T)
    requires HoleView(s, t, i, v)
    ensures |s| == |t| && i < |t| && t[i] == v && s[i := v] == t
    ensures i > 0 ==> s[i / 2] == t[i / 2]
  {}

  lemma HoleMoves<T>(s: seq<T>, t: seq<T>, i: nat, v: T)
    requires HoleView(s, t, i, v) && i > 0
    ensures HoleView(s[i := s[i / 2]], Swap(t, i, i / 2), i / 2, v)
  {}

  lemma StepUp<T(!new)>(s: seq<T>, gt: (T, T) -> bool, i: nat)
    requires StrictWeakOrder(gt) && 0 < i < |s| && HeapButUp(s, gt, i)
    requires gt(s[i / 2], s[i])
    ensures HeapButUp(Swap(s, i, i / 2), gt, i / 2)
  {
    var p := i / 2;
    var t := Swap(s, i, p);
    forall j | 0 < j < |t| && j != p ensures !gt(t[j / 2], t[j]) {
      if j / 2 == p && j != i { assert !gt(s[p], s[j]); }
    }
    forall j | 0 < j < |t| && j / 2 == p && p > 0 ensures !gt(t[p / 2], t[j]) {
      assert !gt(s[p / 2], s[p]);
      if j != i { assert !gt(s[p], s[j]); }
    }
  }

  lemma UpDone<T>(s: seq<T>, gt: (T, T) -> bool, i: nat)
    requires i < |s| && HeapButUp(s, gt, i) && (i != 0 ==> !gt(s[i / 2], s[i]))
    ensures IsHeap(s, gt)
  {}

  lemma AppendIsUp<T>(s: seq<T>, gt: (T, T) -> bool, v: T)
    requires IsHeap(s, gt)
    ensures HeapButUp(s + [v], gt, |s|)
  {
    forall i | 0 < i < |s| ensures !gt((s + [v])[i / 2], (s + [v])[i]) {
      assert !gt(s[i / 2], s[i]);
    }
  }

  /** The last element takes the root's place. */
  function RootReplaced<T>(s: seq<T>): (t: seq<T>)
    requires s != []
    ensures |t| == |s| - 1
  {
    if |s| > 1 then s[..|s| - 1][0 := s[|s| - 1]] else []
  }

  lemma ReplaceRootIsDown<T>(s: seq<T>, gt: (T, T) -> bool)
    requires IsHeap(s, gt) && s != []
    ensures HeapButDown(RootReplaced(s), gt, 0)
  {
    var t := RootReplaced(s);
    forall i | 0 < i < |t| && i / 2 != 0 ensures !gt(t[i / 2], t[i]) {
      assert !gt(s[i / 2], s[i]);
    }
  }

  lemma StepDown<T(!new)>(s: seq<T>, gt: (T, T) -> bool, i: nat, c: nat)
    requires StrictWeakOrder(gt) && c != 0 && Chosen(s, gt, i, c) && HeapButDown(s, gt, i)
    requires gt(s[i], s[c])
    ensures HeapButDown(Swap(s, i, c), gt, c)
  {
    var t := Swap(s, i, c);
    forall j | 0 < j < |t| && j / 2 != c ensures !gt(t[j / 2], t[j]) {
      if j == i { assert !gt(s[i / 2], s[c]); }
    }
    forall j | 0 < j < |t| && j / 2 == c ensures !gt(t[c / 2], t[j]) {
      assert !gt(s[c], s[j]);
    }
  }

  lemma {:induction false} RootIsMinimal<T(!new)>(s: seq<T>, gt: (T, T) -> bool, i: nat)
    requires StrictWeakOrder(gt) && IsHeap(s, gt) && i < |s|
    ensures !gt(s[0], s[i])
  {
    if i > 0 { RootIsMinimal(s, gt, i / 2); }
  }

  /** Depth of a node: parents to cross before the root. */
  function Level(i: nat): nat {
    if i == 0 then 0 else 1 + Level(i / 2)
  }

  lemma LevelUp(i: nat)
    ensures i > 0 ==> Level(i) == 1 + Level(i / 2)
  {}

  lemma {:induction false} LevelMonotone(i: nat, j: nat)
    requires i <= j
    ensures Level(i) <= Level(j)
  {
    if i > 0 { LevelMonotone(i / 2, j / 2); }
  }

  /** The depth is floor(log2 i) + 1. */
  lemma {:induction false} LevelIsLogarithmic(i: nat)
    requires i >= 1
    ensures Level(i) >= 1 && Shl(1, Level(i) - 1) <= i < Shl(1, Level(i))
  {
    if i >= 2 { LevelIsLogarithmic(i / 2); }
  }

  class MinQueue<T(0, !new)> {
    const gt: (T, T) -> bool
    var size: nat
    var alloc: nat
    var e: array<T>

    ghost predicate Valid()
      reads this, e
    {
      && StrictWeakOrder(gt) && size <= alloc == e.Length
      && IsHeap(e[..size], gt)
    }

    ghost function Elements(): multiset<T>
      reads this, e
      requires Valid()
    {
      multiset(e[..size])
    }

    constructor (gt: (T, T) -> bool)
      requires StrictWeakOrder(gt)
      ensures Valid() && fresh(e) && Elements() == multiset{} && this.gt == gt
    {
      this.gt := gt;
      size, alloc := 0, SLOTS_PER_MALLOC;
      e := new T[SLOTS_PER_MALLOC];
      new;
      assert e[..size] == [];
    }

    /** realloc by one allocation step when every slot is in use. */
    method Grow()
      requires Valid()
      modifies this`e, this`alloc
      ensures Valid() && size < alloc && e[..size] == old(e[..size])
      ensures alloc == old(alloc) + if size == old(alloc) then SLOTS_PER_MALLOC else 0
      ensures e == old(e) || fresh(e)
    {
      if size == alloc {
        var resizeTo := size + SLOTS_PER_MALLOC;
        var was := e;
        var tmp := new T[resizeTo];
        var k := 0;
        while k < size
          invariant 0 <= k <= size && size <= was.Length
          invariant e == was && tmp[..k] == was[..k]
        {
          tmp[k] := was[k];
          k := k + 1;
        }
        e := tmp;
        alloc := resizeTo;
      }
    }

    /** One turn of the heapify-up loop: the hole and its parent trade places. */
    method MoveHoleUp(i: nat, v: T, ghost t: seq<T>) returns (ghost u: seq<T>)
      requires 0 < i < size <= e.Length && StrictWeakOrder(gt)
      requires HoleView(e[..size], t, i, v) && HeapButUp(t, gt, i) && gt(e[i / 2], v)
      modifies e
      ensures HoleView(e[..size], u, i / 2, v) && HeapButUp(u, gt, i / 2)
      ensures multiset(u) == multiset(t)
    {
      hide StrictWeakOrder, HeapButUp;
      ghost var s := e[..size];
      HoleMoves(s, t, i, v);
      StepUp(t, gt, i);
      SwapPermutes(t, i, i / 2);
      u := Swap(t, i, i / 2);
      e[i] := e[i / 2];
      assert e[..size] == s[i := s[i / 2]];
    }

    /** The heapify-up loop: v moves up from the last slot; t0 is the array as if
        v were already stored there. */
    method SiftUp(v: T, ghost t0: seq<T>) returns (ghost moves: nat)
      requires 0 < size <= alloc == e.Length && StrictWeakOrder(gt)
      requires HoleView(e[..size], t0, size - 1, v) && HeapButUp(t0, gt, size - 1)
      modifies e
      ensures Valid() && Elements() == multiset(t0)
      ensures moves <= Level(size - 1)
    {
      hide StrictWeakOrder, HeapButUp, IsHeap, HoleView, Level;
      ghost var t := t0;
      var i := size - 1;
      var parent := i / 2;
      moves := 0;
      while i != 0 && gt(e[parent], v)
        invariant 0 <= i < size && parent == i / 2
        invariant HoleView(e[..size], t, i, v) && HeapButUp(t, gt, i)
        invariant multiset(t) == multiset(t0)
        invariant moves + Level(i) == Level(size - 1)
      {
        LevelUp(i);
        t := MoveHoleUp(i, v, t);
        i := parent;
        parent := i / 2;
        moves := moves + 1;
      }
      HoleReads(e[..size], t, i, v);
      ghost var s := e[..size];
      e[i] := v;
      assert e[..size] == s[i := v] == t;
      UpDone(t, gt, i);
    }

    /** Adds one element, crossing at most floor(log2 n) + 1 levels of a queue of
        n >= 1 elements. */
    method Push(v: T) returns (ghost moves: nat)
      requires Valid()
      modifies this`size, this`e, this`alloc, e
      ensures Valid() && Elements() == old(Elements()) + multiset{v}
      ensures size == old(size) + 1 && (e == old(e) || fresh(e))
      ensures moves <= Level(old(size))
    {
      hide StrictWeakOrder, HeapButUp, IsHeap;
      Grow();
      ghost var t := e[..size] + [v];
      AppendIsUp(e[..size], gt, v);
      size := size + 1;
      moves := SiftUp(v, t);
    }

    /** has_child. */
    method HasChild(i: nat) returns (c: nat)
      requires size <= e.Length && StrictWeakOrder(gt)
      ensures Chosen(e[..size], gt, i, c) && (c == 0 || (i < c < size && c / 2 == i))
    {
      var left := 2 * i;
      if left >= size {
        return 0;
      }
      var right := left + 1;
      if right < size && gt(e[left], e[right]) {
        return right;
      }
      return left;
    }

    /** One turn of the heapify-down loop: swap node i with its smaller child. */
    method SwapDown(i: nat, c: nat)
      requires size <= e.Length && StrictWeakOrder(gt) && HeapButDown(e[..size], gt, i)
      requires c != 0 && Chosen(e[..size], gt, i, c) && gt(e[i], e[c])
      modifies e
      ensures HeapButDown(e[..size], gt, c) && multiset(e[..size]) == old(multiset(e[..size]))
    {
      hide StrictWeakOrder, HeapButDown, IsHeap;
      ghost var t := e[..size];
      StepDown(t, gt, i, c);
      SwapPermutes(t, i, c);
      var tmp := e[i];
      e[i] := e[c];
      e[c] := tmp;
      assert e[..size] == Swap(t, i, c);
    }

    /** The heapify-down loop, from an array whose root may be too large. */
    method SiftDown() returns (ghost moves: nat)
      requires size <= alloc == e.Length && StrictWeakOrder(gt) && HeapButDown(e[..size], gt, 0)
      modifies e
      ensures Valid() && multiset(e[..size]) == old(multiset(e[..size]))
      ensures moves <= Level(size)
    {
      hide StrictWeakOrder, HeapButDown, IsHeap, Chosen;
      moves := 0;
      var current := 0;
      var minChild := HasChild(current);
      while minChild != 0 && gt(e[current], e[minChild])
        invariant current <= size && (current < size || size == 0) && HeapButDown(e[..size], gt, current)
        invariant multiset(e[..size]) == old(multiset(e[..size]))
        invariant minChild == 0 || (current < minChild < size && minChild / 2 == current)
        invariant Chosen(e[..size], gt, current, minChild)
        invariant moves == Level(current)
        decreases size - current
      {
        SwapDown(current, minChild);
        current := minChild;
        moves := moves + 1;
        minChild := HasChild(current);
      }
      LevelMonotone(current, size);
      SiftedIsHeap(e[..size], gt, current, minChild);
    }

    /** Removes the root, with the same bound on the levels crossed. */
    method Pop() returns (ghost moves: nat)
      requires Valid()
      modifies this`size, e
      ensures Valid() && alloc == old(alloc)
      ensures old(size) == 0 ==> size == 0
      ensures old(size) > 0 ==> size == old(size) - 1 && Elements() == old(Elements()) - multiset{old(e[0])}
      ensures moves <= Level(old(size))
    {
      hide StrictWeakOrder, HeapButDown, IsHeap, Level;
      if size == 0 {
        return 0;
      }
      ghost var was := e[..size];
      size := size - 1;
      e[0] := e[size];
      assert e[..size] == RootReplaced(was);
      RootReplacedMultiset(was);
      ReplaceRootIsDown(was, gt);
      moves := SiftDown();
      LevelMonotone(size, old(size));
    }

    /** The minimum, without removing it. */
    method Peek() returns (v: T)
      requires Valid() && size > 0
      ensures v == e[0] && v in Elements()
      ensures forall x :: x in Elements() ==> !gt(v, x)
    {
      v := e[0];
      forall x | x in Elements() ensures !gt(v, x) {
        var i :| 0 <= i < size && e[..size][i] == x;
        RootIsMinimal(e[..size], gt, i);
      }
      assert e[..size][0] == v;
    }
  }

  lemma SiftedIsHeap<T(!new)>(s: seq<T>, gt: (T, T) -> bool, i: nat, c: nat)
    requires StrictWeakOrder(gt) && HeapButDown(s, gt, i) && (i < |s| || |s| == 0)
    requires Chosen(s, gt, i, c) && (c != 0 ==> !gt(s[i], s[c]))
    ensures IsHeap(s, gt)
  {
    forall j | 0 < j < |s| ensures !gt(s[j / 2], s[j]) {
      if j / 2 == i && c != 0 { assert !gt(s[i], s[c]) && !gt(s[c], s[j]); }
    }
  }

  lemma RootReplacedMultiset<T>(s: seq<T>)
    requires s != []
    ensures multiset(RootReplaced(s)) == multiset(s) - multiset{s[0]}
  {
    var n := |s| - 1;
    assert s == s[..n] + [s[n]];
    if n > 0 {
      assert s[..n] == [s[0]] + s[1..n];
      assert s[..n][0 := s[n]] == [s[n]] + s[1..n];
    }
  }
}
