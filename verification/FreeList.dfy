/** The allocator of contact slots and of message sectors: a stack of free indexes. */
module FreeLists {
  import opened Layout

  function Range(a: nat, b: nat): (r: seq<nat>)
    ensures |r| == if a <= b then b - a else 0
    ensures forall i :: 0 <= i < |r| ==> r[i] == a + i
  {
    if a < b then seq(b - a, i requires 0 <= i => a + i) else []
  }

  /** The indexes below `capacity` are each in `used` or exactly once in `free`. */
  predicate Partition(free: seq<nat>, used: set<nat>, capacity: nat) {
    && Distinct(free)
    && (forall x <- free :: x < capacity && x !in used)
    && (forall x :: 0 <= x < capacity && x !in used ==> x in free)
  }

  ghost function Below(n: nat): (s: set<nat>)
    ensures forall x: nat :: x in s <==> x < n
    ensures |s| == n
  {
    if n == 0 then {} else Below(n - 1) + {n - 1}
  }

  ghost function Elems<T>(s: seq<T>): set<T> { set x | x in s }

  predicate Distinct<T(==)>(s: seq<T>) {
    forall i, j :: 0 <= i < j < |s| ==> s[i] != s[j]
  }

  lemma {:induction false} DistinctSize<T>(s: seq<T>)
    requires Distinct(s)
    ensures |Elems(s)| == |s|
  {
    if s != [] {
      DistinctSize(s[1..]);
      assert Elems(s) == Elems(s[1..]) + {s[0]};
      assert s[0] !in s[1..];
    }
  }

  /** Distinct indexes below `capacity` are no more than `capacity`. */
  lemma Pigeonhole(s: seq<nat>, capacity: nat)
    requires Distinct(s)
    requires forall x <- s :: x < capacity
    ensures |s| <= capacity
  {
    DistinctSize(s);
    SubsetSize(Elems(s), Below(capacity));
  }

  lemma {:induction false} SubsetSize<T>(a: set<T>, b: set<T>)
    requires a <= b
    ensures |a| <= |b|
    decreases |a|
  {
    if a != {} {
      var x :| x in a;
      SubsetSize(a - {x}, b - {x});
    }
  }

  /** An index in use leaves the stack room to take it back. */
  lemma PartitionRoom(free: seq<nat>, used: set<nat>, capacity: nat, x: nat)
    requires Partition(free, used, capacity) && x in used && x < capacity
    ensures |free| < capacity
  {
    Pigeonhole(free + [x], capacity);
  }

  lemma PartitionRelease(free: seq<nat>, used: set<nat>, capacity: nat, x: nat)
    requires Partition(free, used, capacity) && x in used && x < capacity
    ensures Partition(free + [x], used - {x}, capacity)
  {
  }

  lemma PartitionAllocate(free: seq<nat>, used: set<nat>, capacity: nat, x: nat)
    requires Partition(free + [x], used, capacity)
    ensures x < capacity && x !in used && Partition(free, used + {x}, capacity)
  {
    var all := free + [x];
    assert all[|free|] == x;
    assert x in all;
    assert forall i :: 0 <= i < |free| ==> all[i] == free[i];
    assert forall y <- free :: y in all;
    forall y | 0 <= y < capacity && y !in used + {x}
      ensures y in free
    {
      assert y in all;
    }
  }

  lemma DistinctWithout(s: seq<nat>, p: nat)
    requires Distinct(s) && p < |s|
    ensures forall x :: x in s[..p] + s[p + 1..] <==> x in s && x != s[p]
    ensures Distinct(s[..p] + s[p + 1..])
  {
    var rest := s[..p] + s[p + 1..];
    forall x | x in s && x != s[p]
      ensures x in rest
    {
      var k :| 0 <= k < |s| && s[k] == x;
      if k < p { assert rest[k] == x; } else { assert rest[k - 1] == x; }
    }
  }

  /** Free and used indexes add up to all of them. */
  lemma PartitionSize(free: seq<nat>, used: set<nat>, capacity: nat)
    requires Partition(free, used, capacity) && forall x <- used :: x < capacity
    ensures |free| + |used| == capacity
  {
    DistinctSize(free);
    assert Elems(free) + used == Below(capacity);
    assert Elems(free) !! used;
  }

  class FreeList {
    const stack: array<nat>
    var top: nat
    var used: nat

    ghost predicate Valid()
      reads this
    {
      top <= stack.Length
    }

    /** The free indexes, bottom of the stack first. */
    function Free(): (s: seq<nat>)
      reads this, stack
      ensures Valid() ==> |s| == top
    {
      if top <= stack.Length then stack[..top] else []
    }

    /** Every index free. */
    constructor AllFree(capacity: nat)
      ensures Valid() && fresh(stack) && stack.Length == capacity
      ensures Free() == Range(0, capacity) && used == 0
    {
      stack := new nat[capacity](i requires 0 <= i => i);
      top := capacity;
      used := 0;
    }

    /** No index free yet: a rebuild hands the free ones back. */
    constructor AllUsed(capacity: nat)
      ensures Valid() && fresh(stack) && stack.Length == capacity
      ensures Free() == [] && used == capacity
    {
      stack := new nat[capacity](_ => 0);
      top := 0;
      used := capacity;
    }

    method Allocate() returns (index: nat)
      requires Valid()
      modifies this
      ensures Valid()
      ensures old(Free()) == [] ==> index == NIL && Free() == [] && used == old(used)
      ensures old(Free()) != [] ==> old(Free()) == Free() + [index] && used == old(used) + 1
    {
      if top == 0 {
        return NIL;
      }
      top := top - 1;
      used := used + 1;
      return stack[top];
    }

    method Release(index: nat)
      requires Valid()
      modifies this, stack
      ensures Valid()
      ensures old(top) < stack.Length ==> Free() == old(Free()) + [index] && used == if old(used) > 0 then old(used) - 1 else 0
      ensures old(top) == stack.Length ==> Free() == old(Free()) && used == old(used)
    {
      if top >= stack.Length {
        return;
      }
      stack[top] := index;
      top := top + 1;
      if used > 0 {
        used := used - 1;
      }
    }

    /** Hands back the indexes from `start` up to but not including `end`, ignoring those that
        the allocator does not manage. */
    method ReleaseRange(start: nat, end: nat)
      requires Valid() && top + |Range(start, Min(end, stack.Length))| <= stack.Length
      modifies this, stack
      ensures Valid()
      ensures Free() == old(Free()) + Range(start, Min(end, stack.Length))
      ensures used == Monus(old(used), |Range(start, Min(end, stack.Length))|)
    {
      var i := start;
      while i < end
        invariant start <= i && (i <= end || i == start) && (i <= stack.Length || i == start)
        invariant Valid()
        invariant Free() == old(Free()) + Range(start, i)
        invariant used == Monus(old(used), |Range(start, i)|)
      {
        if i >= stack.Length {
          return;
        }
        Release(i);
        assert Range(start, i + 1) == Range(start, i) + [i];
        i := i + 1;
      }
    }
  }

  function Min(a: nat, b: nat): nat { if a < b then a else b }

  function Monus(a: nat, b: nat): nat { if a < b then 0 else a - b }
}
