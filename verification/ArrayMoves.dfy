/** Opening and closing gaps in arrays. */
module ArrayMoves {

  /** Moves `k` values; the stretches may overlap. */
  method Move<T>(a: array<T>, dst: nat, src: nat, k: nat)
    requires dst + k <= a.Length && src + k <= a.Length
    modifies a
    ensures a[..] == old(a[..])[..dst] + old(a[..])[src..src + k] + old(a[..])[dst + k..]
  {
    ghost var was := a[..];
    if dst < src {
      MoveDown(a, dst, src, k);
    } else {
      MoveUp(a, dst, src, k);
    }
    Spliced(was, a[..], dst, src, k);
  }

  lemma Spliced<T>(was: seq<T>, now: seq<T>, dst: nat, src: nat, k: nat)
    requires |now| == |was| && dst + k <= |was| && src + k <= |was|
    requires forall q :: dst <= q < dst + k ==> now[q] == was[q - dst + src]
    requires forall q :: 0 <= q < |was| && !(dst <= q < dst + k) ==> now[q] == was[q]
    ensures now == was[..dst] + was[src..src + k] + was[dst + k..]
  {
  }

  method MoveDown<T>(a: array<T>, dst: nat, src: nat, k: nat)
    requires dst < src && src + k <= a.Length
    modifies a
    ensures forall q :: dst <= q < dst + k ==> a[q] == old(a[..])[q - dst + src]
    ensures forall q :: 0 <= q < a.Length && !(dst <= q < dst + k) ==> a[q] == old(a[..])[q]
  {
    ghost var was := a[..];
    for i := 0 to k
      invariant forall q :: dst <= q < dst + i ==> a[q] == was[q - dst + src]
      invariant forall q :: 0 <= q < a.Length && !(dst <= q < dst + i) ==> a[q] == was[q]
    {
      a[dst + i] := a[src + i];
    }
  }

  method MoveUp<T>(a: array<T>, dst: nat, src: nat, k: nat)
    requires src <= dst && dst + k <= a.Length
    modifies a
    ensures forall q :: dst <= q < dst + k ==> a[q] == old(a[..])[q - dst + src]
    ensures forall q :: 0 <= q < a.Length && !(dst <= q < dst + k) ==> a[q] == old(a[..])[q]
  {
    ghost var was := a[..];
    for i := k downto 0
      invariant forall q :: dst + i <= q < dst + k ==> a[q] == was[q - dst + src]
      invariant forall q :: 0 <= q < a.Length && !(dst + i <= q < dst + k) ==> a[q] == was[q]
    {
      a[dst + i] := a[src + i];
    }
  }

  /** Puts a value at `pos` among the first `count`, and moves the rest up by one. */
  method InsertAt<T>(a: array<T>, count: nat, pos: nat, x: T)
    requires pos <= count < a.Length
    modifies a
    ensures a[..count + 1] == old(a[..count])[..pos] + [x] + old(a[..count])[pos..]
  {
    ghost var was := a[..];
    Move(a, pos + 1, pos, count - pos);
    ghost var mid := a[..];
    a[pos] := x;
    Opened(was, mid, a[..], count, pos, x);
  }

  lemma Opened<T>(was: seq<T>, mid: seq<T>, now: seq<T>, count: nat, pos: nat, x: T)
    requires pos <= count < |was| && mid == was[..pos + 1] + was[pos..count] + was[count + 1..] && now == mid[pos := x]
    ensures now[..count + 1] == was[..count][..pos] + [x] + was[..count][pos..]
  {
  }

  /** Takes the value at `pos` out of the first `count`, and moves the rest down by one. */
  method RemoveAt<T>(a: array<T>, count: nat, pos: nat)
    requires pos < count <= a.Length
    modifies a
    ensures a[..count - 1] == old(a[..count])[..pos] + old(a[..count])[pos + 1..]
  {
    ghost var was := a[..];
    Move(a, pos, pos + 1, count - pos - 1);
    Closed(was, a[..], count, pos);
  }

  lemma Closed<T>(was: seq<T>, now: seq<T>, count: nat, pos: nat)
    requires pos < count <= |was| && now == was[..pos] + was[pos + 1..count] + was[count - 1..]
    ensures now[..count - 1] == was[..count][..pos] + was[..count][pos + 1..]
  {
  }
}
