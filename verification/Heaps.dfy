/** Heapsort, as the name index, the chat order and both candidate indexes do it: what holds of the
    array between steps, and the sort itself for comparisons that read nothing else. */
module Heaps {

  /** A comparison that orders the values of `dom` totally, up to equality. */
  ghost predicate Orders<T(!new)>(cmp: (T, T) -> int, dom: iset<T>) {
    && (forall x, y :: x in dom && y in dom ==> (cmp(x, y) <= 0 <==> cmp(y, x) >= 0))
    && (forall x, y, z :: x in dom && y in dom && z in dom && cmp(x, y) <= 0 && cmp(y, z) <= 0 ==> cmp(x, z) <= 0)
  }

  ghost predicate Within<T>(s: seq<T>, dom: iset<T>) {
    forall i :: 0 <= i < |s| ==> s[i] in dom
  }

  /** Node `k` is not smaller than its children below `end`. */
  ghost predicate HeapAt<T>(s: seq<T>, k: nat, end: nat, cmp: (T, T) -> int) {
    && (2 * k + 1 < end <= |s| ==> cmp(s[k], s[2 * k + 1]) >= 0)
    && (2 * k + 2 < end <= |s| ==> cmp(s[k], s[2 * k + 2]) >= 0)
  }

  /** The nodes from `lo` on form a heap. */
  ghost predicate HeapFrom<T>(s: seq<T>, lo: nat, end: nat, cmp: (T, T) -> int) {
    forall k: nat :: k >= lo ==> HeapAt(s, k, end, cmp)
  }

  /** They do, except that the node at `root` may be too small; what is above it is not smaller
      than what is below it. */
  ghost predicate Sinking<T>(s: seq<T>, lo: nat, end: nat, root: nat, cmp: (T, T) -> int) {
    && end <= |s| && lo <= root
    && (forall k: nat :: k >= lo && k != root ==> HeapAt(s, k, end, cmp))
    && (forall p: nat :: p >= lo && (root == 2 * p + 1 || root == 2 * p + 2) ==> OverAt(s, p, root, end, cmp))
  }

  ghost predicate OverAt<T>(s: seq<T>, p: nat, root: nat, end: nat, cmp: (T, T) -> int) {
    && (2 * root + 1 < end <= |s| && p < end ==> cmp(s[p], s[2 * root + 1]) >= 0)
    && (2 * root + 2 < end <= |s| && p < end ==> cmp(s[p], s[2 * root + 2]) >= 0)
  }

  function Swapped<T>(s: seq<T>, i: nat, j: nat): seq<T>
    requires i < |s| && j < |s|
  {
    s[i := s[j]][j := s[i]]
  }

  lemma SwapKeeps<T>(s: seq<T>, i: nat, j: nat)
    requires i < |s| && j < |s|
    ensures multiset(Swapped(s, i, j)) == multiset(s)
  {
  }

  /** The larger child of `root`. */
  ghost predicate LargerChild<T>(s: seq<T>, root: nat, child: nat, end: nat, cmp: (T, T) -> int) {
    && child < end <= |s| && (child == 2 * root + 1 || child == 2 * root + 2)
    && cmp(s[child], s[2 * root + 1]) >= 0 && (2 * root + 2 < end ==> cmp(s[child], s[2 * root + 2]) >= 0)
  }

  /** Nodes away from the exchange. */
  lemma SinkOther<T>(s: seq<T>, end: nat, root: nat, child: nat, k: nat, cmp: (T, T) -> int)
    requires root < child < end <= |s| && (child == 2 * root + 1 || child == 2 * root + 2)
    requires HeapAt(s, k, end, cmp) && k != root && k != child && root != 2 * k + 1 && root != 2 * k + 2
    ensures HeapAt(Swapped(s, root, child), k, end, cmp)
  {
  }

  lemma SinkAbove<T>(s: seq<T>, end: nat, root: nat, child: nat, k: nat, cmp: (T, T) -> int)
    requires root < child < end <= |s| && (child == 2 * root + 1 || child == 2 * root + 2)
    requires HeapAt(s, k, end, cmp) && OverAt(s, k, root, end, cmp) && (root == 2 * k + 1 || root == 2 * k + 2)
    ensures HeapAt(Swapped(s, root, child), k, end, cmp)
  {
  }

  lemma SinkHere<T(!new)>(s: seq<T>, end: nat, root: nat, child: nat, cmp: (T, T) -> int, dom: iset<T>)
    requires Orders(cmp, dom) && Within(s, dom)
    requires LargerChild(s, root, child, end, cmp) && cmp(s[root], s[child]) < 0
    ensures HeapAt(Swapped(s, root, child), root, end, cmp)
  {
    assert s[root] in dom && s[child] in dom;
  }

  lemma SinkBelow<T>(s: seq<T>, end: nat, root: nat, child: nat, cmp: (T, T) -> int)
    requires LargerChild(s, root, child, end, cmp) && HeapAt(s, child, end, cmp)
    ensures OverAt(Swapped(s, root, child), root, child, end, cmp)
  {
  }

  /** A node smaller than its larger child changes places with it and sinks on. */
  lemma SinkOn<T(!new)>(s: seq<T>, lo: nat, end: nat, root: nat, child: nat, cmp: (T, T) -> int, dom: iset<T>)
    requires Orders(cmp, dom) && Within(s, dom)
    requires Sinking(s, lo, end, root, cmp) && LargerChild(s, root, child, end, cmp) && cmp(s[root], s[child]) < 0
    ensures Sinking(Swapped(s, root, child), lo, end, child, cmp)
  {
    hide Orders, Within, HeapAt, OverAt;
    var now := Swapped(s, root, child);
    forall k: nat | k >= lo && k != child
      ensures HeapAt(now, k, end, cmp)
    {
      if k == root {
        SinkHere(s, end, root, child, cmp, dom);
      } else if root == 2 * k + 1 || root == 2 * k + 2 {
        SinkAbove(s, end, root, child, k, cmp);
      } else {
        SinkOther(s, end, root, child, k, cmp);
      }
    }
    SinkBelow(s, end, root, child, cmp);
  }

  /** A node that is not smaller than its larger child has sunk far enough. */
  lemma SinkStops<T(!new)>(s: seq<T>, lo: nat, end: nat, root: nat, child: nat, cmp: (T, T) -> int, dom: iset<T>)
    requires Orders(cmp, dom) && Within(s, dom)
    requires Sinking(s, lo, end, root, cmp) && LargerChild(s, root, child, end, cmp) && cmp(s[root], s[child]) >= 0
    ensures HeapFrom(s, lo, end, cmp)
  {
    assert HeapAt(s, root, end, cmp);
  }

  lemma SinkEnds<T>(s: seq<T>, lo: nat, end: nat, root: nat, cmp: (T, T) -> int)
    requires Sinking(s, lo, end, root, cmp) && 2 * root + 1 >= end
    ensures HeapFrom(s, lo, end, cmp)
  {
    assert HeapAt(s, root, end, cmp);
  }

  /** A heap extended by one node at its front. */
  lemma SinkStarts<T>(s: seq<T>, lo: nat, end: nat, cmp: (T, T) -> int)
    requires HeapFrom(s, lo + 1, end, cmp) && end <= |s|
    ensures Sinking(s, lo, end, lo, cmp)
  {
  }

  lemma LeavesAreHeaps<T>(s: seq<T>, n: nat, cmp: (T, T) -> int)
    requires n <= |s|
    ensures HeapFrom(s, n / 2, n, cmp)
  {
  }

  /** The top of a heap is its largest value. */
  lemma {:induction false} TopIsMax<T(!new)>(s: seq<T>, end: nat, i: nat, cmp: (T, T) -> int, dom: iset<T>)
    requires Orders(cmp, dom) && Within(s, dom) && HeapFrom(s, 0, end, cmp) && i < end <= |s|
    ensures cmp(s[0], s[i]) >= 0
  {
    if i == 0 {
      assert s[0] in dom;
    } else {
      var p := (i - 1) / 2;
      TopIsMax(s, end, p, cmp, dom);
      assert HeapAt(s, p, end, cmp);
    }
  }

  // ----- sorting -----

  ghost predicate Ascending<T>(s: seq<T>, cmp: (T, T) -> int) {
    forall i, j :: 0 <= i < j < |s| ==> cmp(s[i], s[j]) <= 0
  }

  /** The heap takes up the first `end` places; the largest values are behind it, in order. */
  ghost predicate PartSorted<T>(s: seq<T>, end: nat, n: nat, cmp: (T, T) -> int) {
    && end <= n <= |s| && HeapFrom(s, 0, end, cmp) && Ascending(s[end..n], cmp)
    && forall i, j :: 0 <= i < end <= j < n ==> cmp(s[i], s[j]) <= 0
  }

  /** The top goes behind the heap; what takes its place has to sink. */
  lemma TakeTop<T(!new)>(s: seq<T>, end: nat, n: nat, cmp: (T, T) -> int, dom: iset<T>)
    requires Orders(cmp, dom) && Within(s, dom) && PartSorted(s, end + 1, n, cmp)
    ensures Settled(Swapped(s, 0, end), end, n, cmp) && Sinking(Swapped(s, 0, end), 0, end, 0, cmp)
  {
    TopBehind(s, end, n, cmp, dom);
    TopSinks(s, end, cmp);
  }

  lemma TopSinks<T>(s: seq<T>, end: nat, cmp: (T, T) -> int)
    requires end < |s| && HeapFrom(s, 0, end + 1, cmp)
    ensures Sinking(Swapped(s, 0, end), 0, end, 0, cmp)
  {
    var now := Swapped(s, 0, end);
    forall k: nat | k != 0
      ensures HeapAt(now, k, end, cmp)
    {
      assert HeapAt(s, k, end + 1, cmp);
    }
  }

  lemma TopBehind<T(!new)>(s: seq<T>, end: nat, n: nat, cmp: (T, T) -> int, dom: iset<T>)
    requires Orders(cmp, dom) && Within(s, dom) && PartSorted(s, end + 1, n, cmp)
    ensures Settled(Swapped(s, 0, end), end, n, cmp)
  {
    hide HeapFrom;
    var now := Swapped(s, 0, end);
    forall i | 0 <= i <= end
      ensures cmp(s[i], s[0]) <= 0
    {
      TopIsMax(s, end + 1, i, cmp, dom);
      assert s[i] in dom && s[0] in dom;
    }
    forall i, j | 0 <= i < j < n - end
      ensures cmp(now[end..n][i], now[end..n][j]) <= 0
    {
      if i > 0 {
        assert now[end..n][i] == s[end + 1..n][i - 1] && now[end..n][j] == s[end + 1..n][j - 1];
      }
    }
  }

  /** What stands behind the heap, while it is being repaired. */
  ghost predicate Settled<T>(s: seq<T>, end: nat, n: nat, cmp: (T, T) -> int) {
    && end <= n <= |s| && Ascending(s[end..n], cmp) && forall i, j :: 0 <= i < end <= j < n ==> cmp(s[i], s[j]) <= 0
  }

  /** Repairing the heap leaves the rest alone. */
  lemma Repaired<T>(s: seq<T>, now: seq<T>, end: nat, n: nat, cmp: (T, T) -> int)
    requires Settled(s, end, n, cmp) && |now| == |s| && now[end..] == s[end..] && multiset(now[..end]) == multiset(s[..end])
    requires HeapFrom(now, 0, end, cmp)
    ensures PartSorted(now, end, n, cmp)
  {
    forall j | end <= j < n
      ensures now[j] == s[j]
    {
      assert now[j] == now[end..][j - end] == s[end..][j - end];
    }
    assert now[end..n] == s[end..n];
    forall i, j | 0 <= i < end <= j < n
      ensures cmp(now[i], now[j]) <= 0
    {
      assert now[..end][i] in multiset(now[..end]);
      var k :| 0 <= k < end && s[..end][k] == now[i];
      assert now[j] == now[end..][j - end] == s[j];
    }
  }

  lemma SwapBelow<T>(s: seq<T>, i: nat, j: nat, end: nat)
    requires i < end <= |s| && j < end
    ensures multiset(Swapped(s, i, j)[..end]) == multiset(s[..end]) && Swapped(s, i, j)[end..] == s[end..]
    ensures multiset(Swapped(s, i, j)) == multiset(s)
  {
    assert Swapped(s, i, j)[..end] == Swapped(s[..end], i, j);
  }

  lemma WithinStill<T>(s: seq<T>, now: seq<T>, dom: iset<T>)
    requires Within(s, dom) && multiset(now) == multiset(s)
    ensures Within(now, dom)
  {
    forall i | 0 <= i < |now|
      ensures now[i] in dom
    {
      assert now[i] in multiset(now);
      var k :| 0 <= k < |s| && s[k] == now[i];
    }
  }

  /** The same values below `end`, and the same sequence from there on. */
  ghost predicate Mixed<T>(was: seq<T>, now: seq<T>, end: nat) {
    && |now| == |was| && end <= |was| && multiset(now[..end]) == multiset(was[..end]) && now[end..] == was[end..]
    && multiset(now) == multiset(was)
  }

  lemma MixedSame<T>(s: seq<T>, end: nat)
    requires end <= |s|
    ensures Mixed(s, s, end)
  {
  }

  lemma MixedOn<T>(was: seq<T>, s: seq<T>, i: nat, j: nat, end: nat)
    requires Mixed(was, s, end) && i < end && j < end
    ensures i < |s| && j < |s| && Mixed(was, Swapped(s, i, j), end) && multiset(Swapped(s, i, j)) == multiset(s)
  {
    SwapBelow(s, i, j, end);
  }

  /** Lets the value at `root` sink to its place in the heap [0, end) of the first `n` values. */
  method SiftDown<T(!new)>(a: array<T>, n: nat, root: nat, end: nat, cmp: (T, T) -> int, ghost lo: nat, ghost dom: iset<T>)
    requires n <= a.Length && end <= n && Orders(cmp, dom) && Within(a[..n], dom) && Sinking(a[..n], lo, end, root, cmp)
    modifies a
    ensures HeapFrom(a[..n], lo, end, cmp) && Mixed(old(a[..n]), a[..n], end) && a[n..] == old(a[n..])
  {
    hide Orders, Within, Sinking, HeapFrom;
    ghost var s, rest := a[..n], a[n..];
    var r := root;
    while 2 * r + 1 < end
      invariant Within(a[..n], dom) && Sinking(a[..n], lo, end, r, cmp)
      invariant Mixed(s, a[..n], end) && a[n..] == rest
      decreases end - r
    {
      ghost var now := a[..n];
      var child := 2 * r + 1;
      Reflexive(now, child, cmp, dom);
      if child + 1 < end {
        Flips(now, child, child + 1, cmp, dom);
        Reflexive(now, child + 1, cmp, dom);
        if cmp(a[child], a[child + 1]) < 0 {
          child := child + 1;
        }
      }
      if cmp(a[r], a[child]) >= 0 {
        SinkStops(now, lo, end, r, child, cmp, dom);
        return;
      }
      SinkOn(now, lo, end, r, child, cmp, dom);
      SwapBelow(now, r, child, end);
      a[r], a[child] := a[child], a[r];
      assert a[..n] == Swapped(now, r, child);
      WithinStill(now, a[..n], dom);
      r := child;
    }
    SinkEnds(a[..n], lo, end, r, cmp);
  }

  lemma Reflexive<T(!new)>(s: seq<T>, i: nat, cmp: (T, T) -> int, dom: iset<T>)
    requires Orders(cmp, dom) && Within(s, dom) && i < |s|
    ensures cmp(s[i], s[i]) == 0
  {
    assert s[i] in dom;
  }

  lemma Flips<T(!new)>(s: seq<T>, i: nat, j: nat, cmp: (T, T) -> int, dom: iset<T>)
    requires Orders(cmp, dom) && Within(s, dom) && i < |s| && j < |s|
    ensures cmp(s[i], s[j]) <= 0 <==> cmp(s[j], s[i]) >= 0
    ensures cmp(s[i], s[j]) >= 0 <==> cmp(s[j], s[i]) <= 0
  {
    assert s[i] in dom && s[j] in dom;
  }

  /** Builds a heap, starting from the last value that has a child. */
  method BuildHeap<T(!new)>(a: array<T>, n: nat, cmp: (T, T) -> int, ghost dom: iset<T>)
    requires n <= a.Length && Orders(cmp, dom) && Within(a[..n], dom)
    modifies a
    ensures PartSorted(a[..n], n, n, cmp) && Within(a[..n], dom)
    ensures multiset(a[..n]) == old(multiset(a[..n])) && a[n..] == old(a[n..])
  {
    hide Orders, Within, Sinking, HeapFrom, PartSorted;
    ghost var s, rest := a[..n], a[n..];
    var i: nat := n / 2;
    LeavesAreHeaps(a[..n], n, cmp);
    while i > 0
      invariant i <= n / 2 && Within(a[..n], dom) && HeapFrom(a[..n], i, n, cmp)
      invariant multiset(a[..n]) == multiset(s) && a[n..] == rest
    {
      i := i - 1;
      SinkStarts(a[..n], i, n, cmp);
      ghost var was := a[..n];
      SiftDown(a, n, i, n, cmp, i, dom);
      WithinStill(was, a[..n], dom);
    }
    AllHeap(a[..n], n, cmp);
  }

  /** Moves the largest value of the heap behind it, and repairs the heap. */
  method PopTop<T(!new)>(a: array<T>, n: nat, end: nat, cmp: (T, T) -> int, ghost dom: iset<T>)
    requires n <= a.Length && 0 < end < n && Orders(cmp, dom) && Within(a[..n], dom) && PartSorted(a[..n], end + 1, n, cmp)
    modifies a
    ensures PartSorted(a[..n], end, n, cmp) && Within(a[..n], dom)
    ensures multiset(a[..n]) == old(multiset(a[..n])) && a[n..] == old(a[n..])
  {
    hide Orders, Within, Sinking, HeapFrom, PartSorted, Settled;
    ghost var was := a[..n];
    TakeTop(was, end, n, cmp, dom);
    SwapKeeps(was, 0, end);
    a[0], a[end] := a[end], a[0];
    assert a[..n] == Swapped(was, 0, end);
    WithinStill(was, a[..n], dom);
    ghost var mid := a[..n];
    SiftDown(a, n, 0, end, cmp, 0, dom);
    WithinStill(mid, a[..n], dom);
    Repaired(mid, a[..n], end, n, cmp);
  }

  /** Sorts the first `n` values in place. */
  method HeapSort<T(!new)>(a: array<T>, n: nat, cmp: (T, T) -> int, ghost dom: iset<T>)
    requires n <= a.Length && Orders(cmp, dom) && Within(a[..n], dom)
    modifies a
    ensures Ascending(a[..n], cmp) && multiset(a[..n]) == old(multiset(a[..n])) && a[n..] == old(a[n..])
  {
    hide Orders, Within, PartSorted;
    if n < 2 {
      return;
    }
    BuildHeap(a, n, cmp, dom);
    var end: nat := n - 1;
    while end > 0
      invariant end < n && Within(a[..n], dom) && PartSorted(a[..n], end + 1, n, cmp)
      invariant multiset(a[..n]) == old(multiset(a[..n])) && a[n..] == old(a[n..])
    {
      PopTop(a, n, end, cmp, dom);
      end := end - 1;
    }
    OneLeft(a[..n], n, cmp);
  }

  lemma AllHeap<T>(s: seq<T>, n: nat, cmp: (T, T) -> int)
    requires |s| == n && HeapFrom(s, 0, n, cmp)
    ensures PartSorted(s, n, n, cmp)
  {
  }

  lemma OneLeft<T>(s: seq<T>, n: nat, cmp: (T, T) -> int)
    requires |s| == n && PartSorted(s, 1, n, cmp)
    ensures Ascending(s, cmp)
  {
    forall i, j | 0 <= i < j < n
      ensures cmp(s[i], s[j]) <= 0
    {
      if i > 0 { assert s[1..n][i - 1] == s[i] && s[1..n][j - 1] == s[j]; }
    }
  }

  // ----- permutations -----

  function Mapped<A, B>(f: A -> B, s: seq<A>): (r: seq<B>)
    ensures |r| == |s|
    ensures forall i :: 0 <= i < |s| ==> r[i] == f(s[i])
  {
    seq(|s|, i requires 0 <= i < |s| => f(s[i]))
  }

  lemma MappedJoin<A, B>(f: A -> B, a: seq<A>, b: seq<A>)
    ensures Mapped(f, a + b) == Mapped(f, a) + Mapped(f, b)
  {
  }

  lemma SplitAt<T>(s: seq<T>, k: nat)
    requires k < |s|
    ensures s == s[..k] + ([s[k]] + s[k + 1..]) && multiset(s) == multiset(s[..k] + s[k + 1..]) + multiset{s[k]}
  {
    assert s == s[..k] + ([s[k]] + s[k + 1..]);
  }

  lemma MappedSplit<A, B>(f: A -> B, s: seq<A>, k: nat)
    requires k < |s|
    ensures multiset(Mapped(f, s)) == multiset(Mapped(f, s[..k] + s[k + 1..])) + multiset{f(s[k])}
    ensures multiset(s) == multiset(s[..k] + s[k + 1..]) + multiset{s[k]}
  {
    SplitAt(s, k);
    MappedJoin(f, s[..k], [s[k]] + s[k + 1..]);
    MappedJoin(f, [s[k]], s[k + 1..]);
    MappedJoin(f, s[..k], s[k + 1..]);
    assert Mapped(f, [s[k]]) == [f(s[k])];
    hide Mapped;
  }

  lemma {:induction false} MappedPermuted<A, B>(f: A -> B, a: seq<A>, b: seq<A>)
    requires multiset(a) == multiset(b)
    ensures multiset(Mapped(f, a)) == multiset(Mapped(f, b))
    decreases |a|
  {
    if a == [] {
      assert |b| == |multiset(b)| == 0;
    } else {
      assert a[0] in multiset(b);
      var k :| 0 <= k < |b| && b[k] == a[0];
      MappedSplit(f, a, 0);
      MappedSplit(f, b, k);
      assert multiset(a[..0] + a[1..]) == multiset(a) - multiset{a[0]} == multiset(b[..k] + b[k + 1..]);
      MappedPermuted(f, a[..0] + a[1..], b[..k] + b[k + 1..]);
    }
  }

  lemma {:induction false} CountsOne<T>(s: seq<T>, x: T)
    requires forall i, j :: 0 <= i < j < |s| ==> s[i] != s[j]
    ensures multiset(s)[x] <= 1
  {
    if s != [] {
      assert s == [s[0]] + s[1..];
      CountsOne(s[1..], x);
      if s[0] == x {
        assert x !in s[1..];
      }
    }
  }

  lemma CountsTwo<T>(s: seq<T>, i: nat, j: nat)
    requires i < j < |s| && s[i] == s[j]
    ensures multiset(s)[s[i]] >= 2
  {
    assert s == s[..j] + s[j..];
    assert s[..j][i] in s[..j] && s[j..][0] in s[j..];
  }

  /** Values that differ pairwise still do so in another order. */
  lemma PermutedDistinct<T>(a: seq<T>, b: seq<T>)
    requires multiset(a) == multiset(b) && forall i, j :: 0 <= i < j < |a| ==> a[i] != a[j]
    ensures forall i, j :: 0 <= i < j < |b| ==> b[i] != b[j]
  {
    forall i, j | 0 <= i < j < |b|
      ensures b[i] != b[j]
    {
      CountsOne(a, b[i]);
      if b[i] == b[j] { CountsTwo(b, i, j); }
    }
  }
}
