/** Rebuilding the AVL tree in bulk: append, sort in place, link into a balanced tree. */
module AvlRebuild {
  import opened Layout
  import opened StorageCard
  import opened FreeLists
  import opened IndexOrder
  import opened AvlTrees
  import opened AvlSearch
  import opened AvlPool
  import opened Heaps

  /** The tree over `m` nodes from `lo` on, split in the middle all the way down. */
  function Perfect(lo: nat, m: nat): Tree
    decreases m
  {
    if m == 0 then Leaf else
      var k := (m - 1) / 2;
      Branch(lo + k, Perfect(lo, k), Perfect(lo + k + 1, m - 1 - k))
  }

  function PerfectHeight(m: nat): nat {
    if m == 0 then 0 else 1 + PerfectHeight(m - 1 - (m - 1) / 2)
  }

  lemma {:induction false} PerfectGrows(m: nat)
    ensures PerfectHeight(m) <= PerfectHeight(m + 1) <= PerfectHeight(m) + 1
  {
    if m > 0 {
      var a, b := m - 1 - (m - 1) / 2, m - m / 2;
      assert a == b || b == a + 1;
      PerfectGrows(a);
    }
  }

  ghost function Span(lo: int, hi: int): set<nat> {
    if hi < 0 then {} else if lo < 0 then Below(hi + 1) else Below(hi + 1) - Below(lo)
  }

  lemma SpanHas(lo: int, hi: int)
    ensures forall i: nat :: i in Span(lo, hi) <==> lo <= i <= hi
  {
  }

  lemma SpanSplit(lo: nat, mid: nat, hi: nat)
    requires lo <= mid <= hi
    ensures Span(lo, mid - 1) + {mid} + Span(mid + 1, hi) == Span(lo, hi)
    ensures mid !in Span(lo, mid - 1) && mid !in Span(mid + 1, hi) && Span(lo, mid - 1) !! Span(mid + 1, hi)
  {
    SpanHas(lo, mid - 1);
    SpanHas(mid + 1, hi);
    SpanHas(lo, hi);
    hide Span;
  }

  lemma PerfectSplit(lo: nat, m: nat)
    requires m > 0
    ensures var k := (m - 1) / 2; Perfect(lo, m) == Branch(lo + k, Perfect(lo, k), Perfect(lo + k + 1, m - 1 - k))
  {
  }

  lemma BranchIs(i: nat, l: Tree, r: Tree)
    ensures Nodes(Branch(i, l, r)) == Nodes(l) + {i} + Nodes(r) && Walk(Branch(i, l, r)) == Walk(l) + [i] + Walk(r)
    ensures Apart(Branch(i, l, r)) <==> Apart(l) && Apart(r) && Joins(i, l, r)
    ensures Balanced(Branch(i, l, r)) <==> Balanced(l) && Balanced(r) && -1 <= Height(l) - Height(r) <= 1
    ensures Height(Branch(i, l, r)) == 1 + Max(Height(l), Height(r))
  {
  }

  lemma JoinsIs(i: nat, l: Tree, r: Tree)
    ensures Joins(i, l, r) <==> i !in Nodes(l) && i !in Nodes(r) && Nodes(l) !! Nodes(r)
  {
  }

  lemma LeafIs(lo: nat)
    ensures Nodes(Leaf) == {} && Apart(Leaf) && Balanced(Leaf) && Height(Leaf) == 0 && Walk(Leaf) == []
    ensures Perfect(lo, 0) == Leaf && Span(lo, lo - 1) == {}
  {
    SpanHas(lo, lo - 1);
  }

  lemma {:induction false} PerfectNodes(lo: nat, m: nat)
    ensures Nodes(Perfect(lo, m)) == Span(lo, lo + m - 1)
    decreases m
  {
    hide *;
    LeafIs(lo);
    if m > 0 {
      var k := (m - 1) / 2;
      PerfectNodes(lo, k);
      PerfectNodes(lo + k + 1, m - 1 - k);
      PerfectSplit(lo, m);
      BranchIs(lo + k, Perfect(lo, k), Perfect(lo + k + 1, m - 1 - k));
      SpanSplit(lo, lo + k, lo + m - 1);
    }
  }

  lemma {:induction false} PerfectApart(lo: nat, m: nat)
    ensures Apart(Perfect(lo, m))
    decreases m
  {
    hide *;
    LeafIs(lo);
    if m > 0 {
      var k := (m - 1) / 2;
      PerfectApart(lo, k);
      PerfectApart(lo + k + 1, m - 1 - k);
      PerfectNodes(lo, k);
      PerfectNodes(lo + k + 1, m - 1 - k);
      PerfectSplit(lo, m);
      BranchIs(lo + k, Perfect(lo, k), Perfect(lo + k + 1, m - 1 - k));
      JoinsIs(lo + k, Perfect(lo, k), Perfect(lo + k + 1, m - 1 - k));
      SpanSplit(lo, lo + k, lo + m - 1);
    }
  }

  lemma PerfectHeightIs(m: nat)
    ensures PerfectHeight(m) == if m == 0 then 0 else 1 + PerfectHeight(m - 1 - (m - 1) / 2)
  {
  }

  /** Both halves differ by at most one node, so their heights differ by at most one. */
  lemma {:induction false} PerfectBalanced(lo: nat, m: nat)
    ensures Height(Perfect(lo, m)) == PerfectHeight(m) && Balanced(Perfect(lo, m))
    decreases m
  {
    MaxIs();
    hide *;
    LeafIs(lo);
    PerfectHeightIs(m);
    if m > 0 {
      var k := (m - 1) / 2;
      PerfectBalanced(lo, k);
      PerfectBalanced(lo + k + 1, m - 1 - k);
      PerfectGrows(k);
      PerfectSplit(lo, m);
      BranchIs(lo + k, Perfect(lo, k), Perfect(lo + k + 1, m - 1 - k));
    }
  }

  lemma MaxIs()
    ensures forall a, b :: Max(a, b) == if a > b then a else b
  {
  }

  lemma RangeSplit(lo: nat, mid: nat, end: nat)
    requires lo <= mid < end
    ensures Range(lo, mid) + [mid] + Range(mid + 1, end) == Range(lo, end) && Range(lo, lo) == []
  {
  }

  /** The tree walks its nodes in index order. */
  lemma {:induction false} PerfectWalk(lo: nat, m: nat)
    ensures Walk(Perfect(lo, m)) == Range(lo, lo + m)
    decreases m
  {
    hide *;
    LeafIs(lo);
    RangeSplit(lo, lo, lo + 1);
    if m > 0 {
      var k := (m - 1) / 2;
      PerfectWalk(lo, k);
      PerfectWalk(lo + k + 1, m - 1 - k);
      PerfectSplit(lo, m);
      BranchIs(lo + k, Perfect(lo, k), Perfect(lo + k + 1, m - 1 - k));
      RangeSplit(lo, lo + k, lo + m);
    }
  }

  /** Links the nodes from `lo` to `hi` into a balanced tree. */
  method LinkBalanced(t: AvlTree, lo: int, hi: int) returns (top: nat)
    requires 0 <= lo <= hi + 1 <= t.n.Length <= MAX_ENTRIES
    modifies t.n
    ensures Linked(t.n[..], Perfect(lo, hi + 1 - lo), top) && OnlyLinks(old(t.n[..]), t.n[..], Span(lo, hi))
    decreases hi - lo + 1
  {
    hide Linked, OnlyLinks, Span;
    if lo > hi {
      Unchanged(t.n[..], Span(lo, hi));
      LeafLinked(t.n[..]);
      return NIL;
    }
    var mid := lo + (hi - lo) / 2;
    ghost var pool := t.n[..];
    var left := LinkBalanced(t, lo, mid - 1);
    ghost var first := t.n[..];
    t.n[mid] := t.n[mid].(left := left);
    ghost var joined := t.n[..];
    var right := LinkBalanced(t, mid + 1, hi);
    ghost var second := t.n[..];
    HalvesHang(pool, first, joined, second, lo, mid, hi, left, right);
    t.n[mid] := t.n[mid].(right := right);
    ghost var hung := t.n[..];
    t.UpdateHeight(mid);
    MiddleLinked(pool, hung, lo, mid, hi);
    return mid;
  }

  lemma LeafLinked(pool: Pool)
    ensures Linked(pool, Leaf, NIL)
  {
  }

  lemma {:induction false} LeftJoins(pool: Pool, first: Pool, mid: nat, l: Tree, left: nat)
    requires mid < |pool| && OnlyLinks(pool, first, Nodes(l)) && Linked(first, l, left) && mid !in Nodes(l)
    ensures var now := first[mid := first[mid].(left := left)];
      OnlyLinks(pool, now, Nodes(l) + {mid}) && Linked(now, l, left)
  {
    var now := first[mid := first[mid].(left := left)];
    hide Linked, Nodes, Entries;
    OnlyLinksSet(pool, first, mid, first[mid].(left := left), Nodes(l));
    Unchanged(first, {mid});
    LinkedKept(first, first, now, l, left, {mid});
  }

  lemma {:induction false} RightJoins(pool: Pool, joined: Pool, second: Pool, mid: nat, l: Tree, r: Tree, left: nat, right: nat)
    requires mid < |pool| && OnlyLinks(pool, joined, Nodes(l) + {mid}) && Linked(joined, l, left) && mid < |joined| && joined[mid].left == left
    requires OnlyLinks(joined, second, Nodes(r)) && Linked(second, r, right) && Joins(mid, l, r)
    ensures mid < |second|
    ensures var now := second[mid := second[mid].(right := right)];
      && OnlyLinks(pool, now, Nodes(l) + {mid} + Nodes(r)) && Linked(now, l, left) && Linked(now, r, right)
      && now[mid].left == left && now[mid].right == right
  {
    var now := second[mid := second[mid].(right := right)];
    hide Linked, Nodes, Entries;
    var all := Nodes(l) + {mid} + Nodes(r);
    OnlyLinksTwice(pool, joined, second, Nodes(l) + {mid}, Nodes(r), all);
    OnlyLinksSet(pool, second, mid, second[mid].(right := right), all);
    assert all + {mid} == all;
    LinkedKept(joined, second, now, l, left, Nodes(r) + {mid});
    Unchanged(second, {mid});
    LinkedKept(second, second, now, r, right, {mid});
  }

  /** Both halves are linked, and hang from the middle node. */
  lemma {:induction false} HalvesHang(pool: Pool, first: Pool, joined: Pool, second: Pool, lo: nat, mid: nat, hi: nat, left: nat, right: nat)
    requires lo <= mid <= hi < |pool| <= MAX_ENTRIES
    requires OnlyLinks(pool, first, Span(lo, mid - 1)) && Linked(first, Perfect(lo, mid - lo), left)
    requires mid < |first| && joined == first[mid := first[mid].(left := left)]
    requires OnlyLinks(joined, second, Span(mid + 1, hi)) && Linked(second, Perfect(mid + 1, hi - mid), right)
    ensures mid < |second|
    ensures var now := second[mid := second[mid].(right := right)];
      Hanging(now, mid, Perfect(lo, mid - lo), Perfect(mid + 1, hi - mid)) && OnlyLinks(pool, now, Span(lo, hi))
  {
    assert mid != NIL;
    hide *;
    var l, r := Perfect(lo, mid - lo), Perfect(mid + 1, hi - mid);
    HalvesApart(lo, mid, hi);
    LeftJoins(pool, first, mid, l, left);
    RightJoins(pool, joined, second, mid, l, r, left, right);
    Hang(second[mid := second[mid].(right := right)], mid, l, r);
  }

  lemma HalvesApart(lo: nat, mid: nat, hi: nat)
    requires lo <= mid <= hi
    ensures var l, r := Perfect(lo, mid - lo), Perfect(mid + 1, hi - mid);
      && Nodes(l) == Span(lo, mid - 1) && Nodes(r) == Span(mid + 1, hi) && Nodes(l) + {mid} + Nodes(r) == Span(lo, hi)
      && mid !in Nodes(l) && Joins(mid, l, r) && Apart(l) && Apart(r)
  {
    hide *;
    SpanSplit(lo, mid, hi);
    PerfectNodes(lo, mid - lo);
    PerfectNodes(mid + 1, hi - mid);
    PerfectApart(lo, mid - lo);
    PerfectApart(mid + 1, hi - mid);
    JoinsIs(mid, Perfect(lo, mid - lo), Perfect(mid + 1, hi - mid));
  }

  lemma Hang(pool: Pool, i: nat, l: Tree, r: Tree)
    requires i < |pool| && i != NIL && Linked(pool, l, pool[i].left) && Linked(pool, r, pool[i].right)
    requires Apart(l) && Apart(r) && Joins(i, l, r)
    ensures Hanging(pool, i, l, r)
  {
  }

  lemma {:induction false} MiddleLinked(pool: Pool, hung: Pool, lo: nat, mid: nat, hi: nat)
    requires lo <= mid <= hi && mid == lo + (hi - lo) / 2 && OnlyLinks(pool, hung, Span(lo, hi))
    requires Hanging(hung, mid, Perfect(lo, mid - lo), Perfect(mid + 1, hi - mid))
    ensures mid < |hung|
    ensures var now := hung[mid := hung[mid].(height := 1 + Max(StoredHeight(hung, hung[mid].left), StoredHeight(hung, hung[mid].right)))];
      Linked(now, Perfect(lo, hi + 1 - lo), mid) && OnlyLinks(pool, now, Span(lo, hi))
  {
    hide *;
    var l, r := Perfect(lo, mid - lo), Perfect(mid + 1, hi - mid);
    PerfectTop(lo, mid, hi);
    HangsHeights(hung, mid, l, r);
    HangingParts(hung, mid, l, r);
    var now := hung[mid := hung[mid].(height := 1 + Max(Height(l), Height(r)))];
    SpanHas(lo, hi);
    SameNode(hung[mid], 1 + Max(Height(l), Height(r)));
    Hangs(hung, mid, l, r, hung[mid].left, hung[mid].right);
    OnlyLinksTwice(pool, hung, now, Span(lo, hi), {mid}, Span(lo, hi));
  }

  lemma SameNode(node: AvlNode, height: int)
    ensures node.(height := height) == node.(left := node.left, right := node.right, height := height)
  {
  }

  lemma PerfectTop(lo: nat, mid: nat, hi: nat)
    requires lo <= mid <= hi && mid == lo + (hi - lo) / 2
    ensures Perfect(lo, hi + 1 - lo) == Branch(mid, Perfect(lo, mid - lo), Perfect(mid + 1, hi - mid))
  {
  }

  lemma HangingParts(pool: Pool, i: nat, l: Tree, r: Tree)
    requires Hanging(pool, i, l, r)
    ensures i < |pool| && i != NIL && Linked(pool, l, pool[i].left) && Linked(pool, r, pool[i].right)
    ensures Apart(l) && Apart(r) && Joins(i, l, r)
  {
  }

  // ----- the whole rebuild -----

  /** Compares nodes by their entries. */
  function NodeCmp(tiebreak: TieBreak): (AvlNode, AvlNode) -> int {
    (a: AvlNode, b: AvlNode) => Cmp(a.key, a.contactIndex, b.key, b.contactIndex, tiebreak)
  }

  ghost function RealNodes(): iset<AvlNode> { iset x: AvlNode | x.contactIndex != PROBE_SECTOR }

  lemma NodesOrdered(tiebreak: TieBreak)
    requires Lawful(tiebreak)
    ensures Orders(NodeCmp(tiebreak), RealNodes())
  {
    var cmp, dom := NodeCmp(tiebreak), RealNodes();
    forall x, y | x in dom && y in dom
      ensures cmp(x, y) <= 0 <==> cmp(y, x) >= 0
    {
      OrderTotal(EntryOf(x), EntryOf(y), tiebreak);
      OrderTotal(EntryOf(y), EntryOf(x), tiebreak);
    }
    forall x, y, z | x in dom && y in dom && z in dom && cmp(x, y) <= 0 && cmp(y, z) <= 0
      ensures cmp(x, z) <= 0
    {
      OrderTotal(EntryOf(x), EntryOf(y), tiebreak);
      if cmp(x, y) < 0 { LessTransitive(EntryOf(x), EntryOf(y), EntryOf(z), tiebreak); }
    }
  }

  /** The entries of different contacts. */
  ghost predicate ContactsDistinct(s: seq<SortedEntry>) {
    && (forall i :: 0 <= i < |s| ==> s[i].contactIndex != PROBE_SECTOR)
    && forall i, j :: 0 <= i < j < |s| ==> s[i].contactIndex != s[j].contactIndex
  }

  lemma ContactsPermuted(s: seq<SortedEntry>, now: seq<SortedEntry>)
    requires ContactsDistinct(s) && multiset(now) == multiset(s)
    ensures ContactsDistinct(now)
  {
    var index := (e: SortedEntry) => e.contactIndex;
    MappedPermuted(index, s, now);
    PermutedDistinct(Mapped(index, s), Mapped(index, now));
    forall i | 0 <= i < |now|
      ensures now[i].contactIndex != PROBE_SECTOR
    {
      assert now[i] in multiset(s);
      var k :| 0 <= k < |s| && s[k] == now[i];
    }
    forall i, j | 0 <= i < j < |now|
      ensures now[i].contactIndex != now[j].contactIndex
    {
      assert Mapped(index, now)[i] != Mapped(index, now)[j];
    }
  }

  /** Nodes in ascending order, of different contacts, have strictly sorted entries. */
  lemma SortedStrictly(was: Pool, now: Pool, tiebreak: TieBreak)
    requires Lawful(tiebreak) && ContactsDistinct(Mapped(EntryOf, was)) && multiset(now) == multiset(was)
    requires Ascending(now, NodeCmp(tiebreak))
    ensures Sorted(Mapped(EntryOf, now), tiebreak) && multiset(Mapped(EntryOf, now)) == multiset(Mapped(EntryOf, was))
  {
    MappedPermuted(EntryOf, was, now);
    ContactsPermuted(Mapped(EntryOf, was), Mapped(EntryOf, now));
    var s := Mapped(EntryOf, now);
    forall i, j | 0 <= i < j < |s|
      ensures Less(s[i], s[j], tiebreak)
    {
      OrderTotal(s[i], s[j], tiebreak);
      assert NodeCmp(tiebreak)(now[i], now[j]) <= 0;
    }
  }

  /** The entries appended so far. */
  ghost function Appended(t: AvlTree): (s: seq<SortedEntry>)
    requires t.count <= t.n.Length
    reads t, t.n
    ensures |s| == t.count
  {
    Mapped(EntryOf, t.n[..t.count])
  }

  method RebuildBegin(t: AvlTree)
    modifies t
    ensures t.count == 0 && t.root == NIL
  {
    t.root, t.count := NIL, 0;
  }

  method RebuildAdd(t: AvlTree, key: Key, contactIndex: nat) returns (ok: bool)
    requires t.count <= t.n.Length
    modifies t`count, t.n
    ensures ok <==> old(t.count) < t.n.Length
    ensures t.count <= t.n.Length
    ensures Appended(t) == old(Appended(t)) + if ok then [SortedEntry(key, contactIndex, NO_MESSAGE)] else []
  {
    if t.count >= t.n.Length {
      return false;
    }
    ghost var was := t.n[..];
    t.n[t.count] := t.n[t.count].(key := key, contactIndex := contactIndex, messageIndex := NO_MESSAGE);
    assert t.n[..t.count] == was[..t.count];
    t.count := t.count + 1;
    return true;
  }

  /** Puts the nodes from `n` on onto the free chain. */
  method FreeRest(t: AvlTree, n: nat)
    requires n <= t.n.Length <= MAX_ENTRIES
    modifies t`freeHead, t.n
    ensures Chained(t.n[..], Range(n, t.n.Length), t.freeHead) && t.n[..n] == old(t.n[..n])
  {
    t.freeHead := NIL;
    var i: nat := t.n.Length;
    while i > n
      invariant n <= i <= t.n.Length && Chained(t.n[..], Range(i, t.n.Length), t.freeHead) && t.n[..n] == old(t.n[..n])
    {
      i := i - 1;
      ghost var was, link := t.n[..], t.freeHead;
      t.NodeFree(i);
      assert Range(i, t.n.Length)[1..] == Range(i + 1, t.n.Length);
      ChainedFrame(was, t.n[..], Range(i + 1, t.n.Length), link);
    }
  }

  lemma WalksFirst(pool: Pool, n: nat)
    requires n <= |pool|
    ensures Contents(Entries(pool), Perfect(0, n)) == Mapped(EntryOf, pool[..n]) && |Walk(Perfect(0, n))| == n
  {
    PerfectWalk(0, n);
  }

  lemma RestPartition(n: nat, capacity: nat)
    requires n <= capacity
    ensures Partition(Range(n, capacity), Nodes(Perfect(0, n)), capacity)
  {
    PerfectNodes(0, n);
    SpanHas(0, n - 1);
    forall k | n <= k < capacity
      ensures k in Range(n, capacity)
    {
      assert Range(n, capacity)[k - n] == k;
    }
  }

  lemma {:induction false} FirstKept(linked: Pool, now: Pool, n: nat, root: nat)
    requires n <= |linked| == |now| && now[..n] == linked[..n] && Linked(linked, Perfect(0, n), root)
    ensures Linked(now, Perfect(0, n), root)
  {
    PerfectNodes(0, n);
    SpanHas(0, n - 1);
    forall k | 0 <= k < n
      ensures now[k] == linked[k]
    {
      assert now[..n][k] == linked[..n][k];
    }
    LinkedFrame(linked, now, Perfect(0, n), root);
  }

  lemma LinkedSameEntries(sorted: Pool, linked: Pool, n: nat, touched: set<nat>)
    requires OnlyLinks(sorted, linked, touched) && n <= |sorted|
    ensures Mapped(EntryOf, linked[..n]) == Mapped(EntryOf, sorted[..n])
  {
    forall i | 0 <= i < n
      ensures EntryOf(linked[i]) == EntryOf(sorted[i])
    {
      assert Entries(linked)[i] == Entries(sorted)[i];
    }
  }

  /** Sorts the appended entries, links them, and chains the other nodes: the tree is valid and
      holds exactly what was appended. */
  method RebuildFinish(t: AvlTree)
    requires 0 < t.n.Length <= MAX_ENTRIES && t.count <= t.n.Length && Lawful(t.tiebreak) && ContactsDistinct(Appended(t))
    modifies t, t.n
    ensures t.Valid() && multiset(t.Index()) == multiset(old(Appended(t))) && t.count == old(t.count)
  {
    hide Linked, Chained, Lawful, OnlyLinks, Ascending, Orders, Within, ContactsDistinct, Sorted, Partition, PoolOk, Perfect, Searchable, Contents;
    var n := t.count;
    ghost var was := t.n[..n];
    NodesOrdered(t.tiebreak);
    NodesReal(was);
    HeapSort(t.n, n, NodeCmp(t.tiebreak), RealNodes());
    ghost var sorted := t.n[..];
    SortedStrictly(was, sorted[..n], t.tiebreak);
    t.root := LinkBalanced(t, 0, n as int - 1);
    ghost var linked := t.n[..];
    LinkedSameEntries(sorted, linked, n, Span(0, n as int - 1));
    FreeRest(t, n);
    FirstKept(linked, t.n[..], n, t.root);
    WalksFirst(t.n[..], n);
    RestPartition(n, t.n.Length);
    t.tree, t.free := Perfect(0, n), Range(n, t.n.Length);
    Finished(t.n[..], t.tree, t.root, t.free, t.freeHead, n, t.tiebreak);
  }

  lemma NodesReal(was: Pool)
    requires ContactsDistinct(Mapped(EntryOf, was))
    ensures Within(was, RealNodes())
  {
    forall i | 0 <= i < |was|
      ensures was[i] in RealNodes()
    {
      assert Mapped(EntryOf, was)[i].contactIndex != PROBE_SECTOR;
    }
  }

  lemma Finished(pool: Pool, tree: Tree, root: nat, free: seq<nat>, freeHead: nat, n: nat, tiebreak: TieBreak)
    requires tree == Perfect(0, n) && n <= |pool| && Linked(pool, tree, root) && Chained(pool, free, freeHead) && Partition(free, Nodes(tree), |pool|)
    requires Sorted(Mapped(EntryOf, pool[..n]), tiebreak)
    ensures PoolOk(pool, tree, root, free, freeHead) && Searchable(Entries(pool), tree, tiebreak)
  {
    PerfectBalanced(0, n);
    PerfectApart(0, n);
    WalksFirst(pool, n);
  }

  /** Rebuilds the tree from names and their contacts, in any order. */
  method Rebuild(t: AvlTree, names: seq<Text>, sectors: seq<nat>) returns (ok: bool)
    requires 0 < t.n.Length <= MAX_ENTRIES && Lawful(t.tiebreak) && |names| == |sectors|
    requires (forall i :: 0 <= i < |sectors| ==> sectors[i] != PROBE_SECTOR) && FreeLists.Distinct(sectors)
    modifies t, t.n
    ensures t.Valid() && (ok <==> |names| <= t.n.Length)
    ensures ok ==> multiset(t.Index()) == multiset(EntriesOf(names, sectors))
    ensures !ok ==> t.Index() == []
  {
    RebuildBegin(t);
    if |names| > t.n.Length {
      t.Init();
      return false;
    }
    for i := 0 to |names|
      invariant t.count == i <= t.n.Length && Appended(t) == EntriesOf(names[..i], sectors[..i])
    {
      var added := RebuildAdd(t, MakeKey(names[i]), sectors[i]);
      assert names[..i + 1][..i] == names[..i] && sectors[..i + 1][..i] == sectors[..i];
      assert EntriesOf(names[..i + 1], sectors[..i + 1]) == EntriesOf(names[..i], sectors[..i]) + [SortedEntry(MakeKey(names[i]), sectors[i], NO_MESSAGE)];
    }
    assert names[..|names|] == names && sectors[..|names|] == sectors;
    RebuildFinish(t);
    return true;
  }

  function EntriesOf(names: seq<Text>, sectors: seq<nat>): (s: seq<SortedEntry>)
    requires |names| == |sectors|
    ensures |s| == |names|
    ensures forall i :: 0 <= i < |s| ==> s[i] == SortedEntry(MakeKey(names[i]), sectors[i], NO_MESSAGE)
  {
    seq(|names|, i requires 0 <= i < |names| => SortedEntry(MakeKey(names[i]), sectors[i], NO_MESSAGE))
  }
}
