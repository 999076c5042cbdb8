/** Insertion into and removal from AVL trees as values, and what they do to the sequence of
    entries in order. */
module AvlSearch {
  import opened Layout
  import opened StorageCard
  import opened FreeLists
  import opened IndexOrder
  import opened AvlTrees

  const NO_ENTRY := SortedEntry([0, 0, 0, 0, 0, 0, 0, 0], PROBE_SECTOR, NO_MESSAGE)

  /** The entry of node `i`. */
  function At(es: seq<SortedEntry>, i: nat): SortedEntry { if i < |es| then es[i] else NO_ENTRY }

  function Values(es: seq<SortedEntry>, walk: seq<nat>): (s: seq<SortedEntry>)
    ensures |s| == |walk|
    ensures forall k :: 0 <= k < |walk| ==> s[k] == At(es, walk[k])
  {
    seq(|walk|, k requires 0 <= k < |walk| => At(es, walk[k]))
  }

  /** The entries of a tree, in order. */
  function Contents(es: seq<SortedEntry>, t: Tree): seq<SortedEntry> { Values(es, Walk(t)) }

  ghost predicate Searchable(es: seq<SortedEntry>, t: Tree, tiebreak: TieBreak) {
    Balanced(t) && Apart(t) && Sorted(Contents(es, t), tiebreak)
  }

  // ----- a place in a sequence around a middle -----

  lemma ContentsSplit(es: seq<SortedEntry>, t: Tree)
    requires t.Branch?
    ensures Contents(es, t) == Contents(es, t.left) + [At(es, t.index)] + Contents(es, t.right)
  {
  }

  lemma SearchableParts(es: seq<SortedEntry>, t: Tree, tiebreak: TieBreak)
    requires Searchable(es, t, tiebreak) && t.Branch?
    ensures Searchable(es, t.left, tiebreak) && Searchable(es, t.right, tiebreak)
    ensures At(es, t.index).contactIndex != PROBE_SECTOR
  {
    ContentsSplit(es, t);
    var l, m, r := Contents(es, t.left), At(es, t.index), Contents(es, t.right);
    SortedParts(l, m, r, tiebreak);
  }

  lemma SortedParts(l: seq<SortedEntry>, m: SortedEntry, r: seq<SortedEntry>, tiebreak: TieBreak)
    requires Sorted(l + [m] + r, tiebreak)
    ensures Sorted(l, tiebreak) && Sorted(r, tiebreak) && m.contactIndex != PROBE_SECTOR
    ensures forall i :: 0 <= i < |l| ==> Less(l[i], m, tiebreak)
    ensures forall i :: 0 <= i < |r| ==> Less(m, r[i], tiebreak)
  {
    var s := l + [m] + r;
    assert s[|l|] == m;
    assert forall i :: 0 <= i < |l| ==> s[i] == l[i];
    forall i | 0 <= i < |r|
      ensures s[|l| + 1 + i] == r[i] && Less(m, r[i], tiebreak) && r[i].contactIndex != PROBE_SECTOR
    {
      assert Less(s[|l|], s[|l| + 1 + i], tiebreak);
    }
    forall i, j | 0 <= i < j < |r|
      ensures Less(r[i], r[j], tiebreak)
    {
      assert Less(s[|l| + 1 + i], s[|l| + 1 + j], tiebreak);
    }
  }

  lemma PlaceLeft(l: seq<SortedEntry>, m: SortedEntry, r: seq<SortedEntry>, e: SortedEntry, tiebreak: TieBreak)
    requires Lawful(tiebreak) && Sorted(l + [m] + r, tiebreak) && e.contactIndex != PROBE_SECTOR && Less(e, m, tiebreak)
    ensures Place(l + [m] + r, e, tiebreak) == Place(l, e, tiebreak) && Present(l + [m] + r, e, tiebreak) == Present(l, e, tiebreak)
  {
    SortedParts(l, m, r, tiebreak);
    PlaceSorted(l, e, tiebreak);
    var s, p := l + [m] + r, Place(l, e, tiebreak);
    OrderTotal(e, m, tiebreak);
    forall i | 0 <= i < |r|
      ensures !Less(r[i], e, tiebreak)
    {
      LessTransitive(e, m, r[i], tiebreak);
      OrderTotal(e, r[i], tiebreak);
    }
    assert PlaceAt(s, e, tiebreak, p);
    PlaceUnique(s, e, tiebreak, p);
    assert s[|l|] == m;
    OrderTotal(m, e, tiebreak);
  }

  lemma PlaceRight(l: seq<SortedEntry>, m: SortedEntry, r: seq<SortedEntry>, e: SortedEntry, tiebreak: TieBreak)
    requires Lawful(tiebreak) && Sorted(l + [m] + r, tiebreak) && Less(m, e, tiebreak)
    ensures Place(l + [m] + r, e, tiebreak) == |l| + 1 + Place(r, e, tiebreak) && Present(l + [m] + r, e, tiebreak) == Present(r, e, tiebreak)
  {
    SortedParts(l, m, r, tiebreak);
    PlaceSorted(r, e, tiebreak);
    var s, p := l + [m] + r, |l| + 1 + Place(r, e, tiebreak);
    forall i | 0 <= i < |l|
      ensures Less(l[i], e, tiebreak)
    {
      LessTransitive(l[i], m, e, tiebreak);
    }
    assert PlaceAt(s, e, tiebreak, p);
    PlaceUnique(s, e, tiebreak, p);
  }

  lemma PlaceMiddle(l: seq<SortedEntry>, m: SortedEntry, r: seq<SortedEntry>, e: SortedEntry, tiebreak: TieBreak)
    requires Lawful(tiebreak) && Sorted(l + [m] + r, tiebreak) && e.contactIndex != PROBE_SECTOR && EntryCmp(m, e, tiebreak) == 0
    ensures Place(l + [m] + r, e, tiebreak) == |l| && Present(l + [m] + r, e, tiebreak)
  {
    SortedParts(l, m, r, tiebreak);
    var s := l + [m] + r;
    forall i | 0 <= i < |l|
      ensures Less(l[i], e, tiebreak)
    {
      LessTransitive(l[i], m, e, tiebreak);
    }
    forall i | 0 <= i < |r|
      ensures !Less(r[i], e, tiebreak)
    {
      OrderTotal(r[i], e, tiebreak);
      OrderTotal(m, e, tiebreak);
      OrderTotal(m, r[i], tiebreak);
    }
    assert PlaceAt(s, e, tiebreak, |l|);
    PlaceUnique(s, e, tiebreak, |l|);
  }

  // ----- insertion -----

  function Inserted(es: seq<SortedEntry>, t: Tree, x: nat, tiebreak: TieBreak): Tree {
    match t
    case Leaf => Branch(x, Leaf, Leaf)
    case Branch(i, l, r) =>
      var c := EntryCmp(At(es, x), At(es, i), tiebreak);
      if c == 0 then t
      else if c < 0 then Rebalanced(i, Inserted(es, l, x, tiebreak), r)
      else Rebalanced(i, l, Inserted(es, r, x, tiebreak))
  }

  /** A sequence of nodes with `x` put where its entry belongs, unless its slot is taken. */
  function WalkWith(es: seq<SortedEntry>, walk: seq<nat>, x: nat, tiebreak: TieBreak): seq<nat> {
    var s := Values(es, walk);
    if Present(s, At(es, x), tiebreak) then walk
    else walk[..Place(s, At(es, x), tiebreak)] + [x] + walk[Place(s, At(es, x), tiebreak)..]
  }

  lemma WithAround(es: seq<SortedEntry>, l: seq<nat>, i: nat, r: seq<nat>, x: nat, tiebreak: TieBreak)
    requires Lawful(tiebreak) && Sorted(Values(es, l + [i] + r), tiebreak) && At(es, x).contactIndex != PROBE_SECTOR
    ensures Less(At(es, x), At(es, i), tiebreak) ==> WalkWith(es, l + [i] + r, x, tiebreak) == WalkWith(es, l, x, tiebreak) + [i] + r
    ensures EntryCmp(At(es, x), At(es, i), tiebreak) > 0 ==> WalkWith(es, l + [i] + r, x, tiebreak) == l + [i] + WalkWith(es, r, x, tiebreak)
    ensures EntryCmp(At(es, x), At(es, i), tiebreak) == 0 ==> WalkWith(es, l + [i] + r, x, tiebreak) == l + [i] + r
    ensures Present(Values(es, l + [i] + r), At(es, x), tiebreak) ==
            if Less(At(es, x), At(es, i), tiebreak) then Present(Values(es, l), At(es, x), tiebreak)
            else if EntryCmp(At(es, x), At(es, i), tiebreak) > 0 then Present(Values(es, r), At(es, x), tiebreak) else true
  {
    ThreeWays(At(es, x), At(es, i), tiebreak);
    ValuesAround(es, l, i, r);
    hide *;
    if Less(At(es, x), At(es, i), tiebreak) {
      WithLess(es, l, i, r, x, tiebreak);
    } else if EntryCmp(At(es, x), At(es, i), tiebreak) > 0 {
      WithGreater(es, l, i, r, x, tiebreak);
    } else {
      WithEqual(es, l, i, r, x, tiebreak);
    }
  }

  lemma ValuesAround(es: seq<SortedEntry>, l: seq<nat>, i: nat, r: seq<nat>)
    ensures Values(es, l + [i] + r) == Values(es, l) + [At(es, i)] + Values(es, r)
    ensures |Values(es, l)| == |l|
  {
  }

  lemma WithLess(es: seq<SortedEntry>, l: seq<nat>, i: nat, r: seq<nat>, x: nat, tiebreak: TieBreak)
    requires Lawful(tiebreak) && Sorted(Values(es, l + [i] + r), tiebreak) && At(es, x).contactIndex != PROBE_SECTOR
    requires Less(At(es, x), At(es, i), tiebreak)
    ensures WalkWith(es, l + [i] + r, x, tiebreak) == WalkWith(es, l, x, tiebreak) + [i] + r
    ensures Present(Values(es, l + [i] + r), At(es, x), tiebreak) == Present(Values(es, l), At(es, x), tiebreak)
  {
    hide *;
    ValuesAround(es, l, i, r);
    WalkWithIs(es, l, x, tiebreak);
    WalkWithIs(es, l + [i] + r, x, tiebreak);
    PlaceLeft(Values(es, l), At(es, i), Values(es, r), At(es, x), tiebreak);
    InsertLeft(l, i, r, Place(Values(es, l), At(es, x), tiebreak), x);
  }

  lemma WithGreater(es: seq<SortedEntry>, l: seq<nat>, i: nat, r: seq<nat>, x: nat, tiebreak: TieBreak)
    requires Lawful(tiebreak) && Sorted(Values(es, l + [i] + r), tiebreak) && At(es, x).contactIndex != PROBE_SECTOR
    requires Less(At(es, i), At(es, x), tiebreak)
    ensures WalkWith(es, l + [i] + r, x, tiebreak) == l + [i] + WalkWith(es, r, x, tiebreak)
    ensures Present(Values(es, l + [i] + r), At(es, x), tiebreak) == Present(Values(es, r), At(es, x), tiebreak)
  {
    hide *;
    ValuesAround(es, l, i, r);
    WalkWithIs(es, r, x, tiebreak);
    WalkWithIs(es, l + [i] + r, x, tiebreak);
    PlaceRight(Values(es, l), At(es, i), Values(es, r), At(es, x), tiebreak);
    InsertRight(l, i, r, Place(Values(es, r), At(es, x), tiebreak), x);
  }

  lemma WithEqual(es: seq<SortedEntry>, l: seq<nat>, i: nat, r: seq<nat>, x: nat, tiebreak: TieBreak)
    requires Lawful(tiebreak) && Sorted(Values(es, l + [i] + r), tiebreak) && At(es, x).contactIndex != PROBE_SECTOR
    requires EntryCmp(At(es, x), At(es, i), tiebreak) == 0 && EntryCmp(At(es, i), At(es, x), tiebreak) == 0
    ensures WalkWith(es, l + [i] + r, x, tiebreak) == l + [i] + r && Present(Values(es, l + [i] + r), At(es, x), tiebreak)
  {
    hide *;
    ValuesAround(es, l, i, r);
    WalkWithIs(es, l + [i] + r, x, tiebreak);
    PlaceMiddle(Values(es, l), At(es, i), Values(es, r), At(es, x), tiebreak);
  }

  lemma WalkWithIs(es: seq<SortedEntry>, walk: seq<nat>, x: nat, tiebreak: TieBreak)
    ensures |Values(es, walk)| == |walk|
    ensures var s := Values(es, walk); var p := Place(s, At(es, x), tiebreak);
      p <= |walk| && WalkWith(es, walk, x, tiebreak) == if Present(s, At(es, x), tiebreak) then walk else walk[..p] + [x] + walk[p..]
  {
  }

  lemma ThreeWays(e: SortedEntry, m: SortedEntry, tiebreak: TieBreak)
    requires Lawful(tiebreak)
    ensures Less(e, m, tiebreak) <==> EntryCmp(e, m, tiebreak) < 0
    ensures Less(m, e, tiebreak) <==> EntryCmp(e, m, tiebreak) > 0
    ensures EntryCmp(e, m, tiebreak) == 0 <==> EntryCmp(m, e, tiebreak) == 0
  {
    OrderTotal(e, m, tiebreak);
    OrderTotal(m, e, tiebreak);
  }

  lemma InsertLeft<T>(l: seq<T>, i: T, r: seq<T>, p: nat, x: T)
    requires p <= |l|
    ensures (l + [i] + r)[..p] + [x] + (l + [i] + r)[p..] == (l[..p] + [x] + l[p..]) + [i] + r
  {
  }

  lemma InsertRight<T>(l: seq<T>, i: T, r: seq<T>, p: nat, x: T)
    requires p <= |r|
    ensures (l + [i] + r)[..|l| + 1 + p] + [x] + (l + [i] + r)[|l| + 1 + p..] == l + [i] + (r[..p] + [x] + r[p..])
  {
  }

  /** Insertion keeps the tree balanced and puts the node where its entry belongs. */
  ghost predicate InsertOk(es: seq<SortedEntry>, t: Tree, now: Tree, x: nat, tiebreak: TieBreak) {
    && Balanced(now) && Apart(now) && Height(t) <= Height(now) <= Height(t) + 1
    && Walk(now) == WalkWith(es, Walk(t), x, tiebreak)
    && (if Present(Contents(es, t), At(es, x), tiebreak) then now == t else Nodes(now) == Nodes(t) + {x})
  }

  lemma {:induction false} InsertedOk(es: seq<SortedEntry>, t: Tree, x: nat, tiebreak: TieBreak)
    requires Lawful(tiebreak) && Searchable(es, t, tiebreak) && x !in Nodes(t) && At(es, x).contactIndex != PROBE_SECTOR
    ensures InsertOk(es, t, Inserted(es, t, x, tiebreak), x, tiebreak)
  {
    hide Lawful, Sorted, WalkWith, Present, EntryCmp, Values, Less, Rebalanced, Balanced, Apart, Height, InsertOk, At;
    match t
    case Leaf =>
      LeafInserted(es, x, tiebreak);
    case Branch(i, l, r) =>
      SearchableParts(es, t, tiebreak);
      ThreeWays(At(es, x), At(es, i), tiebreak);
      var c := EntryCmp(At(es, x), At(es, i), tiebreak);
      if c < 0 {
        InsertedOk(es, l, x, tiebreak);
        InsertedLeft(es, i, Inserted(es, l, x, tiebreak), l, r, x, tiebreak);
      } else if c > 0 {
        InsertedOk(es, r, x, tiebreak);
        InsertedRight(es, i, Inserted(es, r, x, tiebreak), l, r, x, tiebreak);
      } else {
        NotInserted(es, i, l, r, x, tiebreak);
      }
  }

  lemma LeafInserted(es: seq<SortedEntry>, x: nat, tiebreak: TieBreak)
    ensures InsertOk(es, Leaf, Branch(x, Leaf, Leaf), x, tiebreak)
  {
    assert Joins(x, Leaf, Leaf);
  }

  lemma NotInserted(es: seq<SortedEntry>, i: nat, l: Tree, r: Tree, x: nat, tiebreak: TieBreak)
    requires Lawful(tiebreak) && Searchable(es, Branch(i, l, r), tiebreak) && At(es, x).contactIndex != PROBE_SECTOR
    requires EntryCmp(At(es, x), At(es, i), tiebreak) == 0
    ensures InsertOk(es, Branch(i, l, r), Branch(i, l, r), x, tiebreak)
  {
    hide Lawful, Sorted, WalkWith, Present, EntryCmp, Less, At;
    ThreeWays(At(es, x), At(es, i), tiebreak);
    WithAround(es, Walk(l), i, Walk(r), x, tiebreak);
  }

  lemma InsertedLeft(es: seq<SortedEntry>, i: nat, now: Tree, l: Tree, r: Tree, x: nat, tiebreak: TieBreak)
    requires Lawful(tiebreak) && Searchable(es, Branch(i, l, r), tiebreak) && At(es, x).contactIndex != PROBE_SECTOR
    requires x !in Nodes(Branch(i, l, r)) && InsertOk(es, l, now, x, tiebreak) && Less(At(es, x), At(es, i), tiebreak)
    ensures InsertOk(es, Branch(i, l, r), Rebalanced(i, now, r), x, tiebreak)
  {
    hide Lawful, Sorted, WalkWith, Present, EntryCmp, Less, Rebalanced, At;
    WithAround(es, Walk(l), i, Walk(r), x, tiebreak);
    InsertedStep(i, now, r, l, r, x);
    NodesShift(Nodes(l), x, i, Nodes(r));
  }

  lemma NodesShift(a: set<nat>, x: nat, i: nat, b: set<nat>)
    ensures (a + {x}) + {i} + b == a + {i} + b + {x}
    ensures a + {i} + (b + {x}) == a + {i} + b + {x}
  {
  }

  lemma InsertedRight(es: seq<SortedEntry>, i: nat, now: Tree, l: Tree, r: Tree, x: nat, tiebreak: TieBreak)
    requires Lawful(tiebreak) && Searchable(es, Branch(i, l, r), tiebreak) && At(es, x).contactIndex != PROBE_SECTOR
    requires x !in Nodes(Branch(i, l, r)) && InsertOk(es, r, now, x, tiebreak) && Less(At(es, i), At(es, x), tiebreak)
    ensures InsertOk(es, Branch(i, l, r), Rebalanced(i, l, now), x, tiebreak)
  {
    hide Lawful, Sorted, WalkWith, Present, EntryCmp, Less, Rebalanced, At;
    ThreeWays(At(es, x), At(es, i), tiebreak);
    WithAround(es, Walk(l), i, Walk(r), x, tiebreak);
    InsertedStep(i, l, now, l, r, x);
    NodesShift(Nodes(l), x, i, Nodes(r));
  }

  lemma InsertedStep(i: nat, l: Tree, r: Tree, wasL: Tree, wasR: Tree, x: nat)
    requires Balanced(Branch(i, wasL, wasR)) && Apart(Branch(i, wasL, wasR)) && x != i
    requires Balanced(l) && Balanced(r) && Apart(l) && Apart(r) && x !in Nodes(wasL) && x !in Nodes(wasR)
    requires (r == wasR && Height(wasL) <= Height(l) <= Height(wasL) + 1 && (l == wasL || Nodes(l) == Nodes(wasL) + {x}))
             || (l == wasL && Height(wasR) <= Height(r) <= Height(wasR) + 1 && (r == wasR || Nodes(r) == Nodes(wasR) + {x}))
    ensures var was := Branch(i, wasL, wasR); var now := Rebalanced(i, l, r);
      && Balanced(now) && Apart(now) && Height(was) <= Height(now) <= Height(was) + 1
      && Walk(now) == Walk(l) + [i] + Walk(r) && Nodes(now) == Nodes(l) + {i} + Nodes(r)
      && (l == wasL && r == wasR ==> now == was)
  {
    assert Joins(i, wasL, wasR) && Joins(i, l, r);
    assert Nodes(Branch(i, wasL, wasR)) == Nodes(wasL) + {i} + Nodes(wasR);
    hide Rebalanced, Walk, Joins, Nodes;
    RebalanceKeeps(i, l, r);
    RebalanceBalances(i, l, r);
  }

  // ----- removal -----

  /** The smallest node of a subtree, and the subtree without it. */
  function MinOf(t: Tree): nat
    requires t.Branch?
  {
    if t.left.Leaf? then t.index else MinOf(t.left)
  }

  function WithoutMin(t: Tree): Tree
    requires t.Branch?
  {
    if t.left.Leaf? then t.right else Rebalanced(t.index, WithoutMin(t.left), t.right)
  }

  /** Taking the node at the top out: its place goes to the smallest node to its right. */
  function Unlinked(l: Tree, r: Tree): Tree {
    if l.Leaf? then r else if r.Leaf? then l else Rebalanced(MinOf(r), l, WithoutMin(r))
  }

  function Removed(es: seq<SortedEntry>, t: Tree, e: SortedEntry, tiebreak: TieBreak): Tree {
    match t
    case Leaf => Leaf
    case Branch(i, l, r) =>
      var c := EntryCmp(e, At(es, i), tiebreak);
      if c < 0 then Rebalanced(i, Removed(es, l, e, tiebreak), r)
      else if c > 0 then Rebalanced(i, l, Removed(es, r, e, tiebreak))
      else Unlinked(l, r)
  }

  /** A subtree has lost at most one level. */
  predicate Shrunk(was: Tree, now: Tree) {
    Balanced(now) && Apart(now) && Height(was) - 1 <= Height(now) <= Height(was) && Nodes(now) <= Nodes(was)
  }

  lemma ShrunkStep(i: nat, l: Tree, r: Tree, wasL: Tree, wasR: Tree)
    requires Balanced(Branch(i, wasL, wasR)) && Apart(Branch(i, wasL, wasR))
    requires (r == wasR && Shrunk(wasL, l)) || (l == wasL && Shrunk(wasR, r))
    ensures Shrunk(Branch(i, wasL, wasR), Rebalanced(i, l, r)) && Walk(Rebalanced(i, l, r)) == Walk(l) + [i] + Walk(r)
    ensures l == wasL && r == wasR ==> Rebalanced(i, l, r) == Branch(i, wasL, wasR)
    ensures Nodes(Rebalanced(i, l, r)) == Nodes(l) + {i} + Nodes(r)
  {
    assert Joins(i, wasL, wasR) && Joins(i, l, r);
    assert Nodes(Branch(i, wasL, wasR)) == Nodes(wasL) + {i} + Nodes(wasR);
    hide Rebalanced, Walk, Joins, Nodes;
    RebalanceKeeps(i, l, r);
    RebalanceBalances(i, l, r);
  }

  ghost predicate MinOk(t: Tree, m: nat, rest: Tree) {
    Shrunk(t, rest) && m in Nodes(t) && m !in Nodes(rest) && Walk(t) == [m] + Walk(rest)
  }

  lemma {:induction false} MinRemoved(t: Tree)
    requires t.Branch? && Balanced(t) && Apart(t)
    ensures MinOk(t, MinOf(t), WithoutMin(t))
  {
    if t.left.Branch? {
      MinRemoved(t.left);
      MinStep(t.index, t.left, t.right, MinOf(t.left), WithoutMin(t.left));
    } else {
      assert Joins(t.index, t.left, t.right);
    }
  }

  lemma MinStep(i: nat, l: Tree, r: Tree, m: nat, rest: Tree)
    requires Balanced(Branch(i, l, r)) && Apart(Branch(i, l, r)) && MinOk(l, m, rest)
    ensures MinOk(Branch(i, l, r), m, Rebalanced(i, rest, r))
  {
    hide *;
    MinOkParts(l, m, rest);
    ApartOf(i, l, r);
    NodesOf(i, l, r);
    WalkOf(i, l, r);
    ShrunkStep(i, rest, r, l, r);
    assert [m] + Walk(rest) + [i] + Walk(r) == [m] + (Walk(rest) + [i] + Walk(r));
    MinOkOf(Branch(i, l, r), m, Rebalanced(i, rest, r));
  }

  lemma MinOkParts(t: Tree, m: nat, rest: Tree)
    requires MinOk(t, m, rest)
    ensures Shrunk(t, rest) && m in Nodes(t) && m !in Nodes(rest) && Walk(t) == [m] + Walk(rest)
  {
  }

  lemma MinOkOf(t: Tree, m: nat, rest: Tree)
    requires Shrunk(t, rest) && m in Nodes(t) && m !in Nodes(rest) && Walk(t) == [m] + Walk(rest)
    ensures MinOk(t, m, rest)
  {
  }

  lemma ApartOf(i: nat, l: Tree, r: Tree)
    requires Apart(Branch(i, l, r))
    ensures i !in Nodes(l) && i !in Nodes(r) && Nodes(l) !! Nodes(r)
  {
  }

  lemma WalkOf(i: nat, l: Tree, r: Tree)
    ensures Walk(Branch(i, l, r)) == Walk(l) + [i] + Walk(r)
  {
  }

  lemma UnlinkedOk(i: nat, l: Tree, r: Tree)
    requires Balanced(Branch(i, l, r)) && Apart(Branch(i, l, r))
    ensures Shrunk(Branch(i, l, r), Unlinked(l, r)) && Walk(Unlinked(l, r)) == Walk(l) + Walk(r) && i !in Nodes(Unlinked(l, r))
  {
    assert Joins(i, l, r);
    if l.Branch? && r.Branch? {
      MinRemoved(r);
      UnlinkedStep(i, l, r, MinOf(r), WithoutMin(r));
    }
  }

  lemma UnlinkedStep(i: nat, l: Tree, r: Tree, m: nat, rest: Tree)
    requires Balanced(Branch(i, l, r)) && Apart(Branch(i, l, r)) && MinOk(r, m, rest)
    ensures var now := Rebalanced(m, l, rest);
            Shrunk(Branch(i, l, r), now) && Walk(now) == Walk(l) + Walk(r) && i !in Nodes(now)
  {
    hide Rebalanced, Nodes, Walk;
    JoinsMin(i, m, l, r, rest);
    RebalanceKeeps(m, l, rest);
    RebalanceBalances(m, l, rest);
    NodesOf(i, l, r);
    MovedMin(Walk(l), m, Walk(rest));
  }

  lemma NodesOf(i: nat, l: Tree, r: Tree)
    ensures Nodes(Branch(i, l, r)) == Nodes(l) + {i} + Nodes(r)
  {
  }

  lemma MovedMin<T>(l: seq<T>, m: T, rest: seq<T>)
    ensures l + [m] + rest == l + ([m] + rest)
  {
  }

  lemma JoinsMin(i: nat, m: nat, l: Tree, r: Tree, rest: Tree)
    requires Joins(i, l, r) && m in Nodes(r) && m !in Nodes(rest) && Nodes(rest) <= Nodes(r)
    ensures Joins(m, l, rest) && i !in Nodes(l) + {m} + Nodes(rest)
    ensures Nodes(l) + {m} + Nodes(rest) <= Nodes(l) + {i} + Nodes(r)
  {
  }

  /** A sequence of nodes without the one whose entry has `e`'s slot. */
  function WalkWithout(es: seq<SortedEntry>, walk: seq<nat>, e: SortedEntry, tiebreak: TieBreak): seq<nat> {
    var s := Values(es, walk);
    if Present(s, e, tiebreak) then walk[..Place(s, e, tiebreak)] + walk[Place(s, e, tiebreak) + 1..] else walk
  }

  lemma WithoutLeft<T>(l: seq<T>, i: T, r: seq<T>, p: nat)
    requires p < |l|
    ensures (l + [i] + r)[..p] + (l + [i] + r)[p + 1..] == (l[..p] + l[p + 1..]) + [i] + r
  {
  }

  lemma WithoutRight<T>(l: seq<T>, i: T, r: seq<T>, p: nat)
    requires p < |r|
    ensures (l + [i] + r)[..|l| + 1 + p] + (l + [i] + r)[|l| + 1 + p + 1..] == l + [i] + (r[..p] + r[p + 1..])
  {
  }

  lemma WithoutMiddle<T>(l: seq<T>, i: T, r: seq<T>)
    ensures (l + [i] + r)[..|l|] + (l + [i] + r)[|l| + 1..] == l + r
  {
  }

  lemma WithoutAround(es: seq<SortedEntry>, l: seq<nat>, i: nat, r: seq<nat>, e: SortedEntry, tiebreak: TieBreak)
    requires Lawful(tiebreak) && Sorted(Values(es, l + [i] + r), tiebreak) && e.contactIndex != PROBE_SECTOR
    ensures Less(e, At(es, i), tiebreak) ==> WalkWithout(es, l + [i] + r, e, tiebreak) == WalkWithout(es, l, e, tiebreak) + [i] + r
    ensures Less(At(es, i), e, tiebreak) ==> WalkWithout(es, l + [i] + r, e, tiebreak) == l + [i] + WalkWithout(es, r, e, tiebreak)
    ensures EntryCmp(e, At(es, i), tiebreak) == 0 ==> WalkWithout(es, l + [i] + r, e, tiebreak) == l + r
    ensures Present(Values(es, l + [i] + r), e, tiebreak) ==
            if Less(e, At(es, i), tiebreak) then Present(Values(es, l), e, tiebreak)
            else if Less(At(es, i), e, tiebreak) then Present(Values(es, r), e, tiebreak) else true
  {
    hide *;
    var m, vl, vr, all := At(es, i), Values(es, l), Values(es, r), Values(es, l + [i] + r);
    ValuesAround(es, l, i, r);
    ThreeWays(e, m, tiebreak);
    WalkWithoutIs(es, l + [i] + r, e, tiebreak);
    if Less(e, m, tiebreak) {
      WalkWithoutIs(es, l, e, tiebreak);
      PlaceLeft(vl, m, vr, e, tiebreak);
      if Present(vl, e, tiebreak) { WithoutLeft(l, i, r, Place(vl, e, tiebreak)); }
    } else if Less(m, e, tiebreak) {
      WalkWithoutIs(es, r, e, tiebreak);
      PlaceRight(vl, m, vr, e, tiebreak);
      if Present(vr, e, tiebreak) { WithoutRight(l, i, r, Place(vr, e, tiebreak)); }
    } else {
      PlaceMiddle(vl, m, vr, e, tiebreak);
      WithoutMiddle(l, i, r);
    }
  }

  lemma WalkWithoutIs(es: seq<SortedEntry>, walk: seq<nat>, e: SortedEntry, tiebreak: TieBreak)
    ensures |Values(es, walk)| == |walk|
    ensures Present(Values(es, walk), e, tiebreak) ==>
      var p := Place(Values(es, walk), e, tiebreak);
      p < |walk| && WalkWithout(es, walk, e, tiebreak) == walk[..p] + walk[p + 1..]
    ensures !Present(Values(es, walk), e, tiebreak) ==> WalkWithout(es, walk, e, tiebreak) == walk
  {
  }

  /** Removal keeps the tree balanced and takes out exactly the node with the slot of `e`. */
  ghost predicate RemoveOk(es: seq<SortedEntry>, t: Tree, now: Tree, e: SortedEntry, tiebreak: TieBreak) {
    && Shrunk(t, now) && Walk(now) == WalkWithout(es, Walk(t), e, tiebreak)
    && (!Present(Contents(es, t), e, tiebreak) ==> now == t)
  }

  lemma {:induction false} RemovedOk(es: seq<SortedEntry>, t: Tree, e: SortedEntry, tiebreak: TieBreak)
    requires Lawful(tiebreak) && Searchable(es, t, tiebreak) && e.contactIndex != PROBE_SECTOR
    ensures RemoveOk(es, t, Removed(es, t, e, tiebreak), e, tiebreak)
  {
    hide Lawful, Sorted, WalkWithout, Present, EntryCmp, Values, Less, Rebalanced, Shrunk, At, Unlinked, RemoveOk;
    match t
    case Leaf =>
      LeafRemoved(es, e, tiebreak);
    case Branch(i, l, r) =>
      SearchableParts(es, t, tiebreak);
      ThreeWays(e, At(es, i), tiebreak);
      var c := EntryCmp(e, At(es, i), tiebreak);
      if c < 0 {
        RemovedOk(es, l, e, tiebreak);
        RemovedLeft(es, i, Removed(es, l, e, tiebreak), l, r, e, tiebreak);
      } else if c > 0 {
        RemovedOk(es, r, e, tiebreak);
        RemovedRight(es, i, Removed(es, r, e, tiebreak), l, r, e, tiebreak);
      } else {
        RemovedTop(es, i, l, r, e, tiebreak);
      }
  }

  lemma LeafRemoved(es: seq<SortedEntry>, e: SortedEntry, tiebreak: TieBreak)
    ensures RemoveOk(es, Leaf, Leaf, e, tiebreak)
  {
  }

  lemma RemovedLeft(es: seq<SortedEntry>, i: nat, now: Tree, l: Tree, r: Tree, e: SortedEntry, tiebreak: TieBreak)
    requires Lawful(tiebreak) && Searchable(es, Branch(i, l, r), tiebreak) && e.contactIndex != PROBE_SECTOR
    requires RemoveOk(es, l, now, e, tiebreak) && Less(e, At(es, i), tiebreak)
    ensures RemoveOk(es, Branch(i, l, r), Rebalanced(i, now, r), e, tiebreak)
  {
    hide Lawful, Sorted, WalkWithout, Present, EntryCmp, Less, Rebalanced, At, Shrunk;
    WithoutAround(es, Walk(l), i, Walk(r), e, tiebreak);
    ShrunkStep(i, now, r, l, r);
  }

  lemma RemovedRight(es: seq<SortedEntry>, i: nat, now: Tree, l: Tree, r: Tree, e: SortedEntry, tiebreak: TieBreak)
    requires Lawful(tiebreak) && Searchable(es, Branch(i, l, r), tiebreak) && e.contactIndex != PROBE_SECTOR
    requires RemoveOk(es, r, now, e, tiebreak) && Less(At(es, i), e, tiebreak)
    ensures RemoveOk(es, Branch(i, l, r), Rebalanced(i, l, now), e, tiebreak)
  {
    hide Lawful, Sorted, WalkWithout, Present, EntryCmp, Less, Rebalanced, At, Shrunk;
    ThreeWays(e, At(es, i), tiebreak);
    WithoutAround(es, Walk(l), i, Walk(r), e, tiebreak);
    ShrunkStep(i, l, now, l, r);
  }

  lemma RemovedTop(es: seq<SortedEntry>, i: nat, l: Tree, r: Tree, e: SortedEntry, tiebreak: TieBreak)
    requires Lawful(tiebreak) && Searchable(es, Branch(i, l, r), tiebreak) && e.contactIndex != PROBE_SECTOR
    requires EntryCmp(e, At(es, i), tiebreak) == 0
    ensures RemoveOk(es, Branch(i, l, r), Unlinked(l, r), e, tiebreak)
  {
    hide Lawful, Sorted, WalkWithout, Present, EntryCmp, Less, Unlinked, At, Shrunk;
    ThreeWays(e, At(es, i), tiebreak);
    WithoutAround(es, Walk(l), i, Walk(r), e, tiebreak);
    UnlinkedOk(i, l, r);
  }

  // ----- the search path -----

  /** The node that a search for `e` stops at, or NIL. */
  function Target(es: seq<SortedEntry>, t: Tree, e: SortedEntry, tiebreak: TieBreak): nat {
    match t
    case Leaf => NIL
    case Branch(i, l, r) =>
      var c := EntryCmp(e, At(es, i), tiebreak);
      if c == 0 then i else if c < 0 then Target(es, l, e, tiebreak) else Target(es, r, e, tiebreak)
  }

  /** The search finds an entry exactly if it is there, at its place in order. */
  ghost predicate TargetOk(es: seq<SortedEntry>, t: Tree, e: SortedEntry, tiebreak: TieBreak) {
    var s := Contents(es, t);
    if Present(s, e, tiebreak) then Target(es, t, e, tiebreak) == Walk(t)[Place(s, e, tiebreak)]
    else Target(es, t, e, tiebreak) == NIL
  }

  lemma {:induction false} TargetFound(es: seq<SortedEntry>, t: Tree, e: SortedEntry, tiebreak: TieBreak)
    requires Lawful(tiebreak) && Searchable(es, t, tiebreak) && e.contactIndex != PROBE_SECTOR
    ensures TargetOk(es, t, e, tiebreak)
  {
    match t
    case Leaf =>
    case Branch(i, l, r) =>
      hide Lawful, Sorted, Present, Place, EntryCmp, Values, Less, At, Balanced, Apart;
      SearchableParts(es, t, tiebreak);
      ThreeWays(e, At(es, i), tiebreak);
      ContentsSplit(es, t);
      var c := EntryCmp(e, At(es, i), tiebreak);
      var vl, m, vr := Contents(es, l), At(es, i), Contents(es, r);
      PresentInside(es, Walk(l), e, tiebreak);
      PresentInside(es, Walk(r), e, tiebreak);
      if c < 0 {
        TargetFound(es, l, e, tiebreak);
        PlaceLeft(vl, m, vr, e, tiebreak);
      } else if c > 0 {
        TargetFound(es, r, e, tiebreak);
        PlaceRight(vl, m, vr, e, tiebreak);
      } else {
        PlaceMiddle(vl, m, vr, e, tiebreak);
      }
  }

  lemma PresentInside(es: seq<SortedEntry>, walk: seq<nat>, e: SortedEntry, tiebreak: TieBreak)
    ensures |Values(es, walk)| == |walk|
    ensures Present(Values(es, walk), e, tiebreak) ==> Place(Values(es, walk), e, tiebreak) < |walk|
  {
  }

  lemma {:induction false} WalkDistinct(t: Tree)
    requires Apart(t)
    ensures Distinct(Walk(t))
  {
    match t
    case Leaf =>
    case Branch(i, l, r) =>
      WalkDistinct(l);
      WalkDistinct(r);
      WalkNodes(l);
      WalkNodes(r);
      DistinctAround(Walk(l), i, Walk(r));
  }

  lemma DistinctAround(l: seq<nat>, i: nat, r: seq<nat>)
    requires Distinct(l) && Distinct(r) && i !in l && i !in r && forall x <- l :: x !in r
    ensures Distinct(l + [i] + r)
  {
    var s := l + [i] + r;
    forall a, b | 0 <= a < b < |s|
      ensures s[a] != s[b]
    {
      if a < |l| < b { assert l[a] in l && r[b - |l| - 1] in r; }
    }
  }

  /** Removal takes the node that the search stops at out of the tree, and no other. */
  lemma RemovedNodes(es: seq<SortedEntry>, t: Tree, e: SortedEntry, tiebreak: TieBreak)
    requires Lawful(tiebreak) && Searchable(es, t, tiebreak) && e.contactIndex != PROBE_SECTOR && NIL !in Nodes(t)
    ensures var now, target := Removed(es, t, e, tiebreak), Target(es, t, e, tiebreak);
      && Shrunk(t, now) && Nodes(now) == Nodes(t) - {target}
      && (target == NIL <==> !Present(Contents(es, t), e, tiebreak)) && (target != NIL ==> target in Nodes(t))
  {
    var now := Removed(es, t, e, tiebreak);
    RemovedOk(es, t, e, tiebreak);
    TargetFound(es, t, e, tiebreak);
    WalkNodes(t);
    WalkNodes(now);
    WalkDistinct(t);
    hide Lawful, Sorted, Place, EntryCmp, Removed, Target, Balanced, Height;
    var s := Contents(es, t);
    if Present(s, e, tiebreak) {
      PresentInside(es, Walk(t), e, tiebreak);
      DistinctWithout(Walk(t), Place(s, e, tiebreak));
    }
  }

  // ----- the entries themselves -----

  lemma ValuesWith(es: seq<SortedEntry>, walk: seq<nat>, x: nat, tiebreak: TieBreak)
    ensures Values(es, WalkWith(es, walk, x, tiebreak)) == Added(Values(es, walk), At(es, x), tiebreak)
  {
    var s := Values(es, walk);
    var p := Place(s, At(es, x), tiebreak);
    assert s[..p] == Values(es, walk[..p]) && s[p..] == Values(es, walk[p..]);
  }

  lemma ValuesWithout(es: seq<SortedEntry>, walk: seq<nat>, e: SortedEntry, tiebreak: TieBreak)
    ensures Values(es, WalkWithout(es, walk, e, tiebreak)) == Taken(Values(es, walk), e, tiebreak)
  {
    var s := Values(es, walk);
    if Present(s, e, tiebreak) {
      var p := Place(s, e, tiebreak);
      assert s[..p] == Values(es, walk[..p]) && s[p + 1..] == Values(es, walk[p + 1..]);
    }
  }

  lemma ContentsSame(es: seq<SortedEntry>, now: seq<SortedEntry>, t: Tree)
    requires forall k <- Nodes(t) :: At(now, k) == At(es, k)
    ensures Contents(now, t) == Contents(es, t)
  {
    WalkNodes(t);
    forall k | 0 <= k < |Walk(t)|
      ensures At(now, Walk(t)[k]) == At(es, Walk(t)[k])
    {
      assert Walk(t)[k] in Walk(t);
    }
  }

  lemma TakenSorted(s: seq<SortedEntry>, e: SortedEntry, tiebreak: TieBreak)
    requires Sorted(s, tiebreak)
    ensures Sorted(Taken(s, e, tiebreak), tiebreak)
  {
  }

  /** A searchable tree after an insertion, and after a removal. */
  lemma InsertedSearchable(es: seq<SortedEntry>, t: Tree, x: nat, tiebreak: TieBreak)
    requires Lawful(tiebreak) && Searchable(es, t, tiebreak) && x !in Nodes(t) && At(es, x).contactIndex != PROBE_SECTOR
    ensures var now := Inserted(es, t, x, tiebreak); var s := Contents(es, t); var e := At(es, x);
      && Searchable(es, now, tiebreak) && Contents(es, now) == Added(s, e, tiebreak)
      && (NIL !in Nodes(t) ==> (Present(s, e, tiebreak) <==> Target(es, t, e, tiebreak) != NIL))
      && (if Present(s, e, tiebreak) then now == t else Nodes(now) == Nodes(t) + {x} && |Walk(now)| == |Walk(t)| + 1)
  {
    var now := Inserted(es, t, x, tiebreak);
    InsertedOk(es, t, x, tiebreak);
    TargetFound(es, t, At(es, x), tiebreak);
    ValuesWith(es, Walk(t), x, tiebreak);
    AddedSorted(Contents(es, t), At(es, x), tiebreak);
    WalkNodes(t);
    PresentInside(es, Walk(t), At(es, x), tiebreak);
  }

  lemma RemovedSearchable(es: seq<SortedEntry>, t: Tree, e: SortedEntry, tiebreak: TieBreak)
    requires Lawful(tiebreak) && Searchable(es, t, tiebreak) && e.contactIndex != PROBE_SECTOR
    ensures var now := Removed(es, t, e, tiebreak);
      && Searchable(es, now, tiebreak) && Contents(es, now) == Taken(Contents(es, t), e, tiebreak)
      && |Walk(now)| == |Walk(t)| - if Present(Contents(es, t), e, tiebreak) then 1 else 0
  {
    RemovedOk(es, t, e, tiebreak);
    ValuesWithout(es, Walk(t), e, tiebreak);
    TakenSorted(Contents(es, t), e, tiebreak);
    PresentInside(es, Walk(t), e, tiebreak);
  }
}
