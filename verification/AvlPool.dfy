/** The AVL tree in its pool of nodes: links are 16-bit indexes, and the unused nodes are chained
    through their left links. */
module AvlPool {
  import opened Layout
  import opened StorageCard
  import opened FreeLists
  import opened IndexOrder
  import opened AvlTrees
  import opened AvlSearch

  datatype AvlNode = AvlNode(key: Key, contactIndex: nat, messageIndex: nat, left: nat, right: nat, height: int)

  type Pool = seq<AvlNode>

  function EntryOf(node: AvlNode): SortedEntry { SortedEntry(node.key, node.contactIndex, node.messageIndex) }

  function Entries(pool: Pool): (es: seq<SortedEntry>)
    ensures |es| == |pool|
    ensures forall i :: 0 <= i < |pool| ==> es[i] == EntryOf(pool[i])
  {
    seq(|pool|, i requires 0 <= i < |pool| => EntryOf(pool[i]))
  }

  /** The nodes of the pool under link `i` have the shape `t`, with exact heights. */
  predicate Linked(pool: Pool, t: Tree, i: nat) {
    match t
    case Leaf => i == NIL
    case Branch(k, l, r) =>
      && i == k && k < |pool| && k != NIL
      && Linked(pool, l, pool[k].left) && Linked(pool, r, pool[k].right)
      && pool[k].height == Height(t)
  }

  /** The nodes in `free`, chained through their left links. */
  predicate Chained(pool: Pool, free: seq<nat>, i: nat) {
    if free == [] then i == NIL
    else i == free[0] && i < |pool| && i != NIL && Chained(pool, free[1..], pool[i].left)
  }

  lemma {:induction false} LinkedFrame(pool: Pool, now: Pool, t: Tree, i: nat)
    requires Linked(pool, t, i) && |pool| <= |now|
    requires forall k <- Nodes(t) :: k < |pool| ==> now[k] == pool[k]
    ensures Linked(now, t, i)
  {
    match t
    case Leaf =>
    case Branch(k, l, r) =>
      assert k in Nodes(t);
      LinkedFrame(pool, now, l, pool[k].left);
      LinkedFrame(pool, now, r, pool[k].right);
  }

  lemma {:induction false} ChainedFrame(pool: Pool, now: Pool, free: seq<nat>, i: nat)
    requires Chained(pool, free, i) && |pool| <= |now|
    requires forall k <- free :: k < |pool| ==> now[k] == pool[k]
    ensures Chained(now, free, i)
  {
    if free != [] { ChainedFrame(pool, now, free[1..], pool[i].left); }
  }

  lemma {:induction false} LinkedNodes(pool: Pool, t: Tree, i: nat)
    requires Linked(pool, t, i)
    ensures forall k <- Nodes(t) :: k < |pool| && k != NIL
  {
    match t
    case Leaf =>
    case Branch(k, l, r) =>
      LinkedNodes(pool, l, pool[k].left);
      LinkedNodes(pool, r, pool[k].right);
  }

  /** The height stored under a link. */
  function StoredHeight(pool: Pool, i: nat): int { if i < |pool| && i != NIL then pool[i].height else 0 }

  lemma StoredIsHeight(pool: Pool, t: Tree, i: nat)
    requires Linked(pool, t, i)
    ensures StoredHeight(pool, i) == Height(t)
  {
  }

  /** Only the nodes in `touched` have changed, and no entry has. */
  predicate OnlyLinks(pool: Pool, now: Pool, touched: set<nat>) {
    && |now| == |pool| && Entries(now) == Entries(pool)
    && forall k :: 0 <= k < |pool| && k !in touched ==> now[k] == pool[k]
  }

  lemma OnlyLinksTwice(pool: Pool, mid: Pool, now: Pool, a: set<nat>, b: set<nat>, c: set<nat>)
    requires OnlyLinks(pool, mid, a) && OnlyLinks(mid, now, b) && a <= c && b <= c
    ensures OnlyLinks(pool, now, c)
  {
  }

  lemma OnlyLinksSet(pool: Pool, mid: Pool, i: nat, node: AvlNode, touched: set<nat>)
    requires OnlyLinks(pool, mid, touched) && i < |mid| && EntryOf(node) == EntryOf(mid[i])
    ensures OnlyLinks(pool, mid[i := node], touched + {i})
  {
  }

  /** A node whose subtrees are linked, whatever its own height says. */
  ghost predicate Hanging(pool: Pool, i: nat, l: Tree, r: Tree) {
    && i < |pool| && i != NIL && Linked(pool, l, pool[i].left) && Linked(pool, r, pool[i].right)
    && Apart(l) && Apart(r) && Joins(i, l, r)
  }

  /** The node with new links and the height they give. */
  lemma Hangs(pool: Pool, i: nat, l: Tree, r: Tree, li: nat, ri: nat)
    requires i < |pool| && i != NIL && Linked(pool, l, li) && Linked(pool, r, ri) && Apart(l) && Apart(r) && Joins(i, l, r)
    ensures var now := pool[i := pool[i].(left := li, right := ri, height := 1 + Max(Height(l), Height(r)))];
            Linked(now, Branch(i, l, r), i) && Apart(Branch(i, l, r)) && OnlyLinks(pool, now, {i})
  {
    var now := pool[i := pool[i].(left := li, right := ri, height := 1 + Max(Height(l), Height(r)))];
    LinkedFrame(pool, now, l, li);
    LinkedFrame(pool, now, r, ri);
    assert Linked(now, Branch(i, l, r), i);
  }

  /** The pool after a right rotation at `y`. */
  function PoolRight(pool: Pool, y: nat): Pool
    requires y < |pool| && pool[y].left < |pool|
  {
    var x := pool[y].left;
    var low := pool[y].(left := pool[x].right, height := 1 + Max(StoredHeight(pool, pool[x].right), StoredHeight(pool, pool[y].right)));
    pool[y := low][x := pool[x].(right := y, height := 1 + Max(StoredHeight(pool, pool[x].left), low.height))]
  }

  function PoolLeft(pool: Pool, x: nat): Pool
    requires x < |pool| && pool[x].right < |pool|
  {
    var y := pool[x].right;
    var low := pool[x].(right := pool[y].left, height := 1 + Max(StoredHeight(pool, pool[x].left), StoredHeight(pool, pool[y].left)));
    pool[x := low][y := pool[y].(left := x, height := 1 + Max(low.height, StoredHeight(pool, pool[y].right)))]
  }

  lemma JoinsParts(y: nat, l: Tree, r: Tree)
    requires l.Branch? && Apart(l) && Apart(r) && Joins(y, l, r)
    ensures l.index != y && Joins(y, l.right, r) && Joins(y, l.left, r) && Joins(l.index, l.left, Branch(y, l.right, r)) && Joins(l.index, Branch(y, l.left, r), l.right)
    ensures Joins(y, r, l.right) && Joins(y, r, l.left) && Joins(l.index, l.left, Branch(y, r, l.right)) && Joins(l.index, Branch(y, r, l.left), l.right)
  {
    assert Joins(l.index, l.left, l.right);
    assert Nodes(l) == Nodes(l.left) + {l.index} + Nodes(l.right);
  }

  /** The node under `x` on the right, and what hangs there. */
  ghost predicate RightChild(pool: Pool, x: nat, l: Tree, r: Tree)
    requires r.Branch?
  {
    var y, b, c := r.index, r.left, r.right;
    && x < |pool| && x != NIL && y < |pool| && y != NIL && x != y && pool[x].right == y
    && Linked(pool, l, pool[x].left) && Linked(pool, b, pool[y].left) && Linked(pool, c, pool[y].right)
    && Apart(l) && Apart(b) && Apart(c) && Joins(x, l, b) && Joins(y, Branch(x, l, b), c) && x !in Nodes(c)
    && StoredHeight(pool, pool[x].left) == Height(l) && StoredHeight(pool, pool[y].left) == Height(b)
    && StoredHeight(pool, pool[y].right) == Height(c)
  }

  ghost predicate LeftChild(pool: Pool, y: nat, l: Tree, r: Tree)
    requires l.Branch?
  {
    var x, a, b := l.index, l.left, l.right;
    && y < |pool| && y != NIL && x < |pool| && x != NIL && x != y && pool[y].left == x
    && Linked(pool, a, pool[x].left) && Linked(pool, b, pool[x].right) && Linked(pool, r, pool[y].right)
    && Apart(a) && Apart(b) && Apart(r) && Joins(y, b, r) && Joins(x, a, Branch(y, b, r)) && y !in Nodes(a)
    && StoredHeight(pool, pool[x].left) == Height(a) && StoredHeight(pool, pool[x].right) == Height(b)
    && StoredHeight(pool, pool[y].right) == Height(r)
  }

  lemma ChildParts(pool: Pool, i: nat, l: Tree, r: Tree)
    requires Hanging(pool, i, l, r)
    ensures r.Branch? ==> RightChild(pool, i, l, r)
    ensures l.Branch? ==> LeftChild(pool, i, l, r)
  {
    StoredIsHeight(pool, l, pool[i].left);
    StoredIsHeight(pool, r, pool[i].right);
    if r.Branch? {
      assert Joins(i, r, l);
      JoinsParts(i, r, l);
      StoredIsHeight(pool, r.left, pool[r.index].left);
      StoredIsHeight(pool, r.right, pool[r.index].right);
    }
    if l.Branch? {
      JoinsParts(i, l, r);
      StoredIsHeight(pool, l.left, pool[l.index].left);
      StoredIsHeight(pool, l.right, pool[l.index].right);
    }
  }

  lemma RightLinked(pool: Pool, y: nat, l: Tree, r: Tree)
    requires Hanging(pool, y, l, r) && l.Branch?
    ensures y < |pool| && pool[y].left == l.index < |pool| && l.index != NIL
    ensures Linked(PoolRight(pool, y), RotatedRight(Branch(y, l, r)), l.index) && OnlyLinks(pool, PoolRight(pool, y), {y, l.index})
  {
    hide Linked, Hanging, OnlyLinks, Nodes, Joins, Apart, Height, StoredHeight;
    ChildParts(pool, y, l, r);
    var x, a, b := l.index, l.left, l.right;
    Hangs(pool, y, b, r, pool[x].right, pool[y].right);
    var mid := pool[y := pool[y].(left := pool[x].right, right := pool[y].right, height := 1 + Max(Height(b), Height(r)))];
    LinkedFrame(pool, mid, a, pool[x].left);
    Hangs(mid, x, a, Branch(y, b, r), pool[x].left, y);
    OnlyLinksTwice(pool, mid, PoolRight(pool, y), {y}, {x}, {y, x});
    HeightBranch(y, b, r);
  }

  /** The height that a node's children give it. */
  function Raised(pool: Pool, i: nat): Pool
    requires i < |pool|
  {
    pool[i := pool[i].(height := 1 + Max(StoredHeight(pool, pool[i].left), StoredHeight(pool, pool[i].right)))]
  }

  lemma LeftApart(pool: Pool, x: nat, l: Tree, r: Tree)
    requires Hanging(pool, x, l, r) && r.Branch?
    ensures x < |pool| && x != NIL && pool[x].right == r.index < |pool| && r.index != x && pool[r.index].right != x
  {
    ChildParts(pool, x, l, r);
    LinkedEnds(pool, r.right, pool[r.index].right);
    if r.right.Branch? { assert r.right.index in Nodes(r.right); }
    assert Nodes(r) == Nodes(r.left) + {r.index} + Nodes(r.right);
  }

  lemma LeftSteps(pool: Pool, x: nat)
    requires x < |pool| && x != NIL && pool[x].right < |pool| && pool[x].right != x && pool[pool[x].right].right != x
    ensures var y := pool[x].right; var turned := pool[x := pool[x].(right := pool[y].left)];
      Raised(Raised(turned[y := turned[y].(left := x)], x), y) == PoolLeft(pool, x)
  {
  }

  lemma RightApart(pool: Pool, y: nat, l: Tree, r: Tree)
    requires Hanging(pool, y, l, r) && l.Branch?
    ensures y < |pool| && y != NIL && pool[y].left == l.index < |pool| && l.index != y && pool[l.index].left != y
  {
    ChildParts(pool, y, l, r);
    LinkedEnds(pool, l.left, pool[l.index].left);
    if l.left.Branch? { assert l.left.index in Nodes(l.left); }
    assert Nodes(l) == Nodes(l.left) + {l.index} + Nodes(l.right);
  }

  lemma RightSteps(pool: Pool, y: nat)
    requires y < |pool| && y != NIL && pool[y].left < |pool| && pool[y].left != y && pool[pool[y].left].left != y
    ensures var x := pool[y].left; var turned := pool[y := pool[y].(left := pool[x].right)];
      Raised(Raised(turned[x := turned[x].(right := y)], y), x) == PoolRight(pool, y)
  {
  }

  lemma LeftLinked(pool: Pool, x: nat, l: Tree, r: Tree)
    requires Hanging(pool, x, l, r) && r.Branch?
    ensures x < |pool| && pool[x].right == r.index < |pool| && r.index != NIL
    ensures Linked(PoolLeft(pool, x), RotatedLeft(Branch(x, l, r)), r.index) && OnlyLinks(pool, PoolLeft(pool, x), {x, r.index})
  {
    hide Linked, Hanging, OnlyLinks, Nodes, Joins, Apart, Height, StoredHeight;
    ChildParts(pool, x, l, r);
    var y, b, c := r.index, r.left, r.right;
    Hangs(pool, x, l, b, pool[x].left, pool[y].left);
    var mid := pool[x := pool[x].(left := pool[x].left, right := pool[y].left, height := 1 + Max(Height(l), Height(b)))];
    LinkedFrame(pool, mid, c, pool[y].right);
    Hangs(mid, y, Branch(x, l, b), c, x, pool[y].right);
    OnlyLinksTwice(pool, mid, PoolLeft(pool, x), {x}, {y}, {x, y});
    HeightBranch(x, l, b);
  }

  lemma HangingLinked(pool: Pool, i: nat, l: Tree, r: Tree)
    requires Hanging(pool, i, l, r) && pool[i].height == 1 + Max(Height(l), Height(r))
    ensures Linked(pool, Branch(i, l, r), i)
  {
  }

  lemma HeightBranch(i: nat, l: Tree, r: Tree)
    ensures Height(Branch(i, l, r)) == 1 + Max(Height(l), Height(r))
  {
  }

  /** A subtree outside what has changed. */
  lemma LinkedKept(pool: Pool, mid: Pool, now: Pool, t: Tree, i: nat, touched: set<nat>)
    requires Linked(pool, t, i) && OnlyLinks(pool, mid, touched) && Nodes(t) !! touched
    requires |now| == |mid| && forall k :: 0 <= k < |mid| && k !in touched ==> now[k] == mid[k]
    ensures Linked(now, t, i)
  {
    LinkedFrame(pool, mid, t, i);
    LinkedFrame(mid, now, t, i);
  }

  /** The left subtree is replaced by another, over nodes that are not in the right one. */
  lemma {:induction false} SubLeft(pool: Pool, mid: Pool, i: nat, r: Tree, l2: Tree, li: nat, touched: set<nat>)
    requires i < |pool| && i != NIL && Linked(pool, r, pool[i].right) && Apart(r) && i !in Nodes(r)
    requires OnlyLinks(pool, mid, touched) && i !in touched && touched !! Nodes(r)
    requires Linked(mid, l2, li) && Apart(l2) && Nodes(l2) <= touched
    ensures var now := mid[i := mid[i].(left := li)]; Hanging(now, i, l2, r) && OnlyLinks(pool, now, touched + {i})
  {
    var now := mid[i := mid[i].(left := li)];
    hide Linked, Apart, Nodes, Entries;
    OnlyLinksSet(pool, mid, i, mid[i].(left := li), touched);
    LinkedKept(pool, mid, now, r, pool[i].right, touched + {i});
    LinkedKept(mid, mid, now, l2, li, {i});
  }

  lemma {:induction false} SubRight(pool: Pool, mid: Pool, i: nat, l: Tree, r2: Tree, ri: nat, touched: set<nat>)
    requires i < |pool| && i != NIL && Linked(pool, l, pool[i].left) && Apart(l) && i !in Nodes(l)
    requires OnlyLinks(pool, mid, touched) && i !in touched && touched !! Nodes(l)
    requires Linked(mid, r2, ri) && Apart(r2) && Nodes(r2) <= touched
    ensures var now := mid[i := mid[i].(right := ri)]; Hanging(now, i, l, r2) && OnlyLinks(pool, now, touched + {i})
  {
    var now := mid[i := mid[i].(right := ri)];
    hide Linked, Apart, Nodes, Entries;
    OnlyLinksSet(pool, mid, i, mid[i].(right := ri), touched);
    LinkedKept(pool, mid, now, l, pool[i].left, touched + {i});
    LinkedKept(mid, mid, now, r2, ri, {i});
  }

  /** A linked branch, taken apart. */
  lemma BranchParts(pool: Pool, t: Tree, i: nat)
    requires Linked(pool, t, i) && Apart(t) && t.Branch?
    ensures i == t.index < |pool| && i != NIL && Nodes(t) == Nodes(t.left) + {i} + Nodes(t.right)
    ensures Hanging(pool, i, t.left, t.right) && Linked(pool, t.left, pool[i].left) && Linked(pool, t.right, pool[i].right)
    ensures Apart(t.left) && Apart(t.right) && i !in Nodes(t.left) && i !in Nodes(t.right) && Nodes(t.left) !! Nodes(t.right)
  {
    assert Joins(t.index, t.left, t.right);
  }

  lemma HangsHeights(pool: Pool, i: nat, l: Tree, r: Tree)
    requires Hanging(pool, i, l, r)
    ensures i < |pool| && StoredHeight(pool, pool[i].left) == Height(l) && StoredHeight(pool, pool[i].right) == Height(r)
    ensures l.Branch? ==> pool[i].left == l.index < |pool| && Hanging(pool, l.index, l.left, l.right)
    ensures r.Branch? ==> pool[i].right == r.index < |pool| && Hanging(pool, r.index, r.left, r.right)
    ensures l.Branch? ==> StoredHeight(pool, pool[l.index].left) == Height(l.left) && StoredHeight(pool, pool[l.index].right) == Height(l.right)
    ensures r.Branch? ==> StoredHeight(pool, pool[r.index].left) == Height(r.left) && StoredHeight(pool, pool[r.index].right) == Height(r.right)
  {
    StoredIsHeight(pool, l, pool[i].left);
    StoredIsHeight(pool, r, pool[i].right);
    if l.Branch? {
      StoredIsHeight(pool, l.left, pool[l.index].left);
      StoredIsHeight(pool, l.right, pool[l.index].right);
    }
    if r.Branch? {
      StoredIsHeight(pool, r.left, pool[r.index].left);
      StoredIsHeight(pool, r.right, pool[r.index].right);
    }
  }

  lemma HangsSame(pool: Pool, i: nat, l: Tree, r: Tree)
    requires Hanging(pool, i, l, r)
    ensures i < |pool| && Apart(l) && Apart(r) && OnlyLinks(pool, pool, Nodes(l)) && OnlyLinks(pool, pool, Nodes(r))
    ensures OnlyLinks(pool, pool, Nodes(l) + {i}) && OnlyLinks(pool, pool, Nodes(r) + {i})
    ensures i != NIL && i !in Nodes(l) && i !in Nodes(r) && Nodes(l) !! Nodes(r)
    ensures Linked(pool, l, pool[i].left) && Linked(pool, r, pool[i].right)
  {
  }

  /** The shapes that rebalancing gives, and the nodes at their tops. */
  lemma LeanParts(i: nat, l: Tree, r: Tree)
    ensures Height(l) - Height(r) > 1 ==> LeansRight(i, l, r)
    ensures Height(l) - Height(r) < -1 ==> LeansLeft(i, l, r)
  {
  }

  predicate LeansRight(i: nat, l: Tree, r: Tree) {
    && l.Branch? && Branch(l.index, l.left, l.right) == l && l.index in Nodes(l)
    && if Height(l.left) < Height(l.right) then
         && l.right.Branch? && l.right.index in Nodes(l) && RotatedLeft(l).Branch? && RotatedLeft(l).index == l.right.index
         && Rebalanced(i, l, r) == RotatedRight(Branch(i, RotatedLeft(l), r))
       else
         Rebalanced(i, l, r) == RotatedRight(Branch(i, l, r))
  }

  predicate LeansLeft(i: nat, l: Tree, r: Tree) {
    && r.Branch? && Branch(r.index, r.left, r.right) == r && r.index in Nodes(r)
    && if Height(r.right) < Height(r.left) then
         && r.left.Branch? && r.left.index in Nodes(r) && RotatedRight(r).Branch? && RotatedRight(r).index == r.left.index
         && Rebalanced(i, l, r) == RotatedLeft(Branch(i, l, RotatedRight(r)))
       else
         Rebalanced(i, l, r) == RotatedLeft(Branch(i, l, r))
  }

  lemma HangsUpdated(pool: Pool, i: nat, l: Tree, r: Tree, height: int)
    requires Hanging(pool, i, l, r)
    ensures var now := pool[i := pool[i].(height := height)]; Hanging(now, i, l, r) && OnlyLinks(pool, now, {i})
  {
    var now := pool[i := pool[i].(height := height)];
    LinkedFrame(pool, now, l, pool[i].left);
    LinkedFrame(pool, now, r, pool[i].right);
  }

  /** Tree and free chain share the pool out between them. */
  ghost predicate PoolOk(pool: Pool, tree: Tree, root: nat, free: seq<nat>, freeHead: nat) {
    Linked(pool, tree, root) && Chained(pool, free, freeHead) && Partition(free, Nodes(tree), |pool|)
  }

  lemma {:induction false} RangeChained(pool: Pool, a: nat)
    requires a <= |pool| <= MAX_ENTRIES && forall k :: 0 <= k < |pool| ==> pool[k].left == if k == |pool| - 1 then NIL else k + 1
    ensures Chained(pool, Range(a, |pool|), if a < |pool| then a else NIL)
    decreases |pool| - a
  {
    if a < |pool| {
      assert Range(a, |pool|)[1..] == Range(a + 1, |pool|);
      RangeChained(pool, a + 1);
    }
  }

  /** The pool is full exactly when the free chain is empty. */
  lemma FreeCount(pool: Pool, tree: Tree, root: nat, free: seq<nat>, freeHead: nat)
    requires PoolOk(pool, tree, root, free, freeHead) && Apart(tree)
    ensures freeHead == NIL <==> |Walk(tree)| == |pool|
    ensures |free| + |Walk(tree)| == |pool|
  {
    LinkedNodes(pool, tree, root);
    PartitionSize(free, Nodes(tree), |pool|);
    WalkSize(tree);
  }

  /** A node taken off the free chain and filled. */
  lemma {:induction false} Allocated(pool: Pool, tree: Tree, root: nat, free: seq<nat>, freeHead: nat, node: AvlNode, tiebreak: TieBreak)
    requires PoolOk(pool, tree, root, free, freeHead) && Searchable(Entries(pool), tree, tiebreak) && freeHead != NIL && |pool| <= MAX_ENTRIES
    requires node.left == node.right == NIL && node.height == 1
    ensures freeHead < |pool| && freeHead !in Nodes(tree) && NIL !in Nodes(tree) && free != []
    ensures var now := pool[freeHead := node];
      && Linked(now, tree, root) && Linked(now, Branch(freeHead, Leaf, Leaf), freeHead)
      && Contents(Entries(now), tree) == Contents(Entries(pool), tree) && Searchable(Entries(now), tree, tiebreak)
      && At(Entries(now), freeHead) == EntryOf(node)
  {
    var now := pool[freeHead := node];
    assert free[0] in free;
    LinkedNodes(pool, tree, root);
    LinkedFrame(pool, now, tree, root);
    ContentsSame(Entries(pool), Entries(now), tree);
  }

  /** The free chain after an insertion, whether the node was used or not. */
  lemma {:induction false} InsertFree(pool: Pool, filled: Pool, now: Pool, tree: Tree, root: nat, free: seq<nat>, x: nat, newTree: Tree, newRoot: nat)
    requires PoolOk(pool, tree, root, free, x) && x != NIL && x < |pool| == |filled| && filled == pool[x := filled[x]]
    requires OnlyLinks(filled, now, Nodes(tree) + {x}) && Linked(now, newTree, newRoot)
    ensures free != []
    ensures Nodes(newTree) == Nodes(tree) + {x} ==> PoolOk(now, newTree, newRoot, free[1..], pool[x].left)
    ensures newTree == tree && x !in Nodes(tree) ==> PoolOk(now[x := now[x].(left := pool[x].left)], tree, newRoot, free, x)
  {
    var rest := free[1..];
    assert forall k <- rest :: k in free && k != x;
    ChainedFrame(pool, now, rest, pool[x].left);
    if Nodes(newTree) == Nodes(tree) + {x} {
      assert free == [x] + rest;
    }
    if newTree == tree && x !in Nodes(tree) {
      var back := now[x := now[x].(left := pool[x].left)];
      ChainedFrame(pool, back, rest, pool[x].left);
      LinkedFrame(now, back, tree, newRoot);
    }
  }

  lemma PoolLinked(pool: Pool, tree: Tree, root: nat, free: seq<nat>, freeHead: nat)
    requires PoolOk(pool, tree, root, free, freeHead)
    ensures Linked(pool, tree, root) && NIL !in Nodes(tree) && forall k <- Nodes(tree) :: k < |pool|
  {
    LinkedNodes(pool, tree, root);
  }

  /** The free chain after a removal. */
  lemma {:induction false} RemoveFree(pool: Pool, now: Pool, tree: Tree, root: nat, free: seq<nat>, freeHead: nat, newTree: Tree, newRoot: nat, x: nat)
    requires PoolOk(pool, tree, root, free, freeHead)
    requires OnlyLinks(pool, now, Nodes(tree)) && Linked(now, newTree, newRoot) && Nodes(newTree) == Nodes(tree) - {x}
    ensures x == NIL ==> PoolOk(now, newTree, newRoot, free, freeHead)
    ensures x != NIL && x in Nodes(tree) && x < |now| && now[x].left == freeHead ==> PoolOk(now, newTree, newRoot, [x] + free, x)
  {
    LinkedNodes(pool, tree, root);
    ChainedFrame(pool, now, free, freeHead);
    if x != NIL && x in Nodes(tree) && x < |now| && now[x].left == freeHead {
      assert ([x] + free)[1..] == free;
      var all := [x] + free;
      forall y | 0 <= y < |now| && y !in Nodes(newTree)
        ensures y in all
      {
        if y != x { assert y in free; }
      }
    }
  }

  lemma NotTaken(s: seq<SortedEntry>, e: SortedEntry, tiebreak: TieBreak)
    requires !Present(s, e, tiebreak)
    ensures Taken(s, e, tiebreak) == s
  {
  }

  /** Another message for a node. */
  lemma {:induction false} MarkedNode(pool: Pool, tree: Tree, root: nat, free: seq<nat>, freeHead: nat, e: SortedEntry, m: nat, tiebreak: TieBreak)
    requires PoolOk(pool, tree, root, free, freeHead) && Searchable(Entries(pool), tree, tiebreak) && Lawful(tiebreak)
    requires e.contactIndex != PROBE_SECTOR
    ensures var s, i := Contents(Entries(pool), tree), Target(Entries(pool), tree, e, tiebreak);
      && (i == NIL <==> !Present(s, e, tiebreak))
      && (i == NIL ==> Marked(s, e, m, tiebreak) == s)
      && (i != NIL ==> i < |pool|)
    ensures var s, i := Contents(Entries(pool), tree), Target(Entries(pool), tree, e, tiebreak);
      i != NIL ==>
        var now := pool[i := pool[i].(messageIndex := m)];
        && PoolOk(now, tree, root, free, freeHead) && Searchable(Entries(now), tree, tiebreak)
        && Contents(Entries(now), tree) == Marked(s, e, m, tiebreak)
  {
    hide Lawful, Balanced, Target, Place, Present, EntryCmp;
    var es, i := Entries(pool), Target(Entries(pool), tree, e, tiebreak);
    PoolLinked(pool, tree, root, free, freeHead);
    TargetFound(es, tree, e, tiebreak);
    PresentInside(es, Walk(tree), e, tiebreak);
    WalkNodes(tree);
    NotMarked(Contents(es, tree), e, m, tiebreak);
    if i != NIL {
      var now := pool[i := pool[i].(messageIndex := m)];
      LinkedLinks(pool, now, tree, root);
      ChainedFrame(pool, now, free, freeHead);
      WalkDistinct(tree);
      MarkedContents(es, Entries(now), Walk(tree), Place(Contents(es, tree), e, tiebreak), i, m);
      MarkedSorted(Contents(es, tree), e, m, tiebreak);
    }
  }

  lemma NotMarked(s: seq<SortedEntry>, e: SortedEntry, m: nat, tiebreak: TieBreak)
    ensures Present(s, e, tiebreak) ==>
      Place(s, e, tiebreak) < |s| && Marked(s, e, m, tiebreak) == s[Place(s, e, tiebreak) := s[Place(s, e, tiebreak)].(messageIndex := m)]
    ensures !Present(s, e, tiebreak) ==> Marked(s, e, m, tiebreak) == s
  {
  }

  lemma MarkedContents(es: seq<SortedEntry>, now: seq<SortedEntry>, walk: seq<nat>, p: nat, i: nat, m: nat)
    requires p < |walk| && walk[p] == i && Distinct(walk) && i < |es| == |now| && now == es[i := es[i].(messageIndex := m)]
    ensures Values(now, walk) == Values(es, walk)[p := Values(es, walk)[p].(messageIndex := m)]
  {
  }

  lemma MarkedSorted(s: seq<SortedEntry>, e: SortedEntry, m: nat, tiebreak: TieBreak)
    requires Sorted(s, tiebreak)
    ensures Sorted(Marked(s, e, m, tiebreak), tiebreak)
  {
  }

  lemma {:induction false} LinkedLinks(pool: Pool, now: Pool, t: Tree, i: nat)
    requires Linked(pool, t, i) && |now| == |pool|
    requires forall k :: 0 <= k < |pool| ==> now[k].left == pool[k].left && now[k].right == pool[k].right && now[k].height == pool[k].height
    ensures Linked(now, t, i)
  {
    match t
    case Leaf =>
    case Branch(k, l, r) =>
      LinkedLinks(pool, now, l, pool[k].left);
      LinkedLinks(pool, now, r, pool[k].right);
  }

  lemma RangePartition(capacity: nat)
    ensures Partition(Range(0, capacity), {}, capacity)
  {
    forall k | 0 <= k < capacity
      ensures k in Range(0, capacity)
    {
      assert Range(0, capacity)[k] == k;
    }
  }

  class AvlTree {
    const n: array<AvlNode>
    const tiebreak: TieBreak
    var root: nat
    var freeHead: nat
    var count: nat
    // the shape of the tree, and the free nodes in chain order
    ghost var tree: Tree
    ghost var free: seq<nat>

    ghost predicate Valid()
      reads this, n
    {
      && 0 < n.Length <= MAX_ENTRIES && Lawful(tiebreak)
      && PoolOk(n[..], tree, root, free, freeHead) && Searchable(Entries(n[..]), tree, tiebreak) && count == |Walk(tree)|
    }

    /** The entries, in order. */
    ghost function Index(): seq<SortedEntry>
      reads this, n
    {
      Contents(Entries(n[..]), tree)
    }

    constructor (capacity: nat, tiebreak: TieBreak)
      requires 0 < capacity <= MAX_ENTRIES && Lawful(tiebreak)
      ensures Valid() && fresh(n) && n.Length == capacity && this.tiebreak == tiebreak && Index() == []
    {
      n := new AvlNode[capacity](_ => AvlNode([0, 0, 0, 0, 0, 0, 0, 0], 0, 0, 0, 0, 0));
      this.tiebreak := tiebreak;
      new;
      Init();
    }

    /** Empties the tree and chains every node onto the free list. */
    method Init()
      requires 0 < n.Length <= MAX_ENTRIES && Lawful(tiebreak)
      modifies this, n
      ensures Valid() && Index() == []
    {
      for i := 0 to n.Length
        invariant forall k :: 0 <= k < i ==> n[k].left == k + 1
      {
        n[i] := n[i].(left := i + 1);
      }
      n[n.Length - 1] := n[n.Length - 1].(left := NIL);
      freeHead, root, count := 0, NIL, 0;
      tree, free := Leaf, Range(0, n.Length);
      RangeChained(n[..], 0);
      RangePartition(n.Length);
      assert Walk(Leaf) == [];
    }

    /** Inserts an entry, unless the pool is full or its slot is there already. */
    method Insert(key: Key, contactIndex: nat) returns (ok: bool)
      requires Valid() && contactIndex != PROBE_SECTOR
      modifies this, n
      ensures Valid()
      ensures var e := SortedEntry(key, contactIndex, NO_MESSAGE);
        && (ok <==> |old(Index())| < n.Length && !Present(old(Index()), e, tiebreak))
        && Index() == if ok then Added(old(Index()), e, tiebreak) else old(Index())
    {
      hide PoolOk, Lawful, Searchable, Present, Added, Contents, Inserted, Linked, Chained, Entries;
      ghost var pool, es, e := n[..], Entries(n[..]), SortedEntry(key, contactIndex, NO_MESSAGE);
      SearchApart(es, tree, tiebreak);
      FreeCount(pool, tree, root, free, freeHead);
      IndexCount(es, tree);
      var x := freeHead;
      if x == NIL {
        return false;
      }
      ok := InsertNode(x, key, contactIndex);
    }

    method InsertNode(x: nat, key: Key, contactIndex: nat) returns (ok: bool)
      requires Valid() && contactIndex != PROBE_SECTOR && x == freeHead && x != NIL
      modifies this, n
      ensures Valid()
      ensures var e := SortedEntry(key, contactIndex, NO_MESSAGE);
        && (ok <==> !Present(old(Index()), e, tiebreak))
        && Index() == if ok then Added(old(Index()), e, tiebreak) else old(Index())
    {
      hide PoolOk, Lawful, Searchable, Present, Added, Contents, Inserted, Linked, Target, Place;
      ghost var pool, es, e := n[..], Entries(n[..]), SortedEntry(key, contactIndex, NO_MESSAGE);
      var node := AvlNode(key, contactIndex, NO_MESSAGE, NIL, NIL, 1);
      Allocated(pool, tree, root, free, freeHead, node, tiebreak);
      freeHead := n[x].left;
      n[x] := node;
      ghost var filled := n[..];
      ghost var now := Entries(filled);
      InsertedSearchable(now, tree, x, tiebreak);
      ghost var wasRoot := root;
      root, ok := InsertRec(root, x, tree);
      InsertFree(pool, filled, n[..], tree, wasRoot, free, x, Inserted(now, tree, x, tiebreak), root);
      if ok {
        tree, free := Inserted(now, tree, x, tiebreak), free[1..];
        count := count + 1;
      } else {
        OneLink(n[..], x, freeHead);
        NodeFree(x);
      }
    }

    /** Removes the entry with this slot. */
    method Remove(key: Key, contactIndex: nat) returns (ok: bool)
      requires Valid() && contactIndex != PROBE_SECTOR
      modifies this, n
      ensures Valid()
      ensures var e := SortedEntry(key, contactIndex, NO_MESSAGE);
        && (ok <==> Present(old(Index()), e, tiebreak)) && Index() == Taken(old(Index()), e, tiebreak)
    {
      hide PoolOk, Lawful, Searchable, Present, Taken, Contents, Removed, Linked, Target, Place;
      ghost var pool, es, was, e := n[..], Entries(n[..]), root, SortedEntry(key, contactIndex, NO_MESSAGE);
      PoolLinked(pool, tree, root, free, freeHead);
      RemovedSearchable(es, tree, e, tiebreak);
      RemovedNodes(es, tree, e, tiebreak);
      ghost var target := Target(es, tree, e, tiebreak);
      root, ok := RemoveRec(root, SortedEntry(key, contactIndex, NO_MESSAGE), tree);
      RemoveFree(pool, n[..], tree, was, free, old(freeHead), Removed(es, tree, e, tiebreak), root, target);
      tree := Removed(es, tree, e, tiebreak);
      if ok {
        free := [target] + free;
        count := count - 1;
      } else {
        NotTaken(Contents(es, old(tree)), e, tiebreak);
      }
    }

    /** The node of an entry, or NIL. */
    method FindExact(e: SortedEntry) returns (i: nat)
      requires Valid()
      ensures i == Target(Entries(n[..]), tree, e, tiebreak)
    {
      hide Lawful, Searchable, EntryCmp, Partition, Chained;
      i := root;
      ghost var sub := tree;
      while i != NIL
        invariant Linked(n[..], sub, i) && Target(Entries(n[..]), sub, e, tiebreak) == Target(Entries(n[..]), tree, e, tiebreak)
        decreases sub
      {
        LinkedEnds(n[..], sub, i);
        var c := CmpAt(e, i);
        if c == 0 {
          return i;
        }
        i, sub := if c < 0 then n[i].left else n[i].right, if c < 0 then sub.left else sub.right;
      }
      LinkedEnds(n[..], sub, i);
    }

    /** Changes the message of an entry in place. */
    method SetMessage(key: Key, contactIndex: nat, messageIndex: nat) returns (ok: bool)
      requires Valid() && contactIndex != PROBE_SECTOR
      modifies n
      ensures Valid()
      ensures var e := SortedEntry(key, contactIndex, NO_MESSAGE);
        && (ok <==> Present(old(Index()), e, tiebreak)) && Index() == Marked(old(Index()), e, messageIndex, tiebreak)
    {
      hide PoolOk, Lawful, Searchable, Present, Marked, Contents, Linked, Target, Place;
      ghost var pool, e := n[..], SortedEntry(key, contactIndex, NO_MESSAGE);
      PoolLinked(pool, tree, root, free, freeHead);
      var i := FindExact(SortedEntry(key, contactIndex, NO_MESSAGE));
      MarkedNode(pool, tree, root, free, freeHead, e, messageIndex, tiebreak);
      ok := i != NIL;
      if ok {
        n[i] := n[i].(messageIndex := messageIndex);
      }
    }

    method UpdateHeight(i: nat)
      requires i < n.Length
      modifies n
      ensures n[..] == Raised(old(n[..]), i)
    {
      var hl, hr := HeightAt(n[i].left), HeightAt(n[i].right);
      n[i] := n[i].(height := 1 + if hl > hr then hl else hr);
    }

    function HeightAt(i: nat): (h: int)
      reads n
      ensures h == StoredHeight(n[..], i)
    {
      if i == NIL || i >= n.Length then 0 else n[i].height
    }

    method RotateRight(y: nat, ghost l: Tree, ghost r: Tree) returns (x: nat)
      requires Hanging(n[..], y, l, r) && l.Branch?
      modifies n
      ensures x == l.index && Linked(n[..], RotatedRight(Branch(y, l, r)), x) && OnlyLinks(old(n[..]), n[..], {y, l.index})
    {
      hide *;
      ghost var pool := n[..];
      RightLinked(pool, y, l, r);
      RightApart(pool, y, l, r);
      x := n[y].left;
      n[y] := n[y].(left := n[x].right);
      n[x] := n[x].(right := y);
      UpdateHeight(y);
      UpdateHeight(x);
      RightSteps(pool, y);
    }

    method RotateLeft(x: nat, ghost l: Tree, ghost r: Tree) returns (y: nat)
      requires Hanging(n[..], x, l, r) && r.Branch?
      modifies n
      ensures y == r.index && Linked(n[..], RotatedLeft(Branch(x, l, r)), y) && OnlyLinks(old(n[..]), n[..], {x, r.index})
    {
      hide *;
      ghost var pool := n[..];
      LeftLinked(pool, x, l, r);
      LeftApart(pool, x, l, r);
      y := n[x].right;
      n[x] := n[x].(right := n[y].left);
      n[y] := n[y].(left := x);
      UpdateHeight(x);
      UpdateHeight(y);
      LeftSteps(pool, x);
    }

    /** Restores the balance at node `i`: single and double rotations to either side. */
    method Rebalance(i: nat, ghost l: Tree, ghost r: Tree) returns (top: nat)
      requires Hanging(n[..], i, l, r)
      modifies n
      ensures Linked(n[..], Rebalanced(i, l, r), top) && OnlyLinks(old(n[..]), n[..], Nodes(l) + {i} + Nodes(r))
    {
      hide Linked, Hanging, OnlyLinks, Nodes;
      ghost var pool := n[..];
      HangsHeights(pool, i, l, r);
      HangsUpdated(pool, i, l, r, 1 + Max(Height(l), Height(r)));
      UpdateHeight(i);
      var bf := HeightAt(n[i].left) - HeightAt(n[i].right);
      ghost var mid := n[..];
      HangsHeights(mid, i, l, r);
      if bf > 1 {
        top := LeanRight(i, l, r);
        OnlyLinksTwice(pool, mid, n[..], {i}, Nodes(l) + {i}, Nodes(l) + {i} + Nodes(r));
      } else if bf < -1 {
        top := LeanLeft(i, l, r);
        OnlyLinksTwice(pool, mid, n[..], {i}, Nodes(r) + {i}, Nodes(l) + {i} + Nodes(r));
      } else {
        HangingLinked(mid, i, l, r);
        OnlyLinksTwice(pool, mid, mid, {i}, {i}, Nodes(l) + {i} + Nodes(r));
        top := i;
      }
    }

    method LeanRight(i: nat, ghost l: Tree, ghost r: Tree) returns (top: nat)
      requires Hanging(n[..], i, l, r) && Height(l) - Height(r) > 1
      modifies n
      ensures Linked(n[..], Rebalanced(i, l, r), top) && OnlyLinks(old(n[..]), n[..], Nodes(l) + {i})
    {
      hide Linked, Hanging, OnlyLinks, Nodes, RotatedLeft, RotatedRight, Apart;
      ghost var pool, l2 := n[..], l;
      HangsHeights(pool, i, l, r);
      HangsSame(pool, i, l, r);
      LeanParts(i, l, r);
      var low := n[i].left;
      if HeightAt(n[low].left) < HeightAt(n[low].right) {
        var sub := RotateLeft(low, l.left, l.right);
        ghost var mid := n[..];
        l2 := RotatedLeft(l);
        LeftKeeps(l);
        OnlyLinksTwice(pool, mid, mid, {l.index, l.right.index}, {l.index}, Nodes(l));
        SubLeft(pool, mid, i, r, l2, sub, Nodes(l));
        n[i] := n[i].(left := sub);
      }
      ghost var later := n[..];
      top := RotateRight(i, l2, r);
      OnlyLinksTwice(pool, later, n[..], Nodes(l) + {i}, {i, l2.index}, Nodes(l) + {i});
    }

    method LeanLeft(i: nat, ghost l: Tree, ghost r: Tree) returns (top: nat)
      requires Hanging(n[..], i, l, r) && Height(l) - Height(r) < -1
      modifies n
      ensures Linked(n[..], Rebalanced(i, l, r), top) && OnlyLinks(old(n[..]), n[..], Nodes(r) + {i})
    {
      hide Linked, Hanging, OnlyLinks, Nodes, RotatedLeft, RotatedRight, Apart;
      ghost var pool, r2 := n[..], r;
      HangsHeights(pool, i, l, r);
      HangsSame(pool, i, l, r);
      LeanParts(i, l, r);
      var low := n[i].right;
      if HeightAt(n[low].right) < HeightAt(n[low].left) {
        var sub := RotateRight(low, r.left, r.right);
        ghost var mid := n[..];
        r2 := RotatedRight(r);
        RightKeeps(r);
        OnlyLinksTwice(pool, mid, mid, {r.index, r.left.index}, {r.index}, Nodes(r));
        SubRight(pool, mid, i, l, r2, sub, Nodes(r));
        n[i] := n[i].(right := sub);
      }
      ghost var later := n[..];
      top := RotateLeft(i, l, r2);
      OnlyLinksTwice(pool, later, n[..], Nodes(r) + {i}, {i, r2.index}, Nodes(r) + {i});
    }

    // ----- insertion -----

    function CmpAt(e: SortedEntry, i: nat): (c: int)
      requires i < n.Length
      reads n
      ensures c == EntryCmp(e, At(Entries(n[..]), i), tiebreak)
    {
      Cmp(e.key, e.contactIndex, n[i].key, n[i].contactIndex, tiebreak)
    }

    /** Compares the entry of a node with a key that is looked for. */
    function CmpProbe(i: nat, key: Key, probe: TieBreak): (c: int)
      requires i < n.Length
      reads n
      ensures c == EntryCmp(At(Entries(n[..]), i), SortedEntry(key, PROBE_SECTOR, NO_MESSAGE), probe)
    {
      Cmp(n[i].key, n[i].contactIndex, key, PROBE_SECTOR, probe)
    }

    /** Puts the node `added` into subtree `i`, unless its slot is taken. */
    method InsertRec(i: nat, added: nat, ghost t: Tree) returns (top: nat, ok: bool)
      requires Linked(n[..], t, i) && added !in Nodes(t) && Linked(n[..], Branch(added, Leaf, Leaf), added)
      requires Lawful(tiebreak) && Searchable(Entries(n[..]), t, tiebreak) && added < n.Length && n[added].contactIndex != PROBE_SECTOR
      modifies n
      ensures var es := old(Entries(n[..]));
        && Linked(n[..], Inserted(es, t, added, tiebreak), top)
        && (ok <==> Target(es, t, At(es, added), tiebreak) == NIL)
      ensures OnlyLinks(old(n[..]), n[..], Nodes(t) + {added})
      decreases t
    {
      hide Linked, Lawful, Searchable, Apart, Rebalanced, OnlyLinks, Nodes, Hanging, InsertOk;
      ghost var pool, es := n[..], Entries(n[..]);
      LinkedEnds(pool, t, i);
      if i == NIL {
        Unchanged(pool, Nodes(t) + {added});
        return added, true;
      }
      SearchApart(es, t, tiebreak);
      BranchParts(pool, t, i);
      SearchableParts(es, t, tiebreak);
      ghost var l, r := t.left, t.right;
      var c := CmpAt(EntryOf(n[added]), i);
      if c == 0 {
        Unchanged(pool, Nodes(t) + {added});
        return i, false;
      }
      var sub;
      if c < 0 {
        sub, ok := InsertRec(n[i].left, added, l);
        ghost var mid := n[..];
        InsertedOk(es, l, added, tiebreak);
        InsertParts(es, l, Inserted(es, l, added, tiebreak), added, tiebreak);
        SubLeft(pool, mid, i, r, Inserted(es, l, added, tiebreak), sub, Nodes(l) + {added});
        n[i] := n[i].(left := sub);
        ghost var hung := n[..];
        top := Rebalance(i, Inserted(es, l, added, tiebreak), r);
        OnlyLinksTwice(pool, hung, n[..], Nodes(l) + {added} + {i}, Nodes(Inserted(es, l, added, tiebreak)) + {i} + Nodes(r), Nodes(t) + {added});
      } else {
        sub, ok := InsertRec(n[i].right, added, r);
        ghost var mid := n[..];
        InsertedOk(es, r, added, tiebreak);
        InsertParts(es, r, Inserted(es, r, added, tiebreak), added, tiebreak);
        SubRight(pool, mid, i, l, Inserted(es, r, added, tiebreak), sub, Nodes(r) + {added});
        n[i] := n[i].(right := sub);
        ghost var hung := n[..];
        top := Rebalance(i, l, Inserted(es, r, added, tiebreak));
        OnlyLinksTwice(pool, hung, n[..], Nodes(r) + {added} + {i}, Nodes(l) + {i} + Nodes(Inserted(es, r, added, tiebreak)), Nodes(t) + {added});
      }
    }

    // ----- removal -----

    /** Unlinks the smallest node of a subtree. */
    method RemoveMinRec(i: nat, ghost t: Tree) returns (top: nat, min: nat)
      requires Linked(n[..], t, i) && t.Branch? && Apart(t) && Balanced(t)
      modifies n
      ensures min == MinOf(t) && Linked(n[..], WithoutMin(t), top) && OnlyLinks(old(n[..]), n[..], Nodes(t))
      decreases t
    {
      hide Linked, Apart, Rebalanced, OnlyLinks, Nodes, Hanging, Balanced, MinOk, Shrunk;
      ghost var pool := n[..];
      BranchParts(pool, t, i);
      BalancedParts(t);
      ghost var l, r := t.left, t.right;
      LinkedEnds(pool, l, n[i].left);
      if n[i].left == NIL {
        Unchanged(pool, Nodes(t));
        return n[i].right, i;
      }
      var sub;
      sub, min := RemoveMinRec(n[i].left, l);
      ghost var mid := n[..];
      MinRemoved(l);
      MinParts(l, MinOf(l), WithoutMin(l));
      SubLeft(pool, mid, i, r, WithoutMin(l), sub, Nodes(l));
      n[i] := n[i].(left := sub);
      ghost var hung := n[..];
      top := Rebalance(i, WithoutMin(l), r);
      OnlyLinksTwice(pool, hung, n[..], Nodes(l) + {i}, Nodes(WithoutMin(l)) + {i} + Nodes(r), Nodes(t));
    }

    method NodeFree(i: nat)
      requires i < n.Length
      modifies n, this`freeHead
      ensures freeHead == i && n[..] == old(n[..])[i := old(n[i]).(left := old(freeHead))]
    {
      n[i] := n[i].(left := freeHead);
      freeHead := i;
    }

    /** Takes node `i`, at the top of a subtree, out and frees it. */
    method Unlink(i: nat, ghost t: Tree) returns (top: nat)
      requires Linked(n[..], t, i) && t.Branch? && Apart(t) && Balanced(t)
      modifies n, this`freeHead
      ensures Linked(n[..], Unlinked(t.left, t.right), top) && OnlyLinks(old(n[..]), n[..], Nodes(t))
      ensures i < n.Length && freeHead == i && n[i].left == old(freeHead)
    {
      hide Linked, Apart, Rebalanced, OnlyLinks, Nodes, Hanging, Balanced, MinOk, Shrunk;
      ghost var pool := n[..];
      BranchParts(pool, t, i);
      BalancedParts(t);
      ghost var l, r := t.left, t.right;
      var li, ri := n[i].left, n[i].right;
      LinkedEnds(pool, l, li);
      LinkedEnds(pool, r, ri);
      Unchanged(pool, {i});
      OneLink(pool, i, freeHead);
      LinkedKept(pool, pool, pool[i := pool[i].(left := freeHead)], l, li, {i});
      LinkedKept(pool, pool, pool[i := pool[i].(left := freeHead)], r, ri, {i});
      NodeFree(i);
      ghost var freed := n[..];
      Unchanged(freed, {i});
      OnlyLinksTwice(pool, freed, freed, {i}, {i}, Nodes(t));
      if li == NIL {
        return ri;
      }
      if ri == NIL {
        return li;
      }
      top := Replace(li, ri, l, r);
      OnlyLinksTwice(pool, freed, n[..], {i}, Nodes(l) + Nodes(r), Nodes(t));
      OnlyLinksAt(freed, n[..], Nodes(l) + Nodes(r), i);
    }

    /** Joins two subtrees under the smallest node of the right one. */
    method Replace(li: nat, ri: nat, ghost l: Tree, ghost r: Tree) returns (top: nat)
      requires Linked(n[..], l, li) && Linked(n[..], r, ri) && r.Branch? && l.Branch? && Apart(l) && Apart(r) && Balanced(r)
      requires Nodes(l) !! Nodes(r)
      modifies n
      ensures Linked(n[..], Rebalanced(MinOf(r), l, WithoutMin(r)), top) && OnlyLinks(old(n[..]), n[..], Nodes(l) + Nodes(r))
    {
      hide Linked, Apart, Rebalanced, OnlyLinks, Nodes, Hanging, Balanced, MinOk, Shrunk;
      ghost var pool, rest := n[..], WithoutMin(r);
      LinkedNodes(pool, r, ri);
      var restIndex, m := RemoveMinRec(ri, r);
      ghost var mid := n[..];
      MinRemoved(r);
      MinParts(r, m, rest);
      LinkedKept(pool, mid, mid, l, li, Nodes(r));
      JoinHangs(mid, m, l, rest, li, restIndex);
      n[m] := n[m].(left := li);
      n[m] := n[m].(right := restIndex);
      ghost var hung := n[..];
      assert hung == mid[m := mid[m].(left := li, right := restIndex)];
      OnlyLinksTwice(pool, mid, hung, Nodes(r), {m}, Nodes(l) + Nodes(r));
      top := Rebalance(m, l, rest);
      OnlyLinksTwice(pool, hung, n[..], Nodes(l) + Nodes(r), Nodes(l) + {m} + Nodes(rest), Nodes(l) + Nodes(r));
    }

    /** Takes the node with this slot out of subtree `i`. */
    method RemoveRec(i: nat, e: SortedEntry, ghost t: Tree) returns (top: nat, ok: bool)
      requires Linked(n[..], t, i) && Lawful(tiebreak) && Searchable(Entries(n[..]), t, tiebreak) && e.contactIndex != PROBE_SECTOR
      modifies n, this`freeHead
      ensures var es := old(Entries(n[..])); var target := Target(es, t, e, tiebreak);
        && Linked(n[..], Removed(es, t, e, tiebreak), top) && (ok <==> target != NIL)
        && (if ok then target < n.Length && freeHead == target && n[target].left == old(freeHead) else freeHead == old(freeHead))
      ensures OnlyLinks(old(n[..]), n[..], Nodes(t))
      decreases t
    {
      hide Linked, Lawful, Searchable, Apart, Rebalanced, OnlyLinks, Nodes, Hanging, Shrunk, Balanced, Present;
      ghost var pool, es := n[..], Entries(n[..]);
      LinkedEnds(pool, t, i);
      if i == NIL {
        Unchanged(pool, Nodes(t));
        return NIL, false;
      }
      SearchApart(es, t, tiebreak);
      BranchParts(pool, t, i);
      SearchableParts(es, t, tiebreak);
      ghost var l, r := t.left, t.right;
      LinkedNodes(pool, l, n[i].left);
      LinkedNodes(pool, r, n[i].right);
      var c := CmpAt(e, i);
      var sub;
      if c < 0 {
        sub, ok := RemoveRec(n[i].left, e, l);
        ghost var mid := n[..];
        RemovedNodes(es, l, e, tiebreak);
        ShrunkParts(l, Removed(es, l, e, tiebreak));
        SubLeft(pool, mid, i, r, Removed(es, l, e, tiebreak), sub, Nodes(l));
        n[i] := n[i].(left := sub);
        ghost var hung := n[..];
        top := Rebalance(i, Removed(es, l, e, tiebreak), r);
        ghost var touched := Nodes(Removed(es, l, e, tiebreak)) + {i} + Nodes(r);
        OnlyLinksTwice(pool, hung, n[..], Nodes(l) + {i}, touched, Nodes(t));
        if ok { OnlyLinksAt(hung, n[..], touched, Target(es, l, e, tiebreak)); }
      } else if c > 0 {
        sub, ok := RemoveRec(n[i].right, e, r);
        ghost var mid := n[..];
        RemovedNodes(es, r, e, tiebreak);
        ShrunkParts(r, Removed(es, r, e, tiebreak));
        SubRight(pool, mid, i, l, Removed(es, r, e, tiebreak), sub, Nodes(r));
        n[i] := n[i].(right := sub);
        ghost var hung := n[..];
        top := Rebalance(i, l, Removed(es, r, e, tiebreak));
        ghost var touched := Nodes(l) + {i} + Nodes(Removed(es, r, e, tiebreak));
        OnlyLinksTwice(pool, hung, n[..], Nodes(r) + {i}, touched, Nodes(t));
        if ok { OnlyLinksAt(hung, n[..], touched, Target(es, r, e, tiebreak)); }
      } else {
        top := Unlink(i, t);
        ok := true;
      }
    }
  }

  lemma OneLink(pool: Pool, i: nat, link: nat)
    requires i < |pool|
    ensures OnlyLinks(pool, pool[i := pool[i].(left := link)], {i})
  {
  }

  lemma BalancedParts(t: Tree)
    requires Balanced(t) && t.Branch?
    ensures Balanced(t.left) && Balanced(t.right)
  {
  }

  lemma MinParts(t: Tree, m: nat, rest: Tree)
    requires MinOk(t, m, rest)
    ensures Apart(rest) && Balanced(rest) && Nodes(rest) <= Nodes(t) && m in Nodes(t) && m !in Nodes(rest)
  {
  }

  lemma ShrunkParts(t: Tree, now: Tree)
    requires Shrunk(t, now)
    ensures Apart(now) && Balanced(now) && Nodes(now) <= Nodes(t)
  {
  }

  lemma OnlyLinksAt(pool: Pool, now: Pool, touched: set<nat>, i: nat)
    requires OnlyLinks(pool, now, touched) && i !in touched && i < |pool|
    ensures i < |now| && now[i] == pool[i]
  {
  }

  lemma {:induction false} JoinHangs(mid: Pool, m: nat, l: Tree, rest: Tree, li: nat, ri: nat)
    requires m < |mid| && m != NIL && Linked(mid, l, li) && Linked(mid, rest, ri) && Apart(l) && Apart(rest)
    requires m !in Nodes(l) && m !in Nodes(rest) && Nodes(l) !! Nodes(rest)
    ensures var now := mid[m := mid[m].(left := li, right := ri)]; Hanging(now, m, l, rest) && OnlyLinks(mid, now, {m})
  {
    var now := mid[m := mid[m].(left := li, right := ri)];
    hide Linked, Nodes, Apart, Entries;
    Unchanged(mid, {});
    OnlyLinksSet(mid, mid, m, mid[m].(left := li, right := ri), {});
    LinkedKept(mid, mid, now, l, li, {m});
    LinkedKept(mid, mid, now, rest, ri, {m});
  }

  lemma LinkedEnds(pool: Pool, t: Tree, i: nat)
    requires Linked(pool, t, i)
    ensures i == NIL <==> t.Leaf?
  {
  }

  lemma Unchanged(pool: Pool, touched: set<nat>)
    ensures OnlyLinks(pool, pool, touched)
  {
  }

  lemma IndexCount(es: seq<SortedEntry>, t: Tree)
    ensures |Contents(es, t)| == |Walk(t)|
  {
  }

  lemma SearchApart(es: seq<SortedEntry>, t: Tree, tiebreak: TieBreak)
    requires Searchable(es, t, tiebreak)
    ensures Apart(t) && Balanced(t)
  {
  }

  lemma InsertParts(es: seq<SortedEntry>, t: Tree, now: Tree, x: nat, tiebreak: TieBreak)
    requires InsertOk(es, t, now, x, tiebreak)
    ensures Apart(now) && Nodes(now) <= Nodes(t) + {x}
  {
  }
}
