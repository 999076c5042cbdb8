/** AVL trees as values: the shapes that the nodes of the pool are linked into. */
module AvlTrees {

  /** A subtree; the numbers are the indexes of nodes. */
  datatype Tree = Leaf | Branch(index: nat, left: Tree, right: Tree)

  function Max(a: int, b: int): int { if a > b then a else b }

  function Height(t: Tree): (h: nat)
    ensures h == 0 <==> t.Leaf?
  {
    match t
    case Leaf => 0
    case Branch(_, l, r) => 1 + Max(Height(l), Height(r))
  }

  /** The nodes in order. */
  function Walk(t: Tree): seq<nat> {
    match t
    case Leaf => []
    case Branch(i, l, r) => Walk(l) + [i] + Walk(r)
  }

  function Nodes(t: Tree): set<nat> {
    match t
    case Leaf => {}
    case Branch(i, l, r) => Nodes(l) + {i} + Nodes(r)
  }

  /** No node occurs twice. */
  predicate Apart(t: Tree) {
    match t
    case Leaf => true
    case Branch(i, l, r) => Apart(l) && Apart(r) && Joins(i, l, r)
  }

  predicate Joins(i: nat, l: Tree, r: Tree) {
    i !in Nodes(l) && i !in Nodes(r) && Nodes(l) !! Nodes(r)
  }

  predicate Balanced(t: Tree) {
    match t
    case Leaf => true
    case Branch(_, l, r) => Balanced(l) && Balanced(r) && -1 <= Height(l) - Height(r) <= 1
  }

  lemma {:induction false} WalkNodes(t: Tree)
    ensures forall i :: i in Walk(t) <==> i in Nodes(t)
  {
    match t
    case Leaf =>
    case Branch(_, l, r) =>
      WalkNodes(l);
      WalkNodes(r);
  }

  lemma {:induction false} WalkSize(t: Tree)
    requires Apart(t)
    ensures |Walk(t)| == |Nodes(t)|
  {
    match t
    case Leaf =>
    case Branch(i, l, r) =>
      WalkSize(l);
      WalkSize(r);
      assert Nodes(t) == Nodes(l) + ({i} + Nodes(r));
  }

  // ----- rotations -----

  function RotatedRight(t: Tree): Tree
    requires t.Branch? && t.left.Branch?
  {
    Branch(t.left.index, t.left.left, Branch(t.index, t.left.right, t.right))
  }

  function RotatedLeft(t: Tree): Tree
    requires t.Branch? && t.right.Branch?
  {
    Branch(t.right.index, Branch(t.index, t.left, t.right.left), t.right.right)
  }

  lemma Regroup<T>(a: seq<T>, x: T, b: seq<T>, y: T, c: seq<T>)
    ensures a + [x] + b + [y] + c == a + [x] + (b + [y] + c)
  {
  }

  lemma JoinsRight(a: set<nat>, x: nat, b: set<nat>, i: nat, c: set<nat>)
    ensures a + {x} + b + {i} + c == a + {x} + (b + {i} + c)
    ensures i !in a + {x} + b && i !in c && a + {x} + b !! c && x !in a && x !in b && a !! b ==>
      i !in b && b !! c && x !in b + {i} + c && a !! b + {i} + c
  {
  }

  lemma JoinsLeft(i: nat, a: set<nat>, b: set<nat>, x: nat, c: set<nat>)
    ensures a + {i} + (b + {x} + c) == (a + {i} + b) + {x} + c
    ensures i !in a && i !in b + {x} + c && a !! b + {x} + c && x !in b && x !in c && b !! c ==>
      i !in b && a !! b && x !in a + {i} + b && (a + {i} + b) !! c
  {
  }

  lemma RightKeeps(t: Tree)
    requires t.Branch? && t.left.Branch?
    ensures Walk(RotatedRight(t)) == Walk(t) && Nodes(RotatedRight(t)) == Nodes(t) && (Apart(t) ==> Apart(RotatedRight(t)))
  {
    var x, a, b, c := t.left.index, t.left.left, t.left.right, t.right;
    Regroup(Walk(a), x, Walk(b), t.index, Walk(c));
    assert RotatedRight(t) == Branch(x, a, Branch(t.index, b, c));
    JoinsRight(Nodes(a), x, Nodes(b), t.index, Nodes(c));
    assert Nodes(t.left) == Nodes(a) + {x} + Nodes(b);
    if Apart(t) { assert Apart(t.left); }
  }

  lemma LeftKeeps(t: Tree)
    requires t.Branch? && t.right.Branch?
    ensures Walk(RotatedLeft(t)) == Walk(t) && Nodes(RotatedLeft(t)) == Nodes(t) && (Apart(t) ==> Apart(RotatedLeft(t)))
  {
    var x, a, b, c := t.right.index, t.left, t.right.left, t.right.right;
    Regroup(Walk(a), t.index, Walk(b), x, Walk(c));
    assert RotatedLeft(t) == Branch(x, Branch(t.index, a, b), c);
    JoinsLeft(t.index, Nodes(a), Nodes(b), x, Nodes(c));
    assert Nodes(t.right) == Nodes(b) + {x} + Nodes(c);
    if Apart(t) { assert Apart(t.right); }
  }

  /** What rebalancing makes of a node whose subtrees differ in height by at most two. */
  function Rebalanced(i: nat, l: Tree, r: Tree): Tree {
    if Height(l) - Height(r) > 1 then
      RotatedRight(Branch(i, if l.right.Branch? && Height(l.left) < Height(l.right) then RotatedLeft(l) else l, r))
    else if Height(l) - Height(r) < -1 then
      RotatedLeft(Branch(i, l, if r.left.Branch? && Height(r.right) < Height(r.left) then RotatedRight(r) else r))
    else Branch(i, l, r)
  }

  lemma RebalanceKeeps(i: nat, l: Tree, r: Tree)
    ensures Walk(Rebalanced(i, l, r)) == Walk(l) + [i] + Walk(r) && Nodes(Rebalanced(i, l, r)) == Nodes(l) + {i} + Nodes(r)
    ensures Apart(l) && Apart(r) && Joins(i, l, r) ==> Apart(Rebalanced(i, l, r))
  {
    var t := Branch(i, l, r);
    if Height(l) - Height(r) > 1 {
      var l2 := if l.right.Branch? && Height(l.left) < Height(l.right) then RotatedLeft(l) else l;
      if l.right.Branch? { LeftKeeps(l); }
      RightKeeps(Branch(i, l2, r));
    } else if Height(l) - Height(r) < -1 {
      var r2 := if r.left.Branch? && Height(r.right) < Height(r.left) then RotatedRight(r) else r;
      if r.left.Branch? { RightKeeps(r); }
      LeftKeeps(Branch(i, l, r2));
    }
  }

  lemma HeavyLeft(i: nat, l: Tree, r: Tree)
    requires Balanced(l) && Balanced(r) && Height(l) == Height(r) + 2
    ensures Balanced(Rebalanced(i, l, r)) && Height(l) <= Height(Rebalanced(i, l, r)) <= Height(l) + 1
  {
    var Branch(x, a, b) := l;
    if Height(a) < Height(b) {
      var Branch(y, c, d) := b;
      assert Rebalanced(i, l, r) == Branch(y, Branch(x, a, c), Branch(i, d, r));
    } else {
      assert Rebalanced(i, l, r) == Branch(x, a, Branch(i, b, r));
    }
  }

  lemma HeavyRight(i: nat, l: Tree, r: Tree)
    requires Balanced(l) && Balanced(r) && Height(r) == Height(l) + 2
    ensures Balanced(Rebalanced(i, l, r)) && Height(r) <= Height(Rebalanced(i, l, r)) <= Height(r) + 1
  {
    var Branch(x, a, b) := r;
    if Height(b) < Height(a) {
      var Branch(y, c, d) := a;
      assert Rebalanced(i, l, r) == Branch(y, Branch(i, l, c), Branch(x, d, b));
    } else {
      assert Rebalanced(i, l, r) == Branch(x, Branch(i, l, a), b);
    }
  }

  /** One subtree too high by one is put right, and the height changes by at most one. */
  lemma RebalanceBalances(i: nat, l: Tree, r: Tree)
    requires Balanced(l) && Balanced(r) && -2 <= Height(l) - Height(r) <= 2
    ensures Balanced(Rebalanced(i, l, r))
    ensures var h := Height(Rebalanced(i, l, r)); var m := Max(Height(l), Height(r));
            if -1 <= Height(l) - Height(r) <= 1 then h == m + 1 else m <= h <= m + 1
  {
    if Height(l) == Height(r) + 2 {
      HeavyLeft(i, l, r);
    } else if Height(r) == Height(l) + 2 {
      HeavyRight(i, l, r);
    }
  }

  // ----- the height bound -----

  function Fib(n: nat): nat { if n < 2 then n else Fib(n - 1) + Fib(n - 2) }

  lemma {:induction false} FibGrows(n: nat)
    ensures Fib(n) <= Fib(n + 1)
  {
    if n > 0 { FibGrows(n - 1); }
  }

  /** A balanced tree of height h has at least Fib(h + 2) - 1 nodes. */
  lemma {:induction false} SizeBound(t: Tree)
    requires Balanced(t)
    ensures |Walk(t)| + 1 >= Fib(Height(t) + 2)
  {
    match t
    case Leaf =>
      assert Fib(2) == 1;
    case Branch(_, l, r) =>
      SizeBound(l);
      SizeBound(r);
      var h := Height(t);
      assert Fib(h + 2) == Fib(h + 1) + Fib(h);
      assert h - 1 <= Height(l) + 1 && h - 1 <= Height(r) + 1 && (Height(l) == h - 1 || Height(r) == h - 1);
      assert |Walk(t)| == |Walk(l)| + 1 + |Walk(r)|;
      hide Height, Walk, Balanced, Fib;
      FibGrows(h);
  }

  lemma {:induction false} FibMonotone(a: nat, b: nat)
    requires a <= b
    ensures Fib(a) <= Fib(b)
    decreases b - a
  {
    if a < b {
      FibMonotone(a, b - 1);
      FibGrows(b - 1);
    }
  }

  lemma Fib21()
    ensures Fib(21) == 10946
  {
    assert Fib(5) == 5 && Fib(6) == 8;
    assert Fib(9) == 34 && Fib(10) == 55;
    assert Fib(13) == 233 && Fib(14) == 377;
    assert Fib(17) == 1597 && Fib(18) == 2584;
    assert Fib(19) == 4181 && Fib(20) == 6765;
  }

  /** With ten thousand nodes the height is at most 18. */
  lemma HeightBound(t: Tree)
    requires Balanced(t) && |Walk(t)| <= 10000
    ensures Height(t) <= 18
  {
    hide *;
    SizeBound(t);
    if Height(t) > 18 {
      Fib21();
      FibMonotone(21, Height(t) + 2);
    }
  }
}
