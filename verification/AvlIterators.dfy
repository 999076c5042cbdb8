/** Searching by name in the AVL tree, and walking it in order with a fixed stack. */
module AvlIterators {
  import opened Layout
  import opened StorageCard
  import opened IndexOrder
  import opened AvlTrees
  import opened AvlSearch
  import opened AvlPool

  const ITER_DEPTH: nat := 24

  function Probe(name: Text): SortedEntry { SortedEntry(MakeKey(name), PROBE_SECTOR, NO_MESSAGE) }

  /** What is still to come: the top of the stack and what hangs to its right, and so on down. */
  function Rest(es: seq<SortedEntry>, spine: seq<Tree>): seq<SortedEntry> {
    if spine == [] then []
    else
      var t := spine[|spine| - 1];
      (if t.Leaf? then [] else [At(es, t.index)] + Contents(es, t.right)) + Rest(es, spine[..|spine| - 1])
  }

  lemma RestPush(es: seq<SortedEntry>, spine: seq<Tree>, t: Tree)
    requires t.Branch?
    ensures Rest(es, spine + [t]) == [At(es, t.index)] + Contents(es, t.right) + Rest(es, spine)
    ensures Contents(es, t) + Rest(es, spine) == Contents(es, t.left) + Rest(es, spine + [t])
  {
    assert (spine + [t])[..|spine|] == spine;
    ContentsSplit(es, t);
  }

  lemma HeightFalls(t: Tree)
    requires t.Branch?
    ensures Height(t) > 0 && Height(t.left) < Height(t) && Height(t.right) < Height(t)
  {
  }

  lemma TreeHeight(t: AvlTree)
    requires t.Valid()
    ensures Height(t.tree) <= 18 && Linked(t.n[..], t.tree, t.root)
  {
    var es := Entries(t.n[..]);
    LinkedNodes(t.n[..], t.tree, t.root);
    SearchApart(es, t.tree, t.tiebreak);
    FreeCount(t.n[..], t.tree, t.root, t.free, t.freeHead);
    HeightBound(t.tree);
  }

  class AvlIter {
    const t: AvlTree
    const stack: array<nat>
    var top: nat
    // the subtrees whose top nodes are on the stack
    ghost var spine: seq<Tree>

    constructor (t: AvlTree)
      ensures this.t == t && fresh(stack) && stack.Length == ITER_DEPTH && top == 0 && spine == []
    {
      this.t, stack, top, spine := t, new nat[ITER_DEPTH](_ => 0), 0, [];
    }

    ghost predicate Valid()
      reads this, stack, t, t.n
    {
      && t.Valid() && stack.Length == ITER_DEPTH && |spine| == top <= ITER_DEPTH
      && forall k :: 0 <= k < top ==> OnStack(t.n[..], spine[k], stack[k])
    }

    /** Each subtree on the stack is lower than the one below it. */
    ghost predicate Falling()
      reads this
    {
      Descending(spine)
    }

    /** What is still to come. */
    ghost function Remaining(): seq<SortedEntry>
      reads this, t, t.n
    {
      Rest(Entries(t.n[..]), spine)
    }

    method PushLeft(i: nat, ghost sub: Tree) returns (ok: bool)
      requires Valid() && Linked(t.n[..], sub, i)
      modifies this, stack
      ensures Valid()
      ensures ok ==> Remaining() == Contents(Entries(t.n[..]), sub) + old(Remaining())
      ensures old(Falling()) && Height(sub) + old(top) <= 18 ==> ok && Falling()
    {
      hide AvlTree.Valid, Linked, Height, Contents, Rest;
      ghost var es, s, all := Entries(t.n[..]), sub, Contents(Entries(t.n[..]), sub) + Remaining();
      ghost var good := Falling() && Height(sub) + top <= 18;
      var cur := i;
      while cur != NIL
        invariant Valid() && Linked(t.n[..], s, cur) && Contents(es, s) + Rest(es, spine) == all
        invariant good ==> Falling() && Height(s) + top <= 18
        decreases s
      {
        LinkedEnds(t.n[..], s, cur);
        BranchLinked(t.n[..], s, cur);
        HeightFalls(s);
        if top >= ITER_DEPTH {
          return false;
        }
        RestPush(es, spine, s);
        stack[top] := cur;
        top := top + 1;
        spine := spine + [s];
        cur := t.n[cur].left;
        s := s.left;
      }
      LinkedEnds(t.n[..], s, cur);
      NoContents(es, s);
      ok := true;
    }

    /** Puts the iterator on the smallest entry.  The stack is always deep enough. */
    method Begin() returns (ok: bool)
      requires t.Valid() && stack.Length == ITER_DEPTH
      modifies this, stack
      ensures ok && Valid() && Falling() && Remaining() == t.Index()
    {
      hide AvlTree.Valid, Linked, Height, Contents;
      TreeHeight(t);
      top, spine := 0, [];
      ok := PushLeft(t.root, t.tree);
      assert t.Index() + [] == t.Index();
    }

    /** Pops the current node and goes on to what hangs to its right. */
    method Advance() returns (i: nat)
      requires Valid() && Falling() && top > 0
      modifies this, stack
      ensures Valid() && Falling() && i < t.n.Length
      ensures old(Remaining()) == [EntryOf(t.n[i])] + Remaining()
    {
      hide AvlTree.Valid, Linked, Height, Contents, Rest;
      ghost var last := spine[top - 1];
      BranchLinked(t.n[..], last, stack[top - 1]);
      HeightFalls(last);
      RestPush(Entries(t.n[..]), spine[..top - 1], last);
      assert spine[..top - 1] + [last] == spine;
      top := top - 1;
      i := stack[top];
      spine := spine[..top];
      var ok := PushLeft(t.n[i].right, last.right);
    }

    /** Gives the next entry, in order. */
    method Next() returns (ok: bool, out: SortedEntry)
      requires Valid() && Falling()
      modifies this, stack
      ensures Valid() && Falling()
      ensures ok <==> old(Remaining()) != []
      ensures if ok then old(Remaining()) == [out] + Remaining() else Remaining() == []
    {
      hide AvlTree.Valid, Linked, Height, Contents, Rest;
      out := NO_ENTRY;
      RestEnds(Entries(t.n[..]), spine);
      if top == 0 {
        return false, out;
      }
      var i := Advance();
      return true, EntryOf(t.n[i]);
    }

    /** Puts the iterator on the entry of this rank, by stepping there from the first. */
    method SeekRank(rank: nat) returns (ok: bool)
      requires t.Valid() && stack.Length == ITER_DEPTH
      modifies this, stack
      ensures Valid() && Falling()
      ensures ok <==> rank < |t.Index()|
      ensures ok ==> Remaining() == t.Index()[rank..]
    {
      hide AvlTree.Valid, Linked, Height, Contents, Rest, Descending;
      ok := Begin();
      ghost var all := t.Index();
      for k := 0 to rank
        invariant Valid() && Falling() && k <= |all| && Remaining() == all[k..]
      {
        RestEnds(Entries(t.n[..]), spine);
        if top == 0 {
          return false;
        }
        var i := Advance();
        assert all[k..][1..] == all[k + 1..];
      }
      RestEnds(Entries(t.n[..]), spine);
      return top != 0;
    }

    /** Puts the iterator on the first entry that is not smaller than `name`; `probe` is the callback
        during this search. */
    method Seek(name: Text, probe: TieBreak) returns (ok: bool)
      requires t.Valid() && stack.Length == ITER_DEPTH && Lawful(probe) && SameContacts(probe, t.tiebreak)
      modifies this, stack
      ensures ok && Valid() && Falling()
      ensures Remaining() == t.Index()[Place(t.Index(), Probe(name), probe)..]
    {
      hide AvlTree.Valid, Linked, Height, Contents, Rest, Place, EntryCmp, Lawful, Searchable, From, Descending, SameContacts;
      ghost var es, sub, e := Entries(t.n[..]), t.tree, Probe(name);
      NothingDescends();
      TreeHeight(t);
      TreeSearchable(t, probe);
      ghost var end := From(t.Index(), e, probe);
      top, spine := 0, [];
      NothingLeft(es, end);
      var i := t.root;
      while i != NIL
        invariant Valid() && Falling() && Linked(t.n[..], sub, i) && Searchable(es, sub, probe) && Height(sub) + top <= 18
        invariant From(Contents(es, sub), e, probe) + Rest(es, spine) == end
        decreases sub
      {
        LinkedEnds(t.n[..], sub, i);
        BranchLinked(t.n[..], sub, i);
        HeightFalls(sub);
        SearchableParts(es, sub, probe);
        SeekStep(es, sub, spine, e, probe);
        if t.CmpProbe(i, MakeKey(name), probe) >= 0 {
          if top >= ITER_DEPTH {
            assert false;
          }
          Descends(spine, sub);
          stack[top] := i;
          top := top + 1;
          spine := spine + [sub];
          i, sub := t.n[i].left, sub.left;
        } else {
          i, sub := t.n[i].right, sub.right;
        }
      }
      LinkedEnds(t.n[..], sub, i);
      SeekEnd(es, sub, e, probe);
      FromIs(t.Index(), e, probe);
      return true;
    }
  }

  /** Each subtree is lower than the one before it, and the first is not too high. */
  ghost predicate Descending(spine: seq<Tree>) {
    forall k :: 0 <= k < |spine| ==> Height(spine[k]) + k <= 18
  }

  lemma NothingDescends()
    ensures Descending([])
  {
  }

  lemma Descends(spine: seq<Tree>, t: Tree)
    requires Descending(spine) && Height(t) + |spine| <= 18
    ensures Descending(spine + [t])
  {
  }

  /** The contact of the first entry with this full name. */
  function FoundIn(s: seq<SortedEntry>, e: SortedEntry, tiebreak: TieBreak): nat {
    if Present(s, e, tiebreak) then s[Place(s, e, tiebreak)].contactIndex else NOT_FOUND
  }

  /** Looks a name up: of the entries with that name, the first.  `probe` is the callback during
      this search. */
  method Find(t: AvlTree, name: Text, probe: TieBreak) returns (found: nat)
    requires t.Valid() && Lawful(probe) && SameContacts(probe, t.tiebreak)
    ensures found == FoundIn(t.Index(), Probe(name), probe)
  {
    hide AvlTree.Valid, Linked, Contents, Place, Lawful, Searchable, Matching, SameContacts;
    ghost var es, sub, e, above := Entries(t.n[..]), t.tree, Probe(name), [];
    TreeHeight(t);
    TreeSearchable(t, probe);
    NoneMatching(es, t.tree, e, probe);
    var i: nat, hit: nat := t.root, NIL;
    while i != NIL
      invariant Linked(t.n[..], sub, i) && Searchable(es, sub, probe)
      invariant Matching(es, t.tree, sub, above, hit, e, probe) && (hit != NIL ==> hit < t.n.Length)
      decreases sub
    {
      LinkedEnds(t.n[..], sub, i);
      BranchLinked(t.n[..], sub, i);
      SearchableParts(es, sub, probe);
      MatchStep(es, t.tree, sub, above, hit, e, probe);
      var c := t.CmpProbe(i, MakeKey(name), probe);
      if c >= 0 {
        above := [At(es, i)] + Contents(es, sub.right) + above;
        if c == 0 {
          hit := i;
        }
        i, sub := t.n[i].left, sub.left;
      } else {
        i, sub := t.n[i].right, sub.right;
      }
    }
    LinkedEnds(t.n[..], sub, i);
    Matched(es, t.tree, sub, above, hit, e, probe);
    return if hit == NIL then NOT_FOUND else t.n[hit].contactIndex;
  }

  /** The search has left `above` behind, the entries after the subtree it is in: the first of
      them is the match so far, if it is one. */
  ghost predicate Matching(es: seq<SortedEntry>, t: Tree, sub: Tree, above: seq<SortedEntry>, hit: nat, e: SortedEntry, tiebreak: TieBreak) {
    && Sorted(Contents(es, sub) + above, tiebreak)
    && From(Contents(es, t), e, tiebreak) == From(Contents(es, sub), e, tiebreak) + above
    && (forall k :: 0 <= k < |above| ==> !Less(above[k], e, tiebreak))
    && if hit == NIL then above == [] || EntryCmp(above[0], e, tiebreak) != 0
       else above != [] && above[0] == At(es, hit) && EntryCmp(above[0], e, tiebreak) == 0
  }

  lemma NoneMatching(es: seq<SortedEntry>, t: Tree, e: SortedEntry, tiebreak: TieBreak)
    requires Sorted(Contents(es, t), tiebreak)
    ensures Matching(es, t, t, [], NIL, e, tiebreak)
  {
    assert Contents(es, t) + [] == Contents(es, t);
  }

  lemma MatchStep(es: seq<SortedEntry>, t: Tree, sub: Tree, above: seq<SortedEntry>, hit: nat, e: SortedEntry, tiebreak: TieBreak)
    requires Lawful(tiebreak) && sub.Branch? && Matching(es, t, sub, above, hit, e, tiebreak)
    ensures var c := EntryCmp(At(es, sub.index), e, tiebreak);
      if c < 0 then Matching(es, t, sub.right, above, hit, e, tiebreak)
      else sub.index != NIL ==>
        Matching(es, t, sub.left, [At(es, sub.index)] + Contents(es, sub.right) + above, if c == 0 then sub.index else hit, e, tiebreak)
  {
    hide Contents, Place, Lawful, EntryCmp, Sorted, From;
    ContentsSplit(es, sub);
    var l, m, r := Contents(es, sub.left), At(es, sub.index), Contents(es, sub.right);
    Around(l, m, r, above);
    MatchAround(l, m, r, above, e, tiebreak);
  }

  lemma Around<T>(l: seq<T>, m: T, r: seq<T>, above: seq<T>)
    ensures l + [m] + r + above == l + [m] + (r + above) == l + ([m] + r + above)
    ensures ([m] + r + above)[0] == m
  {
  }

  lemma MatchAround(l: seq<SortedEntry>, m: SortedEntry, r: seq<SortedEntry>, above: seq<SortedEntry>, e: SortedEntry, tiebreak: TieBreak)
    requires Lawful(tiebreak) && Sorted(l + [m] + (r + above), tiebreak) && forall k :: 0 <= k < |above| ==> !Less(above[k], e, tiebreak)
    ensures Sorted(r + above, tiebreak)
    ensures Less(m, e, tiebreak) ==> From(l + [m] + r, e, tiebreak) == From(r, e, tiebreak)
    ensures !Less(m, e, tiebreak) ==>
      && From(l + [m] + r, e, tiebreak) + above == From(l, e, tiebreak) + ([m] + r + above)
      && forall k :: 0 <= k < |[m] + r + above| ==> !Less(([m] + r + above)[k], e, tiebreak)
    ensures above != [] && EntryCmp(above[0], e, tiebreak) == 0 ==> EntryCmp(m, e, tiebreak) <= 0
  {
    SortedParts(l, m, r + above, tiebreak);
    assert Sorted(l + [m] + r, tiebreak) by {
      var s := l + [m] + (r + above);
      assert l + [m] + r == s[..|l| + 1 + |r|];
    }
    FromAround(l, m, r, e, tiebreak);
    if !Less(m, e, tiebreak) {
      forall k | 0 <= k < |r|
        ensures !Less(r[k], e, tiebreak)
      {
        assert (r + above)[k] == r[k];
        if Less(r[k], e, tiebreak) { LessTransitive(m, r[k], e, tiebreak); }
      }
    }
    if above != [] && EntryCmp(above[0], e, tiebreak) == 0 {
      assert (r + above)[|r|] == above[0];
      LessTransitive(m, above[0], e, tiebreak);
    }
  }

  lemma Matched(es: seq<SortedEntry>, t: Tree, sub: Tree, above: seq<SortedEntry>, hit: nat, e: SortedEntry, tiebreak: TieBreak)
    requires sub.Leaf? && Matching(es, t, sub, above, hit, e, tiebreak)
    ensures FoundIn(Contents(es, t), e, tiebreak) == if hit == NIL then NOT_FOUND else At(es, hit).contactIndex
  {
    var s := Contents(es, t);
    assert From(s, e, tiebreak) == above;
    assert above != [] ==> s[Place(s, e, tiebreak)] == above[0];
  }

  /** The entries that are not smaller than `e`, in a sorted sequence. */
  function From(s: seq<SortedEntry>, e: SortedEntry, tiebreak: TieBreak): seq<SortedEntry> {
    s[Place(s, e, tiebreak)..]
  }

  lemma FromIs(s: seq<SortedEntry>, e: SortedEntry, tiebreak: TieBreak)
    ensures From(s, e, tiebreak) == s[Place(s, e, tiebreak)..]
  {
  }

  lemma NothingLeft(es: seq<SortedEntry>, end: seq<SortedEntry>)
    ensures end + Rest(es, []) == end
  {
  }

  lemma TreeSearchable(t: AvlTree, probe: TieBreak)
    requires t.Valid() && SameContacts(probe, t.tiebreak)
    ensures Searchable(Entries(t.n[..]), t.tree, probe) && t.Index() == Contents(Entries(t.n[..]), t.tree)
  {
    SortedForAll(Contents(Entries(t.n[..]), t.tree), t.tiebreak, probe);
  }

  lemma FromAround(l: seq<SortedEntry>, m: SortedEntry, r: seq<SortedEntry>, e: SortedEntry, tiebreak: TieBreak)
    requires Lawful(tiebreak) && Sorted(l + [m] + r, tiebreak)
    ensures if Less(m, e, tiebreak) then From(l + [m] + r, e, tiebreak) == From(r, e, tiebreak)
            else From(l + [m] + r, e, tiebreak) == From(l, e, tiebreak) + [m] + r
  {
    if Less(m, e, tiebreak) {
      PlaceRight(l, m, r, e, tiebreak);
    } else {
      SortedParts(l, m, r, tiebreak);
      PlaceSorted(l, e, tiebreak);
      var s, p := l + [m] + r, Place(l, e, tiebreak);
      forall i | 0 <= i < |r|
        ensures !Less(r[i], e, tiebreak)
      {
        if Less(r[i], e, tiebreak) { LessTransitive(m, r[i], e, tiebreak); }
      }
      assert PlaceAt(s, e, tiebreak, p);
      PlaceUnique(s, e, tiebreak, p);
    }
  }

  lemma SeekStep(es: seq<SortedEntry>, t: Tree, spine: seq<Tree>, e: SortedEntry, tiebreak: TieBreak)
    requires Lawful(tiebreak) && Searchable(es, t, tiebreak) && t.Branch?
    ensures if Less(At(es, t.index), e, tiebreak) then From(Contents(es, t), e, tiebreak) == From(Contents(es, t.right), e, tiebreak)
            else From(Contents(es, t), e, tiebreak) + Rest(es, spine) == From(Contents(es, t.left), e, tiebreak) + Rest(es, spine + [t])
  {
    hide *;
    ContentsSplit(es, t);
    SearchSorted(es, t, tiebreak);
    FromAround(Contents(es, t.left), At(es, t.index), Contents(es, t.right), e, tiebreak);
    RestPush(es, spine, t);
  }

  lemma SearchSorted(es: seq<SortedEntry>, t: Tree, tiebreak: TieBreak)
    requires Searchable(es, t, tiebreak)
    ensures Sorted(Contents(es, t), tiebreak)
  {
  }

  lemma SeekEnd(es: seq<SortedEntry>, t: Tree, e: SortedEntry, tiebreak: TieBreak)
    requires t.Leaf?
    ensures From(Contents(es, t), e, tiebreak) == []
  {
  }

  predicate OnStack(pool: Pool, t: Tree, i: nat) { t.Branch? && Linked(pool, t, i) }

  lemma BranchLinked(pool: Pool, t: Tree, i: nat)
    requires Linked(pool, t, i) && t.Branch?
    ensures i == t.index < |pool| && Linked(pool, t.left, pool[i].left) && Linked(pool, t.right, pool[i].right)
  {
  }

  lemma NoContents(es: seq<SortedEntry>, t: Tree)
    requires t.Leaf?
    ensures Contents(es, t) == []
  {
  }

  lemma RestEnds(es: seq<SortedEntry>, spine: seq<Tree>)
    requires forall k :: 0 <= k < |spine| ==> spine[k].Branch?
    ensures spine == [] <==> Rest(es, spine) == []
  {
  }
}
