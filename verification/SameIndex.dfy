/** The two candidate indexes cannot be told apart: the same operations give the same answers. */
module SameIndex {
  import opened Layout
  import opened StorageCard
  import opened FreeLists
  import opened IndexOrder
  import opened NameOrder
  import opened AvlPool
  import opened AvlIterators
  import opened AvlRebuild
  import opened NameArrays
  import opened Heaps

  datatype Op =
    | InsertOp(name: Text, sector: nat)
    | RemoveOp(name: Text, sector: nat)
    | MessageOp(name: Text, sector: nat, messageIndex: nat)
    | FindOp(name: Text)
    | SeekOp(name: Text, n: nat)
    | RankOp(rank: nat, n: nat)
    | RebuildOp(names: seq<Text>, sectors: seq<nat>)

  datatype Answer = Done(ok: bool) | Found(sector: nat) | Listed(entries: seq<SortedEntry>)

  /** What the callers of either index respect. */
  predicate OpOk(op: Op) {
    match op
    case InsertOp(_, sector) => sector != PROBE_SECTOR
    case RemoveOp(_, sector) => sector != PROBE_SECTOR
    case MessageOp(_, sector, _) => sector != PROBE_SECTOR
    case RebuildOp(names, sectors) =>
      |names| == |sectors| && (forall i :: 0 <= i < |sectors| ==> sectors[i] != PROBE_SECTOR) && FreeLists.Distinct(sectors)
    case _ => true
  }

  function FirstOf(s: seq<SortedEntry>, n: nat): seq<SortedEntry> {
    if n < |s| then s[..n] else s
  }

  function Slot(name: Text, sector: nat): SortedEntry { SortedEntry(MakeKey(name), sector, NO_MESSAGE) }

  /** The answer that an index gives, and the index afterwards.  Each search has a callback of its
      own, for its name. */
  ghost predicate Answers(was: seq<SortedEntry>, op: Op, capacity: nat, tiebreak: TieBreak, naming: Naming, answer: Answer, now: seq<SortedEntry>) {
    match op
    case InsertOp(name, sector) =>
      var ok := |was| < capacity && !Present(was, Slot(name, sector), tiebreak);
      answer == Done(ok) && now == if ok then Added(was, Slot(name, sector), tiebreak) else was
    case RemoveOp(name, sector) =>
      answer == Done(Present(was, Slot(name, sector), tiebreak)) && now == Taken(was, Slot(name, sector), tiebreak)
    case MessageOp(name, sector, message) =>
      answer == Done(Present(was, Slot(name, sector), tiebreak)) && now == Marked(was, Slot(name, sector), message, tiebreak)
    case FindOp(name) =>
      answer == Found(FoundIn(was, Probe(name), naming(name))) && now == was
    case SeekOp(name, n) =>
      answer == Listed(FirstOf(was[Place(was, Probe(name), naming(name))..], n)) && now == was
    case RankOp(rank, n) =>
      answer == (if rank < |was| then Listed(FirstOf(was[rank..], n)) else Done(false)) && now == was
    case RebuildOp(names, sectors) =>
      && answer == Done(|names| <= capacity) && Sorted(now, tiebreak)
      && if |names| <= capacity then |names| == |sectors| && multiset(now) == multiset(EntriesOf(names, sectors)) else now == []
  }

  lemma SortedTail(s: seq<SortedEntry>, tiebreak: TieBreak)
    requires Sorted(s, tiebreak) && s != []
    ensures Sorted(s[1..], tiebreak) && multiset(s[1..]) == multiset(s) - multiset{s[0]}
  {
    assert s == [s[0]] + s[1..];
  }

  lemma SameSize<T>(a: seq<T>, b: seq<T>)
    requires multiset(a) == multiset(b)
    ensures |a| == |b|
  {
    assert |a| == |multiset(a)| && |b| == |multiset(b)|;
  }

  /** A strictly sorted sequence is determined by its entries. */
  lemma {:induction false} SortedUnique(a: seq<SortedEntry>, b: seq<SortedEntry>, tiebreak: TieBreak)
    requires Lawful(tiebreak) && Sorted(a, tiebreak) && Sorted(b, tiebreak) && multiset(a) == multiset(b)
    ensures a == b
    decreases |a|
  {
    hide Lawful, Sorted;
    SameSize(a, b);
    if a != [] {
      FirstSame(a, b, tiebreak);
      SortedTail(a, tiebreak);
      SortedTail(b, tiebreak);
      SortedUnique(a[1..], b[1..], tiebreak);
      assert a == [a[0]] + a[1..] && b == [b[0]] + b[1..];
    }
  }

  lemma FirstSame(a: seq<SortedEntry>, b: seq<SortedEntry>, tiebreak: TieBreak)
    requires Lawful(tiebreak) && Sorted(a, tiebreak) && Sorted(b, tiebreak) && multiset(a) == multiset(b) && a != [] && b != []
    ensures a[0] == b[0]
  {
    assert a[0] in multiset(b) && b[0] in multiset(a);
    var j :| 0 <= j < |b| && b[j] == a[0];
    var i :| 0 <= i < |a| && a[i] == b[0];
    if i > 0 && j > 0 {
      OrderTotal(a[0], a[i], tiebreak);
    }
  }

  /** There is only one right answer. */
  lemma AnswersAgree(was: seq<SortedEntry>, op: Op, capacity: nat, tiebreak: TieBreak, naming: Naming,
                     a: Answer, nowA: seq<SortedEntry>, b: Answer, nowB: seq<SortedEntry>)
    requires Lawful(tiebreak)
    requires Answers(was, op, capacity, tiebreak, naming, a, nowA) && Answers(was, op, capacity, tiebreak, naming, b, nowB)
    ensures a == b && nowA == nowB
  {
    if op.RebuildOp? && |op.names| <= capacity { SortedUnique(nowA, nowB, tiebreak); }
  }

  // ----- finding by full name -----

  /** Entries under the keys of their contacts' names. */
  ghost predicate KeyedBy(s: seq<SortedEntry>, names: nat -> Text) {
    forall i :: 0 <= i < |s| ==> s[i].key == MakeKey(names(s[i].contactIndex)) && s[i].contactIndex != NOT_FOUND
  }

  /** An entry compares equal with the probe exactly if its contact has the name searched for. */
  lemma TiesByName(s: seq<SortedEntry>, names: nat -> Text, name: Text, i: nat)
    requires KeyedBy(s, names) && i < |s| && s[i].contactIndex != PROBE_SECTOR
    ensures EntryCmp(s[i], Probe(name), ByName(names, name)) == 0 <==> names(s[i].contactIndex) == name
  {
    MemCmpEqual(s[i].key, MakeKey(name));
    NameTotal(Contact(names(s[i].contactIndex), []), Contact(name, []));
    hide NameCmp, MemCmp, MakeKey;
  }

  /** With the callback that compares full names, a find returns the first entry of exactly that
      name, and reports none exactly if there is none: also among names with the same key. */
  lemma FindsByName(s: seq<SortedEntry>, names: nat -> Text, name: Text)
    requires Sorted(s, ByName(names, name)) && KeyedBy(s, names)
    ensures var found := FoundIn(s, Probe(name), ByName(names, name));
      if found == NOT_FOUND then forall i :: 0 <= i < |s| ==> names(s[i].contactIndex) != name
      else exists i :: 0 <= i < |s| && s[i].contactIndex == found && names(found) == name
                       && forall j :: 0 <= j < i ==> names(s[j].contactIndex) != name
  {
    var order, e := ByName(names, name), Probe(name);
    var p := Place(s, e, order);
    ByNameLawful(names, name);
    PlaceSorted(s, e, order);
    hide Lawful, NameCmp, MakeKey, Place, ByName;
    forall i | 0 <= i < |s|
      ensures EntryCmp(s[i], e, order) == 0 <==> names(s[i].contactIndex) == name
      ensures i < p ==> names(s[i].contactIndex) != name
      ensures p < i && names(s[i].contactIndex) == name ==> EntryCmp(s[p], e, order) == 0
    {
      TiesByName(s, names, name, i);
      if p < i && EntryCmp(s[i], e, order) == 0 { LessTransitive(s[p], s[i], e, order); }
    }
  }

  /** The operation names its contacts by their names. */
  predicate NamedBy(op: Op, names: nat -> Text) {
    match op
    case InsertOp(name, sector) => names(sector) == name && sector != NOT_FOUND
    case RebuildOp(all, sectors) => |all| == |sectors| && forall i :: 0 <= i < |all| ==> names(sectors[i]) == all[i] && sectors[i] != NOT_FOUND
    case _ => true
  }

  /** Such operations keep every entry under the key of its contact's name. */
  lemma KeyedKept(was: seq<SortedEntry>, op: Op, capacity: nat, tiebreak: TieBreak, naming: Naming, answer: Answer, now: seq<SortedEntry>, names: nat -> Text)
    requires Answers(was, op, capacity, tiebreak, naming, answer, now) && KeyedBy(was, names) && NamedBy(op, names)
    ensures KeyedBy(now, names)
  {
    hide Sorted, MakeKey;
    if op.RebuildOp? && now != [] {
      var all := EntriesOf(op.names, op.sectors);
      forall i | 0 <= i < |now|
        ensures now[i].key == MakeKey(names(now[i].contactIndex)) && now[i].contactIndex != NOT_FOUND
      {
        assert now[i] in multiset(all);
        var k :| 0 <= k < |all| && all[k] == now[i];
      }
    }
  }

  // ----- driving both -----

  method ListTree(it: AvlIter, n: nat) returns (entries: seq<SortedEntry>)
    requires it.Valid() && it.Falling()
    modifies it, it.stack
    ensures entries == FirstOf(old(it.Remaining()), n)
  {
    hide AvlIter.Valid, AvlIter.Falling, AvlIter.Remaining;
    entries := [];
    ghost var all := it.Remaining();
    for i := 0 to n
      invariant it.Valid() && it.Falling() && entries + it.Remaining() == all && |entries| == i
    {
      var ok, out := it.Next();
      if !ok {
        return;
      }
      entries := entries + [out];
    }
  }

  method ListArray(it: ArrayIter, n: nat) returns (entries: seq<SortedEntry>)
    requires it.a.Valid()
    modifies it
    ensures entries == FirstOf(old(it.Remaining()), n)
  {
    hide NameArray.Valid, ArrayIter.Remaining;
    entries := [];
    ghost var all := it.Remaining();
    for i := 0 to n
      invariant it.a.Valid() && entries + it.Remaining() == all && |entries| == i
    {
      var ok, out := it.Next();
      if !ok {
        return;
      }
      entries := entries + [out];
    }
  }

  method DriveTree(t: AvlTree, op: Op, naming: Naming) returns (answer: Answer)
    requires t.Valid() && OpOk(op) && LawfulNaming(naming, t.tiebreak)
    modifies t, t.n
    ensures t.Valid() && Answers(old(t.Index()), op, t.n.Length, t.tiebreak, naming, answer, t.Index())
  {
    hide AvlTree.Valid, AvlTree.Index, Sorted, Present, Place, ContactsDistinct;
    match op
    case InsertOp(name, sector) =>
      var ok := t.Insert(MakeKey(name), sector);
      answer := Done(ok);
    case RemoveOp(name, sector) =>
      var ok := t.Remove(MakeKey(name), sector);
      answer := Done(ok);
    case MessageOp(name, sector, message) =>
      var ok := t.SetMessage(MakeKey(name), sector, message);
      answer := Done(ok);
    case FindOp(name) =>
      var found := Find(t, name, naming(name));
      answer := Found(found);
    case SeekOp(name, n) =>
      answer := SeekTree(t, name, n, naming);
    case RankOp(rank, n) =>
      answer := RankTree(t, rank, n, naming);
    case RebuildOp(names, sectors) =>
      TreeShape(t);
      var ok := Rebuild(t, names, sectors);
      TreeSorted(t);
      answer := Done(ok);
  }

  lemma TreeShape(t: AvlTree)
    requires t.Valid()
    ensures 0 < t.n.Length <= MAX_ENTRIES && Lawful(t.tiebreak)
  {
  }

  lemma TreeSorted(t: AvlTree)
    requires t.Valid()
    ensures Sorted(t.Index(), t.tiebreak)
  {
  }

  method SeekTree(t: AvlTree, name: Text, n: nat, naming: Naming) returns (answer: Answer)
    requires t.Valid() && LawfulNaming(naming, t.tiebreak)
    ensures Answers(t.Index(), SeekOp(name, n), t.n.Length, t.tiebreak, naming, answer, t.Index())
  {
    hide AvlTree.Valid, AvlTree.Index, Place;
    var it := new AvlIter(t);
    var ok := it.Seek(name, naming(name));
    var entries := ListTree(it, n);
    answer := Listed(entries);
  }

  method RankTree(t: AvlTree, rank: nat, n: nat, ghost naming: Naming) returns (answer: Answer)
    requires t.Valid()
    ensures Answers(t.Index(), RankOp(rank, n), t.n.Length, t.tiebreak, naming, answer, t.Index())
  {
    hide AvlTree.Valid, AvlTree.Index;
    var it := new AvlIter(t);
    var ok := it.SeekRank(rank);
    answer := Done(false);
    if ok {
      var entries := ListTree(it, n);
      answer := Listed(entries);
    }
  }

  method DriveArray(a: NameArray, op: Op, naming: Naming) returns (answer: Answer)
    requires a.Valid() && OpOk(op) && LawfulNaming(naming, a.tiebreak)
    modifies a, a.e
    ensures a.Valid() && Answers(old(a.Index()), op, a.e.Length, a.tiebreak, naming, answer, a.Index())
  {
    hide NameArray.Valid, NameArray.Index, Sorted, Present, Place, ContactsDistinct;
    match op
    case InsertOp(name, sector) =>
      var ok := a.Insert(MakeKey(name), sector);
      answer := Done(ok);
    case RemoveOp(name, sector) =>
      var ok := a.Remove(MakeKey(name), sector);
      answer := Done(ok);
    case MessageOp(name, sector, message) =>
      var ok := a.SetMessage(MakeKey(name), sector, message);
      answer := Done(ok);
    case FindOp(name) =>
      var found := a.Find(name, naming(name));
      answer := Found(found);
    case SeekOp(name, n) =>
      answer := SeekArray(a, name, n, naming);
    case RankOp(rank, n) =>
      answer := RankArray(a, rank, n, naming);
    case RebuildOp(names, sectors) =>
      ArrayShape(a);
      var ok := RebuildArray(a, names, sectors);
      ArraySorted(a);
      answer := Done(ok);
  }

  method SeekArray(a: NameArray, name: Text, n: nat, naming: Naming) returns (answer: Answer)
    requires a.Valid() && LawfulNaming(naming, a.tiebreak)
    ensures Answers(a.Index(), SeekOp(name, n), a.e.Length, a.tiebreak, naming, answer, a.Index())
  {
    hide NameArray.Valid, NameArray.Index, Place;
    var it := new ArrayIter(a);
    it.Seek(name, naming(name));
    var entries := ListArray(it, n);
    answer := Listed(entries);
  }

  method RankArray(a: NameArray, rank: nat, n: nat, ghost naming: Naming) returns (answer: Answer)
    requires a.Valid()
    ensures Answers(a.Index(), RankOp(rank, n), a.e.Length, a.tiebreak, naming, answer, a.Index())
  {
    hide NameArray.Valid, NameArray.Index;
    var it := new ArrayIter(a);
    var ok := it.SeekRank(rank);
    answer := Done(false);
    if ok {
      var entries := ListArray(it, n);
      answer := Listed(entries);
    }
  }

  lemma ArrayShape(a: NameArray)
    requires a.Valid()
    ensures a.e.Length <= MAX_ENTRIES && Lawful(a.tiebreak)
  {
  }

  lemma ArraySorted(a: NameArray)
    requires a.Valid()
    ensures Sorted(a.Index(), a.tiebreak)
  {
  }

  /** Driven by the same operations, tree and array give the same answers throughout, each search
      with the callback for its own name. */
  method DriveBoth(t: AvlTree, a: NameArray, ops: seq<Op>, naming: Naming) returns (fromTree: seq<Answer>, fromArray: seq<Answer>)
    requires t.Valid() && a.Valid() && t.Index() == a.Index() && t.tiebreak == a.tiebreak && t.n.Length == a.e.Length
    requires (forall i :: 0 <= i < |ops| ==> OpOk(ops[i])) && LawfulNaming(naming, t.tiebreak)
    modifies t, t.n, a, a.e
    ensures t.Valid() && a.Valid() && fromTree == fromArray && |fromTree| == |ops| && t.Index() == a.Index()
  {
    hide AvlTree.Valid, AvlTree.Index, NameArray.Valid, NameArray.Index, Answers, LawfulNaming;
    fromTree, fromArray := [], [];
    ArrayShape(a);
    for i := 0 to |ops|
      invariant t.Valid() && a.Valid() && t.Index() == a.Index() && fromTree == fromArray && |fromTree| == i
    {
      ghost var was := t.Index();
      var x := DriveTree(t, ops[i], naming);
      var y := DriveArray(a, ops[i], naming);
      AnswersAgree(was, ops[i], t.n.Length, t.tiebreak, naming, x, t.Index(), y, a.Index());
      fromTree, fromArray := fromTree + [x], fromArray + [y];
    }
  }
}
