/** The other candidate name index: a sorted array of entries, searched by bisection. */
module NameArrays {
  import opened Layout
  import opened StorageCard
  import opened FreeLists
  import opened IndexOrder
  import opened AvlSearch
  import opened AvlIterators
  import opened AvlRebuild
  import AvlPool
  import opened Heaps
  import opened ArrayMoves

  class NameArray {
    const e: array<SortedEntry>
    const tiebreak: TieBreak
    var count: nat

    ghost predicate Valid()
      reads this, e
    {
      e.Length <= MAX_ENTRIES && count <= e.Length && Lawful(tiebreak) && Sorted(e[..count], tiebreak)
    }

    /** The entries, in order. */
    ghost function Index(): seq<SortedEntry>
      reads this, e
    {
      if count <= e.Length then e[..count] else []
    }

    constructor (capacity: nat, tiebreak: TieBreak)
      requires capacity <= MAX_ENTRIES && Lawful(tiebreak)
      ensures Valid() && fresh(e) && e.Length == capacity && this.tiebreak == tiebreak && Index() == []
    {
      e := new SortedEntry[capacity](_ => NO_ENTRY);
      this.tiebreak, count := tiebreak, 0;
    }

    /** Bisection for an entry's slot: its place, or where it would be inserted. */
    method SearchExact(probe: SortedEntry) returns (found: bool, pos: nat)
      requires Valid() && probe.contactIndex != PROBE_SECTOR
      ensures found <==> Present(Index(), probe, tiebreak)
      ensures pos == Place(Index(), probe, tiebreak)
    {
      ghost var s := e[..count];
      PlaceSorted(s, probe, tiebreak);
      var lo, hi := 0, count;
      while lo < hi
        invariant lo <= Place(s, probe, tiebreak) <= hi <= count
        invariant hi < count ==> EntryCmp(s[hi], probe, tiebreak) > 0
      {
        var mid := lo + (hi - lo) / 2;
        var c := EntryCmp(e[mid], probe, tiebreak);
        if c == 0 {
          PlaceExact(s, probe, mid, tiebreak);
          return true, mid;
        }
        if c < 0 {
          lo := mid + 1;
        } else {
          hi := mid;
        }
      }
      return false, lo;
    }

    /** The first entry that is not smaller than the probe, by the callback during this search. */
    method LowerBound(probe: SortedEntry, order: TieBreak) returns (pos: nat)
      requires Valid() && Lawful(order) && SameContacts(order, tiebreak)
      ensures pos == Place(Index(), probe, order) && pos <= count
    {
      ghost var s := e[..count];
      SortedForAll(s, tiebreak, order);
      PlaceSorted(s, probe, order);
      var lo, hi := 0, count;
      while lo < hi
        invariant lo <= Place(s, probe, order) <= hi <= count
      {
        var mid := lo + (hi - lo) / 2;
        if EntryCmp(e[mid], probe, order) < 0 {
          lo := mid + 1;
        } else {
          hi := mid;
        }
      }
      return lo;
    }

    /** Inserts an entry, unless the array is full or its slot is there already. */
    method Insert(key: Key, contactIndex: nat) returns (ok: bool)
      requires Valid() && contactIndex != PROBE_SECTOR
      modifies this, e
      ensures Valid()
      ensures var x := SortedEntry(key, contactIndex, NO_MESSAGE);
        && (ok <==> |old(Index())| < e.Length && !Present(old(Index()), x, tiebreak))
        && Index() == if ok then Added(old(Index()), x, tiebreak) else old(Index())
    {
      if count >= e.Length {
        return false;
      }
      var x := SortedEntry(key, contactIndex, NO_MESSAGE);
      var found, pos := SearchExact(x);
      if found {
        return false;
      }
      ghost var was := e[..count];
      AddedSorted(was, x, tiebreak);
      InsertAt(e, count, pos, x);
      count := count + 1;
      return true;
    }

    /** Removes the entry with this slot. */
    method Remove(key: Key, contactIndex: nat) returns (ok: bool)
      requires Valid() && contactIndex != PROBE_SECTOR
      modifies this, e
      ensures Valid()
      ensures var x := SortedEntry(key, contactIndex, NO_MESSAGE);
        && (ok <==> Present(old(Index()), x, tiebreak)) && Index() == Taken(old(Index()), x, tiebreak)
    {
      var x := SortedEntry(key, contactIndex, NO_MESSAGE);
      var found, pos := SearchExact(x);
      if !found {
        return false;
      }
      ghost var was := e[..count];
      TakenSorted(was, x, tiebreak);
      RemoveAt(e, count, pos);
      count := count - 1;
      return true;
    }

    /** Looks a name up: of the entries with that name, the first. */
    method Find(name: Text, probe: TieBreak) returns (found: nat)
      requires Valid() && Lawful(probe) && SameContacts(probe, tiebreak)
      ensures found == FoundIn(Index(), Probe(name), probe)
    {
      var pos := LowerBound(Probe(name), probe);
      if pos < count && EntryCmp(e[pos], Probe(name), probe) == 0 {
        return e[pos].contactIndex;
      }
      return NOT_FOUND;
    }

    /** Changes the message of an entry in place. */
    method SetMessage(key: Key, contactIndex: nat, messageIndex: nat) returns (ok: bool)
      requires Valid() && contactIndex != PROBE_SECTOR
      modifies e
      ensures Valid()
      ensures var x := SortedEntry(key, contactIndex, NO_MESSAGE);
        && (ok <==> Present(old(Index()), x, tiebreak)) && Index() == Marked(old(Index()), x, messageIndex, tiebreak)
    {
      var x := SortedEntry(key, contactIndex, NO_MESSAGE);
      var found, pos := SearchExact(x);
      if !found {
        return false;
      }
      ghost var was := e[..count];
      AvlPool.MarkedSorted(was, x, messageIndex, tiebreak);
      e[pos] := e[pos].(messageIndex := messageIndex);
      assert e[..count] == was[pos := was[pos].(messageIndex := messageIndex)];
      return true;
    }
  }

  /** An entry that compares equal stands at its place. */
  lemma PlaceExact(s: seq<SortedEntry>, probe: SortedEntry, mid: nat, tiebreak: TieBreak)
    requires Lawful(tiebreak) && Sorted(s, tiebreak) && mid < |s| && probe.contactIndex != PROBE_SECTOR
    requires EntryCmp(s[mid], probe, tiebreak) == 0
    ensures Place(s, probe, tiebreak) == mid && Present(s, probe, tiebreak)
  {
    assert s == s[..mid] + [s[mid]] + s[mid + 1..];
    PlaceMiddle(s[..mid], s[mid], s[mid + 1..], probe, tiebreak);
  }

  /** A position in the array. */
  class ArrayIter {
    const a: NameArray
    var pos: nat

    constructor (a: NameArray)
      ensures this.a == a && pos == 0
    {
      this.a, pos := a, 0;
    }

    /** What is still to come. */
    ghost function Remaining(): seq<SortedEntry>
      reads this, a, a.e
    {
      if pos <= |a.Index()| then a.Index()[pos..] else []
    }

    method SeekRank(rank: nat) returns (ok: bool)
      requires a.Valid()
      modifies this
      ensures ok <==> rank < |a.Index()|
      ensures ok ==> Remaining() == a.Index()[rank..]
    {
      pos := rank;
      return rank < a.count;
    }

    method Seek(name: Text, probe: TieBreak)
      requires a.Valid() && Lawful(probe) && SameContacts(probe, a.tiebreak)
      modifies this
      ensures Remaining() == a.Index()[Place(a.Index(), Probe(name), probe)..]
    {
      pos := a.LowerBound(Probe(name), probe);
    }

    method Next() returns (ok: bool, out: SortedEntry)
      requires a.Valid()
      modifies this
      ensures ok <==> old(Remaining()) != []
      ensures if ok then old(Remaining()) == [out] + Remaining() else Remaining() == []
    {
      if pos >= a.count {
        return false, NO_ENTRY;
      }
      out := a.e[pos];
      pos := pos + 1;
      return true, out;
    }
  }

  // ----- the bulk rebuild -----

  function EntryOrder(tiebreak: TieBreak): (SortedEntry, SortedEntry) -> int {
    (a: SortedEntry, b: SortedEntry) => EntryCmp(a, b, tiebreak)
  }

  ghost function RealEntries(): iset<SortedEntry> { iset x: SortedEntry | x.contactIndex != PROBE_SECTOR }

  lemma EntriesOrdered(tiebreak: TieBreak)
    requires Lawful(tiebreak)
    ensures Orders(EntryOrder(tiebreak), RealEntries())
  {
    var cmp, dom := EntryOrder(tiebreak), RealEntries();
    forall x, y | x in dom && y in dom
      ensures cmp(x, y) <= 0 <==> cmp(y, x) >= 0
    {
      OrderTotal(x, y, tiebreak);
      OrderTotal(y, x, tiebreak);
    }
    forall x, y, z | x in dom && y in dom && z in dom && cmp(x, y) <= 0 && cmp(y, z) <= 0
      ensures cmp(x, z) <= 0
    {
      OrderTotal(x, y, tiebreak);
      if cmp(x, y) < 0 { LessTransitive(x, y, z, tiebreak); }
    }
  }

  lemma EntriesStrictly(was: seq<SortedEntry>, now: seq<SortedEntry>, tiebreak: TieBreak)
    requires Lawful(tiebreak) && ContactsDistinct(was) && multiset(now) == multiset(was) && Ascending(now, EntryOrder(tiebreak))
    ensures Sorted(now, tiebreak)
  {
    ContactsPermuted(was, now);
    forall i, j | 0 <= i < j < |now|
      ensures Less(now[i], now[j], tiebreak)
    {
      OrderTotal(now[i], now[j], tiebreak);
      assert EntryOrder(tiebreak)(now[i], now[j]) <= 0;
    }
  }

  /** Rebuilds the array from names and their contacts, in any order. */
  method RebuildArray(a: NameArray, names: seq<Text>, sectors: seq<nat>) returns (ok: bool)
    requires a.e.Length <= MAX_ENTRIES && Lawful(a.tiebreak) && |names| == |sectors|
    requires (forall i :: 0 <= i < |sectors| ==> sectors[i] != PROBE_SECTOR) && FreeLists.Distinct(sectors)
    modifies a, a.e
    ensures a.Valid() && (ok <==> |names| <= a.e.Length)
    ensures ok ==> multiset(a.Index()) == multiset(EntriesOf(names, sectors))
    ensures !ok ==> a.Index() == []
  {
    a.count := 0;
    if |names| > a.e.Length {
      return false;
    }
    for i := 0 to |names|
      invariant a.count == i && a.e[..i] == EntriesOf(names[..i], sectors[..i])
    {
      a.e[i] := SortedEntry(MakeKey(names[i]), sectors[i], NO_MESSAGE);
      a.count := a.count + 1;
      assert a.e[..i + 1] == a.e[..i] + [a.e[i]];
      assert EntriesOf(names[..i + 1], sectors[..i + 1]) == EntriesOf(names[..i], sectors[..i]) + [a.e[i]];
    }
    ghost var all := EntriesOf(names, sectors);
    assert names[..|names|] == names && sectors[..|names|] == sectors;
    EntriesOrdered(a.tiebreak);
    HeapSort(a.e, a.count, EntryOrder(a.tiebreak), RealEntries());
    EntriesStrictly(all, a.e[..a.count], a.tiebreak);
    return true;
  }
}
