/** The name index of the database: the hash slots of the contacts, in the order of their names.
    An entry holds only the key; on a tie the contact is read from the card. */
module SortedArrays {
  import opened Layout
  import opened StorageCard
  import opened UsageBitmaps
  import opened Transactions
  import opened FreeLists
  import opened Contacts
  import opened HashTables
  import opened Agreement
  import opened Contents
  import opened HashOperations
  import opened IndexOrder
  import opened NameOrder
  import opened Heaps
  import opened ArrayMoves

  datatype NameEntry = NameEntry(key: Key, hashSlot: nat)

  const NO_CONTACT := Contact([], [])

  /** The contact in a hash slot. */
  function Named(table: seq<HashEntry>, contacts: map<nat, Contact>, slot: nat): Contact {
    if slot < |table| && table[slot].sector in contacts then contacts[table[slot].sector] else NO_CONTACT
  }

  predicate EntryOk(table: seq<HashEntry>, contacts: map<nat, Contact>, e: NameEntry) {
    && e.hashSlot < |table| && table[e.hashSlot].state == EntryOccupied && table[e.hashSlot].sector in contacts
    && e.key == MakeKey(Named(table, contacts, e.hashSlot).name)
  }

  function Names(entries: seq<NameEntry>, table: seq<HashEntry>, contacts: map<nat, Contact>): (s: seq<Contact>)
    ensures |s| == |entries|
    ensures forall i :: 0 <= i < |s| ==> s[i] == Named(table, contacts, entries[i].hashSlot)
  {
    seq(|entries|, i requires 0 <= i < |entries| => Named(table, contacts, entries[i].hashSlot))
  }

  ghost predicate NamesSorted(s: seq<Contact>) {
    forall i, j :: 0 <= i < j < |s| ==> NameCmp(s[i], s[j]) < 0
  }

  /** Every entry is that of a contact, and they are in order. */
  ghost predicate NamesOk(entries: seq<NameEntry>, table: seq<HashEntry>, contacts: map<nat, Contact>) {
    && (forall i :: 0 <= i < |entries| ==> EntryOk(table, contacts, entries[i]))
    && NamesSorted(Names(entries, table, contacts))
  }

  // ----- looking up -----

  /** What is searched for: a contact, or just a name. */
  datatype Wanted = WantedContact(contact: Contact) | WantedName(name: Text)

  function WantedText(w: Wanted): Text {
    match w case WantedContact(c) => c.name case WantedName(n) => n
  }

  function WantedCmp(w: Wanted, c: Contact): int {
    match w
    case WantedContact(x) => NameCmp(x, c)
    case WantedName(n) => Lex(Fold(n), Fold(c.name))
  }

  /** What is larger than one name is larger than all names before it. */
  lemma WantedMonotone(w: Wanted, a: Contact, b: Contact)
    requires NameCmp(a, b) < 0 && WantedCmp(w, b) > 0
    ensures WantedCmp(w, a) > 0
  {
    match w
    case WantedContact(x) =>
      NameTotal(b, x);
      NameTotal(x, b);
      NameTotal(a, x);
      NameTotal(x, a);
      NameTransitive(a, b, x);
    case WantedName(n) =>
      var x, y, z := Fold(a.name), Fold(b.name), Fold(n);
      LexFlip(y, z);
      LexFlip(z, y);
      LexFlip(x, z);
      LexFlip(z, x);
      LexEqual(x, z);
      LexEqual(x, y);
      LexTransitive(x, y, z);
  }

  /** The lower bound: everything before it is smaller, nothing from it on is. */
  ghost predicate BoundAt(names: seq<Contact>, w: Wanted, p: nat) {
    && p <= |names|
    && (forall i :: 0 <= i < p ==> WantedCmp(w, names[i]) > 0)
    && (forall i :: p <= i < |names| ==> WantedCmp(w, names[i]) <= 0)
  }

  /** The first contact of this name, without regard to case. */
  predicate FirstNamed(names: seq<Contact>, name: Text, i: nat) {
    && i < |names| && Fold(names[i].name) == Fold(name)
    && forall j :: 0 <= j < i ==> Fold(names[j].name) != Fold(name)
  }

  lemma SoughtRank(names: seq<Contact>, prefix: Text, rank: nat)
    requires BoundAt(names, WantedName(prefix), rank)
    ensures rank <= |names|
    ensures forall i :: 0 <= i < rank ==> Lex(Fold(names[i].name), Fold(prefix)) < 0
    ensures forall i :: rank <= i < |names| ==> Lex(Fold(names[i].name), Fold(prefix)) >= 0
  {
    forall i | 0 <= i < |names|
      ensures Lex(Fold(names[i].name), Fold(prefix)) < 0 <==> WantedCmp(WantedName(prefix), names[i]) > 0
    {
      LexFlip(Fold(names[i].name), Fold(prefix));
    }
  }

  lemma SoughtFirst(names: seq<Contact>, prefix: Text, rank: nat, i: nat)
    requires NamesSorted(names) && FirstNamed(names, prefix, i) && rank <= |names|
    requires forall i :: 0 <= i < rank ==> Lex(Fold(names[i].name), Fold(prefix)) < 0
    requires forall i :: rank <= i < |names| ==> Lex(Fold(names[i].name), Fold(prefix)) >= 0
    ensures rank == i
  {
    LexEqual(Fold(names[i].name), Fold(prefix));
    if rank < i {
      assert NameCmp(names[rank], names[i]) < 0;
      LexEqual(Fold(names[rank].name), Fold(prefix));
    }
  }

  /** The probe of the table: the same order, keys first. */
  function WantedKeyed(w: Wanted, c: Contact): int {
    var k := MemCmp(MakeKey(WantedText(w)), MakeKey(c.name));
    if k != 0 then k else WantedCmp(w, c)
  }

  lemma WantedKeySafe(w: Wanted, c: Contact)
    ensures Sign(WantedKeyed(w, c)) == Sign(WantedCmp(w, c))
  {
    var n := WantedText(w);
    if MemCmp(MakeKey(n), MakeKey(c.name)) != 0 {
      KeyPadded(n);
      KeyPadded(c.name);
      PrefixDecides(Fold(n), Fold(c.name), KEY_LENGTH);
    }
  }

  /** Reads the contact of an entry. */
  method ReadNamed(t: HashTable, e: NameEntry) returns (ret: Ret, c: Contact)
    requires t.Valid() && EntryOk(t.ram.table, t.contacts, e)
    ensures ret == Ok && c == Named(t.ram.table, t.contacts, e.hashSlot)
  {
    hide Ready, Holds, UsageBitmap.Valid;
    ReadyFacts(t.storage, t.journal, t.bitmap);
    SlotFacts(t.storage.sectors, t.bitmap.bits, t.ram, t.contacts, t.messages, t.ram.table[e.hashSlot].sector);
    ret, c := ReadContact(t.storage, t.bitmap, t.htable[e.hashSlot].sector);
  }

  /** Compares what is wanted with an entry. */
  method CmpEntry(t: HashTable, w: Wanted, e: NameEntry) returns (ret: Ret, order: int)
    requires t.Valid() && EntryOk(t.ram.table, t.contacts, e)
    ensures ret == Ok && Sign(order) == Sign(WantedCmp(w, Named(t.ram.table, t.contacts, e.hashSlot)))
  {
    hide HashTable.Valid;
    ghost var c := Named(t.ram.table, t.contacts, e.hashSlot);
    WantedKeySafe(w, c);
    order := MemCmp(MakeKey(WantedText(w)), e.key);
    if order != 0 {
      return Ok, order;
    }
    var read;
    ret, read := ReadNamed(t, e);
    order := TieBreakFor(w, read);
    return Ok, order;
  }

  method TieBreakFor(w: Wanted, c: Contact) returns (order: int)
    ensures order == WantedCmp(w, c)
  {
    order := BytesCmp(WantedText(w), c.name, true);
    if order != 0 || w.WantedName? {
      return;
    }
    order := BytesCmp(w.contact.name, c.name, false);
    if order != 0 {
      return;
    }
    order := BytesCmp(w.contact.phone, c.phone, false);
  }

  class SortedArray {
    const mem: array<NameEntry>
    var occupancy: nat

    constructor ()
      ensures fresh(mem) && mem.Length == MAX_CONTACTS && occupancy == 0
    {
      mem := new NameEntry[MAX_CONTACTS](_ => NameEntry([0, 0, 0, 0, 0, 0, 0, 0], 0));
      occupancy := 0;
    }

    ghost function Entries(): (s: seq<NameEntry>)
      reads this, mem
    {
      if occupancy <= mem.Length then mem[..occupancy] else []
    }

    /** The index lists contacts of the hash table, in order. */
    ghost predicate Valid(table: seq<HashEntry>, contacts: map<nat, Contact>)
      reads this, mem
    {
      mem.Length == MAX_CONTACTS && occupancy <= mem.Length && NamesOk(mem[..occupancy], table, contacts)
    }

    /** Bisection: the lower bound of what is wanted, and whether it is exactly there. */
    method LowerBound(t: HashTable, w: Wanted) returns (ret: Ret, p: nat, exact: bool)
      requires t.Valid() && Valid(t.ram.table, t.contacts)
      ensures ret == Ok
      ensures var names := Names(Entries(), t.ram.table, t.contacts);
        BoundAt(names, w, p) && (exact <==> p < |names| && WantedCmp(w, names[p]) == 0)
    {
      hide Ready, Holds, NameCmp, EntryOk, WantedCmp, Between, NamesSorted;
      ghost var names := Names(mem[..occupancy], t.ram.table, t.contacts);
      var lo, hi := 0, occupancy;
      exact := false;
      AllBetween(names, w);
      while lo < hi
        invariant 0 <= lo <= hi <= occupancy && Between(names, w, lo, hi)
        invariant exact <==> hi < occupancy && WantedCmp(w, names[hi]) == 0
      {
        var mid := lo + (hi - lo) / 2;
        assert mem[..occupancy][mid] == mem[mid];
        var order;
        ret, order := CmpEntry(t, w, mem[mid]);
        Narrows(names, w, lo, mid, hi);
        if order > 0 {
          lo := mid + 1;
        } else {
          hi := mid;
          exact := order == 0;
        }
      }
      BetweenBound(names, w, lo);
      return Ok, lo, exact;
    }

    method InsertEntry(c: Contact, hashSlot: nat, rank: nat, ghost table: seq<HashEntry>, ghost contacts: map<nat, Contact>)
      requires Valid(table, contacts) && occupancy < MAX_CONTACTS
      requires EntryOk(table, contacts, NameEntry(MakeKey(c.name), hashSlot)) && Named(table, contacts, hashSlot) == c
      requires BoundAt(Names(mem[..occupancy], table, contacts), WantedContact(c), rank) && c !in Names(mem[..occupancy], table, contacts)
      modifies this, mem
      ensures Valid(table, contacts)
      ensures multiset(Entries()) == multiset(old(Entries())) + multiset{NameEntry(MakeKey(c.name), hashSlot)}
    {
      hide NameCmp, EntryOk, WantedCmp, BoundAt, NamesOk, Names;
      ghost var was, e := mem[..occupancy], NameEntry(MakeKey(c.name), hashSlot);
      BoundRange(Names(was, table, contacts), WantedContact(c), rank);
      NamesSize(was, table, contacts);
      InsertAt(mem, occupancy, rank, NameEntry(MakeKey(c.name), hashSlot));
      occupancy := occupancy + 1;
      InsertedNames(was, table, contacts, e, rank);
    }

    method RemoveEntry(rank: nat, ghost table: seq<HashEntry>, ghost contacts: map<nat, Contact>)
      requires Valid(table, contacts) && rank < occupancy
      modifies this, mem
      ensures Valid(table, contacts)
      ensures multiset(old(Entries())) == multiset(Entries()) + multiset{old(mem[rank])}
    {
      hide NameCmp, EntryOk, NamesOk, Names;
      ghost var was := mem[..occupancy];
      RemoveAt(mem, occupancy, rank);
      occupancy := occupancy - 1;
      RemovedNames(was, table, contacts, rank);
    }

    /** Adds the entry of a contact, unless the index is full or the contact is listed already. */
    method Insert(t: HashTable, c: Contact, hashSlot: nat) returns (ret: Ret)
      requires t.Valid() && Valid(t.ram.table, t.contacts)
      requires EntryOk(t.ram.table, t.contacts, NameEntry(MakeKey(c.name), hashSlot)) && Named(t.ram.table, t.contacts, hashSlot) == c
      modifies this, mem
      ensures Valid(t.ram.table, t.contacts)
      ensures ret == if |old(Entries())| >= MAX_CONTACTS then Full
                     else if c in Names(old(Entries()), t.ram.table, t.contacts) then Fail else Ok
      ensures if ret == Ok then multiset(Entries()) == multiset(old(Entries())) + multiset{NameEntry(MakeKey(c.name), hashSlot)}
              else Entries() == old(Entries())
    {
      hide HashTable.Valid, NameCmp, EntryOk, WantedCmp, BoundAt, NamesOk, Names;
      if occupancy >= MAX_CONTACTS {
        return Full;
      }
      ghost var was := Names(mem[..occupancy], t.ram.table, t.contacts);
      var rank, exact;
      ret, rank, exact := LowerBound(t, WantedContact(c));
      NamesInOrder(mem[..occupancy], t.ram.table, t.contacts);
      ExactIs(was, c, rank);
      if exact {
        return Fail;
      }
      InsertEntry(c, hashSlot, rank, t.ram.table, t.contacts);
      return Ok;
    }

    /** Takes the entry of a contact out. */
    method Remove(t: HashTable, c: Contact) returns (ret: Ret, ghost e: NameEntry)
      requires t.Valid() && Valid(t.ram.table, t.contacts)
      modifies this, mem
      ensures Valid(t.ram.table, t.contacts)
      ensures ret == if old(Entries()) == [] then Full
                     else if c in Names(old(Entries()), t.ram.table, t.contacts) then Ok else Fail
      ensures if ret == Ok then multiset(old(Entries())) == multiset(Entries()) + multiset{e} && Named(t.ram.table, t.contacts, e.hashSlot) == c
              else Entries() == old(Entries())
    {
      hide HashTable.Valid, NameCmp, EntryOk, WantedCmp, BoundAt, NamesOk, Names, Named;
      e := NameEntry([0, 0, 0, 0, 0, 0, 0, 0], 0);
      if occupancy <= 0 {
        return Full, e;
      }
      ghost var was := Names(mem[..occupancy], t.ram.table, t.contacts);
      var rank, exact;
      ret, rank, exact := LowerBound(t, WantedContact(c));
      NamesInOrder(mem[..occupancy], t.ram.table, t.contacts);
      ExactIs(was, c, rank);
      NamesSize(mem[..occupancy], t.ram.table, t.contacts);
      if !exact {
        return Fail, e;
      }
      e := mem[..occupancy][rank];
      RemoveEntry(rank, t.ram.table, t.contacts);
      return Ok, e;
    }

    /** The rank of the first contact whose name is not smaller than `prefix`, without regard to
        case: if there is a contact of exactly that name, the first of them. */
    method Seek(t: HashTable, prefix: Text) returns (ret: Ret, rank: nat)
      requires t.Valid() && Valid(t.ram.table, t.contacts)
      ensures ret == Ok
      ensures var names := Names(Entries(), t.ram.table, t.contacts);
        && rank <= |names|
        && (forall i :: 0 <= i < rank ==> Lex(Fold(names[i].name), Fold(prefix)) < 0)
        && (forall i :: rank <= i < |names| ==> Lex(Fold(names[i].name), Fold(prefix)) >= 0)
        && (forall i: nat :: FirstNamed(names, prefix, i) ==> rank == i)
    {
      hide Ready, Holds, NameCmp, EntryOk, WantedCmp, BoundAt, NamesSorted, Names, Lex, Fold, FirstNamed;
      var exact;
      ret, rank, exact := LowerBound(t, WantedName(prefix));
      SoughtRank(Names(Entries(), t.ram.table, t.contacts), prefix, rank);
      forall i: nat | FirstNamed(Names(Entries(), t.ram.table, t.contacts), prefix, i)
        ensures rank == i
      {
        SoughtFirst(Names(Entries(), t.ram.table, t.contacts), prefix, rank, i);
      }
    }

    // ----- sorting all entries at once -----

    /** Lets the entry at `root` sink to its place in the heap [0, end). */
    method SiftDown(t: HashTable, n: nat, root: nat, end: nat, ghost lo: nat)
      requires t.Valid() && end <= n <= mem.Length
      requires Within(mem[..n], Listable(t.ram.table, t.contacts))
      requires Sinking(mem[..n], lo, end, root, ByNameIn(t.ram.table, t.contacts))
      modifies mem
      ensures HeapFrom(mem[..n], lo, end, ByNameIn(t.ram.table, t.contacts)) && Mixed(old(mem[..n]), mem[..n], end)
    {
      hide Mixed, Ready, Holds, Within, Sinking, HeapFrom, NameCmp, EntryOk, Named, ByNameIn, Orders, Listable;
      ghost var table, contacts := t.ram.table, t.contacts;
      ghost var cmp, dom, s := ByNameIn(table, contacts), Listable(table, contacts), mem[..n];
      ByNameOrders(table, contacts);
      MixedSame(s, end);
      var r := root;
      while 2 * r + 1 < end
        invariant t.Valid() && Within(mem[..n], dom) && Sinking(mem[..n], lo, end, r, cmp) && Mixed(s, mem[..n], end)
        decreases end - r
      {
        ghost var now := mem[..n];
        var child, larger := LargerOf(t, n, r, end);
        if larger {
          SinkStops(now, lo, end, r, child, cmp, dom);
          return;
        }
        SinkOn(now, lo, end, r, child, cmp, dom);
        MixedOn(s, now, r, child, end);
        mem[r], mem[child] := mem[child], mem[r];
        assert mem[..n] == Swapped(now, r, child);
        WithinStill(now, mem[..n], dom);
        r := child;
      }
      SinkEnds(mem[..n], lo, end, r, cmp);
    }

    /** The larger child of `r`, and whether the entry at `r` is not smaller. */
    method LargerOf(t: HashTable, n: nat, r: nat, end: nat) returns (child: nat, larger: bool)
      requires t.Valid() && 2 * r + 1 < end <= n <= mem.Length && Within(mem[..n], Listable(t.ram.table, t.contacts))
      ensures LargerChild(mem[..n], r, child, end, ByNameIn(t.ram.table, t.contacts))
      ensures larger <==> ByNameIn(t.ram.table, t.contacts)(mem[r], mem[child]) >= 0
    {
      hide Ready, Holds, Within, NameCmp, EntryOk, Named, Orders, Listable;
      ghost var cmp, dom, s := ByNameIn(t.ram.table, t.contacts), Listable(t.ram.table, t.contacts), mem[..n];
      ByNameOrders(t.ram.table, t.contacts);
      ListableAt(s, t.ram.table, t.contacts);
      child := 2 * r + 1;
      Reflexive(s, child, cmp, dom);
      var ret, order;
      if child + 1 < end {
        Flips(s, child, child + 1, cmp, dom);
        Reflexive(s, child + 1, cmp, dom);
        ret, order := CmpEntries(t, mem[child], mem[child + 1]);
        if order < 0 {
          child := child + 1;
        }
      }
      ret, order := CmpEntries(t, mem[r], mem[child]);
      larger := order >= 0;
    }

    /** Moves the largest entry of the heap behind it, and repairs the heap. */
    method PopTop(t: HashTable, n: nat, end: nat)
      requires t.Valid() && n <= mem.Length && 0 < end < n
      requires Within(mem[..n], Listable(t.ram.table, t.contacts)) && PartSorted(mem[..n], end + 1, n, ByNameIn(t.ram.table, t.contacts))
      modifies mem
      ensures Within(mem[..n], Listable(t.ram.table, t.contacts)) && PartSorted(mem[..n], end, n, ByNameIn(t.ram.table, t.contacts))
      ensures multiset(mem[..n]) == old(multiset(mem[..n]))
    {
      hide Ready, Holds, Within, Sinking, HeapFrom, NameCmp, EntryOk, Named, ByNameIn, Orders, Listable, PartSorted, Settled;
      ghost var cmp, dom, was := ByNameIn(t.ram.table, t.contacts), Listable(t.ram.table, t.contacts), mem[..n];
      ByNameOrders(t.ram.table, t.contacts);
      TakeTop(was, end, n, cmp, dom);
      SwapKeeps(was, 0, end);
      mem[0], mem[end] := mem[end], mem[0];
      ghost var mid := mem[..n];
      assert mid == Swapped(was, 0, end);
      WithinStill(was, mid, dom);
      SiftDown(t, n, 0, end, 0);
      WithinStill(mid, mem[..n], dom);
      Repaired(mid, mem[..n], end, n, cmp);
    }

    method BuildHeap(t: HashTable, n: nat)
      requires t.Valid() && n <= mem.Length && Within(mem[..n], Listable(t.ram.table, t.contacts))
      modifies mem
      ensures Within(mem[..n], Listable(t.ram.table, t.contacts)) && PartSorted(mem[..n], n, n, ByNameIn(t.ram.table, t.contacts))
      ensures multiset(mem[..n]) == old(multiset(mem[..n]))
    {
      hide Ready, Holds, Within, Sinking, HeapFrom, NameCmp, EntryOk, Named, ByNameIn, Orders, Listable, PartSorted;
      ghost var cmp, dom := ByNameIn(t.ram.table, t.contacts), Listable(t.ram.table, t.contacts);
      var i: nat := n / 2;
      LeavesAreHeaps(mem[..n], n, cmp);
      while i > 0
        invariant t.Valid() && i <= n / 2 && Within(mem[..n], dom) && HeapFrom(mem[..n], i, n, cmp)
        invariant multiset(mem[..n]) == old(multiset(mem[..n]))
      {
        i := i - 1;
        SinkStarts(mem[..n], i, n, cmp);
        ghost var was := mem[..n];
        SiftDown(t, n, i, n, i);
        WithinStill(was, mem[..n], dom);
      }
      AllHeap(mem[..n], n, cmp);
    }

    /** Sorts the appended entries by heapsort, reading contacts from the card on ties. */
    method Sort(t: HashTable) returns (ret: Ret)
      requires t.Valid() && occupancy <= mem.Length && Within(mem[..occupancy], Listable(t.ram.table, t.contacts))
      modifies mem
      ensures ret == Ok && Ascending(mem[..occupancy], ByNameIn(t.ram.table, t.contacts))
      ensures multiset(mem[..occupancy]) == old(multiset(mem[..occupancy]))
    {
      hide Ready, Holds, Within, NameCmp, EntryOk, Named, ByNameIn, Listable, PartSorted;
      var n := occupancy;
      ret := Ok;
      if n < 2 {
        return;
      }
      BuildHeap(t, n);
      var end: nat := n - 1;
      while end > 0
        invariant t.Valid() && end < n && Within(mem[..n], Listable(t.ram.table, t.contacts))
        invariant PartSorted(mem[..n], end + 1, n, ByNameIn(t.ram.table, t.contacts))
        invariant multiset(mem[..n]) == old(multiset(mem[..n]))
      {
        PopTop(t, n, end);
        end := end - 1;
      }
      OneLeft(mem[..n], n, ByNameIn(t.ram.table, t.contacts));
    }

    /** Appends an entry for every occupied hash slot. */
    method Append(t: HashTable) returns (ret: Ret)
      requires t.Valid() && mem.Length == MAX_CONTACTS && occupancy == 0
      modifies this, mem
      ensures ret == Ok && occupancy <= mem.Length && Listing(mem[..occupancy], t.ram.table, t.contacts, HASH_TABLE_SIZE)
    {
      hide Ready, Holds, EntryOk, Named, Listing;
      NothingListed(t.ram.table, t.contacts);
      assert mem[..0] == [];
      for slot := 0 to HASH_TABLE_SIZE
        invariant t.Valid() && occupancy <= mem.Length && Listing(mem[..occupancy], t.ram.table, t.contacts, slot)
      {
        ghost var was := mem[..occupancy];
        Passed(was, t.ram.table, t.contacts, slot);
        if t.htable[slot].state == EntryOccupied {
          Room(t.storage.sectors, t.bitmap.bits, t.ram, t.contacts, t.messages, was, slot);
          var c;
          ret, c := ReadOccupied(t, slot);
          mem[occupancy] := NameEntry(MakeKey(c.name), slot);
          occupancy := occupancy + 1;
          assert mem[..occupancy] == was + [NameEntry(MakeKey(c.name), slot)];
          ListedOne(was, t.ram.table, t.contacts, slot);
        }
      }
      ret := Ok;
    }

    /** Rebuilds the index from the hash table: every contact, in hash slot order, then sorted. */
    method Build(t: HashTable) returns (ret: Ret)
      requires t.Valid() && mem.Length == MAX_CONTACTS
      modifies this, mem
      ensures ret == Ok && Valid(t.ram.table, t.contacts) && ListsAll(Entries(), t.ram.table)
    {
      hide Ready, Holds, NameCmp, EntryOk, Named;
      occupancy := 0;
      ret := Append(t);
      ghost var was := mem[..occupancy];
      ListingListable(was, t.ram.table, t.contacts, HASH_TABLE_SIZE);
      ret := Sort(t);
      BuiltOk(t.storage.sectors, t.bitmap.bits, t.ram, t.contacts, t.messages, was, mem[..occupancy]);
    }
  }

  /** Reads the contact of an occupied slot. */
  method ReadOccupied(t: HashTable, slot: nat) returns (ret: Ret, c: Contact)
    requires t.Valid() && slot < t.htable.Length && t.htable[slot].state == EntryOccupied
    ensures ret == Ok && c == Named(t.ram.table, t.contacts, slot)
  {
    hide Ready, Holds, UsageBitmap.Valid;
    ReadyFacts(t.storage, t.journal, t.bitmap);
    OccupiedContact(t.storage.sectors, t.bitmap.bits, t.ram, t.contacts, t.messages, slot);
    SlotFacts(t.storage.sectors, t.bitmap.bits, t.ram, t.contacts, t.messages, t.ram.table[slot].sector);
    ret, c := ReadContact(t.storage, t.bitmap, t.htable[slot].sector);
  }

  lemma OccupiedContact(card: Card, bits: seq<bool>, ram: Ram, contacts: map<nat, Contact>, messages: map<nat, seq<Message>>, j: nat)
    requires Holds(card, bits, ram, contacts, messages) && j < |ram.table| && ram.table[j].state == EntryOccupied
    ensures ram.table[j].sector in contacts && ram.table[j].sector in ram.places && ram.places[ram.table[j].sector].index == j
    ensures ram.table[j].sector < MAX_CONTACTS
  {
  }

  function SlotOf(e: NameEntry): nat { e.hashSlot }

  /** The occupied slots below `upto`, in increasing order. */
  ghost predicate Listing(entries: seq<NameEntry>, table: seq<HashEntry>, contacts: map<nat, Contact>, upto: nat) {
    && (forall i :: 0 <= i < |entries| ==> EntryOk(table, contacts, entries[i]) && entries[i].hashSlot < upto)
    && (forall i, j :: 0 <= i < j < |entries| ==> entries[i].hashSlot < entries[j].hashSlot)
    && (forall j :: 0 <= j < upto && j < |table| && table[j].state == EntryOccupied ==> j in Mapped(SlotOf, entries))
  }

  /** The occupied slots are listed, each once, and no others. */
  ghost predicate ListsAll(entries: seq<NameEntry>, table: seq<HashEntry>) {
    && FreeLists.Distinct(Mapped(SlotOf, entries))
    && forall j :: 0 <= j < |table| ==> (table[j].state == EntryOccupied <==> j in Mapped(SlotOf, entries))
  }

  lemma NothingListed(table: seq<HashEntry>, contacts: map<nat, Contact>)
    ensures Listing([], table, contacts, 0)
  {
  }

  lemma Passed(entries: seq<NameEntry>, table: seq<HashEntry>, contacts: map<nat, Contact>, slot: nat)
    requires Listing(entries, table, contacts, slot) && slot < |table|
    ensures table[slot].state != EntryOccupied ==> Listing(entries, table, contacts, slot + 1)
  {
  }

  lemma ListedOne(entries: seq<NameEntry>, table: seq<HashEntry>, contacts: map<nat, Contact>, slot: nat)
    requires Listing(entries, table, contacts, slot) && slot < |table| && table[slot].state == EntryOccupied && table[slot].sector in contacts
    ensures Listing(entries + [NameEntry(MakeKey(Named(table, contacts, slot).name), slot)], table, contacts, slot + 1)
  {
    var e := NameEntry(MakeKey(Named(table, contacts, slot).name), slot);
    MappedJoin(SlotOf, entries, [e]);
    assert Mapped(SlotOf, [e])[0] == slot;
    assert slot in Mapped(SlotOf, [e]);
  }

  lemma ListingListable(entries: seq<NameEntry>, table: seq<HashEntry>, contacts: map<nat, Contact>, upto: nat)
    requires Listing(entries, table, contacts, upto)
    ensures Within(entries, Listable(table, contacts))
  {
  }

  /** There is room for one more: the entries belong to different contacts. */
  lemma Room(card: Card, bits: seq<bool>, ram: Ram, contacts: map<nat, Contact>, messages: map<nat, seq<Message>>, entries: seq<NameEntry>, slot: nat)
    requires Holds(card, bits, ram, contacts, messages) && Listing(entries, ram.table, contacts, slot)
    requires slot < |ram.table| && ram.table[slot].state == EntryOccupied
    ensures |entries| < MAX_CONTACTS && ram.table[slot].sector in contacts
  {
    hide Holds;
    var sectors := seq(|entries| + 1, i requires 0 <= i <= |entries| =>
                       if i < |entries| then (if entries[i].hashSlot < |ram.table| then ram.table[entries[i].hashSlot].sector else 0) else ram.table[slot].sector);
    OccupiedContact(card, bits, ram, contacts, messages, slot);
    forall i | 0 <= i < |entries|
      ensures entries[i].hashSlot < slot && ram.table[entries[i].hashSlot].sector in ram.places
      ensures ram.places[sectors[i]].index == entries[i].hashSlot && sectors[i] < MAX_CONTACTS
    {
      OccupiedContact(card, bits, ram, contacts, messages, entries[i].hashSlot);
    }
    Pigeonhole(sectors, MAX_CONTACTS);
  }

  /** Sorted by name, and with every slot listed once: contacts differ, so the order is strict. */
  lemma BuiltOk(card: Card, bits: seq<bool>, ram: Ram, contacts: map<nat, Contact>, messages: map<nat, seq<Message>>,
                was: seq<NameEntry>, now: seq<NameEntry>)
    requires Holds(card, bits, ram, contacts, messages) && Listing(was, ram.table, contacts, |ram.table|)
    requires multiset(now) == multiset(was) && Ascending(now, ByNameIn(ram.table, contacts))
    ensures NamesOk(now, ram.table, contacts) && ListsAll(now, ram.table)
  {
    ListedSlots(was, now, ram.table, contacts);
    ListingListable(was, ram.table, contacts, |ram.table|);
    WithinStill(was, now, Listable(ram.table, contacts));
    ListableAt(now, ram.table, contacts);
    PhonesFacts(card, bits, ram, contacts, messages);
    hide Holds, NameCmp, Listing;
    var names := Names(now, ram.table, contacts);
    forall i, j | 0 <= i < j < |now|
      ensures NameCmp(names[i], names[j]) < 0
    {
      assert ByNameIn(ram.table, contacts)(now[i], now[j]) <= 0;
      NameTotal(names[i], names[j]);
      assert Mapped(SlotOf, now)[i] != Mapped(SlotOf, now)[j];
      OccupiedContact(card, bits, ram, contacts, messages, now[i].hashSlot);
      OccupiedContact(card, bits, ram, contacts, messages, now[j].hashSlot);
    }
  }

  lemma PhonesFacts(card: Card, bits: seq<bool>, ram: Ram, contacts: map<nat, Contact>, messages: map<nat, seq<Message>>)
    requires Holds(card, bits, ram, contacts, messages)
    ensures PhonesDistinct(contacts)
  {
  }

  lemma ListedSlots(was: seq<NameEntry>, now: seq<NameEntry>, table: seq<HashEntry>, contacts: map<nat, Contact>)
    requires Listing(was, table, contacts, |table|) && multiset(now) == multiset(was)
    ensures ListsAll(now, table)
  {
    MappedPermuted(SlotOf, was, now);
    var a, b := Mapped(SlotOf, was), Mapped(SlotOf, now);
    PermutedDistinct(a, b);
    forall j
      ensures j in a <==> j in b
    {
      assert j in a <==> j in multiset(a);
      assert j in b <==> j in multiset(b);
    }
  }

  /** The order of entries by the names behind them. */
  ghost function ByNameIn(table: seq<HashEntry>, contacts: map<nat, Contact>): (NameEntry, NameEntry) -> int {
    (a: NameEntry, b: NameEntry) => NameCmp(Named(table, contacts, a.hashSlot), Named(table, contacts, b.hashSlot))
  }

  ghost function Listable(table: seq<HashEntry>, contacts: map<nat, Contact>): iset<NameEntry> {
    iset e: NameEntry | EntryOk(table, contacts, e)
  }

  lemma ListableAt(s: seq<NameEntry>, table: seq<HashEntry>, contacts: map<nat, Contact>)
    requires Within(s, Listable(table, contacts))
    ensures forall i :: 0 <= i < |s| ==> EntryOk(table, contacts, s[i])
  {
  }

  lemma ByNameOrders(table: seq<HashEntry>, contacts: map<nat, Contact>)
    ensures Orders(ByNameIn(table, contacts), Listable(table, contacts))
  {
    var cmp, dom := ByNameIn(table, contacts), Listable(table, contacts);
    hide NameCmp, EntryOk;
    forall x, y | x in dom && y in dom
      ensures cmp(x, y) <= 0 <==> cmp(y, x) >= 0
    {
      NameTotal(Named(table, contacts, x.hashSlot), Named(table, contacts, y.hashSlot));
      NameTotal(Named(table, contacts, y.hashSlot), Named(table, contacts, x.hashSlot));
    }
    forall x, y, z | x in dom && y in dom && z in dom && cmp(x, y) <= 0 && cmp(y, z) <= 0
      ensures cmp(x, z) <= 0
    {
      NameTransitive(Named(table, contacts, x.hashSlot), Named(table, contacts, y.hashSlot), Named(table, contacts, z.hashSlot));
    }
  }

  /** Compares two entries: keys in RAM, and on a tie both contacts from the card. */
  method CmpEntries(t: HashTable, a: NameEntry, b: NameEntry) returns (ret: Ret, order: int)
    requires t.Valid() && EntryOk(t.ram.table, t.contacts, a) && EntryOk(t.ram.table, t.contacts, b)
    ensures ret == Ok && Sign(order) == Sign(ByNameIn(t.ram.table, t.contacts)(a, b))
  {
    hide Ready, Holds, NameCmp;
    ghost var x, y := Named(t.ram.table, t.contacts, a.hashSlot), Named(t.ram.table, t.contacts, b.hashSlot);
    KeySafe(x, y);
    KeyedIs(x, y);
    order := MemCmp(a.key, b.key);
    if order != 0 {
      return Ok, order;
    }
    var c;
    ret, c := ReadNamed(t, a);
    ret, order := CmpEntry(t, WantedContact(c), b);
  }

  lemma KeyedIs(a: Contact, b: Contact)
    ensures KeyedCmp(a, b) == var k := MemCmp(MakeKey(a.name), MakeKey(b.name)); if k != 0 then k else NameCmp(a, b)
    ensures forall c: Contact :: WantedCmp(WantedContact(a), c) == NameCmp(a, c)
  {
  }

  /** The lower bound of a contact is exact when the contact is listed. */
  lemma ExactIs(names: seq<Contact>, c: Contact, p: nat)
    requires NamesSorted(names) && BoundAt(names, WantedContact(c), p)
    ensures (p < |names| && WantedCmp(WantedContact(c), names[p]) == 0) <==> c in names
    ensures c in names ==> p < |names| && names[p] == c
  {
    if p < |names| {
      NameTotal(c, names[p]);
      NameTotal(names[p], c);
    }
    NameTotal(c, c);
    hide NameCmp;
    if c in names {
      var i :| 0 <= i < |names| && names[i] == c;
      assert i >= p;
      assert i <= p;
    }
  }

  lemma NamesInOrder(entries: seq<NameEntry>, table: seq<HashEntry>, contacts: map<nat, Contact>)
    requires NamesOk(entries, table, contacts)
    ensures NamesSorted(Names(entries, table, contacts))
  {
  }

  lemma BoundRange(names: seq<Contact>, w: Wanted, p: nat)
    requires BoundAt(names, w, p)
    ensures p <= |names|
  {
  }

  lemma NamesSize(entries: seq<NameEntry>, table: seq<HashEntry>, contacts: map<nat, Contact>)
    ensures |Names(entries, table, contacts)| == |entries|
    ensures forall i :: 0 <= i < |entries| ==> Names(entries, table, contacts)[i] == Named(table, contacts, entries[i].hashSlot)
  {
  }

  /** A name goes in where its lower bound is. */
  lemma SortedInsert(names: seq<Contact>, c: Contact, p: nat)
    requires NamesSorted(names) && BoundAt(names, WantedContact(c), p) && c !in names
    ensures NamesSorted(names[..p] + [c] + names[p..])
  {
    var now := names[..p] + [c] + names[p..];
    hide NameCmp;
    forall i | 0 <= i < |names|
      ensures i < p ==> NameCmp(names[i], c) < 0
      ensures i >= p ==> NameCmp(c, names[i]) < 0
    {
      assert names[i] in names;
      NameTotal(c, names[i]);
      NameTotal(names[i], c);
    }
    forall i, j | 0 <= i < j < |now|
      ensures NameCmp(now[i], now[j]) < 0
    {
      if i != p && j != p {
        assert now[i] == names[if i < p then i else i - 1] && now[j] == names[if j < p then j else j - 1];
      }
    }
  }

  lemma NamesJoin(a: seq<NameEntry>, b: seq<NameEntry>, table: seq<HashEntry>, contacts: map<nat, Contact>)
    ensures Names(a + b, table, contacts) == Names(a, table, contacts) + Names(b, table, contacts)
  {
    hide Named;
  }

  lemma NamesCut(was: seq<NameEntry>, table: seq<HashEntry>, contacts: map<nat, Contact>, p: nat)
    requires p <= |was|
    ensures Names(was[..p], table, contacts) == Names(was, table, contacts)[..p]
    ensures Names(was[p..], table, contacts) == Names(was, table, contacts)[p..]
  {
    hide Named;
  }

  lemma InsertedList(was: seq<NameEntry>, table: seq<HashEntry>, contacts: map<nat, Contact>, e: NameEntry, p: nat)
    requires p <= |was|
    ensures Names(was[..p] + [e] + was[p..], table, contacts) ==
            Names(was, table, contacts)[..p] + [Named(table, contacts, e.hashSlot)] + Names(was, table, contacts)[p..]
  {
    assert Names([e], table, contacts) == [Named(table, contacts, e.hashSlot)];
    hide *;
    NamesJoin(was[..p] + [e], was[p..], table, contacts);
    NamesJoin(was[..p], [e], table, contacts);
    NamesCut(was, table, contacts, p);
  }

  lemma InsertedBag(was: seq<NameEntry>, e: NameEntry, p: nat)
    requires p <= |was|
    ensures multiset(was[..p] + [e] + was[p..]) == multiset(was) + multiset{e}
  {
    assert was == was[..p] + was[p..];
  }

  lemma InsertedEntries(was: seq<NameEntry>, table: seq<HashEntry>, contacts: map<nat, Contact>, e: NameEntry, p: nat)
    requires NamesOk(was, table, contacts) && EntryOk(table, contacts, e) && p <= |was|
    ensures forall i :: 0 <= i <= |was| ==> EntryOk(table, contacts, (was[..p] + [e] + was[p..])[i])
  {
    hide EntryOk, NamesSorted, Names;
    forall i | 0 <= i <= |was|
      ensures EntryOk(table, contacts, (was[..p] + [e] + was[p..])[i])
    {
      if i != p { assert (was[..p] + [e] + was[p..])[i] == was[if i < p then i else i - 1]; }
    }
  }

  lemma NamesAs(entries: seq<NameEntry>, table: seq<HashEntry>, contacts: map<nat, Contact>)
    ensures NamesOk(entries, table, contacts) <==>
      (forall i :: 0 <= i < |entries| ==> EntryOk(table, contacts, entries[i])) && NamesSorted(Names(entries, table, contacts))
  {
  }

  lemma InsertedNames(was: seq<NameEntry>, table: seq<HashEntry>, contacts: map<nat, Contact>, e: NameEntry, p: nat)
    requires NamesOk(was, table, contacts) && EntryOk(table, contacts, e) && p <= |was|
    requires BoundAt(Names(was, table, contacts), WantedContact(Named(table, contacts, e.hashSlot)), p)
    requires Named(table, contacts, e.hashSlot) !in Names(was, table, contacts)
    ensures NamesOk(was[..p] + [e] + was[p..], table, contacts)
    ensures multiset(was[..p] + [e] + was[p..]) == multiset(was) + multiset{e}
  {
    hide *;
    NamesAs(was, table, contacts);
    SortedInsert(Names(was, table, contacts), Named(table, contacts, e.hashSlot), p);
    InsertedList(was, table, contacts, e, p);
    InsertedBag(was, e, p);
    InsertedEntries(was, table, contacts, e, p);
    NamesAs(was[..p] + [e] + was[p..], table, contacts);
  }

  lemma RemovedNames(was: seq<NameEntry>, table: seq<HashEntry>, contacts: map<nat, Contact>, p: nat)
    requires NamesOk(was, table, contacts) && p < |was|
    ensures NamesOk(was[..p] + was[p + 1..], table, contacts)
    ensures multiset(was) == multiset(was[..p] + was[p + 1..]) + multiset{was[p]}
  {
    SplitAt(was, p);
    hide NameCmp, EntryOk;
    var now := was[..p] + was[p + 1..];
    assert forall i :: 0 <= i < |now| ==> now[i] == was[if i < p then i else i + 1];
  }

  /** Below `lo` everything is smaller, from `hi` on nothing is. */
  ghost predicate Between(names: seq<Contact>, w: Wanted, lo: nat, hi: nat) {
    && lo <= hi <= |names|
    && (forall i :: 0 <= i < lo ==> WantedCmp(w, names[i]) > 0)
    && (forall i :: hi <= i < |names| ==> WantedCmp(w, names[i]) <= 0)
  }

  lemma AllBetween(names: seq<Contact>, w: Wanted)
    ensures Between(names, w, 0, |names|)
  {
  }

  lemma BetweenBound(names: seq<Contact>, w: Wanted, p: nat)
    requires Between(names, w, p, p)
    ensures BoundAt(names, w, p)
  {
  }

  lemma Narrows(names: seq<Contact>, w: Wanted, lo: nat, mid: nat, hi: nat)
    requires NamesSorted(names) && Between(names, w, lo, hi) && lo <= mid < hi
    ensures if WantedCmp(w, names[mid]) > 0 then Between(names, w, mid + 1, hi) else Between(names, w, lo, mid)
  {
    hide NameCmp, WantedCmp;
    if WantedCmp(w, names[mid]) > 0 {
      forall i | lo <= i < mid
        ensures WantedCmp(w, names[i]) > 0
      {
        WantedMonotone(w, names[i], names[mid]);
      }
    } else {
      forall i | mid < i < hi
        ensures WantedCmp(w, names[i]) <= 0
      {
        if WantedCmp(w, names[i]) > 0 { WantedMonotone(w, names[mid], names[i]); }
      }
    }
  }

  // ----- the names are determined by the contacts -----

  /** The contacts of the index are the contacts of the table. */
  lemma ListsContacts(card: Card, bits: seq<bool>, ram: Ram, contacts: map<nat, Contact>, messages: map<nat, seq<Message>>, entries: seq<NameEntry>)
    requires Holds(card, bits, ram, contacts, messages) && NamesOk(entries, ram.table, contacts) && ListsAll(entries, ram.table)
    ensures forall c :: c in Names(entries, ram.table, contacts) <==> exists s :: s in contacts && contacts[s] == c
  {
    hide Holds, NameCmp, NamesSorted, FreeLists.Distinct;
    var names := Names(entries, ram.table, contacts);
    KeysFacts(card, bits, ram, contacts, messages);
    forall s | s in contacts
      ensures contacts[s] in names
    {
      PlaceFacts(card, bits, ram, contacts, messages, s);
      var j := ram.places[s].index;
      assert j in Mapped(SlotOf, entries);
      var i :| 0 <= i < |entries| && Mapped(SlotOf, entries)[i] == j;
      assert names[i] == contacts[s];
    }
    forall c | c in names
      ensures exists s :: s in contacts && contacts[s] == c
    {
      var i :| 0 <= i < |names| && names[i] == c;
      assert EntryOk(ram.table, contacts, entries[i]);
    }
  }

  lemma PlaceFacts(card: Card, bits: seq<bool>, ram: Ram, contacts: map<nat, Contact>, messages: map<nat, seq<Message>>, s: nat)
    requires Holds(card, bits, ram, contacts, messages) && s in contacts
    ensures s in ram.places && ram.places[s].index < |ram.table|
    ensures ram.table[ram.places[s].index].state == EntryOccupied && ram.table[ram.places[s].index].sector == s
  {
    assert PlaceOk(ram.table, s, contacts[s], ram.places[s]);
  }

  /** Strictly sorted sequences with the same contacts are the same. */
  lemma {:induction false} NamesUnique(a: seq<Contact>, b: seq<Contact>)
    requires NamesSorted(a) && NamesSorted(b) && forall c :: c in a <==> c in b
    ensures a == b
    decreases |a|
  {
    if a != [] { assert a[0] in a; }
    if b != [] { assert b[0] in b; }
    if a != [] && b != [] {
      SmallestFirst(a, b);
      TailWithout(a);
      TailWithout(b);
      NamesUnique(a[1..], b[1..]);
    }
  }

  lemma SmallestFirst(a: seq<Contact>, b: seq<Contact>)
    requires NamesSorted(a) && NamesSorted(b) && a != [] && b != [] && forall c :: c in a <==> c in b
    ensures a[0] == b[0]
  {
    assert a[0] in b && b[0] in a;
    var i :| 0 <= i < |a| && a[i] == b[0];
    var j :| 0 <= j < |b| && b[j] == a[0];
    if i > 0 && j > 0 {
      assert NameCmp(a[0], a[i]) < 0 && NameCmp(b[0], b[j]) < 0;
      NameTotal(a[0], b[0]);
    }
  }

  lemma TailWithout(s: seq<Contact>)
    requires NamesSorted(s) && s != []
    ensures NamesSorted(s[1..]) && forall c :: c in s[1..] <==> c in s && c != s[0]
  {
    forall i | 0 < i < |s|
      ensures s[i] != s[0]
    {
      NameTotal(s[0], s[i]);
    }
    forall c | c in s && c != s[0]
      ensures c in s[1..]
    {
      var i :| 0 <= i < |s| && s[i] == c;
      assert s[1..][i - 1] == c;
    }
  }

  /** Whatever run led to it, an index of all contacts lists them in the one order there is: a
      rebuilt index and a maintained one agree, though hash slots may differ. */
  lemma NamesDetermined(card: Card, bits: seq<bool>, ram: Ram, messages: map<nat, seq<Message>>, entries: seq<NameEntry>,
                        card2: Card, bits2: seq<bool>, ram2: Ram, messages2: map<nat, seq<Message>>, entries2: seq<NameEntry>, contacts: map<nat, Contact>)
    requires Holds(card, bits, ram, contacts, messages) && NamesOk(entries, ram.table, contacts) && ListsAll(entries, ram.table)
    requires Holds(card2, bits2, ram2, contacts, messages2) && NamesOk(entries2, ram2.table, contacts) && ListsAll(entries2, ram2.table)
    ensures Names(entries, ram.table, contacts) == Names(entries2, ram2.table, contacts)
  {
    ListsContacts(card, bits, ram, contacts, messages, entries);
    ListsContacts(card2, bits2, ram2, contacts, messages2, entries2);
    NamesUnique(Names(entries, ram.table, contacts), Names(entries2, ram2.table, contacts));
  }
}
