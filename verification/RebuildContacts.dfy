/** Rebuilding the hash table and the contact allocator from the contact sectors in use. */
module RebuildContacts {
  import opened Layout
  import opened StorageCard
  import opened UsageBitmaps
  import opened FreeLists
  import opened Contacts
  import opened Messages
  import opened Probing
  import opened HashTables
  import opened Agreement
  import opened HashOperations

  /** The contacts in slots below `pos`. */
  ghost function UpTo(contacts: map<nat, Contact>, pos: nat): map<nat, Contact> {
    map s <- contacts | s < pos :: contacts[s]
  }

  ghost predicate NewestUnset(table: seq<HashEntry>, places: map<nat, Place>) {
    forall s <- places :: places[s].index < |table| && table[places[s].index].latest == NIL
  }

  /** The rebuild has entered the contacts below `pos` and freed the other slots below it. */
  ghost predicate Gathered(table: seq<HashEntry>, num: nat, free: seq<nat>, contacts: map<nat, Contact>, places: map<nat, Place>, pos: nat) {
    && |table| == HASH_TABLE_SIZE && TableOk(table, UpTo(contacts, pos), places) && NewestUnset(table, places)
    && num == |UpTo(contacts, pos)|
    && Partition(free, UpTo(contacts, pos).Keys, Min(pos, MAX_CONTACTS))
  }

  /** What the contacts to gather have to be. */
  ghost predicate Gatherable(card: Card, bits: seq<bool>, contacts: map<nat, Contact>) {
    && ContactRegionOk(card, bits) && contacts == ContactMap(card, bits) && PhonesDistinct(contacts)
  }

  /** The free stack fits below `pos`, and the counter of used slots counts the rest. */
  ghost predicate FreeFits(allocator: FreeList, pos: nat)
    reads allocator, allocator.stack
  {
    && allocator.Valid() && allocator.stack.Length == MAX_CONTACTS
    && Distinct(allocator.Free()) && (forall x <- allocator.Free() :: x < Min(pos, MAX_CONTACTS))
    && allocator.used + |allocator.Free()| == MAX_CONTACTS
  }

  predicate NoContacts(contacts: map<nat, Contact>, a: nat, b: nat) {
    forall s :: a <= s < b ==> s !in contacts
  }

  lemma GapFits(free: seq<nat>, a: nat, b: nat)
    requires a <= b && Distinct(free) && forall x <- free :: x < Min(a, MAX_CONTACTS)
    ensures var all := free + Range(a, Min(b, MAX_CONTACTS));
            && Distinct(all) && (forall x <- all :: x < Min(b, MAX_CONTACTS)) && |all| <= MAX_CONTACTS
  {
    var all := free + Range(a, Min(b, MAX_CONTACTS));
    forall i, j | 0 <= i < j < |all|
      ensures all[i] != all[j]
    {
      if i < |free| <= j { assert all[i] in free; }
    }
    Pigeonhole(all, MAX_CONTACTS);
  }

  lemma GapGathered(table: seq<HashEntry>, num: nat, free: seq<nat>, contacts: map<nat, Contact>, places: map<nat, Place>, a: nat, b: nat)
    requires a <= b && Gathered(table, num, free, contacts, places, a) && NoContacts(contacts, a, b)
    ensures Gathered(table, num, free + Range(a, Min(b, MAX_CONTACTS)), contacts, places, b)
  {
    assert UpTo(contacts, b) == UpTo(contacts, a);
    hide TableOk, NewestUnset;
    var all, used := free + Range(a, Min(b, MAX_CONTACTS)), UpTo(contacts, a).Keys;
    GapFits(free, a, b);
    forall x | 0 <= x < Min(b, MAX_CONTACTS) && x !in used
      ensures x in all
    {
      if x < a { assert x in free; } else { assert Range(a, Min(b, MAX_CONTACTS))[x - a] == x; }
    }
  }

  /** Frees the slots from `a` to `b - 1`. */
  method ReleaseGap(allocator: FreeList, a: nat, b: nat)
    requires a <= b && FreeFits(allocator, a)
    modifies allocator, allocator.stack
    ensures FreeFits(allocator, b) && allocator.Free() == old(allocator.Free()) + Range(a, Min(b, MAX_CONTACTS))
  {
    GapFits(allocator.Free(), a, b);
    allocator.ReleaseRange(a, b);
  }

  lemma ContactGathered(table: seq<HashEntry>, num: nat, free: seq<nat>, contacts: map<nat, Contact>, places: map<nat, Place>, slot: nat, p: Place)
    requires Gathered(table, num, free, contacts, places, slot) && slot in contacts && slot < MAX_CONTACTS && PhonesDistinct(contacts)
    requires FoundOk(table, UpTo(contacts, slot), places, contacts[slot].phone, true, p)
    ensures p.index < |table|
    ensures Gathered(table[p.index := NewEntry(slot, contacts[slot].phone)], num + 1, free, contacts, places[slot := p], slot + 1)
  {
    hide TableOk, FoundOk, Partition, UpTo, NewestUnset, PhonesDistinct, NewEntry;
    var was, e := UpTo(contacts, slot), NewEntry(slot, contacts[slot].phone);
    UpToNext(contacts, slot);
    assert e.state == EntryOccupied && e.sector == slot && e.id == HashPhone(contacts[slot].phone) && e.latest == NIL by { IsNew(slot, contacts[slot].phone); }
    FoundVacant(table, was, places, contacts[slot].phone, p);
    UnsetInsert(table, was, places, slot, p, e);
    TableInsert(table, was, places, slot, contacts[slot], p, e);
    MapGrows(was, slot, contacts[slot]);
    SlotTaken(free, was.Keys, slot);
  }

  lemma UpToNext(contacts: map<nat, Contact>, slot: nat)
    requires slot in contacts && PhonesDistinct(contacts)
    ensures UpTo(contacts, slot + 1) == UpTo(contacts, slot)[slot := contacts[slot]] && slot !in UpTo(contacts, slot)
    ensures forall s <- UpTo(contacts, slot) :: UpTo(contacts, slot)[s].phone != contacts[slot].phone
  {
  }

  lemma IsNew(slot: nat, phone: Text)
    ensures var e := NewEntry(slot, phone); e.state == EntryOccupied && e.sector == slot && e.id == HashPhone(phone) && e.latest == NIL
  {
  }

  lemma FoundVacant(table: seq<HashEntry>, contacts: map<nat, Contact>, places: map<nat, Place>, phone: Text, p: Place)
    requires TableOk(table, contacts, places) && FoundOk(table, contacts, places, phone, true, p)
    requires forall s <- contacts :: contacts[s].phone != phone
    ensures |table| > 1 && Vacant(table, HashPhone(phone), p)
  {
  }

  lemma UnsetInsert(table: seq<HashEntry>, contacts: map<nat, Contact>, places: map<nat, Place>, slot: nat, p: Place, e: HashEntry)
    requires TableOk(table, contacts, places) && NewestUnset(table, places) && slot !in contacts && e.latest == NIL
    requires p.index < |table| && table[p.index].state != EntryOccupied
    ensures NewestUnset(table[p.index := e], places[slot := p])
  {
    PlacesApart(table, contacts, places);
  }

  lemma SlotTaken(free: seq<nat>, used: set<nat>, slot: nat)
    requires slot < MAX_CONTACTS && Partition(free, used, Min(slot, MAX_CONTACTS))
    ensures Partition(free, used + {slot}, Min(slot + 1, MAX_CONTACTS))
  {
  }

  /** A contact sector in use, slot by slot. */
  lemma SectorSlots(card: Card, bits: seq<bool>, contacts: map<nat, Contact>, d: nat, pos: nat)
    requires Gatherable(card, bits, contacts) && d < CONTACT_SECTORS && pos < CONTACT_CAPACITY
    ensures d * CONTACT_CAPACITY + pos in contacts <==> bits[d] && card[RawData(d)].ContactSector? && |card[RawData(d)].used| == CONTACT_CAPACITY && card[RawData(d)].used[pos]
    ensures bits[d] ==> IsContactSector(card[RawData(d)])
    ensures d * CONTACT_CAPACITY + pos in contacts ==>
      d * CONTACT_CAPACITY + pos < MAX_CONTACTS && contacts[d * CONTACT_CAPACITY + pos] == card[RawData(d)].slots[pos]
  {
    var slot := d * CONTACT_CAPACITY + pos;
    assert slot / CONTACT_CAPACITY == d && slot % CONTACT_CAPACITY == pos;
    assert bits[d] ==> ContactSectorOk(card[RawData(d)], d);
  }

  lemma SlotsBetween(card: Card, bits: seq<bool>, contacts: map<nat, Contact>, d: nat, a: nat, b: nat)
    requires Gatherable(card, bits, contacts) && d < CONTACT_SECTORS && a <= b <= CONTACT_CAPACITY
    requires bits[d] ==> IsContactSector(card[RawData(d)]) ==> forall pos :: a <= pos < b ==> !card[RawData(d)].used[pos]
    ensures NoContacts(contacts, d * CONTACT_CAPACITY + a, d * CONTACT_CAPACITY + b)
  {
    forall s | d * CONTACT_CAPACITY + a <= s < d * CONTACT_CAPACITY + b
      ensures s !in contacts
    {
      SectorSlots(card, bits, contacts, d, s - d * CONTACT_CAPACITY);
    }
  }

  lemma SectorsBetween(card: Card, bits: seq<bool>, contacts: map<nat, Contact>, d: nat, e: nat)
    requires Gatherable(card, bits, contacts) && d <= e <= CONTACT_SECTORS && forall x :: d <= x < e ==> !bits[x]
    ensures NoContacts(contacts, d * CONTACT_CAPACITY, e * CONTACT_CAPACITY)
  {
    forall s | d * CONTACT_CAPACITY <= s < e * CONTACT_CAPACITY
      ensures s !in contacts
    {
      SectorSlots(card, bits, contacts, s / CONTACT_CAPACITY, s % CONTACT_CAPACITY);
    }
  }

  /** The lowest slot in use; `rest` has the used slots that are still to be entered. */
  method LowestUsed(rest: seq<bool>) returns (pos: nat)
    requires true in rest
    ensures pos < |rest| && rest[pos] && forall j :: 0 <= j < pos ==> !rest[j]
  {
    pos := 0;
    while !rest[pos]
      invariant pos < |rest| && forall j :: 0 <= j < pos ==> !rest[j]
      decreases |rest| - pos
    {
      if pos == |rest| - 1 { assert false; }
      pos := pos + 1;
    }
  }

  lemma UpToReadable(card: Card, bits: seq<bool>, contacts: map<nat, Contact>, slot: nat)
    requires Gatherable(card, bits, contacts)
    ensures PhonesDistinct(UpTo(contacts, slot))
    ensures forall s <- UpTo(contacts, slot) :: s <= NIL && ContactAt(card, bits, s) == Some(UpTo(contacts, slot)[s])
    ensures slot in contacts ==> forall s <- UpTo(contacts, slot) :: contacts[s].phone != contacts[slot].phone
  {
  }

  /** The table, counter and free stack of a rebuild in progress. */
  ghost predicate Gathering(t: HashTable, contacts: map<nat, Contact>, places: map<nat, Place>, pos: nat)
    reads t, t.htable, t.storage, t.bitmap, t.contactAllocator, t.contactAllocator.stack
  {
    && Gatherable(t.storage.sectors, t.bitmap.bits, contacts)
    && Gathered(t.htable[..], t.numElems, t.contactAllocator.Free(), contacts, places, pos)
  }

  /** Whatever the card holds: the occupied entries are for different slots below `pos`. */
  ghost predicate Claimed(table: seq<HashEntry>, pos: nat) {
    && |table| == HASH_TABLE_SIZE && pos <= CONTACT_SECTORS * CONTACT_CAPACITY
    && (forall j :: 0 <= j < |table| && table[j].state == EntryOccupied ==> table[j].sector < pos)
    && (forall i, j :: 0 <= i < j < |table| && table[i].state == table[j].state == EntryOccupied ==> table[i].sector != table[j].sector)
  }

  lemma ClaimedNext(table: seq<HashEntry>, slot: nat, j: nat, e: HashEntry)
    requires Claimed(table, slot) && slot < CONTACT_SECTORS * CONTACT_CAPACITY && j < |table| && e.sector == slot
    ensures Claimed(table[j := e], slot + 1)
  {
  }

  lemma ClaimedOn(table: seq<HashEntry>, a: nat, b: nat)
    requires Claimed(table, a) && a <= b <= CONTACT_SECTORS * CONTACT_CAPACITY
    ensures Claimed(table, b)
  {
  }

  /** There are more entries than slots, so the table never fills up during a rebuild. */
  lemma ClaimedRoom(table: seq<HashEntry>, pos: nat)
    requires Claimed(table, pos)
    ensures HasRoom(table) && SectorsFit(table)
  {
    TableSizePrime();
    if forall j :: 0 <= j < |table| ==> table[j].state == EntryOccupied {
      var sectors := seq(|table|, j requires 0 <= j < |table| => table[j].sector);
      Pigeonhole(sectors, pos);
      assert false;
    }
  }

  /** Enters one contact. */
  method EnterContact(t: HashTable, slot: nat, phone: Text, ghost contacts: map<nat, Contact>, ghost was: map<nat, Place>)
    returns (ok: bool, ghost places: map<nat, Place>)
    requires t.bitmap.Valid() && t.htable.Length == HASH_TABLE_SIZE && Claimed(t.htable[..], slot) && slot < CONTACT_SECTORS * CONTACT_CAPACITY
    modifies t`numElems, t.htable
    ensures ok && Claimed(t.htable[..], slot + 1)
    ensures old(Gathering(t, contacts, was, slot)) && slot in contacts && contacts[slot].phone == phone ==>
      Gathering(t, contacts, places, slot + 1)
  {
    hide UsageBitmap.Valid, Claimed, HasRoom, TableOk, PhonesDistinct, Partition, UpTo, NewestUnset, ContactRegionOk, ContactMap;
    ghost var good := Gathering(t, contacts, was, slot) && slot in contacts && contacts[slot].phone == phone;
    if good { UpToReadable(t.storage.sectors, t.bitmap.bits, contacts, slot); SlotBound(t.storage.sectors, t.bitmap.bits, contacts, slot); }
    places := was;
    ClaimedRoom(t.htable[..], slot);
    var found, place := FindEntry(t.storage, t.bitmap, t.htable, phone, UpTo(contacts, slot), was);
    hide FoundOk, Gatherable, ContactAt;
    ghost var table, num := t.htable[..], t.numElems;
    ok := found;
    if found {
      if good { ContactGathered(table, num, t.contactAllocator.Free(), contacts, was, slot, place); }
      ClaimedNext(table, slot, place.index, HashEntry(HashPhone(phone), slot, NIL, EntryOccupied));
      t.htable[place.index] := HashEntry(HashPhone(phone), slot, NIL, EntryOccupied);
      t.numElems := t.numElems + 1;
      places := was[slot := place];
      assert t.htable[..] == table[place.index := NewEntry(slot, phone)];
    }
  }

  lemma SlotBound(card: Card, bits: seq<bool>, contacts: map<nat, Contact>, slot: nat)
    requires Gatherable(card, bits, contacts) && slot in contacts
    ensures slot < MAX_CONTACTS
  {
  }

  ghost predicate SectorsFit(table: seq<HashEntry>) {
    forall j :: 0 <= j < |table| && table[j].state == EntryOccupied ==> table[j].sector <= NIL
  }

  /** Frees the slots from `a` to `b - 1` of a rebuild in progress. */
  method FreeGap(t: HashTable, a: nat, b: nat, ghost contacts: map<nat, Contact>, ghost places: map<nat, Place>)
    requires a <= b && FreeFits(t.contactAllocator, a)
    modifies t.contactAllocator, t.contactAllocator.stack
    ensures FreeFits(t.contactAllocator, b) && t.htable[..] == old(t.htable[..])
    ensures old(Gathering(t, contacts, places, a)) && NoContacts(contacts, a, b) ==> Gathering(t, contacts, places, b)
  {
    hide FreeFits, Gatherable, Gathered, NoContacts;
    if Gathering(t, contacts, places, a) && NoContacts(contacts, a, b) {
      GapGathered(t.htable[..], t.numElems, t.contactAllocator.Free(), contacts, places, a, b);
    }
    ReleaseGap(t.contactAllocator, a, b);
  }

  lemma GatheringOf(t: HashTable, contacts: map<nat, Contact>, places: map<nat, Place>, pos: nat)
    requires Gathering(t, contacts, places, pos)
    ensures Gatherable(t.storage.sectors, t.bitmap.bits, contacts)
  {
  }

  /** Enters the contacts of one sector, and frees the slots between and behind them. */
  method InsertContactsFromSector(t: HashTable, s: Sector, base: nat, ghost d: nat, ghost contacts: map<nat, Contact>, ghost was: map<nat, Place>)
    returns (ok: bool, ghost places: map<nat, Place>)
    requires t.bitmap.Valid() && t.htable.Length == HASH_TABLE_SIZE && Claimed(t.htable[..], base) && FreeFits(t.contactAllocator, base)
    requires d < CONTACT_SECTORS && base == d * CONTACT_CAPACITY && s == t.storage.sectors[RawData(d)] && IsContactSector(s) && t.bitmap.bits[d]
    modifies t`numElems, t.htable, t.contactAllocator, t.contactAllocator.stack
    ensures ok && Claimed(t.htable[..], base + CONTACT_CAPACITY) && FreeFits(t.contactAllocator, base + CONTACT_CAPACITY)
    ensures old(Gathering(t, contacts, was, base)) ==> Gathering(t, contacts, places, base + CONTACT_CAPACITY)
  {
    hide UsageBitmap.Valid, Claimed, FreeFits, Gatherable, Gathering, NoContacts;
    places := was;
    ghost var good := Gathering(t, contacts, was, base);
    if good { GatheringOf(t, contacts, was, base); }
    ghost var card, bits := t.storage.sectors, t.bitmap.bits;
    var rest: seq<bool>, next: nat := s.used, base;
    while true in rest
      invariant |rest| == CONTACT_CAPACITY && base <= next <= base + CONTACT_CAPACITY
      invariant forall j :: 0 <= j < CONTACT_CAPACITY ==> rest[j] == (s.used[j] && base + j >= next)
      invariant Claimed(t.htable[..], next) && FreeFits(t.contactAllocator, next)
      invariant good ==> Gathering(t, contacts, places, next)
      decreases base + CONTACT_CAPACITY - next
    {
      var pos := LowestUsed(rest);
      if good {
        SlotsBetween(card, bits, contacts, d, next - base, pos);
        SectorSlots(card, bits, contacts, d, pos);
      }
      FreeGap(t, next, base + pos, contacts, places);
      ClaimedOn(t.htable[..], next, base + pos);
      next := base + pos + 1;
      ok, places := EnterContact(t, base + pos, s.slots[pos].phone, contacts, places);
      if !ok {
        return;
      }
      FitsOn(t.contactAllocator, base + pos);
      rest := rest[pos := false];
    }
    if good {
      SlotsBetween(card, bits, contacts, d, next - base, CONTACT_CAPACITY);
    }
    FreeGap(t, next, base + CONTACT_CAPACITY, contacts, places);
    ClaimedOn(t.htable[..], next, base + CONTACT_CAPACITY);
    ok := true;
  }

  lemma FitsOn(allocator: FreeList, pos: nat)
    requires FreeFits(allocator, pos)
    ensures FreeFits(allocator, pos + 1)
  {
  }

  /** Frees the slots of the unused sectors from `a` to `d - 1` and enters sector `d`.  A sector
      that cannot be read is skipped, and its slots stay taken. */
  method VisitContactSector(t: HashTable, ghost a: nat, lastFree: nat, d: nat, ghost contacts: map<nat, Contact>, ghost was: map<nat, Place>)
    returns (ok: bool, ghost places: map<nat, Place>)
    requires t.bitmap.Valid() && t.htable.Length == HASH_TABLE_SIZE && Claimed(t.htable[..], lastFree) && FreeFits(t.contactAllocator, lastFree)
    requires lastFree == a * CONTACT_CAPACITY && a <= d < CONTACT_SECTORS && t.bitmap.bits[d] && forall x :: a <= x < d ==> !t.bitmap.bits[x]
    modifies t`numElems, t.htable, t.contactAllocator, t.contactAllocator.stack
    ensures ok && Claimed(t.htable[..], (d + 1) * CONTACT_CAPACITY) && FreeFits(t.contactAllocator, (d + 1) * CONTACT_CAPACITY)
    ensures old(Gathering(t, contacts, was, lastFree)) ==> Gathering(t, contacts, places, (d + 1) * CONTACT_CAPACITY)
  {
    hide UsageBitmap.Valid, Claimed, FreeFits, Gatherable, Gathering, NoContacts;
    places := was;
    ghost var good := Gathering(t, contacts, was, lastFree);
    var base := d * CONTACT_CAPACITY;
    if good {
      GatheringOf(t, contacts, was, lastFree);
      SectorsBetween(t.storage.sectors, t.bitmap.bits, contacts, a, d);
      SectorSlots(t.storage.sectors, t.bitmap.bits, contacts, d, 0);
    }
    FreeGap(t, lastFree, base, contacts, places);
    ClaimedOn(t.htable[..], lastFree, base);
    var s := t.storage.sectors[RawData(d)];
    if !IsContactSector(s) {
      FitsBeyond(t.contactAllocator, base, base + CONTACT_CAPACITY);
      ClaimedOn(t.htable[..], base, base + CONTACT_CAPACITY);
      ok := true;
    } else {
      ok, places := InsertContactsFromSector(t, s, base, d, contacts, was);
    }
  }

  lemma FitsBeyond(allocator: FreeList, a: nat, b: nat)
    requires FreeFits(allocator, a) && a <= b
    ensures FreeFits(allocator, b)
  {
  }

  // ----- scanning the bitmap word by word -----

  /** The contact sectors from `a` to `b - 1` are not in use. */
  predicate NoneBetween(bits: seq<bool>, a: nat, b: nat) {
    forall d :: a <= d < b && d < CONTACT_SECTORS && d < |bits| ==> !bits[d]
  }

  /** Bits `lo` to `hi - 1` of a word are clear. */
  lemma NoneInWord(bitmap: UsageBitmap, word: nat, a: nat, lo: nat, hi: nat)
    requires bitmap.Valid() && word < BITMAP_SECTORS * WORDS_PER_SECTOR && !IsCrcWord(word) && lo <= hi <= BITS_PER_WORD
    requires NoneBetween(bitmap.bits, a, WordStart(word) + lo) && forall j :: lo <= j < hi ==> !bitmap.words[word][j]
    ensures NoneBetween(bitmap.bits, a, WordStart(word) + hi)
  {
    bitmap.WordClear(word, lo, hi);
  }

  lemma BitInWord(bitmap: UsageBitmap, word: nat, bit: nat)
    requires bitmap.Valid() && word < BITMAP_SECTORS * WORDS_PER_SECTOR && !IsCrcWord(word) && bit < BITS_PER_WORD
    ensures WordStart(word) + bit < TOTAL_BITS == |bitmap.bits| && bitmap.bits[WordStart(word) + bit] == bitmap.words[word][bit]
  {
    WordInverse(word, bit);
  }

  /** Visits the contact sectors whose bits are set in one word. */
  method VisitWord(t: HashTable, word: nat, ghost a: nat, last: nat, ghost contacts: map<nat, Contact>, ghost was: map<nat, Place>)
    returns (ok: bool, ghost next: nat, lastFree: nat, ghost places: map<nat, Place>)
    requires t.bitmap.Valid() && t.htable.Length == HASH_TABLE_SIZE && Claimed(t.htable[..], last) && FreeFits(t.contactAllocator, last)
    requires word < BITMAP_SECTORS * WORDS_PER_SECTOR && !IsCrcWord(word)
    requires last == a * CONTACT_CAPACITY && a <= WordStart(word) && a <= CONTACT_SECTORS && NoneBetween(t.bitmap.bits, a, WordStart(word))
    modifies t`numElems, t.htable, t.contactAllocator, t.contactAllocator.stack
    ensures ok && Claimed(t.htable[..], lastFree) && FreeFits(t.contactAllocator, lastFree)
    ensures lastFree == next * CONTACT_CAPACITY && a <= next <= CONTACT_SECTORS && next <= WordStart(word) + BITS_PER_WORD
    ensures NoneBetween(t.bitmap.bits, next, WordStart(word) + BITS_PER_WORD)
    ensures old(Gathering(t, contacts, was, last)) ==> Gathering(t, contacts, places, lastFree)
  {
    hide Claimed, FreeFits, Gathering, NoneBetween, UsageBitmap.Valid, IsCrcWord;
    ghost var good := Gathering(t, contacts, was, last);
    places, next, lastFree, ok := was, a, last, true;
    var w := Bits(t.bitmap, word);
    ghost var lo: nat := 0;
    ghost var past: nat := BITS_PER_WORD;
    while true in w
      invariant lo <= BITS_PER_WORD && forall j :: 0 <= j < BITS_PER_WORD ==> w[j] == (t.bitmap.words[word][j] && j >= lo)
      invariant ok && Claimed(t.htable[..], lastFree) && FreeFits(t.contactAllocator, lastFree)
      invariant lastFree == next * CONTACT_CAPACITY && a <= next <= CONTACT_SECTORS && next <= WordStart(word) + lo
      invariant NoneBetween(t.bitmap.bits, next, WordStart(word) + lo)
      invariant good ==> Gathering(t, contacts, places, lastFree)
      decreases BITS_PER_WORD - lo
    {
      var bit := LowestSet(w);
      NoneInWord(t.bitmap, word, next, lo, bit);
      BitInWord(t.bitmap, word, bit);
      var d := WordStart(word) + bit;
      if d >= CONTACT_SECTORS {
        NoneBeyond(t.bitmap.bits, next, d, WordStart(word) + BITS_PER_WORD);
        return;
      }
      NoneAll(t.bitmap.bits, next, d);
      ok, places := VisitContactSector(t, next, lastFree, d, contacts, places);
      if !ok {
        return;
      }
      w := w[bit := false];
      lo, next, lastFree := bit + 1, d + 1, (d + 1) * CONTACT_CAPACITY;
      NoneYet(t.bitmap.bits, next);
    }
    assert forall j :: 0 <= j < BITS_PER_WORD ==> w[j] in w;
    NoneInWord(t.bitmap, word, next, lo, BITS_PER_WORD);
  }

  method Bits(bitmap: UsageBitmap, word: nat) returns (w: Word)
    requires bitmap.Valid() && word < BITMAP_SECTORS * WORDS_PER_SECTOR
    ensures word < bitmap.words.Length && w == bitmap.words[word]
  {
    w := bitmap.words[word];
  }

  lemma NoneBeyond(bits: seq<bool>, a: nat, b: nat, c: nat)
    requires NoneBetween(bits, a, b) && b >= CONTACT_SECTORS
    ensures NoneBetween(bits, a, c)
  {
  }

  lemma NoneAll(bits: seq<bool>, a: nat, b: nat)
    requires NoneBetween(bits, a, b) && |bits| == TOTAL_BITS && b <= CONTACT_SECTORS
    ensures forall d :: a <= d < b ==> !bits[d]
  {
  }

  lemma NoneYet(bits: seq<bool>, a: nat)
    ensures NoneBetween(bits, a, a)
  {
  }

  // past the last slot: as many as the bitmap in RAM has bits, CRC words included
  const ALL_SLOTS: nat := BITMAP_SECTORS * WORDS_PER_SECTOR * BITS_PER_WORD

  lemma NothingGathered(table: seq<HashEntry>, contacts: map<nat, Contact>)
    requires |table| == HASH_TABLE_SIZE && forall j :: 0 <= j < |table| ==> table[j].state == EntryEmpty
    ensures Claimed(table, 0) && Gathered(table, 0, [], contacts, map[], 0)
  {
    TableSizePrime();
    assert UpTo(contacts, 0) == map[];
  }

  lemma NothingFits(allocator: FreeList)
    requires allocator.Valid() && allocator.stack.Length == MAX_CONTACTS
    requires allocator.Free() == [] && allocator.used == MAX_CONTACTS
    ensures FreeFits(allocator, 0)
  {
  }

  lemma Unstarted(t: HashTable, contacts: map<nat, Contact>)
    requires t.htable.Length == HASH_TABLE_SIZE && t.numElems == 0
    requires forall j :: 0 <= j < t.htable.Length ==> t.htable[j].state == EntryEmpty
    requires t.contactAllocator.Valid() && t.contactAllocator.stack.Length == MAX_CONTACTS
    requires t.contactAllocator.Free() == [] && t.contactAllocator.used == MAX_CONTACTS
    ensures Claimed(t.htable[..], 0) && FreeFits(t.contactAllocator, 0)
    ensures Gatherable(t.storage.sectors, t.bitmap.bits, contacts) ==> Gathering(t, contacts, map[], 0)
  {
    NothingGathered(t.htable[..], contacts);
    NothingFits(t.contactAllocator);
  }

  lemma FitsAll(allocator: FreeList)
    requires FreeFits(allocator, ALL_SLOTS)
    ensures FreeFits(allocator, MAX_CONTACTS)
  {
  }

  /** No contact sector in use is left: the rest of the slots are free. */
  lemma RestGathered(t: HashTable, table: seq<HashEntry>, free: seq<nat>, contacts: map<nat, Contact>, places: map<nat, Place>, a: nat)
    requires Gatherable(t.storage.sectors, t.bitmap.bits, contacts) && a <= CONTACT_SECTORS && table == t.htable[..]
    requires Gathered(table, t.numElems, free, contacts, places, a * CONTACT_CAPACITY)
    requires NoneBetween(t.bitmap.bits, a, CONTACT_SECTORS)
    requires t.contactAllocator.Free() == free + Range(a * CONTACT_CAPACITY, Min(ALL_SLOTS, MAX_CONTACTS))
    ensures Gathering(t, contacts, places, ALL_SLOTS)
  {
    BitCount(t.storage.sectors, t.bitmap.bits, contacts);
    NoneAll(t.bitmap.bits, a, CONTACT_SECTORS);
    SectorsBetween(t.storage.sectors, t.bitmap.bits, contacts, a, CONTACT_SECTORS);
    forall s | a * CONTACT_CAPACITY <= s < ALL_SLOTS
      ensures s !in contacts
    {
      if s >= CONTACT_SECTORS * CONTACT_CAPACITY { BitCount(t.storage.sectors, t.bitmap.bits, contacts); }
    }
    hide Gathered, Gatherable;
    GapGathered(table, t.numElems, free, contacts, places, a * CONTACT_CAPACITY, ALL_SLOTS);
  }

  lemma GatheringParts(t: HashTable, contacts: map<nat, Contact>, places: map<nat, Place>, pos: nat)
    requires Gathering(t, contacts, places, pos)
    ensures Gathered(t.htable[..], t.numElems, t.contactAllocator.Free(), contacts, places, pos)
  {
  }

  lemma BitCount(card: Card, bits: seq<bool>, contacts: map<nat, Contact>)
    requires Gatherable(card, bits, contacts)
    ensures |bits| == TOTAL_BITS && forall s <- contacts :: s < MAX_CONTACTS
  {
  }

  /** Rebuilds the table and the contact allocator from an empty table and an allocator without
      free slots.  Whatever the card holds, the table does not fill up. */
  method ReconstructContact(t: HashTable, ghost contacts: map<nat, Contact>) returns (ok: bool, ghost places: map<nat, Place>)
    requires t.bitmap.Valid() && t.htable.Length == HASH_TABLE_SIZE && t.numElems == 0
    requires forall j :: 0 <= j < t.htable.Length ==> t.htable[j].state == EntryEmpty
    requires t.contactAllocator.Valid() && t.contactAllocator.stack.Length == MAX_CONTACTS
    requires t.contactAllocator.Free() == [] && t.contactAllocator.used == MAX_CONTACTS
    modifies t`numElems, t.htable, t.contactAllocator, t.contactAllocator.stack
    ensures ok && HasRoom(t.htable[..]) && SectorsFit(t.htable[..]) && FreeFits(t.contactAllocator, MAX_CONTACTS)
    ensures Gatherable(t.storage.sectors, t.bitmap.bits, contacts) ==> Gathering(t, contacts, places, ALL_SLOTS)
  {
    hide UsageBitmap.Valid, Gatherable, NoneBetween, Claimed, HasRoom, SectorsFit, FreeFits, Gathered, Gathering, IsCrcWord;
    ghost var good := Gatherable(t.storage.sectors, t.bitmap.bits, contacts);
    places := map[];
    Unstarted(t, contacts);
    ok := true;
    var word, lastFree: nat := 0, 0;
    ghost var a: nat := 0;
    NoneYet(t.bitmap.bits, 0);
    var lastWord := FindIndex(CONTACT_SECTORS);
    while word <= lastWord
      invariant word <= lastWord + 1 && t.htable.Length == HASH_TABLE_SIZE
      invariant ok && Claimed(t.htable[..], lastFree) && FreeFits(t.contactAllocator, lastFree)
      invariant lastFree == a * CONTACT_CAPACITY && a <= WordStart(word) && a <= CONTACT_SECTORS
      invariant NoneBetween(t.bitmap.bits, a, WordStart(word))
      invariant good ==> Gathering(t, contacts, places, lastFree)
    {
      NextWord(word);
      if !IsCrcWord(word) {
        ok, a, lastFree, places := VisitWord(t, word, a, lastFree, contacts, places);
        if !ok {
          return;
        }
      }
      word := word + 1;
    }
    NoneBeyond(t.bitmap.bits, a, WordStart(word), CONTACT_SECTORS);
    ghost var table, free := t.htable[..], t.contactAllocator.Free();
    if good { GatheringParts(t, contacts, places, lastFree); }
    ReleaseGap(t.contactAllocator, lastFree, ALL_SLOTS);
    if good { RestGathered(t, table, free, contacts, places, a); }
    FitsAll(t.contactAllocator);
    ClaimedRoom(t.htable[..], lastFree);
  }
}
