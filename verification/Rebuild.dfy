/** Rebuilding the structures in RAM from the card after a restart. */
module Rebuild {
  import opened Layout
  import opened StorageCard
  import opened JournalLog
  import opened UsageBitmaps
  import opened Journals
  import opened CrashSafety
  import opened Transactions
  import opened FreeLists
  import opened Contacts
  import opened Messages
  import opened Probing
  import opened HashTables
  import opened Agreement
  import opened Contents
  import opened HashOperations
  import opened RebuildContacts
  import opened Orphans

  // ----- handing back free message sectors while orphans are removed -----

  ghost function UsedBelow(bits: seq<bool>, pos: nat): set<nat> {
    set m: nat | m < pos && InUse(bits, m)
  }

  /** Below `pos`, each sector is either in use or on the free stack exactly once. */
  ghost predicate PartialOk(allocator: FreeList, bits: seq<bool>, pos: nat)
    reads allocator, allocator.stack
  {
    && allocator.Valid() && allocator.stack.Length == MESSAGE_SECTORS && pos <= MESSAGE_SECTORS
    && Partition(allocator.Free(), UsedBelow(bits, pos), pos)
  }

  /** Nothing has come into use. */
  predicate OnlyCleared(was: seq<bool>, bits: seq<bool>) {
    && |was| == |bits| == TOTAL_BITS
    && (forall d :: 0 <= d < TOTAL_BITS && bits[d] ==> was[d])
    && (forall d :: 0 <= d < CONTACT_SECTORS ==> bits[d] == was[d])
  }

  lemma FreedBelow(free: seq<nat>, bits: seq<bool>, m: nat, pos: nat)
    requires pos <= MESSAGE_SECTORS && InUse(bits, m) && Partition(free, UsedBelow(bits, pos), pos)
    ensures m < pos ==> |free| < pos && Partition(free + [m], UsedBelow(bits[MessageDataSector(m) := false], pos), pos)
    ensures m >= pos ==> Partition(free, UsedBelow(bits[MessageDataSector(m) := false], pos), pos)
    ensures OnlyCleared(bits, bits[MessageDataSector(m) := false])
  {
    if m < pos {
      PartitionRoom(free, UsedBelow(bits, pos), pos, m);
      PartitionRelease(free, UsedBelow(bits, pos), pos, m);
      assert UsedBelow(bits[MessageDataSector(m) := false], pos) == UsedBelow(bits, pos) - {m};
    } else {
      assert UsedBelow(bits[MessageDataSector(m) := false], pos) == UsedBelow(bits, pos);
    }
  }

  lemma UsedBounded(bits: seq<bool>)
    ensures |UsedSectors(bits)| <= MESSAGE_SECTORS
  {
    SubsetSize(UsedSectors(bits), Below(MESSAGE_SECTORS));
  }

  lemma ClearedOne(was: seq<bool>, mid: seq<bool>, m: nat)
    requires OnlyCleared(was, mid) && InUse(mid, m)
    ensures OnlyCleared(was, mid[MessageDataSector(m) := false])
    ensures |UsedSectors(mid[MessageDataSector(m) := false])| + 1 == |UsedSectors(mid)|
  {
    ClearOne(mid, m);
    assert UsedSectors(mid) == UsedSectors(mid[MessageDataSector(m) := false]) + {m};
  }

  lemma NothingCleared(bits: seq<bool>)
    requires |bits| == TOTAL_BITS
    ensures OnlyCleared(bits, bits)
  {
  }

  /** The contents of all sectors behind the bitmap are the same. */
  predicate SameData(card: Card, now: Card) { forall a :: DATA_START <= a < CARD_SECTORS ==> now[a] == card[a] }

  lemma SameDataSelf(card: Card)
    ensures SameData(card, card)
  {
  }

  lemma LinksKept(card: Card, bits: seq<bool>, now: Card, nowBits: seq<bool>)
    requires LinksInRange(card, bits) && OnlyCleared(bits, nowBits) && SameData(card, now)
    ensures LinksInRange(now, nowBits)
  {
    assert forall m :: 0 <= m < MESSAGE_SECTORS ==> SectorOf(now, m) == SectorOf(card, m);
  }

  /** Clears the bit of one sector of an orphaned chat, in a transaction that saves no sector. */
  method RemoveMessageBit(storage: Storage, journal: Journal, bitmap: UsageBitmap, m: nat)
    requires Ready(storage, journal, bitmap) && m < MESSAGE_SECTORS
    modifies storage, journal, bitmap, bitmap.words
    ensures Ready(storage, journal, bitmap)
    ensures journal.done == old(journal.done) + [ClearTx(RemoveKind, old(bitmap.bits), m, Garbage(0))]
    ensures bitmap.bits == old(bitmap.bits)[MessageDataSector(m) := false]
    ensures SameData(old(storage.sectors), storage.sectors)
  {
    Transact(storage, journal, bitmap, RemoveKind, MessageDataSector(m), Garbage(0), Some(false), None, false);
  }

  /** Takes a chat whose contact is gone out of use: exactly the sectors that the walk back from
      `startIndex` meets, up to the first one that is unused or unreadable.  Sectors that the
      rebuild has passed go back to the allocator here; the others it will find free when it
      gets there. */
  method RemoveOrphanedChat(storage: Storage, journal: Journal, bitmap: UsageBitmap, allocator: FreeList, startIndex: nat)
    returns (ret: Ret, ghost run: seq<nat>)
    requires Ready(storage, journal, bitmap) && LinksInRange(storage.sectors, bitmap.bits) && startIndex < MESSAGE_SECTORS
    requires PartialOk(allocator, bitmap.bits, startIndex + 1)
    modifies storage, journal, bitmap, bitmap.words, allocator, allocator.stack
    ensures Ready(storage, journal, bitmap) && PartialOk(allocator, bitmap.bits, startIndex + 1)
    ensures OrphanRun(old(storage.sectors), old(bitmap.bits), startIndex, run) && bitmap.bits == ClearAll(old(bitmap.bits), run)
    ensures forall m :: 0 <= m < MESSAGE_SECTORS ==> (InUse(bitmap.bits, m) <==> InUse(old(bitmap.bits), m) && m !in run)
    ensures Readable(old(storage.sectors), old(bitmap.bits), startIndex) ==> !InUse(bitmap.bits, startIndex)
    ensures OnlyCleared(old(bitmap.bits), bitmap.bits)
    ensures SameData(old(storage.sectors), storage.sectors)
    ensures ret in {Ok, Empty, Corrupt} && (ret == Ok <==> After(old(storage.sectors), startIndex, run) == NIL)
  {
    hide Ready, LinksInRange, PartialOk, OnlyCleared, UsageBitmap.Valid, OrphanRun, Walking, ClearAll, After, SameData, Readable;
    ReadyFacts(storage, journal, bitmap);
    var prev: nat, jumps := startIndex, 0;
    ghost var card, bits := storage.sectors, bitmap.bits;
    NothingCleared(bits);
    UsedBounded(bits);
    NoWalk(card, bits, startIndex);
    SameDataSelf(card);
    run := [];
    ret := Ok;
    while prev != NIL && ret == Ok
      invariant Ready(storage, journal, bitmap) && PartialOk(allocator, bitmap.bits, startIndex + 1)
      invariant OnlyCleared(bits, bitmap.bits) && (prev == NIL || prev < MESSAGE_SECTORS) && LinksInRange(storage.sectors, bitmap.bits)
      invariant SameData(card, storage.sectors)
      invariant jumps + |UsedSectors(bitmap.bits)| <= MESSAGE_SECTORS
      invariant ret in {Ok, Empty, Corrupt}
      invariant bitmap.bits == ClearAll(bits, run) && Walking(card, bits, startIndex, run)
      invariant if ret == Ok then prev == After(card, startIndex, run)
                else OrphanRun(card, bits, startIndex, run) && After(card, startIndex, run) != NIL
      decreases ret == Ok, |UsedSectors(bitmap.bits)|
    {
      var cur := prev;
      ret, prev := RemoveOrphan(storage, journal, bitmap, allocator, startIndex, cur, card, bits);
      if ret == Ok {
        WalkOn(card, bits, startIndex, run, cur);
        run := run + [cur];
        if jumps >= MESSAGE_SECTORS {
          ret := Fail;
        }
        jumps := jumps + 1;
      } else {
        WalkOver(card, bits, startIndex, run);
      }
    }
    if ret == Ok { WalkOver(card, bits, startIndex, run); }
    RunUse(card, bits, startIndex, run);
  }

  method RemoveOrphan(storage: Storage, journal: Journal, bitmap: UsageBitmap, allocator: FreeList, startIndex: nat, cur: nat,
                      ghost card: Card, ghost bits: seq<bool>)
    returns (ret: Ret, prev: nat)
    requires Ready(storage, journal, bitmap) && LinksInRange(storage.sectors, bitmap.bits) && startIndex < MESSAGE_SECTORS && cur < MESSAGE_SECTORS
    requires PartialOk(allocator, bitmap.bits, startIndex + 1) && OnlyCleared(bits, bitmap.bits) && SameData(card, storage.sectors)
    modifies storage, journal, bitmap, bitmap.words, allocator, allocator.stack
    ensures Ready(storage, journal, bitmap) && PartialOk(allocator, bitmap.bits, startIndex + 1) && OnlyCleared(bits, bitmap.bits)
    ensures SameData(card, storage.sectors)
    ensures ret in {Ok, Empty, Corrupt} && (prev == NIL || prev < MESSAGE_SECTORS) && LinksInRange(storage.sectors, bitmap.bits)
    ensures ret == Ok <==> Readable(card, old(bitmap.bits), cur)
    ensures ret == Ok ==> bitmap.bits == old(bitmap.bits)[MessageDataSector(cur) := false] && prev == PrevOf(card, cur)
    ensures ret == Ok ==> |UsedSectors(bitmap.bits)| + 1 == |UsedSectors(old(bitmap.bits))|
    ensures ret != Ok ==> bitmap.bits == old(bitmap.bits)
  {
    hide Ready, UsageBitmap.Valid, LinksInRange, OnlyCleared, Partition, UsedBelow, UsedSectors;
    ReadyFacts(storage, journal, bitmap);
    var sector;
    ret, sector := Fetch(storage, bitmap, cur);
    assert sector == SectorOf(card, cur);
    prev := NIL;
    if ret == Ok {
      FreedBelow(allocator.Free(), bitmap.bits, cur, startIndex + 1);
      ClearedOne(bits, bitmap.bits, cur);
      LinkAt(storage.sectors, bitmap.bits, cur);
      RemoveMessageBit(storage, journal, bitmap, cur);
      LinksKept(old(storage.sectors), old(bitmap.bits), storage.sectors, bitmap.bits);
      if cur <= startIndex {
        allocator.Release(cur);
      }
      prev := sector.prev;
    }
  }

  // ----- finding the newest sector of every chat -----

  /** The rebuild has found the newest sectors below `pos`. */
  ghost predicate HeadsFound(card: Card, bits: seq<bool>, table: seq<HashEntry>, places: map<nat, Place>, pos: nat) {
    forall s <- places :: places[s].index < |table| && table[places[s].index].latest == NewestHead(card, bits, s, pos)
  }

  /** The table holds the contacts that the card does. */
  ghost predicate GoodTable(card: Card, bits: seq<bool>, table: seq<HashEntry>, contacts: map<nat, Contact>, places: map<nat, Place>) {
    && TableOk(table, contacts, places) && PhonesDistinct(contacts)
    && forall s <- contacts :: s <= NIL && ContactAt(card, bits, s) == Some(contacts[s])
  }

  /** Tables that differ in their `latest` links only. */
  ghost predicate SameBut(was: seq<HashEntry>, table: seq<HashEntry>) {
    |was| == |table| && forall j :: 0 <= j < |table| ==> table[j] == was[j].(latest := table[j].latest)
  }

  lemma OwnFound(card: Card, bits: seq<bool>, table: seq<HashEntry>, contacts: map<nat, Contact>, places: map<nat, Place>, slot: nat,
                 found: bool, p: Place)
    requires GoodTable(card, bits, table, contacts, places) && slot in contacts
    requires FoundOk(table, contacts, places, contacts[slot].phone, found, p)
    ensures found && slot in places && p.index == places[slot].index && p.index < |table|
    ensures table[p.index].state == EntryOccupied && table[p.index].sector == slot
  {
    assert PlaceOk(table, slot, contacts[slot], places[slot]);
  }

  lemma EntryOwned(card: Card, bits: seq<bool>, table: seq<HashEntry>, contacts: map<nat, Contact>, places: map<nat, Place>, j: nat)
    requires GoodTable(card, bits, table, contacts, places) && j < |table| && table[j].state == EntryOccupied
    ensures table[j].sector in contacts
  {
  }

  /** Makes a head the newest sector of its contact's chat, or removes its chat if there is no
      such contact. */
  method InsertMessageFromSector(t: HashTable, sector: Sector, m: nat, ghost contacts: map<nat, Contact>, ghost places: map<nat, Place>)
    returns (ret: Ret, ghost run: seq<nat>)
    requires t.Shape() && Ready(t.storage, t.journal, t.bitmap) && LinksInRange(t.storage.sectors, t.bitmap.bits)
    requires SectorsFit(t.htable[..]) && HasRoom(t.htable[..])
    requires m < MESSAGE_SECTORS && sector.MessageSector?
    requires PartialOk(t.messageAllocator, t.bitmap.bits, m + 1)
    modifies t.storage, t.journal, t.bitmap, t.bitmap.words, t.messageAllocator, t.messageAllocator.stack, t.htable
    ensures Ready(t.storage, t.journal, t.bitmap) && PartialOk(t.messageAllocator, t.bitmap.bits, m + 1)
    ensures ret != Fail && OnlyCleared(old(t.bitmap.bits), t.bitmap.bits) && SameBut(old(t.htable[..]), t.htable[..])
    ensures SameData(old(t.storage.sectors), t.storage.sectors)
    ensures GoodTable(old(t.storage.sectors), old(t.bitmap.bits), old(t.htable[..]), contacts, places) && sector.contactIndex in contacts ==>
      && ret == Ok && Untouched(t.storage, t.journal, t.bitmap) && sector.contactIndex in places
      && var j := places[sector.contactIndex].index;
         j < |old(t.htable[..])| && t.htable[..] == old(t.htable[..])[j := old(t.htable[..])[j].(latest := m)]
    ensures GoodTable(old(t.storage.sectors), old(t.bitmap.bits), old(t.htable[..]), contacts, places) && sector.contactIndex !in contacts ==>
      && ret in {Empty, Corrupt} && t.htable[..] == old(t.htable[..])
      && OrphanRun(old(t.storage.sectors), old(t.bitmap.bits), m, run) && t.bitmap.bits == ClearAll(old(t.bitmap.bits), run)
  {
    hide Ready, LinksInRange, PartialOk, OnlyCleared, TableOk, PhonesDistinct, UsageBitmap.Valid, HasRoom, OrphanRun, ClearAll, SameData, After, Readable;
    ReadyFacts(t.storage, t.journal, t.bitmap);
    NothingCleared(t.bitmap.bits);
    SameDataSelf(t.storage.sectors);
    run := [];
    ghost var good := GoodTable(t.storage.sectors, t.bitmap.bits, t.htable[..], contacts, places);
    var c;
    ret, c := ReadContact(t.storage, t.bitmap, sector.contactIndex);
    if ret != Ok {
      assert good ==> sector.contactIndex !in contacts;
      ret, run := RemoveOrphanedChat(t.storage, t.journal, t.bitmap, t.messageAllocator, m);
      ret := if ret == Ok then Empty else ret;
    } else {
      var found, place := FindEntry(t.storage, t.bitmap, t.htable, c.phone, contacts, places);
      if good && sector.contactIndex in contacts { OwnFound(t.storage.sectors, t.bitmap.bits, t.htable[..], contacts, places, sector.contactIndex, found, place); }
      if !found {
        ret := Fail;
        assert false;
      } else if t.htable[place.index].state != EntryOccupied || t.htable[place.index].sector != sector.contactIndex {
        assert good ==> sector.contactIndex !in contacts;
        ret, run := RemoveOrphanedChat(t.storage, t.journal, t.bitmap, t.messageAllocator, m);
        ret := if ret == Ok then Empty else ret;
      } else {
        if good { EntryOwned(t.storage.sectors, t.bitmap.bits, t.htable[..], contacts, places, place.index); }
        t.htable[place.index] := t.htable[place.index].(latest := m);
      }
    }
  }

  // ----- one pass over the message sectors in use -----

  /** Sectors `a` to `b - 1` are not in use. */
  predicate Unused(bits: seq<bool>, a: nat, b: nat) {
    forall m :: a <= m < b ==> !InUse(bits, m)
  }

  lemma PassUnused(free: seq<nat>, bits: seq<bool>, a: nat, b: nat)
    requires a <= b <= MESSAGE_SECTORS && Unused(bits, a, b) && Partition(free, UsedBelow(bits, a), a)
    ensures Partition(free + Range(a, b), UsedBelow(bits, b), b) && |free| + |Range(a, b)| <= MESSAGE_SECTORS
  {
    var all := free + Range(a, b);
    assert UsedBelow(bits, b) == UsedBelow(bits, a);
    forall x | 0 <= x < b && x !in UsedBelow(bits, b)
      ensures x in all
    {
      if x < a { assert x in free; } else { assert Range(a, b)[x - a] == x; }
    }
    forall i, j | 0 <= i < j < |all|
      ensures all[i] != all[j]
    {
      if i < |free| <= j { assert all[i] in free; }
    }
    Pigeonhole(all, b);
  }

  lemma PassUsed(free: seq<nat>, bits: seq<bool>, m: nat)
    requires m < MESSAGE_SECTORS && InUse(bits, m) && Partition(free, UsedBelow(bits, m), m)
    ensures Partition(free, UsedBelow(bits, m + 1), m + 1)
  {
    assert UsedBelow(bits, m + 1) == UsedBelow(bits, m) + {m};
  }

  lemma {:induction false} HeadsSkip(card: Card, bits: seq<bool>, slot: nat, a: nat, b: nat)
    requires a <= b && Unused(bits, a, b)
    ensures NewestHead(card, bits, slot, b) == NewestHead(card, bits, slot, a)
    decreases b - a
  {
    if a < b { HeadsSkip(card, bits, slot, a, b - 1); }
  }

  lemma HeadsPass(card: Card, bits: seq<bool>, table: seq<HashEntry>, places: map<nat, Place>, a: nat, b: nat)
    requires HeadsFound(card, bits, table, places, a) && a <= b && Unused(bits, a, b)
    ensures HeadsFound(card, bits, table, places, b)
  {
    forall s | s in places
      ensures NewestHead(card, bits, s, b) == NewestHead(card, bits, s, a)
    {
      HeadsSkip(card, bits, s, a, b);
    }
  }

  /** A sector that is no head, or cannot be read, changes nothing. */
  lemma HeadsOther(card: Card, bits: seq<bool>, table: seq<HashEntry>, places: map<nat, Place>, m: nat)
    requires HeadsFound(card, bits, table, places, m) && forall s <- places :: !HeadOf(card, bits, s, m)
    ensures HeadsFound(card, bits, table, places, m + 1)
  {
  }

  lemma HeadsUpdate(card: Card, bits: seq<bool>, table: seq<HashEntry>, contacts: map<nat, Contact>, places: map<nat, Place>, slot: nat, m: nat)
    requires HeadsFound(card, bits, table, places, m) && GoodTable(card, bits, table, contacts, places)
    requires slot in places && HeadOf(card, bits, slot, m)
    ensures places[slot].index < |table|
    ensures var now := table[places[slot].index := table[places[slot].index].(latest := m)];
            HeadsFound(card, bits, now, places, m + 1) && GoodTable(card, bits, now, contacts, places)
  {
    PlacesApart(table, contacts, places);
    TableRelatest(table, contacts, places, slot, m);
  }

  lemma SectorsFitStill(was: seq<HashEntry>, table: seq<HashEntry>)
    requires SectorsFit(was) && HasRoom(was) && SameBut(was, table)
    ensures SectorsFit(table) && HasRoom(table)
  {
    var j :| 0 <= j < |was| && was[j].state != EntryOccupied;
    assert table[j].state == was[j].state;
    hide Prime;
  }

  /** No head belongs to a contact that is not there. */
  ghost predicate NoOrphans(card: Card, bits: seq<bool>, contacts: map<nat, Contact>) {
    forall m :: 0 <= m < MESSAGE_SECTORS && IsMessageSector(SectorOf(card, m)) && HeadOf(card, bits, SectorOf(card, m).contactIndex, m) ==>
      SectorOf(card, m).contactIndex in contacts
  }

  /** What the rebuild has done so far on a card without orphans. */
  ghost predicate Finding(card: Card, bits: seq<bool>, table: seq<HashEntry>, contacts: map<nat, Contact>, places: map<nat, Place>, pos: nat) {
    GoodTable(card, bits, table, contacts, places) && HeadsFound(card, bits, table, places, pos) && NoOrphans(card, bits, contacts)
  }

  lemma FindingStep(card: Card, bits: seq<bool>, table: seq<HashEntry>, contacts: map<nat, Contact>, places: map<nat, Place>, m: nat)
    requires Finding(card, bits, table, contacts, places, m) && m < MESSAGE_SECTORS
    ensures !(InUse(bits, m) && IsMessageSector(SectorOf(card, m)) && IsHead(bits, SectorOf(card, m))) ==>
      Finding(card, bits, table, contacts, places, m + 1)
    ensures InUse(bits, m) && IsMessageSector(SectorOf(card, m)) && IsHead(bits, SectorOf(card, m)) ==>
      var slot := SectorOf(card, m).contactIndex;
      && slot in contacts && slot in places && places[slot].index < |table|
      && Finding(card, bits, table[places[slot].index := table[places[slot].index].(latest := m)], contacts, places, m + 1)
  {
    hide GoodTable, HeadsFound;
    if InUse(bits, m) && IsMessageSector(SectorOf(card, m)) && IsHead(bits, SectorOf(card, m)) {
      var slot := SectorOf(card, m).contactIndex;
      assert HeadOf(card, bits, slot, m);
      GoodKeys(card, bits, table, contacts, places);
      HeadsUpdate(card, bits, table, contacts, places, slot, m);
    } else {
      HeadsOther(card, bits, table, places, m);
    }
  }

  lemma GoodKeys(card: Card, bits: seq<bool>, table: seq<HashEntry>, contacts: map<nat, Contact>, places: map<nat, Place>)
    requires GoodTable(card, bits, table, contacts, places)
    ensures contacts.Keys == places.Keys
  {
  }

  // ----- orphaned chats beside the contacts' chats -----

  /** What the rebuild has done so far on a card with orphans, seen from the card and the bits it
      started with: orphaned chats below `pos` are out of use, and with the links apart the
      newest sectors of the contacts' chats are found as if there had been no removal. */
  ghost predicate Scanning(card: Card, was: seq<bool>, nowCard: Card, now: seq<bool>, table: seq<HashEntry>, contacts: map<nat, Contact>,
                           places: map<nat, Place>, pos: nat) {
    && SameData(card, nowCard) && OnlyCleared(was, now)
    && GoodTable(card, was, table, contacts, places) && (forall s <- contacts :: s < MAX_CONTACTS)
    && Cleaning(card, was, now, contacts.Keys, pos)
    && (Separate(card, was, contacts.Keys) ==> HeadsFound(card, was, table, places, pos))
  }

  lemma ContactsStill(card: Card, was: seq<bool>, nowCard: Card, now: seq<bool>, table: seq<HashEntry>, contacts: map<nat, Contact>,
                      places: map<nat, Place>)
    requires GoodTable(card, was, table, contacts, places) && (forall s <- contacts :: s < MAX_CONTACTS)
    requires SameData(card, nowCard) && OnlyCleared(was, now)
    ensures GoodTable(nowCard, now, table, contacts, places)
  {
    hide TableOk, PhonesDistinct;
    forall s | s in contacts
      ensures ContactAt(nowCard, now, s) == ContactAt(card, was, s)
    {
      assert ContactDataSector(s) < CONTACT_SECTORS;
    }
  }

  lemma SameSector(card: Card, now: Card, m: nat)
    requires SameData(card, now)
    ensures SectorOf(now, m) == SectorOf(card, m)
  {
  }

  /** A sector out of use, or one that is no head, or a contact's newest sector of a chat: nothing
      is removed there. */
  lemma ScanKeeps(card: Card, was: seq<bool>, nowCard: Card, now: seq<bool>, table: seq<HashEntry>, contacts: map<nat, Contact>,
                  places: map<nat, Place>, m: nat)
    requires Scanning(card, was, nowCard, now, table, contacts, places, m) && m < MESSAGE_SECTORS
    ensures !(Readable(card, now, m) && IsHead(now, SectorOf(card, m))) ==>
      Scanning(card, was, nowCard, now, table, contacts, places, m + 1)
    ensures Readable(card, now, m) && IsHead(now, SectorOf(card, m)) && SectorOf(card, m).contactIndex in contacts ==>
      var slot := SectorOf(card, m).contactIndex;
      && slot in places && places[slot].index < |table|
      && Scanning(card, was, nowCard, now, table[places[slot].index := table[places[slot].index].(latest := m)], contacts, places, m + 1)
  {
    GoodKeys(card, was, table, contacts, places);
    if Separate(card, was, contacts.Keys) { SameHeads(card, was, now, contacts, m); }
    hide SameData, OnlyCleared, GoodTable, Cleaning, HeadsFound, Separate, OursKept, Closed;
    if !(Readable(card, now, m) && IsHead(now, SectorOf(card, m))) {
      CleaningPass(card, was, now, contacts.Keys, m);
      if Separate(card, was, contacts.Keys) { HeadsOther(card, was, table, places, m); }
    } else if SectorOf(card, m).contactIndex in contacts {
      var slot := SectorOf(card, m).contactIndex;
      CleaningPass(card, was, now, contacts.Keys, m);
      TableUpdate(card, was, table, contacts, places, slot, m);
      if Separate(card, was, contacts.Keys) { HeadsUpdate(card, was, table, contacts, places, slot, m); }
    }
  }

  lemma SameHeads(card: Card, was: seq<bool>, now: seq<bool>, contacts: map<nat, Contact>, m: nat)
    requires Closed(card, was, now) && Separate(card, was, contacts.Keys) && OursKept(card, was, now, contacts.Keys)
    ensures forall s <- contacts :: HeadOf(card, now, s, m) <==> HeadOf(card, was, s, m)
  {
    forall s | s in contacts
      ensures HeadOf(card, now, s, m) <==> HeadOf(card, was, s, m)
    {
      HeadsSame(card, was, now, contacts.Keys, s, m);
    }
  }

  lemma TableUpdate(card: Card, bits: seq<bool>, table: seq<HashEntry>, contacts: map<nat, Contact>, places: map<nat, Place>, slot: nat, m: nat)
    requires GoodTable(card, bits, table, contacts, places) && slot in places
    ensures places[slot].index < |table|
    ensures GoodTable(card, bits, table[places[slot].index := table[places[slot].index].(latest := m)], contacts, places)
  {
    PlacesApart(table, contacts, places);
    TableRelatest(table, contacts, places, slot, m);
  }

  /** The scan removes an orphaned chat. */
  lemma ScanRemoves(card: Card, was: seq<bool>, midCard: Card, mid: seq<bool>, nowCard: Card, table: seq<HashEntry>, contacts: map<nat, Contact>,
                    places: map<nat, Place>, m: nat, run: seq<nat>)
    requires Scanning(card, was, midCard, mid, table, contacts, places, m) && m < MESSAGE_SECTORS
    requires Readable(card, mid, m) && IsHead(mid, SectorOf(card, m)) && SectorOf(card, m).contactIndex !in contacts
    requires OrphanRun(card, mid, m, run) && SameData(midCard, nowCard) && OnlyCleared(mid, ClearAll(mid, run))
    ensures Scanning(card, was, nowCard, ClearAll(mid, run), table, contacts, places, m + 1)
  {
    GoodKeys(card, was, table, contacts, places);
    ClearedTwice(was, mid, ClearAll(mid, run));
    hide OnlyCleared, GoodTable, Cleaning, HeadsFound, Separate, OrphanRun, ClearAll;
    CleaningRun(card, was, mid, contacts.Keys, m, run);
    if Separate(card, was, contacts.Keys) { HeadsOther(card, was, table, places, m); }
  }

  lemma {:induction false} ScanPass(card: Card, was: seq<bool>, nowCard: Card, now: seq<bool>, table: seq<HashEntry>, contacts: map<nat, Contact>,
                                    places: map<nat, Place>, a: nat, b: nat)
    requires Scanning(card, was, nowCard, now, table, contacts, places, a) && a <= b <= MESSAGE_SECTORS && Unused(now, a, b)
    ensures Scanning(card, was, nowCard, now, table, contacts, places, b)
    decreases b - a
  {
    hide Scanning;
    if a < b {
      ScanPass(card, was, nowCard, now, table, contacts, places, a, b - 1);
      ScanKeeps(card, was, nowCard, now, table, contacts, places, b - 1);
    }
  }

  /** The walk is the same on every card with the same data. */
  lemma RunSame(card: Card, now: Card, bits: seq<bool>, start: nat, run: seq<nat>)
    requires OrphanRun(now, bits, start, run) && SameData(card, now)
    ensures OrphanRun(card, bits, start, run)
  {
    forall m: nat
      ensures SectorOf(now, m) == SectorOf(card, m)
    {
      SameSector(card, now, m);
    }
  }

  lemma ScanningGood(card: Card, was: seq<bool>, nowCard: Card, now: seq<bool>, table: seq<HashEntry>, contacts: map<nat, Contact>,
                     places: map<nat, Place>, m: nat)
    requires Scanning(card, was, nowCard, now, table, contacts, places, m)
    ensures GoodTable(nowCard, now, table, contacts, places) && SameData(card, nowCard) && SectorOf(nowCard, m) == SectorOf(card, m)
  {
    hide GoodTable, Cleaning, HeadsFound, Separate, OnlyCleared;
    ContactsStill(card, was, nowCard, now, table, contacts, places);
  }

  /** Reads one sector in use and takes note of it if it is a head. */
  method VisitSector(t: HashTable, m: nat, ghost contacts: map<nat, Contact>, ghost places: map<nat, Place>, ghost card: Card, ghost was: seq<bool>)
    returns (ok: bool)
    requires t.Shape() && Ready(t.storage, t.journal, t.bitmap) && SectorsFit(t.htable[..]) && HasRoom(t.htable[..])
    requires LinksInRange(t.storage.sectors, t.bitmap.bits)
    requires m < MESSAGE_SECTORS && InUse(t.bitmap.bits, m) && PartialOk(t.messageAllocator, t.bitmap.bits, m + 1)
    modifies t.storage, t.journal, t.bitmap, t.bitmap.words, t.messageAllocator, t.messageAllocator.stack, t.htable
    ensures Ready(t.storage, t.journal, t.bitmap) && PartialOk(t.messageAllocator, t.bitmap.bits, m + 1)
    ensures ok && OnlyCleared(old(t.bitmap.bits), t.bitmap.bits) && SameBut(old(t.htable[..]), t.htable[..])
    ensures SameData(old(t.storage.sectors), t.storage.sectors)
    ensures Finding(old(t.storage.sectors), old(t.bitmap.bits), old(t.htable[..]), contacts, places, m) ==>
      && Untouched(t.storage, t.journal, t.bitmap)
      && Finding(t.storage.sectors, t.bitmap.bits, t.htable[..], contacts, places, m + 1)
    ensures Scanning(card, was, old(t.storage.sectors), old(t.bitmap.bits), old(t.htable[..]), contacts, places, m) ==>
      Scanning(card, was, t.storage.sectors, t.bitmap.bits, t.htable[..], contacts, places, m + 1)
  {
    hide Ready, LinksInRange, PartialOk, OnlyCleared, HeadsFound, GoodTable, NoOrphans, UsageBitmap.Valid, SectorsFit, HasRoom, Scanning, OrphanRun,
      ClearAll, SameData;
    ReadyFacts(t.storage, t.journal, t.bitmap);
    NothingCleared(t.bitmap.bits);
    SameDataSelf(t.storage.sectors);
    ghost var scanning := Scanning(card, was, t.storage.sectors, t.bitmap.bits, t.htable[..], contacts, places, m);
    if scanning {
      ScanningGood(card, was, t.storage.sectors, t.bitmap.bits, t.htable[..], contacts, places, m);
      ScanKeeps(card, was, t.storage.sectors, t.bitmap.bits, t.htable[..], contacts, places, m);
    }
    if Finding(t.storage.sectors, t.bitmap.bits, t.htable[..], contacts, places, m) {
      FindingStep(t.storage.sectors, t.bitmap.bits, t.htable[..], contacts, places, m);
    }
    ok := true;
    var sector := SectorOf(t.storage.sectors, m);
    if IsMessageSector(sector) {
      var isHead := sector.next == NIL || sector.next >= MESSAGE_SECTORS;
      if !isHead {
        var used := t.bitmap.CheckUsageBit(MessageDataSector(sector.next));
        isHead := !used;
      }
      assert isHead == IsHead(t.bitmap.bits, sector);
      if isHead {
        var ret, run := InsertMessageFromSector(t, sector, m, contacts, places);
        ok := ret != Fail;
        if scanning && sector.contactIndex !in contacts {
          RunSame(card, old(t.storage.sectors), old(t.bitmap.bits), m, run);
          ScanRemoves(card, was, old(t.storage.sectors), old(t.bitmap.bits), t.storage.sectors, t.htable[..], contacts, places, m, run);
        }
      }
    }
  }

  /** The next sector in use from `m` on, or MESSAGE_SECTORS if there is none: the scan may come
      back with a bit past the end of the region. */
  ghost predicate NextUsed(bits: seq<bool>, m: nat, data: nat) {
    && m <= MESSAGE_SECTORS
    && if data == NIL || data > MessageDataSector(MESSAGE_SECTORS - 1) then Unused(bits, m, MESSAGE_SECTORS)
       else MessageDataSector(m) <= data && InUse(bits, data - MESSAGE_START) && Unused(bits, m, data - MESSAGE_START)
  }

  lemma ScanFound(bits: seq<bool>, m: nat, data: nat)
    requires |bits| == TOTAL_BITS && m < MESSAGE_SECTORS
    requires data == NIL ==> forall d :: MessageDataSector(m) <= d <= MessageDataSector(MESSAGE_SECTORS - 1) ==> !bits[d]
    requires data != NIL ==> MessageDataSector(m) <= data < TOTAL_BITS && bits[data]
                             && forall d :: MessageDataSector(m) <= d < data ==> !bits[d]
    ensures NextUsed(bits, m, data)
  {
  }

  method NextMessageSector(bitmap: UsageBitmap, m: nat) returns (data: nat)
    requires bitmap.Valid() && m < MESSAGE_SECTORS
    ensures NextUsed(bitmap.bits, m, data)
  {
    data := bitmap.GetNextBit(MessageDataSector(m), MessageDataSector(MESSAGE_SECTORS - 1));
    ScanFound(bitmap.bits, m, data);
  }

  /** Hands back the sectors from `a` to `b - 1`, none of which is in use. */
  method ReleaseUnused(allocator: FreeList, a: nat, b: nat, ghost bits: seq<bool>)
    requires PartialOk(allocator, bits, a) && a <= b <= MESSAGE_SECTORS && Unused(bits, a, b)
    modifies allocator, allocator.stack
    ensures PartialOk(allocator, bits, b)
  {
    hide Partition, Unused, UsedBelow;
    PassUnused(allocator.Free(), bits, a, b);
    allocator.ReleaseRange(a, b);
  }

  lemma PassVisited(allocator: FreeList, bits: seq<bool>, m: nat)
    requires PartialOk(allocator, bits, m) && m < MESSAGE_SECTORS && InUse(bits, m)
    ensures PartialOk(allocator, bits, m + 1)
  {
    PassUsed(allocator.Free(), bits, m);
  }

  lemma FindingPass(card: Card, bits: seq<bool>, table: seq<HashEntry>, contacts: map<nat, Contact>, places: map<nat, Place>, a: nat, b: nat)
    requires Finding(card, bits, table, contacts, places, a) && a <= b && Unused(bits, a, b)
    ensures Finding(card, bits, table, contacts, places, b)
  {
    HeadsPass(card, bits, table, places, a, b);
  }

  lemma AllPassed(allocator: FreeList, bits: seq<bool>)
    requires PartialOk(allocator, bits, MESSAGE_SECTORS)
    ensures Partition(allocator.Free(), UsedSectors(bits), MESSAGE_SECTORS)
  {
    assert UsedBelow(bits, MESSAGE_SECTORS) == UsedSectors(bits);
  }

  lemma SameTwice(was: seq<HashEntry>, mid: seq<HashEntry>, table: seq<HashEntry>)
    requires SameBut(was, mid) && SameBut(mid, table)
    ensures SameBut(was, table)
  {
  }

  lemma ClearedTwice(was: seq<bool>, mid: seq<bool>, bits: seq<bool>)
    requires OnlyCleared(was, mid) && OnlyCleared(mid, bits)
    ensures OnlyCleared(was, bits)
  {
  }

  /** Handles the sector that the scan has found: what lies before it is free. */
  method RebuildSector(t: HashTable, lastFree: nat, m: nat, ghost contacts: map<nat, Contact>, ghost places: map<nat, Place>, ghost first: Card,
                       ghost was: seq<bool>)
    returns (ok: bool)
    requires t.Shape() && Ready(t.storage, t.journal, t.bitmap) && SectorsFit(t.htable[..]) && HasRoom(t.htable[..])
    requires LinksInRange(t.storage.sectors, t.bitmap.bits)
    requires lastFree <= m < MESSAGE_SECTORS && InUse(t.bitmap.bits, m) && Unused(t.bitmap.bits, lastFree, m)
    requires PartialOk(t.messageAllocator, t.bitmap.bits, lastFree)
    modifies t.storage, t.journal, t.bitmap, t.bitmap.words, t.messageAllocator, t.messageAllocator.stack, t.htable
    ensures Ready(t.storage, t.journal, t.bitmap) && PartialOk(t.messageAllocator, t.bitmap.bits, m + 1)
    ensures SectorsFit(t.htable[..]) && HasRoom(t.htable[..])
    ensures LinksInRange(t.storage.sectors, t.bitmap.bits)
    ensures ok && OnlyCleared(old(t.bitmap.bits), t.bitmap.bits) && SameBut(old(t.htable[..]), t.htable[..])
    ensures SameData(old(t.storage.sectors), t.storage.sectors)
    ensures Finding(old(t.storage.sectors), old(t.bitmap.bits), old(t.htable[..]), contacts, places, lastFree) ==>
      && Untouched(t.storage, t.journal, t.bitmap)
      && Finding(t.storage.sectors, t.bitmap.bits, t.htable[..], contacts, places, m + 1)
    ensures Scanning(first, was, old(t.storage.sectors), old(t.bitmap.bits), old(t.htable[..]), contacts, places, lastFree) ==>
      Scanning(first, was, t.storage.sectors, t.bitmap.bits, t.htable[..], contacts, places, m + 1)
  {
    hide Ready, LinksInRange, PartialOk, OnlyCleared, Finding, Scanning, SameData, UsageBitmap.Valid, SectorsFit, HasRoom, SameBut, Unused, InUse;
    ghost var card, bits, table := t.storage.sectors, t.bitmap.bits, t.htable[..];
    if Finding(card, t.bitmap.bits, table, contacts, places, lastFree) {
      FindingPass(card, t.bitmap.bits, table, contacts, places, lastFree, m);
    }
    if Scanning(first, was, card, bits, table, contacts, places, lastFree) {
      ScanPass(first, was, card, bits, table, contacts, places, lastFree, m);
    }
    ReleaseUnused(t.messageAllocator, lastFree, m, t.bitmap.bits);
    PassVisited(t.messageAllocator, t.bitmap.bits, m);
    ok := VisitSector(t, m, contacts, places, first, was);
    LinksKept(card, bits, t.storage.sectors, t.bitmap.bits);
    SectorsFitStill(table, t.htable[..]);
  }

  /** Finds the newest sector of every chat and hands the unused sectors to the allocator.
      Whatever the card holds, the rebuild comes to its end and each sector is then in use or
      free, exactly once, although orphaned chats are taken out of use during the scan. */
  method ReconstructMessage(t: HashTable, ghost contacts: map<nat, Contact>, ghost places: map<nat, Place>) returns (ok: bool)
    requires t.Shape() && Ready(t.storage, t.journal, t.bitmap) && SectorsFit(t.htable[..]) && HasRoom(t.htable[..])
    requires LinksInRange(t.storage.sectors, t.bitmap.bits)
    requires t.messageAllocator.Free() == []
    modifies t.storage, t.journal, t.bitmap, t.bitmap.words, t.messageAllocator, t.messageAllocator.stack, t.htable
    ensures t.Shape() && Ready(t.storage, t.journal, t.bitmap)
    ensures ok && OnlyCleared(old(t.bitmap.bits), t.bitmap.bits) && SameBut(old(t.htable[..]), t.htable[..])
    ensures SameData(old(t.storage.sectors), t.storage.sectors)
    ensures Partition(t.messageAllocator.Free(), UsedSectors(t.bitmap.bits), MESSAGE_SECTORS)
    ensures Finding(old(t.storage.sectors), old(t.bitmap.bits), old(t.htable[..]), contacts, places, 0) ==>
      && Untouched(t.storage, t.journal, t.bitmap)
      && Finding(t.storage.sectors, t.bitmap.bits, t.htable[..], contacts, places, MESSAGE_SECTORS)
    ensures GoodTable(old(t.storage.sectors), old(t.bitmap.bits), old(t.htable[..]), contacts, places) && (forall s <- contacts :: s < MAX_CONTACTS)
            && NewestUnset(old(t.htable[..]), places) ==>
      Scanning(old(t.storage.sectors), old(t.bitmap.bits), t.storage.sectors, t.bitmap.bits, t.htable[..], contacts, places, MESSAGE_SECTORS)
  {
    hide Ready, LinksInRange, OnlyCleared, Finding, Scanning, GoodTable, SameData, NewestUnset, UsageBitmap.Valid,
      SectorsFit, HasRoom, SameBut, Unused, InUse, Partition, UsedBelow, UsedSectors;
    ghost var bits, table := t.bitmap.bits, t.htable[..];
    ghost var good := Finding(t.storage.sectors, bits, table, contacts, places, 0);
    ghost var card := t.storage.sectors;
    SameDataSelf(card);
    ghost var tidy := GoodTable(card, bits, table, contacts, places) && (forall s <- contacts :: s < MAX_CONTACTS) && NewestUnset(table, places);
    ReadyFacts(t.storage, t.journal, t.bitmap);
    if tidy { ScanStart(card, bits, table, contacts, places); }
    Start(t.messageAllocator, bits, table);
    hide PartialOk;
    ok := true;
    var lastFree := 0;
    var data: nat := NextMessageSector(t.bitmap, 0);
    var last := MessageDataSector(MESSAGE_SECTORS - 1);
    while data != NIL && data <= last
      invariant ok && t.Shape() && Ready(t.storage, t.journal, t.bitmap) && SectorsFit(t.htable[..]) && HasRoom(t.htable[..])
      invariant LinksInRange(t.storage.sectors, t.bitmap.bits)
      invariant PartialOk(t.messageAllocator, t.bitmap.bits, lastFree) && NextUsed(t.bitmap.bits, lastFree, data)
      invariant OnlyCleared(bits, t.bitmap.bits) && SameBut(table, t.htable[..])
      invariant SameData(card, t.storage.sectors)
      invariant good ==> Untouched(t.storage, t.journal, t.bitmap)
                         && Finding(t.storage.sectors, t.bitmap.bits, t.htable[..], contacts, places, lastFree)
      invariant tidy ==> Scanning(card, bits, t.storage.sectors, t.bitmap.bits, t.htable[..], contacts, places, lastFree)
      decreases MESSAGE_SECTORS - lastFree
    {
      ghost var midCard, midBits, midTable := t.storage.sectors, t.bitmap.bits, t.htable[..];
      var m := data - MESSAGE_START;
      ok := RebuildSector(t, lastFree, m, contacts, places, card, bits);
      if !ok {
        return;
      }
      ClearedTwice(bits, midBits, t.bitmap.bits);
      SameDataTwice(card, midCard, t.storage.sectors);
      SameTwice(table, midTable, t.htable[..]);
      lastFree := m + 1;
      if data == last {
        data := NIL;
        NoneLeft(t.bitmap.bits);
      } else {
        ReadyFacts(t.storage, t.journal, t.bitmap);
        data := NextMessageSector(t.bitmap, lastFree);
      }
    }
    ReleaseUnused(t.messageAllocator, lastFree, MESSAGE_SECTORS, t.bitmap.bits);
    AllPassed(t.messageAllocator, t.bitmap.bits);
    if good {
      FindingPass(t.storage.sectors, t.bitmap.bits, t.htable[..], contacts, places, lastFree, MESSAGE_SECTORS);
    }
    if tidy {
      ScanPass(card, bits, t.storage.sectors, t.bitmap.bits, t.htable[..], contacts, places, lastFree, MESSAGE_SECTORS);
    }
  }

  lemma SameDataTwice(card: Card, mid: Card, now: Card)
    requires SameData(card, mid) && SameData(mid, now)
    ensures SameData(card, now)
  {
  }

  lemma ScanStart(card: Card, bits: seq<bool>, table: seq<HashEntry>, contacts: map<nat, Contact>, places: map<nat, Place>)
    requires GoodTable(card, bits, table, contacts, places) && (forall s <- contacts :: s < MAX_CONTACTS) && NewestUnset(table, places)
    requires |bits| == TOTAL_BITS
    ensures Scanning(card, bits, card, bits, table, contacts, places, 0)
  {
    NothingCleared(bits);
    NothingCleaned(card, bits, contacts.Keys);
  }

  /** What the scan comes to with orphaned chats on the card: they are out of use, the contacts'
      chats are in use exactly if no orphan links back into one, and then each contact's newest
      sector is the one that it would be if the orphans were not there. */
  lemma FoundBesideOrphans(card: Card, was: seq<bool>, nowCard: Card, now: seq<bool>, table: seq<HashEntry>, contacts: map<nat, Contact>,
                           places: map<nat, Place>, orphans: seq<seq<nat>>)
    requires Scanning(card, was, nowCard, now, table, contacts, places, MESSAGE_SECTORS)
    requires Beside(card, was, contacts.Keys, orphans) && OwnLinks(card, was, contacts.Keys)
    ensures forall m :: 0 <= m < MESSAGE_SECTORS && InUse(was, m) && !Ours(card, was, contacts.Keys, m) ==> !InUse(now, m)
    ensures OursKept(card, was, now, contacts.Keys) <==> forall o <- orphans :: Detached(card, was, contacts.Keys, o)
    ensures (forall o <- orphans :: Detached(card, was, contacts.Keys, o)) ==>
              HeadsFound(card, was, table, places, MESSAGE_SECTORS) && HeadsFound(nowCard, now, table, places, MESSAGE_SECTORS)
  {
    OrphansEnd(card, was, now, contacts.Keys, orphans);
    if forall o <- orphans :: Detached(card, was, contacts.Keys, o) {
      BesideSeparate(card, was, contacts.Keys, orphans);
      GoodKeys(card, was, table, contacts, places);
      forall s | s in places
        ensures NewestHead(nowCard, now, s, MESSAGE_SECTORS) == NewestHead(card, was, s, MESSAGE_SECTORS)
      {
        SameNewest(card, was, nowCard, now, contacts.Keys, s);
      }
    }
    hide OnlyCleared, GoodTable, Beside, OwnLinks, Separate, OursKept, SameData, Detached, Ours, InUse;
  }

  lemma SameNewest(card: Card, was: seq<bool>, nowCard: Card, now: seq<bool>, contacts: set<nat>, slot: nat)
    requires Closed(card, was, now) && Separate(card, was, contacts) && OursKept(card, was, now, contacts) && slot in contacts
    requires SameData(card, nowCard)
    ensures NewestHead(nowCard, now, slot, MESSAGE_SECTORS) == NewestHead(card, was, slot, MESSAGE_SECTORS)
  {
    forall m: nat
      ensures SectorOf(nowCard, m) == SectorOf(card, m)
    {
      SameSector(card, nowCard, m);
    }
    HeadsFrame(card, nowCard, now, slot, MESSAGE_SECTORS);
    NewestSame(card, was, now, contacts, slot, MESSAGE_SECTORS);
  }

  lemma Start(allocator: FreeList, bits: seq<bool>, table: seq<HashEntry>)
    requires allocator.Valid() && allocator.stack.Length == MESSAGE_SECTORS && allocator.Free() == [] && |bits| == TOTAL_BITS
    ensures PartialOk(allocator, bits, 0) && OnlyCleared(bits, bits) && SameBut(table, table)
  {
  }

  lemma NoneLeft(bits: seq<bool>)
    ensures NextUsed(bits, MESSAGE_SECTORS, NIL)
  {
  }

  // ----- what the rebuild finds on a card that the database has written -----

  /** The heads are exactly the ends of the chats. */
  lemma HeadIsLast(card: Card, bits: seq<bool>, chats: map<nat, seq<nat>>, slot: nat, m: nat)
    requires ChatsOk(card, bits, chats) && m < MESSAGE_SECTORS
    ensures HeadOf(card, bits, slot, m) <==> slot in chats && m == LastOr(chats[slot])
  {
    if slot in chats {
      var chain := chats[slot];
      assert LinkOk(card, bits, slot, chain, |chain| - 1);
      ChatInRange(card, bits, slot, chain);
      if InUse(bits, m) && SectorOf(card, m).contactIndex == slot {
        var i :| 0 <= i < |chain| && chain[i] == m;
        assert LinkOk(card, bits, slot, chain, i);
        if i < |chain| - 1 { assert chain[i + 1] in chain; assert chain[i] != chain[|chain| - 1]; }
      }
    }
  }

  lemma {:induction false} NewestIsLast(card: Card, bits: seq<bool>, chats: map<nat, seq<nat>>, slot: nat, pos: nat)
    requires ChatsOk(card, bits, chats) && pos <= MESSAGE_SECTORS
    ensures NewestHead(card, bits, slot, pos) ==
            if slot in chats && LastOr(chats[slot]) < pos then LastOr(chats[slot]) else NIL
  {
    if pos > 0 {
      NewestIsLast(card, bits, chats, slot, pos - 1);
      HeadIsLast(card, bits, chats, slot, pos - 1);
    }
  }

  lemma HeadsAreLatest(card: Card, bits: seq<bool>, table: seq<HashEntry>, chats: map<nat, seq<nat>>, places: map<nat, Place>)
    requires ChatsOk(card, bits, chats) && HeadsFound(card, bits, table, places, MESSAGE_SECTORS)
    ensures LatestOk(table, places, chats)
  {
    forall s | s in places
      ensures NewestHead(card, bits, s, MESSAGE_SECTORS) == LastOr(ChainOf(chats, s))
    {
      NewestIsLast(card, bits, chats, s, MESSAGE_SECTORS);
      if s in chats {
        ChatInRange(card, bits, s, chats[s]);
        assert chats[s][|chats[s]| - 1] in chats[s];
      }
    }
  }

  lemma ChatsHaveContacts(card: Card, bits: seq<bool>, chats: map<nat, seq<nat>>, contacts: map<nat, Contact>)
    requires ChatsOk(card, bits, chats) && chats.Keys <= contacts.Keys
    ensures NoOrphans(card, bits, contacts)
  {
  }

  /** The bitmap on the card determines the bits. */
  lemma BitmapDetermined(card: Card, a: seq<bool>, b: seq<bool>)
    requires BitmapOnCard(card, a) && BitmapOnCard(card, b)
    ensures a == b
  {
    forall d | 0 <= d < TOTAL_BITS
      ensures a[d] == b[d]
    {
      var k := d / USAGE_BITS_PER_SECTOR;
      assert card[BITMAP_START + k] == BitmapSector(SectorBits(a, k)) == BitmapSector(SectorBits(b, k));
      assert SectorBits(a, k)[d % USAGE_BITS_PER_SECTOR] == a[d];
      assert SectorBits(b, k)[d % USAGE_BITS_PER_SECTOR] == b[d];
    }
  }

  lemma RebuiltHolds(card: Card, bits: seq<bool>, table: seq<HashEntry>, gathered: seq<HashEntry>, num: nat, contactFree: seq<nat>, contactUsed: nat,
                     messageFree: seq<nat>, contacts: map<nat, Contact>, places: map<nat, Place>, chats: map<nat, seq<nat>>)
    requires StoreOk(card, bits, chats) && contacts == ContactMap(card, bits)
    requires Gathered(gathered, num, contactFree, contacts, places, ALL_SLOTS) && |contactFree| + contactUsed == MAX_CONTACTS
    requires Finding(card, bits, table, contacts, places, MESSAGE_SECTORS) && |table| == |gathered|
    requires Partition(messageFree, UsedSectors(bits), MESSAGE_SECTORS)
    ensures Holds(card, bits, Ram(table, num, contactFree, contactUsed, messageFree, places, chats), contacts, AllMessages(card, chats))
  {
    var ram := Ram(table, num, contactFree, contactUsed, messageFree, places, chats);
    assert ram.chats == chats;
    StoreParts(card, bits, chats);
    GatheredAll(card, bits, gathered, num, contactFree, contactUsed, contacts, places);
    hide *;
    FindingParts(card, bits, table, contacts, places);
    HeadsAreLatest(card, bits, table, chats, places);
    assert IndexOk(contacts, ram) by { IndexParts(contacts, ram); }
    assert FreeOk(contacts.Keys, UsedSectors(bits), ram) by { FreeParts(contacts.Keys, UsedSectors(bits), ram); }
    HoldsParts(card, bits, ram, contacts, AllMessages(card, chats));
  }

  lemma FindingParts(card: Card, bits: seq<bool>, table: seq<HashEntry>, contacts: map<nat, Contact>, places: map<nat, Place>)
    requires Finding(card, bits, table, contacts, places, MESSAGE_SECTORS)
    ensures TableOk(table, contacts, places) && HeadsFound(card, bits, table, places, MESSAGE_SECTORS)
  {
  }

  lemma IndexParts(contacts: map<nat, Contact>, ram: Ram)
    requires |ram.table| == HASH_TABLE_SIZE && TableOk(ram.table, contacts, ram.places)
    requires LatestOk(ram.table, ram.places, ram.chats) && ram.num == |contacts|
    ensures IndexOk(contacts, ram)
  {
  }

  lemma FreeParts(contacts: set<nat>, used: set<nat>, ram: Ram)
    requires ram.contactUsed == |contacts| && Partition(ram.contactFree, contacts, MAX_CONTACTS) && Partition(ram.messageFree, used, MESSAGE_SECTORS)
    ensures FreeOk(contacts, used, ram)
  {
  }

  lemma GatheredAll(card: Card, bits: seq<bool>, table: seq<HashEntry>, num: nat, free: seq<nat>, used: nat, contacts: map<nat, Contact>,
                    places: map<nat, Place>)
    requires Gathered(table, num, free, contacts, places, ALL_SLOTS) && contacts == ContactMap(card, bits) && |free| + used == MAX_CONTACTS
    ensures |table| == HASH_TABLE_SIZE && num == |contacts| && used == |contacts| == |contacts.Keys| && Partition(free, contacts.Keys, MAX_CONTACTS)
  {
    assert UpTo(contacts, ALL_SLOTS) == contacts;
    PartitionSize(free, contacts.Keys, MAX_CONTACTS);
  }

  // ----- mounting -----

  /** What the database has written: a bitmap, contacts and chats that belong together. */
  ghost predicate Stored(card: Card, bits: seq<bool>, chats: map<nat, seq<nat>>) {
    BitmapOnCard(card, bits) && StoreOk(card, bits, chats)
  }

  /** What the database has written, and beside it chats whose contact is gone. */
  ghost predicate StoredBeside(card: Card, bits: seq<bool>, chats: map<nat, seq<nat>>, orphans: seq<seq<nat>>) {
    && BitmapOnCard(card, bits) && Gatherable(card, bits, ContactMap(card, bits))
    && OwnChats(card, bits, ContactMap(card, bits).Keys, chats) && Beside(card, bits, ContactMap(card, bits).Keys, orphans)
  }

  ghost predicate AllDetached(card: Card, bits: seq<bool>, orphans: seq<seq<nat>>) {
    forall o <- orphans :: Detached(card, bits, ContactMap(card, bits).Keys, o)
  }

  /** The rebuild has taken every sector of the orphans out of use, and kept the contacts' chats
      exactly if no orphan links back into one. */
  ghost predicate OrphansOut(card: Card, bits: seq<bool>, now: seq<bool>, orphans: seq<seq<nat>>) {
    && (forall o, m :: o in orphans && m in o ==> !InUse(now, m))
    && (OursKept(card, bits, now, ContactMap(card, bits).Keys) <==> AllDetached(card, bits, orphans))
  }

  lemma BesideParts(card: Card, bits: seq<bool>, chats: map<nat, seq<nat>>, orphans: seq<seq<nat>>)
    requires StoredBeside(card, bits, chats, orphans)
    ensures ContactRegionOk(card, bits) && PhonesDistinct(ContactMap(card, bits))
    ensures OwnChats(card, bits, ContactMap(card, bits).Keys, chats) && chats.Keys <= ContactMap(card, bits).Keys
    ensures Beside(card, bits, ContactMap(card, bits).Keys, orphans) && OwnLinks(card, bits, ContactMap(card, bits).Keys)
  {
    ChatLinks(card, bits, ContactMap(card, bits).Keys, chats);
  }

  lemma ScanParts(card: Card, was: seq<bool>, nowCard: Card, now: seq<bool>, table: seq<HashEntry>, contacts: map<nat, Contact>,
                  places: map<nat, Place>)
    requires Scanning(card, was, nowCard, now, table, contacts, places, MESSAGE_SECTORS)
    ensures SameData(card, nowCard) && OnlyCleared(was, now) && Closed(card, was, now)
    ensures GoodTable(nowCard, now, table, contacts, places)
    ensures forall m :: 0 <= m < MESSAGE_SECTORS ==> SectorOf(nowCard, m) == SectorOf(card, m)
  {
    ScanningGood(card, was, nowCard, now, table, contacts, places, MESSAGE_SECTORS);
  }

  lemma ScannedOut(card: Card, was: seq<bool>, nowCard: Card, now: seq<bool>, table: seq<HashEntry>, places: map<nat, Place>,
                   chats: map<nat, seq<nat>>, orphans: seq<seq<nat>>)
    requires StoredBeside(card, was, chats, orphans)
    requires Scanning(card, was, nowCard, now, table, ContactMap(card, was), places, MESSAGE_SECTORS)
    ensures OrphansOut(card, was, now, orphans)
  {
    hide *;
    var keys := ContactMap(card, was).Keys;
    BesideParts(card, was, chats, orphans);
    FoundBesideOrphans(card, was, nowCard, now, table, ContactMap(card, was), places, orphans);
    OrphanSectors(card, was, keys, orphans);
    OutAs(card, was, now, orphans);
  }

  lemma OutAs(card: Card, was: seq<bool>, now: seq<bool>, orphans: seq<seq<nat>>)
    requires forall o, m :: o in orphans && m in o ==> !InUse(now, m)
    requires OursKept(card, was, now, ContactMap(card, was).Keys) <==> forall o <- orphans :: Detached(card, was, ContactMap(card, was).Keys, o)
    ensures OrphansOut(card, was, now, orphans)
  {
  }

  /** With all orphans detached the rebuild leaves the database's contacts and chats. */
  lemma ScannedStore(card: Card, was: seq<bool>, nowCard: Card, now: seq<bool>, table: seq<HashEntry>, places: map<nat, Place>,
                     chats: map<nat, seq<nat>>, orphans: seq<seq<nat>>)
    requires StoredBeside(card, was, chats, orphans) && forall o <- orphans :: Detached(card, was, ContactMap(card, was).Keys, o)
    requires Scanning(card, was, nowCard, now, table, ContactMap(card, was), places, MESSAGE_SECTORS)
    ensures ContactMap(nowCard, now) == ContactMap(card, was) && AllMessages(nowCard, chats) == AllMessages(card, chats)
    ensures StoreOk(nowCard, now, chats) && Finding(nowCard, now, table, ContactMap(card, was), places, MESSAGE_SECTORS)
  {
    hide *;
    var contacts := ContactMap(card, was);
    BesideParts(card, was, chats, orphans);
    ScanParts(card, was, nowCard, now, table, contacts, places);
    SameContacts(card, was, nowCard, now);
    FoundBesideOrphans(card, was, nowCard, now, table, contacts, places, orphans);
    ChatsLeft(card, was, nowCard, now, contacts.Keys, chats);
    ChatsHaveContacts(nowCard, now, chats, contacts);
    LeftAs(card, nowCard, now, table, contacts, places, chats);
  }

  lemma LeftAs(card: Card, nowCard: Card, now: seq<bool>, table: seq<HashEntry>, contacts: map<nat, Contact>, places: map<nat, Place>,
               chats: map<nat, seq<nat>>)
    requires contacts == ContactMap(nowCard, now) && ContactRegionOk(nowCard, now) && PhonesDistinct(contacts) && chats.Keys <= contacts.Keys
    requires ChatsOk(nowCard, now, chats) && forall c <- chats :: ChatMessages(nowCard, chats[c]) == ChatMessages(card, chats[c])
    requires GoodTable(nowCard, now, table, contacts, places) && HeadsFound(nowCard, now, table, places, MESSAGE_SECTORS)
    requires NoOrphans(nowCard, now, contacts)
    ensures AllMessages(nowCard, chats) == AllMessages(card, chats)
    ensures StoreOk(nowCard, now, chats) && Finding(nowCard, now, table, contacts, places, MESSAGE_SECTORS)
  {
    hide ChatsOk, ContactRegionOk, PhonesDistinct, GoodTable, HeadsFound, NoOrphans, ChatMessages, ContactMap;
  }

  lemma SameContacts(card: Card, was: seq<bool>, nowCard: Card, now: seq<bool>)
    requires SameData(card, nowCard) && OnlyCleared(was, now)
    ensures ContactMap(nowCard, now) == ContactMap(card, was)
    ensures ContactRegionOk(card, was) ==> ContactRegionOk(nowCard, now)
  {
    assert ContactsSame(card, was, nowCard, now);
    ContactsFrame(card, was, nowCard, now);
  }

  /** The structures in RAM before a rebuild: an empty table, and allocators that give nothing. */
  ghost predicate Unfilled(t: HashTable)
    reads t, t.htable, t.contactAllocator, t.contactAllocator.stack, t.messageAllocator, t.messageAllocator.stack
  {
    && t.Shape() && t.numElems == 0 && (forall j :: 0 <= j < t.htable.Length ==> t.htable[j].state == EntryEmpty)
    && t.contactAllocator.Free() == [] && t.contactAllocator.used == MAX_CONTACTS && t.messageAllocator.Free() == []
  }

  method NewTables(storage: Storage, journal: Journal) returns (t: HashTable)
    requires journal.storage == storage
    ensures fresh(t.Repr() - {storage, journal}) && t.storage == storage && t.journal == journal
    ensures Unfilled(t) && t.bitmap.Valid()
  {
    var bitmap := new UsageBitmap();
    var contactAllocator := new FreeList.AllUsed(MAX_CONTACTS);
    var messageAllocator := new FreeList.AllUsed(MESSAGE_SECTORS);
    var htable := new HashEntry[HASH_TABLE_SIZE](_ => BLANK_ENTRY);
    t := new HashTable(storage, journal, bitmap, contactAllocator, messageAllocator, htable);
  }

  /** Rebuilds everything in RAM from the card, once the journal is recovered.  It comes to its end
      on any card with a readable bitmap; on a card that the database has written, it finds
      every contact and every chat and writes nothing.  If there are chats without a contact
      besides, all their sectors become free, and every contact and chat is found as without them
      if none of them links back into a contact's chat; one that does takes sectors of that chat
      along. */
  method MountTables(t: HashTable, ghost bits: seq<bool>, ghost chats: map<nat, seq<nat>>, ghost orphans: seq<seq<nat>>) returns (ok: bool)
    requires Unfilled(t) && t.bitmap.Valid() && Clean(t.storage.sectors) && t.journal.Session()
    requires forall bits :: BitmapOnCard(t.storage.sectors, bits) ==> LinksInRange(t.storage.sectors, bits)
    requires forall a :: BITMAP_START <= a < DATA_START ==> BitmapShaped(t.storage.sectors[a])
    modifies t.Repr()
    ensures ok <==> forall a :: BITMAP_START <= a < DATA_START ==> !old(t.storage.sectors)[a].Garbage?
    ensures ok ==> t.Shape() && Ready(t.storage, t.journal, t.bitmap)
                   && Partition(t.messageAllocator.Free(), UsedSectors(t.bitmap.bits), MESSAGE_SECTORS)
    ensures Stored(old(t.storage.sectors), bits, chats) ==>
      ok && t.Valid() && t.journal.done == old(t.journal.done) && Rebuilt(t, old(t.storage.sectors), bits, chats)
    ensures StoredBeside(old(t.storage.sectors), bits, chats, orphans) ==>
      && ok && (forall o, m :: o in orphans && m in o ==> m in t.messageAllocator.Free())
      && (OursKept(old(t.storage.sectors), bits, t.bitmap.bits, ContactMap(old(t.storage.sectors), bits).Keys) <==>
          AllDetached(old(t.storage.sectors), bits, orphans))
    ensures StoredBeside(old(t.storage.sectors), bits, chats, orphans) && AllDetached(old(t.storage.sectors), bits, orphans) ==>
      t.Valid() && Restored(t, old(t.storage.sectors), bits, chats)
  {
    hide Ready, LinksInRange, Stored, Clean, Journal.Session, Rebuilt, BitmapOnCard, Partition, UsageBitmap.Valid, Unfilled, Holds,
      StoredBeside, AllDetached, OrphansOut, Restored, ContactMap, OursKept;
    WordsHeld(t);
    ghost var card := t.storage.sectors;
    ghost var good, beside := Stored(card, bits, chats), StoredBeside(card, bits, chats, orphans);
    if good || beside { BitsOnCard(card, bits, chats, orphans); }
    ok := t.bitmap.ReadUsageBitmap(t.storage);
    if ok {
      NowReady(t.storage, t.journal, t.bitmap);
      if good || beside { BitmapDetermined(card, bits, t.bitmap.bits); }
      ok := MountRecords(t, chats, orphans);
      if beside { OutFree(card, bits, t.bitmap.bits, chats, orphans, t.messageAllocator.Free()); }
    }
  }

  /** A sector in use whose contact is gone, beside whatever the database has written, is such an
      orphaned chat.  It links back into a contact's chat exactly if the sector that it names as
      the one before it is in use: that sector was its own chat's once, and was given to another
      chat when its own was removed. */
  lemma StrayBeside(card: Card, bits: seq<bool>, chats: map<nat, seq<nat>>, now: Card, m: nat)
    requires Stored(card, bits, chats) && m < MESSAGE_SECTORS && !InUse(bits, m)
    requires BitmapOnCard(now, bits[MessageDataSector(m) := true])
    requires forall a :: DATA_START <= a < CARD_SECTORS && a != RawData(MessageDataSector(m)) ==> now[a] == card[a]
    requires IsMessageSector(SectorOf(now, m)) && SectorOf(now, m).contactIndex !in ContactMap(card, bits) && SectorOf(now, m).next == NIL
    ensures StoredBeside(now, bits[MessageDataSector(m) := true], chats, [[m]])
    ensures AllDetached(now, bits[MessageDataSector(m) := true], [[m]]) <==> !InUse(bits, SectorOf(now, m).prev)
  {
    hide Stored, StoreOk, BitmapOnCard, ContactMap, ContactRegionOk, PhonesDistinct, InUse, Ours;
    StoredStore(card, bits, chats);
    StoreWith(card, bits, chats);
    StrayContacts(card, bits, now, m);
    var nowBits, contacts := bits[MessageDataSector(m) := true], ContactMap(card, bits);
    StraySectors(card, bits, contacts.Keys, chats, now, m);
    OwnBeside(card, bits, contacts.Keys, chats, now, nowBits, m);
    assert [[m]][0] == [m];
    assert AllDetached(now, nowBits, [[m]]) <==> Detached(now, nowBits, contacts.Keys, [m]);
  }

  lemma StoreWith(card: Card, bits: seq<bool>, chats: map<nat, seq<nat>>)
    requires StoreOk(card, bits, chats)
    ensures ContactRegionOk(card, bits) && PhonesDistinct(ContactMap(card, bits))
    ensures |bits| == TOTAL_BITS && chats.Keys <= ContactMap(card, bits).Keys && ChatsOk(card, bits, chats)
  {
  }

  lemma StrayContacts(card: Card, bits: seq<bool>, now: Card, m: nat)
    requires |bits| == TOTAL_BITS && m < MESSAGE_SECTORS
    requires forall a :: DATA_START <= a < CARD_SECTORS && a != RawData(MessageDataSector(m)) ==> now[a] == card[a]
    ensures ContactMap(now, bits[MessageDataSector(m) := true]) == ContactMap(card, bits)
    ensures ContactRegionOk(card, bits) ==> ContactRegionOk(now, bits[MessageDataSector(m) := true])
  {
    assert ContactsSame(card, bits, now, bits[MessageDataSector(m) := true]);
    ContactsFrame(card, bits, now, bits[MessageDataSector(m) := true]);
  }

  /** Apart from the stray sector everything is as it was, and belongs to a contact's chat. */
  lemma StraySectors(card: Card, bits: seq<bool>, contacts: set<nat>, chats: map<nat, seq<nat>>, now: Card, m: nat)
    requires ChatsOk(card, bits, chats) && chats.Keys <= contacts && m < MESSAGE_SECTORS && !InUse(bits, m)
    requires forall a :: DATA_START <= a < CARD_SECTORS && a != RawData(MessageDataSector(m)) ==> now[a] == card[a]
    requires SectorOf(now, m).MessageSector? && SectorOf(now, m).contactIndex !in contacts
    ensures |bits| == TOTAL_BITS && InUse(bits[MessageDataSector(m) := true], m)
    ensures forall s: nat :: s != m ==>
      && SectorOf(now, s) == SectorOf(card, s) && (InUse(bits[MessageDataSector(m) := true], s) <==> InUse(bits, s))
    ensures forall s: nat :: Ours(now, bits[MessageDataSector(m) := true], contacts, s) <==> InUse(bits, s)
    ensures forall s: nat :: InUse(bits, s) ==> IsMessageSector(SectorOf(card, s))
    ensures OwnChats(now, bits[MessageDataSector(m) := true], contacts, chats)
  {
    var nowBits := bits[MessageDataSector(m) := true];
    forall s: nat | s != m
      ensures SectorOf(now, s) == SectorOf(card, s) && (InUse(nowBits, s) <==> InUse(bits, s))
    {
      if s < MESSAGE_SECTORS {
        assert MessageDataSector(s) != MessageDataSector(m);
        assert now[RawData(MessageDataSector(s))] == card[RawData(MessageDataSector(s))];
      }
    }
    forall s: nat | InUse(bits, s)
      ensures IsMessageSector(SectorOf(card, s)) && SectorOf(card, s).contactIndex in chats && s in chats[SectorOf(card, s).contactIndex]
    {
      var c := SectorOf(card, s).contactIndex;
      assert ChatOk(card, bits, c, chats[c]);
      NextInChat(card, bits, c, chats[c], s);
    }
    hide ChatsOk;
    forall c | c in chats
      ensures ChatOk(now, nowBits, c, chats[c])
    {
      KeptChat(card, bits, chats, c);
      ChatFrame(card, bits, now, nowBits, c, chats[c]);
    }
  }

  lemma KeptChat(card: Card, bits: seq<bool>, chats: map<nat, seq<nat>>, c: nat)
    requires ChatsOk(card, bits, chats) && c in chats
    ensures ChatOk(card, bits, c, chats[c]) && forall s <- chats[c] :: InUse(bits, s)
  {
    ChatInRange(card, bits, c, chats[c]);
  }

  lemma OwnBeside(card: Card, bits: seq<bool>, contacts: set<nat>, chats: map<nat, seq<nat>>, now: Card, nowBits: seq<bool>, m: nat)
    requires |bits| == |nowBits| == TOTAL_BITS && m < MESSAGE_SECTORS && InUse(nowBits, m) && IsMessageSector(SectorOf(now, m))
    requires SectorOf(now, m).contactIndex !in contacts && SectorOf(now, m).next == NIL
    requires forall s: nat :: s != m ==> SectorOf(now, s) == SectorOf(card, s) && (InUse(nowBits, s) <==> InUse(bits, s))
    requires forall s: nat :: Ours(now, nowBits, contacts, s) <==> InUse(bits, s)
    requires forall s: nat :: InUse(bits, s) ==> IsMessageSector(SectorOf(card, s))
    ensures Beside(now, nowBits, contacts, [[m]])
    ensures Detached(now, nowBits, contacts, [m]) <==> !InUse(bits, SectorOf(now, m).prev)
  {
    assert OrphanChat(now, nowBits, contacts, [m]);
    assert [[m]][0] == [m] && m in [m];
    hide OrphanChat, InUse, Ours;
  }

  lemma OutFree(card: Card, was: seq<bool>, now: seq<bool>, chats: map<nat, seq<nat>>, orphans: seq<seq<nat>>, free: seq<nat>)
    requires StoredBeside(card, was, chats, orphans) && OrphansOut(card, was, now, orphans) && Partition(free, UsedSectors(now), MESSAGE_SECTORS)
    ensures forall o, m :: o in orphans && m in o ==> m in free
    ensures OursKept(card, was, now, ContactMap(card, was).Keys) <==> AllDetached(card, was, orphans)
  {
    BesideParts(card, was, chats, orphans);
    OrphanSectors(card, was, ContactMap(card, was).Keys, orphans);
    hide Beside, Gatherable, OursKept, OwnChats, OwnLinks, ContactMap, Ours, Detached, ContactRegionOk, PhonesDistinct;
  }

  lemma WordsHeld(t: HashTable)
    requires t.bitmap.Valid() && Unfilled(t)
    ensures t.bitmap.words.Length == BITMAP_SECTORS * WORDS_PER_SECTOR && t.journal.storage == t.storage
  {
  }

  lemma StoredStore(card: Card, bits: seq<bool>, chats: map<nat, seq<nat>>)
    requires Stored(card, bits, chats)
    ensures StoreOk(card, bits, chats)
  {
  }

  /** Contacts first: a chat is only kept if its contact is there. */
  method MountRecords(t: HashTable, ghost chats: map<nat, seq<nat>>, ghost orphans: seq<seq<nat>>) returns (ok: bool)
    requires Unfilled(t) && Ready(t.storage, t.journal, t.bitmap)
    requires LinksInRange(t.storage.sectors, t.bitmap.bits)
    modifies t.Repr()
    ensures ok && t.Shape() && Ready(t.storage, t.journal, t.bitmap)
    ensures Partition(t.messageAllocator.Free(), UsedSectors(t.bitmap.bits), MESSAGE_SECTORS)
    ensures Stored(old(t.storage.sectors), old(t.bitmap.bits), chats) ==> Rebuilt(t, old(t.storage.sectors), old(t.bitmap.bits), chats)
    ensures Stored(old(t.storage.sectors), old(t.bitmap.bits), chats) ==> t.Valid() && t.journal.done == old(t.journal.done)
    ensures StoredBeside(old(t.storage.sectors), old(t.bitmap.bits), chats, orphans) ==>
              OrphansOut(old(t.storage.sectors), old(t.bitmap.bits), t.bitmap.bits, orphans)
    ensures StoredBeside(old(t.storage.sectors), old(t.bitmap.bits), chats, orphans) && AllDetached(old(t.storage.sectors), old(t.bitmap.bits), orphans) ==>
              t.Valid() && Restored(t, old(t.storage.sectors), old(t.bitmap.bits), chats)
  {
    hide Ready, LinksInRange, Stored, StoreOk, ContactMap, Gatherable, Gathered, Finding, Partition, Holds, UsedSectors, UsageBitmap.Valid,
      StoredBeside, AllDetached, OrphansOut, Scanning, GoodTable, SameData, OnlyCleared, NewestUnset, SameBut, HashTable.Valid;
    ghost var card, bits := t.storage.sectors, t.bitmap.bits;
    ghost var good, contacts := Stored(card, bits, chats), ContactMap(card, bits);
    ghost var beside := StoredBeside(card, bits, chats, orphans);
    if good { StoredGatherable(card, bits, chats); }
    if beside { BesideGatherable(card, bits, chats, orphans); }
    ReadyFacts(t.storage, t.journal, t.bitmap);
    ghost var places;
    ok, places := ReconstructContact(t, contacts);
    ghost var gathered, num, contactFree := t.htable[..], t.numElems, t.contactAllocator.Free();
    if good { GatheredFinding(card, bits, chats, gathered, num, contactFree, places); }
    if beside { GatheredTidy(card, bits, gathered, num, contactFree, places); }
    if ok {
      FitsShape(t);
      ok := ReconstructMessage(t, contacts, places);
      if beside { ScannedOut(card, bits, t.storage.sectors, t.bitmap.bits, t.htable[..], places, chats, orphans); }
      if good || (beside && AllDetached(card, bits, orphans)) {
        RecordsHold(card, bits, t.storage.sectors, t.bitmap.bits, t.htable[..], gathered, num, contactFree, t.contactAllocator.used,
                    t.messageAllocator.Free(), places, chats, orphans);
        Settle(t, contactFree, places, chats, contacts, AllMessages(card, chats));
      }
    }
  }

  /** Notes what the table stands for. */
  ghost method Settle(t: HashTable, contactFree: seq<nat>, places: map<nat, Place>, chats: map<nat, seq<nat>>, contacts: map<nat, Contact>,
                      messages: map<nat, seq<Message>>)
    requires t.Shape() && Ready(t.storage, t.journal, t.bitmap) && t.contactAllocator.Free() == contactFree
    requires Holds(t.storage.sectors, t.bitmap.bits,
                   Ram(t.htable[..], t.numElems, contactFree, t.contactAllocator.used, t.messageAllocator.Free(), places, chats), contacts, messages)
    modifies t`ram, t`contacts, t`messages
    ensures t.Valid() && t.ram.chats == chats && t.contacts == contacts && t.messages == messages
  {
    hide Ready, Holds;
    t.ram := Ram(t.htable[..], t.numElems, contactFree, t.contactAllocator.used, t.messageAllocator.Free(), places, chats);
    t.contacts, t.messages := contacts, messages;
  }

  lemma RecordsHold(card: Card, was: seq<bool>, nowCard: Card, now: seq<bool>, table: seq<HashEntry>, gathered: seq<HashEntry>, num: nat,
                    contactFree: seq<nat>, contactUsed: nat, messageFree: seq<nat>, places: map<nat, Place>, chats: map<nat, seq<nat>>,
                    orphans: seq<seq<nat>>)
    requires || (Stored(card, was, chats) && nowCard == card && now == was
                 && Finding(card, was, table, ContactMap(card, was), places, MESSAGE_SECTORS))
             || (StoredBeside(card, was, chats, orphans) && AllDetached(card, was, orphans)
                 && Scanning(card, was, nowCard, now, table, ContactMap(card, was), places, MESSAGE_SECTORS))
    requires Gathered(gathered, num, contactFree, ContactMap(card, was), places, ALL_SLOTS) && |contactFree| + contactUsed == MAX_CONTACTS
    requires |table| == |gathered| && Partition(messageFree, UsedSectors(now), MESSAGE_SECTORS)
    ensures Holds(nowCard, now, Ram(table, num, contactFree, contactUsed, messageFree, places, chats), ContactMap(card, was), AllMessages(card, chats))
  {
    hide *;
    if Stored(card, was, chats) && nowCard == card && now == was && Finding(card, was, table, ContactMap(card, was), places, MESSAGE_SECTORS) {
      StoredStore(card, was, chats);
    } else {
      DetachedStore(card, was, nowCard, now, table, places, chats, orphans);
    }
    RebuiltHolds(nowCard, now, table, gathered, num, contactFree, contactUsed, messageFree, ContactMap(card, was), places, chats);
  }

  lemma DetachedStore(card: Card, was: seq<bool>, nowCard: Card, now: seq<bool>, table: seq<HashEntry>, places: map<nat, Place>,
                      chats: map<nat, seq<nat>>, orphans: seq<seq<nat>>)
    requires StoredBeside(card, was, chats, orphans) && AllDetached(card, was, orphans)
    requires Scanning(card, was, nowCard, now, table, ContactMap(card, was), places, MESSAGE_SECTORS)
    ensures ContactMap(nowCard, now) == ContactMap(card, was) && AllMessages(nowCard, chats) == AllMessages(card, chats)
    ensures StoreOk(nowCard, now, chats) && Finding(nowCard, now, table, ContactMap(card, was), places, MESSAGE_SECTORS)
  {
    hide StoredBeside, Scanning, ContactMap, Finding, StoreOk, AllMessages, Detached;
    ScannedStore(card, was, nowCard, now, table, places, chats, orphans);
  }

  lemma BesideGatherable(card: Card, bits: seq<bool>, chats: map<nat, seq<nat>>, orphans: seq<seq<nat>>)
    requires StoredBeside(card, bits, chats, orphans)
    ensures Gatherable(card, bits, ContactMap(card, bits))
  {
  }

  lemma GatheredTidy(card: Card, bits: seq<bool>, table: seq<HashEntry>, num: nat, free: seq<nat>, places: map<nat, Place>)
    requires Gatherable(card, bits, ContactMap(card, bits)) && Gathered(table, num, free, ContactMap(card, bits), places, ALL_SLOTS)
    ensures GoodTable(card, bits, table, ContactMap(card, bits), places) && NewestUnset(table, places)
    ensures forall s <- ContactMap(card, bits) :: s < MAX_CONTACTS
  {
    AllUpTo(card, bits);
    hide TableOk, PhonesDistinct, Partition, ContactRegionOk, NewestUnset, UpTo, ContactAt;
  }

  /** The table stands for the contacts and messages of the card before the rebuild. */
  ghost predicate Restored(t: HashTable, card: Card, bits: seq<bool>, chats: map<nat, seq<nat>>)
    reads t
  {
    t.ram.chats == chats && t.contacts == ContactMap(card, bits) && t.messages == AllMessages(card, chats)
  }

  ghost predicate Rebuilt(t: HashTable, card: Card, bits: seq<bool>, chats: map<nat, seq<nat>>)
    reads t, t.storage, t.bitmap
  {
    && t.storage.sectors == card && t.bitmap.bits == bits && t.ram.chats == chats
    && t.contacts == ContactMap(card, bits) && t.messages == AllMessages(card, chats)
  }

  lemma FitsShape(t: HashTable)
    requires FreeFits(t.contactAllocator, MAX_CONTACTS)
    ensures t.contactAllocator.Valid() && t.contactAllocator.used + |t.contactAllocator.Free()| == MAX_CONTACTS
  {
  }

  lemma BitsOnCard(card: Card, bits: seq<bool>, chats: map<nat, seq<nat>>, orphans: seq<seq<nat>>)
    requires Stored(card, bits, chats) || StoredBeside(card, bits, chats, orphans)
    ensures BitmapOnCard(card, bits) && forall a :: BITMAP_START <= a < DATA_START ==> !card[a].Garbage?
  {
    forall a | BITMAP_START <= a < DATA_START
      ensures !card[a].Garbage?
    {
      assert card[BITMAP_START + (a - BITMAP_START)] == BitmapSector(SectorBits(bits, a - BITMAP_START));
    }
  }

  lemma StoredGatherable(card: Card, bits: seq<bool>, chats: map<nat, seq<nat>>)
    requires Stored(card, bits, chats)
    ensures Gatherable(card, bits, ContactMap(card, bits))
  {
  }

  lemma NowReady(storage: Storage, journal: Journal, bitmap: UsageBitmap)
    requires journal.storage == storage && bitmap.Valid() && BitmapOnCard(storage.sectors, bitmap.bits)
    requires Clean(storage.sectors) && journal.Session()
    ensures Ready(storage, journal, bitmap)
  {
  }

  lemma GatheredFinding(card: Card, bits: seq<bool>, chats: map<nat, seq<nat>>, table: seq<HashEntry>, num: nat, free: seq<nat>, places: map<nat, Place>)
    requires Stored(card, bits, chats) && Gathered(table, num, free, ContactMap(card, bits), places, ALL_SLOTS)
    ensures Finding(card, bits, table, ContactMap(card, bits), places, 0)
  {
    hide *;
    AllUpTo(card, bits);
    StoredStore(card, bits, chats);
    StoreFinding(card, bits, chats, table, places);
    FreshTable(card, bits, table, num, free, ContactMap(card, bits), places);
    FindingStart(card, bits, table, ContactMap(card, bits), places);
  }

  lemma StoreFinding(card: Card, bits: seq<bool>, chats: map<nat, seq<nat>>, table: seq<HashEntry>, places: map<nat, Place>)
    requires StoreOk(card, bits, chats)
    ensures NoOrphans(card, bits, ContactMap(card, bits)) && PhonesDistinct(ContactMap(card, bits))
    ensures forall s <- ContactMap(card, bits) :: s <= NIL && ContactAt(card, bits, s) == Some(ContactMap(card, bits)[s])
  {
    ChatsHaveContacts(card, bits, chats, ContactMap(card, bits));
  }

  lemma FreshTable(card: Card, bits: seq<bool>, table: seq<HashEntry>, num: nat, free: seq<nat>, contacts: map<nat, Contact>, places: map<nat, Place>)
    requires Gathered(table, num, free, contacts, places, ALL_SLOTS) && UpTo(contacts, ALL_SLOTS) == contacts
    ensures TableOk(table, contacts, places) && HeadsFound(card, bits, table, places, 0)
  {
  }

  lemma FindingStart(card: Card, bits: seq<bool>, table: seq<HashEntry>, contacts: map<nat, Contact>, places: map<nat, Place>)
    requires TableOk(table, contacts, places) && PhonesDistinct(contacts) && NoOrphans(card, bits, contacts)
    requires HeadsFound(card, bits, table, places, 0)
    requires forall s <- contacts :: s <= NIL && ContactAt(card, bits, s) == Some(contacts[s])
    ensures Finding(card, bits, table, contacts, places, 0)
  {
  }

  lemma AllUpTo(card: Card, bits: seq<bool>)
    ensures UpTo(ContactMap(card, bits), ALL_SLOTS) == ContactMap(card, bits)
  {
  }
}
