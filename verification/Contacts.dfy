/** Contacts on the card: six slots to a sector, each written in its own transaction. */
module Contacts {
  import opened Layout
  import opened StorageCard
  import opened JournalLog
  import opened UsageBitmaps
  import opened Journals
  import opened CrashSafety
  import opened Transactions
  import opened FreeLists

  function ContactDataSector(slot: nat): nat { slot / CONTACT_CAPACITY }

  /** The sector read back as a contact sector; anything else fails its checks. */
  predicate IsContactSector(s: Sector) {
    s.ContactSector? && |s.used| == CONTACT_CAPACITY && |s.slots| == CONTACT_CAPACITY
  }

  function BlankContactSector(): Sector {
    ContactSector(seq(CONTACT_CAPACITY, _ => false), seq(CONTACT_CAPACITY, _ => Contact([], [])))
  }

  /** The contact that the card holds in a slot. */
  function ContactAt(card: Card, bits: seq<bool>, slot: nat): Option<Contact> {
    if |bits| == TOTAL_BITS && slot <= NIL then
      var s := card[RawData(ContactDataSector(slot))];
      if bits[ContactDataSector(slot)] && IsContactSector(s) && s.used[slot % CONTACT_CAPACITY]
      then Some(s.slots[slot % CONTACT_CAPACITY]) else None
    else None
  }

  /** Every contact sector in use is readable, and only slots that exist are in use in it. */
  predicate ContactRegionOk(card: Card, bits: seq<bool>) {
    && |bits| == TOTAL_BITS
    && forall d :: 0 <= d < CONTACT_SECTORS && bits[d] ==> ContactSectorOk(card[RawData(d)], d)
  }

  predicate ContactSectorOk(s: Sector, d: nat) {
    && IsContactSector(s)
    && forall pos :: 0 <= pos < CONTACT_CAPACITY && s.used[pos] ==> d * CONTACT_CAPACITY + pos < MAX_CONTACTS
  }

  method ReadContact(storage: Storage, bitmap: UsageBitmap, slot: nat) returns (ret: Ret, c: Contact)
    requires bitmap.Valid() && slot <= NIL
    ensures ret in {Ok, Empty, Corrupt}
    ensures ret == Ok <==> ContactAt(storage.sectors, bitmap.bits, slot).Some?
    ensures ret == Ok ==> c == ContactAt(storage.sectors, bitmap.bits, slot).value
    ensures ret == Corrupt <==> bitmap.bits[ContactDataSector(slot)] && !IsContactSector(storage.sectors[RawData(ContactDataSector(slot))])
  {
    c := Contact([], []);
    var inUse := bitmap.CheckUsageBit(ContactDataSector(slot));
    if !inUse {
      return Empty, c;
    }
    var s := storage.sectors[RawData(ContactDataSector(slot))];
    if !IsContactSector(s) {
      return Corrupt, c;
    }
    if !s.used[slot % CONTACT_CAPACITY] {
      return Empty, c;
    }
    return Ok, s.slots[slot % CONTACT_CAPACITY];
  }

  /** The sector a write to `slot` starts from: the one on the card, or a clean slate. */
  function OldSector(card: Card, bits: seq<bool>, slot: nat): Sector
    requires |bits| == TOTAL_BITS && slot < MAX_CONTACTS
  {
    if bits[ContactDataSector(slot)] then card[RawData(ContactDataSector(slot))] else BlankContactSector()
  }

  function WithContact(s: Sector, slot: nat, c: Contact): Sector
    requires IsContactSector(s)
  {
    var pos := slot % CONTACT_CAPACITY;
    ContactSector(s.used[pos := true], s.slots[pos := c])
  }

  function WriteContactTx(card: Card, bits: seq<bool>, slot: nat, c: Contact): Tx
    requires |bits| == TOTAL_BITS && slot < MAX_CONTACTS && IsContactSector(OldSector(card, bits, slot))
  {
    var s := OldSector(card, bits, slot);
    OpTx(ContactKind, bits, ContactDataSector(slot), s, Some(true), Some(WithContact(s, slot, c)), true)
  }

  /** Only slot `slot` of the contact region has changed, and it now holds `c`. */
  predicate ContactChanged(was: Card, wasBits: seq<bool>, now: Card, nowBits: seq<bool>, slot: nat, c: Option<Contact>) {
    && |wasBits| == TOTAL_BITS && |nowBits| == TOTAL_BITS && slot < MAX_CONTACTS
    && (forall s :: 0 <= s < MAX_CONTACTS && s != slot ==> ContactAt(now, nowBits, s) == ContactAt(was, wasBits, s))
    && ContactAt(now, nowBits, slot) == c
    && (forall a :: DATA_START <= a < CARD_SECTORS && a != RawData(ContactDataSector(slot)) ==> now[a] == was[a])
    && (forall d :: 0 <= d < TOTAL_BITS && d != ContactDataSector(slot) ==> nowBits[d] == wasBits[d])
  }

  lemma SlotApart(s: nat, slot: nat)
    requires s != slot
    ensures ContactDataSector(s) != ContactDataSector(slot) || s % CONTACT_CAPACITY != slot % CONTACT_CAPACITY
  {
  }

  lemma ContactWritten(was: Card, bits: seq<bool>, now: Card, nowBits: seq<bool>, slot: nat, c: Contact)
    requires slot < MAX_CONTACTS && OnlySector(was, bits, now, nowBits, ContactDataSector(slot))
    requires IsContactSector(OldSector(was, bits, slot))
    requires nowBits[ContactDataSector(slot)]
    requires now[RawData(ContactDataSector(slot))] == WithContact(OldSector(was, bits, slot), slot, c)
    ensures ContactChanged(was, bits, now, nowBits, slot, Some(c))
  {
    forall s | 0 <= s < MAX_CONTACTS && s != slot
      ensures ContactAt(now, nowBits, s) == ContactAt(was, bits, s)
    {
      SlotApart(s, slot);
    }
  }

  lemma RegionWritten(was: Card, bits: seq<bool>, now: Card, nowBits: seq<bool>, slot: nat, c: Contact)
    requires slot < MAX_CONTACTS && OnlySector(was, bits, now, nowBits, ContactDataSector(slot)) && ContactRegionOk(was, bits)
    requires now[RawData(ContactDataSector(slot))] == WithContact(OldSector(was, bits, slot), slot, c)
    ensures ContactRegionOk(now, nowBits)
  {
    var d := ContactDataSector(slot);
    var s := now[RawData(d)];
    forall pos | 0 <= pos < CONTACT_CAPACITY && s.used[pos]
      ensures d * CONTACT_CAPACITY + pos < MAX_CONTACTS
    {
      if pos == slot % CONTACT_CAPACITY {
        assert d * CONTACT_CAPACITY + pos == slot;
      } else {
        assert OldSector(was, bits, slot).used[pos];
        assert bits[d] && ContactSectorOk(was[RawData(d)], d);
      }
    }
  }

  lemma RegionReadable(card: Card, bits: seq<bool>, slot: nat)
    requires |bits| == TOTAL_BITS && slot < MAX_CONTACTS
    ensures ContactRegionOk(card, bits) ==> IsContactSector(OldSector(card, bits, slot))
  {
    assert bits[ContactDataSector(slot)] && ContactRegionOk(card, bits) ==> ContactSectorOk(card[RawData(ContactDataSector(slot))], ContactDataSector(slot));
  }

  method WriteContact(storage: Storage, journal: Journal, bitmap: UsageBitmap, slot: nat, c: Contact) returns (ret: Ret)
    requires Ready(storage, journal, bitmap) && slot < MAX_CONTACTS
    modifies storage, journal, bitmap, bitmap.words
    ensures Ready(storage, journal, bitmap)
    ensures ret in {Ok, Fail}
    ensures ret == Ok <==> IsContactSector(OldSector(old(storage.sectors), old(bitmap.bits), slot))
    ensures ret == Ok ==> journal.done == old(journal.done) + [WriteContactTx(old(storage.sectors), old(bitmap.bits), slot, c)]
    ensures ret == Ok ==> ContactChanged(old(storage.sectors), old(bitmap.bits), storage.sectors, bitmap.bits, slot, Some(c))
    ensures ContactRegionOk(old(storage.sectors), old(bitmap.bits)) ==> ret == Ok && ContactRegionOk(storage.sectors, bitmap.bits)
    ensures ret != Ok ==> storage.sectors == old(storage.sectors) && journal.done == old(journal.done) && bitmap.bits == old(bitmap.bits)
  {
    hide Ready, ContactRegionOk, ContactChanged, OnlySector, ContactAt, WithContact, UsageBitmap.Valid;
    ReadyFacts(storage, journal, bitmap);
    ReadyClean(storage, journal, bitmap);
    RegionReadable(storage.sectors, bitmap.bits, slot);
    var d := ContactDataSector(slot);
    var cSector := BlankContactSector();
    var inUse := bitmap.CheckUsageBit(d);
    if inUse {
      cSector := storage.sectors[RawData(d)];
      if !IsContactSector(cSector) {
        return Fail;
      }
    }
    assert cSector == OldSector(storage.sectors, bitmap.bits, slot);
    Transact(storage, journal, bitmap, ContactKind, d, cSector, Some(true), Some(WithContact(cSector, slot, c)), true);
    ContactWritten(old(storage.sectors), old(bitmap.bits), storage.sectors, bitmap.bits, slot, c);
    if ContactRegionOk(old(storage.sectors), old(bitmap.bits)) {
      RegionWritten(old(storage.sectors), old(bitmap.bits), storage.sectors, bitmap.bits, slot, c);
    }
    return Ok;
  }

  // ----- removal -----

  function WithoutContact(s: Sector, slot: nat): Sector
    requires IsContactSector(s)
  {
    s.(used := s.used[slot % CONTACT_CAPACITY := false])
  }

  /** The last contact of a sector clears the sector's bit and leaves the sector alone; any
      other one is cleared in the sector. */
  function RemoveContactTx(card: Card, bits: seq<bool>, slot: nat): Tx
    requires |bits| == TOTAL_BITS && slot < MAX_CONTACTS && IsContactSector(card[RawData(ContactDataSector(slot))])
  {
    var d := ContactDataSector(slot);
    var s := WithoutContact(card[RawData(d)], slot);
    if true in s.used then OpTx(ContactKind, bits, d, card[RawData(d)], None, Some(s), false)
    else OpTx(ContactKind, bits, d, card[RawData(d)], Some(false), None, false)
  }

  lemma ContactCleared(was: Card, bits: seq<bool>, now: Card, nowBits: seq<bool>, slot: nat)
    requires slot < MAX_CONTACTS && OnlySector(was, bits, now, nowBits, ContactDataSector(slot))
    requires ContactAt(was, bits, slot).Some?
    requires var d := ContactDataSector(slot);
             var s := WithoutContact(was[RawData(d)], slot);
             if true in s.used then nowBits[d] && now[RawData(d)] == s else !nowBits[d]
    ensures ContactChanged(was, bits, now, nowBits, slot, None)
  {
    var s := WithoutContact(was[RawData(ContactDataSector(slot))], slot);
    forall t | 0 <= t < MAX_CONTACTS && t != slot
      ensures ContactAt(now, nowBits, t) == ContactAt(was, bits, t)
    {
      SlotApart(t, slot);
      assert ContactDataSector(t) == ContactDataSector(slot) ==> s.used[t % CONTACT_CAPACITY] == was[RawData(ContactDataSector(t))].used[t % CONTACT_CAPACITY];
    }
  }

  lemma RegionCleared(was: Card, bits: seq<bool>, now: Card, nowBits: seq<bool>, slot: nat)
    requires slot < MAX_CONTACTS && OnlySector(was, bits, now, nowBits, ContactDataSector(slot)) && ContactRegionOk(was, bits)
    requires var d := ContactDataSector(slot);
             bits[d] && IsContactSector(was[RawData(d)]) && (nowBits[d] ==> now[RawData(d)] == WithoutContact(was[RawData(d)], slot))
    ensures ContactRegionOk(now, nowBits)
  {
    assert bits[ContactDataSector(slot)] ==> ContactSectorOk(was[RawData(ContactDataSector(slot))], ContactDataSector(slot));
  }

  /** The last contact of a sector clears the sector's usage bit; otherwise the sector is
      rewritten without it. */
  method ClearContact(storage: Storage, journal: Journal, bitmap: UsageBitmap, slot: nat, cSector: Sector)
    requires Ready(storage, journal, bitmap) && slot < MAX_CONTACTS
    requires ContactAt(storage.sectors, bitmap.bits, slot).Some? && cSector == storage.sectors[RawData(ContactDataSector(slot))]
    modifies storage, journal, bitmap, bitmap.words
    ensures Ready(storage, journal, bitmap)
    ensures journal.done == old(journal.done) + [RemoveContactTx(old(storage.sectors), old(bitmap.bits), slot)]
    ensures ContactChanged(old(storage.sectors), old(bitmap.bits), storage.sectors, bitmap.bits, slot, None)
    ensures ContactRegionOk(old(storage.sectors), old(bitmap.bits)) ==> ContactRegionOk(storage.sectors, bitmap.bits)
  {
    var d := ContactDataSector(slot);
    var rest := WithoutContact(cSector, slot);
    ReadyClean(storage, journal, bitmap);
    ReadyFacts(storage, journal, bitmap);
    hide Ready, ContactChanged, ContactRegionOk, BitmapOnCard, Clean;
    if true in rest.used {
      Transact(storage, journal, bitmap, ContactKind, d, cSector, None, Some(rest), false);
    } else {
      Transact(storage, journal, bitmap, ContactKind, d, cSector, Some(false), None, false);
    }
    ContactCleared(old(storage.sectors), old(bitmap.bits), storage.sectors, bitmap.bits, slot);
    if ContactRegionOk(old(storage.sectors), old(bitmap.bits)) {
      RegionCleared(old(storage.sectors), old(bitmap.bits), storage.sectors, bitmap.bits, slot);
    }
  }

  lemma ReadyJournal(storage: Storage, journal: Journal, bitmap: UsageBitmap)
    requires Ready(storage, journal, bitmap)
    ensures journal.storage == storage
  {
  }

  /** Saves a contact sector and arms the journal, and leaves it at that. */
  method ArmOnly(journal: Journal, bitmap: UsageBitmap, d: nat, cSector: Sector)
    requires bitmap.Valid() && d < CONTACT_SECTORS
    modifies journal`header, journal.storage
    ensures Status(journal.storage.sectors[JOURNAL_HEADER]) == HeaderRollback
  {
    AddApplies(journal.storage.sectors, ContactKind, d, cSector, UsageOf(bitmap.bits, ContactKind, d));
    journal.Add(ContactKind, d, cSector, bitmap);
  }

  /** Fails, and changes nothing, when the slot's sector is unused or unreadable; fails with
      the journal left armed when the sector is in use but the slot is not. */
  method RemoveContact(storage: Storage, journal: Journal, bitmap: UsageBitmap, allocator: FreeList, slot: nat)
    returns (ok: bool, removed: Contact)
    requires Ready(storage, journal, bitmap) && slot < MAX_CONTACTS
    requires allocator.Valid() && allocator.top < allocator.stack.Length
    requires allocator.used > 0
    modifies storage, journal, bitmap, bitmap.words, allocator, allocator.stack
    ensures allocator.Valid()
    ensures ok <==> ContactAt(old(storage.sectors), old(bitmap.bits), slot).Some?
    ensures ok ==> Ready(storage, journal, bitmap)
    ensures ok ==> removed == ContactAt(old(storage.sectors), old(bitmap.bits), slot).value
    ensures ok ==> journal.done == old(journal.done) + [RemoveContactTx(old(storage.sectors), old(bitmap.bits), slot)]
    ensures ok ==> ContactChanged(old(storage.sectors), old(bitmap.bits), storage.sectors, bitmap.bits, slot, None)
    ensures ok && ContactRegionOk(old(storage.sectors), old(bitmap.bits)) ==> ContactRegionOk(storage.sectors, bitmap.bits)
    ensures ok ==> allocator.Free() == old(allocator.Free()) + [slot] && allocator.used == old(allocator.used) - 1
    ensures !ok ==> allocator.Free() == old(allocator.Free()) && allocator.used == old(allocator.used)
    ensures !ok ==> bitmap.Valid() && bitmap.bits == old(bitmap.bits)
    ensures !ok ==> var d := ContactDataSector(slot);
                    if old(bitmap.bits)[d] && IsContactSector(old(storage.sectors)[RawData(d)])
                    then Status(storage.sectors[JOURNAL_HEADER]) == HeaderRollback
                    else storage.sectors == old(storage.sectors) && storage.log == old(storage.log)
  {
    hide Ready, ContactChanged, ContactRegionOk, UsageBitmap.Valid, RemoveContactTx;
    ReadyFacts(storage, journal, bitmap);
    ReadyJournal(storage, journal, bitmap);
    removed := Contact([], []);
    var d := ContactDataSector(slot);
    var inUse := bitmap.CheckUsageBit(d);
    if !inUse {
      return false, removed;
    }
    var cSector := storage.sectors[RawData(d)];
    if !IsContactSector(cSector) {
      return false, removed;
    }
    if !cSector.used[slot % CONTACT_CAPACITY] {
      ArmOnly(journal, bitmap, d, cSector);
      return false, removed;
    }
    removed := cSector.slots[slot % CONTACT_CAPACITY];
    ClearContact(storage, journal, bitmap, slot, cSector);
    allocator.Release(slot);
    return true, removed;
  }

  /** The contacts on the card, by slot. */
  ghost function ContactMap(card: Card, bits: seq<bool>): map<nat, Contact> {
    map slot: nat | slot < MAX_CONTACTS && ContactAt(card, bits, slot).Some? :: ContactAt(card, bits, slot).value
  }

  lemma ContactMapChanged(was: Card, wasBits: seq<bool>, now: Card, nowBits: seq<bool>, slot: nat, c: Option<Contact>)
    requires ContactChanged(was, wasBits, now, nowBits, slot, c)
    ensures ContactMap(now, nowBits) ==
            if c.Some? then ContactMap(was, wasBits)[slot := c.value] else ContactMap(was, wasBits) - {slot}
  {
  }
}
